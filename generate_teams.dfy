/**
 * `generate_teams` as the procedure it is: three parallel arrays updated in
 * place, a seeding loop, and a nested greedy loop with a `best_team` option.
 * The append-and-count update, which the source writes out once for seeding
 * and once for the greedy fill, is `AddMember`; the inner scan is `ChooseTeam`.
 */
module Randomize {
  import opened Wrappers
  import opened Players
  import opened SkillSort
  import opened TeamBalancer

  /** The state held by the three parallel arrays. */
  ghost function State(members: array<seq<Player>>, skill: array<int>, female: array<int>): Assignment
    reads members, skill, female
  {
    Assignment(members[..], skill[..], female[..])
  }

  /** Appends `p` to team `i` and updates that team's skill total and female count. */
  method AddMember(members: array<seq<Player>>, skill: array<int>, female: array<int>, i: nat, p: Player)
    requires skill.Length == members.Length && female.Length == members.Length
    requires skill != female && i < members.Length
    modifies members, skill, female
    ensures State(members, skill, female) == Place(old(State(members, skill, female)), i, p)
  {
    members[i] := members[i] + [p];
    skill[i] := skill[i] + p.skill;
    female[i] := female[i] + (if p.female then 1 else 0);
  }

  /** The inner loop of the greedy fill: scan every team and keep the eligible one with the
      lowest (skill, female count), replacing it only on a strict improvement. */
  method ChooseTeam(members: array<seq<Player>>, skill: array<int>, female: array<int>, playersPerTeam: int)
    returns (best: Option<nat>)
    requires skill.Length == members.Length && female.Length == members.Length
    ensures best == BestTeam(State(members, skill, female), playersPerTeam)
    ensures best.None? <==> AllFull(State(members, skill, female), playersPerTeam)
    ensures best.Some? ==> IsBestTeam(State(members, skill, female), playersPerTeam, best.value)
  {
    best := None;
    for i := 0 to members.Length
      invariant best == BestAmong(State(members, skill, female), playersPerTeam, i)
    {
      if |members[i]| < playersPerTeam {
        if best.None? || skill[i] < skill[best.value] ||
           (skill[i] == skill[best.value] && female[i] < female[best.value]) {
          best := Some(i);
        }
      }
    }
    BestTeamSpec(State(members, skill, female), playersPerTeam);
  }

  /** The seeding loop: goalkeeper `i` joins team `i`, for every `i < k`. */
  method SeedGoalkeepers(members: array<seq<Player>>, skill: array<int>, female: array<int>,
                         gks: seq<Player>, k: nat)
    requires skill.Length == members.Length && female.Length == members.Length && skill != female
    requires k <= |gks| && k <= members.Length
    modifies members, skill, female
    ensures State(members, skill, female) == Seed(old(State(members, skill, female)), gks, k)
  {
    ghost var start := State(members, skill, female);
    for i := 0 to k
      invariant State(members, skill, female) == Seed(start, gks, i)
    {
      AddMember(members, skill, female, i, gks[i]);
    }
  }

  /** The greedy loop: each player of `rest` in turn joins the team `ChooseTeam` picks,
      or is dropped when there is none. */
  method GreedyFill(members: array<seq<Player>>, skill: array<int>, female: array<int>,
                    rest: seq<Player>, playersPerTeam: int)
    requires skill.Length == members.Length && female.Length == members.Length && skill != female
    modifies members, skill, female
    ensures State(members, skill, female) == Fill(old(State(members, skill, female)), rest, playersPerTeam)
  {
    ghost var start := State(members, skill, female);
    for j := 0 to |rest|
      invariant State(members, skill, female) == Fill(start, rest[..j], playersPerTeam)
    {
      var best := ChooseTeam(members, skill, female, playersPerTeam);
      if best.Some? {
        AddMember(members, skill, female, best.value, rest[j]);
      }
      assert rest[..j + 1][..j] == rest[..j];
    }
    assert rest[..|rest|] == rest;
  }

  /** What the source promises of its result, for every outcome of the shuffle. */
  lemma GenerateSpec(players: seq<Player>, shuffled: seq<Player>, numTeams: int, playersPerTeam: int)
    requires multiset(shuffled) == multiset(players)
    ensures var r := Generate(shuffled, numTeams, playersPerTeam);
            && |r.teams| == |r.skill| == TeamCount(numTeams)
            && (forall i :: 0 <= i < |r.teams| ==> r.skill[i] == SumSkill(r.teams[i]))
            && (playersPerTeam >= 1 ==> WithinCapacity(r.teams, playersPerTeam))
            && DrawnFrom(r.teams, players) && NoOtherPosition(r.teams)
  {
    GenerateConsistent(shuffled, numTeams, playersPerTeam);
    GenerateCapacity(shuffled, numTeams, playersPerTeam);
    GenerateMembers(shuffled, numTeams, playersPerTeam);
    forall x | x in shuffled ensures x in players {
      assert x in multiset(shuffled);
    }
  }

  /**
   * `players` is the selection and `shuffled` the order `random.shuffle` left it in.
   * Returns the teams and their skill totals.
   */
  method GenerateTeams(players: seq<Player>, shuffled: seq<Player>, numTeams: int, playersPerTeam: int)
    returns (teams: seq<seq<Player>>, teamSkill: seq<int>)
    requires multiset(shuffled) == multiset(players)
    ensures teams == Generate(shuffled, numTeams, playersPerTeam).teams
    ensures teamSkill == Generate(shuffled, numTeams, playersPerTeam).skill
    ensures |teams| == |teamSkill| == TeamCount(numTeams)
    ensures forall i :: 0 <= i < |teams| ==> teamSkill[i] == SumSkill(teams[i])
    ensures playersPerTeam >= 1 ==> WithinCapacity(teams, playersPerTeam)
    ensures DrawnFrom(teams, players) && NoOtherPosition(teams)
  {
    var gks := Goalkeepers(shuffled);
    var fds := FieldPlayers(shuffled);
    var allPlayers := SortBySkillDesc(gks + fds);

    var n := TeamCount(numTeams);
    var members := new seq<Player>[n](_ => []);
    var skill := new int[n](_ => 0);
    var female := new int[n](_ => 0);
    assert State(members, skill, female) == Empty(n);

    SeedGoalkeepers(members, skill, female, gks, Min(n, |gks|));
    GreedyFill(members, skill, female, allPlayers[|gks|..], playersPerTeam);

    teams, teamSkill := members[..], skill[..];
    GenerateSpec(players, shuffled, numTeams, playersPerTeam);
  }
}
