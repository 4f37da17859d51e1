/**
 * The team generator (`generate_teams`): split the shuffled selection into
 * goalkeepers and field players, rank both together by skill, seed one
 * goalkeeper per team, then hand out the rest of the ranking greedily to the
 * weakest team that still has room.
 *
 * `Assignment` is the state of the three parallel lists the source keeps
 * (members, skill total and female count per team). The functions below
 * specify each phase on that state; `GenerateTeams` is the imperative
 * procedure, proved equal to `Generate`.
 */
module TeamBalancer {
  import opened Wrappers
  import opened Players
  import opened SkillSort

  datatype Assignment = Assignment(teams: seq<seq<Player>>, skill: seq<int>, female: seq<int>)

  /** The three lists are parallel. */
  predicate Shaped(a: Assignment)
  {
    |a.skill| == |a.teams| && |a.female| == |a.teams|
  }

  /** Each running total agrees with the members of its team. */
  predicate Consistent(a: Assignment)
  {
    Shaped(a) &&
    forall i :: 0 <= i < |a.teams| ==>
      a.skill[i] == SumSkill(a.teams[i]) && a.female[i] == FemaleCount(a.teams[i])
  }

  /** Python builds `num_teams` lists with `range`, which yields none for a negative count. */
  function TeamCount(numTeams: int): (r: nat)
    ensures r >= numTeams && (r == 0 || r == numTeams)
  {
    if numTeams < 0 then 0 else numTeams
  }

  function Min(x: int, y: int): int
  {
    if x < y then x else y
  }

  /** Number of players placed over all teams. */
  function TotalSize(teams: seq<seq<Player>>): nat
  {
    if teams == [] then 0 else TotalSize(teams[..|teams| - 1]) + |teams[|teams| - 1]|
  }

  /** Every member of every team is one of `pool`. */
  predicate DrawnFrom(teams: seq<seq<Player>>, pool: seq<Player>)
  {
    forall i, x :: 0 <= i < |teams| && x in teams[i] ==> x in pool
  }

  /** Nobody whose position is neither GK nor FD is on a team. */
  predicate NoOtherPosition(teams: seq<seq<Player>>)
  {
    forall i, x :: 0 <= i < |teams| && x in teams[i] ==> x.position != Other
  }

  /** Every team has at most `c` members. */
  predicate WithinCapacity(teams: seq<seq<Player>>, c: int)
  {
    forall i :: 0 <= i < |teams| ==> |teams[i]| <= c
  }

  /** `n` empty teams with zero totals. */
  function Empty(n: nat): (a: Assignment)
    ensures Shaped(a) && |a.teams| == n
    ensures forall i :: 0 <= i < n ==> a.teams[i] == [] && a.skill[i] == 0 && a.female[i] == 0
  {
    Assignment(seq(n, _ => []), seq(n, _ => 0), seq(n, _ => 0))
  }

  /** Appends `p` to team `i` and adds its skill and gender to that team's totals. */
  function Place(a: Assignment, i: nat, p: Player): (r: Assignment)
    requires Shaped(a) && i < |a.teams|
    ensures Shaped(r) && |r.teams| == |a.teams|
  {
    Assignment(a.teams[i := a.teams[i] + [p]],
               a.skill[i := a.skill[i] + p.skill],
               a.female[i := a.female[i] + (if p.female then 1 else 0)])
  }

  /** Goalkeeper seeding: `gks[i]` goes to team `i`, for every `i < k`. */
  function Seed(a: Assignment, gks: seq<Player>, k: nat): (r: Assignment)
    requires Shaped(a) && k <= |gks| && k <= |a.teams|
    ensures Shaped(r) && |r.teams| == |a.teams|
  {
    if k == 0 then a else Place(Seed(a, gks, k - 1), k - 1, gks[k - 1])
  }

  /** A team is eligible while it has fewer than `playersPerTeam` members. */
  predicate Eligible(a: Assignment, playersPerTeam: int, i: int)
    requires 0 <= i < |a.teams|
  {
    |a.teams[i]| < playersPerTeam
  }

  /** No team can take another player. */
  predicate AllFull(a: Assignment, playersPerTeam: int)
  {
    forall j :: 0 <= j < |a.teams| ==> !Eligible(a, playersPerTeam, j)
  }

  /** The source's replacement test: team `i` has lower total skill than team `j`,
      or equal total skill and fewer female members. */
  predicate Precedes(a: Assignment, i: int, j: int)
    requires Shaped(a) && 0 <= i < |a.teams| && 0 <= j < |a.teams|
  {
    a.skill[i] < a.skill[j] || (a.skill[i] == a.skill[j] && a.female[i] < a.female[j])
  }

  /** The replacement test is a strict order on teams: irreflexive, asymmetric and
      transitive, and two teams neither of which precedes the other have equal keys. */
  lemma PrecedesStrictOrder(a: Assignment, i: int, j: int, k: int)
    requires Shaped(a) && 0 <= i < |a.teams| && 0 <= j < |a.teams| && 0 <= k < |a.teams|
    ensures !Precedes(a, i, i)
    ensures Precedes(a, i, j) ==> !Precedes(a, j, i)
    ensures Precedes(a, i, j) && Precedes(a, j, k) ==> Precedes(a, i, k)
    ensures !Precedes(a, i, j) && !Precedes(a, j, i) ==> a.skill[i] == a.skill[j] && a.female[i] == a.female[j]
  {
  }

  /** Team `b` is the greedy choice: it is eligible, no eligible team precedes it in
      (skill, female count), and it strictly precedes every eligible team of lower index. */
  predicate IsBestTeam(a: Assignment, playersPerTeam: int, b: int)
    requires Shaped(a)
  {
    && 0 <= b < |a.teams| && Eligible(a, playersPerTeam, b)
    && (forall j :: 0 <= j < |a.teams| && Eligible(a, playersPerTeam, j) ==> !Precedes(a, j, b))
    && (forall j :: 0 <= j < b && Eligible(a, playersPerTeam, j) ==> Precedes(a, b, j))
  }

  /** What the scan over teams `0 .. k-1` leaves in `best_team`. */
  function BestAmong(a: Assignment, playersPerTeam: int, k: nat): (r: Option<nat>)
    requires Shaped(a) && k <= |a.teams|
    ensures r.Some? ==> r.value < k && Eligible(a, playersPerTeam, r.value)
  {
    if k == 0 then None
    else
      var b := BestAmong(a, playersPerTeam, k - 1);
      if Eligible(a, playersPerTeam, k - 1) && (b.None? || Precedes(a, k - 1, b.value))
      then Some(k - 1) else b
  }

  /** The source's `best_team` after the inner loop; only an eligible team is chosen. */
  function BestTeam(a: Assignment, playersPerTeam: int): (r: Option<nat>)
    requires Shaped(a)
    ensures r.Some? ==> r.value < |a.teams| && Eligible(a, playersPerTeam, r.value)
  {
    BestAmong(a, playersPerTeam, |a.teams|)
  }

  /** One greedy step: `p` joins the best team, or is dropped when every team is full. */
  function Step(a: Assignment, p: Player, playersPerTeam: int): (r: Assignment)
    requires Shaped(a)
    ensures Shaped(r) && |r.teams| == |a.teams|
  {
    match BestTeam(a, playersPerTeam)
    case None => a
    case Some(b) => Place(a, b, p)
  }

  /** The greedy fill over `ps`, in order. */
  function Fill(a: Assignment, ps: seq<Player>, playersPerTeam: int): (r: Assignment)
    requires Shaped(a)
    ensures Shaped(r) && |r.teams| == |a.teams|
  {
    if ps == [] then a
    else Step(Fill(a, ps[..|ps| - 1], playersPerTeam), ps[|ps| - 1], playersPerTeam)
  }

  /** Goalkeepers followed by field players, ranked by skill (the source's `all_players`). */
  function Ranked(shuffled: seq<Player>): (r: seq<Player>)
    ensures |r| == |Goalkeepers(shuffled)| + |FieldPlayers(shuffled)|
  {
    SortBySkillDesc(Goalkeepers(shuffled) + FieldPlayers(shuffled))
  }

  /** What the greedy loop visits: the ranking minus its first |gks| entries. */
  function GreedyPool(shuffled: seq<Player>): (r: seq<Player>)
    ensures |r| == |FieldPlayers(shuffled)|
  {
    Ranked(shuffled)[|Goalkeepers(shuffled)|..]
  }

  /** The state after goalkeeper seeding. */
  function Seeded(shuffled: seq<Player>, numTeams: int): (r: Assignment)
    ensures Shaped(r) && |r.teams| == TeamCount(numTeams)
  {
    var gks := Goalkeepers(shuffled);
    var n := TeamCount(numTeams);
    Seed(Empty(n), gks, Min(n, |gks|))
  }

  /** The whole generator, for a given outcome `shuffled` of the shuffle. */
  function Generate(shuffled: seq<Player>, numTeams: int, playersPerTeam: int): (r: Assignment)
    ensures Shaped(r) && |r.teams| == TeamCount(numTeams)
  {
    Fill(Seeded(shuffled, numTeams), GreedyPool(shuffled), playersPerTeam)
  }

  // ----- the greedy choice -----

  /** The scan over teams `0 .. k-1` yields nothing exactly when none of them is eligible,
      and otherwise the first eligible team that is minimal in (skill, female count). */
  lemma {:induction false} BestAmongSpec(a: Assignment, playersPerTeam: int, k: nat)
    requires Shaped(a) && k <= |a.teams|
    ensures BestAmong(a, playersPerTeam, k).None? <==>
            forall j :: 0 <= j < k ==> !Eligible(a, playersPerTeam, j)
    ensures BestAmong(a, playersPerTeam, k).Some? ==>
            var b := BestAmong(a, playersPerTeam, k).value;
            && Eligible(a, playersPerTeam, b)
            && (forall j :: 0 <= j < k && Eligible(a, playersPerTeam, j) ==> !Precedes(a, j, b))
            && (forall j :: 0 <= j < b && Eligible(a, playersPerTeam, j) ==> Precedes(a, b, j))
  {
    if k > 0 {
      BestAmongSpec(a, playersPerTeam, k - 1);
    }
  }

  /** `best_team` ends as None exactly when every team is full, and otherwise as the
      greedy choice. */
  lemma BestTeamSpec(a: Assignment, playersPerTeam: int)
    requires Shaped(a)
    ensures BestTeam(a, playersPerTeam).None? <==> AllFull(a, playersPerTeam)
    ensures BestTeam(a, playersPerTeam).Some? ==> IsBestTeam(a, playersPerTeam, BestTeam(a, playersPerTeam).value)
  {
    BestAmongSpec(a, playersPerTeam, |a.teams|);
  }

  /** The greedy choice is unique: the two conditions of `IsBestTeam` pin down one team. */
  lemma BestTeamUnique(a: Assignment, playersPerTeam: int, b1: int, b2: int)
    requires Shaped(a) && IsBestTeam(a, playersPerTeam, b1) && IsBestTeam(a, playersPerTeam, b2)
    ensures b1 == b2
  {
  }

  /** One greedy step: with every team full the state is unchanged; otherwise the player is
      appended to the greedy choice, and only to it. */
  lemma StepSpec(a: Assignment, p: Player, playersPerTeam: int)
    requires Shaped(a)
    ensures AllFull(a, playersPerTeam) ==> Step(a, p, playersPerTeam) == a
    ensures !AllFull(a, playersPerTeam) ==>
            exists b :: IsBestTeam(a, playersPerTeam, b) && Step(a, p, playersPerTeam) == Place(a, b, p)
    ensures forall b :: IsBestTeam(a, playersPerTeam, b) ==> Step(a, p, playersPerTeam) == Place(a, b, p)
  {
    BestTeamSpec(a, playersPerTeam);
    forall b | IsBestTeam(a, playersPerTeam, b) ensures Step(a, p, playersPerTeam) == Place(a, b, p) {
      BestTeamUnique(a, playersPerTeam, b, BestTeam(a, playersPerTeam).value);
    }
  }

  // ----- running totals -----

  lemma PlaceKeepsConsistent(a: Assignment, i: nat, p: Player)
    requires Consistent(a) && i < |a.teams|
    ensures Consistent(Place(a, i, p))
  {
    AppendMember(a.teams[i], p);
    var r := Place(a, i, p);
    forall j | 0 <= j < |r.teams| ensures r.skill[j] == SumSkill(r.teams[j]) && r.female[j] == FemaleCount(r.teams[j]) {
      if j != i {
        assert r.teams[j] == a.teams[j] && r.skill[j] == a.skill[j] && r.female[j] == a.female[j];
      }
    }
  }

  lemma {:induction false} SeedKeepsConsistent(a: Assignment, gks: seq<Player>, k: nat)
    requires Consistent(a) && k <= |gks| && k <= |a.teams|
    ensures Consistent(Seed(a, gks, k))
  {
    if k > 0 {
      SeedKeepsConsistent(a, gks, k - 1);
      PlaceKeepsConsistent(Seed(a, gks, k - 1), k - 1, gks[k - 1]);
    }
  }

  lemma StepKeepsConsistent(a: Assignment, p: Player, playersPerTeam: int)
    requires Consistent(a)
    ensures Consistent(Step(a, p, playersPerTeam))
  {
    BestTeamSpec(a, playersPerTeam);
    if BestTeam(a, playersPerTeam).Some? {
      PlaceKeepsConsistent(a, BestTeam(a, playersPerTeam).value, p);
    }
  }

  /** After every greedy step each team's skill total and female count match its members. */
  lemma {:induction false} FillKeepsConsistent(a: Assignment, ps: seq<Player>, playersPerTeam: int)
    requires Consistent(a)
    ensures Consistent(Fill(a, ps, playersPerTeam))
  {
    if ps != [] {
      FillKeepsConsistent(a, ps[..|ps| - 1], playersPerTeam);
      StepKeepsConsistent(Fill(a, ps[..|ps| - 1], playersPerTeam), ps[|ps| - 1], playersPerTeam);
    }
  }

  // ----- seeding -----

  /** After seeding, team `i` is just `gks[i]` for `i < k`, and every other team is empty. */
  lemma {:induction false} SeedLayout(n: nat, gks: seq<Player>, k: nat)
    requires k <= |gks| && k <= n
    ensures forall i :: 0 <= i < n ==> Seed(Empty(n), gks, k).teams[i] == if i < k then [gks[i]] else []
  {
    if k > 0 {
      SeedLayout(n, gks, k - 1);
      var prev := Seed(Empty(n), gks, k - 1);
      assert Seed(Empty(n), gks, k).teams == prev.teams[k - 1 := prev.teams[k - 1] + [gks[k - 1]]];
      forall i | 0 <= i < n
        ensures Seed(Empty(n), gks, k).teams[i] == if i < k then [gks[i]] else []
      {
        if i == k - 1 {
          assert prev.teams[i] == [];
        }
      }
    }
  }

  // ----- capacity -----

  lemma StepKeepsCapacity(a: Assignment, p: Player, playersPerTeam: int, c: int)
    requires Shaped(a) && playersPerTeam <= c && WithinCapacity(a.teams, c)
    ensures WithinCapacity(Step(a, p, playersPerTeam).teams, c)
  {
    BestTeamSpec(a, playersPerTeam);
  }

  /** The greedy fill never makes a team larger than `c`, for any `c` at least `playersPerTeam`. */
  lemma {:induction false} FillKeepsCapacity(a: Assignment, ps: seq<Player>, playersPerTeam: int, c: int)
    requires Shaped(a) && playersPerTeam <= c && WithinCapacity(a.teams, c)
    ensures WithinCapacity(Fill(a, ps, playersPerTeam).teams, c)
  {
    if ps != [] {
      FillKeepsCapacity(a, ps[..|ps| - 1], playersPerTeam, c);
      StepKeepsCapacity(Fill(a, ps[..|ps| - 1], playersPerTeam), ps[|ps| - 1], playersPerTeam, c);
    }
  }

  // ----- number of placements -----

  lemma {:induction false} TotalSizeEmpty(n: nat)
    ensures TotalSize(Empty(n).teams) == 0
  {
    if n > 0 {
      assert Empty(n).teams[..n - 1] == Empty(n - 1).teams;
      TotalSizeEmpty(n - 1);
    }
  }

  /** Appending one player to one team adds one placement. */
  lemma {:induction false} TotalSizeAppend(teams: seq<seq<Player>>, i: nat, p: Player)
    requires i < |teams|
    ensures TotalSize(teams[i := teams[i] + [p]]) == TotalSize(teams) + 1
  {
    var t := teams[i := teams[i] + [p]];
    var m := |teams| - 1;
    if i < m {
      assert t[..m] == teams[..m][i := teams[i] + [p]];
      TotalSizeAppend(teams[..m], i, p);
    } else {
      assert t[..m] == teams[..m];
    }
  }

  /** Teams of at most `c` members hold at most `|teams| * c` placements. */
  lemma {:induction false} TotalSizeWithinCapacity(teams: seq<seq<Player>>, c: nat)
    requires WithinCapacity(teams, c)
    ensures TotalSize(teams) <= |teams| * c
  {
    if teams != [] {
      var m := |teams| - 1;
      TotalSizeWithinCapacity(teams[..m], c);
      assert |teams| * c == m * c + c;
    }
  }

  /** Placing one player adds one placement. */
  lemma PlaceTotal(a: Assignment, i: nat, p: Player)
    requires Shaped(a) && i < |a.teams|
    ensures TotalSize(Place(a, i, p).teams) == TotalSize(a.teams) + 1
  {
    TotalSizeAppend(a.teams, i, p);
  }

  /** Seeding `k` goalkeepers adds `k` placements. */
  lemma {:induction false} SeedTotal(a: Assignment, gks: seq<Player>, k: nat)
    requires Shaped(a) && k <= |gks| && k <= |a.teams|
    ensures TotalSize(Seed(a, gks, k).teams) == TotalSize(a.teams) + k
  {
    if k > 0 {
      var prev := Seed(a, gks, k - 1);
      calc {
        TotalSize(Seed(a, gks, k).teams);
      == { PlaceTotal(prev, k - 1, gks[k - 1]); }
        TotalSize(prev.teams) + 1;
      == { SeedTotal(a, gks, k - 1); }
        TotalSize(a.teams) + k;
      }
    }
  }

  /** A greedy step places the visited player exactly once, unless every team is full. */
  lemma StepTotal(a: Assignment, p: Player, playersPerTeam: int)
    requires Shaped(a)
    ensures TotalSize(Step(a, p, playersPerTeam).teams) ==
            TotalSize(a.teams) + (if AllFull(a, playersPerTeam) then 0 else 1)
  {
    BestTeamSpec(a, playersPerTeam);
    if BestTeam(a, playersPerTeam).Some? {
      TotalSizeAppend(a.teams, BestTeam(a, playersPerTeam).value, p);
    }
  }

  lemma {:induction false} FillTotal(a: Assignment, ps: seq<Player>, playersPerTeam: int)
    requires Shaped(a)
    ensures TotalSize(Fill(a, ps, playersPerTeam).teams) <= TotalSize(a.teams) + |ps|
  {
    if ps != [] {
      FillTotal(a, ps[..|ps| - 1], playersPerTeam);
      StepTotal(Fill(a, ps[..|ps| - 1], playersPerTeam), ps[|ps| - 1], playersPerTeam);
    }
  }

  // ----- who can be placed -----

  lemma {:induction false} SeedDrawnFrom(n: nat, gks: seq<Player>, k: nat)
    requires k <= |gks| && k <= n
    ensures DrawnFrom(Seed(Empty(n), gks, k).teams, gks)
  {
    SeedLayout(n, gks, k);
  }

  lemma {:induction false} FillDrawnFrom(a: Assignment, ps: seq<Player>, playersPerTeam: int, pool: seq<Player>)
    requires Shaped(a) && DrawnFrom(a.teams, pool)
    requires forall x :: x in ps ==> x in pool
    ensures DrawnFrom(Fill(a, ps, playersPerTeam).teams, pool)
  {
    if ps != [] {
      var init := ps[..|ps| - 1];
      assert forall x :: x in init ==> x in ps;
      FillDrawnFrom(a, init, playersPerTeam, pool);
      var b := Fill(a, init, playersPerTeam);
      BestTeamSpec(b, playersPerTeam);
      var r := Step(b, ps[|ps| - 1], playersPerTeam);
      forall i, x | 0 <= i < |r.teams| && x in r.teams[i] ensures x in pool {
        if BestTeam(b, playersPerTeam) == Some(i) {
          assert x in b.teams[i] || x == ps[|ps| - 1];
        }
      }
    }
  }

  // ----- the whole generator -----

  /** `all_players` is a stable, skill-non-increasing permutation of `gks + fds`. */
  lemma RankedSpec(shuffled: seq<Player>)
    ensures NonIncreasing(Ranked(shuffled))
    ensures multiset(Ranked(shuffled)) == multiset(Goalkeepers(shuffled) + FieldPlayers(shuffled))
    ensures forall v :: SkillClass(Ranked(shuffled), v) == SkillClass(Goalkeepers(shuffled) + FieldPlayers(shuffled), v)
  {
    SortBySkillDescSpec(Goalkeepers(shuffled) + FieldPlayers(shuffled));
  }

  /** After seeding, team `i` holds only the `i`-th goalkeeper for `i < min(n, |gks|)`;
      every other team is empty; the totals match. */
  lemma SeededSpec(shuffled: seq<Player>, numTeams: int)
    ensures Consistent(Seeded(shuffled, numTeams))
    ensures forall i :: 0 <= i < TeamCount(numTeams) ==>
              Seeded(shuffled, numTeams).teams[i] ==
              if i < |Goalkeepers(shuffled)| then [Goalkeepers(shuffled)[i]] else []
  {
    var n := TeamCount(numTeams);
    var gks := Goalkeepers(shuffled);
    SeedLayout(n, gks, Min(n, |gks|));
    SeedKeepsConsistent(Empty(n), gks, Min(n, |gks|));
  }

  /** The final skill totals (and female counts) agree with the final teams. */
  lemma GenerateConsistent(shuffled: seq<Player>, numTeams: int, playersPerTeam: int)
    ensures Consistent(Generate(shuffled, numTeams, playersPerTeam))
  {
    SeededSpec(shuffled, numTeams);
    FillKeepsConsistent(Seeded(shuffled, numTeams), GreedyPool(shuffled), playersPerTeam);
  }

  /** No team ends with more than `playersPerTeam` members, except that seeding gives a
      goalkeeper even to a team whose capacity is below one. */
  lemma GenerateCapacity(shuffled: seq<Player>, numTeams: int, playersPerTeam: int)
    ensures WithinCapacity(Generate(shuffled, numTeams, playersPerTeam).teams,
                           if playersPerTeam < 1 then 1 else playersPerTeam)
  {
    SeededSpec(shuffled, numTeams);
    var c := if playersPerTeam < 1 then 1 else playersPerTeam;
    FillKeepsCapacity(Seeded(shuffled, numTeams), GreedyPool(shuffled), playersPerTeam, c);
  }

  /** Placements: at most the seeded goalkeepers plus one per visited player, and with a
      positive capacity at most `num_teams * players_per_team`. */
  lemma GeneratePlacements(shuffled: seq<Player>, numTeams: int, playersPerTeam: int)
    ensures TotalSize(Generate(shuffled, numTeams, playersPerTeam).teams) <=
            Min(TeamCount(numTeams), |Goalkeepers(shuffled)|) + |FieldPlayers(shuffled)|
    ensures playersPerTeam >= 1 ==>
            TotalSize(Generate(shuffled, numTeams, playersPerTeam).teams) <= TeamCount(numTeams) * playersPerTeam
  {
    var n := TeamCount(numTeams);
    var gks := Goalkeepers(shuffled);
    TotalSizeEmpty(n);
    SeedTotal(Empty(n), gks, Min(n, |gks|));
    FillTotal(Seeded(shuffled, numTeams), GreedyPool(shuffled), playersPerTeam);
    if playersPerTeam >= 1 {
      GenerateCapacity(shuffled, numTeams, playersPerTeam);
      TotalSizeWithinCapacity(Generate(shuffled, numTeams, playersPerTeam).teams, playersPerTeam);
    }
  }

  /** Only goalkeepers and field players of the selection are ever placed. */
  lemma GenerateMembers(shuffled: seq<Player>, numTeams: int, playersPerTeam: int)
    ensures DrawnFrom(Generate(shuffled, numTeams, playersPerTeam).teams, shuffled)
    ensures NoOtherPosition(Generate(shuffled, numTeams, playersPerTeam).teams)
  {
    var gks, fds := Goalkeepers(shuffled), FieldPlayers(shuffled);
    var n := TeamCount(numTeams);
    var pool := gks + fds;
    WithPositionCounts(shuffled, GK);
    WithPositionCounts(shuffled, FD);
    assert forall x :: x in pool ==> x in shuffled && x.position != Other by {
      forall x | x in pool ensures x in shuffled && x.position != Other {
        assert x in multiset(gks) || x in multiset(fds);
      }
    }
    SeedDrawnFrom(n, gks, Min(n, |gks|));
    assert DrawnFrom(Seeded(shuffled, numTeams).teams, pool);
    RankedSpec(shuffled);
    forall x | x in GreedyPool(shuffled) ensures x in pool {
      assert x in multiset(Ranked(shuffled));
    }
    FillDrawnFrom(Seeded(shuffled, numTeams), GreedyPool(shuffled), playersPerTeam, pool);
    assert DrawnFrom(Generate(shuffled, numTeams, playersPerTeam).teams, pool);
  }

  // ----- how many are placed, and who -----

  /** Teams within capacity `c` hold `|teams| * c` players exactly when all of them are full. */
  lemma {:induction false} FullTotal(teams: seq<seq<Player>>, c: nat)
    requires WithinCapacity(teams, c)
    ensures TotalSize(teams) == |teams| * c <==> forall j :: 0 <= j < |teams| ==> |teams[j]| >= c
  {
    if teams != [] {
      var m := |teams| - 1;
      var init := teams[..m];
      assert forall j :: 0 <= j < m ==> init[j] == teams[j];
      FullTotal(init, c);
      TotalSizeWithinCapacity(init, c);
      assert |teams| * c == m * c + c;
    }
  }

  /** With a positive capacity a greedy step places the player unless all teams are full. */
  lemma StepCount(a: Assignment, p: Player, playersPerTeam: int)
    requires Shaped(a) && playersPerTeam >= 1 && WithinCapacity(a.teams, playersPerTeam)
    ensures TotalSize(Step(a, p, playersPerTeam).teams) ==
            Min(TotalSize(a.teams) + 1, |a.teams| * playersPerTeam)
  {
    var c := playersPerTeam;
    StepTotal(a, p, c);
    FullTotal(a.teams, c);
    TotalSizeWithinCapacity(a.teams, c);
    if AllFull(a, c) {
      forall j | 0 <= j < |a.teams| ensures |a.teams[j]| >= c {
        assert !Eligible(a, c, j);
      }
    } else {
      var j :| 0 <= j < |a.teams| && Eligible(a, c, j);
    }
  }

  /** With a positive capacity the greedy fill places every visited player until all
      teams are full: the placements are exactly as many as the capacity allows. */
  lemma {:induction false} FillCount(a: Assignment, ps: seq<Player>, playersPerTeam: int)
    requires Shaped(a) && playersPerTeam >= 1 && WithinCapacity(a.teams, playersPerTeam)
    ensures TotalSize(Fill(a, ps, playersPerTeam).teams) ==
            Min(TotalSize(a.teams) + |ps|, |a.teams| * playersPerTeam)
  {
    TotalSizeWithinCapacity(a.teams, playersPerTeam);
    if ps != [] {
      var init := ps[..|ps| - 1];
      FillCount(a, init, playersPerTeam);
      FillKeepsCapacity(a, init, playersPerTeam, playersPerTeam);
      StepCount(Fill(a, init, playersPerTeam), ps[|ps| - 1], playersPerTeam);
    }
  }

  /** All members of all teams, with multiplicity. */
  function Members(teams: seq<seq<Player>>): multiset<Player>
  {
    if teams == [] then multiset{} else Members(teams[..|teams| - 1]) + multiset(teams[|teams| - 1])
  }

  lemma {:induction false} MembersEmpty(n: nat)
    ensures Members(Empty(n).teams) == multiset{}
  {
    if n > 0 {
      assert Empty(n).teams[..n - 1] == Empty(n - 1).teams;
      MembersEmpty(n - 1);
    }
  }

  /** Appending one player to one team adds that player to the members. */
  lemma {:induction false} MembersAppend(teams: seq<seq<Player>>, i: nat, p: Player)
    requires i < |teams|
    ensures Members(teams[i := teams[i] + [p]]) == Members(teams) + multiset{p}
  {
    var t := teams[i := teams[i] + [p]];
    var m := |teams| - 1;
    if i < m {
      assert t[..m] == teams[..m][i := teams[i] + [p]];
      MembersAppend(teams[..m], i, p);
      assert t[m] == teams[m];
    } else {
      assert t[..m] == teams[..m] && t[m] == teams[m] + [p];
    }
  }

  /** Placing one player adds that player to the members. */
  lemma PlaceMembers(a: Assignment, i: nat, p: Player)
    requires Shaped(a) && i < |a.teams|
    ensures Members(Place(a, i, p).teams) == Members(a.teams) + multiset{p}
  {
    MembersAppend(a.teams, i, p);
  }

  /** The first `k` elements are the first `k - 1` and element `k - 1`. */
  lemma PrefixMultiset(s: seq<Player>, k: nat)
    requires 0 < k <= |s|
    ensures multiset(s[..k]) == multiset(s[..k - 1]) + multiset{s[k - 1]}
  {
    assert s[..k] == s[..k - 1] + [s[k - 1]];
  }

  /** Seeding `k` goalkeepers adds exactly `gks[..k]` to the members. */
  lemma {:induction false} SeedMembers(a: Assignment, gks: seq<Player>, k: nat)
    requires Shaped(a) && k <= |gks| && k <= |a.teams|
    ensures Members(Seed(a, gks, k).teams) == Members(a.teams) + multiset(gks[..k])
  {
    if k == 0 {
      assert gks[..0] == [];
    } else {
      var prev, g := Seed(a, gks, k - 1), gks[k - 1];
      calc {
        Members(Seed(a, gks, k).teams);
      == { PlaceMembers(prev, k - 1, g); }
        Members(prev.teams) + multiset{g};
      == { SeedMembers(a, gks, k - 1); }
        Members(a.teams) + multiset(gks[..k - 1]) + multiset{g};
      == { PrefixMultiset(gks, k); }
        Members(a.teams) + multiset(gks[..k]);
      }
    }
  }

  /** A greedy step adds the visited player to the members, unless every team is full. */
  lemma StepMembers(a: Assignment, p: Player, playersPerTeam: int)
    requires Shaped(a)
    ensures Members(Step(a, p, playersPerTeam).teams) ==
            Members(a.teams) + (if AllFull(a, playersPerTeam) then multiset{} else multiset{p})
  {
    BestTeamSpec(a, playersPerTeam);
    if BestTeam(a, playersPerTeam).Some? {
      MembersAppend(a.teams, BestTeam(a, playersPerTeam).value, p);
    }
  }

  /** How many of `ps` the greedy fill places: one per step taken while some team has room. */
  function PlacedCount(a: Assignment, ps: seq<Player>, playersPerTeam: int): (r: nat)
    requires Shaped(a)
    ensures r <= |ps|
  {
    if ps == [] then 0
    else
      PlacedCount(a, ps[..|ps| - 1], playersPerTeam) +
      (if AllFull(Fill(a, ps[..|ps| - 1], playersPerTeam), playersPerTeam) then 0 else 1)
  }

  /** Each placement adds one member. */
  lemma {:induction false} FillPlacedTotal(a: Assignment, ps: seq<Player>, playersPerTeam: int)
    requires Shaped(a)
    ensures TotalSize(Fill(a, ps, playersPerTeam).teams) == TotalSize(a.teams) + PlacedCount(a, ps, playersPerTeam)
  {
    if ps != [] {
      var init := ps[..|ps| - 1];
      FillPlacedTotal(a, init, playersPerTeam);
      StepTotal(Fill(a, init, playersPerTeam), ps[|ps| - 1], playersPerTeam);
    }
  }

  /** The greedy fill leaves a visited player out only when every team is full, and full
      teams stay full, so the players left out are the tail of `ps`. */
  lemma {:induction false} FillDropsOnlyWhenFull(a: Assignment, ps: seq<Player>, playersPerTeam: int)
    requires Shaped(a)
    ensures PlacedCount(a, ps, playersPerTeam) < |ps| ==> AllFull(Fill(a, ps, playersPerTeam), playersPerTeam)
  {
    if ps != [] {
      var init := ps[..|ps| - 1];
      var b := Fill(a, init, playersPerTeam);
      FillDropsOnlyWhenFull(a, init, playersPerTeam);
      BestTeamSpec(b, playersPerTeam);
    }
  }

  /** Extending a sequence by `p`: its first `m` elements, and one more when `m` reached the end. */
  lemma SnocPrefix(init: seq<Player>, p: Player, m: nat, grew: bool)
    requires m <= |init| && (grew ==> m == |init|)
    ensures multiset((init + [p])[..m + (if grew then 1 else 0)]) ==
            multiset(init[..m]) + (if grew then multiset{p} else multiset{})
  {
    if grew {
      assert (init + [p])[..m + 1] == init + [p] && init[..m] == init;
    } else {
      assert (init + [p])[..m] == init[..m];
    }
  }

  /** The greedy fill places exactly the first `PlacedCount` players it visits, each once. */
  lemma {:induction false} FillPlacesPrefix(a: Assignment, ps: seq<Player>, playersPerTeam: int)
    requires Shaped(a)
    ensures Members(Fill(a, ps, playersPerTeam).teams) ==
            Members(a.teams) + multiset(ps[..PlacedCount(a, ps, playersPerTeam)])
  {
    if ps == [] {
      assert ps[..0] == [];
    } else {
      var init, p := ps[..|ps| - 1], ps[|ps| - 1];
      assert ps == init + [p];
      var b := Fill(a, init, playersPerTeam);
      FillPlacesPrefix(a, init, playersPerTeam);
      FillDropsOnlyWhenFull(a, init, playersPerTeam);
      StepMembers(b, p, playersPerTeam);
      SnocPrefix(init, p, PlacedCount(a, init, playersPerTeam), !AllFull(b, playersPerTeam));
    }
  }

  /** After seeding: `min(num_teams, |gks|)` placements, those goalkeepers as members, and
      at most one member per team. */
  lemma SeededMembers(shuffled: seq<Player>, numTeams: int)
    ensures TotalSize(Seeded(shuffled, numTeams).teams) == Min(TeamCount(numTeams), |Goalkeepers(shuffled)|)
    ensures Members(Seeded(shuffled, numTeams).teams) ==
            multiset(Goalkeepers(shuffled)[..Min(TeamCount(numTeams), |Goalkeepers(shuffled)|)])
    ensures WithinCapacity(Seeded(shuffled, numTeams).teams, 1)
  {
    var n := TeamCount(numTeams);
    var gks := Goalkeepers(shuffled);
    TotalSizeEmpty(n);
    MembersEmpty(n);
    SeedTotal(Empty(n), gks, Min(n, |gks|));
    SeedMembers(Empty(n), gks, Min(n, |gks|));
    SeedLayout(n, gks, Min(n, |gks|));
  }

  /** Who ends up on a team: the first `min(num_teams, |gks|)` goalkeepers (seeded), then
      the first `m` players of the greedy order, each once, where `m` is the number of
      placements after seeding. The players left out are the tail of the greedy order, and
      players are left out only once every team is full. */
  lemma GenerateSelection(shuffled: seq<Player>, numTeams: int, playersPerTeam: int)
    ensures var r := Generate(shuffled, numTeams, playersPerTeam);
            var k := Min(TeamCount(numTeams), |Goalkeepers(shuffled)|);
            var m := PlacedCount(Seeded(shuffled, numTeams), GreedyPool(shuffled), playersPerTeam);
            && TotalSize(r.teams) == k + m
            && Members(r.teams) == multiset(Goalkeepers(shuffled)[..k]) + multiset(GreedyPool(shuffled)[..m])
            && (m < |GreedyPool(shuffled)| ==> AllFull(r, playersPerTeam))
  {
    var s, pool := Seeded(shuffled, numTeams), GreedyPool(shuffled);
    SeededMembers(shuffled, numTeams);
    FillPlacedTotal(s, pool, playersPerTeam);
    FillPlacesPrefix(s, pool, playersPerTeam);
    FillDropsOnlyWhenFull(s, pool, playersPerTeam);
  }

  /** With a positive capacity the number of placements is exactly the seeded goalkeepers
      plus one per visited player, cut off at `num_teams * players_per_team`. */
  lemma GeneratePlacementCount(shuffled: seq<Player>, numTeams: int, playersPerTeam: int)
    ensures playersPerTeam >= 1 ==>
            TotalSize(Generate(shuffled, numTeams, playersPerTeam).teams) ==
            Min(Min(TeamCount(numTeams), |Goalkeepers(shuffled)|) + |FieldPlayers(shuffled)|,
                TeamCount(numTeams) * playersPerTeam)
  {
    if playersPerTeam >= 1 {
      var s, pool := Seeded(shuffled, numTeams), GreedyPool(shuffled);
      var n, k := TeamCount(numTeams), Min(TeamCount(numTeams), |Goalkeepers(shuffled)|);
      SeededMembers(shuffled, numTeams);
      assert TotalSize(s.teams) == k && |s.teams| == n && |pool| == |FieldPlayers(shuffled)|;
      assert WithinCapacity(s.teams, playersPerTeam);
      TotalSizeWithinCapacity(s.teams, playersPerTeam);
      FillCount(s, pool, playersPerTeam);
      assert Generate(shuffled, numTeams, playersPerTeam) == Fill(s, pool, playersPerTeam);
    }
  }

  /** Without goalkeepers, when the teams have room for all field players, every field
      player of the selection is placed exactly once. */
  lemma GenerateCoverage(shuffled: seq<Player>, numTeams: int, playersPerTeam: int)
    requires Goalkeepers(shuffled) == [] && playersPerTeam >= 1
    requires |FieldPlayers(shuffled)| <= TeamCount(numTeams) * playersPerTeam
    ensures Members(Generate(shuffled, numTeams, playersPerTeam).teams) == multiset(FieldPlayers(shuffled))
  {
    var fds := FieldPlayers(shuffled);
    var pool := GreedyPool(shuffled);
    GenerateSelection(shuffled, numTeams, playersPerTeam);
    GeneratePlacementCount(shuffled, numTeams, playersPerTeam);
    assert PlacedCount(Seeded(shuffled, numTeams), pool, playersPerTeam) == |fds|;
    RankedSpec(shuffled);
    assert [] + fds == fds && Goalkeepers(shuffled)[..0] == [];
    assert pool == Ranked(shuffled) && pool[..|fds|] == pool;
  }

  /** An empty selection gives `num_teams` empty teams, each with total 0. */
  lemma EmptySelection(numTeams: int, playersPerTeam: int)
    ensures |Generate([], numTeams, playersPerTeam).teams| == |Generate([], numTeams, playersPerTeam).skill| == TeamCount(numTeams)
    ensures forall i :: 0 <= i < TeamCount(numTeams) ==>
              Generate([], numTeams, playersPerTeam).teams[i] == [] && Generate([], numTeams, playersPerTeam).skill[i] == 0
  {
    assert Goalkeepers([]) == [] && FieldPlayers([]) == [];
    assert GreedyPool([]) == [];
    assert Generate([], numTeams, playersPerTeam) == Empty(TeamCount(numTeams));
  }
}
