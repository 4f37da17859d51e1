/**
 * Player records as the team generator sees them, and the pure helpers over
 * them: the per-team aggregates and the position filters.
 */
module Players {

  /** The position column of the roster: "GK", "FD", or anything else. */
  datatype Position = GK | FD | Other

  /** One roster row; `female` stands for the gender column being "F". */
  datatype Player = Player(name: string, skill: int, position: Position, female: bool)

  /** Sum of the skill ratings of the members of a team; never negative when no rating is. */
  function SumSkill(team: seq<Player>): (r: int)
    ensures (forall i :: 0 <= i < |team| ==> team[i].skill >= 0) ==> r >= 0
  {
    if team == [] then 0 else SumSkill(team[..|team| - 1]) + team[|team| - 1].skill
  }

  /** Number of female members of a team, at most its size. */
  function FemaleCount(team: seq<Player>): (r: nat)
    ensures r <= |team|
  {
    if team == [] then 0
    else FemaleCount(team[..|team| - 1]) + (if team[|team| - 1].female then 1 else 0)
  }

  lemma AppendMember(team: seq<Player>, p: Player)
    ensures SumSkill(team + [p]) == SumSkill(team) + p.skill
    ensures FemaleCount(team + [p]) == FemaleCount(team) + (if p.female then 1 else 0)
  {
    assert (team + [p])[..|team|] == team;
  }

  /** Every player of `s` has position `pos`. */
  predicate AllAt(s: seq<Player>, pos: Position)
  {
    forall i :: 0 <= i < |s| ==> s[i].position == pos
  }

  /** The players of `s` whose position is `pos`, in the order of `s`. */
  function WithPosition(s: seq<Player>, pos: Position): (r: seq<Player>)
    ensures |r| <= |s|
    ensures AllAt(r, pos)
  {
    if s == [] then []
    else WithPosition(s[..|s| - 1], pos) + (if s[|s| - 1].position == pos then [s[|s| - 1]] else [])
  }

  /** The source's `gks`: the goalkeepers of `s`, in the order of `s`. */
  function Goalkeepers(s: seq<Player>): (r: seq<Player>)
    ensures |r| <= |s| && AllAt(r, GK)
  {
    WithPosition(s, GK)
  }

  /** The source's `fds`: the field players of `s`, in the order of `s`. */
  function FieldPlayers(s: seq<Player>): (r: seq<Player>)
    ensures |r| <= |s| && AllAt(r, FD)
  {
    WithPosition(s, FD)
  }

  /** The filter keeps every player of position `pos` as often as it occurs, and nobody else. */
  lemma {:induction false} WithPositionCounts(s: seq<Player>, pos: Position)
    ensures forall x :: multiset(WithPosition(s, pos))[x] == if x.position == pos then multiset(s)[x] else 0
  {
    if s != [] {
      var init, last := s[..|s| - 1], s[|s| - 1];
      WithPositionCounts(init, pos);
      assert s == init + [last];
    }
  }

  /** A sequence of players all of position `pos` passes the filter whole. */
  lemma {:induction false} WithPositionAll(s: seq<Player>, pos: Position)
    requires forall i :: 0 <= i < |s| ==> s[i].position == pos
    ensures WithPosition(s, pos) == s
  {
    if s != [] {
      WithPositionAll(s[..|s| - 1], pos);
    }
  }

  /** A sequence with no player of position `pos` filters to nothing. */
  lemma {:induction false} WithPositionNone(s: seq<Player>, pos: Position)
    requires forall i :: 0 <= i < |s| ==> s[i].position != pos
    ensures WithPosition(s, pos) == []
  {
    if s != [] {
      WithPositionNone(s[..|s| - 1], pos);
    }
  }

  /** The filter keeps order: filtering a concatenation concatenates the filtered parts. */
  lemma {:induction false} WithPositionAppend(s: seq<Player>, t: seq<Player>, pos: Position)
    ensures WithPosition(s + t, pos) == WithPosition(s, pos) + WithPosition(t, pos)
    decreases |t|
  {
    if t == [] {
      assert s + t == s;
    } else {
      var init, last := t[..|t| - 1], t[|t| - 1];
      assert (s + t)[..|s + t| - 1] == s + init;
      WithPositionAppend(s, init, pos);
    }
  }

  /** Goalkeepers, field players and the rest together are exactly the input. */
  lemma PositionsPartition(s: seq<Player>)
    ensures multiset(Goalkeepers(s)) + multiset(FieldPlayers(s)) + multiset(WithPosition(s, Other))
            == multiset(s)
  {
    WithPositionCounts(s, GK);
    WithPositionCounts(s, FD);
    WithPositionCounts(s, Other);
    assert forall x :: (multiset(Goalkeepers(s)) + multiset(FieldPlayers(s)) + multiset(WithPosition(s, Other)))[x]
                       == multiset(s)[x];
  }
}
