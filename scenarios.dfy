/** Concrete cases of the generator, for fixed outcomes of the shuffle. */
module Scenarios {
  import opened Wrappers
  import opened Players
  import opened SkillSort
  import opened TeamBalancer

  function Field(name: string, skill: int): Player
  {
    Player(name, skill, FD, false)
  }

  function Keeper(name: string, skill: int): Player
  {
    Player(name, skill, GK, false)
  }

  /** A greedy step on two teams that picks the first team. */
  lemma StepToFirst(t0: seq<Player>, t1: seq<Player>, s0: int, s1: int, f0: int, f1: int, p: Player, cap: int)
    requires |t0| < cap && (|t1| >= cap || !(s1 < s0 || (s1 == s0 && f1 < f0)))
    ensures Step(Assignment([t0, t1], [s0, s1], [f0, f1]), p, cap) ==
            Assignment([t0 + [p], t1], [s0 + p.skill, s1], [f0 + (if p.female then 1 else 0), f1])
  {
    var a := Assignment([t0, t1], [s0, s1], [f0, f1]);
    assert BestAmong(a, cap, 1) == Some(0);
  }

  /** A greedy step on two teams that picks the second team. */
  lemma StepToSecond(t0: seq<Player>, t1: seq<Player>, s0: int, s1: int, f0: int, f1: int, p: Player, cap: int)
    requires |t1| < cap && (|t0| >= cap || s1 < s0 || (s1 == s0 && f1 < f0))
    ensures Step(Assignment([t0, t1], [s0, s1], [f0, f1]), p, cap) ==
            Assignment([t0, t1 + [p]], [s0, s1 + p.skill], [f0, f1 + (if p.female then 1 else 0)])
  {
    var a := Assignment([t0, t1], [s0, s1], [f0, f1]);
    assert BestAmong(a, cap, 1) == if |t0| < cap then Some(0) else None;
  }

  function EvenRoster(): seq<Player>
  {
    [Field("a", 5), Field("b", 5), Field("c", 4), Field("d", 4), Field("e", 3), Field("f", 3)]
  }

  /** The roster is already ranked: adjacent skills never increase. */
  lemma EvenRosterNonIncreasing()
    ensures NonIncreasing(EvenRoster())
  {
    var s := EvenRoster();
    assert s[0].skill == 5 && s[1].skill == 5 && s[2].skill == 4;
    assert s[3].skill == 4 && s[4].skill == 3 && s[5].skill == 3;
    NonIncreasingFromNeighbours(s);
  }

  /** With no goalkeepers the ranking is the roster itself, already non-increasing. */
  lemma EvenRosterRanked()
    ensures Goalkeepers(EvenRoster()) == [] && GreedyPool(EvenRoster()) == EvenRoster()
  {
    var s := EvenRoster();
    WithPositionNone(s, GK);
    WithPositionAll(s, FD);
    assert [] + s == s;
    EvenRosterNonIncreasing();
    StableSortIsUnique(s, s);
  }

  /** Two empty teams with zero totals. */
  lemma EmptyTwo()
    ensures Empty(2) == Assignment([[], []], [0, 0], [0, 0])
  {
  }

  /** With no goalkeepers, seeding leaves two empty teams. */
  lemma EvenRosterSeeded()
    ensures Seeded(EvenRoster(), 2) == Assignment([[], []], [0, 0], [0, 0])
  {
    assert Goalkeepers(EvenRoster()) == [] by {
      EvenRosterRanked();
    }
    EmptyTwo();
  }

  /** Filling with one more player is one more greedy step. */
  lemma FillSnoc(a: Assignment, ps: seq<Player>, p: Player, cap: int)
    requires Shaped(a)
    ensures Fill(a, ps + [p], cap) == Step(Fill(a, ps, cap), p, cap)
  {
    assert (ps + [p])[..|ps|] == ps;
  }

  /** The first two greedy steps, over 5 and 5: one player per team. */
  lemma EvenRosterFillTwo()
    ensures Fill(Assignment([[], []], [0, 0], [0, 0]), [Field("a", 5), Field("b", 5)], 3) ==
            Assignment([[Field("a", 5)], [Field("b", 5)]], [5, 5], [0, 0])
  {
    var a, b := Field("a", 5), Field("b", 5);
    var a0 := Assignment([[], []], [0, 0], [0, 0]);
    assert Fill(a0, [a], 3) == Assignment([[a], []], [5, 0], [0, 0]) by {
      FillSnoc(a0, [], a, 3);
      assert [] + [a] == [a];
      StepToFirst([], [], 0, 0, 0, 0, a, 3);
    }
    FillSnoc(a0, [a], b, 3);
    assert [a] + [b] == [a, b] && [] + [b] == [b];
    StepToSecond([a], [], 5, 0, 0, 0, b, 3);
  }

  /** The third greedy step, over 4, goes to the first team on the female-count tie. */
  lemma EvenRosterFillHalf()
    ensures Fill(Assignment([[], []], [0, 0], [0, 0]), [Field("a", 5), Field("b", 5), Field("c", 4)], 3) ==
            Assignment([[Field("a", 5), Field("c", 4)], [Field("b", 5)]], [9, 5], [0, 0])
  {
    var a, b, c := Field("a", 5), Field("b", 5), Field("c", 4);
    var a0 := Assignment([[], []], [0, 0], [0, 0]);
    EvenRosterFillTwo();
    FillSnoc(a0, [a, b], c, 3);
    assert [a, b] + [c] == [a, b, c] && [a] + [c] == [a, c];
    StepToFirst([a], [b], 5, 5, 0, 0, c, 3);
  }

  /** The next two greedy steps, over 4 and 3. */
  lemma EvenRosterFillFive()
    ensures Fill(Assignment([[], []], [0, 0], [0, 0]), [Field("a", 5), Field("b", 5), Field("c", 4), Field("d", 4), Field("e", 3)], 3) ==
            Assignment([[Field("a", 5), Field("c", 4), Field("e", 3)], [Field("b", 5), Field("d", 4)]], [12, 9], [0, 0])
  {
    var a, b, c, d, e := Field("a", 5), Field("b", 5), Field("c", 4), Field("d", 4), Field("e", 3);
    var a0 := Assignment([[], []], [0, 0], [0, 0]);
    assert Fill(a0, [a, b, c, d], 3) == Assignment([[a, c], [b, d]], [9, 9], [0, 0]) by {
      EvenRosterFillHalf();
      FillSnoc(a0, [a, b, c], d, 3);
      assert [a, b, c] + [d] == [a, b, c, d] && [b] + [d] == [b, d];
      StepToSecond([a, c], [b], 9, 5, 0, 0, d, 3);
    }
    FillSnoc(a0, [a, b, c, d], e, 3);
    assert [a, b, c, d] + [e] == [a, b, c, d, e] && [a, c] + [e] == [a, c, e];
    StepToFirst([a, c], [b, d], 9, 9, 0, 0, e, 3);
  }

  /** The greedy fill over 5, 5, 4, 4, 3, 3 alternates between the two teams. */
  lemma EvenRosterFill()
    ensures Fill(Assignment([[], []], [0, 0], [0, 0]), EvenRoster(), 3) ==
            Assignment([[Field("a", 5), Field("c", 4), Field("e", 3)], [Field("b", 5), Field("d", 4), Field("f", 3)]],
                       [12, 12], [0, 0])
  {
    var a, b, c, d, e, f := Field("a", 5), Field("b", 5), Field("c", 4), Field("d", 4), Field("e", 3), Field("f", 3);
    var a0 := Assignment([[], []], [0, 0], [0, 0]);
    EvenRosterFillFive();
    FillSnoc(a0, [a, b, c, d, e], f, 3);
    assert [a, b, c, d, e] + [f] == EvenRoster() && [b, d] + [f] == [b, d, f];
    StepToSecond([a, c, e], [b, d], 12, 9, 0, 0, f, 3);
  }

  /** Six field players rated 5, 5, 4, 4, 3, 3 into two teams of three: the greedy fill
      alternates, and both teams end with three members and a total of 12. */
  lemma EvenSplit()
    ensures Generate(EvenRoster(), 2, 3).teams ==
            [[Field("a", 5), Field("c", 4), Field("e", 3)], [Field("b", 5), Field("d", 4), Field("f", 3)]]
    ensures Generate(EvenRoster(), 2, 3).skill == [12, 12]
  {
    EvenRosterRanked();
    EvenRosterSeeded();
    EvenRosterFill();
  }

  /** One player and three teams: three teams, the player in the first, the others empty. */
  lemma SinglePlayer()
    ensures Generate([Field("a", 4)], 3, 4).teams == [[Field("a", 4)], [], []]
  {
  }

  /** Two goalkeepers rated 1 and a field player rated 5, shuffled into this order. */
  function KeeperRoster(): seq<Player>
  {
    [Keeper("g", 1), Keeper("h", 1), Field("f", 5)]
  }

  /** Sorting the roster moves the field player to the front and keeps the goalkeepers' order. */
  lemma KeeperRosterSorted()
    ensures SortBySkillDesc(KeeperRoster()) == [Field("f", 5), Keeper("g", 1), Keeper("h", 1)]
  {
    var g, h := Keeper("g", 1), Keeper("h", 1);
    var s := KeeperRoster();
    assert s[..2] == [g, h] && [g, h][..1] == [g] && [g][..0] == [];
    assert SortBySkillDesc([g]) == [g];
    assert InsertBySkill(h, [g]) == [g, h] by {
      assert [g][1..] == [];
    }
    assert SortBySkillDesc([g, h]) == [g, h];
  }

  /** The ranking puts the field player first and keeps the goalkeepers in their order, so
      the greedy pool, which skips as many entries as there are goalkeepers, is the second
      goalkeeper alone. */
  lemma KeeperRosterRanked()
    ensures Goalkeepers(KeeperRoster()) == [Keeper("g", 1), Keeper("h", 1)]
    ensures Ranked(KeeperRoster()) == [Field("f", 5), Keeper("g", 1), Keeper("h", 1)]
    ensures GreedyPool(KeeperRoster()) == [Keeper("h", 1)]
  {
    var g, h, f := Keeper("g", 1), Keeper("h", 1), Field("f", 5);
    var s := KeeperRoster();
    assert Goalkeepers(s) == [g, h] by {
      assert s[..2] == [g, h] && s[..2][..1] == [g];
      assert [g][..0] == [];
    }
    assert FieldPlayers(s) == [f] by {
      assert s[..2] == [g, h] && s[..2][..1] == [g];
      assert [g][..0] == [];
    }
    assert [g, h] + [f] == s;
    KeeperRosterSorted();
    assert [f, g, h][2..] == [h];
  }

  /** Seeding the two goalkeepers into two teams: one goalkeeper per team. */
  lemma KeeperRosterSeeded()
    ensures Seeded(KeeperRoster(), 2) == Assignment([[Keeper("g", 1)], [Keeper("h", 1)]], [1, 1], [0, 0])
  {
    var g, h := Keeper("g", 1), Keeper("h", 1);
    assert Goalkeepers(KeeperRoster()) == [g, h] by {
      KeeperRosterRanked();
    }
    EmptyTwo();
    var e := Assignment([[], []], [0, 0], [0, 0]);
    assert Seed(e, [g, h], 1) == Assignment([[g], []], [1, 0], [0, 0]) by {
      assert [] + [g] == [g];
    }
    assert [] + [h] == [h];
  }

  /** Two goalkeepers, one field player, two teams of three: each team is seeded with a
      goalkeeper, then the second goalkeeper is placed again, on the first team, and the
      field player is never placed. */
  lemma KeeperPlacedTwice()
    ensures Generate(KeeperRoster(), 2, 3).teams ==
            [[Keeper("g", 1), Keeper("h", 1)], [Keeper("h", 1)]]
    ensures Generate(KeeperRoster(), 2, 3).skill == [2, 1]
  {
    var g, h := Keeper("g", 1), Keeper("h", 1);
    var a0 := Assignment([[g], [h]], [1, 1], [0, 0]);
    assert GreedyPool(KeeperRoster()) == [h] by {
      KeeperRosterRanked();
    }
    KeeperRosterSeeded();
    FillSnoc(a0, [], h, 3);
    assert [] + [h] == [h] && [g] + [h] == [g, h];
    StepToFirst([g], [h], 1, 1, 0, 0, h, 3);
  }
}
