/**
 * The ordering step of the generator: a stable sort by skill, highest first.
 * Python's `list.sort(key=..., reverse=True)` keeps players with equal skill
 * in their original relative order; `SortBySkillDesc` is an insertion sort
 * with that behaviour, and the lemmas below show that it is one.
 */
module SkillSort {
  import opened Players

  /** Skill never increases from left to right. */
  predicate NonIncreasing(s: seq<Player>)
  {
    forall i, j :: 0 <= i < j < |s| ==> s[i].skill >= s[j].skill
  }

  /** Checking neighbours is enough for `NonIncreasing`. */
  lemma {:induction false} NonIncreasingFromNeighbours(s: seq<Player>)
    requires forall i :: 0 <= i < |s| - 1 ==> s[i].skill >= s[i + 1].skill
    ensures NonIncreasing(s)
  {
    if |s| > 1 {
      var tail := s[1..];
      forall i | 0 <= i < |tail| - 1 ensures tail[i].skill >= tail[i + 1].skill {
        assert tail[i] == s[i + 1] && tail[i + 1] == s[i + 2];
      }
      NonIncreasingFromNeighbours(tail);
      forall i, j | 0 <= i < j < |s| ensures s[i].skill >= s[j].skill {
        if i > 0 {
          assert s[i] == tail[i - 1] && s[j] == tail[j - 1];
        } else if j > 1 {
          assert s[1] == tail[0] && s[j] == tail[j - 1];
        }
      }
    }
  }

  /** The players of `s` whose skill is `v`, in the order of `s`. */
  function SkillClass(s: seq<Player>, v: int): seq<Player>
  {
    if s == [] then []
    else if s[0].skill == v then [s[0]] + SkillClass(s[1..], v)
    else SkillClass(s[1..], v)
  }

  /** Inserts `p` after every player whose skill is at least `p.skill`. */
  function InsertBySkill(p: Player, s: seq<Player>): (r: seq<Player>)
    ensures |r| == |s| + 1
  {
    if s == [] then [p]
    else if s[0].skill < p.skill then [p] + s
    else [s[0]] + InsertBySkill(p, s[1..])
  }

  /** Insertion adds exactly `p`. */
  lemma {:induction false} InsertBySkillPermutes(p: Player, s: seq<Player>)
    ensures multiset(InsertBySkill(p, s)) == multiset(s) + multiset{p}
  {
    if s != [] && s[0].skill >= p.skill {
      assert s == [s[0]] + s[1..];
      InsertBySkillPermutes(p, s[1..]);
    }
  }

  /** Stable sort by skill, highest first: each player in turn is inserted into the sorted prefix. */
  function SortBySkillDesc(s: seq<Player>): (r: seq<Player>)
    ensures |r| == |s|
  {
    if s == [] then [] else InsertBySkill(s[|s| - 1], SortBySkillDesc(s[..|s| - 1]))
  }

  /** Skill classes distribute over concatenation. */
  lemma {:induction false} SkillClassAppend(s: seq<Player>, t: seq<Player>, v: int)
    ensures SkillClass(s + t, v) == SkillClass(s, v) + SkillClass(t, v)
  {
    if s == [] {
      assert s + t == t;
    } else {
      assert (s + t)[1..] == s[1..] + t;
      SkillClassAppend(s[1..], t, v);
    }
  }

  /** A sequence with no player of skill `v` has an empty class for `v`. */
  lemma {:induction false} SkillClassNone(s: seq<Player>, v: int)
    requires forall i :: 0 <= i < |s| ==> s[i].skill != v
    ensures SkillClass(s, v) == []
  {
    if s != [] {
      SkillClassNone(s[1..], v);
    }
  }

  /** Insertion into a non-increasing sequence keeps it non-increasing. */
  lemma {:induction false} InsertBySkillOrders(p: Player, s: seq<Player>)
    requires NonIncreasing(s)
    ensures NonIncreasing(InsertBySkill(p, s))
  {
    if s != [] && s[0].skill >= p.skill {
      var tail := s[1..];
      InsertBySkillOrders(p, tail);
      InsertBySkillPermutes(p, tail);
      var r, rt := InsertBySkill(p, s), InsertBySkill(p, tail);
      assert r == [s[0]] + rt;
      forall i, j | 0 <= i < j < |r| ensures r[i].skill >= r[j].skill {
        if i == 0 {
          assert r[j] in multiset(rt);
          assert r[j] == p || r[j] in multiset(tail);
        }
      }
    }
  }

  /** Insertion into a non-increasing sequence puts `p` behind every player of equal skill. */
  lemma {:induction false} InsertBySkillStable(p: Player, s: seq<Player>, v: int)
    requires NonIncreasing(s)
    ensures SkillClass(InsertBySkill(p, s), v) == SkillClass(s, v) + (if p.skill == v then [p] else [])
  {
    var extra := if p.skill == v then [p] else [];
    var r := InsertBySkill(p, s);
    if s == [] {
      assert r == [p];
    } else if s[0].skill < p.skill {
      assert r[1..] == s;
      if p.skill == v {
        forall i | 0 <= i < |s| ensures s[i].skill != v {
          assert s[0].skill >= s[i].skill;
        }
        SkillClassNone(s, v);
        assert SkillClass(r, v) == [p];
      } else {
        assert SkillClass(r, v) == SkillClass(s, v);
      }
    } else {
      var tail := s[1..];
      assert NonIncreasing(tail) by {
        forall i, j | 0 <= i < j < |tail| ensures tail[i].skill >= tail[j].skill {
          assert tail[i] == s[i + 1] && tail[j] == s[j + 1];
        }
      }
      var rt := InsertBySkill(p, tail);
      assert r[0] == s[0] && r[1..] == rt;
      InsertBySkillStable(p, tail, v);
      if s[0].skill == v {
        assert SkillClass(r, v) == [s[0]] + (SkillClass(tail, v) + extra);
        assert SkillClass(s, v) == [s[0]] + SkillClass(tail, v);
      } else {
        assert SkillClass(r, v) == SkillClass(tail, v) + extra;
        assert SkillClass(s, v) == SkillClass(tail, v);
      }
    }
  }

  /** The sort is a stable descending sort: its result is non-increasing in skill, a
      permutation of the input, and keeps the input order among players of equal skill. */
  lemma {:induction false} SortBySkillDescSpec(s: seq<Player>)
    ensures NonIncreasing(SortBySkillDesc(s))
    ensures multiset(SortBySkillDesc(s)) == multiset(s)
    ensures forall v :: SkillClass(SortBySkillDesc(s), v) == SkillClass(s, v)
  {
    if s != [] {
      var init, last := s[..|s| - 1], s[|s| - 1];
      assert s == init + [last];
      SortBySkillDescSpec(init);
      InsertBySkillOrders(last, SortBySkillDesc(init));
      InsertBySkillPermutes(last, SortBySkillDesc(init));
      forall v ensures SkillClass(SortBySkillDesc(s), v) == SkillClass(s, v) {
        InsertBySkillStable(last, SortBySkillDesc(init), v);
        SkillClassAppend(init, [last], v);
        assert [last][..0] == [];
      }
    }
  }

  /** Every member of a skill class is a player of the input with that skill. */
  lemma {:induction false} SkillClassMembers(s: seq<Player>, v: int)
    ensures forall x :: x in SkillClass(s, v) ==> x in s && x.skill == v
  {
    if s != [] {
      SkillClassMembers(s[1..], v);
    }
  }

  /** Dropping the first player keeps a sequence non-increasing. */
  lemma NonIncreasingTail(t: seq<Player>)
    requires NonIncreasing(t) && t != []
    ensures NonIncreasing(t[1..])
  {
    forall i, j | 0 <= i < j < |t| - 1 ensures t[1..][i].skill >= t[1..][j].skill {
      assert t[1..][i] == t[i + 1] && t[1..][j] == t[j + 1];
    }
  }

  /** Two non-increasing sequences with the same skill classes start with the same player. */
  lemma SameLeader(t: seq<Player>, u: seq<Player>)
    requires NonIncreasing(t) && NonIncreasing(u) && t != [] && u != []
    requires forall v :: SkillClass(t, v) == SkillClass(u, v)
    ensures t[0] == u[0]
  {
    var m, mu := t[0].skill, u[0].skill;
    SkillClassMembers(t, mu);
    SkillClassMembers(u, m);
    assert SkillClass(t, m) == SkillClass(u, m) && SkillClass(t, m) != [];
    assert SkillClass(t, mu) == SkillClass(u, mu) && SkillClass(u, mu) != [];
    var y := SkillClass(u, m)[0];
    var z := SkillClass(t, mu)[0];
    assert y in SkillClass(u, m) && z in SkillClass(t, mu);
    assert y in u && y.skill == m;
    assert z in t && z.skill == mu;
    assert m == mu;
  }

  /** A sequence with no player of any skill is empty. */
  lemma NoClassesMeansEmpty(w: seq<Player>)
    requires forall v :: SkillClass(w, v) == []
    ensures w == []
  {
    if w != [] {
      LeaderClass(w);
    }
  }

  /** The first player's skill class is not empty. */
  lemma LeaderClass(w: seq<Player>)
    requires w != []
    ensures SkillClass(w, w[0].skill) != []
  {
  }

  /** A non-increasing sequence is determined by its skill classes. Hence the three
      properties of `SortBySkillDescSpec` describe one result only: any stable
      descending sort, Python's included, returns `SortBySkillDesc(s)`. */
  lemma {:induction false} SkillClassesDetermine(t: seq<Player>, u: seq<Player>)
    requires NonIncreasing(t) && NonIncreasing(u)
    requires forall v :: SkillClass(t, v) == SkillClass(u, v)
    ensures t == u
    decreases |t|
  {
    if t == [] || u == [] {
      forall v ensures SkillClass(t, v) == [] && SkillClass(u, v) == [] {
        assert SkillClass(t, v) == SkillClass(u, v);
      }
      NoClassesMeansEmpty(t);
      NoClassesMeansEmpty(u);
    } else {
      SameLeader(t, u);
      NonIncreasingTail(t);
      NonIncreasingTail(u);
      forall v ensures SkillClass(t[1..], v) == SkillClass(u[1..], v) {
        assert SkillClass(t, v) == SkillClass(u, v);
        if t[0].skill == v {
          assert SkillClass(t, v) == [t[0]] + SkillClass(t[1..], v);
          assert SkillClass(u, v) == [u[0]] + SkillClass(u[1..], v);
          assert SkillClass(t[1..], v) == SkillClass(t, v)[1..];
          assert SkillClass(u[1..], v) == SkillClass(u, v)[1..];
        }
      }
      SkillClassesDetermine(t[1..], u[1..]);
      assert t == [t[0]] + t[1..] && u == [u[0]] + u[1..];
    }
  }

  /** Any stable descending sort of `s` equals `SortBySkillDesc(s)`. */
  lemma StableSortIsUnique(s: seq<Player>, r: seq<Player>)
    requires NonIncreasing(r) && forall v :: SkillClass(r, v) == SkillClass(s, v)
    ensures r == SortBySkillDesc(s)
  {
    SortBySkillDescSpec(s);
    SkillClassesDetermine(r, SortBySkillDesc(s));
  }
}
