/**
 * The three kinds of pandas `merge` the pipeline uses, on one key column.
 * pandas pairs a left row with EVERY right row of the same key (a missing
 * key, NaN, included), so a key that occurs twice duplicates rows; the
 * lemmas say what happens when keys are unique.
 */
module Joins {
  import opened Wrappers

  /** The rows of `rs` whose key is `k`, in table order. */
  function Matches<R(==,!new), K(==)>(rs: seq<R>, rk: R -> K, k: K): (m: seq<R>)
    ensures |m| <= |rs|
    ensures forall r :: r in m <==> r in rs && rk(r) == k
    ensures (forall r :: r in rs ==> rk(r) != k) ==> m == []
  {
    if rs == [] then []
    else
      assert forall r :: r in rs <==> r == rs[0] || r in rs[1..];
      (if rk(rs[0]) == k then [rs[0]] else []) + Matches(rs[1..], rk, k)
  }

  /** Every key of `rs` occurs in one row only. */
  predicate UniqueKeys<R(==,!new), K(==)>(rs: seq<R>, rk: R -> K)
  {
    forall i, j :: 0 <= i < |rs| && 0 <= j < |rs| && rk(rs[i]) == rk(rs[j]) ==> i == j
  }

  function Pairs<L, R>(l: L, m: seq<R>): (ps: seq<(L, R)>)
    ensures |ps| == |m|
    ensures forall i :: 0 <= i < |m| ==> ps[i] == (l, m[i])
  {
    seq(|m|, i requires 0 <= i < |m| => (l, m[i]))
  }

  /** `merge(how='left')`: each left row, in order, with each right row of its key, or with NaN when none. */
  function LeftJoin<L(==,!new), R(==,!new), K(==)>(ls: seq<L>, rs: seq<R>, lk: L -> K, rk: R -> K): seq<(L, Option<R>)>
  {
    if ls == [] then []
    else
      var m := Matches(rs, rk, lk(ls[0]));
      (if m == [] then [(ls[0], None)] else Pairs(ls[0], Somes(m))) + LeftJoin(ls[1..], rs, lk, rk)
  }

  function Somes<R>(m: seq<R>): (s: seq<Option<R>>)
    ensures |s| == |m|
    ensures forall i :: 0 <= i < |m| ==> s[i] == Some(m[i])
  {
    seq(|m|, i requires 0 <= i < |m| => Some(m[i]))
  }

  /** `merge(how='inner')`: each left row with each right row of its key; rows without a partner are dropped. */
  function InnerJoin<L(==,!new), R(==,!new), K(==)>(ls: seq<L>, rs: seq<R>, lk: L -> K, rk: R -> K): seq<(L, R)>
  {
    if ls == [] then []
    else Pairs(ls[0], Matches(rs, rk, lk(ls[0]))) + InnerJoin(ls[1..], rs, lk, rk)
  }

  /** The right rows whose key no left row has. */
  function Unmatched<L(==,!new), R(==,!new), K(==)>(ls: seq<L>, rs: seq<R>, lk: L -> K, rk: R -> K): (u: seq<R>)
    ensures forall r :: r in u <==> r in rs && forall l :: l in ls ==> lk(l) != rk(r)
  {
    if rs == [] then []
    else
      assert forall r :: r in rs <==> r == rs[0] || r in rs[1..];
      (if exists l :: l in ls && lk(l) == rk(rs[0]) then [] else [rs[0]]) + Unmatched(ls, rs[1..], lk, rk)
  }

  /**
   * `merge(how='outer')`: the left join, followed by the right rows no left
   * row matched (their left side NaN).
   */
  function OuterJoin<L(==,!new), R(==,!new), K(==)>(ls: seq<L>, rs: seq<R>, lk: L -> K, rk: R -> K): seq<(Option<L>, Option<R>)>
  {
    var left := LeftJoin(ls, rs, lk, rk);
    var right := Unmatched(ls, rs, lk, rk);
    seq(|left|, i requires 0 <= i < |left| => (Some(left[i].0), left[i].1))
      + seq(|right|, i requires 0 <= i < |right| => (None, Some(right[i])))
  }

  // ----- What each join contains -----

  lemma {:induction false} LeftJoinMembers<L(!new), R(!new), K>(ls: seq<L>, rs: seq<R>, lk: L -> K, rk: R -> K, p: (L, Option<R>))
    requires p in LeftJoin(ls, rs, lk, rk)
    ensures p.0 in ls
    ensures p.1.Some? ==> p.1.value in rs && rk(p.1.value) == lk(p.0)
    ensures p.1.None? ==> forall r :: r in rs ==> rk(r) != lk(p.0)
    decreases |ls|
  {
    var m := Matches(rs, rk, lk(ls[0]));
    var head := if m == [] then [(ls[0], None)] else Pairs(ls[0], Somes(m));
    if p in head {
      var i :| 0 <= i < |head| && head[i] == p;
      if m != [] {
        assert m[i] in m;
      }
    } else {
      LeftJoinMembers(ls[1..], rs, lk, rk, p);
    }
  }

  lemma {:induction false} LeftJoinCovers<L(!new), R(!new), K>(ls: seq<L>, rs: seq<R>, lk: L -> K, rk: R -> K, l: L)
    requires l in ls
    ensures exists p :: p in LeftJoin(ls, rs, lk, rk) && p.0 == l
    decreases |ls|
  {
    var m := Matches(rs, rk, lk(ls[0]));
    var head := if m == [] then [(ls[0], None)] else Pairs(ls[0], Somes(m));
    if l == ls[0] {
      assert head[0] in LeftJoin(ls, rs, lk, rk);
    } else {
      LeftJoinCovers(ls[1..], rs, lk, rk, l);
      var p :| p in LeftJoin(ls[1..], rs, lk, rk) && p.0 == l;
      assert p in LeftJoin(ls, rs, lk, rk);
    }
  }

  lemma {:induction false} MatchesUnique<R(!new), K>(rs: seq<R>, rk: R -> K, k: K)
    requires UniqueKeys(rs, rk)
    ensures |Matches(rs, rk, k)| <= 1
    decreases |rs|
  {
    if rs != [] {
      assert UniqueKeys(rs[1..], rk) by {
        forall i, j | 0 <= i < |rs[1..]| && 0 <= j < |rs[1..]| && rk(rs[1..][i]) == rk(rs[1..][j]) ensures i == j {
          assert rs[1..][i] == rs[i + 1] && rs[1..][j] == rs[j + 1];
        }
      }
      MatchesUnique(rs[1..], rk, k);
      var tail := Matches(rs[1..], rk, k);
      if rk(rs[0]) == k {
        forall r | r in rs[1..] ensures rk(r) != k {
          var i :| 0 <= i < |rs[1..]| && rs[1..][i] == r;
          assert rs[i + 1] == r;
        }
      }
    }
  }

  /** The first right row of key `k`, or NaN when there is none. */
  function FirstMatch<R(==,!new), K(==)>(rs: seq<R>, rk: R -> K, k: K): (o: Option<R>)
    ensures o.Some? ==> o.value in rs && rk(o.value) == k
    ensures o.None? <==> forall r :: r in rs ==> rk(r) != k
  {
    var m := Matches(rs, rk, k);
    if m == [] then None else assert m[0] in m; Some(m[0])
  }

  lemma LeftJoinStep<L(!new), R(!new), K>(ls: seq<L>, rs: seq<R>, lk: L -> K, rk: R -> K)
    requires ls != [] && |Matches(rs, rk, lk(ls[0]))| <= 1
    ensures LeftJoin(ls, rs, lk, rk) == [(ls[0], FirstMatch(rs, rk, lk(ls[0])))] + LeftJoin(ls[1..], rs, lk, rk)
  {
    var m := Matches(rs, rk, lk(ls[0]));
    if m != [] {
      assert Pairs(ls[0], Somes(m)) == [(ls[0], Some(m[0]))];
    }
  }

  /** With unique right keys a left join keeps the left table row for row, each beside its partner or NaN. */
  lemma {:induction false} LeftJoinUnique<L(!new), R(!new), K>(ls: seq<L>, rs: seq<R>, lk: L -> K, rk: R -> K)
    requires UniqueKeys(rs, rk)
    ensures |LeftJoin(ls, rs, lk, rk)| == |ls|
    ensures forall i :: 0 <= i < |ls| ==> LeftJoin(ls, rs, lk, rk)[i] == (ls[i], FirstMatch(rs, rk, lk(ls[i])))
    decreases |ls|
  {
    if ls != [] {
      MatchesUnique(rs, rk, lk(ls[0]));
      LeftJoinUnique(ls[1..], rs, lk, rk);
      var j := LeftJoin(ls, rs, lk, rk);
      LeftJoinStep(ls, rs, lk, rk);
      forall i | 0 <= i < |ls| ensures j[i] == (ls[i], FirstMatch(rs, rk, lk(ls[i]))) {
        if i > 0 { assert j[i] == LeftJoin(ls[1..], rs, lk, rk)[i - 1]; }
      }
    }
  }

  lemma {:induction false} InnerJoinMembers<L(!new), R(!new), K>(ls: seq<L>, rs: seq<R>, lk: L -> K, rk: R -> K, p: (L, R))
    ensures p in InnerJoin(ls, rs, lk, rk) <==> p.0 in ls && p.1 in rs && lk(p.0) == rk(p.1)
    decreases |ls|
  {
    if ls != [] {
      InnerJoinMembers(ls[1..], rs, lk, rk, p);
      var m := Matches(rs, rk, lk(ls[0]));
      var head := Pairs(ls[0], m);
      assert p in InnerJoin(ls, rs, lk, rk) <==> p in head || p in InnerJoin(ls[1..], rs, lk, rk);
      if p.0 == ls[0] && p.1 in rs && lk(p.0) == rk(p.1) {
        assert p.1 in m;
        var i :| 0 <= i < |m| && m[i] == p.1;
        assert head[i] == p;
      }
      if p in head {
        var i :| 0 <= i < |head| && head[i] == p;
        assert m[i] in m;
      }
    }
  }

  lemma OuterJoinMembers<L(!new), R(!new), K>(ls: seq<L>, rs: seq<R>, lk: L -> K, rk: R -> K, p: (Option<L>, Option<R>))
    requires p in OuterJoin(ls, rs, lk, rk)
    ensures p.0.Some? || p.1.Some?
    ensures p.0.Some? ==> p.0.value in ls
    ensures p.1.Some? ==> p.1.value in rs
    ensures p.0.Some? && p.1.Some? ==> lk(p.0.value) == rk(p.1.value)
    ensures p.0.Some? && p.1.None? ==> forall r :: r in rs ==> rk(r) != lk(p.0.value)
    ensures p.0.None? ==> forall l :: l in ls ==> lk(l) != rk(p.1.value)
  {
    var left := LeftJoin(ls, rs, lk, rk);
    var right := Unmatched(ls, rs, lk, rk);
    var o := OuterJoin(ls, rs, lk, rk);
    var i :| 0 <= i < |o| && o[i] == p;
    if i < |left| {
      OuterJoinLeftPart(ls, rs, lk, rk, i);
      LeftJoinMembers(ls, rs, lk, rk, left[i]);
    } else {
      OuterJoinRightPart(ls, rs, lk, rk, i - |left|);
      assert right[i - |left|] in right;
    }
  }

  lemma OuterJoinCoversLeft<L(!new), R(!new), K>(ls: seq<L>, rs: seq<R>, lk: L -> K, rk: R -> K, l: L)
    requires l in ls
    ensures exists p :: p in OuterJoin(ls, rs, lk, rk) && p.0 == Some(l)
  {
    var left := LeftJoin(ls, rs, lk, rk);
    var o := OuterJoin(ls, rs, lk, rk);
    LeftJoinCovers(ls, rs, lk, rk, l);
    var q :| q in left && q.0 == l;
    var i :| 0 <= i < |left| && left[i] == q;
    OuterJoinLeftPart(ls, rs, lk, rk, i);
    assert o[i] in o;
  }

  lemma OuterJoinCoversRight<L(!new), R(!new), K>(ls: seq<L>, rs: seq<R>, lk: L -> K, rk: R -> K, r: R)
    requires r in rs
    ensures exists p :: p in OuterJoin(ls, rs, lk, rk) && p.1 == Some(r)
  {
    var left := LeftJoin(ls, rs, lk, rk);
    var right := Unmatched(ls, rs, lk, rk);
    var o := OuterJoin(ls, rs, lk, rk);
    if l :| l in ls && lk(l) == rk(r) {
      LeftJoinHasPair(ls, rs, lk, rk, l, r);
      var k :| 0 <= k < |left| && left[k] == (l, Some(r));
      OuterJoinLeftPart(ls, rs, lk, rk, k);
      assert o[k] in o;
    } else {
      assert r in right;
      var i :| 0 <= i < |right| && right[i] == r;
      OuterJoinRightPart(ls, rs, lk, rk, i);
      assert o[|left| + i] in o;
    }
  }

  lemma {:induction false} LeftJoinHasPair<L(!new), R(!new), K>(ls: seq<L>, rs: seq<R>, lk: L -> K, rk: R -> K, l: L, r: R)
    requires l in ls && r in rs && lk(l) == rk(r)
    ensures (l, Some(r)) in LeftJoin(ls, rs, lk, rk)
    decreases |ls|
  {
    if l == ls[0] {
      var m := Matches(rs, rk, lk(ls[0]));
      var i :| 0 <= i < |m| && m[i] == r;
      assert Pairs(ls[0], Somes(m))[i] == (l, Some(r));
    } else {
      LeftJoinHasPair(ls[1..], rs, lk, rk, l, r);
    }
  }

  lemma OuterJoinHasPair<L(!new), R(!new), K>(ls: seq<L>, rs: seq<R>, lk: L -> K, rk: R -> K, l: L, r: R)
    requires l in ls && r in rs && lk(l) == rk(r)
    ensures (Some(l), Some(r)) in OuterJoin(ls, rs, lk, rk)
  {
    var left := LeftJoin(ls, rs, lk, rk);
    var o := OuterJoin(ls, rs, lk, rk);
    LeftJoinHasPair(ls, rs, lk, rk, l, r);
    var k :| 0 <= k < |left| && left[k] == (l, Some(r));
    assert o[k] == (Some(l), Some(r)) by {
      OuterJoinLeftPart(ls, rs, lk, rk, k);
    }
  }

  /** The first rows of an outer join are the left join's, the left side made optional. */
  lemma OuterJoinLeftPart<L(!new), R(!new), K>(ls: seq<L>, rs: seq<R>, lk: L -> K, rk: R -> K, k: nat)
    requires k < |LeftJoin(ls, rs, lk, rk)|
    ensures k < |OuterJoin(ls, rs, lk, rk)|
    ensures OuterJoin(ls, rs, lk, rk)[k] == (Some(LeftJoin(ls, rs, lk, rk)[k].0), LeftJoin(ls, rs, lk, rk)[k].1)
  {
  }

  /** The last rows of an outer join are the unmatched right rows, the left side NaN. */
  lemma OuterJoinRightPart<L(!new), R(!new), K>(ls: seq<L>, rs: seq<R>, lk: L -> K, rk: R -> K, k: nat)
    requires k < |Unmatched(ls, rs, lk, rk)|
    ensures |LeftJoin(ls, rs, lk, rk)| + k < |OuterJoin(ls, rs, lk, rk)|
    ensures OuterJoin(ls, rs, lk, rk)[|LeftJoin(ls, rs, lk, rk)| + k] == (None, Some(Unmatched(ls, rs, lk, rk)[k]))
  {
  }
}
