/**
 * Sorting a table by a key, as pandas' `sort_values` does. pandas does not
 * promise an algorithm or a tie order; the model sorts by insertion and the
 * lemmas only state what any correct sort gives: a permutation of the input
 * that is ordered by the key.
 */
module Sorting {
  import opened Wrappers

  /** `le` is total and transitive: a comparison a sort can rely on. */
  ghost predicate TotalPreorder<T(!new)>(le: (T, T) -> bool)
  {
    && (forall a, b :: le(a, b) || le(b, a))
    && (forall a, b, c :: le(a, b) && le(b, c) ==> le(a, c))
  }

  predicate Sorted<T>(xs: seq<T>, le: (T, T) -> bool)
  {
    forall i, j :: 0 <= i < j < |xs| ==> le(xs[i], xs[j])
  }

  /** Places `x` before the first element it is not after. */
  function Insert<T>(x: T, xs: seq<T>, le: (T, T) -> bool): (r: seq<T>)
    ensures |r| == |xs| + 1
    ensures multiset(r) == multiset(xs) + multiset{x}
  {
    if xs == [] then [x]
    else if le(x, xs[0]) then [x] + xs
    else
      assert xs == [xs[0]] + xs[1..];
      [xs[0]] + Insert(x, xs[1..], le)
  }

  /** The table ordered by `le`. */
  function SortBy<T>(xs: seq<T>, le: (T, T) -> bool): (r: seq<T>)
    ensures |r| == |xs|
    ensures multiset(r) == multiset(xs)
  {
    if xs == [] then []
    else
      assert xs == [xs[0]] + xs[1..];
      Insert(xs[0], SortBy(xs[1..], le), le)
  }

  lemma {:induction false} InsertSorted<T(!new)>(x: T, xs: seq<T>, le: (T, T) -> bool)
    requires TotalPreorder(le) && Sorted(xs, le)
    ensures Sorted(Insert(x, xs, le), le)
    decreases |xs|
  {
    if xs == [] {
    } else if le(x, xs[0]) {
      var r := [x] + xs;
      forall i, j | 0 <= i < j < |r| ensures le(r[i], r[j]) {
        if i == 0 && j > 1 {
          assert le(xs[0], xs[j - 1]);
        }
      }
    } else {
      assert le(xs[0], x);
      var tail := Insert(x, xs[1..], le);
      InsertSorted(x, xs[1..], le);
      var r := [xs[0]] + tail;
      forall i, j | 0 <= i < j < |r| ensures le(r[i], r[j]) {
        if i == 0 {
          var y := tail[j - 1];
          assert y in multiset(tail);
          assert y == x || y in multiset(xs[1..]);
          if y != x {
            var k :| 0 <= k < |xs[1..]| && xs[1..][k] == y;
            assert le(xs[0], xs[k + 1]);
          }
        }
      }
    }
  }

  lemma {:induction false} SortBySorted<T(!new)>(xs: seq<T>, le: (T, T) -> bool)
    requires TotalPreorder(le)
    ensures Sorted(SortBy(xs, le), le)
    decreases |xs|
  {
    if xs != [] {
      SortBySorted(xs[1..], le);
      InsertSorted(xs[0], SortBy(xs[1..], le), le);
    }
  }

  /** Comparison of optional keys: present keys by `le`, a missing key after every present one. */
  predicate MissingLast<K>(le: (K, K) -> bool, a: Option<K>, b: Option<K>)
  {
    match a
    case None => b.None?
    case Some(x) => b.None? || le(x, b.value)
  }

  /** The order on rows induced by an optional key of each row. */
  function ByKey<T, K>(key: T -> Option<K>, le: (K, K) -> bool): (T, T) -> bool
  {
    (a: T, b: T) => MissingLast(le, key(a), key(b))
  }

  /** `le` when sorting ascending, its converse when sorting descending. */
  function Directed<K>(le: (K, K) -> bool, ascending: bool): (K, K) -> bool
  {
    if ascending then le else (a: K, b: K) => le(b, a)
  }

  lemma DirectedPreorder<K(!new)>(le: (K, K) -> bool, ascending: bool)
    requires TotalPreorder(le)
    ensures TotalPreorder(Directed(le, ascending))
  {
  }

  lemma ByKeyPreorder<T(!new), K(!new)>(key: T -> Option<K>, le: (K, K) -> bool)
    requires TotalPreorder(le)
    ensures TotalPreorder(ByKey(key, le))
  {
    var r := ByKey(key, le);
    forall a, b, c | r(a, b) && r(b, c) ensures r(a, c) {
      if key(c).Some? {
        assert le(key(a).value, key(b).value) && le(key(b).value, key(c).value);
      }
    }
  }
}
