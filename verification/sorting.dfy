/**
 A stable sort of competitor indices by a key, the behaviour of Python's
 `sorted` (with or without `reverse=True`) that every engine relies on.
 Keys live in a sequence indexed by competitor; `le` says when one key may
 come before another.
 */
module Sorting {
  import opened Seqs

  /** `le` lets any two keys be compared and chains. */
  ghost predicate TotalPreorder<K(!new)>(le: (K, K) -> bool)
  {
    && (forall a, b :: le(a, b) || le(b, a))
    && (forall a, b, c :: le(a, b) && le(b, c) ==> le(a, c))
  }

  /** Two keys that neither precedes the other strictly. */
  predicate Equiv<K>(le: (K, K) -> bool, a: K, b: K)
  {
    le(a, b) && le(b, a)
  }

  /** Every earlier element's key may precede every later element's key. */
  ghost predicate Ordered<K>(r: seq<nat>, key: seq<K>, le: (K, K) -> bool)
    requires Below(r, |key|)
  {
    forall i, k :: 0 <= i < k < |r| ==> le(key[r[i]], key[r[k]])
  }

  /** The elements of `xs` whose key is equivalent to `v`, in order. */
  function Class<K>(xs: seq<nat>, key: seq<K>, le: (K, K) -> bool, v: K): seq<nat>
    requires Below(xs, |key|)
  {
    if |xs| == 0 then []
    else (if Equiv(le, key[xs[0]], v) then [xs[0]] else []) + Class(xs[1..], key, le, v)
  }

  /** Puts `x` in front of the first element it may precede. */
  function Insert<K>(x: nat, ys: seq<nat>, key: seq<K>, le: (K, K) -> bool): (r: seq<nat>)
    requires x < |key| && Below(ys, |key|)
    ensures multiset(r) == multiset(ys) + multiset{x}
    ensures Below(r, |key|)
  {
    if |ys| == 0 then [x]
    else if le(key[x], key[ys[0]]) then [x] + ys
    else
      assert ys == [ys[0]] + ys[1..];
      [ys[0]] + Insert(x, ys[1..], key, le)
  }

  /** Insertion sort: each element goes in front of the sorted rest. */
  function SortBy<K>(xs: seq<nat>, key: seq<K>, le: (K, K) -> bool): (r: seq<nat>)
    requires Below(xs, |key|)
    ensures multiset(r) == multiset(xs)
    ensures Below(r, |key|)
  {
    if |xs| == 0 then []
    else
      assert xs == [xs[0]] + xs[1..];
      Insert(xs[0], SortBy(xs[1..], key, le), key, le)
  }

  lemma {:induction false} InsertOrdered<K(!new)>(x: nat, ys: seq<nat>, key: seq<K>, le: (K, K) -> bool)
    requires x < |key| && Below(ys, |key|)
    requires TotalPreorder(le) && Ordered(ys, key, le)
    ensures Ordered(Insert(x, ys, key, le), key, le)
  {
    if |ys| > 0 && !le(key[x], key[ys[0]]) {
      var rest := Insert(x, ys[1..], key, le);
      InsertOrdered(x, ys[1..], key, le);
      assert le(key[ys[0]], key[x]);
      forall t | 0 <= t < |rest| ensures le(key[ys[0]], key[rest[t]]) {
        assert rest[t] in multiset(rest);
        assert rest[t] == x || rest[t] in ys[1..];
      }
    }
  }

  /** The sort is ordered under a total preorder. */
  lemma {:induction false} SortByOrdered<K(!new)>(xs: seq<nat>, key: seq<K>, le: (K, K) -> bool)
    requires Below(xs, |key|) && TotalPreorder(le)
    ensures Ordered(SortBy(xs, key, le), key, le)
  {
    if |xs| > 0 {
      SortByOrdered(xs[1..], key, le);
      InsertOrdered(xs[0], SortBy(xs[1..], key, le), key, le);
    }
  }

  /** Class of a sequence with a known first element. */
  lemma ClassCons<K>(h: nat, rest: seq<nat>, key: seq<K>, le: (K, K) -> bool, v: K)
    requires h < |key| && Below(rest, |key|)
    ensures Class([h] + rest, key, le, v) == (if Equiv(le, key[h], v) then [h] else []) + Class(rest, key, le, v)
  {
    assert ([h] + rest)[1..] == rest;
  }

  lemma {:induction false} ClassAppend<K>(a: seq<nat>, b: seq<nat>, key: seq<K>, le: (K, K) -> bool, v: K)
    requires Below(a, |key|) && Below(b, |key|)
    ensures Class(a + b, key, le, v) == Class(a, key, le, v) + Class(b, key, le, v)
  {
    if |a| == 0 {
      assert a + b == b;
    } else {
      var h, tail := a[0], a[1..];
      ClassAppend(tail, b, key, le, v);
      ClassCons(h, tail + b, key, le, v);
      ClassCons(h, tail, key, le, v);
      assert a == [h] + tail;
      assert a + b == [h] + (tail + b);
    }
  }

  lemma {:induction false} InsertClass<K(!new)>(x: nat, ys: seq<nat>, key: seq<K>, le: (K, K) -> bool, v: K)
    requires x < |key| && Below(ys, |key|) && TotalPreorder(le)
    ensures Class(Insert(x, ys, key, le), key, le, v)
         == (if Equiv(le, key[x], v) then [x] else []) + Class(ys, key, le, v)
  {
    if |ys| == 0 {
    } else if le(key[x], key[ys[0]]) {
      ClassCons(x, ys, key, le, v);
    } else {
      var h, tail := ys[0], ys[1..];
      InsertClass(x, tail, key, le, v);
      // ys[0] strictly precedes x, so it cannot share x's class
      assert Equiv(le, key[x], v) ==> !Equiv(le, key[h], v);
      ClassShift(h, x, tail, Insert(x, tail, key, le), key, le, v);
      assert ys == [h] + tail;
    }
  }

  /** Putting a head that is not in x's class in front of both sides keeps the class equation. */
  lemma ClassShift<K>(h: nat, x: nat, tail: seq<nat>, rest: seq<nat>, key: seq<K>, le: (K, K) -> bool, v: K)
    requires h < |key| && x < |key| && Below(tail, |key|) && Below(rest, |key|)
    requires Class(rest, key, le, v) == (if Equiv(le, key[x], v) then [x] else []) + Class(tail, key, le, v)
    requires Equiv(le, key[x], v) ==> !Equiv(le, key[h], v)
    ensures Class([h] + rest, key, le, v) == (if Equiv(le, key[x], v) then [x] else []) + Class([h] + tail, key, le, v)
  {
    ClassCons(h, rest, key, le, v);
    ClassCons(h, tail, key, le, v);
  }

  /** The sort is stable: each class of equivalent keys keeps its input order. */
  lemma {:induction false} SortByStable<K(!new)>(xs: seq<nat>, key: seq<K>, le: (K, K) -> bool, v: K)
    requires Below(xs, |key|) && TotalPreorder(le)
    ensures Class(SortBy(xs, key, le), key, le, v) == Class(xs, key, le, v)
  {
    if |xs| > 0 {
      SortByStable(xs[1..], key, le, v);
      InsertClass(xs[0], SortBy(xs[1..], key, le), key, le, v);
    }
  }

  /** Strictly increasing indices, such as entry order. */
  predicate Ascending(xs: seq<nat>)
  {
    forall i, k :: 0 <= i < k < |xs| ==> xs[i] < xs[k]
  }

  /** Among elements with equivalent keys, the smaller index comes first. */
  ghost predicate TiesAscending<K>(r: seq<nat>, key: seq<K>, le: (K, K) -> bool)
    requires Below(r, |key|)
  {
    forall i, k :: 0 <= i < k < |r| && Equiv(le, key[r[i]], key[r[k]]) ==> r[i] < r[k]
  }

  lemma TiesAscendingCons<K>(y: nat, rest: seq<nat>, key: seq<K>, le: (K, K) -> bool)
    requires y < |key| && Below(rest, |key|) && TiesAscending(rest, key, le)
    requires forall k :: 0 <= k < |rest| && Equiv(le, key[y], key[rest[k]]) ==> y < rest[k]
    ensures Below([y] + rest, |key|) && TiesAscending([y] + rest, key, le)
  {
    var r := [y] + rest;
    assert forall k :: 1 <= k < |r| ==> r[k] == rest[k - 1];
  }

  lemma {:induction false} InsertTiesAscending<K(!new)>(x: nat, ys: seq<nat>, key: seq<K>, le: (K, K) -> bool)
    requires x < |key| && Below(ys, |key|) && TotalPreorder(le)
    requires TiesAscending(ys, key, le)
    requires forall t :: 0 <= t < |ys| ==> x < ys[t]
    ensures TiesAscending(Insert(x, ys, key, le), key, le)
  {
    if |ys| == 0 {
    } else if le(key[x], key[ys[0]]) {
      TiesAscendingCons(x, ys, key, le);
    } else {
      var rest := Insert(x, ys[1..], key, le);
      InsertTiesAscending(x, ys[1..], key, le);
      forall k | 0 <= k < |rest| && Equiv(le, key[ys[0]], key[rest[k]])
        ensures ys[0] < rest[k]
      {
        assert rest[k] in multiset(rest);
        assert rest[k] in ys[1..];
        var t :| 0 <= t < |ys[1..]| && ys[1..][t] == rest[k];
        assert ys[t + 1] == rest[k];
      }
      TiesAscendingCons(ys[0], rest, key, le);
    }
  }

  /** Sorting entry-ordered indices keeps entry order among equal keys. */
  lemma {:induction false} SortByTiesAscending<K(!new)>(xs: seq<nat>, key: seq<K>, le: (K, K) -> bool)
    requires Below(xs, |key|) && TotalPreorder(le) && Ascending(xs)
    ensures TiesAscending(SortBy(xs, key, le), key, le)
  {
    if |xs| > 0 {
      var rest := SortBy(xs[1..], key, le);
      SortByTiesAscending(xs[1..], key, le);
      forall t | 0 <= t < |rest| ensures xs[0] < rest[t] {
        assert rest[t] in multiset(xs[1..]);
        var u :| 0 <= u < |xs[1..]| && xs[1..][u] == rest[t];
        assert xs[u + 1] == rest[t];
      }
      InsertTiesAscending(xs[0], rest, key, le);
    }
  }
}
