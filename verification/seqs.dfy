/**
 Generic facts about finite sequences that the tabulation engines share:
 sums, filters, counting, index ranges and distinctness.
 */
module Seqs {

  /** Sum of a sequence of integers. */
  function Sum(xs: seq<int>): int
  {
    if |xs| == 0 then 0 else xs[0] + Sum(xs[1..])
  }

  lemma {:induction false} SumAppend(a: seq<int>, b: seq<int>)
    ensures Sum(a + b) == Sum(a) + Sum(b)
  {
    if |a| == 0 {
      assert a + b == b;
    } else {
      assert (a + b)[1..] == a[1..] + b;
      SumAppend(a[1..], b);
    }
  }

  /** The head and tail of a concatenation with a non-empty left part. */
  lemma AppendCons<T>(a: seq<T>, b: seq<T>)
    requires |a| > 0
    ensures (a + b)[0] == a[0] && (a + b)[1..] == a[1..] + b
  {
  }

  /** A suffix splits at any later position. */
  lemma SliceSplit<T>(xs: seq<T>, i: nat, e: nat)
    requires i <= e <= |xs|
    ensures xs[i..] == xs[i..e] + xs[e..]
  {
  }

  lemma AppendAssoc<T>(x: seq<T>, y: seq<T>, z: seq<T>)
    ensures (x + y) + z == x + (y + z)
  {
  }

  /** The indices 0, 1, ..., n-1 in ascending order. */
  function Iota(n: nat): (r: seq<nat>)
    ensures |r| == n
    ensures forall i :: 0 <= i < n ==> r[i] == i
  {
    seq(n, i => i)
  }

  /** No element occurs twice. */
  predicate Distinct<T(==)>(xs: seq<T>)
  {
    forall i, k :: 0 <= i < k < |xs| ==> xs[i] != xs[k]
  }

  /** Every element is an index below `bound`. */
  predicate Below(xs: seq<nat>, bound: nat)
  {
    forall i :: 0 <= i < |xs| ==> xs[i] < bound
  }

  lemma IotaFacts(n: nat)
    ensures Distinct(Iota(n)) && Below(Iota(n), n)
    ensures forall x :: x in Iota(n) <==> 0 <= x < n
  {
    forall x | 0 <= x < n ensures x in Iota(n) {
      assert Iota(n)[x] == x;
    }
  }

  /** The elements of `xs` that satisfy `p`, in their original order. */
  function Filter<T>(xs: seq<T>, p: T -> bool): (r: seq<T>)
    ensures |r| <= |xs|
  {
    if |xs| == 0 then []
    else (if p(xs[0]) then [xs[0]] else []) + Filter(xs[1..], p)
  }

  /** A filter keeps exactly the elements that pass, and invents none. */
  lemma {:induction false} FilterFacts<T>(xs: seq<T>, p: T -> bool)
    ensures forall x <- Filter(xs, p) :: x in xs && p(x)
    ensures forall x <- xs :: p(x) ==> x in Filter(xs, p)
    ensures multiset(Filter(xs, p)) <= multiset(xs)
  {
    if |xs| > 0 {
      FilterFacts(xs[1..], p);
      assert xs == [xs[0]] + xs[1..];
    }
  }

  lemma {:induction false} FilterDistinct<T>(xs: seq<T>, p: T -> bool)
    requires Distinct(xs)
    ensures Distinct(Filter(xs, p))
  {
    if |xs| > 0 {
      FilterDistinct(xs[1..], p);
      FilterFacts(xs[1..], p);
      assert xs[0] !in xs[1..];
    }
  }

  /** Splitting by a predicate and its complement loses and invents nothing. */
  lemma {:induction false} FilterComplement<T>(xs: seq<T>, p: T -> bool, q: T -> bool)
    requires forall x :: q(x) == !p(x)
    ensures multiset(Filter(xs, p)) + multiset(Filter(xs, q)) == multiset(xs)
    ensures |Filter(xs, p)| + |Filter(xs, q)| == |xs|
  {
    if |xs| > 0 {
      FilterComplement(xs[1..], p, q);
      assert xs == [xs[0]] + xs[1..];
    }
  }

  /** A filter keeps everything exactly when every element passes. */
  lemma {:induction false} FilterAll<T>(xs: seq<T>, p: T -> bool)
    requires forall x <- xs :: p(x)
    ensures Filter(xs, p) == xs
  {
    if |xs| > 0 {
      FilterAll(xs[1..], p);
      assert xs == [xs[0]] + xs[1..];
    }
  }

  lemma {:induction false} FilterNone<T>(xs: seq<T>, p: T -> bool)
    requires forall x <- xs :: !p(x)
    ensures Filter(xs, p) == []
  {
    if |xs| > 0 {
      FilterNone(xs[1..], p);
    }
  }

  /** Distinct sequences with the same elements are permutations of each other. */
  lemma DistinctSameElements<T>(xs: seq<T>, ys: seq<T>)
    requires Distinct(xs) && Distinct(ys)
    requires forall x :: x in xs <==> x in ys
    ensures multiset(xs) == multiset(ys)
  {
    DistinctMultiset(xs);
    DistinctMultiset(ys);
    assert forall x :: x in multiset(xs) <==> x in multiset(ys);
  }

  /** In a distinct sequence every element occurs exactly once. */
  lemma {:induction false} DistinctMultiset<T>(xs: seq<T>)
    requires Distinct(xs)
    ensures forall x :: multiset(xs)[x] == if x in xs then 1 else 0
  {
    if |xs| > 0 {
      DistinctMultiset(xs[1..]);
      assert xs == [xs[0]] + xs[1..];
      assert xs[0] !in xs[1..];
    }
  }

  /** A sequence with one occurrence of each element of a distinct sequence is distinct. */
  lemma PermutationDistinct<T>(xs: seq<T>, ys: seq<T>)
    requires Distinct(ys) && multiset(xs) == multiset(ys)
    ensures Distinct(xs)
  {
    DistinctMultiset(ys);
    forall i, k | 0 <= i < k < |xs| ensures xs[i] != xs[k] {
      RepeatCounts(xs, i, k);
    }
  }

  lemma RepeatCounts<T>(xs: seq<T>, i: nat, k: nat)
    requires i < k < |xs|
    ensures xs[i] == xs[k] ==> multiset(xs)[xs[i]] >= 2
  {
    assert xs == xs[..i] + [xs[i]] + xs[i+1..k] + [xs[k]] + xs[k+1..];
  }

  /** Position of the first occurrence of `x`, or |xs| when absent. */
  function IndexOf<T(==)>(xs: seq<T>, x: T): (i: nat)
    ensures i <= |xs|
    ensures i < |xs| <==> x in xs
    ensures i < |xs| ==> xs[i] == x && x !in xs[..i]
  {
    if |xs| == 0 then 0
    else if xs[0] == x then 0
    else
      assert xs[..1 + IndexOf(xs[1..], x)] == [xs[0]] + xs[1..][..IndexOf(xs[1..], x)];
      1 + IndexOf(xs[1..], x)
  }

  lemma IndexOfDistinct<T>(xs: seq<T>, i: nat)
    requires Distinct(xs) && i < |xs|
    ensures IndexOf(xs, xs[i]) == i
  {
    var k := IndexOf(xs, xs[i]);
    assert forall t :: 0 <= t < k ==> xs[..k][t] == xs[t];
  }

  /** How many of 0, 1, ..., n-1 satisfy `p`. */
  function Count(n: nat, p: nat -> bool): (c: nat)
    ensures c <= n
  {
    if n == 0 then 0 else Count(n - 1, p) + (if p(n - 1) then 1 else 0)
  }

  /** Every index satisfies exactly one of a predicate and its complement. */
  lemma {:induction false} CountComplement(n: nat, p: nat -> bool, q: nat -> bool)
    requires forall i :: 0 <= i < n ==> q(i) == !p(i)
    ensures Count(n, p) + Count(n, q) == n
  {
    if n > 0 {
      CountComplement(n - 1, p, q);
    }
  }

  /** Counts of two disjoint predicates add up to the count of their union. */
  lemma {:induction false} CountDisjointUnion(n: nat, p: nat -> bool, q: nat -> bool, u: nat -> bool)
    requires forall i :: 0 <= i < n ==> !(p(i) && q(i)) && (u(i) == (p(i) || q(i)))
    ensures Count(n, u) == Count(n, p) + Count(n, q)
  {
    if n > 0 {
      CountDisjointUnion(n - 1, p, q, u);
    }
  }

  /** Pointwise implication bounds counts. */
  lemma {:induction false} CountMono(n: nat, p: nat -> bool, q: nat -> bool)
    requires forall i :: 0 <= i < n ==> p(i) ==> q(i)
    ensures Count(n, p) <= Count(n, q)
  {
    if n > 0 {
      CountMono(n - 1, p, q);
    }
  }

  /** Counts agree when the predicates agree on the range. */
  lemma {:induction false} CountExt(n: nat, p: nat -> bool, q: nat -> bool)
    requires forall i :: 0 <= i < n ==> p(i) == q(i)
    ensures Count(n, p) == Count(n, q)
  {
    if n > 0 {
      CountExt(n - 1, p, q);
    }
  }

  /** vals[idx[0]], vals[idx[1]], ...: values looked up by index. */
  function Gather<T>(idx: seq<nat>, vals: seq<T>): (r: seq<T>)
    requires Below(idx, |vals|)
    ensures |r| == |idx| && forall i :: 0 <= i < |idx| ==> r[i] == vals[idx[i]]
  {
    seq(|idx|, i requires 0 <= i < |idx| => vals[idx[i]])
  }

  /** Gathering by a concatenation of indices concatenates the gathered values. */
  lemma GatherAppend<T>(a: seq<nat>, b: seq<nat>, vals: seq<T>)
    requires Below(a, |vals|) && Below(b, |vals|)
    ensures Below(a + b, |vals|) && Gather(a + b, vals) == Gather(a, vals) + Gather(b, vals)
  {
    assert forall i :: |a| <= i < |a + b| ==> (a + b)[i] == b[i - |a|];
  }

  /** Gathering by a permutation of indices gives a permutation of the values. */
  lemma {:induction false} GatherPermutation<T>(a: seq<nat>, b: seq<nat>, vals: seq<T>)
    requires Below(a, |vals|) && Below(b, |vals|) && multiset(a) == multiset(b)
    ensures multiset(Gather(a, vals)) == multiset(Gather(b, vals))
    decreases |a|
  {
    if |a| == 0 {
      assert |b| == |multiset(b)| == 0;
    } else {
      var x := a[0];
      assert x in multiset(b) by {
        assert x in multiset(a);
      }
      var i := PickIndex(b, x);
      var rest := b[..i] + b[i+1..];
      RemoveAt(b, i);
      RemoveHead(a);
      GatherPermutation(a[1..], rest, vals);
      GatherRemoveAt(b, i, vals);
      GatherHead(a, vals);
    }
  }

  lemma RemoveHead<T>(a: seq<T>)
    requires |a| > 0
    ensures multiset(a[1..]) == multiset(a) - multiset{a[0]}
  {
    assert a == [a[0]] + a[1..];
  }

  lemma GatherHead<T>(a: seq<nat>, vals: seq<T>)
    requires Below(a, |vals|) && |a| > 0
    ensures Below(a[1..], |vals|)
    ensures multiset(Gather(a, vals)) == multiset(Gather(a[1..], vals)) + multiset{vals[a[0]]}
  {
    var g := Gather(a, vals);
    assert g == [g[0]] + g[1..];
    assert Gather(a[1..], vals) == g[1..];
  }

  /** Some position holding `x`. */
  lemma PickIndex<T>(b: seq<T>, x: T) returns (i: nat)
    requires x in multiset(b)
    ensures i < |b| && b[i] == x
  {
    assert x in b;
    i :| 0 <= i < |b| && b[i] == x;
  }

  lemma RemoveAt<T>(b: seq<T>, i: nat)
    requires i < |b|
    ensures multiset(b[..i] + b[i+1..]) == multiset(b) - multiset{b[i]}
  {
    assert b == b[..i] + [b[i]] + b[i+1..];
  }

  lemma GatherRemoveAt<T>(b: seq<nat>, i: nat, vals: seq<T>)
    requires Below(b, |vals|) && i < |b|
    ensures Below(b[..i] + b[i+1..], |vals|)
    ensures multiset(Gather(b, vals)) == multiset(Gather(b[..i] + b[i+1..], vals)) + multiset{vals[b[i]]}
  {
    var g := Gather(b, vals);
    assert g == g[..i] + [g[i]] + g[i+1..];
    assert Gather(b[..i] + b[i+1..], vals) == g[..i] + g[i+1..];
  }

  lemma GatherIota<T>(vals: seq<T>)
    ensures Below(Iota(|vals|), |vals|) && Gather(Iota(|vals|), vals) == vals
  {
  }

  /** Sums only depend on the multiset of summands. */
  lemma {:induction false} SumPermutation(a: seq<int>, b: seq<int>)
    requires multiset(a) == multiset(b)
    ensures Sum(a) == Sum(b)
    decreases |a|
  {
    if |a| == 0 {
      assert |b| == |multiset(b)| == 0;
    } else {
      var i := PickIndex(b, a[0]);
      RemoveAt(b, i);
      RemoveHead(a);
      SumPermutation(a[1..], b[..i] + b[i+1..]);
      SumRemoveAt(b, i);
    }
  }

  lemma SumRemoveAt(b: seq<int>, i: nat)
    requires i < |b|
    ensures Sum(b) == Sum(b[..i] + b[i+1..]) + b[i]
  {
    var l, s, r := b[..i], b[i..], b[i + 1..];
    assert l + s == b;
    assert s[0] == b[i] && s[1..] == r;
    SumAppend(l, s);
    SumAppend(l, r);
  }

  /** Element-wise sum of two sequences of the same length. */
  function AddSeqs(a: seq<int>, b: seq<int>): (r: seq<int>)
    requires |a| == |b|
    ensures |r| == |a| && forall i :: 0 <= i < |a| ==> r[i] == a[i] + b[i]
  {
    seq(|a|, i requires 0 <= i < |a| => a[i] + b[i])
  }

  lemma {:induction false} SumAddSeqs(a: seq<int>, b: seq<int>)
    requires |a| == |b|
    ensures Sum(AddSeqs(a, b)) == Sum(a) + Sum(b)
  {
    if |a| > 0 {
      SumAddSeqs(a[1..], b[1..]);
      assert AddSeqs(a, b)[1..] == AddSeqs(a[1..], b[1..]);
    }
  }

  /** Every row of `mat` has `w` entries. */
  predicate Rectangular(mat: seq<seq<int>>, w: nat)
  {
    forall j :: 0 <= j < |mat| ==> |mat[j]| == w
  }

  function RowSums(mat: seq<seq<int>>): (r: seq<int>)
    ensures |r| == |mat| && forall j :: 0 <= j < |mat| ==> r[j] == Sum(mat[j])
  {
    seq(|mat|, j requires 0 <= j < |mat| => Sum(mat[j]))
  }

  /** The i-th entry of every row. */
  function Column(mat: seq<seq<int>>, w: nat, i: nat): (r: seq<int>)
    requires Rectangular(mat, w) && i < w
    ensures |r| == |mat| && forall j :: 0 <= j < |mat| ==> r[j] == mat[j][i]
  {
    seq(|mat|, j requires 0 <= j < |mat| => mat[j][i])
  }

  function ColumnSums(mat: seq<seq<int>>, w: nat): (r: seq<int>)
    requires Rectangular(mat, w)
    ensures |r| == w && forall i :: 0 <= i < w ==> r[i] == Sum(Column(mat, w, i))
  {
    seq(w, i requires 0 <= i < w => Sum(Column(mat, w, i)))
  }

  /** Adding up a table by rows or by columns gives the same total. */
  lemma {:induction false} SumRowsColumns(mat: seq<seq<int>>, w: nat)
    requires Rectangular(mat, w)
    ensures Sum(RowSums(mat)) == Sum(ColumnSums(mat, w))
  {
    if |mat| == 0 {
      assert ColumnSums(mat, w) == seq(w, i => 0);
      SumZeros(w);
    } else {
      var rest := mat[1..];
      SumRowsColumns(rest, w);
      assert RowSums(mat)[1..] == RowSums(rest);
      forall i | 0 <= i < w ensures ColumnSums(mat, w)[i] == mat[0][i] + ColumnSums(rest, w)[i] {
        assert Column(mat, w, i)[1..] == Column(rest, w, i);
      }
      assert ColumnSums(mat, w) == AddSeqs(mat[0], ColumnSums(rest, w));
      SumAddSeqs(mat[0], ColumnSums(rest, w));
    }
  }

  lemma {:induction false} SumZeros(w: nat)
    ensures Sum(seq(w, i => 0)) == 0
  {
    if w > 0 {
      assert seq(w, i => 0)[1..] == seq(w - 1, i => 0);
      SumZeros(w - 1);
    }
  }

  /** Summands between lo and hi give a sum between |xs|*lo and |xs|*hi. */
  lemma {:induction false} SumBounds(xs: seq<int>, lo: int, hi: int)
    requires forall i :: 0 <= i < |xs| ==> lo <= xs[i] <= hi
    ensures |xs| * lo <= Sum(xs) <= |xs| * hi
  {
    if |xs| > 0 {
      SumBounds(xs[1..], lo, hi);
      assert |xs| * lo == lo + (|xs| - 1) * lo;
      assert |xs| * hi == hi + (|xs| - 1) * hi;
    }
  }

  /** A constant sequence sums to its length times the constant. */
  lemma SumConstant(xs: seq<int>, v: int)
    requires forall i :: 0 <= i < |xs| ==> xs[i] == v
    ensures Sum(xs) == |xs| * v
  {
    SumBounds(xs, v, v);
  }

  /** k-1, k-2, ..., 0. */
  function Countdown(k: nat): (r: seq<int>)
    ensures |r| == k && forall i :: 0 <= i < k ==> r[i] == k - 1 - i
  {
    seq(k, i => k - 1 - i)
  }

  /** k-1, k-2, ..., 0 adds up to k(k-1)/2. */
  lemma {:induction false} SumCountdown(k: nat)
    ensures 2 * Sum(Countdown(k)) == k * (k - 1)
  {
    if k > 0 {
      var s := Countdown(k);
      var s' := Countdown(k - 1);
      assert s[1..] == s';
      SumCountdown(k - 1);
      assert k * (k - 1) == (k - 1) * (k - 2) + 2 * (k - 1);
    }
  }

  /** A permutation of indices below a bound is below the bound. */
  lemma BelowPermutation(a: seq<nat>, b: seq<nat>, bound: nat)
    requires multiset(a) == multiset(b) && Below(b, bound)
    ensures Below(a, bound)
  {
    forall i | 0 <= i < |a| ensures a[i] < bound {
      assert a[i] in multiset(b);
    }
  }

  /** Keeping the elements that pass `p` from those that pass `q` keeps those that pass `p`, when `p` implies `q`. */
  lemma {:induction false} FilterFilter<T>(xs: seq<T>, p: T -> bool, q: T -> bool)
    requires forall x <- xs :: p(x) ==> q(x)
    ensures Filter(Filter(xs, q), p) == Filter(xs, p)
  {
    if |xs| > 0 {
      FilterFilter(xs[1..], p, q);
      var rest := Filter(xs[1..], q);
      if q(xs[0]) {
        var fq := [xs[0]] + rest;
        assert Filter(xs, q) == fq;
        assert fq[1..] == rest;
        assert Filter(fq, p) == (if p(xs[0]) then [xs[0]] else []) + Filter(rest, p);
      } else {
        assert Filter(xs, q) == rest;
      }
    }
  }

  /** Keys never increase along xs. */
  predicate NonIncreasing(xs: seq<nat>, key: seq<int>)
    requires Below(xs, |key|)
  {
    forall i, k :: 0 <= i < k < |xs| ==> key[xs[i]] >= key[xs[k]]
  }

  lemma NonIncreasingAppend(a: seq<nat>, b: seq<nat>, key: seq<int>)
    requires Below(a, |key|) && Below(b, |key|) && NonIncreasing(a, key) && NonIncreasing(b, key)
    requires forall i, k :: 0 <= i < |a| && 0 <= k < |b| ==> key[a[i]] >= key[b[k]]
    ensures Below(a + b, |key|) && NonIncreasing(a + b, key)
  {
    var ab := a + b;
    assert forall i :: 0 <= i < |a| ==> ab[i] == a[i];
    assert forall k :: |a| <= k < |ab| ==> ab[k] == b[k - |a|];
  }

  /** A rearrangement of 0, ..., n - 1 holds each of them exactly once. */
  lemma PermutationOfIota(xs: seq<nat>, n: nat)
    requires multiset(xs) == multiset(Iota(n))
    ensures |xs| == n && Distinct(xs) && Below(xs, n)
    ensures forall c :: c in xs <==> 0 <= c < n
  {
    IotaFacts(n);
    assert |xs| == |multiset(xs)|;
    PermutationDistinct(xs, Iota(n));
    BelowPermutation(xs, Iota(n), n);
    forall c ensures c in xs <==> 0 <= c < n {
      assert c in xs <==> c in multiset(xs);
      assert c in Iota(n) <==> c in multiset(Iota(n));
    }
  }

  /** n strictly increasing integers drawn from lo, ..., lo + n - 1 are exactly those numbers in order. */
  lemma {:induction false} IncreasingFill(v: seq<int>, lo: int)
    requires forall i, k :: 0 <= i < k < |v| ==> v[i] < v[k]
    requires forall i :: 0 <= i < |v| ==> lo <= v[i] < lo + |v|
    ensures forall i :: 0 <= i < |v| ==> v[i] == lo + i
  {
    if |v| > 0 {
      var w := v[1..];
      assert forall i :: 0 <= i < |w| ==> w[i] == v[i + 1] && v[0] < w[i];
      IncreasingFill(w, lo + 1);
      forall i | 0 <= i < |v| ensures v[i] == lo + i {
        if i > 0 {
          assert v[i] == w[i - 1];
        } else if |w| > 0 {
          assert v[0] < w[0] == lo + 1;
        }
      }
    }
  }

  /** A permutation of 0, ..., n-1 that never rises in a key strictly falling with the index is 0, ..., n-1 itself. */
  lemma RankedByDistinctKeys(xs: seq<nat>, key: seq<int>)
    requires multiset(xs) == multiset(Iota(|key|))
    requires forall a, b :: 0 <= a < b < |key| ==> key[a] > key[b]
    requires Below(xs, |key|) && NonIncreasing(xs, key)
    ensures xs == Iota(|key|)
  {
    PermutationOfIota(xs, |key|);
    forall i, k | 0 <= i < k < |xs| ensures xs[i] < xs[k] {
      assert key[xs[i]] >= key[xs[k]];
    }
    IncreasingFill(xs, 0);
  }

  /** The greatest key among xs. */
  function MaxKey(xs: seq<nat>, key: seq<int>): (v: int)
    requires |xs| > 0 && Below(xs, |key|)
    ensures forall i :: 0 <= i < |xs| ==> key[xs[i]] <= v
    ensures exists i :: 0 <= i < |xs| && key[xs[i]] == v
  {
    if |xs| == 1 then key[xs[0]]
    else
      var m := MaxKey(xs[1..], key);
      assert forall i :: 1 <= i < |xs| ==> xs[i] == xs[1..][i - 1];
      if key[xs[0]] >= m then key[xs[0]] else m
  }

  /** Holds of the competitor numbers whose key is v. */
  function HasKey(key: seq<int>, v: int): nat -> bool
  {
    (c: nat) => c < |key| && key[c] == v
  }

  function LacksKey(key: seq<int>, v: int): nat -> bool
  {
    (c: nat) => !(c < |key| && key[c] == v)
  }

  /** Some competitor holds the greatest key, so the rest is strictly shorter. */
  lemma TopNonEmpty(xs: seq<nat>, key: seq<int>)
    requires |xs| > 0 && Below(xs, |key|)
    ensures |Filter(xs, HasKey(key, MaxKey(xs, key)))| > 0
    ensures |Filter(xs, HasKey(key, MaxKey(xs, key)))| + |Filter(xs, LacksKey(key, MaxKey(xs, key)))| == |xs|
  {
    var v := MaxKey(xs, key);
    FilterComplement(xs, HasKey(key, v), LacksKey(key, v));
    var i :| 0 <= i < |xs| && key[xs[i]] == v;
    assert HasKey(key, v)(xs[i]);
    FilterFacts(xs, HasKey(key, v));
    assert xs[i] in Filter(xs, HasKey(key, v));
  }

  /** The least key among xs. */
  function MinKey(xs: seq<nat>, key: seq<int>): (v: int)
    requires |xs| > 0 && Below(xs, |key|)
    ensures forall i :: 0 <= i < |xs| ==> v <= key[xs[i]]
    ensures exists i :: 0 <= i < |xs| && key[xs[i]] == v
  {
    if |xs| == 1 then key[xs[0]]
    else
      var m := MinKey(xs[1..], key);
      assert forall i :: 1 <= i < |xs| ==> xs[i] == xs[1..][i - 1];
      if key[xs[0]] <= m then key[xs[0]] else m
  }

  /** Filtering keeps every occurrence of the elements it keeps and none of the others. */
  lemma {:induction false} FilterCount<T>(xs: seq<T>, p: T -> bool, x: T)
    ensures multiset(Filter(xs, p))[x] == if p(x) then multiset(xs)[x] else 0
  {
    if |xs| > 0 {
      FilterCount(xs[1..], p, x);
      assert xs == [xs[0]] + xs[1..];
    }
  }

  /** Filtering out an element that is present shortens the sequence. */
  lemma {:induction false} FilterDrops<T>(xs: seq<T>, p: T -> bool, x: T)
    requires x in xs && !p(x)
    ensures |Filter(xs, p)| < |xs|
  {
    if xs[0] != x {
      FilterDrops(xs[1..], p, x);
    }
  }

  /** Holds of the values that do not occur in cs. */
  function NotIn<T(==)>(cs: seq<T>): T -> bool
  {
    (c: T) => c !in cs
  }

  /** The elements that are not in cs, taken from a distinct xs that holds all of cs. */
  lemma MultisetExt<T>(a: multiset<T>, b: multiset<T>)
    requires forall x :: a[x] == b[x]
    ensures a == b
  {
  }

  lemma FilterNotIn<T>(xs: seq<T>, cs: seq<T>)
    requires Distinct(xs) && multiset(cs) <= multiset(xs)
    ensures multiset(Filter(xs, NotIn(cs))) + multiset(cs) == multiset(xs)
  {
    DistinctMultiset(xs);
    var kept := multiset(Filter(xs, NotIn(cs)));
    var both := kept + multiset(cs);
    forall x ensures both[x] == multiset(xs)[x] {
      FilterCount(xs, NotIn(cs), x);
      assert both[x] == kept[x] + multiset(cs)[x];
      if x in cs {
        assert multiset(cs)[x] >= 1;
      }
    }
    MultisetExt(both, multiset(xs));
  }

  lemma FilterBelow(xs: seq<nat>, p: nat -> bool, bound: nat)
    requires Below(xs, bound)
    ensures Below(Filter(xs, p), bound)
  {
    FilterFacts(xs, p);
    forall i | 0 <= i < |Filter<nat>(xs, p)| ensures Filter<nat>(xs, p)[i] < bound {
      assert Filter(xs, p)[i] in xs;
    }
  }

  /** Exactly one index below n is x. */
  lemma {:induction false} CountOne(n: nat, x: nat)
    requires x < n
    ensures Count(n, (d: nat) => d == x) == 1
  {
    if n - 1 == x {
      CountNoneOf(n - 1, (d: nat) => d == x);
    } else {
      CountOne(n - 1, x);
    }
  }

  /** The indices below n that occur in a list of distinct indices below n number its length. */
  lemma {:induction false} CountMembers(n: nat, xs: seq<nat>)
    requires Distinct(xs) && Below(xs, n)
    ensures Count(n, (d: nat) => d in xs) == |xs|
  {
    if |xs| == 0 {
      CountNoneOf(n, (d: nat) => d in xs);
    } else {
      var rest := xs[1..];
      assert Distinct(rest) && Below(rest, n);
      CountMembers(n, rest);
      CountOne(n, xs[0]);
      assert xs[0] !in rest by {
        forall i | 0 <= i < |rest| ensures rest[i] != xs[0] {
          assert rest[i] == xs[i + 1];
        }
      }
      assert forall d :: d in xs <==> d == xs[0] || d in rest by {
        assert xs == [xs[0]] + rest;
      }
      CountDisjointUnion(n, (d: nat) => d == xs[0], (d: nat) => d in rest, (d: nat) => d in xs);
    }
  }

  lemma CountAll(n: nat, p: nat -> bool)
    requires forall i :: 0 <= i < n ==> p(i)
    ensures Count(n, p) == n
  {
    CountComplement(n, p, (i: nat) => !p(i));
    CountNoneOf(n, (i: nat) => !p(i));
  }

  lemma {:induction false} CountNoneOf(n: nat, p: nat -> bool)
    requires forall i :: 0 <= i < n ==> !p(i)
    ensures Count(n, p) == 0
  {
    if n > 0 {
      CountNoneOf(n - 1, p);
    }
  }

  /** Keys never decrease along xs. */
  predicate NonDecreasing(xs: seq<nat>, key: seq<int>)
    requires Below(xs, |key|)
  {
    forall i, k :: 0 <= i < k < |xs| ==> key[xs[i]] <= key[xs[k]]
  }

  lemma NonDecreasingAppend(a: seq<nat>, b: seq<nat>, key: seq<int>)
    requires Below(a, |key|) && Below(b, |key|) && NonDecreasing(a, key) && NonDecreasing(b, key)
    requires forall i, k :: 0 <= i < |a| && 0 <= k < |b| ==> key[a[i]] <= key[b[k]]
    ensures Below(a + b, |key|) && NonDecreasing(a + b, key)
  {
    var ab := a + b;
    assert forall i :: 0 <= i < |a| ==> ab[i] == a[i];
    assert forall k :: |a| <= k < |ab| ==> ab[k] == b[k - |a|];
  }

  lemma BottomNonEmpty(xs: seq<nat>, key: seq<int>)
    requires |xs| > 0 && Below(xs, |key|)
    ensures |Filter(xs, HasKey(key, MinKey(xs, key)))| > 0
  {
    var v := MinKey(xs, key);
    var i :| 0 <= i < |xs| && key[xs[i]] == v;
    assert HasKey(key, v)(xs[i]);
    FilterFacts(xs, HasKey(key, v));
    assert xs[i] in Filter(xs, HasKey(key, v));
  }

  lemma DistinctAppend<T>(a: seq<T>, b: seq<T>)
    requires Distinct(a) && Distinct(b) && forall x :: x in a ==> x !in b
    ensures Distinct(a + b)
  {
    var ab := a + b;
    forall i, k | 0 <= i < k < |ab| ensures ab[i] != ab[k] {
      if k >= |a| && i < |a| {
        assert ab[i] in a && ab[k] == b[k - |a|];
      } else if i >= |a| {
        assert ab[i] == b[i - |a|] && ab[k] == b[k - |a|];
      }
    }
  }

  /** A filter that only one element of a distinct sequence passes leaves just that element. */
  lemma {:induction false} FilterOnly<T>(xs: seq<T>, p: T -> bool, w: T)
    requires Distinct(xs) && w in xs && p(w)
    requires forall x <- xs :: x != w ==> !p(x)
    ensures Filter(xs, p) == [w]
  {
    if xs[0] == w {
      assert w !in xs[1..];
      FilterNone(xs[1..], p);
    } else {
      FilterOnly(xs[1..], p, w);
    }
  }

  /** Two different members make a sequence of at least two. */
  lemma TwoMembers<T>(xs: seq<T>, a: T, b: T)
    requires a in xs && b in xs && a != b
    ensures |xs| >= 2
  {
    var i :| 0 <= i < |xs| && xs[i] == a;
    var k :| 0 <= k < |xs| && xs[k] == b;
    assert i != k;
  }

  /** The greatest key is the key of any member that no other member exceeds. */
  lemma MaxKeyOf(xs: seq<nat>, key: seq<int>, w: nat)
    requires Below(xs, |key|) && w in xs
    requires forall x <- xs :: key[x] <= key[w]
    ensures MaxKey(xs, key) == key[w]
  {
    var i :| 0 <= i < |xs| && xs[i] == w;
    var k :| 0 <= k < |xs| && key[xs[k]] == MaxKey(xs, key);
    assert xs[k] in xs;
  }

  /** The least key is the key of any member that no other member undercuts. */
  lemma MinKeyOf(xs: seq<nat>, key: seq<int>, w: nat)
    requires Below(xs, |key|) && w in xs
    requires forall x <- xs :: key[w] <= key[x]
    ensures MinKey(xs, key) == key[w]
  {
    var i :| 0 <= i < |xs| && xs[i] == w;
    var k :| 0 <= k < |xs| && key[xs[k]] == MinKey(xs, key);
    assert xs[k] in xs;
  }

  /**
   r lists, each once and in order of key, exactly the numbers below n
   whose key is from `cutoff` to n.
   */
  ghost predicate PlacedFrom(r: seq<nat>, key: seq<int>, n: nat, cutoff: nat)
    requires |key| == n
  {
    && Distinct(r) && Below(r, n)
    && (forall c: nat :: c in r <==> c < n && cutoff <= key[c] <= n)
    && NonDecreasing(r, key)
  }

  /** A sequence that is v everywhere but one zero position sums to (|xs| - 1) * v. */
  lemma {:induction false} SumAllBut(xs: seq<int>, z: nat, v: int)
    requires z < |xs| && xs[z] == 0
    requires forall i :: 0 <= i < |xs| && i != z ==> xs[i] == v
    ensures Sum(xs) == (|xs| - 1) * v
  {
    if z == 0 {
      SumConstant(xs[1..], v);
    } else {
      SumAllBut(xs[1..], z - 1, v);
    }
  }

  /** Pointwise at most means a sum at most. */
  lemma {:induction false} SumLe(xs: seq<int>, ys: seq<int>)
    requires |xs| == |ys|
    requires forall i :: 0 <= i < |xs| ==> xs[i] <= ys[i]
    ensures Sum(xs) <= Sum(ys)
  {
    if |xs| > 0 {
      SumLe(xs[1..], ys[1..]);
    }
  }

  /** Pointwise at most, and at least g short at one position, means a sum at least g short. */
  lemma {:induction false} SumGap(xs: seq<int>, ys: seq<int>, a: nat, g: int)
    requires |xs| == |ys| && a < |xs|
    requires forall i :: 0 <= i < |xs| ==> xs[i] <= ys[i]
    requires xs[a] + g <= ys[a]
    ensures Sum(xs) + g <= Sum(ys)
  {
    if a == 0 {
      SumLe(xs[1..], ys[1..]);
    } else {
      SumGap(xs[1..], ys[1..], a - 1, g);
    }
  }
}
