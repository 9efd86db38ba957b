/**
 The Schulze method (core/voting/schulze.py).

 Judges' rankings give a pairwise preference matrix d; the strongest
 beatpath strengths p are found by a Floyd-Warshall style relaxation from
 the direct defeats; a competitor beats another when its path is stronger,
 and an equal pair of paths is half a win each. Competitors are ranked by
 wins, then by the sum of their winning path strengths, and competitors
 equal on both are tied.

 Half wins are kept exact by counting every win twice: `wins2` is twice the
 source's `wins`.
 */
module Schulze {
  import opened Seqs
  import opened Sorting
  import opened Models

  /** An n-by-n matrix indexed by competitor numbers. */
  predicate Square(p: seq<seq<int>>, n: nat)
  {
    |p| == n && forall i :: 0 <= i < n ==> |p[i]| == n
  }

  // ---------------------------------------------------------------------------
  // Pairwise preferences

  /** Judge j's ranking lists a somewhere before b. */
  predicate ListsBefore(t: Table, j: nat, a: nat, b: nat)
    requires ValidTable(t)
  {
    j < M(t) && PositionIn(t, j, a) < PositionIn(t, j, b)
  }

  /** How many judges' rankings list a before b. */
  function ListedBefore(t: Table, a: nat, b: nat): nat
    requires ValidTable(t)
  {
    Count(M(t), (j: nat) => ListsBefore(t, j, a, b))
  }

  /**
   d[a][b]: the judges whose ranking lists a before b. Each judge adds one
   for every pair of positions in their ranking, the earlier competitor first.
   */
  function Pairwise(t: Table): (d: seq<seq<int>>)
    requires ValidTable(t)
    ensures Square(d, t.n)
    ensures forall a, b :: 0 <= a < t.n && 0 <= b < t.n ==> d[a][b] == ListedBefore(t, a, b)
  {
    seq(t.n, a requires 0 <= a < t.n =>
      seq(t.n, b requires 0 <= b < t.n => ListedBefore(t, a, b)))
  }

  /** Judge j prefers a to b: the source's ranking puts ties in entry order. */
  predicate JudgePrefers(t: Table, j: nat, a: nat, b: nat)
    requires ValidTable(t) && a < t.n && b < t.n
  {
    j < M(t) && Prefers(t, j, a, b)
  }

  /** How many judges prefer a to b. */
  function Preferring(t: Table, a: nat, b: nat): nat
    requires ValidTable(t) && a < t.n && b < t.n
  {
    Count(M(t), (j: nat) => JudgePrefers(t, j, a, b))
  }

  /**
   Nobody is preferred to themself, and every judge prefers exactly one of
   two different competitors: d[a][b] + d[b][a] = m, with d[a][b] the judges
   placing a better, or equal and earlier in the entry list.
   */
  lemma PairwiseFacts(t: Table, a: nat, b: nat)
    requires ValidTable(t) && a < t.n && b < t.n
    ensures a == b ==> Pairwise(t)[a][b] == 0
    ensures a != b ==> Pairwise(t)[a][b] == Preferring(t, a, b)
    ensures a != b ==> Pairwise(t)[a][b] + Pairwise(t)[b][a] == M(t)
  {
    if a == b {
      CountNoneOf(M(t), (j: nat) => ListsBefore(t, j, a, b));
    } else {
      forall j: nat | j < M(t) ensures ListsBefore(t, j, a, b) == JudgePrefers(t, j, a, b)
                                   && ListsBefore(t, j, b, a) == !JudgePrefers(t, j, a, b) {
        RankingOrder(t, j, a, b);
        RankingOrder(t, j, b, a);
      }
      CountExt(M(t), (j: nat) => ListsBefore(t, j, a, b), (j: nat) => JudgePrefers(t, j, a, b));
      CountComplement(M(t), (j: nat) => ListsBefore(t, j, a, b), (j: nat) => ListsBefore(t, j, b, a));
    }
  }

  // ---------------------------------------------------------------------------
  // Beatpath strengths

  /** Direct defeats: p[i][j] is d[i][j] when i beats j head-on, and 0 otherwise. */
  function InitialStrengths(d: seq<seq<int>>, n: nat): (p: seq<seq<int>>)
    requires Square(d, n)
    ensures Square(p, n)
  {
    seq(n, i requires 0 <= i < n =>
      seq(n, j requires 0 <= j < n => if i != j && d[i][j] > d[j][i] then d[i][j] else 0))
  }

  /** The strength through k: the weaker of the two links i to k and k to j. */
  function Via(p: seq<seq<int>>, n: nat, k: nat, i: nat, j: nat): int
    requires Square(p, n) && i < n && j < n && k < n
  {
    if p[i][k] <= p[k][j] then p[i][k] else p[k][j]
  }

  /** Row i after the pass through k: each entry raised to the strength through k, except on the diagonal and in column k. */
  function PassRow(p: seq<seq<int>>, n: nat, k: nat, i: nat): (row: seq<int>)
    requires Square(p, n) && k < n && i < n
    ensures |row| == n
  {
    seq(n, j requires 0 <= j < n =>
      if i == k || j == i || j == k || p[i][j] >= Via(p, n, k, i, j) then p[i][j] else Via(p, n, k, i, j))
  }

  /** One pass of the relaxation through k; row k, column k and the diagonal are left alone. */
  function Pass(p: seq<seq<int>>, n: nat, k: nat): (q: seq<seq<int>>)
    requires Square(p, n) && k < n
    ensures Square(q, n)
  {
    seq(n, i requires 0 <= i < n => PassRow(p, n, k, i))
  }

  /** The strengths after the passes through 0 .. k-1. */
  function Relaxed(p0: seq<seq<int>>, n: nat, k: nat): (p: seq<seq<int>>)
    requires Square(p0, n) && k <= n
    ensures Square(p, n)
  {
    if k == 0 then p0 else Pass(Relaxed(p0, n, k - 1), n, k - 1)
  }

  /** The source's loops over i and j for one k, updating p in place. */
  method Relax(p0: seq<seq<int>>, n: nat) returns (p: seq<seq<int>>)
    requires Square(p0, n)
    ensures p == Relaxed(p0, n, n)
  {
    p := p0;
    for k := 0 to n
      invariant p == Relaxed(p0, n, k)
    {
      p := RelaxThrough(p, n, k);
    }
  }

  /**
   The pass through k in place. Row k is never written, and no row's entry
   in column k is, so every row sees the links through k as they stood
   before the pass.
   */
  method RelaxThrough(p0: seq<seq<int>>, n: nat, k: nat) returns (p: seq<seq<int>>)
    requires Square(p0, n) && k < n
    ensures p == Pass(p0, n, k)
  {
    p := p0;
    for i := 0 to n
      invariant Square(p, n) && p[k] == p0[k]
      invariant forall r :: 0 <= r < i ==> p[r] == PassRow(p0, n, k, r)
      invariant forall r :: i <= r < n ==> p[r] == p0[r]
    {
      if i != k {
        var row := RelaxRow(p, n, k, i);
        assert row == PassRow(p0, n, k, i);
        p := p[i := row];
      } else {
        assert p[i] == PassRow(p0, n, k, i);
      }
    }
  }

  /** The inner loop over j for one row i, raising its entries in place. */
  method RelaxRow(p: seq<seq<int>>, n: nat, k: nat, i: nat) returns (row: seq<int>)
    requires Square(p, n) && k < n && i < n && i != k
    ensures row == PassRow(p, n, k, i)
  {
    row := p[i];
    for j := 0 to n
      invariant |row| == n && row[k] == p[i][k]
      invariant forall c :: 0 <= c < j ==> row[c] == PassRow(p, n, k, i)[c]
      invariant forall c :: j <= c < n ==> row[c] == p[i][c]
    {
      if j != i && j != k {
        var via := if row[k] <= p[k][j] then row[k] else p[k][j];
        if via > row[j] {
          row := row[j := via];
        }
      }
    }
  }

  /** Every entry lies within [lo, hi]. */
  predicate Within(p: seq<seq<int>>, n: nat, lo: int, hi: int)
    requires Square(p, n)
  {
    forall i, j :: 0 <= i < n && 0 <= j < n ==> lo <= p[i][j] <= hi
  }

  /** Relaxation only raises strengths and leaves the diagonal alone. */
  lemma {:induction false} RelaxedGrows(p0: seq<seq<int>>, n: nat, k: nat)
    requires Square(p0, n) && k <= n
    ensures forall i, j :: 0 <= i < n && 0 <= j < n ==> Relaxed(p0, n, k)[i][j] >= p0[i][j]
    ensures forall i :: 0 <= i < n ==> Relaxed(p0, n, k)[i][i] == p0[i][i]
  {
    if k > 0 {
      RelaxedGrows(p0, n, k - 1);
    }
  }

  /** A strength through k is one of the existing strengths, so no pass leaves the range they span. */
  lemma {:induction false} RelaxedWithin(p0: seq<seq<int>>, n: nat, k: nat, lo: int, hi: int)
    requires Square(p0, n) && k <= n && Within(p0, n, lo, hi)
    ensures Within(Relaxed(p0, n, k), n, lo, hi)
  {
    if k > 0 {
      RelaxedWithin(p0, n, k - 1, lo, hi);
    }
  }

  /** A column of zeros off the diagonal stays zero: no path reaches that competitor. */
  lemma {:induction false} RelaxedColumnZero(p0: seq<seq<int>>, n: nat, k: nat, a: nat)
    requires Square(p0, n) && k <= n && a < n
    requires forall i :: 0 <= i < n && i != a ==> p0[i][a] == 0
    requires forall i, j :: 0 <= i < n && 0 <= j < n ==> p0[i][j] >= 0
    ensures forall i :: 0 <= i < n && i != a ==> Relaxed(p0, n, k)[i][a] == 0
  {
    if k > 0 {
      RelaxedColumnZero(p0, n, k - 1, a);
      RelaxedGrows(p0, n, k - 1);
    }
  }

  // ---------------------------------------------------------------------------
  // Wins and winning strength

  /** Twice what i earns against j: 2 for a stronger path, 1 for an equal one, 0 otherwise. */
  function WinPoints(p: seq<seq<int>>, n: nat, i: nat, j: nat): int
    requires Square(p, n) && i < n && j < n
  {
    if i == j then 0
    else if p[i][j] > p[j][i] then 2
    else if p[i][j] == p[j][i] then 1
    else 0
  }

  /** Twice what i earns against each competitor. */
  function WinRow(p: seq<seq<int>>, n: nat, i: nat): (row: seq<int>)
    requires Square(p, n) && i < n
    ensures |row| == n && forall j :: 0 <= j < n ==> row[j] == WinPoints(p, n, i, j)
  {
    seq(n, j requires 0 <= j < n => WinPoints(p, n, i, j))
  }

  /** Twice each competitor's Schulze wins, half wins included. */
  function Wins2(p: seq<seq<int>>, n: nat): (w: seq<int>)
    requires Square(p, n)
    ensures |w| == n && forall i :: 0 <= i < n ==> w[i] == Sum(WinRow(p, n, i))
  {
    seq(n, i requires 0 <= i < n => Sum(WinRow(p, n, i)))
  }

  /** The strength of i's path to each competitor it beats, 0 for the others. */
  function StrengthRow(p: seq<seq<int>>, n: nat, i: nat): (row: seq<int>)
    requires Square(p, n) && i < n
    ensures |row| == n && forall j :: 0 <= j < n ==> row[j] == if i != j && p[i][j] > p[j][i] then p[i][j] else 0
  {
    seq(n, j requires 0 <= j < n => if i != j && p[i][j] > p[j][i] then p[i][j] else 0)
  }

  /** The sum of the strengths of the paths by which i beats someone. */
  function WinningStrength(p: seq<seq<int>>, n: nat): (ws: seq<int>)
    requires Square(p, n)
    ensures |ws| == n && forall i :: 0 <= i < n ==> ws[i] == Sum(StrengthRow(p, n, i))
  {
    seq(n, i requires 0 <= i < n => Sum(StrengthRow(p, n, i)))
  }

  /** The matrix of doubled win points, row i being what i earns. */
  function WinMatrix(p: seq<seq<int>>, n: nat): (mat: seq<seq<int>>)
    requires Square(p, n)
    ensures Rectangular(mat, n) && |mat| == n
    ensures forall i :: 0 <= i < n ==> mat[i] == WinRow(p, n, i)
  {
    seq(n, i requires 0 <= i < n => WinRow(p, n, i))
  }

  /** Every pair of competitors shares out exactly one win, so the doubled wins add up to n(n-1). */
  lemma WinsTotal(p: seq<seq<int>>, n: nat)
    requires Square(p, n)
    ensures Sum(Wins2(p, n)) == n * (n - 1)
  {
    var mat := WinMatrix(p, n);
    var rows := RowSums(mat);
    var cols := ColumnSums(mat, n);
    assert rows == Wins2(p, n);
    forall i | 0 <= i < n ensures AddSeqs(cols, rows)[i] == 2 * (n - 1) {
      PairsShared(p, n, i);
    }
    SumConstant(AddSeqs(cols, rows), 2 * (n - 1));
    SumAddSeqs(cols, rows);
    SumRowsColumns(mat, n);
  }

  /** What i earns plus what everyone earns against i: two points per opponent. */
  lemma PairsShared(p: seq<seq<int>>, n: nat, i: nat)
    requires Square(p, n) && i < n
    ensures Sum(Column(WinMatrix(p, n), n, i)) + Sum(WinRow(p, n, i)) == 2 * (n - 1)
  {
    var mat := WinMatrix(p, n);
    var col, row := Column(mat, n, i), WinRow(p, n, i);
    var both := AddSeqs(col, row);
    forall j | 0 <= j < n ensures both[j] == if j == i then 0 else 2 {
      assert col[j] == WinPoints(p, n, j, i);
    }
    SumAllBut(both, i, 2);
    SumAddSeqs(col, row);
  }

  // ---------------------------------------------------------------------------
  // Ordering and tie groups

  /** A competitor's standing: doubled wins, then winning strength. */
  type Standing = (int, int)

  /** a may be listed before b: more wins, or as many wins and at least the strength. */
  predicate AtLeast(a: Standing, b: Standing)
  {
    a.0 > b.0 || (a.0 == b.0 && a.1 >= b.1)
  }

  lemma AtLeastTotalPreorder()
    ensures TotalPreorder(AtLeast)
  {
  }

  /** Two standings are equivalent under AtLeast exactly when they are equal. */
  lemma AtLeastEquiv(a: Standing, b: Standing)
    ensures Equiv(AtLeast, a, b) <==> a == b
  {
  }

  function Standings(w: seq<int>, ws: seq<int>): (key: seq<Standing>)
    requires |w| == |ws|
    ensures |key| == |w| && forall i :: 0 <= i < |w| ==> key[i] == (w[i], ws[i])
  {
    seq(|w|, i requires 0 <= i < |w| => (w[i], ws[i]))
  }

  /** The end of the run that starts at i, scanning on from j while standings repeat. */
  function RunEnd(xs: seq<nat>, key: seq<Standing>, i: nat, j: nat): (e: nat)
    requires Below(xs, |key|) && i < j <= |xs|
    ensures j <= e <= |xs|
    ensures forall c :: j <= c < e ==> key[xs[c]] == key[xs[i]]
    ensures e < |xs| ==> key[xs[e]] != key[xs[i]]
    decreases |xs| - j
  {
    if j < |xs| && key[xs[j]] == key[xs[i]] then RunEnd(xs, key, i, j + 1) else j
  }

  /** The entry for the run starting at i: a lone competitor, or a tie group. */
  function RunEntry(xs: seq<nat>, key: seq<Standing>, i: nat): (r: Entry<nat>)
    requires Below(xs, |key|) && i < |xs|
    ensures Members(r) == xs[i..RunEnd(xs, key, i, i + 1)]
    ensures r.Group? ==> |r.names| >= 2
  {
    var e := RunEnd(xs, key, i, i + 1);
    if e - i == 1 then Single(xs[i]) else Group(xs[i..e])
  }

  /** The scan of the sorted list from position i: each run of equal standings is one entry. */
  function Runs(xs: seq<nat>, key: seq<Standing>, i: nat): (es: seq<Entry<nat>>)
    requires Below(xs, |key|) && i <= |xs|
    decreases |xs| - i
  {
    if i == |xs| then []
    else [RunEntry(xs, key, i)] + Runs(xs, key, RunEnd(xs, key, i, i + 1))
  }

  /** The runs list every competitor of the sorted list once, in sorted order. */
  lemma {:induction false} RunsFlatten(xs: seq<nat>, key: seq<Standing>, i: nat)
    requires Below(xs, |key|) && i <= |xs|
    ensures Flatten(Runs(xs, key, i)) == xs[i..]
    decreases |xs| - i
  {
    if i < |xs| {
      var e := RunEnd(xs, key, i, i + 1);
      RunsFlatten(xs, key, e);
      RunsFlattenStep(xs, key, i);
    }
  }

  lemma RunsFlattenStep(xs: seq<nat>, key: seq<Standing>, i: nat)
    requires Below(xs, |key|) && i < |xs|
    requires Flatten(Runs(xs, key, RunEnd(xs, key, i, i + 1))) == xs[RunEnd(xs, key, i, i + 1)..]
    ensures Flatten(Runs(xs, key, i)) == xs[i..]
  {
    var e := RunEnd(xs, key, i, i + 1);
    var head, rest := RunEntry(xs, key, i), Runs(xs, key, e);
    assert Runs(xs, key, i) == [head] + rest;
    FlattenAppend([head], rest);
    FlattenOne(head);
    SliceSplit(xs, i, e);
  }

  /** The standing shared by the members of a run entry. */
  predicate SharedStanding(e: Entry<nat>, key: seq<Standing>, v: Standing)
  {
    forall c <- Members(e) :: c < |key| && key[c] == v
  }

  /**
   Every entry is a run of one standing, a tie has two or more members, and
   neighbouring entries have different standings, so each entry is a whole
   run.
   */
  ghost predicate RunShape(es: seq<Entry<nat>>, key: seq<Standing>)
  {
    && (forall e :: 0 <= e < |es| ==> |Members(es[e])| > 0 && Members(es[e])[0] < |key|
                                       && SharedStanding(es[e], key, key[Members(es[e])[0]]))
    && (forall e :: 0 <= e < |es| ==> es[e].Single? || |es[e].names| >= 2)
    && (forall e :: 0 < e < |es| ==> key[Members(es[e - 1])[0]] != key[Members(es[e])[0]])
  }

  lemma {:induction false} RunsShape(xs: seq<nat>, key: seq<Standing>, i: nat)
    requires Below(xs, |key|) && i <= |xs|
    ensures RunShape(Runs(xs, key, i), key)
    ensures i < |xs| ==> |Runs(xs, key, i)| > 0 && Members(Runs(xs, key, i)[0])[0] == xs[i]
    decreases |xs| - i
  {
    if i < |xs| {
      RunsShape(xs, key, RunEnd(xs, key, i, i + 1));
      RunsShapeStep(xs, key, i);
    }
  }

  lemma RunsShapeStep(xs: seq<nat>, key: seq<Standing>, i: nat)
    requires Below(xs, |key|) && i < |xs|
    requires var e := RunEnd(xs, key, i, i + 1);
      && RunShape(Runs(xs, key, e), key)
      && (e < |xs| ==> |Runs(xs, key, e)| > 0 && Members(Runs(xs, key, e)[0])[0] == xs[e])
    ensures RunShape(Runs(xs, key, i), key)
    ensures |Runs(xs, key, i)| > 0 && Members(Runs(xs, key, i)[0])[0] == xs[i]
  {
    var e := RunEnd(xs, key, i, i + 1);
    var head := RunEntry(xs, key, i);
    var tail := Runs(xs, key, e);
    assert SharedStanding(head, key, key[xs[i]]) by {
      forall c <- Members(head) ensures c < |key| && key[c] == key[xs[i]] {
        var k :| 0 <= k < |xs[i..e]| && xs[i..e][k] == c;
        assert c == xs[i + k];
      }
    }
    var es: seq<Entry<nat>> := [head] + tail;
    assert Runs(xs, key, i) == es;
    forall k | 0 < k < |es| ensures key[Members(es[k - 1])[0]] != key[Members(es[k])[0]] {
      if k == 1 {
        assert Members(es[1])[0] == xs[e];
      } else {
        assert es[k - 1] == tail[k - 2] && es[k] == tail[k - 1];
      }
    }
  }

  /**
   Standings fall strictly from one run entry to the next: every later entry's
   standing is below every earlier one's.
   */
  ghost predicate Separated(es: seq<Entry<nat>>, key: seq<Standing>)
    requires RunShape(es, key)
  {
    forall e, e' :: 0 <= e < e' < |es| ==>
      AtLeast(key[Members(es[e])[0]], key[Members(es[e'])[0]]) && key[Members(es[e])[0]] != key[Members(es[e'])[0]]
  }

  lemma {:induction false} RunsSeparated(xs: seq<nat>, key: seq<Standing>, i: nat)
    requires Below(xs, |key|) && i <= |xs| && Ordered(xs, key, AtLeast)
    ensures RunShape(Runs(xs, key, i), key) && Separated(Runs(xs, key, i), key)
    ensures i < |xs| ==> forall e :: 0 <= e < |Runs(xs, key, i)| ==> AtLeast(key[xs[i]], key[Members(Runs(xs, key, i)[e])[0]])
    decreases |xs| - i
  {
    RunsShape(xs, key, i);
    if i < |xs| {
      RunsSeparated(xs, key, RunEnd(xs, key, i, i + 1));
      RunsSeparatedStep(xs, key, i);
    }
  }

  lemma RunsSeparatedStep(xs: seq<nat>, key: seq<Standing>, i: nat)
    requires Below(xs, |key|) && i < |xs| && Ordered(xs, key, AtLeast)
    requires RunShape(Runs(xs, key, i), key)
    requires var e := RunEnd(xs, key, i, i + 1);
      && RunShape(Runs(xs, key, e), key) && Separated(Runs(xs, key, e), key)
      && (e < |xs| ==> forall k :: 0 <= k < |Runs(xs, key, e)| ==> AtLeast(key[xs[e]], key[Members(Runs(xs, key, e)[k])[0]]))
    ensures Separated(Runs(xs, key, i), key)
    ensures forall k :: 0 <= k < |Runs(xs, key, i)| ==> AtLeast(key[xs[i]], key[Members(Runs(xs, key, i)[k])[0]])
  {
    var e := RunEnd(xs, key, i, i + 1);
    var head := RunEntry(xs, key, i);
    var tail := Runs(xs, key, e);
    var es: seq<Entry<nat>> := [head] + tail;
    assert Runs(xs, key, i) == es;
    assert Members(head)[0] == xs[i];
    if e < |xs| {
      assert AtLeast(key[xs[i]], key[xs[e]]);
      assert key[xs[e]] != key[xs[i]];
    } else {
      assert tail == [];
    }
    forall k | 0 < k < |es| ensures AtLeast(key[xs[i]], key[Members(es[k])[0]]) && key[xs[i]] != key[Members(es[k])[0]] {
      assert es[k] == tail[k - 1];
    }
    forall a, b | 0 <= a < b < |es|
      ensures AtLeast(key[Members(es[a])[0]], key[Members(es[b])[0]]) && key[Members(es[a])[0]] != key[Members(es[b])[0]]
    {
      if a > 0 {
        assert es[a] == tail[a - 1] && es[b] == tail[b - 1];
      }
    }
  }

  // ---------------------------------------------------------------------------
  // Tiebreak detection

  /** Two standings with the same doubled wins but different winning strengths. */
  predicate SplitTie(x: Standing, y: Standing)
  {
    x.0 == y.0 && x.1 != y.1
  }

  /** Some two competitors of the sorted list share their wins but not their winning strength. */
  predicate UsedWinning(sorted: seq<nat>, key: seq<Standing>)
    requires Below(sorted, |key|)
  {
    exists a, b :: 0 <= a < b < |sorted| && SplitTie(key[sorted[a]], key[sorted[b]])
  }

  /** The source's double loop over pairs a < b of the sorted list. */
  method DetectTiebreak(sorted: seq<nat>, key: seq<Standing>) returns (used: bool)
    requires Below(sorted, |key|)
    ensures used <==> UsedWinning(sorted, key)
  {
    used := false;
    for a := 0 to |sorted|
      invariant used <==> exists x, y :: 0 <= x < a && x < y < |sorted| && SplitTie(key[sorted[x]], key[sorted[y]])
    {
      for b := a + 1 to |sorted|
        invariant used <==>
          (exists x, y :: 0 <= x < a && x < y < |sorted| && SplitTie(key[sorted[x]], key[sorted[y]]))
          || (exists y :: a < y < b && SplitTie(key[sorted[a]], key[sorted[y]]))
      {
        if key[sorted[a]].0 != key[sorted[b]].0 {
          continue;
        }
        if key[sorted[a]].1 != key[sorted[b]].1 {
          used := true;
        }
      }
    }
  }

  /** Whether the tiebreak was used does not depend on the order: it asks about pairs of competitors. */
  lemma UsedWinningAnyPair(sorted: seq<nat>, key: seq<Standing>)
    requires multiset(sorted) == multiset(Iota(|key|))
    ensures Below(sorted, |key|)
    ensures UsedWinning(sorted, key) <==> exists c, d :: 0 <= c < |key| && 0 <= d < |key| && SplitTie(key[c], key[d])
  {
    PermutationOfIota(sorted, |key|);
    if c, d :| 0 <= c < |key| && 0 <= d < |key| && SplitTie(key[c], key[d]) {
      assert c in sorted && d in sorted;
      var ic := IndexOf(sorted, c);
      var id := IndexOf(sorted, d);
      if ic < id {
        assert SplitTie(key[sorted[ic]], key[sorted[id]]);
      } else {
        assert SplitTie(key[sorted[id]], key[sorted[ic]]);
      }
    }
  }

  // ---------------------------------------------------------------------------
  // The whole calculation

  /** The members of every tie group, best first: the source's `ties`. */
  function TieGroups(es: seq<Entry<nat>>): (gs: seq<seq<nat>>)
    ensures forall g :: g in gs <==> Group(g) in es
  {
    if |es| == 0 then []
    else
      var rest := TieGroups(es[1..]);
      assert forall g :: Group(g) in es <==> es[0] == Group(g) || Group(g) in es[1..];
      (if es[0].Group? then [es[0].names] else []) + rest
  }

  /**
   What `calculate` reports: the ordered entries; the pairwise matrix d and
   the path strengths p, indexed by competitor number; doubled wins and
   winning strengths; the tie groups; and whether winning strength was needed
   to separate equal wins.
   */
  datatype Outcome = Outcome(
    entries: seq<Entry<nat>>,
    pairwise: seq<seq<int>>,
    strengths: seq<seq<int>>,
    wins2: seq<int>,
    winningStrength: seq<int>,
    ties: seq<seq<nat>>,
    tiebreakUsed: bool)

  /** The strongest path strengths: direct defeats relaxed through every competitor. */
  function Strengths(t: Table): (p: seq<seq<int>>)
    requires ValidTable(t)
    ensures Square(p, t.n)
  {
    Relaxed(InitialStrengths(Pairwise(t), t.n), t.n, t.n)
  }

  /** Every competitor's standing: (doubled wins, winning strength). */
  function Key(t: Table): (key: seq<Standing>)
    requires ValidTable(t)
    ensures |key| == t.n
  {
    Standings(Wins2(Strengths(t), t.n), WinningStrength(Strengths(t), t.n))
  }

  /** Competitor numbers sorted by standing, best first; equal standings keep entry order. */
  function Order(t: Table): (r: seq<nat>)
    requires ValidTable(t)
    ensures Below(r, t.n) && multiset(r) == multiset(Iota(t.n))
  {
    IotaFacts(t.n);
    SortBy(Iota(t.n), Key(t), AtLeast)
  }

  function Calculate(t: Table): (r: Outcome)
    requires ValidTable(t)
    ensures Square(r.pairwise, t.n) && Square(r.strengths, t.n)
    ensures |r.wins2| == t.n && |r.winningStrength| == t.n
  {
    var p := Strengths(t);
    var es := Runs(Order(t), Key(t), 0);
    Outcome(es, Pairwise(t), p, Wins2(p, t.n), WinningStrength(p, t.n), TieGroups(es), UsedWinning(Order(t), Key(t)))
  }

  // ---------------------------------------------------------------------------
  // Properties of the calculation

  /** Every competitor is placed exactly once, in the sorted order. */
  lemma CalculatePermutation(t: Table)
    requires ValidTable(t)
    ensures Flatten(Calculate(t).entries) == Order(t)
    ensures multiset(Flatten(Calculate(t).entries)) == multiset(Iota(t.n))
    ensures |Flatten(Calculate(t).entries)| == t.n
    ensures Distinct(Flatten(Calculate(t).entries)) && Below(Flatten(Calculate(t).entries), t.n)
    ensures forall c :: c in Flatten(Calculate(t).entries) <==> 0 <= c < t.n
  {
    RunsFlatten(Order(t), Key(t), 0);
    assert Order(t)[0..] == Order(t);
    PermutationOfIota(Order(t), t.n);
  }

  lemma OrderOrdered(t: Table)
    requires ValidTable(t)
    ensures Ordered(Order(t), Key(t), AtLeast)
    ensures TiesAscending(Order(t), Key(t), AtLeast)
  {
    IotaFacts(t.n);
    AtLeastTotalPreorder();
    SortByOrdered(Iota(t.n), Key(t), AtLeast);
    assert Ascending(Iota(t.n));
    SortByTiesAscending(Iota(t.n), Key(t), AtLeast);
  }

  /**
   Earlier competitors have more wins, or as many wins and at least the
   winning strength; competitors equal on both keep their entry order.
   */
  lemma CalculateOrdered(t: Table)
    requires ValidTable(t)
    ensures var r := Calculate(t); var f := Flatten(r.entries);
      && Below(f, t.n)
      && (forall i, k :: 0 <= i < k < |f| ==>
            r.wins2[f[i]] > r.wins2[f[k]]
            || (r.wins2[f[i]] == r.wins2[f[k]] && r.winningStrength[f[i]] >= r.winningStrength[f[k]]))
      && (forall i, k :: 0 <= i < k < |f| && r.wins2[f[i]] == r.wins2[f[k]] && r.winningStrength[f[i]] == r.winningStrength[f[k]]
            ==> f[i] < f[k])
  {
    CalculatePermutation(t);
    OrderOrdered(t);
    var key := Key(t);
    var f := Order(t);
    forall i, k | 0 <= i < k < |f| ensures Equiv(AtLeast, key[f[i]], key[f[k]]) <==> key[f[i]] == key[f[k]] {
      AtLeastEquiv(key[f[i]], key[f[k]]);
    }
  }

  /** Two competitors share an entry exactly when they have the same wins and the same winning strength. */
  lemma CalculateGrouping(t: Table, e: nat, e': nat, x: nat, y: nat)
    requires ValidTable(t)
    requires var es := Calculate(t).entries; e < |es| && e' < |es| && x in Members(es[e]) && y in Members(es[e'])
    ensures var r := Calculate(t);
      x < t.n && y < t.n && (e == e' <==> r.wins2[x] == r.wins2[y] && r.winningStrength[x] == r.winningStrength[y])
  {
    EntriesGrouped(t);
    GroupedAt(Calculate(t).entries, Key(t), e, e', x, y);
    SameStanding(t, x, y);
  }

  /** Same entry exactly when same standing. */
  ghost predicate Grouped(es: seq<Entry<nat>>, key: seq<Standing>)
  {
    forall e, e', i, k :: 0 <= e < |es| && 0 <= e' < |es| && 0 <= i < |Members(es[e])| && 0 <= k < |Members(es[e'])| ==>
      Members(es[e])[i] < |key| && Members(es[e'])[k] < |key|
      && (e == e' <==> key[Members(es[e])[i]] == key[Members(es[e'])[k]])
  }

  lemma GroupedAt(es: seq<Entry<nat>>, key: seq<Standing>, e: nat, e': nat, x: nat, y: nat)
    requires Grouped(es, key) && e < |es| && e' < |es| && x in Members(es[e]) && y in Members(es[e'])
    ensures x < |key| && y < |key| && (e == e' <==> key[x] == key[y])
  {
    var i :| 0 <= i < |Members(es[e])| && Members(es[e])[i] == x;
    var k :| 0 <= k < |Members(es[e'])| && Members(es[e'])[k] == y;
  }

  lemma EntriesGrouped(t: Table)
    requires ValidTable(t)
    ensures Grouped(Calculate(t).entries, Key(t))
  {
    var key := Key(t);
    var es: seq<Entry<nat>> := Calculate(t).entries;
    OrderOrdered(t);
    RunsSeparated(Order(t), key, 0);
    forall e, e', i, k | 0 <= e < |es| && 0 <= e' < |es| && 0 <= i < |Members(es[e])| && 0 <= k < |Members(es[e'])|
      ensures Members(es[e])[i] < |key| && Members(es[e'])[k] < |key|
        && (e == e' <==> key[Members(es[e])[i]] == key[Members(es[e'])[k]])
    {
      var x: nat, y: nat := Members(es[e])[i], Members(es[e'])[k];
      assert x in Members(es[e]) && y in Members(es[e']);
      assert key[x] == key[Members(es[e])[0]];
      assert key[y] == key[Members(es[e'])[0]];
    }
  }

  /** A member of a tie group shares its standing with another member. */
  lemma TiedHasPartner(es: seq<Entry<nat>>, key: seq<Standing>, g: seq<nat>, c: nat) returns (d: nat)
    requires Distinct(Flatten(es)) && RunShape(es, key) && Group(g) in es && c in g
    ensures d in Flatten(es) && d != c && d < |key| && key[d] == key[c]
  {
    var e :| 0 <= e < |es| && es[e] == Group(g);
    assert Members(es[e]) == g;
    var tc :| 0 <= tc < |g| && g[tc] == c;
    var u := if tc == 0 then 1 else 0;
    if u < tc {
      EntryDistinct(es, e, u, tc);
    } else {
      EntryDistinct(es, e, tc, u);
    }
    d := g[u];
    EntryAt(es, e, u);
    assert Flatten(es)[|Flatten(es[..e])| + u] == d;
    assert d in Members(es[e]) && c in Members(es[e]);
    assert key[d] == key[Members(es[e])[0]] == key[c];
  }

  /** Two competitors with one standing share an entry, which is then a tie group. */
  lemma PartnerIsTied(es: seq<Entry<nat>>, key: seq<Standing>, c: nat, d: nat) returns (g: seq<nat>)
    requires Grouped(es, key) && c in Flatten(es) && d in Flatten(es) && c != d
    requires c < |key| && d < |key| && key[c] == key[d]
    ensures g in TieGroups(es) && c in g
  {
    var e1, t1 := InEntry(es, c);
    var e2, t2 := InEntry(es, d);
    GroupedAt(es, key, e1, e2, c, d);
    assert e1 == e2;
    assert t1 != t2;
    g := es[e1].names;
    assert Group(g) in es;
  }

  /** In run-shaped entries every tie group has two or more members, all with one standing. */
  lemma TieGroupsShape(es: seq<Entry<nat>>, key: seq<Standing>)
    requires RunShape(es, key)
    ensures forall g <- TieGroups(es) :: |g| >= 2 && (forall x <- g :: x < |key|) && forall x <- g :: key[x] == key[g[0]]
  {
    forall g <- TieGroups(es)
      ensures |g| >= 2 && (forall x <- g :: x < |key|) && forall x <- g :: key[x] == key[g[0]]
    {
      var e :| 0 <= e < |es| && es[e] == Group(g);
      assert Members(es[e]) == g;
      assert g[0] in Members(es[e]);
    }
  }

  /** c is a member of one of the tie groups. */
  predicate InTie(gs: seq<seq<nat>>, c: nat)
  {
    exists g :: g in gs && c in g
  }

  /** Some other competitor has c's standing. */
  predicate HasTwin(key: seq<Standing>, c: nat)
    requires c < |key|
  {
    exists d: nat :: d < |key| && d != c && key[d] == key[c]
  }

  /** With entries grouped by standing, a competitor is tied exactly when another shares its standing. */
  lemma TiesIff(es: seq<Entry<nat>>, key: seq<Standing>)
    requires Grouped(es, key) && RunShape(es, key) && Distinct(Flatten(es))
    requires forall c :: c in Flatten(es) <==> 0 <= c < |key|
    ensures forall c: nat :: c < |key| ==> (InTie(TieGroups(es), c) <==> HasTwin(key, c))
  {
    forall c: nat | c < |key| ensures InTie(TieGroups(es), c) <==> HasTwin(key, c)
    {
      if g: seq<nat> :| g in TieGroups(es) && c in g {
        var d := TiedHasPartner(es, key, g, c);
        assert 0 <= d < |key| && d != c && key[d] == key[c];
      }
      if d: nat :| d < |key| && d != c && key[d] == key[c] {
        assert c in Flatten(es) && d in Flatten(es);
        var g := PartnerIsTied(es, key, c, d);
        assert g in TieGroups(es) && c in g;
      }
    }
  }

  /** Every tie has two or more members, all with one standing. */
  lemma CalculateTieGroups(t: Table)
    requires ValidTable(t)
    ensures var r := Calculate(t);
      forall g <- r.ties :: |g| >= 2 && (forall x <- g :: x < t.n) && g[0] < t.n
        && forall x <- g :: r.wins2[x] == r.wins2[g[0]] && r.winningStrength[x] == r.winningStrength[g[0]]
  {
    RunsShape(Order(t), Key(t), 0);
    KeyOfOutcome(t);
    TiesShareStanding(Calculate(t).entries, Key(t), Calculate(t).wins2, Calculate(t).winningStrength);
  }

  /** The members of a tie group share both parts of their standing. */
  lemma TiesShareStanding(es: seq<Entry<nat>>, key: seq<Standing>, wins2: seq<int>, ws: seq<int>)
    requires RunShape(es, key) && |wins2| == |key| && |ws| == |key|
    requires forall c: nat :: c < |key| ==> key[c] == (wins2[c], ws[c])
    ensures forall g <- TieGroups(es) ::
      |g| >= 2 && (forall x <- g :: x < |key|) && g[0] < |key| &&
      forall x <- g :: wins2[x] == wins2[g[0]] && ws[x] == ws[g[0]]
  {
    TieGroupsShape(es, key);
    forall g <- TieGroups(es)
      ensures forall x <- g :: wins2[x] == wins2[g[0]] && ws[x] == ws[g[0]]
    {
      forall x <- g ensures wins2[x] == wins2[g[0]] && ws[x] == ws[g[0]] {
        assert key[x] == key[g[0]];
      }
    }
  }

  /** The standing of every competitor is its reported wins and winning strength. */
  lemma SameStanding(t: Table, x: nat, y: nat)
    requires ValidTable(t) && x < t.n && y < t.n
    ensures Key(t)[x] == Key(t)[y] <==>
      Calculate(t).wins2[x] == Calculate(t).wins2[y] && Calculate(t).winningStrength[x] == Calculate(t).winningStrength[y]
  {
  }

  lemma KeyOfOutcome(t: Table)
    requires ValidTable(t)
    ensures forall c: nat :: c < t.n ==> Key(t)[c] == (Calculate(t).wins2[c], Calculate(t).winningStrength[c])
  {
  }

  lemma TiesByStanding(t: Table)
    requires ValidTable(t)
    ensures forall c: nat :: c < t.n ==> (InTie(Calculate(t).ties, c) <==> HasTwin(Key(t), c))
  {
    var es := Calculate(t).entries;
    var key := Key(t);
    EntriesGrouped(t);
    CalculatePermutation(t);
    RunsShape(Order(t), key, 0);
    TiesIff(es, key);
  }

  /** A competitor is in a tie exactly when some other competitor has its wins and winning strength. */
  lemma CalculateTies(t: Table)
    requires ValidTable(t)
    ensures var r := Calculate(t);
      forall c: nat :: c < t.n ==>
        (InTie(r.ties, c) <==>
         exists d: nat :: d < t.n && d != c && r.wins2[d] == r.wins2[c] && r.winningStrength[d] == r.winningStrength[c])
  {
    TiesByStanding(t);
    KeyOfOutcome(t);
  }

  /** The tiebreak is reported as used exactly when two competitors have equal wins but different winning strengths. */
  lemma CalculateTiebreak(t: Table)
    requires ValidTable(t)
    ensures var r := Calculate(t);
      r.tiebreakUsed <==>
        exists c, d :: 0 <= c < t.n && 0 <= d < t.n && r.wins2[c] == r.wins2[d] && r.winningStrength[c] != r.winningStrength[d]
  {
    var r := Calculate(t);
    var key := Key(t);
    assert r.tiebreakUsed == UsedWinning(Order(t), key);
    assert forall c :: 0 <= c < t.n ==> key[c] == (r.wins2[c], r.winningStrength[c]);
    UsedWinningAnyPair(Order(t), key);
  }

  /** d[a][a] = 0; for a != b, d[a][b] is the judges preferring a and d[a][b] + d[b][a] = m. */
  lemma CalculatePairwise(t: Table, a: nat, b: nat)
    requires ValidTable(t) && a < t.n && b < t.n
    ensures a == b ==> Calculate(t).pairwise[a][b] == 0
    ensures a != b ==> Calculate(t).pairwise[a][b] == Preferring(t, a, b)
    ensures a != b ==> Calculate(t).pairwise[a][b] + Calculate(t).pairwise[b][a] == M(t)
  {
    PairwiseFacts(t, a, b);
  }

  /**
   Path strengths lie in [0, m], the diagonal stays zero, and a direct defeat
   is never weakened: the path is at least as strong as the head-on margin.
   */
  lemma CalculateStrengths(t: Table)
    requires ValidTable(t)
    ensures var p := Calculate(t).strengths;
      forall i, j :: 0 <= i < t.n && 0 <= j < t.n ==> 0 <= p[i][j] <= M(t)
    ensures var p := Calculate(t).strengths;
      forall i :: 0 <= i < t.n ==> p[i][i] == 0
    ensures var p := Calculate(t).strengths; var d := Calculate(t).pairwise;
      forall i, j :: 0 <= i < t.n && 0 <= j < t.n && i != j && d[i][j] > d[j][i] ==> p[i][j] >= d[i][j]
  {
    var p0 := InitialStrengths(Pairwise(t), t.n);
    assert Within(p0, t.n, 0, M(t));
    RelaxedWithin(p0, t.n, t.n, 0, M(t));
    RelaxedGrows(p0, t.n, t.n);
  }

  /** The doubled wins total n(n - 1): every pair shares out exactly one win. */
  lemma CalculateWinsTotal(t: Table)
    requires ValidTable(t)
    ensures Sum(Calculate(t).wins2) == t.n * (t.n - 1)
  {
    WinsTotal(Strengths(t), t.n);
  }

  /**
   When no path is stronger than its reverse, as in a perfect cycle, each
   competitor gets half a win against everyone else and no winning strength.
   */
  lemma EvenStrengthsHalfWins(p: seq<seq<int>>, n: nat)
    requires Square(p, n)
    requires forall i, j :: 0 <= i < n && 0 <= j < n ==> p[i][j] == p[j][i]
    ensures forall i :: 0 <= i < n ==> Wins2(p, n)[i] == n - 1 && WinningStrength(p, n)[i] == 0
  {
    forall i | 0 <= i < n ensures Wins2(p, n)[i] == n - 1 && WinningStrength(p, n)[i] == 0 {
      SumAllBut(WinRow(p, n, i), i, 1);
      SumConstant(StrengthRow(p, n, i), 0);
    }
  }

  /** a beats every other competitor head-on. */
  predicate CondorcetWinner(d: seq<seq<int>>, n: nat, a: nat)
    requires Square(d, n) && a < n
  {
    forall b :: 0 <= b < n && b != a ==> d[a][b] > d[b][a]
  }

  /** No path leads back to a Condorcet winner, while its own direct defeats keep it ahead of everyone. */
  lemma CondorcetStrengths(t: Table, a: nat)
    requires ValidTable(t) && a < t.n && CondorcetWinner(Pairwise(t), t.n, a)
    ensures forall b :: 0 <= b < t.n && b != a ==> Strengths(t)[b][a] == 0 && Strengths(t)[a][b] > 0
  {
    var p0 := InitialStrengths(Pairwise(t), t.n);
    RelaxedColumnZero(p0, t.n, t.n, a);
    RelaxedGrows(p0, t.n, t.n);
  }

  /** A competitor whose paths beat everyone's reverse paths, which are all zero, has every win; everyone else lacks one. */
  lemma UnbeatenWins(p: seq<seq<int>>, n: nat, a: nat)
    requires Square(p, n) && a < n
    requires forall b :: 0 <= b < n && b != a ==> p[b][a] == 0 && p[a][b] > 0
    ensures Wins2(p, n)[a] == 2 * (n - 1)
    ensures forall b :: 0 <= b < n && b != a ==> Wins2(p, n)[b] <= 2 * (n - 2)
  {
    SumAllBut(WinRow(p, n, a), a, 2);
    forall b | 0 <= b < n && b != a ensures Wins2(p, n)[b] <= 2 * (n - 2) {
      BeatenWins(p, n, a, b);
    }
  }

  lemma BeatenWins(p: seq<seq<int>>, n: nat, a: nat, b: nat)
    requires Square(p, n) && a < n && b < n && a != b && p[b][a] == 0 && p[a][b] > 0
    ensures Wins2(p, n)[b] <= 2 * (n - 2)
  {
    var row := WinRow(p, n, b);
    var cap := seq(n, j requires 0 <= j < n => if j == b then 0 else 2);
    SumAllBut(cap, b, 2);
    SumGap(row, cap, a, 2);
  }

  /** A Condorcet winner is placed first, alone, with n - 1 wins. */
  lemma CalculateCondorcet(t: Table, a: nat)
    requires ValidTable(t) && a < t.n && CondorcetWinner(Calculate(t).pairwise, t.n, a)
    ensures Calculate(t).wins2[a] == 2 * (t.n - 1)
    ensures forall b :: 0 <= b < t.n && b != a ==> Calculate(t).wins2[b] < Calculate(t).wins2[a]
    ensures |Calculate(t).entries| > 0 && Calculate(t).entries[0] == Single(a)
  {
    CondorcetStrengths(t, a);
    UnbeatenWins(Strengths(t), t.n, a);
    OrderOrdered(t);
    var key := Key(t);
    var order := Order(t);
    PermutationOfIota(order, t.n);
    var k := IndexOf(order, a);
    assert order[k] == a;
    assert k == 0 || AtLeast(key[order[0]], key[order[k]]);
    assert order[0] == a;
    assert 1 < |order| ==> order[1] != a && key[order[1]] != key[a];
    assert RunEnd(order, key, 0, 1) == 1;
    assert RunEntry(order, key, 0) == Single(a);
  }

  /** Every competitor beats, head-on, every competitor entered after it. */
  predicate EntryOrderBeats(d: seq<seq<int>>, n: nat)
    requires Square(d, n)
  {
    forall a, b :: 0 <= a < b < n ==> d[a][b] > d[b][a]
  }

  /** A zero lower triangle over non-negative strengths stays zero: no path leads from a later competitor to an earlier one. */
  lemma {:induction false} RelaxedLowerZero(p0: seq<seq<int>>, n: nat, k: nat)
    requires Square(p0, n) && k <= n
    requires forall i, j :: 0 <= j < i < n ==> p0[i][j] == 0
    requires forall i, j :: 0 <= i < n && 0 <= j < n ==> p0[i][j] >= 0
    ensures forall i, j :: 0 <= j < i < n ==> Relaxed(p0, n, k)[i][j] == 0
  {
    if k > 0 {
      RelaxedLowerZero(p0, n, k - 1);
      RelaxedGrows(p0, n, k - 1);
      var p := Relaxed(p0, n, k - 1);
      var q := Pass(p, n, k - 1);
      forall i, j | 0 <= j < i < n ensures q[i][j] == 0 {
        assert Via(p, n, k - 1, i, j) == 0;
      }
    }
  }

  /** When every competitor beats all later ones head-on, every path runs forward in entry order. */
  lemma EntryOrderStrengths(t: Table)
    requires ValidTable(t) && EntryOrderBeats(Pairwise(t), t.n)
    ensures forall a, b :: 0 <= a < b < t.n ==> Strengths(t)[a][b] > 0 && Strengths(t)[b][a] == 0
  {
    var d := Pairwise(t);
    var p0 := InitialStrengths(d, t.n);
    forall i, j | 0 <= i < t.n && 0 <= j < t.n ensures p0[i][j] >= 0 && (i < j ==> p0[i][j] > 0) && (j < i ==> p0[i][j] == 0) {
      assert d[i][j] >= 0 && d[j][i] >= 0;
    }
    RelaxedLowerZero(p0, t.n, t.n);
    RelaxedGrows(p0, t.n, t.n);
    assert Strengths(t) == Relaxed(p0, t.n, t.n);
  }

  /** With every path forward stronger than its reverse, competitor a wins against exactly the n - 1 - a entered after it. */
  lemma ForwardWins(p: seq<seq<int>>, n: nat, a: nat)
    requires Square(p, n) && a < n
    requires forall i, j :: 0 <= i < j < n ==> p[i][j] > p[j][i]
    ensures Wins2(p, n)[a] == 2 * (n - 1 - a)
  {
    var lost := seq(a + 1, j => 0);
    var won := seq(n - 1 - a, j => 2);
    assert WinRow(p, n, a) == lost + won;
    SumAppend(lost, won);
    SumZeros(a + 1);
    SumConstant(won, 2);
  }

  /** When every competitor beats all later ones head-on, competitor a has n - 1 - a wins. */
  lemma EntryOrderWins(t: Table)
    requires ValidTable(t) && EntryOrderBeats(Pairwise(t), t.n)
    ensures forall a :: 0 <= a < t.n ==> Calculate(t).wins2[a] == 2 * (t.n - 1 - a)
  {
    EntryOrderStrengths(t);
    forall a | 0 <= a < t.n ensures Calculate(t).wins2[a] == 2 * (t.n - 1 - a) {
      ForwardWins(Strengths(t), t.n, a);
    }
  }

  /** A permutation of 0 .. n-1 listed best first, with wins falling strictly in entry order, is 0 .. n-1 itself. */
  lemma FallingScoresIota(f: seq<nat>, w: seq<int>, ws: seq<int>, n: nat)
    requires |f| == n && |w| == n && |ws| == n && Below(f, n) && Distinct(f)
    requires forall i, k :: 0 <= i < k < |f| ==> w[f[i]] > w[f[k]] || (w[f[i]] == w[f[k]] && ws[f[i]] >= ws[f[k]])
    requires forall a, b :: 0 <= a < b < n ==> w[a] > w[b]
    ensures f == Iota(n)
  {
    forall i, k | 0 <= i < k < n ensures f[i] < f[k] {
      assert f[i] != f[k];
    }
    IncreasingFill(f, 0);
  }

  /** Wins that fall strictly along entry order leave the competitors in entry order. */
  lemma FallingWinsOrder(t: Table)
    requires ValidTable(t)
    requires forall a, b :: 0 <= a < b < t.n ==> Calculate(t).wins2[a] > Calculate(t).wins2[b]
    ensures Flatten(Calculate(t).entries) == Iota(t.n)
  {
    var r := Calculate(t);
    CalculatePermutation(t);
    CalculateOrdered(t);
    FallingScoresIota(Flatten(r.entries), r.wins2, r.winningStrength, t.n);
  }

  /** With distinct wins nobody shares a place and the tiebreak is never needed. */
  lemma DistinctWinsNoTies(t: Table)
    requires ValidTable(t)
    requires forall a, b :: 0 <= a < b < t.n ==> Calculate(t).wins2[a] != Calculate(t).wins2[b]
    ensures Calculate(t).ties == [] && !Calculate(t).tiebreakUsed
  {
    var r := Calculate(t);
    assert forall a, b :: 0 <= a < t.n && 0 <= b < t.n && a != b ==> r.wins2[a] != r.wins2[b];
    CalculateTies(t);
    CalculateTieGroups(t);
    if r.ties != [] {
      assert InTie(r.ties, r.ties[0][0]);
      assert false;
    }
    CalculateTiebreak(t);
  }

  /**
   When every competitor beats all later ones head-on, the result is entry
   order: competitor a has n - 1 - a wins, nobody shares a place and the
   winning-strength tiebreak is not used.
   */
  lemma CalculateEntryOrder(t: Table)
    requires ValidTable(t) && EntryOrderBeats(Calculate(t).pairwise, t.n)
    ensures forall a :: 0 <= a < t.n ==> Calculate(t).wins2[a] == 2 * (t.n - 1 - a)
    ensures Flatten(Calculate(t).entries) == Iota(t.n)
    ensures Calculate(t).ties == [] && !Calculate(t).tiebreakUsed
  {
    EntryOrderWins(t);
    FallingWinsOrder(t);
    DistinctWinsNoTies(t);
  }

  /** `calculate` on a scoresheet: asking any judge for a ranking can fail, on a judge missing from the map or a missing placement; otherwise every competitor is ranked once. */
  function CalculateSheet(s: Scoresheet): (r: Result<seq<Placement<Id>>>)
    ensures r.Success? <==> JudgesListed(s) && Complete(s)
    ensures r.Success? <==> forall j <- s.judges :: GetJudgeRanking(s, j).Success?
    ensures r.Failure? ==> r.error == MissingPlacement
    ensures r.Success? ==> multiset(Names(r.value)) == multiset(s.competitors)
  {
    AllJudgeRankings(s);
    if !(JudgesListed(s) && Complete(s)) then Failure(MissingPlacement)
    else
      var t := ToTable(s);
      CalculatePermutation(t);
      PublishPermutation(Calculate(t).entries, s.competitors);
      Success(Publish(Calculate(t).entries, s.competitors))
  }
}
