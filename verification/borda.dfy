/**
 Borda count (core/voting/borda.py). Within a set of k competitors each
 judge awards k-1 points to the one they place best, k-2 to the next, down
 to 0; scores are summed over judges. Equal totals are broken by running the
 same count again among only the tied competitors, as deep as needed.
 */
module Borda {
  import opened Seqs
  import opened Sorting
  import opened Models

  // ---------------------------------------------------------------------------
  // Points

  /** The competitors of `sub` ordered by judge j's placements; equal placements keep the order of `sub`. */
  function RelativeRanking(t: Table, j: nat, sub: seq<nat>): (r: seq<nat>)
    requires ValidTable(t) && j < M(t) && Below(sub, t.n)
    ensures multiset(r) == multiset(sub) && Below(r, t.n) && |r| == |sub|
    ensures forall i, k :: 0 <= i < k < |r| ==> t.rows[j][r[i]] <= t.rows[j][r[k]]
  {
    IntLeTotalPreorder();
    SortByOrdered(sub, t.rows[j], IntLe);
    var r := SortBy(sub, t.rows[j], IntLe);
    assert |r| == |multiset(r)| == |multiset(sub)| == |sub|;
    r
  }

  /** The relative ranking is stable: competitors with placement v keep their order in `sub`. */
  lemma RelativeRankingStable(t: Table, j: nat, sub: seq<nat>, v: int)
    requires ValidTable(t) && j < M(t) && Below(sub, t.n)
    ensures Class(RelativeRanking(t, j, sub), t.rows[j], IntLe, v) == Class(sub, t.rows[j], IntLe, v)
  {
    IntLeTotalPreorder();
    SortByStable(sub, t.rows[j], IntLe, v);
  }

  /** Judge j's points for every competitor number when only `sub` is ranked: k-1 for first, down to 0 for last. */
  function PointsKey(t: Table, j: nat, sub: seq<nat>): (key: seq<int>)
    requires ValidTable(t) && j < M(t) && Below(sub, t.n)
    ensures |key| == t.n
    ensures forall c :: 0 <= c < t.n && c in sub ==> 0 <= key[c] <= |sub| - 1
  {
    var r := RelativeRanking(t, j, sub);
    var key := seq(t.n, c requires 0 <= c < t.n => |sub| - 1 - IndexOf(r, c));
    assert forall c :: 0 <= c < t.n && c in sub ==> 0 <= key[c] <= |sub| - 1 by {
      forall c | 0 <= c < t.n && c in sub ensures IndexOf(r, c) < |r| {
        assert c in multiset(r);
      }
    }
    key
  }

  /** Points judge j gives competitor c within `sub`. */
  function Points(t: Table, j: nat, sub: seq<nat>, c: nat): (p: int)
    requires ValidTable(t) && j < M(t) && Below(sub, t.n) && c < t.n
    ensures c in sub ==> 0 <= p <= |sub| - 1
  {
    PointsKey(t, j, sub)[c]
  }

  /** Points are counted down from k-1 by position in the judge's relative ranking. */
  lemma PointsIndex(t: Table, j: nat, sub: seq<nat>, c: nat)
    requires ValidTable(t) && j < M(t) && Below(sub, t.n) && c < t.n
    ensures Points(t, j, sub, c) == |sub| - 1 - IndexOf(RelativeRanking(t, j, sub), c)
  {
  }

  /** The competitors judge j's ranking puts after c: placed worse, or placed level and entered later. */
  function RankedBehind(t: Table, j: nat, c: nat): nat -> bool
    requires ValidTable(t) && j < M(t) && c < t.n
  {
    (d: nat) => d < t.n && Prefers(t, j, c, d)
  }

  /**
   Over the whole field, the points judge j gives c are the number of
   competitors the judge ranks behind c: those placed worse, plus those placed
   level but entered after c, since the stable sort keeps them behind.
   */
  lemma PointsCountBehind(t: Table, j: nat, c: nat)
    requires ValidTable(t) && j < M(t) && c < t.n
    ensures Below(Iota(t.n), t.n)
    ensures Points(t, j, Iota(t.n), c) == Count(t.n, RankedBehind(t, j, c))
  {
    IotaFacts(t.n);
    var all := Iota(t.n);
    var row := t.rows[j];
    var r := RelativeRanking(t, j, all);
    PermutationDistinct(r, all);
    IntLeTotalPreorder();
    SortByTiesAscending(all, row, IntLe);
    assert all[c] == c;
    assert c in multiset(r);
    var p := IndexOf(r, c);
    forall d: nat | d < t.n ensures d in r {
      assert all[d] == d;
      assert d in multiset(r);
    }
    CountBehindPosition(t, j, r, p);
    PointsIndex(t, j, all, c);
  }

  /** In judge j's stable ranking r of the whole field, n - 1 - p competitors are ranked behind the one at position p. */
  lemma CountBehindPosition(t: Table, j: nat, r: seq<nat>, p: nat)
    requires ValidTable(t) && j < M(t) && Below(r, t.n) && Distinct(r) && p < |r| == t.n
    requires forall d: nat :: d < t.n ==> d in r
    requires forall i, l :: 0 <= i < l < |r| ==> t.rows[j][r[i]] <= t.rows[j][r[l]]
    requires TiesAscending(r, t.rows[j], IntLe)
    ensures Count(t.n, RankedBehind(t, j, r[p])) == t.n - 1 - p
  {
    BehindIsAfter(t, j, r, p);
    var after := r[p + 1..];
    CountExt(t.n, RankedBehind(t, j, r[p]), (d: nat) => d in after);
    assert Distinct(after) && Below(after, t.n);
    CountMembers(t.n, after);
  }

  /** In judge j's stable ranking r of the whole field, the competitors ranked behind r[p] are exactly those listed after position p. */
  lemma BehindIsAfter(t: Table, j: nat, r: seq<nat>, p: nat)
    requires ValidTable(t) && j < M(t) && Below(r, t.n) && Distinct(r) && p < |r|
    requires forall d: nat :: d < t.n ==> d in r
    requires forall i, l :: 0 <= i < l < |r| ==> t.rows[j][r[i]] <= t.rows[j][r[l]]
    requires TiesAscending(r, t.rows[j], IntLe)
    ensures forall d: nat :: d < t.n ==> (RankedBehind(t, j, r[p])(d) <==> d in r[p + 1..])
  {
    forall d: nat | d < t.n ensures RankedBehind(t, j, r[p])(d) <==> d in r[p + 1..] {
      var k := IndexOf(r, d);
      SortedPosition(t.rows[j], r, p, k);
      InSuffix(r, p, k);
    }
  }

  /** In a stable ascending sort of distinct indices, r[p] comes before r[k] exactly when it is placed better, or level and entered earlier. */
  lemma SortedPosition(row: seq<int>, r: seq<nat>, p: nat, k: nat)
    requires Below(r, |row|) && Distinct(r) && p < |r| && k < |r|
    requires forall i, l :: 0 <= i < l < |r| ==> row[r[i]] <= row[r[l]]
    requires TiesAscending(r, row, IntLe)
    ensures (row[r[p]] < row[r[k]] || (row[r[p]] == row[r[k]] && r[p] < r[k])) <==> p < k
  {
    if p < k {
      assert row[r[p]] <= row[r[k]];
      assert row[r[p]] == row[r[k]] ==> Equiv(IntLe, row[r[p]], row[r[k]]);
    } else if k < p {
      assert row[r[k]] <= row[r[p]];
      assert row[r[k]] == row[r[p]] ==> Equiv(IntLe, row[r[k]], row[r[p]]);
    }
  }

  /** In a list without repeats, r[k] lies after position p exactly when k > p. */
  lemma InSuffix(r: seq<nat>, p: nat, k: nat)
    requires Distinct(r) && p < |r| && k < |r|
    ensures r[k] in r[p + 1..] <==> k > p
  {
    if k > p {
      assert r[p + 1..][k - p - 1] == r[k];
    } else {
      var suffix := r[p + 1..];
      forall i | 0 <= i < |suffix| ensures suffix[i] != r[k] {
        assert suffix[i] == r[p + 1 + i];
      }
    }
  }

  /** A competitor the judge places strictly better gets strictly more points. */
  lemma PointsMonotone(t: Table, j: nat, sub: seq<nat>, a: nat, b: nat)
    requires ValidTable(t) && j < M(t) && Below(sub, t.n) && a < t.n && b < t.n
    requires a in sub && b in sub && t.rows[j][a] < t.rows[j][b]
    ensures Points(t, j, sub, a) > Points(t, j, sub, b)
  {
    var r := RelativeRanking(t, j, sub);
    assert a in multiset(r) && b in multiset(r);
    var ia, ib := IndexOf(r, a), IndexOf(r, b);
    assert r[ia] == a && r[ib] == b;
  }

  /** The i-th competitor of a judge's relative ranking of distinct competitors gets k-1-i points. */
  lemma PointsAtRank(t: Table, j: nat, sub: seq<nat>, i: nat)
    requires ValidTable(t) && j < M(t) && Below(sub, t.n) && Distinct(sub) && i < |sub|
    ensures PointsKey(t, j, sub)[RelativeRanking(t, j, sub)[i]] == |sub| - 1 - i
  {
    var r := RelativeRanking(t, j, sub);
    PermutationDistinct(r, sub);
    IndexOfDistinct(r, i);
  }

  /** Among distinct competitors each judge hands out each of k-1, ..., 0 exactly once. */
  lemma PointsArePermutation(t: Table, j: nat, sub: seq<nat>)
    requires ValidTable(t) && j < M(t) && Below(sub, t.n) && Distinct(sub)
    ensures multiset(Gather(sub, PointsKey(t, j, sub))) == multiset(Countdown(|sub|))
  {
    var r := RelativeRanking(t, j, sub);
    var key := PointsKey(t, j, sub);
    var g, c := Gather(r, key), Countdown(|sub|);
    GatherPermutation(sub, r, key);
    forall i | 0 <= i < |r| ensures g[i] == c[i] {
      PointsAtRank(t, j, sub, i);
    }
    assert g == c;
  }

  /** Each judge hands out k(k-1)/2 points among k distinct competitors. */
  lemma JudgeTotal(t: Table, j: nat, sub: seq<nat>)
    requires ValidTable(t) && j < M(t) && Below(sub, t.n) && Distinct(sub)
    ensures Sum(Gather(sub, PointsKey(t, j, sub))) == Sum(Countdown(|sub|))
    ensures 2 * Sum(Gather(sub, PointsKey(t, j, sub))) == |sub| * (|sub| - 1)
  {
    PointsArePermutation(t, j, sub);
    SumPermutation(Gather(sub, PointsKey(t, j, sub)), Countdown(|sub|));
    SumCountdown(|sub|);
  }

  /** A strict ballot places every competitor within 1..n and no two competitors level. */
  lemma StrictBallotFacts(t: Table, j: nat)
    requires ValidTable(t) && j < M(t) && StrictBallot(t, j)
    ensures forall c :: 0 <= c < t.n ==> t.rows[j][c] <= t.n
    ensures Distinct(t.rows[j])
  {
    assert Distinct(Places(t.n));
    PermutationDistinct(t.rows[j], Places(t.n));
    forall c | 0 <= c < t.n ensures t.rows[j][c] <= t.n {
      assert t.rows[j][c] in multiset(Places(t.n));
    }
  }

  /** On a strict ballot, the relative ranking of the whole field lists the competitors placed 1, 2, ..., n in that order. */
  lemma StrictRanking(t: Table, j: nat)
    requires ValidTable(t) && j < M(t) && StrictBallot(t, j)
    ensures Below(Iota(t.n), t.n)
    ensures forall i :: 0 <= i < t.n ==> t.rows[j][RelativeRanking(t, j, Iota(t.n))[i]] == i + 1
  {
    IotaFacts(t.n);
    var all := Iota(t.n);
    var r := RelativeRanking(t, j, all);
    PermutationDistinct(r, all);
    StrictBallotFacts(t, j);
    var row := t.rows[j];
    var v := seq(t.n, i requires 0 <= i < t.n => row[r[i]]);
    forall i, k | 0 <= i < k < |v| ensures v[i] < v[k] {
      assert r[i] != r[k];
    }
    assert forall i :: 0 <= i < |v| ==> 1 <= v[i] < 1 + |v| by {
      assert |v| == t.n;
    }
    IncreasingFill(v, 1);
    forall i | 0 <= i < t.n ensures row[r[i]] == i + 1 {
      assert v[i] == row[r[i]];
    }
  }

  /** On a strict ballot, a judge's points over the whole field are n minus the placement. */
  lemma StrictPoints(t: Table, j: nat, c: nat)
    requires ValidTable(t) && j < M(t) && c < t.n && StrictBallot(t, j)
    ensures Points(t, j, Iota(t.n), c) == t.n - t.rows[j][c]
  {
    IotaFacts(t.n);
    StrictRanking(t, j);
    var all := Iota(t.n);
    var r := RelativeRanking(t, j, all);
    assert all[c] == c;
    assert c in multiset(r);
    var i := IndexOf(r, c);
    assert r[i] == c;
    PointsIndex(t, j, all, c);
  }

  // ---------------------------------------------------------------------------
  // Scores

  /** The points competitor c received from each judge, in judge order. */
  function Breakdown(t: Table, sub: seq<nat>, c: nat): (b: seq<int>)
    requires ValidTable(t) && Below(sub, t.n) && c < t.n
    ensures |b| == M(t)
    ensures c in sub ==> forall j :: 0 <= j < M(t) ==> 0 <= b[j] <= |sub| - 1
  {
    seq(M(t), j requires 0 <= j < M(t) => Points(t, j, sub, c))
  }

  function Score(t: Table, sub: seq<nat>, c: nat): (s: int)
    requires ValidTable(t) && Below(sub, t.n) && c < t.n
  {
    Sum(Breakdown(t, sub, c))
  }

  /** A competitor's score lies between 0 and (k-1)*m. */
  lemma ScoreBounds(t: Table, sub: seq<nat>, c: nat)
    requires ValidTable(t) && Below(sub, t.n) && c < t.n && c in sub
    ensures 0 <= Score(t, sub, c) <= (|sub| - 1) * M(t)
  {
    SumBounds(Breakdown(t, sub, c), 0, |sub| - 1);
  }

  /** Every competitor number's breakdown within `sub`. */
  function Breakdowns(t: Table, sub: seq<nat>): (bs: seq<seq<int>>)
    requires ValidTable(t) && Below(sub, t.n)
    ensures |bs| == t.n && forall c :: 0 <= c < t.n ==> bs[c] == Breakdown(t, sub, c)
  {
    seq(t.n, c requires 0 <= c < t.n => Breakdown(t, sub, c))
  }

  /** Every competitor number's score within `sub`. */
  function Scores(t: Table, sub: seq<nat>): (key: seq<int>)
    requires ValidTable(t) && Below(sub, t.n)
    ensures |key| == t.n && forall c :: 0 <= c < t.n ==> key[c] == Score(t, sub, c)
  {
    seq(t.n, c requires 0 <= c < t.n => Score(t, sub, c))
  }

  /** The points table: row j holds judge j's points for the members of `sub`, in order. */
  function PointsTable(t: Table, sub: seq<nat>): (mat: seq<seq<int>>)
    requires ValidTable(t) && Below(sub, t.n)
    ensures |mat| == M(t) && Rectangular(mat, |sub|)
  {
    seq(M(t), j requires 0 <= j < M(t) => Gather(sub, PointsKey(t, j, sub)))
  }

  /** Each row of the points table adds up to k(k-1)/2. */
  lemma PointsTableRows(t: Table, sub: seq<nat>)
    requires ValidTable(t) && Below(sub, t.n) && Distinct(sub)
    ensures forall j :: 0 <= j < M(t) ==> RowSums(PointsTable(t, sub))[j] == Sum(Countdown(|sub|))
  {
    forall j | 0 <= j < M(t) ensures RowSums(PointsTable(t, sub))[j] == Sum(Countdown(|sub|)) {
      JudgeTotal(t, j, sub);
    }
  }

  /** Column i of the points table is the breakdown of the i-th member of `sub`. */
  lemma PointsTableColumns(t: Table, sub: seq<nat>)
    requires ValidTable(t) && Below(sub, t.n)
    ensures ColumnSums(PointsTable(t, sub), |sub|) == Gather(sub, Scores(t, sub))
  {
    var mat := PointsTable(t, sub);
    forall i | 0 <= i < |sub| ensures ColumnSums(mat, |sub|)[i] == Gather(sub, Scores(t, sub))[i] {
      assert Column(mat, |sub|, i) == Breakdown(t, sub, sub[i]);
    }
  }

  /** The scores of k distinct competitors add up to m*k(k-1)/2. */
  lemma ScoresTotal(t: Table, sub: seq<nat>)
    requires ValidTable(t) && Below(sub, t.n) && Distinct(sub)
    ensures 2 * Sum(Gather(sub, Scores(t, sub))) == M(t) * |sub| * (|sub| - 1)
  {
    var k := |sub|;
    var mat := PointsTable(t, sub);
    var half := Sum(Countdown(k));
    PointsTableRows(t, sub);
    SumConstant(RowSums(mat), half);
    SumCountdown(k);
    PointsTableColumns(t, sub);
    SumRowsColumns(mat, k);
    assert Sum(Gather(sub, Scores(t, sub))) == M(t) * half;
    ScaleHalf(M(t), k, half);
  }

  lemma ScaleHalf(m: int, k: int, half: int)
    requires 2 * half == k * (k - 1)
    ensures 2 * (m * half) == m * k * (k - 1)
  {
    calc {
      2 * (m * half);
      m * (2 * half);
      m * (k * (k - 1));
      { assert m * (k * (k - 1)) == (m * k) * (k - 1); }
      m * k * (k - 1);
    }
  }

  // ---------------------------------------------------------------------------
  // Score groups

  /** The competitors sharing one score, in the order they were listed. */
  datatype ScoreGroup = ScoreGroup(score: int, members: seq<nat>)

  function AllMembers(gs: seq<ScoreGroup>): seq<nat>
  {
    if |gs| == 0 then [] else gs[0].members + AllMembers(gs[1..])
  }

  /**
   Groups xs by key, highest key first; each group lists its members in the
   order of xs.
   */
  function Groups(xs: seq<nat>, key: seq<int>): (r: seq<ScoreGroup>)
    requires Below(xs, |key|)
    ensures forall g :: 0 <= g < |r| ==> 0 < |r[g].members| <= |xs|
    ensures |r| > 1 ==> forall g :: 0 <= g < |r| ==> |r[g].members| < |xs|
    ensures |xs| > 0 <==> |r| > 0
    decreases |xs|
  {
    if |xs| == 0 then []
    else
      var v := MaxKey(xs, key);
      var top := Filter(xs, HasKey(key, v));
      var rest := Filter(xs, LacksKey(key, v));
      BelowPermutationFilter(xs, LacksKey(key, v), |key|);
      TopNonEmpty(xs, key);
      var tail := Groups(rest, key);
      GroupsCons(|xs|, ScoreGroup(v, top), tail, |rest|);
      [ScoreGroup(v, top)] + tail
  }

  /** Sizes of a first group followed by the groups of the |xs| - |top| competitors left. */
  lemma GroupsCons(n: nat, top: ScoreGroup, tail: seq<ScoreGroup>, left: nat)
    requires 0 < |top.members| && |top.members| + left == n
    requires forall g :: 0 <= g < |tail| ==> 0 < |tail[g].members| <= left
    requires left > 0 <==> |tail| > 0
    ensures forall g :: 0 <= g < |[top] + tail| ==> 0 < |([top] + tail)[g].members| <= n
    ensures |[top] + tail| > 1 ==> forall g :: 0 <= g < |[top] + tail| ==> |([top] + tail)[g].members| < n
  {
    var r := [top] + tail;
    assert forall g :: 0 < g < |r| ==> r[g] == tail[g - 1];
  }

  /** Each group holds exactly the competitors of xs with its score, in the order of xs. */
  lemma {:induction false} GroupsMembers(xs: seq<nat>, key: seq<int>)
    requires Below(xs, |key|)
    ensures forall g :: 0 <= g < |Groups(xs, key)| ==>
      Groups(xs, key)[g].members == Filter(xs, HasKey(key, Groups(xs, key)[g].score))
    decreases |xs|
  {
    if |xs| > 0 {
      var v := MaxKey(xs, key);
      var rest := Filter(xs, LacksKey(key, v));
      BelowPermutationFilter(xs, LacksKey(key, v), |key|);
      TopNonEmpty(xs, key);
      var tail := Groups(rest, key);
      GroupsMembers(rest, key);
      GroupsTail(xs, key, v, rest, tail);
      assert Groups(xs, key)[1..] == tail;
    }
  }

  /** Group scores strictly decrease. */
  lemma {:induction false} GroupsDecreasing(xs: seq<nat>, key: seq<int>)
    requires Below(xs, |key|)
    ensures forall g, h :: 0 <= g < h < |Groups(xs, key)| ==> Groups(xs, key)[g].score > Groups(xs, key)[h].score
    decreases |xs|
  {
    if |xs| > 0 {
      var v := MaxKey(xs, key);
      var rest := Filter(xs, LacksKey(key, v));
      BelowPermutationFilter(xs, LacksKey(key, v), |key|);
      TopNonEmpty(xs, key);
      var tail := Groups(rest, key);
      GroupsDecreasing(rest, key);
      GroupsMembers(rest, key);
      GroupsTail(xs, key, v, rest, tail);
      assert Groups(xs, key)[1..] == tail;
    }
  }

  /** The groups together hold exactly the competitors of xs. */
  lemma {:induction false} GroupsPermutation(xs: seq<nat>, key: seq<int>)
    requires Below(xs, |key|)
    ensures multiset(AllMembers(Groups(xs, key))) == multiset(xs)
    decreases |xs|
  {
    if |xs| > 0 {
      var v := MaxKey(xs, key);
      var rest := Filter(xs, LacksKey(key, v));
      BelowPermutationFilter(xs, LacksKey(key, v), |key|);
      TopNonEmpty(xs, key);
      GroupsPermutation(rest, key);
      FilterComplement(xs, HasKey(key, v), LacksKey(key, v));
      var r := Groups(xs, key);
      assert r[1..] == Groups(rest, key);
    }
  }

  lemma BelowPermutationFilter(xs: seq<nat>, p: nat -> bool, bound: nat)
    requires Below(xs, bound)
    ensures Below(Filter(xs, p), bound)
  {
    FilterFacts(xs, p);
    forall i | 0 <= i < |Filter<nat>(xs, p)| ensures Filter<nat>(xs, p)[i] < bound {
      assert Filter(xs, p)[i] in xs;
    }
  }

  /** The groups of what is left below the top key are groups of xs, with smaller keys. */
  lemma GroupsTail(xs: seq<nat>, key: seq<int>, v: int, rest: seq<nat>, tail: seq<ScoreGroup>)
    requires |xs| > 0 && Below(xs, |key|) && v == MaxKey(xs, key)
    requires rest == Filter(xs, LacksKey(key, v)) && Below(rest, |key|)
    requires forall g :: 0 <= g < |tail| ==> |tail[g].members| > 0 && tail[g].members == Filter(rest, HasKey(key, tail[g].score))
    ensures forall g :: 0 <= g < |tail| ==> tail[g].score < v && tail[g].members == Filter(xs, HasKey(key, tail[g].score))
  {
    forall g | 0 <= g < |tail| ensures tail[g].score < v && tail[g].members == Filter(xs, HasKey(key, tail[g].score)) {
      LowerGroup(xs, key, v, tail[g].score, tail[g].members[0]);
    }
  }

  /** A score held by a competitor left over below the top score is lower, and its group is the same in xs. */
  lemma LowerGroup(xs: seq<nat>, key: seq<int>, v: int, s: int, c: nat)
    requires |xs| > 0 && Below(xs, |key|) && v == MaxKey(xs, key)
    requires c in Filter(Filter(xs, LacksKey(key, v)), HasKey(key, s))
    ensures s < v && Filter(Filter(xs, LacksKey(key, v)), HasKey(key, s)) == Filter(xs, HasKey(key, s))
  {
    var rest := Filter(xs, LacksKey(key, v));
    FilterFacts(rest, HasKey(key, s));
    FilterFacts(xs, LacksKey(key, v));
    assert c in xs && c < |key| && key[c] == s && s != v;
    var i :| 0 <= i < |xs| && xs[i] == c;
    assert key[xs[i]] <= v;
    FilterFilter(xs, HasKey(key, s), LacksKey(key, v));
  }

  /** Every member of every group carries its group's score, and each group is within `bound`. */
  predicate GroupsKeyed(gs: seq<ScoreGroup>, key: seq<int>)
  {
    forall g, i :: 0 <= g < |gs| && 0 <= i < |gs[g].members| ==>
      gs[g].members[i] < |key| && key[gs[g].members[i]] == gs[g].score
  }

  predicate ScoresDecrease(gs: seq<ScoreGroup>)
  {
    forall g, h :: 0 <= g < h < |gs| ==> gs[g].score > gs[h].score
  }

  /** The groups of xs are keyed by their scores and strictly decrease. */
  lemma GroupsShape(xs: seq<nat>, key: seq<int>)
    requires Below(xs, |key|)
    ensures GroupsKeyed(Groups(xs, key), key) && ScoresDecrease(Groups(xs, key))
  {
    var gs := Groups(xs, key);
    GroupsMembers(xs, key);
    GroupsDecreasing(xs, key);
    forall g, i | 0 <= g < |gs| && 0 <= i < |gs[g].members|
      ensures gs[g].members[i] < |key| && key[gs[g].members[i]] == gs[g].score
    {
      FilterFacts(xs, HasKey(key, gs[g].score));
      assert gs[g].members[i] in gs[g].members;
    }
  }

  /** One group exactly when every competitor of a non-empty xs has the same key. */
  lemma GroupsSingle(xs: seq<nat>, key: seq<int>)
    requires Below(xs, |key|) && |xs| > 0
    ensures |Groups(xs, key)| == 1 <==> forall i, k :: 0 <= i < |xs| && 0 <= k < |xs| ==> key[xs[i]] == key[xs[k]]
  {
    var gs := Groups(xs, key);
    GroupsShape(xs, key);
    GroupsPermutation(xs, key);
    if |gs| == 1 {
      assert AllMembers(gs) == gs[0].members;
      forall i | 0 <= i < |xs| ensures key[xs[i]] == gs[0].score {
        assert xs[i] in multiset(gs[0].members);
        var p :| 0 <= p < |gs[0].members| && gs[0].members[p] == xs[i];
      }
    }
    if |gs| > 1 {
      var c0 := gs[0].members[0];
      var c1 := gs[1].members[0];
      AllMembersIn(gs, 0, 0);
      AllMembersIn(gs, 1, 0);
      assert c0 in multiset(xs) && c1 in multiset(xs);
      var i :| 0 <= i < |xs| && xs[i] == c0;
      var k :| 0 <= k < |xs| && xs[k] == c1;
      assert key[xs[i]] != key[xs[k]];
    }
  }

  lemma {:induction false} AllMembersIn(gs: seq<ScoreGroup>, g: nat, i: nat)
    requires g < |gs| && i < |gs[g].members|
    ensures gs[g].members[i] in AllMembers(gs)
  {
    if g > 0 {
      AllMembersIn(gs[1..], g - 1, i);
    }
  }

  // ---------------------------------------------------------------------------
  // Tiebreaks

  datatype Method = RecursiveBorda | Unresolved

  /** One tiebreak applied during the count: the tied competitors, its nesting level and how it ended. */
  datatype TieBreak = TieBreak(tied: seq<nat>, level: nat, outcome: Method)

  /** An ordered result and the tiebreaks that produced it. */
  datatype Resolution = Resolution(entries: seq<Entry<nat>>, tiebreaks: seq<TieBreak>)

  function Singles(xs: seq<nat>): (r: seq<Entry<nat>>)
    ensures |r| == |xs| && Flatten(r) == xs
    ensures forall e :: 0 <= e < |r| ==> r[e].Single?
  {
    if |xs| == 0 then []
    else
      var rest := Singles(xs[1..]);
      assert ([Single(xs[0])] + rest)[1..] == rest;
      [Single(xs[0])] + rest
  }

  /**
   _break_ties: re-score only the tied competitors. If every relative score
   is equal the whole set stays tied; otherwise the relative score groups
   are placed highest first, each larger group broken again one level deeper.
   */
  function BreakTies(t: Table, tied: seq<nat>, level: nat): (r: Resolution)
    requires ValidTable(t) && Below(tied, t.n)
    ensures |tied| >= 2 ==> |r.tiebreaks| > 0 && r.tiebreaks[0].tied == tied && r.tiebreaks[0].level == level
    decreases |tied|, 1
  {
    if |tied| <= 1 then Resolution(Singles(tied), [])
    else
      var groups := RelativeGroups(t, tied);
      if |groups| == 1 then Resolution([Group(tied)], [TieBreak(tied, level, Unresolved)])
      else
        var sub := ResolveGroups(t, groups, |tied|, level + 1);
        Resolution(sub.entries, [TieBreak(tied, level, RecursiveBorda)] + sub.tiebreaks)
  }

  /** BreakTies places exactly the tied competitors, and records its own tiebreak first. */
  lemma BreakTiesFacts(t: Table, tied: seq<nat>, level: nat)
    requires ValidTable(t) && Below(tied, t.n)
    ensures multiset(Flatten(BreakTies(t, tied, level).entries)) == multiset(tied)
    ensures |tied| > 0 ==> |BreakTies(t, tied, level).entries| > 0
    ensures LevelsFrom(BreakTies(t, tied, level).tiebreaks, level)
    decreases |tied|, 1, 1
  {
    if |tied| < 2 {
      BreakTiesSmallFacts(t, tied, level);
    } else if |RelativeGroups(t, tied)| == 1 {
      BreakTiesUnresolvedFacts(t, tied, level);
    } else {
      BreakTiesSplitFacts(t, tied, level);
    }
  }

  lemma BreakTiesSmallFacts(t: Table, tied: seq<nat>, level: nat)
    requires ValidTable(t) && Below(tied, t.n) && |tied| < 2
    ensures multiset(Flatten(BreakTies(t, tied, level).entries)) == multiset(tied)
    ensures |tied| > 0 ==> |BreakTies(t, tied, level).entries| > 0
    ensures LevelsFrom(BreakTies(t, tied, level).tiebreaks, level)
  {
  }

  lemma BreakTiesUnresolvedFacts(t: Table, tied: seq<nat>, level: nat)
    requires ValidTable(t) && Below(tied, t.n) && |tied| >= 2 && |RelativeGroups(t, tied)| == 1
    ensures BreakTies(t, tied, level) == Resolution([Group(tied)], [TieBreak(tied, level, Unresolved)])
    ensures multiset(Flatten(BreakTies(t, tied, level).entries)) == multiset(tied)
    ensures |BreakTies(t, tied, level).entries| > 0
    ensures LevelsFrom(BreakTies(t, tied, level).tiebreaks, level)
  {
    FlattenOne(Group(tied));
  }

  lemma BreakTiesSplitFacts(t: Table, tied: seq<nat>, level: nat)
    requires ValidTable(t) && Below(tied, t.n) && |tied| >= 2 && |RelativeGroups(t, tied)| != 1
    ensures multiset(Flatten(BreakTies(t, tied, level).entries)) == multiset(tied)
    ensures |BreakTies(t, tied, level).entries| > 0
    ensures LevelsFrom(BreakTies(t, tied, level).tiebreaks, level)
    decreases |tied|, 1, 0
  {
    var groups := RelativeGroups(t, tied);
    assert |groups| > 0 by {
      assert |AllMembers(groups)| == |multiset(tied)| > 0;
    }
    ResolveGroupsFacts(t, groups, |tied|, level + 1);
    var sub := ResolveGroups(t, groups, |tied|, level + 1);
    LevelsFromCons(TieBreak(tied, level, RecursiveBorda), sub.tiebreaks, level);
  }

  /** Every tiebreak record is at `level` or deeper. */
  predicate LevelsFrom(tbs: seq<TieBreak>, level: nat)
  {
    forall i :: 0 <= i < |tbs| ==> tbs[i].level >= level
  }

  lemma LevelsFromCons(tb: TieBreak, tbs: seq<TieBreak>, level: nat)
    requires tb.level >= level && LevelsFrom(tbs, level + 1)
    ensures LevelsFrom([tb] + tbs, level)
  {
    var all := [tb] + tbs;
    forall i | 0 <= i < |all| ensures all[i].level >= level {
      if i > 0 {
        assert all[i] == tbs[i - 1];
      }
    }
  }

  lemma LevelsFromAppend(a: seq<TieBreak>, b: seq<TieBreak>, level: nat)
    requires LevelsFrom(a, level) && LevelsFrom(b, level)
    ensures LevelsFrom(a + b, level)
  {
    var all := a + b;
    forall i | 0 <= i < |all| ensures all[i].level >= level {
      if i >= |a| {
        assert all[i] == b[i - |a|];
      }
    }
  }

  /** The tied competitors grouped by their relative scores, highest first. */
  function RelativeGroups(t: Table, tied: seq<nat>): (gs: seq<ScoreGroup>)
    requires ValidTable(t) && Below(tied, t.n)
    ensures |gs| > 1 ==> forall g :: 0 <= g < |gs| ==> Below(gs[g].members, t.n) && 0 < |gs[g].members| < |tied|
    ensures multiset(AllMembers(gs)) == multiset(tied)
  {
    var rel := Scores(t, tied);
    GroupsPermutation(tied, rel);
    if |Groups(tied, rel)| > 1 then
      SplitGroups(tied, rel, t.n);
      Groups(tied, rel)
    else Groups(tied, rel)
  }

  /** With two or more groups, every group is a strictly smaller part of xs. */
  lemma SplitGroups(xs: seq<nat>, key: seq<int>, bound: nat)
    requires Below(xs, |key|) && Below(xs, bound) && |Groups(xs, key)| > 1
    ensures forall g :: 0 <= g < |Groups(xs, key)| ==>
      Below(Groups(xs, key)[g].members, bound) && 0 < |Groups(xs, key)[g].members| < |xs|
    ensures multiset(AllMembers(Groups(xs, key))) == multiset(xs)
  {
    GroupsBelow(xs, key, bound);
    GroupsPermutation(xs, key);
  }

  /** Every group of xs lies within any bound xs lies within. */
  lemma GroupsBelow(xs: seq<nat>, key: seq<int>, bound: nat)
    requires Below(xs, |key|) && Below(xs, bound)
    ensures forall g :: 0 <= g < |Groups(xs, key)| ==> Below(Groups(xs, key)[g].members, bound)
  {
    GroupsMembers(xs, key);
    forall g | 0 <= g < |Groups(xs, key)| ensures Below(Groups(xs, key)[g].members, bound) {
      BelowPermutationFilter(xs, HasKey(key, Groups(xs, key)[g].score), bound);
    }
  }

  /** One score group's placement: a lone competitor directly, a larger group through BreakTies. */
  function PlaceGroup(t: Table, g: seq<nat>, level: nat): (r: Resolution)
    requires ValidTable(t) && Below(g, t.n) && |g| > 0
    ensures |r.entries| > 0
    decreases |g|, 2
  {
    if |g| == 1 then Resolution([Single(g[0])], []) else BreakTies(t, g, level)
  }

  lemma PlaceGroupFacts(t: Table, g: seq<nat>, level: nat)
    requires ValidTable(t) && Below(g, t.n) && |g| > 0
    ensures multiset(Flatten(PlaceGroup(t, g, level).entries)) == multiset(g)
    ensures LevelsFrom(PlaceGroup(t, g, level).tiebreaks, level)
    decreases |g|, 2, 0
  {
    if |g| == 1 {
      FlattenOne(Single(g[0]));
      assert [g[0]] == g;
    } else {
      BreakTiesFacts(t, g, level);
    }
  }

  /** Places score groups in order: a lone competitor directly, a larger group through BreakTies. */
  function ResolveGroups(t: Table, groups: seq<ScoreGroup>, bound: nat, level: nat): (r: Resolution)
    requires ValidTable(t)
    requires forall g :: 0 <= g < |groups| ==> Below(groups[g].members, t.n) && 0 < |groups[g].members| < bound
    ensures |r.entries| >= |groups|
    decreases bound, 0, |groups|
  {
    if |groups| == 0 then Resolution([], [])
    else
      var head := PlaceGroup(t, groups[0].members, level);
      var tail := ResolveGroups(t, groups[1..], bound, level);
      Resolution(head.entries + tail.entries, head.tiebreaks + tail.tiebreaks)
  }

  /** The groups' members, each placed once, and every recorded tiebreak at `level` or deeper. */
  lemma ResolveGroupsFacts(t: Table, groups: seq<ScoreGroup>, bound: nat, level: nat)
    requires ValidTable(t)
    requires forall g :: 0 <= g < |groups| ==> Below(groups[g].members, t.n) && 0 < |groups[g].members| < bound
    ensures multiset(Flatten(ResolveGroups(t, groups, bound, level).entries)) == multiset(AllMembers(groups))
    ensures LevelsFrom(ResolveGroups(t, groups, bound, level).tiebreaks, level)
    decreases bound, 0, |groups|
  {
    if |groups| > 0 {
      var g := groups[0].members;
      var head := PlaceGroup(t, g, level);
      var tail := ResolveGroups(t, groups[1..], bound, level);
      PlaceGroupFacts(t, g, level);
      ResolveGroupsFacts(t, groups[1..], bound, level);
      FlattenAppend(head.entries, tail.entries);
      LevelsFromAppend(head.tiebreaks, tail.tiebreaks, level);
      assert AllMembers(groups) == g + AllMembers(groups[1..]);
    }
  }

  /** Every tied competitor has the same relative score. */
  predicate AllScoresEqual(t: Table, tied: seq<nat>)
    requires ValidTable(t) && Below(tied, t.n)
  {
    forall i, k :: 0 <= i < |tied| && 0 <= k < |tied| ==> Scores(t, tied)[tied[i]] == Scores(t, tied)[tied[k]]
  }

  /** The tie stays whole, recorded as unresolved, exactly when re-scoring separates nobody. */
  lemma UnresolvedExactly(t: Table, tied: seq<nat>, level: nat)
    requires ValidTable(t) && Below(tied, t.n) && |tied| >= 2
    ensures BreakTies(t, tied, level).entries == [Group(tied)] <==> AllScoresEqual(t, tied)
    ensures BreakTies(t, tied, level).tiebreaks[0].outcome == Unresolved <==> AllScoresEqual(t, tied)
  {
    var key := Scores(t, tied);
    assert RelativeGroups(t, tied) == Groups(tied, key);
    GroupsSingle(tied, key);
    if |RelativeGroups(t, tied)| == 1 {
      BreakTiesUnresolvedFacts(t, tied, level);
    } else {
      BreakTiesSplitShape(t, tied, level);
    }
  }

  /** A tie that re-scoring separates is placed as two or more entries and recorded as broken. */
  lemma BreakTiesSplitShape(t: Table, tied: seq<nat>, level: nat)
    requires ValidTable(t) && Below(tied, t.n) && |tied| >= 2 && |RelativeGroups(t, tied)| != 1
    ensures |BreakTies(t, tied, level).entries| >= 2
    ensures BreakTies(t, tied, level).tiebreaks[0].outcome == RecursiveBorda
  {
    var groups := RelativeGroups(t, tied);
    assert |groups| > 0 by {
      assert |AllMembers(groups)| == |multiset(tied)| > 0;
    }
    assert |ResolveGroups(t, groups, |tied|, level + 1).entries| >= 2;
  }

  /** Competitors of the later groups all score below `s`. */
  lemma {:induction false} AllMembersBelowScore(gs: seq<ScoreGroup>, key: seq<int>, s: int)
    requires GroupsKeyed(gs, key) && forall g :: 0 <= g < |gs| ==> gs[g].score < s
    ensures forall x <- AllMembers(gs) :: x < |key| && key[x] < s
  {
    if |gs| > 0 {
      GroupsKeyedTail(gs, key);
      AllMembersBelowScore(gs[1..], key, s);
      forall x <- gs[0].members ensures x < |key| && key[x] < s {
        var i :| 0 <= i < |gs[0].members| && gs[0].members[i] == x;
      }
    }
  }

  /** Score groups placed in decreasing order give a result whose scores never increase. */
  lemma {:induction false} ResolveOrdered(t: Table, groups: seq<ScoreGroup>, bound: nat, level: nat, key: seq<int>)
    requires ValidTable(t)
    requires forall g :: 0 <= g < |groups| ==> Below(groups[g].members, t.n) && 0 < |groups[g].members| < bound
    requires GroupsKeyed(groups, key) && ScoresDecrease(groups)
    ensures Below(Flatten(ResolveGroups(t, groups, bound, level).entries), |key|)
    ensures NonIncreasing(Flatten(ResolveGroups(t, groups, bound, level).entries), key)
    decreases |groups|
  {
    if |groups| > 0 {
      var g, s0 := groups[0].members, groups[0].score;
      var head := PlaceGroup(t, g, level);
      var tail := ResolveGroups(t, groups[1..], bound, level);
      assert ResolveGroups(t, groups, bound, level).entries == head.entries + tail.entries;
      FlattenAppend(head.entries, tail.entries);
      var hf, tf := Flatten(head.entries), Flatten(tail.entries);
      // every competitor of the head group scores exactly s0
      PlaceGroupFacts(t, g, level);
      assert forall p :: 0 <= p < |g| ==> g[p] < |key| && key[g[p]] == s0;
      KeyedPermutation(hf, g, key, s0);
      // everyone after it scores less
      GroupsKeyedTail(groups, key);
      AllMembersBelowScore(groups[1..], key, s0);
      ResolveGroupsFacts(t, groups[1..], bound, level);
      BelowScorePermutation(tf, AllMembers(groups[1..]), key, s0);
      ResolveOrdered(t, groups[1..], bound, level, key);
      NonIncreasingAppend(hf, tf, key);
    }
  }

  /** A rearrangement of competitors who all score s also all scores s. */
  lemma KeyedPermutation(xs: seq<nat>, ys: seq<nat>, key: seq<int>, s: int)
    requires multiset(xs) == multiset(ys) && forall p :: 0 <= p < |ys| ==> ys[p] < |key| && key[ys[p]] == s
    ensures Below(xs, |key|) && NonIncreasing(xs, key)
    ensures forall i :: 0 <= i < |xs| ==> key[xs[i]] == s
  {
    forall i | 0 <= i < |xs| ensures xs[i] < |key| && key[xs[i]] == s {
      assert xs[i] in multiset(ys);
      var p :| 0 <= p < |ys| && ys[p] == xs[i];
    }
  }

  /** A rearrangement of competitors who all score below s also all scores below s. */
  lemma BelowScorePermutation(xs: seq<nat>, ys: seq<nat>, key: seq<int>, s: int)
    requires multiset(xs) == multiset(ys) && forall y <- ys :: y < |key| && key[y] < s
    ensures Below(xs, |key|) && forall i :: 0 <= i < |xs| ==> key[xs[i]] < s
  {
    forall i | 0 <= i < |xs| ensures xs[i] < |key| && key[xs[i]] < s {
      assert xs[i] in multiset(ys);
      assert xs[i] in ys;
    }
  }

  lemma GroupsKeyedTail(gs: seq<ScoreGroup>, key: seq<int>)
    requires GroupsKeyed(gs, key) && |gs| > 0
    ensures GroupsKeyed(gs[1..], key)
  {
    forall g, i | 0 <= g < |gs[1..]| && 0 <= i < |gs[1..][g].members|
      ensures gs[1..][g].members[i] < |key| && key[gs[1..][g].members[i]] == gs[1..][g].score
    {
      assert gs[1..][g] == gs[g + 1];
    }
  }

  /** A tie is ordered by the relative scores among the tied competitors. */
  lemma BreakTiesOrdered(t: Table, tied: seq<nat>, level: nat)
    requires ValidTable(t) && Below(tied, t.n)
    ensures Below(Flatten(BreakTies(t, tied, level).entries), t.n)
    ensures NonIncreasing(Flatten(BreakTies(t, tied, level).entries), Scores(t, tied))
  {
    if |tied| < 2 {
      assert Flatten(BreakTies(t, tied, level).entries) == tied;
    } else if |RelativeGroups(t, tied)| == 1 {
      BreakTiesUnresolvedOrdered(t, tied, level);
    } else {
      BreakTiesSplitOrdered(t, tied, level);
    }
  }

  lemma BreakTiesUnresolvedOrdered(t: Table, tied: seq<nat>, level: nat)
    requires ValidTable(t) && Below(tied, t.n) && |tied| >= 2 && |RelativeGroups(t, tied)| == 1
    ensures Flatten(BreakTies(t, tied, level).entries) == tied
    ensures NonIncreasing(tied, Scores(t, tied))
  {
    BreakTiesUnresolvedFacts(t, tied, level);
    FlattenOne(Group(tied));
    assert RelativeGroups(t, tied) == Groups(tied, Scores(t, tied));
    GroupsSingle(tied, Scores(t, tied));
  }

  lemma BreakTiesSplitOrdered(t: Table, tied: seq<nat>, level: nat)
    requires ValidTable(t) && Below(tied, t.n) && |tied| >= 2 && |RelativeGroups(t, tied)| != 1
    ensures Below(Flatten(BreakTies(t, tied, level).entries), t.n)
    ensures NonIncreasing(Flatten(BreakTies(t, tied, level).entries), Scores(t, tied))
  {
    var groups := RelativeGroups(t, tied);
    var key := Scores(t, tied);
    assert BreakTies(t, tied, level).entries == ResolveGroups(t, groups, |tied|, level + 1).entries;
    assert groups == Groups(tied, key);
    GroupsShape(tied, key);
    ResolveOrdered(t, groups, |tied|, level + 1, key);
    BreakTiesFacts(t, tied, level);
    BelowPermutation(Flatten(BreakTies(t, tied, level).entries), tied, t.n);
  }

  // ---------------------------------------------------------------------------
  // The whole count

  /**
   What `calculate` reports: the ordered entries, every competitor's score and
   per-judge points (indexed by competitor), the largest possible score and the
   tiebreaks applied.
   */
  datatype Outcome = Outcome(
    entries: seq<Entry<nat>>,
    scores: seq<int>,
    breakdowns: seq<seq<int>>,
    maxPossible: int,
    tiebreaks: seq<TieBreak>)

  /** The score groups of the whole field, best first. */
  function FieldGroups(t: Table): (gs: seq<ScoreGroup>)
    requires ValidTable(t)
    ensures forall g :: 0 <= g < |gs| ==> Below(gs[g].members, t.n) && 0 < |gs[g].members| < t.n + 1
  {
    IotaFacts(t.n);
    GroupsBelow(Iota(t.n), Scores(t, Iota(t.n)), t.n);
    Groups(Iota(t.n), Scores(t, Iota(t.n)))
  }

  /** Borda count over the whole field, ties broken by recursive Borda from level 1. */
  function Calculate(t: Table): (r: Outcome)
    requires ValidTable(t)
    ensures |r.scores| == t.n && |r.breakdowns| == t.n
    ensures forall c :: 0 <= c < t.n ==> |r.breakdowns[c]| == M(t)
  {
    IotaFacts(t.n);
    var all := Iota(t.n);
    var res := ResolveGroups(t, FieldGroups(t), t.n + 1, 1);
    Outcome(res.entries, Scores(t, all), Breakdowns(t, all), (t.n - 1) * M(t), res.tiebreaks)
  }

  /** Every competitor is placed exactly once. */
  lemma CalculatePermutation(t: Table)
    requires ValidTable(t)
    ensures multiset(Flatten(Calculate(t).entries)) == multiset(Iota(t.n))
    ensures |Flatten(Calculate(t).entries)| == t.n
    ensures Distinct(Flatten(Calculate(t).entries)) && Below(Flatten(Calculate(t).entries), t.n)
    ensures forall c :: c in Flatten(Calculate(t).entries) <==> 0 <= c < t.n
  {
    var es := Calculate(t).entries;
    var gs := FieldGroups(t);
    assert es == ResolveGroups(t, gs, t.n + 1, 1).entries;
    assert multiset(AllMembers(gs)) == multiset(Iota(t.n)) by {
      IotaFacts(t.n);
      GroupsPermutation(Iota(t.n), Scores(t, Iota(t.n)));
    }
    ResolveGroupsFacts(t, gs, t.n + 1, 1);
    PermutationOfIota(Flatten(es), t.n);
  }

  /** Earlier competitors never have a lower score than later ones. */
  lemma CalculateOrdered(t: Table)
    requires ValidTable(t)
    ensures Below(Flatten(Calculate(t).entries), |Calculate(t).scores|)
    ensures NonIncreasing(Flatten(Calculate(t).entries), Calculate(t).scores)
  {
    IotaFacts(t.n);
    var key := Scores(t, Iota(t.n));
    GroupsShape(Iota(t.n), key);
    ResolveOrdered(t, FieldGroups(t), t.n + 1, 1, key);
  }

  /** Each score lies between 0 and the reported maximum, (n - 1) * m. */
  lemma CalculateBounds(t: Table)
    requires ValidTable(t)
    ensures Calculate(t).maxPossible == (t.n - 1) * M(t)
    ensures forall c :: 0 <= c < t.n ==> 0 <= Calculate(t).scores[c] <= Calculate(t).maxPossible
  {
    IotaFacts(t.n);
    var all := Iota(t.n);
    var scores := Calculate(t).scores;
    assert scores == Scores(t, all);
    forall c | 0 <= c < t.n ensures 0 <= scores[c] <= (t.n - 1) * M(t) {
      ScoreBounds(t, all, c);
    }
  }

  /** Each judge hands out n - 1, ..., 0 once, so the scores total m * n * (n - 1) / 2. */
  lemma CalculateTotal(t: Table)
    requires ValidTable(t)
    ensures 2 * Sum(Calculate(t).scores) == M(t) * t.n * (t.n - 1)
  {
    IotaFacts(t.n);
    ScoresTotal(t, Iota(t.n));
    GatherIota(Scores(t, Iota(t.n)));
  }

  /**
   A competitor's score is the sum of its breakdown, one entry per judge in
   judge order, and judge j's entry counts the competitors that judge ranks
   behind it: placed worse, or placed level and entered later.
   */
  lemma CalculateBreakdowns(t: Table, c: nat)
    requires ValidTable(t) && c < t.n
    ensures Calculate(t).scores[c] == Sum(Calculate(t).breakdowns[c])
    ensures forall j :: 0 <= j < M(t) ==>
      Calculate(t).breakdowns[c][j] == t.n - 1 - IndexOf(RelativeRanking(t, j, Iota(t.n)), c)
    ensures forall j :: 0 <= j < M(t) ==> Calculate(t).breakdowns[c][j] == Count(t.n, RankedBehind(t, j, c))
  {
    IotaFacts(t.n);
    var all := Iota(t.n);
    var b := Calculate(t).breakdowns[c];
    assert b == Breakdown(t, all, c);
    forall j | 0 <= j < M(t) ensures b[j] == t.n - 1 - IndexOf(RelativeRanking(t, j, all), c) && b[j] == Count(t.n, RankedBehind(t, j, c)) {
      PointsIndex(t, j, all, c);
      PointsCountBehind(t, j, c);
    }
  }

  /**
   With every ballot strict, the Borda count over the whole field gives each
   competitor the sum over judges of n minus its placement: the same score
   that Sequential IRV's Borda tiebreaks compute directly.
   */
  lemma StrictScores(t: Table)
    requires ValidTable(t)
    requires forall j :: 0 <= j < M(t) ==> StrictBallot(t, j)
    ensures Calculate(t).scores == BordaKey(t)
  {
    forall c | 0 <= c < t.n ensures Calculate(t).scores[c] == BordaKey(t)[c] {
      StrictScore(t, c);
    }
  }

  lemma StrictScore(t: Table, c: nat)
    requires ValidTable(t) && c < t.n
    requires forall j :: 0 <= j < M(t) ==> StrictBallot(t, j)
    ensures Calculate(t).scores[c] == Sum(JudgePoints(t, c))
  {
    IotaFacts(t.n);
    var b := Breakdown(t, Iota(t.n), c);
    forall j | 0 <= j < M(t) ensures b[j] == t.n - t.rows[j][c] {
      StrictPoints(t, j, c);
    }
    assert b == JudgePoints(t, c);
  }

  /** When the scores fall strictly with the competitor number, the ranking is the entry order. */
  lemma CalculateDistinctScores(t: Table)
    requires ValidTable(t)
    requires forall a, b :: 0 <= a < b < t.n ==> Calculate(t).scores[a] > Calculate(t).scores[b]
    ensures Flatten(Calculate(t).entries) == Iota(t.n)
  {
    CalculatePermutation(t);
    CalculateOrdered(t);
    RankedByDistinctKeys(Flatten(Calculate(t).entries), Calculate(t).scores);
  }

  /** Every recorded tiebreak is at level 1 or deeper. */
  lemma CalculateLevels(t: Table)
    requires ValidTable(t)
    ensures LevelsFrom(Calculate(t).tiebreaks, 1)
  {
    ResolveGroupsFacts(t, FieldGroups(t), t.n + 1, 1);
  }

  /** `calculate` on a scoresheet: a missing placement is an error, otherwise every competitor is ranked once. */
  function CalculateSheet(s: Scoresheet): (r: Result<seq<Placement<Id>>>)
    ensures r.Success? <==> Complete(s)
    ensures r.Success? ==> multiset(Names(r.value)) == multiset(s.competitors)
  {
    if !Complete(s) then Failure(MissingPlacement)
    else
      var t := ToTable(s);
      CalculatePermutation(t);
      PublishPermutation(Calculate(t).entries, s.competitors);
      Success(Publish(Calculate(t).entries, s.competitors))
  }
}
