/**
 Relative Placement, the Skating System used in West Coast Swing
 (core/voting/relative_placement.py).

 A competitor earns the next place once a majority of judges have placed
 them at the current cutoff or better. Everyone who reaches majority at a
 cutoff is placed before the cutoff advances; when several reach it together
 the greater majority, then the quality of majority, then later cutoffs and
 finally a head-to-head comparison decide between them.
 */
module RelativePlacement {
  import opened Seqs
  import opened Models
  import opened Tally

  // ---------------------------------------------------------------------------
  // Cumulative counts

  /** Judge j placed c exactly at `place`. */
  predicate PlacedAt(t: Table, j: nat, c: nat, place: int)
    requires ValidTable(t) && c < t.n
  {
    j < M(t) && t.rows[j][c] == place
  }

  /** Judge j placed c at `place` or better. */
  predicate PlacedWithin(t: Table, j: nat, c: nat, place: int)
    requires ValidTable(t) && c < t.n
  {
    j < M(t) && t.rows[j][c] <= place
  }

  /** cum[c][i]: the number of judges placing c at i or better. */
  function AtOrBetter(t: Table, c: nat, i: int): nat
    requires ValidTable(t) && c < t.n
  {
    Count(M(t), (j: nat) => PlacedWithin(t, j, c, i))
  }

  /** Every placement is a place that exists, 1 to n. */
  predicate InRange(t: Table)
    requires ValidTable(t)
  {
    forall j, c :: 0 <= j < M(t) && 0 <= c < t.n ==> t.rows[j][c] <= t.n
  }

  /** Nobody is placed at 0 or better. */
  lemma AtOrBetterZero(t: Table, c: nat)
    requires ValidTable(t) && c < t.n
    ensures AtOrBetter(t, c, 0) == 0
  {
    CountNoneOf(M(t), (j: nat) => PlacedWithin(t, j, c, 0));
  }

  /** The count at i adds the judges placing c exactly at i to the count at i - 1. */
  lemma AtOrBetterStep(t: Table, c: nat, i: int)
    requires ValidTable(t) && c < t.n
    ensures AtOrBetter(t, c, i) == AtOrBetter(t, c, i - 1) + Count(M(t), (j: nat) => PlacedAt(t, j, c, i))
  {
    CountDisjointUnion(M(t), (j: nat) => PlacedWithin(t, j, c, i - 1), (j: nat) => PlacedAt(t, j, c, i),
      (j: nat) => PlacedWithin(t, j, c, i));
  }

  /** Cumulative counts never decrease. */
  lemma AtOrBetterMonotone(t: Table, c: nat, i: int, k: int)
    requires ValidTable(t) && c < t.n && i <= k
    ensures AtOrBetter(t, c, i) <= AtOrBetter(t, c, k)
  {
    CountMono(M(t), (j: nat) => PlacedWithin(t, j, c, i), (j: nat) => PlacedWithin(t, j, c, k));
  }

  /** With every placement in range, every judge has placed c at n or better. */
  lemma AtOrBetterLast(t: Table, c: nat)
    requires ValidTable(t) && InRange(t) && c < t.n
    ensures AtOrBetter(t, c, t.n) == M(t)
  {
    CountAll(M(t), (j: nat) => PlacedWithin(t, j, c, t.n));
  }

  /** The table of cumulative counts, indexed by competitor and then by place 0 to n. */
  function CumulativeTable(t: Table): (cum: seq<seq<nat>>)
    requires ValidTable(t)
    ensures |cum| == t.n && forall c :: 0 <= c < t.n ==> |cum[c]| == t.n + 1
  {
    seq(t.n, c requires 0 <= c < t.n => seq(t.n + 1, i => AtOrBetter(t, c, i)))
  }

  /**
   `_compute_cumulative_counts`: per competitor, a tally of the judges at each
   place, then running totals. A placement beyond n has no slot in the tally
   and is an error.
   */
  method CumulativeCounts(t: Table) returns (r: Result<seq<seq<nat>>>)
    requires ValidTable(t)
    ensures r.Success? <==> InRange(t)
    ensures r.Failure? ==> r.error == PlacementOutOfRange
    ensures r.Success? ==> r.value == CumulativeTable(t)
  {
    var cum: seq<seq<nat>> := [];
    for c := 0 to t.n
      invariant |cum| == c
      invariant forall d :: 0 <= d < c ==> cum[d] == CumulativeTable(t)[d]
      invariant forall j, d :: 0 <= j < M(t) && 0 <= d < c ==> t.rows[j][d] <= t.n
    {
      var counts := TallyPlaces(t, c);
      if counts.Failure? {
        return Failure(PlacementOutOfRange);
      }
      var cumulative := RunningTotals(t, c, counts.value);
      cum := cum + [cumulative];
    }
    return Success(cum);
  }

  /** How many judges place competitor c at each place 0 to n; a placement beyond n is an error. */
  method TallyPlaces(t: Table, c: nat) returns (r: Result<seq<nat>>)
    requires ValidTable(t) && c < t.n
    ensures r.Success? <==> forall j :: 0 <= j < M(t) ==> t.rows[j][c] <= t.n
    ensures r.Failure? ==> r.error == PlacementOutOfRange
    ensures r.Success? ==> |r.value| == t.n + 1
    ensures r.Success? ==> forall p :: 0 <= p <= t.n ==> r.value[p] == Count(M(t), (k: nat) => PlacedAt(t, k, c, p))
  {
    var counts: seq<nat> := seq(t.n + 1, _ => 0);
    for j := 0 to M(t)
      invariant |counts| == t.n + 1
      invariant forall p :: 0 <= p <= t.n ==> counts[p] == Count(j, (k: nat) => PlacedAt(t, k, c, p))
      invariant forall k :: 0 <= k < j ==> t.rows[k][c] <= t.n
    {
      var p := t.rows[j][c];
      if p > t.n {
        return Failure(PlacementOutOfRange);
      }
      counts := counts[p := counts[p] + 1];
    }
    return Success(counts);
  }

  /** Running totals of the tally: entry i is the number of judges placing c at i or better. */
  method RunningTotals(t: Table, c: nat, counts: seq<nat>) returns (cumulative: seq<nat>)
    requires ValidTable(t) && c < t.n && |counts| == t.n + 1
    requires forall p :: 0 <= p <= t.n ==> counts[p] == Count(M(t), (k: nat) => PlacedAt(t, k, c, p))
    ensures cumulative == CumulativeTable(t)[c]
  {
    cumulative := seq(t.n + 1, _ => 0);
    var running := 0;
    AtOrBetterZero(t, c);
    for i := 1 to t.n + 1
      invariant |cumulative| == t.n + 1
      invariant running == AtOrBetter(t, c, i - 1)
      invariant forall q :: 0 <= q < i ==> cumulative[q] == AtOrBetter(t, c, q)
    {
      AtOrBetterStep(t, c, i);
      running := running + counts[i];
      cumulative := cumulative[i := running];
    }
  }

  // ---------------------------------------------------------------------------
  // Resolving one place among several competitors with majority

  /** Holds of the competitors with a majority of `maj` judges at `cutoff` or better. */
  function HasMajority(t: Table, maj: nat, cutoff: int): nat -> bool
    requires ValidTable(t)
  {
    (c: nat) => c < t.n && AtOrBetter(t, c, cutoff) >= maj
  }

  /** Every competitor's cumulative count at `cutoff`. */
  function CountsAt(t: Table, cutoff: int): (key: seq<int>)
    requires ValidTable(t)
    ensures |key| == t.n && forall c :: 0 <= c < t.n ==> key[c] == AtOrBetter(t, c, cutoff)
  {
    seq(t.n, c requires 0 <= c < t.n => AtOrBetter(t, c, cutoff))
  }

  /** The quality of c's majority: the sum of the placements at `cutoff` or better. */
  function Quality(t: Table, c: nat, cutoff: int): int
    requires ValidTable(t) && c < t.n
  {
    Sum(seq(M(t), j requires 0 <= j < M(t) => if t.rows[j][c] <= cutoff then t.rows[j][c] else 0))
  }

  function Qualities(t: Table, cutoff: int): (key: seq<int>)
    requires ValidTable(t)
    ensures |key| == t.n && forall c :: 0 <= c < t.n ==> key[c] == Quality(t, c, cutoff)
  {
    seq(t.n, c requires 0 <= c < t.n => Quality(t, c, cutoff))
  }

  /** Who takes the place: one competitor, or several left tied. */
  datatype Pick = Winner(c: nat) | Tie(cs: seq<nat>)

  /** The rule that decided a place (the `method` of the source's details). */
  datatype Rule =
    | ByMajority
    | ByGreaterMajority
    | ByQuality
    | ByHeadToHead
    | UnresolvedTie
    | LastRemaining

  datatype Resolution = Resolution(pick: Pick, rule: Rule)

  /** One cutoff of the tiebreak: either the place is decided, or the candidates are narrowed for the next cutoff. */
  datatype Step = Decided(resolution: Resolution) | Narrowed(rest: seq<nat>)

  /**
   One pass of the tiebreak loop at a cutoff where `wm`, the candidates with
   majority, is not empty: a lone one wins by majority; otherwise the greatest
   count, then the lowest quality of majority, decide if one candidate is left.
   */
  function AtCutoff(t: Table, wm: seq<nat>, cutoff: nat): (s: Step)
    requires ValidTable(t) && Below(wm, t.n) && |wm| > 0
    ensures s.Decided? ==> s.resolution.pick.Winner? && s.resolution.pick.c in wm
    ensures s.Decided? ==> s.resolution.rule in {ByMajority, ByGreaterMajority, ByQuality}
    ensures s.Narrowed? ==> multiset(s.rest) <= multiset(wm) && |s.rest| > 1 && Below(s.rest, t.n)
    ensures s.Narrowed? ==> forall c <- s.rest :: c in wm
  {
    if |wm| == 1 then
      assert wm[0] in wm;
      Decided(Resolution(Winner(wm[0]), ByMajority))
    else
      var counts := CountsAt(t, cutoff);
      var best := Filter(wm, HasKey(counts, MaxKey(wm, counts)));
      TopNonEmpty(wm, counts);
      FilterFacts(wm, HasKey(counts, MaxKey(wm, counts)));
      FilterBelow(wm, HasKey(counts, MaxKey(wm, counts)), t.n);
      if |best| == 1 then
        assert best[0] in best;
        Decided(Resolution(Winner(best[0]), ByGreaterMajority))
      else
        var quality := Qualities(t, cutoff);
        var top := Filter(best, HasKey(quality, MinKey(best, quality)));
        BottomNonEmpty(best, quality);
        FilterFacts(best, HasKey(quality, MinKey(best, quality)));
        FilterBelow(best, HasKey(quality, MinKey(best, quality)), t.n);
        if |top| == 1 then
          assert top[0] in top;
          Decided(Resolution(Winner(top[0]), ByQuality))
        else
          Narrowed(top)
  }

  /**
   `_resolve_placement`: from `cutoff` on, narrow the candidates to those with
   majority and run the tiebreaks until one remains; past the last cutoff two
   go head-to-head and three or more stay tied.
   */
  function Resolve(t: Table, cands: seq<nat>, cutoff: nat, maj: nat): (r: Resolution)
    requires ValidTable(t) && Below(cands, t.n)
    ensures r.pick.Winner? ==> r.pick.c in cands
    ensures r.pick.Tie? ==> multiset(r.pick.cs) <= multiset(cands)
    ensures r.pick.Tie? && |cands| >= 2 ==> |r.pick.cs| >= 2
    decreases t.n + 1 - cutoff
  {
    if |cands| > 1 && cutoff <= t.n then
      var wm := Majors(t, cands, cutoff, maj);
      if |wm| == 0 then Resolve(t, cands, cutoff + 1, maj)
      else
        match AtCutoff(t, wm, cutoff)
        case Decided(r) => r
        case Narrowed(rest) => Resolve(t, rest, cutoff + 1, maj)
    else Fallback(t, cands)
  }

  /** The candidates holding a majority at `cutoff`, in candidate order. */
  function Majors(t: Table, cands: seq<nat>, cutoff: nat, maj: nat): (wm: seq<nat>)
    requires ValidTable(t) && Below(cands, t.n)
    ensures Below(wm, t.n) && multiset(wm) <= multiset(cands)
    ensures forall c <- wm :: c in cands && AtOrBetter(t, c, cutoff) >= maj
    ensures forall c <- cands :: AtOrBetter(t, c, cutoff) >= maj ==> c in wm
    ensures Distinct(cands) ==> Distinct(wm)
  {
    FilterFacts(cands, HasMajority(t, maj, cutoff));
    FilterBelow(cands, HasMajority(t, maj, cutoff), t.n);
    assert Distinct(cands) ==> Distinct(Filter(cands, HasMajority(t, maj, cutoff))) by {
      if Distinct(cands) {
        FilterDistinct(cands, HasMajority(t, maj, cutoff));
      }
    }
    Filter(cands, HasMajority(t, maj, cutoff))
  }

  /** After the last cutoff: a head-to-head between two, an unresolved tie among more, the last one left otherwise. */
  function Fallback(t: Table, cands: seq<nat>): (r: Resolution)
    requires ValidTable(t) && Below(cands, t.n)
    ensures r.pick.Winner? ==> r.pick.c in cands
    ensures r.pick.Tie? ==> r.pick.cs == cands
  {
    if |cands| == 2 then
      var h := HeadToHead(t, cands[0], cands[1]);
      Resolution(if h.winner.Some? then Winner(h.winner.value) else Tie(cands), ByHeadToHead)
    else if |cands| > 2 then
      Resolution(Tie(cands), UnresolvedTie)
    else if |cands| == 1 then
      Resolution(Winner(cands[0]), LastRemaining)
    else
      Resolution(Tie([]), LastRemaining)
  }

  // ---------------------------------------------------------------------------
  // The cutoff scan

  /**
   The inner loop of `calculate` at one cutoff: while competitors with
   majority remain, place a lone one directly, otherwise resolve the next
   place among them and remove whoever took it.
   */
  function PlaceCutoff(t: Table, maj: nat, cutoff: nat, wm: seq<nat>): (es: seq<Entry<nat>>)
    requires ValidTable(t) && Below(wm, t.n) && Distinct(wm)
    decreases |wm|
  {
    if |wm| == 0 then []
    else if |wm| == 1 then [Single(wm[0])]
    else
      var pick := Resolve(t, wm, cutoff, maj).pick;
      TakenFromCandidates(t, wm, cutoff, maj);
      var rest := Filter(wm, NotIn(Taken(pick)));
      [EntryOf(pick)] + PlaceCutoff(t, maj, cutoff, rest)
  }

  /** The competitors a pick places. */
  function Taken(p: Pick): seq<nat>
  {
    match p
    case Winner(w) => [w]
    case Tie(cs) => cs
  }

  /** The ranking entry a pick adds: a lone winner, or a tie listed as a group. */
  function EntryOf(p: Pick): (e: Entry<nat>)
    ensures Members(e) == Taken(p)
  {
    match p
    case Winner(w) => Single(w)
    case Tie(cs) => Group(cs)
  }

  /** A resolved pick among two or more takes some of them and leaves the rest, fewer than before. */
  lemma TakenFromCandidates(t: Table, wm: seq<nat>, cutoff: nat, maj: nat)
    requires ValidTable(t) && Below(wm, t.n) && Distinct(wm) && |wm| > 1
    ensures |Taken(Resolve(t, wm, cutoff, maj).pick)| > 0
    ensures multiset(Taken(Resolve(t, wm, cutoff, maj).pick)) <= multiset(wm)
    ensures Below(Filter(wm, NotIn(Taken(Resolve(t, wm, cutoff, maj).pick))), t.n)
    ensures Distinct(Filter(wm, NotIn(Taken(Resolve(t, wm, cutoff, maj).pick))))
    ensures |Filter(wm, NotIn(Taken(Resolve(t, wm, cutoff, maj).pick)))| < |wm|
  {
    var pick := Resolve(t, wm, cutoff, maj).pick;
    var placed := Taken(pick);
    if pick.Winner? {
      assert pick.c in multiset(wm);
    }
    FilterDistinct(wm, NotIn(placed));
    FilterBelow(wm, NotIn(placed), t.n);
    assert placed[0] in multiset(wm);
    FilterDrops(wm, NotIn(placed), placed[0]);
  }

  /** The competitors in `unplaced` with majority at `cutoff`, in entry order. */
  function WithMajority(t: Table, maj: nat, unplaced: set<nat>, cutoff: nat): (wm: seq<nat>)
    requires ValidTable(t)
    ensures Below(wm, t.n) && Distinct(wm)
  {
    IotaFacts(t.n);
    FilterDistinct(Iota(t.n), (c: nat) => c in unplaced && HasMajority(t, maj, cutoff)(c));
    FilterBelow(Iota(t.n), (c: nat) => c in unplaced && HasMajority(t, maj, cutoff)(c), t.n);
    Filter(Iota(t.n), (c: nat) => c in unplaced && HasMajority(t, maj, cutoff)(c))
  }

  /** The outer loop of `calculate`: cutoffs 1 to n, while anyone is unplaced. */
  function Scan(t: Table, maj: nat, unplaced: set<nat>, cutoff: nat): seq<Entry<nat>>
    requires ValidTable(t)
    decreases t.n + 1 - cutoff
  {
    if |unplaced| == 0 || cutoff > t.n then []
    else
      var wm := WithMajority(t, maj, unplaced, cutoff);
      PlaceCutoff(t, maj, cutoff, wm) + Scan(t, maj, unplaced - (set c | c in wm), cutoff + 1)
  }

  /** The scan at a cutoff where someone is still unplaced: this cutoff's places, then the rest. */
  lemma ScanUnfold(t: Table, maj: nat, unplaced: set<nat>, cutoff: nat)
    requires ValidTable(t) && |unplaced| > 0 && cutoff <= t.n
    ensures Scan(t, maj, unplaced, cutoff)
         == PlaceCutoff(t, maj, cutoff, WithMajority(t, maj, unplaced, cutoff))
          + Scan(t, maj, unplaced - (set c | c in WithMajority(t, maj, unplaced, cutoff)), cutoff + 1)
  {
  }

  /** What `calculate` reports besides the ranking: the threshold and the cumulative counts. */
  datatype Outcome = Outcome(entries: seq<Entry<nat>>, majority: nat, cumulative: seq<seq<nat>>)

  /** Relative Placement over a table; a placement beyond the number of competitors is an error. */
  function Calculate(t: Table): (r: Result<Outcome>)
    requires ValidTable(t)
    ensures r.Success? <==> InRange(t)
    ensures r.Failure? ==> r.error == PlacementOutOfRange
    ensures r.Success? ==> r.value.majority == Majority(M(t)) && r.value.cumulative == CumulativeTable(t)
  {
    if !InRange(t) then Failure(PlacementOutOfRange)
    else
      var maj := Majority(M(t));
      Success(Outcome(Scan(t, maj, set c | c in Iota(t.n), 1), maj, CumulativeTable(t)))
  }

  // ---------------------------------------------------------------------------
  // Properties of one cutoff

  /** Everyone with majority at the cutoff is placed exactly once. */
  lemma {:induction false} PlaceCutoffPermutation(t: Table, maj: nat, cutoff: nat, wm: seq<nat>)
    requires ValidTable(t) && Below(wm, t.n) && Distinct(wm)
    ensures multiset(Flatten(PlaceCutoff(t, maj, cutoff, wm))) == multiset(wm)
    decreases |wm|
  {
    if |wm| == 1 {
      FlattenOne(Single(wm[0]));
      assert [wm[0]] == wm;
    } else if |wm| > 1 {
      var pick := Resolve(t, wm, cutoff, maj).pick;
      TakenFromCandidates(t, wm, cutoff, maj);
      var rest := Filter(wm, NotIn(Taken(pick)));
      PlaceCutoffPermutation(t, maj, cutoff, rest);
      var tail := PlaceCutoff(t, maj, cutoff, rest);
      assert Flatten(PlaceCutoff(t, maj, cutoff, wm)) == Taken(pick) + Flatten(tail) by {
        assert PlaceCutoff(t, maj, cutoff, wm) == [EntryOf(pick)] + tail;
        FlattenAppend([EntryOf(pick)], tail);
        FlattenOne(EntryOf(pick));
      }
      FilterNotIn(wm, Taken(pick));
    }
  }

  /** Each place at a cutoff goes to one competitor or to a tie of two or more. */
  lemma {:induction false} PlaceCutoffShape(t: Table, maj: nat, cutoff: nat, wm: seq<nat>)
    requires ValidTable(t) && Below(wm, t.n) && Distinct(wm)
    ensures TiesOfTwoOrMore(PlaceCutoff(t, maj, cutoff, wm))
    decreases |wm|
  {
    if |wm| > 1 {
      var pick := Resolve(t, wm, cutoff, maj).pick;
      TakenFromCandidates(t, wm, cutoff, maj);
      var rest := Filter(wm, NotIn(Taken(pick)));
      PlaceCutoffShape(t, maj, cutoff, rest);
      assert TiesOfTwoOrMore([EntryOf(pick)]);
      TiesOfTwoOrMoreAppend([EntryOf(pick)], PlaceCutoff(t, maj, cutoff, rest));
      assert PlaceCutoff(t, maj, cutoff, wm) == [EntryOf(pick)] + PlaceCutoff(t, maj, cutoff, rest);
    }
  }

  // ---------------------------------------------------------------------------
  // Properties of the scan

  /** The first cutoff from k on at which c holds a majority, or n + 1 if there is none. */
  function FirstMajority(t: Table, maj: nat, c: nat, k: nat): nat
    requires ValidTable(t) && c < t.n
    decreases t.n + 1 - k
  {
    if k > t.n then t.n + 1
    else if AtOrBetter(t, c, k) >= maj then k
    else FirstMajority(t, maj, c, k + 1)
  }

  /** Each competitor's majority place: the first cutoff at which they hold a majority. */
  function MajorityPlaces(t: Table, maj: nat): (key: seq<int>)
    requires ValidTable(t)
    ensures |key| == t.n && forall c :: 0 <= c < t.n ==> key[c] == FirstMajority(t, maj, c, 1)
  {
    seq(t.n, c requires 0 <= c < t.n => FirstMajority(t, maj, c, 1))
  }

  /** From cutoff k on, c holds a majority exactly at the cutoffs from its first one. */
  lemma {:induction false} FirstMajorityFacts(t: Table, maj: nat, c: nat, k: nat)
    requires ValidTable(t) && c < t.n && 1 <= k <= t.n + 1
    ensures k <= FirstMajority(t, maj, c, k) <= t.n + 1
    ensures forall i :: k <= i <= t.n ==> (AtOrBetter(t, c, i) >= maj <==> FirstMajority(t, maj, c, k) <= i)
    decreases t.n + 1 - k
  {
    if k <= t.n {
      if AtOrBetter(t, c, k) >= maj {
        forall i | k <= i <= t.n ensures AtOrBetter(t, c, i) >= maj {
          AtOrBetterMonotone(t, c, k, i);
        }
      } else {
        FirstMajorityFacts(t, maj, c, k + 1);
      }
    }
  }

  /** The competitors not yet placed when the scan reaches `cutoff`. */
  function Unplaced(t: Table, maj: nat, cutoff: nat): set<nat>
    requires ValidTable(t)
  {
    set c | c in Iota(t.n) && c < t.n && MajorityPlaces(t, maj)[c] >= cutoff
  }

  /** At a cutoff, those with majority among the unplaced are exactly those whose majority place it is. */
  lemma WithMajorityAt(t: Table, maj: nat, cutoff: nat)
    requires ValidTable(t) && 1 <= cutoff <= t.n
    ensures forall c: nat :: c in WithMajority(t, maj, Unplaced(t, maj, cutoff), cutoff) <==>
      c < t.n && MajorityPlaces(t, maj)[c] == cutoff
    ensures Unplaced(t, maj, cutoff) - (set c | c in WithMajority(t, maj, Unplaced(t, maj, cutoff), cutoff))
      == Unplaced(t, maj, cutoff + 1)
  {
    var key := MajorityPlaces(t, maj);
    var unplaced := Unplaced(t, maj, cutoff);
    var p := (c: nat) => c in unplaced && HasMajority(t, maj, cutoff)(c);
    IotaFacts(t.n);
    FilterFacts(Iota(t.n), p);
    forall c: nat | c < t.n ensures p(c) <==> key[c] == cutoff {
      FirstMajorityFacts(t, maj, c, 1);
      assert c in unplaced <==> key[c] >= cutoff;
      assert HasMajority(t, maj, cutoff)(c) <==> AtOrBetter(t, c, cutoff) >= maj;
    }
  }

  /** The scan from `cutoff` places each competitor whose majority place is `cutoff` or later once, in majority-place order. */
  ghost predicate ScanPlaced(t: Table, maj: nat, cutoff: nat)
    requires ValidTable(t)
  {
    PlacedFrom(Flatten(Scan(t, maj, Unplaced(t, maj, cutoff), cutoff)), MajorityPlaces(t, maj), t.n, cutoff)
  }

  lemma {:induction false} ScanFacts(t: Table, maj: nat, cutoff: nat)
    requires ValidTable(t) && 1 <= cutoff
    ensures ScanPlaced(t, maj, cutoff)
    decreases t.n + 1 - cutoff
  {
    if cutoff > t.n {
      NothingLeft(t, maj, cutoff);
    } else {
      var next := cutoff + 1;
      ScanFacts(t, maj, next);
      ScanCutoff(t, maj, cutoff, next);
    }
  }

  /** The scan from a cutoff, given what the scan from the next cutoff places. */
  lemma ScanCutoff(t: Table, maj: nat, cutoff: nat, next: nat)
    requires ValidTable(t) && 1 <= cutoff <= t.n && next == cutoff + 1 && ScanPlaced(t, maj, next)
    ensures ScanPlaced(t, maj, cutoff)
  {
    if |Unplaced(t, maj, cutoff)| == 0 {
      NothingLeft(t, maj, cutoff);
    } else {
      ScanStep(t, maj, cutoff);
    }
  }

  /** One cutoff of the scan: its own placings, then the later cutoffs'. */
  lemma ScanStep(t: Table, maj: nat, cutoff: nat)
    requires ValidTable(t) && 1 <= cutoff <= t.n && |Unplaced(t, maj, cutoff)| > 0
    requires PlacedFrom(Flatten(Scan(t, maj, Unplaced(t, maj, cutoff + 1), cutoff + 1)), MajorityPlaces(t, maj), t.n, cutoff + 1)
    ensures PlacedFrom(Flatten(Scan(t, maj, Unplaced(t, maj, cutoff), cutoff)), MajorityPlaces(t, maj), t.n, cutoff)
  {
    var unplaced := Unplaced(t, maj, cutoff);
    var wm := WithMajority(t, maj, unplaced, cutoff);
    var head := Flatten(PlaceCutoff(t, maj, cutoff, wm));
    var tail := Flatten(Scan(t, maj, Unplaced(t, maj, cutoff + 1), cutoff + 1));
    assert Flatten(Scan(t, maj, unplaced, cutoff)) == head + tail by {
      WithMajorityAt(t, maj, cutoff);
      FlattenAppend(PlaceCutoff(t, maj, cutoff, wm), Scan(t, maj, Unplaced(t, maj, cutoff + 1), cutoff + 1));
    }
    CutoffPlaced(t, maj, cutoff);
    CombineCutoffs(head, tail, MajorityPlaces(t, maj), t.n, cutoff);
  }

  /** When nobody is left unplaced, or the cutoffs are exhausted, nobody has a majority place still to come. */
  lemma NothingLeft(t: Table, maj: nat, cutoff: nat)
    requires ValidTable(t) && (|Unplaced(t, maj, cutoff)| == 0 || cutoff > t.n)
    ensures Flatten(Scan(t, maj, Unplaced(t, maj, cutoff), cutoff)) == []
    ensures PlacedFrom([], MajorityPlaces(t, maj), t.n, cutoff)
    ensures ScanPlaced(t, maj, cutoff)
  {
    if cutoff <= t.n {
      IotaFacts(t.n);
      assert forall c: nat :: c < t.n && cutoff <= MajorityPlaces(t, maj)[c] ==> c in Unplaced(t, maj, cutoff);
    }
  }

  /** The competitors placed at a cutoff are each placed once and are exactly those whose majority place it is. */
  lemma CutoffPlaced(t: Table, maj: nat, cutoff: nat)
    requires ValidTable(t) && 1 <= cutoff <= t.n
    ensures var head := Flatten(PlaceCutoff(t, maj, cutoff, WithMajority(t, maj, Unplaced(t, maj, cutoff), cutoff)));
      && Distinct(head) && Below(head, t.n)
      && forall c: nat :: c in head <==> c < t.n && MajorityPlaces(t, maj)[c] == cutoff
  {
    var wm := WithMajority(t, maj, Unplaced(t, maj, cutoff), cutoff);
    var head := Flatten(PlaceCutoff(t, maj, cutoff, wm));
    WithMajorityAt(t, maj, cutoff);
    PlaceCutoffPermutation(t, maj, cutoff, wm);
    PermutationDistinct(head, wm);
    BelowPermutation(head, wm, t.n);
    forall c: nat ensures c in head <==> c in wm {
      assert c in head <==> c in multiset(head);
      assert c in wm <==> c in multiset(wm);
    }
  }

  /** The competitors placed at one cutoff, followed by those placed at later ones. */
  lemma CombineCutoffs(head: seq<nat>, tail: seq<nat>, key: seq<int>, n: nat, cutoff: nat)
    requires |key| == n && cutoff <= n
    requires Distinct(head) && Below(head, n) && forall c: nat :: c in head <==> c < n && key[c] == cutoff
    requires PlacedFrom(tail, key, n, cutoff + 1)
    ensures PlacedFrom(head + tail, key, n, cutoff)
  {
    DistinctAppend(head, tail);
    assert forall i :: 0 <= i < |head| ==> key[head[i]] == cutoff by {
      forall i | 0 <= i < |head| ensures key[head[i]] == cutoff {
        assert head[i] in head;
      }
    }
    assert forall k :: 0 <= k < |tail| ==> key[tail[k]] > cutoff by {
      forall k | 0 <= k < |tail| ensures key[tail[k]] > cutoff {
        assert tail[k] in tail;
      }
    }
    NonDecreasingAppend(head, tail, key);
  }

  /** Every entry is one competitor or a tie of at least two. */
  predicate TiesOfTwoOrMore(es: seq<Entry<nat>>)
  {
    forall e :: 0 <= e < |es| ==> es[e].Single? || |es[e].names| >= 2
  }

  lemma TiesOfTwoOrMoreAppend(a: seq<Entry<nat>>, b: seq<Entry<nat>>)
    requires TiesOfTwoOrMore(a) && TiesOfTwoOrMore(b)
    ensures TiesOfTwoOrMore(a + b)
  {
    assert forall e :: |a| <= e < |a + b| ==> (a + b)[e] == b[e - |a|];
  }

  /** Entries that are never empty flatten to at least one name each. */
  lemma {:induction false} FlattenCovers(es: seq<Entry<nat>>)
    requires TiesOfTwoOrMore(es)
    ensures |Flatten(es)| >= |es|
  {
    if |es| > 0 {
      assert TiesOfTwoOrMore(es[1..]) by {
        assert forall e :: 0 <= e < |es[1..]| ==> es[1..][e] == es[e + 1];
      }
      FlattenCovers(es[1..]);
    }
  }

  lemma {:induction false} ScanShape(t: Table, maj: nat, unplaced: set<nat>, cutoff: nat)
    requires ValidTable(t)
    ensures TiesOfTwoOrMore(Scan(t, maj, unplaced, cutoff))
    decreases t.n + 1 - cutoff
  {
    if |unplaced| > 0 && cutoff <= t.n {
      ScanShape(t, maj, unplaced - (set c | c in WithMajority(t, maj, unplaced, cutoff)), cutoff + 1);
    }
    ScanShapeStep(t, maj, unplaced, cutoff);
  }

  /** One cutoff of ScanShape, given the shape of the later cutoffs' entries. */
  lemma ScanShapeStep(t: Table, maj: nat, unplaced: set<nat>, cutoff: nat)
    requires ValidTable(t)
    requires |unplaced| > 0 && cutoff <= t.n ==>
      TiesOfTwoOrMore(Scan(t, maj, unplaced - (set c | c in WithMajority(t, maj, unplaced, cutoff)), cutoff + 1))
    ensures TiesOfTwoOrMore(Scan(t, maj, unplaced, cutoff))
  {
    if |unplaced| > 0 && cutoff <= t.n {
      var wm := WithMajority(t, maj, unplaced, cutoff);
      ScanUnfold(t, maj, unplaced, cutoff);
      PlaceCutoffShape(t, maj, cutoff, wm);
      TiesOfTwoOrMoreAppend(PlaceCutoff(t, maj, cutoff, wm), Scan(t, maj, unplaced - (set c | c in wm), cutoff + 1));
    }
  }

  /** Nobody is unplaced before the first cutoff. */
  lemma UnplacedAtStart(t: Table, maj: nat)
    requires ValidTable(t)
    ensures Unplaced(t, maj, 1) == set c | c in Iota(t.n)
  {
    IotaFacts(t.n);
    forall c: nat | c < t.n ensures MajorityPlaces(t, maj)[c] >= 1 {
      FirstMajorityFacts(t, maj, c, 1);
    }
  }

  /** The ranking `calculate` builds when every placement is in range: the scan from cutoff 1 with everyone unplaced. */
  lemma CalculateEntries(t: Table)
    requires ValidTable(t) && InRange(t)
    ensures Calculate(t).Success?
    ensures Calculate(t).value.entries == Scan(t, Majority(M(t)), Unplaced(t, Majority(M(t)), 1), 1)
  {
    var maj := Majority(M(t));
    var everyone := set c | c in Iota(t.n);
    var start := Unplaced(t, maj, 1);
    UnplacedAtStart(t, maj);
    assert start == everyone;
    assert Calculate(t).value.entries == Scan(t, maj, everyone, 1);
  }

  /** The result is ordered by majority place, each competitor at most once, and every tie has two or more. */
  lemma CalculateOrdered(t: Table)
    requires ValidTable(t) && InRange(t)
    ensures Calculate(t).Success?
    ensures Distinct(Flatten(Calculate(t).value.entries)) && Below(Flatten(Calculate(t).value.entries), t.n)
    ensures NonDecreasing(Flatten(Calculate(t).value.entries), MajorityPlaces(t, Majority(M(t))))
    ensures TiesOfTwoOrMore(Calculate(t).value.entries)
  {
    var maj := Majority(M(t));
    CalculateEntries(t);
    ScanFacts(t, maj, 1);
    ScanShape(t, maj, Unplaced(t, maj, 1), 1);
  }

  /** With at least one judge, everyone reaches a majority by the last place, so everyone is ranked exactly once. */
  lemma CalculateRanksEveryone(t: Table)
    requires ValidTable(t) && InRange(t) && M(t) >= 1
    ensures Calculate(t).Success?
    ensures multiset(Flatten(Calculate(t).value.entries)) == multiset(Iota(t.n))
  {
    var maj := Majority(M(t));
    var key := MajorityPlaces(t, maj);
    CalculateEntries(t);
    var r := Flatten(Scan(t, maj, Unplaced(t, maj, 1), 1));
    ScanFacts(t, maj, 1);
    assert Distinct(r);
    forall c: nat | c < t.n ensures c in r {
      AtOrBetterLast(t, c);
      FirstMajorityFacts(t, maj, c, 1);
    }
    IotaFacts(t.n);
    DistinctSameElements(r, Iota(t.n));
  }

  /** With no judges every count is zero, so nobody has a majority place within the field. */
  lemma NoMajorityWithoutJudges(t: Table, maj: nat)
    requires ValidTable(t) && M(t) == 0 && maj >= 1
    ensures forall c :: 0 <= c < t.n ==> MajorityPlaces(t, maj)[c] == t.n + 1
  {
    forall c: nat | c < t.n ensures FirstMajority(t, maj, c, 1) == t.n + 1 {
      assert AtOrBetter(t, c, t.n) == 0;
      FirstMajorityFacts(t, maj, c, 1);
    }
  }

  /** With no judges nobody can reach a majority, so the ranking is empty. */
  lemma CalculateNoJudges(t: Table)
    requires ValidTable(t) && InRange(t) && M(t) == 0
    ensures Calculate(t).Success? && Calculate(t).value.entries == []
  {
    var maj := Majority(M(t));
    CalculateEntries(t);
    var es := Scan(t, maj, Unplaced(t, maj, 1), 1);
    var r := Flatten(es);
    ScanFacts(t, maj, 1);
    ScanShape(t, maj, Unplaced(t, maj, 1), 1);
    NoMajorityWithoutJudges(t, maj);
    assert PlacedFrom(r, MajorityPlaces(t, maj), t.n, 1);
    assert forall c: nat :: c !in r;
    DistinctSameElements(r, []);
    FlattenCovers(es);
  }

  // ---------------------------------------------------------------------------
  // The tiebreak rules

  /** Nobody among the candidates has a majority yet: the cutoff advances with the same candidates. */
  lemma ResolveNoMajorityYet(t: Table, cands: seq<nat>, cutoff: nat, maj: nat)
    requires ValidTable(t) && Below(cands, t.n) && |cands| > 1 && cutoff <= t.n
    requires forall c <- cands :: AtOrBetter(t, c, cutoff) < maj
    ensures Resolve(t, cands, cutoff, maj) == Resolve(t, cands, cutoff + 1, maj)
  {
    FilterNone(cands, HasMajority(t, maj, cutoff));
  }

  /**
   A candidate holding a majority at the cutoff with strictly more judges than
   every other candidate takes the place there: by majority when nobody else
   has one, by greater majority otherwise.
   */
  lemma ResolveClearLeader(t: Table, cands: seq<nat>, cutoff: nat, maj: nat, w: nat)
    requires ValidTable(t) && Below(cands, t.n) && Distinct(cands) && |cands| > 1 && cutoff <= t.n
    requires w in cands && AtOrBetter(t, w, cutoff) >= maj
    requires forall c <- cands :: c != w ==> AtOrBetter(t, c, cutoff) < AtOrBetter(t, w, cutoff)
    ensures Resolve(t, cands, cutoff, maj).pick == Winner(w)
    ensures Resolve(t, cands, cutoff, maj).rule
         == if forall c <- cands :: c != w ==> AtOrBetter(t, c, cutoff) < maj then ByMajority else ByGreaterMajority
  {
    var wm := Majors(t, cands, cutoff, maj);
    assert w in wm;
    if forall c <- cands :: c != w ==> AtOrBetter(t, c, cutoff) < maj {
      forall c <- wm ensures c == w {
        assert c in cands;
      }
      FilterOnly(cands, HasMajority(t, maj, cutoff), w);
    } else {
      var other :| other in cands && other != w && AtOrBetter(t, other, cutoff) >= maj;
      assert other in wm;
      TwoMembers(wm, w, other);
      forall c <- wm | c != w ensures AtOrBetter(t, c, cutoff) < AtOrBetter(t, w, cutoff) {
        assert c in cands;
      }
      GreaterMajorityStep(t, wm, cutoff, w);
    }
  }

  /** The tiebreak pass behind ResolveClearLeader when others hold a majority too. */
  lemma GreaterMajorityStep(t: Table, wm: seq<nat>, cutoff: nat, w: nat)
    requires ValidTable(t) && Below(wm, t.n) && Distinct(wm) && |wm| > 1 && w in wm
    requires forall c <- wm :: c != w ==> AtOrBetter(t, c, cutoff) < AtOrBetter(t, w, cutoff)
    ensures AtCutoff(t, wm, cutoff) == Decided(Resolution(Winner(w), ByGreaterMajority))
  {
    var counts := CountsAt(t, cutoff);
    MaxKeyOf(wm, counts, w);
    FilterOnly(wm, HasKey(counts, counts[w]), w);
  }

  /**
   When the greatest count at the cutoff is shared, the candidate among those
   sharing it with the strictly best (lowest) quality of majority takes the place.
   */
  lemma ResolveQuality(t: Table, cands: seq<nat>, cutoff: nat, maj: nat, w: nat)
    requires ValidTable(t) && Below(cands, t.n) && Distinct(cands) && |cands| > 1 && cutoff <= t.n
    requires w in cands && AtOrBetter(t, w, cutoff) >= maj
    requires forall c <- cands :: AtOrBetter(t, c, cutoff) <= AtOrBetter(t, w, cutoff)
    requires exists c <- cands :: c != w && AtOrBetter(t, c, cutoff) == AtOrBetter(t, w, cutoff)
    requires forall c <- cands :: c != w && AtOrBetter(t, c, cutoff) == AtOrBetter(t, w, cutoff)
                                  ==> Quality(t, c, cutoff) > Quality(t, w, cutoff)
    ensures Resolve(t, cands, cutoff, maj) == Resolution(Winner(w), ByQuality)
  {
    var wm := Majors(t, cands, cutoff, maj);
    var other :| other in cands && other != w && AtOrBetter(t, other, cutoff) == AtOrBetter(t, w, cutoff);
    assert w in wm && other in wm;
    TwoMembers(wm, w, other);
    QualityStep(t, wm, cutoff, w, other);
  }

  /** The tiebreak pass behind ResolveQuality, on the candidates with majority. */
  lemma QualityStep(t: Table, wm: seq<nat>, cutoff: nat, w: nat, other: nat)
    requires ValidTable(t) && Below(wm, t.n) && Distinct(wm)
    requires w in wm && other in wm && other != w && |wm| > 1
    requires AtOrBetter(t, other, cutoff) == AtOrBetter(t, w, cutoff)
    requires forall c <- wm :: AtOrBetter(t, c, cutoff) <= AtOrBetter(t, w, cutoff)
    requires forall c <- wm :: c != w && AtOrBetter(t, c, cutoff) == AtOrBetter(t, w, cutoff)
                               ==> Quality(t, c, cutoff) > Quality(t, w, cutoff)
    ensures AtCutoff(t, wm, cutoff) == Decided(Resolution(Winner(w), ByQuality))
  {
    var counts := CountsAt(t, cutoff);
    MaxKeyOf(wm, counts, w);
    var best := Filter(wm, HasKey(counts, counts[w]));
    FilterFacts(wm, HasKey(counts, counts[w]));
    FilterDistinct(wm, HasKey(counts, counts[w]));
    FilterBelow(wm, HasKey(counts, counts[w]), t.n);
    assert w in best && other in best;
    TwoMembers(best, w, other);
    var quality := Qualities(t, cutoff);
    forall c <- best ensures quality[w] <= quality[c] && (c != w ==> !HasKey(quality, quality[w])(c)) {
      assert c in wm;
    }
    MinKeyOf(best, quality, w);
    FilterOnly(best, HasKey(quality, quality[w]), w);
  }

  /**
   Past the last cutoff two candidates go head-to-head: the one more judges
   place strictly ahead wins, and an even split leaves both tied.
   */
  lemma ResolveHeadToHead(t: Table, a: nat, b: nat, cutoff: nat, maj: nat)
    requires ValidTable(t) && a < t.n && b < t.n && cutoff > t.n
    ensures Resolve(t, [a, b], cutoff, maj).rule == ByHeadToHead
    ensures var ahead := Count(M(t), (j: nat) => StrictlyAhead(t, j, a, b));
            Resolve(t, [a, b], cutoff, maj).pick
            == if 2 * ahead > M(t) then Winner(a) else if 2 * ahead < M(t) then Winner(b) else Tie([a, b])
  {
  }

  /** Past the last cutoff three or more candidates stay tied. */
  lemma ResolveUnresolved(t: Table, cands: seq<nat>, cutoff: nat, maj: nat)
    requires ValidTable(t) && Below(cands, t.n) && |cands| > 2 && cutoff > t.n
    ensures Resolve(t, cands, cutoff, maj) == Resolution(Tie(cands), UnresolvedTie)
  {
  }

  /** The rules that hand a place to a candidate for the majority they hold. */
  predicate MajorityRule(rule: Rule)
  {
    rule == ByMajority || rule == ByGreaterMajority || rule == ByQuality
  }

  /** A place decided by a majority rule went to a competitor holding a majority by the last place. */
  predicate WonOnMajority(t: Table, r: Resolution, maj: nat)
    requires ValidTable(t)
  {
    MajorityRule(r.rule) ==> r.pick.Winner? && r.pick.c < t.n && AtOrBetter(t, r.pick.c, t.n) >= maj
  }

  /** A place decided by majority, greater majority or quality goes to a candidate holding a majority by the last place. */
  lemma {:induction false} ResolveWinnerHasMajority(t: Table, cands: seq<nat>, cutoff: nat, maj: nat)
    requires ValidTable(t) && Below(cands, t.n)
    ensures WonOnMajority(t, Resolve(t, cands, cutoff, maj), maj)
    decreases t.n + 1 - cutoff
  {
    if |cands| > 1 && cutoff <= t.n {
      var wm := Majors(t, cands, cutoff, maj);
      ResolveWinnerHasMajority(t, cands, cutoff + 1, maj);
      if |wm| > 0 && AtCutoff(t, wm, cutoff).Narrowed? {
        ResolveWinnerHasMajority(t, AtCutoff(t, wm, cutoff).rest, cutoff + 1, maj);
      }
    }
    ResolveMajorityStep(t, cands, cutoff, maj);
  }

  /** One cutoff of ResolveWinnerHasMajority, given the property for the later cutoffs. */
  lemma ResolveMajorityStep(t: Table, cands: seq<nat>, cutoff: nat, maj: nat)
    requires ValidTable(t) && Below(cands, t.n)
    requires |cands| > 1 && cutoff <= t.n ==> WonOnMajority(t, Resolve(t, cands, cutoff + 1, maj), maj)
    requires |cands| > 1 && cutoff <= t.n && |Majors(t, cands, cutoff, maj)| > 0
             && AtCutoff(t, Majors(t, cands, cutoff, maj), cutoff).Narrowed?
             ==> WonOnMajority(t, Resolve(t, AtCutoff(t, Majors(t, cands, cutoff, maj), cutoff).rest, cutoff + 1, maj), maj)
    ensures WonOnMajority(t, Resolve(t, cands, cutoff, maj), maj)
  {
    if |cands| > 1 && cutoff <= t.n {
      var wm := Majors(t, cands, cutoff, maj);
      if |wm| > 0 {
        var s := AtCutoff(t, wm, cutoff);
        if s.Decided? {
          AtOrBetterMonotone(t, s.resolution.pick.c, cutoff, t.n);
        }
      }
    } else {
      assert Resolve(t, cands, cutoff, maj) == Fallback(t, cands);
    }
  }

  // ---------------------------------------------------------------------------
  // The scoresheet

  /** Judge `judges[j]` has placed competitor `competitors[c]`, at a place that exists. */
  predicate Usable(s: Scoresheet, j: nat, c: nat)
    requires j < |s.judges| && c < |s.competitors|
  {
    GetPlacement(s, s.judges[j], s.competitors[c]).Some?
    && GetPlacement(s, s.judges[j], s.competitors[c]).value <= |s.competitors|
  }

  /** Every placement is present and in range. */
  predicate Sound(s: Scoresheet)
  {
    forall j, c :: 0 <= j < |s.judges| && 0 <= c < |s.competitors| ==> Usable(s, j, c)
  }

  /** The first fault met tallying competitor c, visiting the judges from j on in order. */
  function JudgeFault(s: Scoresheet, c: nat, j: nat): (r: Option<Error>)
    requires c < |s.competitors|
    ensures r.None? <==> forall k :: j <= k < |s.judges| ==> Usable(s, k, c)
    decreases |s.judges| - j
  {
    if j >= |s.judges| then None
    else
      match GetPlacement(s, s.judges[j], s.competitors[c])
      case None =>
        assert !Usable(s, j, c);
        Some(MissingPlacement)
      case Some(p) =>
        if p > |s.competitors| then
          assert !Usable(s, j, c);
          Some(PlacementOutOfRange)
        else JudgeFault(s, c, j + 1)
  }

  /**
   The first fault `_compute_cumulative_counts` meets, visiting competitors
   from c on in order and each competitor's judges in order: a missing
   placement, or a placement with no slot in the tally.
   */
  function CompetitorFault(s: Scoresheet, c: nat): (r: Option<Error>)
    ensures r.None? <==> forall k, j :: c <= k < |s.competitors| && 0 <= j < |s.judges| ==> Usable(s, j, k)
    decreases |s.competitors| - c
  {
    if c >= |s.competitors| then None
    else
      match JudgeFault(s, c, 0)
      case Some(e) => Some(e)
      case None => CompetitorFault(s, c + 1)
  }

  /** A reported fault is real: a missing placement is missing, and an out-of-range one is out of range. */
  lemma {:induction false} FaultIsReal(s: Scoresheet, c: nat)
    ensures CompetitorFault(s, c) == Some(MissingPlacement) ==> !Complete(s)
    ensures CompetitorFault(s, c) == Some(PlacementOutOfRange) ==>
      exists j, k :: 0 <= j < |s.judges| && 0 <= k < |s.competitors| && GetPlacement(s, s.judges[j], s.competitors[k]).Some?
                     && GetPlacement(s, s.judges[j], s.competitors[k]).value > |s.competitors|
    decreases |s.competitors| - c
  {
    if c < |s.competitors| {
      if JudgeFault(s, c, 0).None? {
        FaultIsReal(s, c + 1);
      } else {
        JudgeFaultIsReal(s, c, 0);
      }
    }
  }

  lemma {:induction false} JudgeFaultIsReal(s: Scoresheet, c: nat, j: nat)
    requires c < |s.competitors|
    ensures JudgeFault(s, c, j) == Some(MissingPlacement) ==> !Complete(s)
    ensures JudgeFault(s, c, j) == Some(PlacementOutOfRange) ==>
      exists k :: 0 <= k < |s.judges| && GetPlacement(s, s.judges[k], s.competitors[c]).Some?
                  && GetPlacement(s, s.judges[k], s.competitors[c]).value > |s.competitors|
    decreases |s.judges| - j
  {
    if j < |s.judges| && GetPlacement(s, s.judges[j], s.competitors[c]).Some?
       && GetPlacement(s, s.judges[j], s.competitors[c]).value <= |s.competitors| {
      JudgeFaultIsReal(s, c, j + 1);
    }
  }

  /** On a complete sheet the only possible fault is a placement out of range. */
  lemma {:induction false} CompleteFault(s: Scoresheet, c: nat)
    requires Complete(s)
    ensures CompetitorFault(s, c) != Some(MissingPlacement)
    decreases |s.competitors| - c
  {
    if c < |s.competitors| {
      CompleteJudgeFault(s, c, 0);
      CompleteFault(s, c + 1);
    }
  }

  lemma {:induction false} CompleteJudgeFault(s: Scoresheet, c: nat, j: nat)
    requires Complete(s) && c < |s.competitors|
    ensures JudgeFault(s, c, j) != Some(MissingPlacement)
    decreases |s.judges| - j
  {
    if j < |s.judges| {
      CompleteJudgeFault(s, c, j + 1);
    }
  }

  /** A sound sheet is complete and its table has every placement in range. */
  lemma SoundTable(s: Scoresheet)
    requires Sound(s)
    ensures Complete(s) && InRange(ToTable(s))
  {
    forall j, c | 0 <= j < |s.judges| && 0 <= c < |s.competitors|
      ensures GetPlacement(s, s.judges[j], s.competitors[c]).Some?
    {
      assert Usable(s, j, c);
    }
    var t := ToTable(s);
    forall j, c | 0 <= j < M(t) && 0 <= c < t.n ensures t.rows[j][c] <= t.n {
      assert Usable(s, j, c);
    }
  }

  /**
   Relative Placement on a scoresheet: the first fault met while tallying is
   raised; otherwise the ranking, with competitors named, ranks each of them
   once provided there is at least one judge.
   */
  function CalculateSheet(s: Scoresheet): (r: Result<seq<Placement<Id>>>)
    ensures r.Success? <==> Sound(s)
    ensures r.Failure? && r.error == MissingPlacement ==> !Complete(s)
    ensures Complete(s) && r.Failure? ==> r.error == PlacementOutOfRange
    ensures r.Success? && |s.judges| >= 1 ==> multiset(Names(r.value)) == multiset(s.competitors)
    ensures r.Success? && |s.judges| == 0 ==> r.value == []
  {
    match CompetitorFault(s, 0)
    case Some(e) =>
      FaultIsReal(s, 0);
      if Complete(s) then
        CompleteFault(s, 0);
        assert e != MissingPlacement;
        Failure(e)
      else Failure(e)
    case None =>
      SoundTable(s);
      var t := ToTable(s);
      CalculateOrdered(t);
      var es := Calculate(t).value.entries;
      if |s.judges| >= 1 then
        CalculateRanksEveryone(t);
        PublishPermutation(es, s.competitors);
        Success(Publish(es, s.competitors))
      else
        CalculateNoJudges(t);
        Success(Publish(es, s.competitors))
  }
}
