/**
 Judge counting shared by Relative Placement and Sequential IRV: the
 majority threshold and the head-to-head comparison of two competitors
 (core/voting/relative_placement.py and core/voting/sequential_irv.py).
 */
module Tally {
  import opened Seqs
  import opened Models

  /** m//2 + 1: the smallest number of judges that is more than half of m. */
  function Majority(m: nat): (k: nat)
    ensures 2 * k > m && 2 * (k - 1) <= m
    ensures k >= 1
  {
    m / 2 + 1
  }

  lemma MajorityExamples()
    ensures Majority(3) == 2 && Majority(5) == 3 && Majority(7) == 4 && Majority(4) == 3 && Majority(1) == 1
  {
  }

  /** Two disjoint groups of judges cannot both hold a majority. */
  lemma MajorityUnique(m: nat, x: nat, y: nat)
    requires x + y <= m && x >= Majority(m)
    ensures y < Majority(m)
  {
  }

  /** Judge j places a strictly ahead of b. */
  predicate StrictlyAhead(t: Table, j: nat, a: nat, b: nat)
    requires ValidTable(t) && a < t.n && b < t.n
  {
    j < M(t) && t.rows[j][a] < t.rows[j][b]
  }

  /** Judge j gives a and b the same placement. */
  predicate Level(t: Table, j: nat, a: nat, b: nat)
    requires ValidTable(t) && a < t.n && b < t.n
  {
    j < M(t) && t.rows[j][a] == t.rows[j][b]
  }

  /** Counts of a head-to-head comparison and its winner, None on a draw. */
  datatype HeadToHeadResult = HeadToHeadResult(aCount: nat, bCount: nat, winner: Option<nat>)

  /**
   a's count is the judges placing a strictly ahead of b; b gets every other
   judge, including those who gave both the same placement.
   */
  function HeadToHead(t: Table, a: nat, b: nat): (h: HeadToHeadResult)
    requires ValidTable(t) && a < t.n && b < t.n
    ensures h.aCount + h.bCount == M(t)
    ensures h.aCount == Count(M(t), (j: nat) => StrictlyAhead(t, j, a, b))
    ensures h.winner.None? <==> h.aCount == h.bCount
    ensures h.aCount > h.bCount ==> h.winner == Some(a)
    ensures h.bCount > h.aCount ==> h.winner == Some(b)
  {
    var aBetter := Count(M(t), (j: nat) => StrictlyAhead(t, j, a, b));
    var bBetter := M(t) - aBetter;
    var winner :=
      if aBetter > bBetter then Some(a)
      else if bBetter > aBetter then Some(b)
      else None;
    HeadToHeadResult(aBetter, bBetter, winner)
  }

  /** b's count is the judges placing b strictly ahead plus the judges placing both equally. */
  lemma HeadToHeadTiesCountForB(t: Table, a: nat, b: nat)
    requires ValidTable(t) && a < t.n && b < t.n
    ensures HeadToHead(t, a, b).bCount
         == Count(M(t), (j: nat) => StrictlyAhead(t, j, b, a)) + Count(M(t), (j: nat) => Level(t, j, a, b))
  {
    var ahead := (j: nat) => StrictlyAhead(t, j, a, b);
    var notAhead := (j: nat) => !StrictlyAhead(t, j, a, b);
    var behind := (j: nat) => StrictlyAhead(t, j, b, a);
    var level := (j: nat) => Level(t, j, a, b);
    CountComplement(M(t), ahead, notAhead);
    CountDisjointUnion(M(t), behind, level, notAhead);
  }

  /** Without equal placements, swapping the two sides gives the same winner. */
  lemma HeadToHeadSymmetric(t: Table, a: nat, b: nat)
    requires ValidTable(t) && a < t.n && b < t.n && a != b
    requires forall j :: 0 <= j < M(t) ==> t.rows[j][a] != t.rows[j][b]
    ensures HeadToHead(t, b, a).aCount == HeadToHead(t, a, b).bCount
    ensures HeadToHead(t, b, a).winner == HeadToHead(t, a, b).winner
  {
    HeadToHeadTiesCountForB(t, a, b);
    CountNoneOf(M(t), (j: nat) => Level(t, j, a, b));
  }
}
