/**
 Vote counting for Sequential IRV (core/voting/sequential_irv.py): each
 judge's preference among the candidates still active, the first-choice
 tally of an IRV round and the counts at later preference levels that the
 elimination tiebreak consults.

 A set of candidates is a sequence of distinct competitor numbers; its
 order stands for the order in which Python happens to iterate the set.
 */
module IrvVotes {
  import opened Seqs
  import opened Models
  import opened Tally

  /** Distinct competitor numbers of the table. */
  predicate Candidates(t: Table, xs: seq<nat>)
  {
    Distinct(xs) && Below(xs, t.n)
  }

  /** Holds of the members of xs. */
  function InSeq(xs: seq<nat>): nat -> bool
  {
    (c: nat) => c in xs
  }

  /** Removing one candidate from a set. */
  function Without(xs: seq<nat>, x: nat): (r: seq<nat>)
    ensures forall c :: c in r <==> c in xs && c != x
    ensures Distinct(xs) ==> Distinct(r)
    ensures Distinct(xs) && x in xs ==> |r| == |xs| - 1
    ensures forall bound: nat :: Below(xs, bound) ==> Below(r, bound)
  {
    WithoutFacts(xs, x);
    Filter(xs, NotIn([x]))
  }

  lemma WithoutFacts(xs: seq<nat>, x: nat)
    ensures var r := Filter(xs, NotIn([x]));
      && (forall c :: c in r <==> c in xs && c != x)
      && (Distinct(xs) ==> Distinct(r))
      && (Distinct(xs) && x in xs ==> |r| == |xs| - 1)
      && (forall bound: nat :: Below(xs, bound) ==> Below(r, bound))
  {
    FilterFacts(xs, NotIn([x]));
    if Distinct(xs) {
      FilterDistinct(xs, NotIn([x]));
    }
    if Distinct(xs) && x in xs {
      FilterNotIn(xs, [x]);
      assert |multiset(Filter(xs, NotIn([x])))| + 1 == |multiset(xs)|;
    }
    forall bound: nat | Below(xs, bound) ensures Below(Filter(xs, NotIn([x])), bound) {
      FilterBelow(xs, NotIn([x]), bound);
    }
  }

  /** Filtering a sequence ordered by key keeps it ordered by key. */
  lemma {:induction false} FilterNonDecreasing(xs: seq<nat>, p: nat -> bool, key: seq<int>)
    requires Below(xs, |key|) && NonDecreasing(xs, key)
    ensures Below(Filter(xs, p), |key|) && NonDecreasing(Filter(xs, p), key)
  {
    FilterBelow(xs, p, |key|);
    if |xs| > 0 {
      var rest := Filter(xs[1..], p);
      FilterNonDecreasing(xs[1..], p, key);
      if p(xs[0]) {
        FilterFacts(xs[1..], p);
        forall k | 0 <= k < |rest| ensures key[xs[0]] <= key[rest[k]] {
          assert rest[k] in xs[1..];
          var i :| 0 <= i < |xs[1..]| && xs[1..][i] == rest[k];
          assert xs[i + 1] == rest[k];
        }
        NonDecreasingAppend([xs[0]], rest, key);
      }
    }
  }

  /**
   Judge j's ranking (core/models.py get_judge_ranking) restricted to the
   active candidates: each active candidate once, best placement first.
   */
  function ActiveRanking(t: Table, j: nat, active: seq<nat>): (r: seq<nat>)
    requires ValidTable(t) && j < M(t) && Candidates(t, active)
    ensures multiset(r) == multiset(active) && |r| == |active|
    ensures Candidates(t, r)
    ensures forall i, k :: 0 <= i < k < |r| ==> t.rows[j][r[i]] <= t.rows[j][r[k]]
  {
    var all := JudgeRanking(t, j);
    var r := Filter<nat>(all, InSeq(active));
    RestrictedRanking(t, j, active);
    assert |r| == |multiset(r)| == |multiset(active)| == |active|;
    PermutationDistinct(r, active);
    assert NonDecreasing(all, t.rows[j]);
    FilterNonDecreasing(all, InSeq(active), t.rows[j]);
    r
  }

  lemma RestrictedRanking(t: Table, j: nat, active: seq<nat>)
    requires ValidTable(t) && j < M(t) && Candidates(t, active)
    ensures multiset(Filter<nat>(JudgeRanking(t, j), InSeq(active))) == multiset(active)
  {
    var all: seq<nat> := JudgeRanking(t, j);
    var r: seq<nat> := Filter<nat>(all, InSeq(active));
    JudgeRankingMembers(t, j);
    DistinctMultiset<nat>(all);
    DistinctMultiset<nat>(active);
    forall x: nat ensures multiset(r)[x] == multiset(active)[x] {
      FilterCount<nat>(all, InSeq(active), x);
      if x in active {
        var i :| 0 <= i < |active| && active[i] == x;
        assert x < t.n;
      }
    }
    MultisetExt<nat>(multiset(r), multiset(active));
  }

  /** The judge's first choice among the active candidates is placed no worse than any of them. */
  lemma FirstChoiceBest(t: Table, j: nat, active: seq<nat>, c: nat)
    requires ValidTable(t) && j < M(t) && Candidates(t, active) && c in active
    ensures |ActiveRanking(t, j, active)| > 0
    ensures t.rows[j][ActiveRanking(t, j, active)[0]] <= t.rows[j][c]
  {
    var r := ActiveRanking(t, j, active);
    assert c in multiset(active);
    var i :| 0 <= i < |r| && r[i] == c;
  }

  /** Holds of the judges who place c strictly ahead of every other active candidate. */
  function PlacesOnTop(t: Table, active: seq<nat>, c: nat): nat -> bool
    requires ValidTable(t) && Candidates(t, active)
  {
    (j: nat) => j < M(t) && c < t.n && forall d <- active :: d != c ==> t.rows[j][c] < t.rows[j][d]
  }

  /** A judge who places c strictly ahead of the other active candidates gives c the first-choice vote. */
  lemma TopChoice(t: Table, active: seq<nat>, c: nat, j: nat)
    requires ValidTable(t) && Candidates(t, active) && c in active && PlacesOnTop(t, active, c)(j)
    ensures ChoiceAt(t, active, 0)(j) == Some(c)
  {
    FirstChoiceBest(t, j, active, c);
    var r := ActiveRanking(t, j, active);
    assert r[0] in multiset(active);
  }

  /** c has at least as many first-choice votes as there are judges placing it on top of the active candidates. */
  lemma TopVotes(t: Table, active: seq<nat>, c: nat)
    requires ValidTable(t) && Candidates(t, active) && c in active
    ensures LevelVotes(t, active, 0, c) >= Count(M(t), PlacesOnTop(t, active, c))
  {
    forall j | 0 <= j < M(t) && PlacesOnTop(t, active, c)(j) ensures Picks(ChoiceAt(t, active, 0), c)(j) {
      TopChoice(t, active, c, j);
    }
    CountMono(M(t), PlacesOnTop(t, active, c), Picks(ChoiceAt(t, active, 0), c));
  }

  /** Judge j's choice at preference level k (0 is the first choice), if there are that many candidates. */
  function ChoiceAt(t: Table, active: seq<nat>, k: nat): nat -> Option<nat>
    requires ValidTable(t) && Candidates(t, active)
  {
    (j: nat) => if j < M(t) && k < |active| then Some(ActiveRanking(t, j, active)[k]) else None
  }

  /** Holds of the judges whose choice is c. */
  function Picks(f: nat -> Option<nat>, c: nat): nat -> bool
  {
    (j: nat) => f(j) == Some(c)
  }

  /** Holds of the judges whose choice is one of xs. */
  function PicksOneOf(f: nat -> Option<nat>, xs: seq<nat>): nat -> bool
  {
    (j: nat) => f(j).Some? && f(j).value in xs
  }

  /**
   The judges whose choice at level k among the active candidates is c: at
   k = 0 the first-choice votes of an IRV round, at k = rank - 1 the
   rank counts of the elimination tiebreak.
   */
  function LevelVotes(t: Table, active: seq<nat>, k: nat, c: nat): (v: nat)
    requires ValidTable(t) && Candidates(t, active)
    ensures v <= M(t)
  {
    Count(M(t), Picks(ChoiceAt(t, active, k), c))
  }

  /** First-choice votes of every competitor number (zero for inactive ones), as a key. */
  function VoteKey(t: Table, active: seq<nat>): (key: seq<int>)
    requires ValidTable(t) && Candidates(t, active)
    ensures |key| == t.n
    ensures forall c :: 0 <= c < t.n ==> key[c] == LevelVotes(t, active, 0, c)
  {
    seq(t.n, c requires 0 <= c < t.n => LevelVotes(t, active, 0, c))
  }

  /** Counts at preference level k of every competitor number, as a key. */
  function LevelKey(t: Table, active: seq<nat>, k: nat): (key: seq<int>)
    requires ValidTable(t) && Candidates(t, active)
    ensures |key| == t.n
    ensures forall c :: 0 <= c < t.n ==> key[c] == LevelVotes(t, active, k, c)
  {
    seq(t.n, c requires 0 <= c < t.n => LevelVotes(t, active, k, c))
  }

  /** The counts of the judges picking each of xs, in the order of xs. */
  function CountsOf(n: nat, f: nat -> Option<nat>, xs: seq<nat>): (r: seq<int>)
    ensures |r| == |xs|
    ensures forall i :: 0 <= i < |xs| ==> r[i] == Count(n, Picks(f, xs[i]))
  {
    seq(|xs|, i requires 0 <= i < |xs| => Count(n, Picks(f, xs[i])))
  }

  /** Every judge picks at most one candidate, so the counts of distinct candidates add up. */
  lemma {:induction false} SumCountsOf(n: nat, f: nat -> Option<nat>, xs: seq<nat>)
    requires Distinct(xs)
    ensures Sum(CountsOf(n, f, xs)) == Count(n, PicksOneOf(f, xs))
  {
    if |xs| == 0 {
      CountNoneOf(n, PicksOneOf(f, xs));
    } else {
      var rest := xs[1..];
      assert CountsOf(n, f, xs)[1..] == CountsOf(n, f, rest);
      SumCountsOf(n, f, rest);
      assert xs[0] !in rest;
      assert forall c :: c in xs <==> c == xs[0] || c in rest;
      CountDisjointUnion(n, Picks(f, xs[0]), PicksOneOf(f, rest), PicksOneOf(f, xs));
    }
  }

  /**
   The first-choice votes over a non-empty active set add up to the number
   of judges: every judge votes for exactly one active candidate.
   */
  lemma VotesTotal(t: Table, active: seq<nat>)
    requires ValidTable(t) && Candidates(t, active) && |active| > 0
    ensures Sum(Gather(active, VoteKey(t, active))) == M(t)
  {
    var f := ChoiceAt(t, active, 0);
    var key := VoteKey(t, active);
    assert Gather(active, key) == CountsOf(M(t), f, active);
    SumCountsOf(M(t), f, active);
    forall j | 0 <= j < M(t) ensures PicksOneOf(f, active)(j) {
      JudgeVotes(t, active, j);
    }
    CountAll(M(t), PicksOneOf(f, active));
  }

  /** Each judge's first choice is one of the active candidates. */
  lemma JudgeVotes(t: Table, active: seq<nat>, j: nat)
    requires ValidTable(t) && Candidates(t, active) && |active| > 0 && j < M(t)
    ensures PicksOneOf(ChoiceAt(t, active, 0), active)(j)
  {
    var r := ActiveRanking(t, j, active);
    assert r[0] in multiset(active);
  }

  /** Two entries of a sequence of non-negative numbers add up to at most its sum. */
  lemma {:induction false} TwoWithinSum(xs: seq<int>, a: nat, b: nat)
    requires a < |xs| && b < |xs| && a != b
    requires forall i :: 0 <= i < |xs| ==> xs[i] >= 0
    ensures xs[a] + xs[b] <= Sum(xs)
  {
    if a != 0 && b != 0 {
      TwoWithinSum(xs[1..], a - 1, b - 1);
    } else {
      var o := if a == 0 then b else a;
      OneWithinSum(xs[1..], o - 1);
    }
  }

  lemma {:induction false} OneWithinSum(xs: seq<int>, a: nat)
    requires a < |xs|
    requires forall i :: 0 <= i < |xs| ==> xs[i] >= 0
    ensures xs[a] <= Sum(xs)
  {
    if a == 0 {
      SumLe(seq(|xs| - 1, i => 0), xs[1..]);
      SumZeros(|xs| - 1);
    } else {
      OneWithinSum(xs[1..], a - 1);
    }
  }

  /** Holds of the competitor numbers whose key reaches v. */
  function Reaching(key: seq<int>, v: int): nat -> bool
  {
    (c: nat) => c < |key| && key[c] >= v
  }

  /** At most one active candidate can hold a majority (m // 2 + 1) of first-choice votes. */
  lemma MajorityAlone(t: Table, active: seq<nat>, a: nat, b: nat)
    requires ValidTable(t) && Candidates(t, active)
    requires a in active && b in active && a != b
    requires LevelVotes(t, active, 0, a) >= Majority(M(t))
    ensures LevelVotes(t, active, 0, b) < Majority(M(t))
  {
    var key := VoteKey(t, active);
    var g := Gather(active, key);
    var ia :| 0 <= ia < |active| && active[ia] == a;
    var ib :| 0 <= ib < |active| && active[ib] == b;
    VotesTotal(t, active);
    TwoWithinSum(g, ia, ib);
    MajorityUnique(M(t), key[a], key[b]);
  }

  /** A majority candidate is the only active candidate that reaches the majority threshold. */
  lemma MajorityFilter(t: Table, active: seq<nat>, a: nat)
    requires ValidTable(t) && Candidates(t, active) && a in active
    requires LevelVotes(t, active, 0, a) >= Majority(M(t))
    ensures Filter(active, Reaching(VoteKey(t, active), Majority(M(t)))) == [a]
  {
    var p := Reaching(VoteKey(t, active), Majority(M(t)));
    forall x <- active | x != a ensures !p(x) {
      MajorityAlone(t, active, a, x);
    }
    FilterOnly(active, p, a);
  }

  /** Holds of the candidates with no first-choice vote among `active`. */
  function NoVotes(t: Table, active: seq<nat>): nat -> bool
    requires ValidTable(t) && Candidates(t, active)
  {
    (c: nat) => LevelVotes(t, active, 0, c) == 0
  }

  function SomeVotes(t: Table, active: seq<nat>): nat -> bool
    requires ValidTable(t) && Candidates(t, active)
  {
    (c: nat) => LevelVotes(t, active, 0, c) != 0
  }

  /** The first candidate of a filter also heads any narrower filter that keeps it. */
  lemma {:induction false} FilterHeadNarrower(xs: seq<nat>, p: nat -> bool, q: nat -> bool)
    requires forall x :: q(x) ==> p(x)
    requires |Filter(xs, p)| > 0 && q(Filter(xs, p)[0])
    ensures |Filter(xs, q)| > 0 && Filter(xs, q)[0] == Filter(xs, p)[0]
  {
    if !p(xs[0]) {
      FilterHeadNarrower(xs[1..], p, q);
    }
  }

  /** A judge who votes for c places a vote: c's tally is at least one. */
  lemma {:induction false} CountWitness(n: nat, p: nat -> bool, j: nat)
    requires j < n && p(j)
    ensures Count(n, p) >= 1
  {
    if j < n - 1 {
      CountWitness(n - 1, p, j);
    }
  }

  /**
   Excluding candidates with no first-choice votes changes no judge's first
   choice, so the remaining candidates keep their tallies: dropping them all
   at once in round 1 is the same as eliminating them one by one.
   */
  lemma ExclusionKeepsVotes(t: Table, active: seq<nat>, c: nat)
    requires ValidTable(t) && Candidates(t, active)
    ensures Candidates(t, Filter(active, SomeVotes(t, active)))
    ensures LevelVotes(t, Filter(active, SomeVotes(t, active)), 0, c) == LevelVotes(t, active, 0, c)
  {
    var kept := Filter(active, SomeVotes(t, active));
    FilterDistinct(active, SomeVotes(t, active));
    FilterBelow(active, SomeVotes(t, active), t.n);
    FilterFacts(active, SomeVotes(t, active));
    var f := ChoiceAt(t, active, 0);
    var g := ChoiceAt(t, kept, 0);
    forall j | 0 <= j < M(t) ensures f(j) == g(j) {
      if |active| > 0 {
        SameFirstChoice(t, active, j);
      }
    }
    CountExt(M(t), Picks(f, c), Picks(g, c));
  }

  /** A judge's first choice among `active` has a vote, so it survives the exclusion and stays first. */
  lemma SameFirstChoice(t: Table, active: seq<nat>, j: nat)
    requires ValidTable(t) && Candidates(t, active) && |active| > 0 && j < M(t)
    requires Candidates(t, Filter(active, SomeVotes(t, active)))
    ensures ChoiceAt(t, active, 0)(j) == ChoiceAt(t, Filter(active, SomeVotes(t, active)), 0)(j)
  {
    var kept := Filter(active, SomeVotes(t, active));
    var f := ChoiceAt(t, active, 0);
    var all := JudgeRanking(t, j);
    var w := ActiveRanking(t, j, active)[0];
    assert w in multiset(active);
    CountWitness(M(t), Picks(f, w), j);
    assert SomeVotes(t, active)(w);
    FilterFacts(active, SomeVotes(t, active));
    assert w in kept;
    assert forall x :: InSeq(kept)(x) ==> InSeq(active)(x);
    assert ActiveRanking(t, j, active) == Filter<nat>(all, InSeq(active));
    assert ActiveRanking(t, j, kept) == Filter<nat>(all, InSeq(kept));
    FilterHeadNarrower(all, InSeq(active), InSeq(kept));
    assert |kept| > 0;
    assert ChoiceAt(t, active, 0)(j) == Some(ActiveRanking(t, j, active)[0]);
    assert ChoiceAt(t, kept, 0)(j) == Some(ActiveRanking(t, j, kept)[0]);
  }
}
