/**
 The two shared scoresheets of the engine tests (tests/test_voting/conftest.py),
 in index form: competitors A, B, C, D are 0, 1, 2, 3 and row j is judge
 J(j+1). The expected results of the tests follow from the general lemmas of
 the engines; the helpers here only evaluate the literal tables, one row or
 one column at a time.
 */
module Fixtures {
  import opened Seqs
  import opened Models
  import opened Tally
  import Borda
  import Schulze
  import opened IrvVotes
  import SequentialIrv
  import IrvPlacements

  /** "Clear Winner": three judges who agree on A first and D last. */
  predicate ClearWinner(t: Table)
  {
    t.n == 4 && t.rows == [[1, 2, 3, 4], [1, 3, 2, 4], [2, 1, 3, 4]]
  }

  /** "Disagreement": five judges with no first-choice majority. */
  predicate Disagreement(t: Table)
  {
    t.n == 4 && t.rows == [[1, 2, 3, 4], [2, 1, 4, 3], [3, 4, 1, 2], [1, 3, 4, 2], [4, 1, 2, 3]]
  }

  /** A row holding 1, 2, 3 and 4 once each is a strict ballot over four competitors. */
  lemma FourPlaces(r: seq<int>)
    requires multiset(r) == multiset{1, 2, 3, 4}
    ensures multiset(r) == multiset(Places(4))
  {
    assert Places(4) == [1, 2, 3, 4];
  }

  lemma ClearWinnerValid(t: Table)
    requires ClearWinner(t)
    ensures ValidTable(t)
  {
  }

  lemma DisagreementValid(t: Table)
    requires Disagreement(t)
    ensures ValidTable(t)
  {
  }

  lemma ClearWinnerRow(t: Table, j: nat)
    requires ClearWinner(t) && j < 3
    ensures ValidTable(t) && StrictBallot(t, j)
  {
    ClearWinnerValid(t);
    var r := t.rows[j];
    if j == 0 { assert r == [1, 2, 3, 4]; }
    else if j == 1 { assert r == [1, 3, 2, 4]; }
    else { assert r == [2, 1, 3, 4]; }
    FourPlaces(r);
  }

  lemma DisagreementRow(t: Table, j: nat)
    requires Disagreement(t) && j < 5
    ensures ValidTable(t) && StrictBallot(t, j)
  {
    DisagreementValid(t);
    var r := t.rows[j];
    if j == 0 { assert r == [1, 2, 3, 4]; }
    else if j == 1 { assert r == [2, 1, 4, 3]; }
    else if j == 2 { assert r == [3, 4, 1, 2]; }
    else if j == 3 { assert r == [1, 3, 4, 2]; }
    else { assert r == [4, 1, 2, 3]; }
    FourPlaces(r);
  }

  /** Every judge of Clear Winner hands out the places 1 to 4 once each. */
  lemma ClearWinnerStrict(t: Table)
    requires ClearWinner(t)
    ensures ValidTable(t) && forall j :: 0 <= j < M(t) ==> StrictBallot(t, j)
  {
    ClearWinnerValid(t);
    forall j | 0 <= j < M(t) ensures StrictBallot(t, j) {
      ClearWinnerRow(t, j);
    }
  }

  /** Every judge of Disagreement hands out the places 1 to 4 once each. */
  lemma DisagreementStrict(t: Table)
    requires Disagreement(t)
    ensures ValidTable(t) && forall j :: 0 <= j < M(t) ==> StrictBallot(t, j)
  {
    DisagreementValid(t);
    forall j | 0 <= j < M(t) ensures StrictBallot(t, j) {
      DisagreementRow(t, j);
    }
  }

  /** The key of competitor c is the sum of its column of points. */
  lemma KeyAt(t: Table, c: nat, pts: seq<int>)
    requires ValidTable(t) && c < t.n
    requires |pts| == M(t) && forall j :: 0 <= j < M(t) ==> pts[j] == t.n - t.rows[j][c]
    ensures BordaKey(t)[c] == Sum(pts)
  {
    assert JudgePoints(t, c) == pts;
  }

  lemma ClearWinnerColumn(t: Table, c: nat)
    requires ClearWinner(t) && c < 4
    ensures ValidTable(t) && BordaKey(t)[c] == [8, 6, 4, 0][c]
  {
    ClearWinnerValid(t);
    if c == 0 { KeyAt(t, 0, [3, 3, 2]); }
    else if c == 1 { KeyAt(t, 1, [2, 1, 3]); }
    else if c == 2 { KeyAt(t, 2, [1, 2, 1]); }
    else { KeyAt(t, 3, [0, 0, 0]); }
  }

  lemma DisagreementColumn(t: Table, c: nat)
    requires Disagreement(t) && c < 4
    ensures ValidTable(t) && BordaKey(t)[c] == [9, 9, 6, 6][c]
  {
    if c < 2 { DisagreementFront(t, c); } else { DisagreementBack(t, c); }
  }

  lemma DisagreementFront(t: Table, c: nat)
    requires Disagreement(t) && c < 2
    ensures ValidTable(t) && BordaKey(t)[c] == 9
  {
    DisagreementValid(t);
    if c == 0 { KeyAt(t, 0, [3, 2, 1, 3, 0]); }
    else { KeyAt(t, 1, [2, 3, 0, 1, 3]); }
  }

  lemma DisagreementBack(t: Table, c: nat)
    requires Disagreement(t) && 2 <= c < 4
    ensures ValidTable(t) && BordaKey(t)[c] == 6
  {
    DisagreementValid(t);
    if c == 2 { KeyAt(t, 2, [1, 0, 3, 0, 2]); }
    else { KeyAt(t, 3, [0, 1, 2, 2, 1]); }
  }

  /** Sums of four minus the placement on Clear Winner. */
  lemma ClearWinnerKey(t: Table)
    requires ClearWinner(t)
    ensures ValidTable(t) && BordaKey(t) == [8, 6, 4, 0]
  {
    ClearWinnerValid(t);
    forall c | 0 <= c < 4 ensures BordaKey(t)[c] == [8, 6, 4, 0][c] {
      ClearWinnerColumn(t, c);
    }
  }

  /** Sums of four minus the placement on Disagreement. */
  lemma DisagreementKey(t: Table)
    requires Disagreement(t)
    ensures ValidTable(t) && BordaKey(t) == [9, 9, 6, 6]
  {
    DisagreementValid(t);
    forall c | 0 <= c < 4 ensures BordaKey(t)[c] == [9, 9, 6, 6][c] {
      DisagreementColumn(t, c);
    }
  }

  /** With strict ballots and keys falling from competitor to competitor, Borda ranks the competitors in entry order. */
  lemma FallingKeys(t: Table, key: seq<int>)
    requires ValidTable(t) && forall j :: 0 <= j < M(t) ==> StrictBallot(t, j)
    requires BordaKey(t) == key && forall a, b :: 0 <= a < b < |key| ==> key[a] > key[b]
    ensures Borda.Calculate(t).scores == key
    ensures Flatten(Borda.Calculate(t).entries) == Iota(t.n)
  {
    Borda.StrictScores(t);
    Borda.CalculateDistinctScores(t);
  }

  lemma IotaFour()
    ensures Iota(4) == [0, 1, 2, 3]
  {
  }

  /** Clear Winner under Borda: A = 8, B = 6, C = 4, D = 0, ranked A, B, C, D. */
  lemma ClearWinnerBorda(t: Table)
    requires ClearWinner(t)
    ensures ValidTable(t)
    ensures Borda.Calculate(t).scores == [8, 6, 4, 0]
    ensures Flatten(Borda.Calculate(t).entries) == [0, 1, 2, 3]
  {
    ClearWinnerStrict(t);
    ClearWinnerKey(t);
    FallingKeys(t, [8, 6, 4, 0]);
    IotaFour();
  }

  /** Disagreement under Borda: A and B tie on 9, C and D tie on 6. */
  lemma DisagreementBorda(t: Table)
    requires Disagreement(t)
    ensures ValidTable(t)
    ensures Borda.Calculate(t).scores == [9, 9, 6, 6]
  {
    DisagreementStrict(t);
    DisagreementKey(t);
    Borda.StrictScores(t);
  }

  lemma TwoOfThree(p: nat -> bool, j1: nat, j2: nat)
    requires j1 < j2 < 3 && p(j1) && p(j2)
    ensures Count(3, p) >= 2
  {
    assert Count(1, p) == if p(0) then 1 else 0;
    assert Count(2, p) == Count(1, p) + if p(1) then 1 else 0;
  }

  /** Two of three judges placing c ahead of the rest of o give c the next place. */
  lemma MajorityStep(t: Table, o: seq<nat>, c: nat, j1: nat, j2: nat)
    requires ValidTable(t) && M(t) == 3 && Candidates(t, o) && c in o && |o| >= 2
    requires j1 < j2 < 3 && PlacesOnTop(t, o, c)(j1) && PlacesOnTop(t, o, c)(j2)
    ensures Candidates(t, Without(o, c))
    ensures IrvPlacements.Ranking(t, o) == [c] + IrvPlacements.Ranking(t, Without(o, c))
  {
    TwoOfThree(PlacesOnTop(t, o, c), j1, j2);
    TopVotes(t, o, c);
    IrvPlacements.RankingLandslide(t, o, c);
  }

  lemma ClearWinnerFirst(t: Table, o: seq<nat>)
    requires ClearWinner(t) && Candidates(t, o) && 0 in o && 1 in o
    ensures ValidTable(t) && Candidates(t, Without(o, 0))
    ensures IrvPlacements.Ranking(t, o) == [0] + IrvPlacements.Ranking(t, Without(o, 0))
  {
    ClearWinnerValid(t);
    assert 1 in Without(o, 0);
    MajorityStep(t, o, 0, 0, 1);
  }

  lemma ClearWinnerSecond(t: Table, o: seq<nat>)
    requires ClearWinner(t) && Candidates(t, o) && 0 !in o && 1 in o && 2 in o
    ensures ValidTable(t) && Candidates(t, Without(o, 1))
    ensures IrvPlacements.Ranking(t, o) == [1] + IrvPlacements.Ranking(t, Without(o, 1))
  {
    ClearWinnerValid(t);
    assert 2 in Without(o, 1);
    MajorityStep(t, o, 1, 0, 2);
  }

  lemma ClearWinnerThird(t: Table, o: seq<nat>)
    requires ClearWinner(t) && Candidates(t, o) && 0 !in o && 1 !in o && 2 in o && 3 in o
    ensures ValidTable(t) && Candidates(t, Without(o, 2))
    ensures IrvPlacements.Ranking(t, o) == [2] + IrvPlacements.Ranking(t, Without(o, 2))
  {
    ClearWinnerValid(t);
    assert 3 in Without(o, 2);
    MajorityStep(t, o, 2, 0, 1);
  }

  /** Once only c is left, the ranking is c alone, placed as the last remaining competitor without any IRV round. */
  lemma LoneCandidate(t: Table, o: seq<nat>, c: nat, place: nat)
    requires ValidTable(t) && Candidates(t, o) && forall d :: d in o <==> d == c
    ensures IrvPlacements.Ranking(t, o) == [c]
    ensures IrvPlacements.Placements(t, o, place).placements == [IrvPlacements.PlacementRound(place, SequentialIrv.One(c), true, [])]
  {
    DistinctSameElements(o, [c]);
    assert |o| == |multiset(o)| == 1;
    assert o[0] in o;
  }

  lemma ClearWinnerRanking(t: Table, order: seq<nat>)
    requires ClearWinner(t) && Candidates(t, order)
    requires forall c :: 0 <= c < 4 ==> c in order
    ensures ValidTable(t)
    ensures IrvPlacements.Ranking(t, order) == [0, 1, 2, 3]
  {
    ClearWinnerFirst(t, order);
    ClearWinnerTail(t, Without(order, 0));
  }

  /** Once A is placed, B, C and D follow in that order. */
  lemma ClearWinnerTail(t: Table, o: seq<nat>)
    requires ClearWinner(t) && Candidates(t, o)
    requires 0 !in o && 1 in o && 2 in o && 3 in o
    ensures ValidTable(t)
    ensures IrvPlacements.Ranking(t, o) == [1, 2, 3]
  {
    ClearWinnerSecond(t, o);
    var o2 := Without(o, 1);
    ClearWinnerThird(t, o2);
    OnlyLeft(Without(o2, 2), 3);
    LoneCandidate(t, Without(o2, 2), 3, 4);
  }

  /** Below four, with 0, 1 and 2 gone, only 3 is left. */
  lemma OnlyLeft(o: seq<nat>, c: nat)
    requires c == 3 && Below(o, 4) && c in o && 0 !in o && 1 !in o && 2 !in o
    ensures forall d :: d in o <==> d == c
  {
  }

  /** Clear Winner under Sequential IRV: whatever the set order, each place goes to a first-choice majority, A, B, C, D. */
  lemma ClearWinnerIrv(t: Table, order: seq<nat>)
    requires ClearWinner(t) && Candidates(t, order)
    requires forall c :: 0 <= c < 4 ==> c in order
    ensures ValidTable(t)
    ensures IrvPlacements.Calculate(t, order).ranking == [0, 1, 2, 3]
  {
    ClearWinnerRanking(t, order);
  }

  lemma ThreeOfFive(p: nat -> bool, j1: nat, j2: nat, j3: nat)
    requires j1 < j2 < j3 < 5 && p(j1) && p(j2) && p(j3)
    ensures Count(5, p) >= 3
  {
    assert Count(1, p) == if p(0) then 1 else 0;
    assert Count(2, p) == Count(1, p) + if p(1) then 1 else 0;
    assert Count(3, p) == Count(2, p) + if p(2) then 1 else 0;
    assert Count(4, p) == Count(3, p) + if p(3) then 1 else 0;
  }

  /** Two of three judges placing a above b give a the head-on win. */
  lemma HeadOnByTwo(t: Table, a: nat, b: nat, j1: nat, j2: nat)
    requires ValidTable(t) && M(t) == 3 && a < b < t.n && j1 < j2 < 3
    requires t.rows[j1][a] < t.rows[j1][b] && t.rows[j2][a] < t.rows[j2][b]
    ensures Schulze.Pairwise(t)[a][b] > Schulze.Pairwise(t)[b][a]
  {
    assert Schulze.JudgePrefers(t, j1, a, b) && Schulze.JudgePrefers(t, j2, a, b);
    var prefers := (j: nat) => Schulze.JudgePrefers(t, j, a, b);
    Schulze.PairwiseFacts(t, a, b);
    assert Schulze.Preferring(t, a, b) == Count(3, prefers);
    TwoOfThree(prefers, j1, j2);
  }

  /** Three of five judges placing a above b give a the head-on win. */
  lemma HeadOnByThree(t: Table, a: nat, b: nat, j1: nat, j2: nat, j3: nat)
    requires ValidTable(t) && M(t) == 5 && a < b < t.n && j1 < j2 < j3 < 5
    requires t.rows[j1][a] < t.rows[j1][b] && t.rows[j2][a] < t.rows[j2][b] && t.rows[j3][a] < t.rows[j3][b]
    ensures Schulze.Pairwise(t)[a][b] > Schulze.Pairwise(t)[b][a]
  {
    assert Schulze.JudgePrefers(t, j1, a, b) && Schulze.JudgePrefers(t, j2, a, b) && Schulze.JudgePrefers(t, j3, a, b);
    var prefers := (j: nat) => Schulze.JudgePrefers(t, j, a, b);
    Schulze.PairwiseFacts(t, a, b);
    assert Schulze.Preferring(t, a, b) == Count(5, prefers);
    ThreeOfFive(prefers, j1, j2, j3);
  }

  /** In Clear Winner every competitor beats each later one head-on: J1 and J2 agree on every pair but B against C, where J1 and J3 do. */
  lemma ClearWinnerPair(t: Table, a: nat, b: nat)
    requires ClearWinner(t) && a < b < 4
    ensures ValidTable(t) && Schulze.Pairwise(t)[a][b] > Schulze.Pairwise(t)[b][a]
  {
    ClearWinnerValid(t);
    if a == 1 && b == 2 {
      HeadOnByTwo(t, a, b, 0, 2);
    } else {
      HeadOnByTwo(t, a, b, 0, 1);
    }
  }

  /** In Disagreement every competitor beats each later one head-on, each time by three judges to two or better. */
  lemma DisagreementPair(t: Table, a: nat, b: nat)
    requires Disagreement(t) && a < b < 4
    ensures ValidTable(t) && Schulze.Pairwise(t)[a][b] > Schulze.Pairwise(t)[b][a]
  {
    DisagreementValid(t);
    if a == 0 && b == 1 {
      HeadOnByThree(t, a, b, 0, 2, 3);
    } else if a == 0 {
      HeadOnByThree(t, a, b, 0, 1, 3);
    } else if a == 1 {
      HeadOnByThree(t, a, b, 0, 1, 4);
    } else {
      HeadOnByThree(t, a, b, 0, 2, 4);
    }
  }

  /** Four competitors who each beat every later one head-on finish A, B, C, D with 3, 2, 1 and 0 wins, doubled here, and no tie. */
  lemma FourInEntryOrder(t: Table)
    requires ValidTable(t) && t.n == 4 && Schulze.EntryOrderBeats(Schulze.Pairwise(t), t.n)
    ensures Schulze.Calculate(t).wins2 == [6, 4, 2, 0]
    ensures Flatten(Schulze.Calculate(t).entries) == [0, 1, 2, 3]
    ensures Schulze.Calculate(t).ties == []
  {
    Schulze.CalculateEntryOrder(t);
    FallingByTwo(Schulze.Calculate(t).wins2);
    IotaFour();
  }

  lemma FallingByTwo(w: seq<int>)
    requires |w| == 4 && forall a :: 0 <= a < 4 ==> w[a] == 2 * (4 - 1 - a)
    ensures w == [6, 4, 2, 0]
  {
  }

  lemma ClearWinnerBeats(t: Table)
    requires ClearWinner(t)
    ensures ValidTable(t) && Schulze.EntryOrderBeats(Schulze.Pairwise(t), t.n)
  {
    ClearWinnerValid(t);
    forall a, b | 0 <= a < b < t.n ensures Schulze.Pairwise(t)[a][b] > Schulze.Pairwise(t)[b][a] {
      ClearWinnerPair(t, a, b);
    }
  }

  lemma DisagreementBeats(t: Table)
    requires Disagreement(t)
    ensures ValidTable(t) && Schulze.EntryOrderBeats(Schulze.Pairwise(t), t.n)
  {
    DisagreementValid(t);
    forall a, b | 0 <= a < b < t.n ensures Schulze.Pairwise(t)[a][b] > Schulze.Pairwise(t)[b][a] {
      DisagreementPair(t, a, b);
    }
  }

  /** Clear Winner under Schulze: A, B, C, D with 3, 2, 1 and 0 wins, doubled here, and no tie. */
  lemma ClearWinnerSchulze(t: Table)
    requires ClearWinner(t)
    ensures ValidTable(t)
    ensures Schulze.Calculate(t).wins2 == [6, 4, 2, 0]
    ensures Flatten(Schulze.Calculate(t).entries) == [0, 1, 2, 3]
    ensures Schulze.Calculate(t).ties == []
  {
    ClearWinnerBeats(t);
    FourInEntryOrder(t);
  }

  /** Disagreement under Schulze: every pair is won in entry order, so A, B, C, D with no tie. */
  lemma DisagreementSchulze(t: Table)
    requires Disagreement(t)
    ensures ValidTable(t)
    ensures Schulze.Calculate(t).wins2 == [6, 4, 2, 0]
    ensures Flatten(Schulze.Calculate(t).entries) == [0, 1, 2, 3]
    ensures Schulze.Calculate(t).ties == []
  {
    DisagreementBeats(t);
    FourInEntryOrder(t);
  }
}
