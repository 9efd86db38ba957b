/**
 The placement loop of SequentialIRVSystem.calculate
 (core/voting/sequential_irv.py): IRV picks a winner, or a tied group,
 among the competitors still to place; the pick takes the next places and
 the loop goes on with the others. Every block of places starts at the next
 free place and is chosen by a sound run of IRV rounds, and a first-choice
 majority winner comes first.
 */
module IrvPlacements {
  import opened Seqs
  import opened Models
  import opened Tally
  import opened IrvVotes
  import opened SequentialIrv
  import opened IrvProperties

  /** Who took each block of places: the place, the winner, and the IRV rounds that chose it. */
  datatype PlacementRound = PlacementRound(place: nat, winner: Winner, lastRemaining: bool, rounds: seq<Round>)

  datatype Outcome = Outcome(ranking: seq<nat>, placements: seq<PlacementRound>)

  /** The names of the placement blocks, in order. */
  function Blocks(ps: seq<PlacementRound>): seq<nat>
  {
    if |ps| == 0 then [] else WinnerMembers(ps[0].winner) + Blocks(ps[1..])
  }

  lemma BlocksCons(p: PlacementRound, rest: seq<PlacementRound>)
    ensures Blocks([p] + rest) == WinnerMembers(p.winner) + Blocks(rest)
  {
    assert ([p] + rest)[0] == p && ([p] + rest)[1..] == rest;
  }

  /** Each block starts at `place` plus the number of competitors in the blocks before it. */
  predicate PlacesFrom(ps: seq<PlacementRound>, place: nat)
  {
    forall k :: 0 <= k < |ps| ==> ps[k].place == place + |Blocks(ps[..k])|
  }

  /**
   Each block is chosen by a sound trace of IRV rounds: every block but a
   final lone competitor carries at least one round, and that lone
   competitor is placed without any.
   */
  predicate Traced(t: Table, ps: seq<PlacementRound>)
    requires ValidTable(t)
  {
    forall k :: 0 <= k < |ps| ==>
      && Trace(t, ps[k].rounds, ps[k].winner)
      && (ps[k].lastRemaining ==> k == |ps| - 1 && ps[k].rounds == [] && ps[k].winner.One?)
      && (!ps[k].lastRemaining ==> |ps[k].rounds| > 0)
  }

  /** The winner or tied group that IRV picks among the remaining competitors. */
  function Picked(t: Table, remaining: seq<nat>): seq<nat>
    requires ValidTable(t) && Candidates(t, remaining) && |remaining| >= 2
  {
    WinnerMembers(RunIrv(t, remaining, 0).winner)
  }

  /** The competitors still to place once the picked group is removed. */
  function Left(t: Table, remaining: seq<nat>): seq<nat>
    requires ValidTable(t) && Candidates(t, remaining) && |remaining| >= 2
  {
    Filter(remaining, NotIn(Picked(t, remaining)))
  }

  /** The picked group is a non-empty part of the remaining competitors, and the others are what is left. */
  lemma PickedFacts(t: Table, remaining: seq<nat>)
    requires ValidTable(t) && Candidates(t, remaining) && |remaining| >= 2
    ensures Candidates(t, Left(t, remaining)) && |Left(t, remaining)| < |remaining|
    ensures multiset(Picked(t, remaining)) + multiset(Left(t, remaining)) == multiset(remaining)
  {
    var group := Picked(t, remaining);
    var left := Left(t, remaining);
    assert |group| > 0 && group[0] in remaining;
    assert multiset(group) <= multiset(remaining) by {
      DistinctMultiset(remaining);
      if RunIrv(t, remaining, 0).winner.Tie? {
        DistinctMultiset(group);
      }
    }
    FilterNotIn(remaining, group);
    FilterCandidates(t, remaining, NotIn(group));
    assert |left| < |remaining| by {
      assert |multiset(left)| + |multiset(group)| == |multiset(remaining)|;
    }
  }

  /** The order in which the loop of calculate places the remaining competitors: IRV's pick first, then the others. */
  function Ranking(t: Table, remaining: seq<nat>): (r: seq<nat>)
    requires ValidTable(t) && Candidates(t, remaining)
    decreases |remaining|
  {
    if |remaining| <= 1 then remaining
    else
      PickedFacts(t, remaining);
      Picked(t, remaining) + Ranking(t, Left(t, remaining))
  }

  /** A block at `place` followed by blocks from the next free place keeps the places in step. */
  lemma PlacesCons(p: PlacementRound, rest: seq<PlacementRound>, place: nat)
    requires p.place == place && PlacesFrom(rest, place + |WinnerMembers(p.winner)|)
    ensures PlacesFrom([p] + rest, place)
  {
    var ps := [p] + rest;
    forall k | 0 < k < |ps| ensures ps[k].place == place + |Blocks(ps[..k])| {
      assert ps[..k][1..] == rest[..k - 1];
      assert ps[k] == rest[k - 1];
    }
  }

  /** A traced IRV block followed by traced blocks is traced. */
  lemma TracedCons(t: Table, p: PlacementRound, rest: seq<PlacementRound>)
    requires ValidTable(t) && Trace(t, p.rounds, p.winner) && !p.lastRemaining && |p.rounds| > 0 && Traced(t, rest)
    ensures Traced(t, [p] + rest)
  {
    var ps := [p] + rest;
    forall k | 0 <= k < |ps|
      ensures Trace(t, ps[k].rounds, ps[k].winner)
      ensures ps[k].lastRemaining ==> k == |ps| - 1 && ps[k].rounds == [] && ps[k].winner.One?
      ensures !ps[k].lastRemaining ==> |ps[k].rounds| > 0
    {
      if k > 0 {
        assert ps[k] == rest[k - 1];
      }
    }
  }

  /**
   The loop of calculate from `place` on: a lone remaining competitor takes
   the place directly, otherwise IRV picks the winner or tied group, which
   takes the next places and leaves the others.
   */
  function Placements(t: Table, remaining: seq<nat>, place: nat): (r: Outcome)
    requires ValidTable(t) && Candidates(t, remaining)
    ensures r.ranking == Ranking(t, remaining)
    ensures multiset(r.ranking) == multiset(remaining)
    ensures Blocks(r.placements) == r.ranking
    ensures PlacesFrom(r.placements, place)
    ensures Traced(t, r.placements)
    ensures |remaining| == 0 ==> r.placements == []
    ensures |remaining| == 1 ==> r.placements == [PlacementRound(place, One(remaining[0]), true, [])]
    ensures |remaining| >= 2 ==> |r.placements| > 0 && r.placements[0].winner == RunIrv(t, remaining, 0).winner
    decreases |remaining|
  {
    if |remaining| == 0 then Outcome([], [])
    else if |remaining| == 1 then
      var p := PlacementRound(place, One(remaining[0]), true, []);
      BlocksCons(p, []);
      assert [p] + [] == [p];
      assert remaining == [remaining[0]];
      Outcome([remaining[0]], [p])
    else
      var irv := RunIrv(t, remaining, 0);
      var group := Picked(t, remaining);
      PickedFacts(t, remaining);
      IrvTrace(t, remaining, 0);
      var rest := Placements(t, Left(t, remaining), place + |group|);
      var p := PlacementRound(place, irv.winner, false, irv.rounds);
      var ps := [p] + rest.placements;
      BlocksCons(p, rest.placements);
      PlacesCons(p, rest.placements, place);
      TracedCons(t, p, rest.placements);
      Outcome(group + rest.ranking, ps)
  }

  /** A first-choice majority winner among the remaining competitors is placed next, alone, and the order goes on without it. */
  lemma RankingLandslide(t: Table, remaining: seq<nat>, c: nat)
    requires ValidTable(t) && Candidates(t, remaining) && c in remaining && |remaining| >= 2
    requires LevelVotes(t, remaining, 0, c) >= Majority(M(t))
    ensures Candidates(t, Without(remaining, c))
    ensures Ranking(t, remaining) == [c] + Ranking(t, Without(remaining, c))
  {
    Landslide(t, remaining, c, 0);
    assert Picked(t, remaining) == [c];
    assert Left(t, remaining) == Without(remaining, c);
  }

  /** SequentialIRVSystem.calculate, with `order` the iteration order of the set of competitors. */
  function Calculate(t: Table, order: seq<nat>): (r: Outcome)
    requires ValidTable(t) && Candidates(t, order)
    ensures r.ranking == Ranking(t, order) && multiset(r.ranking) == multiset(order)
    ensures PlacesFrom(r.placements, 1) && Traced(t, r.placements)
  {
    Placements(t, order, 1)
  }

  /**
   SequentialIRVSystem.calculate on a scoresheet, with `order` the iteration
   order of the competitor set. The result is the flat list of names. With
   one competitor or none no judge is consulted; with two or more, the first
   IRV round asks every judge for a ranking, which fails on a judge missing
   from the map or on a missing placement.
   */
  function CalculateSheet(s: Scoresheet, order: seq<nat>): (r: Result<seq<Id>>)
    requires multiset(order) == multiset(Iota(|s.competitors|))
    ensures r.Success? <==> |s.competitors| <= 1 || forall j <- s.judges :: GetJudgeRanking(s, j).Success?
    ensures r.Success? <==> |s.competitors| <= 1 || (JudgesListed(s) && Complete(s))
    ensures r.Failure? ==> r.error == MissingPlacement
    ensures r.Success? ==> multiset(r.value) == multiset(s.competitors)
    ensures |s.competitors| <= 1 ==> r == Success(s.competitors)
    ensures r.Success? && |s.competitors| >= 2 ==>
      && Complete(s) && Candidates(ToTable(s), order)
      && Below(Calculate(ToTable(s), order).ranking, |s.competitors|)
      && r.value == Gather(Calculate(ToTable(s), order).ranking, s.competitors)
  {
    AllJudgeRankings(s);
    if |s.competitors| <= 1 then Success(s.competitors)
    else if !(JudgesListed(s) && Complete(s)) then Failure(MissingPlacement)
    else
      var t := ToTable(s);
      IotaFacts(t.n);
      PermutationDistinct(order, Iota(t.n));
      BelowPermutation(order, Iota(t.n), t.n);
      var ranking := Calculate(t, order).ranking;
      BelowPermutation(ranking, order, t.n);
      GatherPermutation(ranking, Iota(t.n), s.competitors);
      GatherIota(s.competitors);
      Success(Gather(ranking, s.competitors))
  }

  /** A first-choice majority winner among all competitors takes first place alone. */
  lemma CalculateLandslide(t: Table, order: seq<nat>, c: nat)
    requires ValidTable(t) && Candidates(t, order) && c in order
    requires LevelVotes(t, order, 0, c) >= Majority(M(t))
    ensures var r := Calculate(t, order);
      && |r.placements| > 0 && r.placements[0].place == 1 && r.placements[0].winner == One(c)
      && r.ranking[0] == c
  {
    var r := Calculate(t, order);
    if |order| == 1 {
      assert order == [order[0]];
    } else {
      Landslide(t, order, c, 0);
    }
    assert r.placements[..0] == [];
    assert Blocks(r.placements) == WinnerMembers(r.placements[0].winner) + Blocks(r.placements[1..]);
  }
}
