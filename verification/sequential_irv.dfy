/**
 Sequential Instant Runoff Voting (core/voting/sequential_irv.py): IRV
 finds a winner among the remaining competitors, the winner (or the tied
 group) takes the next places, and IRV runs again on the rest. This module
 holds one IRV run and its tiebreaks; IrvPlacements holds the loop.

 An IRV round counts first choices, drops zero-vote candidates in round 1,
 declares a majority winner, sends an all-tied field to the winner
 tiebreak, and otherwise eliminates the candidate with fewest votes (the
 elimination tiebreak picks among several). The tiebreaks may run IRV
 among the tied candidates once: `depth` is 0 at the top and 1 inside such
 a sub-election, which may not start another.

 Python iterates sets in an order that depends on hashing; here a set is a
 sequence of distinct competitor numbers and its order is the iteration
 order, so every property holds whatever that order is.
 */
module SequentialIrv {
  import opened Seqs
  import opened Models
  import opened Tally
  import opened IrvVotes

  /** The result of IRV or of the winner tiebreak: one candidate, or a tie nothing could split. */
  datatype Winner = One(c: nat) | Tie(cs: seq<nat>)

  function WinnerMembers(w: Winner): seq<nat>
  {
    match w
    case One(c) => [c]
    case Tie(cs) => cs
  }

  /** w names members of xs: one member, or at least two distinct members. */
  predicate Within(w: Winner, xs: seq<nat>)
  {
    match w
    case One(c) => c in xs
    case Tie(cs) => |cs| >= 2 && Distinct(cs) && forall c <- cs :: c in xs
  }

  /** How an IRV round ended. */
  datatype RoundEnd =
    | MajorityWinner(winner: nat)
    | AllTied(tiebreak: Winner)
    | Eliminated(loser: nat)

  /**
   One IRV round: the candidates in play after any zero-vote exclusion,
   the first-choice votes (indexed by competitor number), the candidates
   excluded for having no first-choice vote, and the round's end.
   */
  datatype Round = Round(active: seq<nat>, votes: seq<int>, excluded: seq<nat>, end: RoundEnd)

  datatype Irv = Irv(winner: Winner, rounds: seq<Round>)

  /** The candidate removed by the first elimination round, if any. */
  function FirstEliminated(rounds: seq<Round>): Option<nat>
  {
    if |rounds| == 0 then None
    else if rounds[0].end.Eliminated? then Some(rounds[0].end.loser)
    else FirstEliminated(rounds[1..])
  }

  /** The candidate excluded alone for having no first-choice vote, if any round did so. */
  function SingleExcluded(rounds: seq<Round>): Option<nat>
  {
    if |rounds| == 0 then None
    else if |rounds[0].excluded| == 1 then Some(rounds[0].excluded[0])
    else SingleExcluded(rounds[1..])
  }

  /** The first elimination and the lone exclusion of a round followed by further rounds. */
  lemma RoundsCons(rd: Round, rest: seq<Round>)
    ensures FirstEliminated([rd] + rest) == if rd.end.Eliminated? then Some(rd.end.loser) else FirstEliminated(rest)
    ensures SingleExcluded([rd] + rest) == if |rd.excluded| == 1 then Some(rd.excluded[0]) else SingleExcluded(rest)
  {
    assert ([rd] + rest)[0] == rd && ([rd] + rest)[1..] == rest;
  }

  /** A filter of candidates is again a set of candidates, drawn from the first. */
  lemma FilterCandidates(t: Table, xs: seq<nat>, p: nat -> bool)
    requires Candidates(t, xs)
    ensures Candidates(t, Filter(xs, p))
    ensures forall x <- Filter(xs, p) :: x in xs && p(x)
    ensures forall x <- xs :: p(x) ==> x in Filter(xs, p)
  {
    FilterFacts(xs, p);
    FilterDistinct(xs, p);
    FilterBelow(xs, p, t.n);
  }

  /** 1 at the top level, 0 inside a tiebreak's sub-election: the sub-election cannot nest. */
  function Level(depth: nat): nat
  {
    if depth == 0 then 1 else 0
  }

  /** _run_irv: rounds from the start, where round 1 may exclude zero-vote candidates. */
  function RunIrv(t: Table, candidates: seq<nat>, depth: nat): (r: Irv)
    requires ValidTable(t) && Candidates(t, candidates) && |candidates| > 0
    ensures Within(r.winner, candidates)
    ensures |r.rounds| < |candidates|
    ensures FirstEliminated(r.rounds).Some? ==> FirstEliminated(r.rounds).value in candidates
    ensures SingleExcluded(r.rounds).Some? ==> SingleExcluded(r.rounds).value in candidates
    decreases Level(depth), |candidates|, 5
  {
    Rounds(t, candidates, true, depth)
  }

  /** The while loop of _run_irv, from a round that is the first one or not. */
  function Rounds(t: Table, active: seq<nat>, first: bool, depth: nat): (r: Irv)
    requires ValidTable(t) && Candidates(t, active) && |active| > 0
    ensures Within(r.winner, active)
    ensures |r.rounds| < |active|
    ensures FirstEliminated(r.rounds).Some? ==> FirstEliminated(r.rounds).value in active
    ensures SingleExcluded(r.rounds).Some? ==> SingleExcluded(r.rounds).value in active
    ensures |r.rounds| == 0 <==> |active| == 1
    decreases Level(depth), |active|, 4
  {
    if |active| == 1 then Irv(One(active[0]), [])
    else if first && 0 < |Filter(active, NoVotes(t, active))| < |active| then Exclude(t, active, depth)
    else Decide(t, active, VoteKey(t, active), [], depth)
  }

  /**
   Round 1 when some but not all candidates have no first-choice vote: they
   are dropped together, and a lone survivor wins by majority at once.
   */
  function Exclude(t: Table, active: seq<nat>, depth: nat): (r: Irv)
    requires ValidTable(t) && Candidates(t, active) && |active| >= 2
    requires 0 < |Filter(active, NoVotes(t, active))| < |active|
    ensures Within(r.winner, active)
    ensures 0 < |r.rounds| < |active|
    ensures FirstEliminated(r.rounds).Some? ==> FirstEliminated(r.rounds).value in active
    ensures SingleExcluded(r.rounds).Some? ==> SingleExcluded(r.rounds).value in active
    decreases Level(depth), |active|, 3
  {
    var key := VoteKey(t, active);
    var zero := Filter(active, NoVotes(t, active));
    var kept := Filter(active, SomeVotes(t, active));
    FilterCandidates(t, active, SomeVotes(t, active));
    FilterCandidates(t, active, NoVotes(t, active));
    FilterComplement(active, NoVotes(t, active), SomeVotes(t, active));
    if |kept| == 1 then
      var r := Irv(One(kept[0]), [Round(kept, key, zero, MajorityWinner(kept[0]))]);
      assert FirstEliminated(r.rounds) == None;
      assert |zero| == 1 ==> zero[0] in active;
      r
    else
      var r := Decide(t, kept, key, zero, depth);
      WithinTransitive(r.winner, kept, active);
      assert forall x <- kept + zero :: x in active;
      r
  }

  /** The rest of a round once the votes are known: a majority winner ends IRV. */
  function Decide(t: Table, active: seq<nat>, key: seq<int>, excluded: seq<nat>, depth: nat): (r: Irv)
    requires ValidTable(t) && Candidates(t, active) && |active| >= 2 && |key| == t.n
    ensures Within(r.winner, active)
    ensures 0 < |r.rounds| < |active|
    ensures FirstEliminated(r.rounds).Some? ==> FirstEliminated(r.rounds).value in active
    ensures SingleExcluded(r.rounds).Some? ==> SingleExcluded(r.rounds).value in active + excluded
    decreases Level(depth), |active|, 2
  {
    var top := Filter(active, Reaching(key, Majority(M(t))));
    if |top| > 0 then
      FilterCandidates(t, active, Reaching(key, Majority(M(t))));
      Irv(One(top[0]), [Round(active, key, excluded, MajorityWinner(top[0]))])
    else NoMajority(t, active, key, excluded, depth)
  }

  /**
   No majority: when everyone has the fewest votes the winner tiebreak
   decides, otherwise the candidate with fewest votes (the elimination
   tiebreak picks among several) goes and the next round starts.
   */
  function NoMajority(t: Table, active: seq<nat>, key: seq<int>, excluded: seq<nat>, depth: nat): (r: Irv)
    requires ValidTable(t) && Candidates(t, active) && |active| >= 2 && |key| == t.n
    ensures Within(r.winner, active)
    ensures 0 < |r.rounds| < |active|
    ensures FirstEliminated(r.rounds).Some? ==> FirstEliminated(r.rounds).value in active
    ensures SingleExcluded(r.rounds).Some? ==> SingleExcluded(r.rounds).value in active + excluded
    decreases Level(depth), |active|, 1
  {
    var lowest := Filter(active, HasKey(key, MinKey(active, key)));
    FilterCandidates(t, active, HasKey(key, MinKey(active, key)));
    BottomNonEmpty(active, key);
    if |lowest| == |active| then
      var w := WinnerTiebreak(t, active, depth);
      var rd := Round(active, key, excluded, AllTied(w));
      RoundsCons(rd, []);
      assert [rd] + [] == [rd];
      assert |excluded| == 1 ==> excluded[0] in active + excluded;
      Irv(w, [rd])
    else
      var out := if |lowest| == 1 then lowest[0] else EliminationTiebreak(t, lowest, active, depth);
      assert out in active;
      var rest := Rounds(t, Without(active, out), false, depth);
      var rd := Round(active, key, excluded, Eliminated(out));
      RoundsCons(rd, rest.rounds);
      var single := SingleExcluded(rest.rounds);
      assert single.Some? ==> single.value in active && single.value in active + excluded;
      assert |excluded| == 1 ==> excluded[0] in active + excluded;
      Irv(rest.winner, [rd] + rest.rounds)
  }

  /** _head_to_head is Tally.HeadToHead; the loser of a decided match-up is the other candidate. */
  function Loser(t: Table, a: nat, b: nat): (r: Option<nat>)
    requires ValidTable(t) && a < t.n && b < t.n
    ensures r.Some? <==> HeadToHead(t, a, b).winner.Some?
    ensures r == Some(a) && a != b ==> HeadToHead(t, a, b).bCount > HeadToHead(t, a, b).aCount
    ensures r == Some(b) && a != b ==> HeadToHead(t, a, b).aCount > HeadToHead(t, a, b).bCount
  {
    var h := HeadToHead(t, a, b);
    if h.winner.None? then None
    else if h.winner.value == a then Some(b)
    else Some(a)
  }

  /**
   _elimination_tiebreak: head-to-head between two, or IRV among three or
   more (at depth 0 only), then the fewest votes at later preference
   levels, then the lowest Borda score, then the first remaining.
   */
  function EliminationTiebreak(t: Table, tied: seq<nat>, active: seq<nat>, depth: nat): (r: nat)
    requires ValidTable(t) && Candidates(t, active) && Candidates(t, tied) && |tied| >= 2
    ensures r in tied
    decreases Level(depth), |tied|, 0
  {
    if depth == 0 && |tied| == 2 then
      var loser := Loser(t, tied[0], tied[1]);
      if loser.Some? then loser.value
      else ByRankLevels(t, tied, active, 2)
    else if depth == 0 then
      var sub := RunIrv(t, tied, depth + 1);
      var first := FirstEliminated(sub.rounds);
      var single := SingleExcluded(sub.rounds);
      if first.Some? then first.value
      else if single.Some? then single.value
      else if sub.winner.One? then ByRankLevels(t, Without(tied, sub.winner.c), active, 2)
      else ByRankLevels(t, tied, active, 2)
    else ByRankLevels(t, tied, active, 2)
  }

  /**
   Tiebreaker 2 of the elimination tiebreak: at preference level `rank`
   among the active candidates keep the tied candidates with the fewest
   judges, until one is left or the levels run out.
   */
  function ByRankLevels(t: Table, tied: seq<nat>, active: seq<nat>, rank: nat): (r: nat)
    requires ValidTable(t) && Candidates(t, active) && Candidates(t, tied) && |tied| > 0 && rank >= 2
    ensures r in tied
    ensures rank <= |active| ==> forall c <- tied :: LevelKey(t, active, rank - 1)[r] <= LevelKey(t, active, rank - 1)[c]
    decreases |active| + 1 - rank
  {
    if rank > |active| then ByBordaLowest(t, tied)
    else
      var counts := LevelKey(t, active, rank - 1);
      var least := MinKey(tied, counts);
      var fewest := Filter(tied, HasKey(counts, least));
      FilterCandidates(t, tied, HasKey(counts, least));
      BottomNonEmpty(tied, counts);
      if |fewest| == 1 then fewest[0]
      else ByRankLevels(t, fewest, active, rank + 1)
  }

  /** Tiebreaker 3 of the elimination tiebreak: the first of the tied candidates with the lowest Borda score. */
  function ByBordaLowest(t: Table, tied: seq<nat>): (r: nat)
    requires ValidTable(t) && Candidates(t, tied) && |tied| > 0
    ensures r in tied
    ensures forall c <- tied :: BordaKey(t)[r] <= BordaKey(t)[c]
  {
    var key := BordaKey(t);
    var fewest := Filter(tied, HasKey(key, MinKey(tied, key)));
    FilterCandidates(t, tied, HasKey(key, MinKey(tied, key)));
    BottomNonEmpty(tied, key);
    assert fewest[0] in fewest;
    fewest[0]
  }

  /**
   _winner_tiebreak: head-to-head between two, or IRV among three or more
   (at depth 0 only), then the highest Borda score, then the most
   head-to-head wins; a tie that survives all of them is returned whole.
   */
  function WinnerTiebreak(t: Table, tied: seq<nat>, depth: nat): (r: Winner)
    requires ValidTable(t) && Candidates(t, tied) && |tied| >= 2
    ensures Within(r, tied)
    decreases Level(depth), |tied|, 0
  {
    if depth == 0 && |tied| == 2 then
      var h := HeadToHead(t, tied[0], tied[1]);
      if h.winner.Some? then One(h.winner.value)
      else ByBordaHighest(t, tied)
    else if depth == 0 then
      var sub := RunIrv(t, tied, depth + 1);
      if sub.winner.One? then sub.winner
      else
        assert Candidates(t, sub.winner.cs) by {
          forall i | 0 <= i < |sub.winner.cs| ensures sub.winner.cs[i] < t.n {
            assert sub.winner.cs[i] in tied;
          }
        }
        var narrowed := ByBordaHighest(t, sub.winner.cs);
        WithinTransitive(narrowed, sub.winner.cs, tied);
        narrowed
    else ByBordaHighest(t, tied)
  }

  lemma WithinTransitive(w: Winner, xs: seq<nat>, ys: seq<nat>)
    requires Within(w, xs) && forall x <- xs :: x in ys
    ensures Within(w, ys)
  {
  }

  /** Tiebreaker 2 of the winner tiebreak: the tied candidates with the highest Borda score. */
  function ByBordaHighest(t: Table, tied: seq<nat>): (r: Winner)
    requires ValidTable(t) && Candidates(t, tied) && |tied| > 0
    ensures Within(r, tied)
    ensures forall c <- WinnerMembers(r), d <- tied :: BordaKey(t)[d] <= BordaKey(t)[c]
  {
    var key := BordaKey(t);
    var best := Filter(tied, HasKey(key, MaxKey(tied, key)));
    FilterCandidates(t, tied, HasKey(key, MaxKey(tied, key)));
    TopNonEmpty(tied, key);
    if |best| == 1 then
      assert best[0] in best;
      One(best[0])
    else
      var r := ByWins(t, best);
      assert forall c <- WinnerMembers(r) :: c in best;
      r
  }

  /** In the match-ups of _winner_tiebreak, the i-th tied candidate beats the k-th. */
  predicate Beats(t: Table, best: seq<nat>, i: nat, k: nat)
    requires ValidTable(t) && Candidates(t, best) && i < |best|
  {
    k < |best| && k != i &&
    if i < k then HeadToHead(t, best[i], best[k]).winner == Some(best[i])
    else HeadToHead(t, best[k], best[i]).winner == Some(best[i])
  }

  /** Head-to-head wins of each tied candidate over the others (zero for everyone else), as a key. */
  function WinsKey(t: Table, best: seq<nat>): (key: seq<int>)
    requires ValidTable(t) && Candidates(t, best)
    ensures |key| == t.n
    ensures forall i :: 0 <= i < |best| ==> key[best[i]] == Count(|best|, (k: nat) => Beats(t, best, i, k))
  {
    var key := seq(t.n, c requires 0 <= c < t.n =>
      if c in best then Count(|best|, (k: nat) => Beats(t, best, IndexOf(best, c), k)) else 0);
    forall i | 0 <= i < |best| ensures key[best[i]] == Count(|best|, (k: nat) => Beats(t, best, i, k)) {
      IndexOfDistinct(best, i);
    }
    key
  }

  /** Tiebreaker 3 of the winner tiebreak: the candidates with the most head-to-head wins. */
  function ByWins(t: Table, best: seq<nat>): (r: Winner)
    requires ValidTable(t) && Candidates(t, best) && |best| >= 2
    ensures Within(r, best)
    ensures forall c <- WinnerMembers(r), d <- best :: WinsKey(t, best)[d] <= WinsKey(t, best)[c]
    ensures forall d <- best :: WinsKey(t, best)[d] == MaxKey(best, WinsKey(t, best)) ==> d in WinnerMembers(r)
  {
    HighestGroup(t, best, WinsKey(t, best))
  }

  /** All of xs with the greatest key: one candidate alone, or the tie of several. */
  function HighestGroup(t: Table, xs: seq<nat>, key: seq<int>): (r: Winner)
    requires Candidates(t, xs) && |xs| > 0 && |key| == t.n
    ensures Within(r, xs)
    ensures forall c <- WinnerMembers(r), d <- xs :: key[d] <= key[c]
    ensures forall d <- xs :: key[d] == MaxKey(xs, key) ==> d in WinnerMembers(r)
  {
    var v := MaxKey(xs, key);
    var top := Filter(xs, HasKey(key, v));
    FilterCandidates(t, xs, HasKey(key, v));
    TopNonEmpty(xs, key);
    assert forall c <- top :: key[c] == v;
    if |top| == 1 then
      assert top == [top[0]];
      One(top[0])
    else Tie(top)
  }
}
