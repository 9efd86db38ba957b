/**
 What the rounds of Sequential IRV (core/voting/sequential_irv.py) record
 and guarantee: every round counts the first choices of the candidates in
 play, ends by majority, by the all-tied tiebreak or by eliminating a
 candidate with fewest votes, and hands the others to the next round; only
 round 1 drops zero-vote candidates; and a first-choice majority wins at
 once.
 */
module IrvProperties {
  import opened Seqs
  import opened Models
  import opened Tally
  import opened IrvVotes
  import opened SequentialIrv

  /**
   The round counts the first choices among its candidates, and its end
   fits them: a majority winner reaches m // 2 + 1; otherwise nobody does,
   and either all candidates are level or the eliminated one has the
   fewest votes while someone has more.
   */
  predicate RoundOk(t: Table, rd: Round)
    requires ValidTable(t)
  {
    && Candidates(t, rd.active) && |rd.active| > 0 && |rd.votes| == t.n
    && (forall c <- rd.active :: rd.votes[c] == LevelVotes(t, rd.active, 0, c))
    && match rd.end
       case MajorityWinner(w) =>
         w in rd.active && rd.votes[w] >= Majority(M(t))
       case AllTied(_) =>
         && |rd.active| >= 2
         && (forall c <- rd.active :: rd.votes[c] < Majority(M(t)))
         && (forall c <- rd.active, d <- rd.active :: rd.votes[c] == rd.votes[d])
       case Eliminated(x) =>
         && x in rd.active
         && (forall c <- rd.active :: rd.votes[c] < Majority(M(t)) && rd.votes[x] <= rd.votes[c])
         && (exists c <- rd.active :: rd.votes[x] < rd.votes[c])
  }

  /**
   A run of rounds that ends in `winner`: each round is sound, an
   elimination passes the other candidates on to the next round, which
   excludes nobody, or leaves a single winner; a majority or all-tied
   round is the last and names the winner.
   */
  predicate Trace(t: Table, rounds: seq<Round>, winner: Winner)
    requires ValidTable(t)
  {
    |rounds| > 0 ==>
      && RoundOk(t, rounds[0])
      && match rounds[0].end
         case MajorityWinner(w) => |rounds| == 1 && winner == One(w)
         case AllTied(w) => |rounds| == 1 && winner == w
         case Eliminated(x) =>
           var left := Without(rounds[0].active, x);
           if |rounds| == 1 then |left| == 1 && winner == One(left[0])
           else rounds[1].active == left && rounds[1].excluded == [] && Trace(t, rounds[1..], winner)
  }

  /** A majority or all-tied round is a whole trace by itself. */
  lemma TraceLast(t: Table, rd: Round, winner: Winner)
    requires ValidTable(t) && RoundOk(t, rd)
    requires (rd.end.MajorityWinner? && winner == One(rd.end.winner)) || (rd.end.AllTied? && winner == rd.end.tiebreak)
    ensures Trace(t, [rd], winner)
  {
  }

  /** An elimination round followed by the trace of the candidates it leaves. */
  lemma TraceCons(t: Table, rd: Round, rest: seq<Round>, winner: Winner)
    requires ValidTable(t) && RoundOk(t, rd) && rd.end.Eliminated?
    requires var left := Without(rd.active, rd.end.loser);
      if |rest| == 0 then |left| == 1 && winner == One(left[0])
      else rest[0].active == left && rest[0].excluded == [] && Trace(t, rest, winner)
    ensures Trace(t, [rd] + rest, winner)
  {
    assert ([rd] + rest)[1..] == rest;
  }

  /** A round won by a candidate reaching the majority threshold. */
  lemma MajorityRoundOk(t: Table, active: seq<nat>, key: seq<int>, excluded: seq<nat>, w: nat)
    requires ValidTable(t) && Candidates(t, active) && |key| == t.n
    requires forall c <- active :: key[c] == LevelVotes(t, active, 0, c)
    requires w in active && key[w] >= Majority(M(t))
    ensures RoundOk(t, Round(active, key, excluded, MajorityWinner(w)))
  {
  }

  /** A round where every candidate has the same votes, short of a majority. */
  lemma AllTiedRoundOk(t: Table, active: seq<nat>, key: seq<int>, excluded: seq<nat>, w: Winner, low: int)
    requires ValidTable(t) && Candidates(t, active) && |key| == t.n && |active| >= 2
    requires forall c <- active :: key[c] == LevelVotes(t, active, 0, c)
    requires forall c <- active :: key[c] < Majority(M(t)) && key[c] == low
    ensures RoundOk(t, Round(active, key, excluded, AllTied(w)))
  {
  }

  /** A round that eliminates a candidate with fewest votes while another has more. */
  lemma EliminatedRoundOk(t: Table, active: seq<nat>, key: seq<int>, excluded: seq<nat>, x: nat, y: nat)
    requires ValidTable(t) && Candidates(t, active) && |key| == t.n && |active| > 0
    requires x in active && y in active && key[x] < key[y]
    requires forall c <- active :: key[c] == LevelVotes(t, active, 0, c)
    requires forall c <- active :: key[c] < Majority(M(t)) && key[x] <= key[c]
    ensures RoundOk(t, Round(active, key, excluded, Eliminated(x)))
  {
  }

  /** Rounds from a later round on: a sound trace whose first round has all candidates and excludes nobody. */
  lemma {:induction false} RoundsTrace(t: Table, active: seq<nat>, first: bool, depth: nat)
    requires ValidTable(t) && Candidates(t, active) && |active| > 0
    ensures var r := Rounds(t, active, first, depth);
      && Trace(t, r.rounds, r.winner)
      && (|active| == 1 ==> r.winner == One(active[0]))
      && (|active| >= 2 && !first ==> r.rounds[0].active == active && r.rounds[0].excluded == [])
    decreases |active|, 6
  {
    if |active| >= 2 {
      if first && 0 < |Filter(active, NoVotes(t, active))| < |active| {
        ExcludeTrace(t, active, depth);
      } else {
        DecideTrace(t, active, VoteKey(t, active), [], depth);
      }
    }
  }

  /** The votes of the round 1 count still count the candidates left after the exclusion. */
  lemma KeptVotes(t: Table, active: seq<nat>)
    requires ValidTable(t) && Candidates(t, active)
    ensures Candidates(t, Filter(active, SomeVotes(t, active)))
    ensures forall c <- Filter(active, SomeVotes(t, active)) ::
      VoteKey(t, active)[c] == LevelVotes(t, Filter(active, SomeVotes(t, active)), 0, c)
  {
    var kept := Filter(active, SomeVotes(t, active));
    FilterCandidates(t, active, SomeVotes(t, active));
    forall c <- kept ensures VoteKey(t, active)[c] == LevelVotes(t, kept, 0, c) {
      ExclusionKeepsVotes(t, active, c);
    }
  }

  /** A lone candidate gets every judge's first choice. */
  lemma LoneVotes(t: Table, w: nat)
    requires ValidTable(t) && w < t.n
    ensures LevelVotes(t, [w], 0, w) == M(t)
  {
    VotesTotal(t, [w]);
    assert Gather([w], VoteKey(t, [w])) == [VoteKey(t, [w])[w]];
  }

  /** The survivor of a round 1 exclusion that leaves one candidate holds every vote, so a majority. */
  lemma LoneSurvivor(t: Table, active: seq<nat>)
    requires ValidTable(t) && Candidates(t, active)
    requires |Filter(active, SomeVotes(t, active))| == 1
    ensures var w := Filter(active, SomeVotes(t, active))[0];
      w in active && VoteKey(t, active)[w] == M(t) >= Majority(M(t))
  {
    var kept := Filter(active, SomeVotes(t, active));
    var w := kept[0];
    assert kept == [w];
    KeptVotes(t, active);
    FilterCandidates(t, active, SomeVotes(t, active));
    assert w in kept;
    assert SomeVotes(t, active)(w);
    LoneVotes(t, w);
  }

  lemma {:induction false} ExcludeTrace(t: Table, active: seq<nat>, depth: nat)
    requires ValidTable(t) && Candidates(t, active) && |active| >= 2
    requires 0 < |Filter(active, NoVotes(t, active))| < |active|
    ensures var r := Exclude(t, active, depth); Trace(t, r.rounds, r.winner)
    decreases |active|, 5
  {
    var key := VoteKey(t, active);
    var kept := Filter(active, SomeVotes(t, active));
    var zero := Filter(active, NoVotes(t, active));
    KeptVotes(t, active);
    FilterComplement(active, NoVotes(t, active), SomeVotes(t, active));
    if |kept| == 1 {
      LoneSurvivor(t, active);
      MajorityRoundOk(t, kept, key, zero, kept[0]);
      TraceLast(t, Round(kept, key, zero, MajorityWinner(kept[0])), One(kept[0]));
    } else {
      DecideTrace(t, kept, key, zero, depth);
    }
  }

  lemma {:induction false} DecideTrace(t: Table, active: seq<nat>, key: seq<int>, excluded: seq<nat>, depth: nat)
    requires ValidTable(t) && Candidates(t, active) && |active| >= 2 && |key| == t.n
    requires forall c <- active :: key[c] == LevelVotes(t, active, 0, c)
    ensures var r := Decide(t, active, key, excluded, depth);
      && Trace(t, r.rounds, r.winner)
      && r.rounds[0].active == active && r.rounds[0].excluded == excluded
    decreases |active|, 4
  {
    var p := Reaching(key, Majority(M(t)));
    FilterCandidates(t, active, p);
    if |Filter(active, p)| > 0 {
      var w := Filter(active, p)[0];
      assert p(w);
      MajorityRoundOk(t, active, key, excluded, w);
      TraceLast(t, Round(active, key, excluded, MajorityWinner(w)), One(w));
    } else {
      forall c <- active ensures key[c] < Majority(M(t)) {
        assert !p(c);
      }
      NoMajorityTrace(t, active, key, excluded, depth);
    }
  }

  lemma {:induction false} NoMajorityTrace(t: Table, active: seq<nat>, key: seq<int>, excluded: seq<nat>, depth: nat)
    requires ValidTable(t) && Candidates(t, active) && |active| >= 2 && |key| == t.n
    requires forall c <- active :: key[c] == LevelVotes(t, active, 0, c)
    requires forall c <- active :: key[c] < Majority(M(t))
    ensures var r := NoMajority(t, active, key, excluded, depth);
      && Trace(t, r.rounds, r.winner)
      && r.rounds[0].active == active && r.rounds[0].excluded == excluded
    decreases |active|, 3
  {
    var low := MinKey(active, key);
    var lowest := Filter(active, HasKey(key, low));
    var above := Filter(active, LacksKey(key, low));
    FilterCandidates(t, active, HasKey(key, low));
    FilterComplement(active, HasKey(key, low), LacksKey(key, low));
    FilterFacts(active, LacksKey(key, low));
    if |lowest| == |active| {
      forall c <- active ensures key[c] == low {
        assert c !in above;
      }
      AllTiedTrace(t, active, key, excluded, depth, low);
    } else {
      assert above[0] in above;
      EliminationCase(t, active, key, excluded, depth, above[0]);
    }
  }

  /** Everyone has the fewest votes: the winner tiebreak ends IRV. */
  lemma AllTiedTrace(t: Table, active: seq<nat>, key: seq<int>, excluded: seq<nat>, depth: nat, low: int)
    requires ValidTable(t) && Candidates(t, active) && |active| >= 2 && |key| == t.n
    requires forall c <- active :: key[c] == LevelVotes(t, active, 0, c)
    requires forall c <- active :: key[c] < Majority(M(t)) && key[c] == low
    requires low == MinKey(active, key) && |Filter(active, HasKey(key, low))| == |active|
    ensures var r := NoMajority(t, active, key, excluded, depth);
      && Trace(t, r.rounds, r.winner)
      && r.rounds[0].active == active && r.rounds[0].excluded == excluded
  {
    var w := WinnerTiebreak(t, active, depth);
    AllTiedRoundOk(t, active, key, excluded, w, low);
    TraceLast(t, Round(active, key, excluded, AllTied(w)), w);
  }

  /** Someone has more than the fewest votes: a candidate with fewest votes is eliminated. */
  lemma {:induction false} EliminationCase(t: Table, active: seq<nat>, key: seq<int>, excluded: seq<nat>, depth: nat, y: nat)
    requires ValidTable(t) && Candidates(t, active) && |active| >= 2 && |key| == t.n
    requires forall c <- active :: key[c] == LevelVotes(t, active, 0, c)
    requires forall c <- active :: key[c] < Majority(M(t))
    requires y in active && key[y] != MinKey(active, key)
    requires |Filter(active, HasKey(key, MinKey(active, key)))| != |active|
    ensures var r := NoMajority(t, active, key, excluded, depth);
      && Trace(t, r.rounds, r.winner)
      && r.rounds[0].active == active && r.rounds[0].excluded == excluded
    decreases |active|, 2
  {
    var low := MinKey(active, key);
    var lowest := Filter(active, HasKey(key, low));
    FilterCandidates(t, active, HasKey(key, low));
    BottomNonEmpty(active, key);
    var out := if |lowest| == 1 then lowest[0] else EliminationTiebreak(t, lowest, active, depth);
    assert out in lowest;
    EliminatedRoundOk(t, active, key, excluded, out, y);
    EliminationTrace(t, active, key, excluded, depth, out);
  }

  /** An elimination round followed by the rounds of the candidates it leaves. */
  lemma {:induction false} EliminationTrace(t: Table, active: seq<nat>, key: seq<int>, excluded: seq<nat>, depth: nat, out: nat)
    requires ValidTable(t) && Candidates(t, active) && |active| >= 2 && |key| == t.n && out in active
    requires RoundOk(t, Round(active, key, excluded, Eliminated(out)))
    ensures var rest := Rounds(t, Without(active, out), false, depth);
      Trace(t, [Round(active, key, excluded, Eliminated(out))] + rest.rounds, rest.winner)
    decreases |active|, 1
  {
    var rd := Round(active, key, excluded, Eliminated(out));
    var left := Without(active, out);
    RoundsTrace(t, left, false, depth);
    var rest := Rounds(t, left, false, depth);
    TraceCons(t, rd, rest.rounds, rest.winner);
  }

  /**
   Round 1 counts the given candidates; when some but not all of them have
   no first-choice vote, it plays on among the others and records those
   as excluded, and otherwise it keeps them all and excludes nobody.
   */
  predicate FirstRound(t: Table, candidates: seq<nat>, rd: Round)
    requires ValidTable(t) && Candidates(t, candidates)
  {
    var zero := Filter(candidates, NoVotes(t, candidates));
    && rd.votes == VoteKey(t, candidates)
    && if 0 < |zero| < |candidates| then rd.active == Filter(candidates, SomeVotes(t, candidates)) && rd.excluded == zero
       else rd.active == candidates && rd.excluded == []
  }

  /**
   _run_irv yields a sound trace of rounds whose first round is round 1
   above; a single candidate wins without a round.
   */
  lemma IrvTrace(t: Table, candidates: seq<nat>, depth: nat)
    requires ValidTable(t) && Candidates(t, candidates) && |candidates| > 0
    ensures var r := RunIrv(t, candidates, depth);
      && Trace(t, r.rounds, r.winner)
      && (|candidates| == 1 ==> r == Irv(One(candidates[0]), []))
      && (|candidates| >= 2 ==> FirstRound(t, candidates, r.rounds[0]))
  {
    RoundsTrace(t, candidates, true, depth);
    if |candidates| >= 2 {
      if 0 < |Filter(candidates, NoVotes(t, candidates))| < |candidates| {
        ExcludeFirst(t, candidates, depth);
      } else {
        DecideFirst(t, candidates, VoteKey(t, candidates), [], depth);
      }
    }
  }

  /** The round 1 exclusion plays on among the candidates with votes and records the others. */
  lemma ExcludeFirst(t: Table, active: seq<nat>, depth: nat)
    requires ValidTable(t) && Candidates(t, active) && |active| >= 2
    requires 0 < |Filter(active, NoVotes(t, active))| < |active|
    ensures var r := Exclude(t, active, depth);
      && r.rounds[0].active == Filter(active, SomeVotes(t, active))
      && r.rounds[0].excluded == Filter(active, NoVotes(t, active))
      && r.rounds[0].votes == VoteKey(t, active)
  {
    var kept := Filter(active, SomeVotes(t, active));
    FilterCandidates(t, active, SomeVotes(t, active));
    FilterComplement(active, NoVotes(t, active), SomeVotes(t, active));
    if |kept| >= 2 {
      DecideFirst(t, kept, VoteKey(t, active), Filter(active, NoVotes(t, active)), depth);
    }
  }

  /** The round Decide opens is over its own candidates, votes and exclusions. */
  lemma DecideFirst(t: Table, active: seq<nat>, key: seq<int>, excluded: seq<nat>, depth: nat)
    requires ValidTable(t) && Candidates(t, active) && |active| >= 2 && |key| == t.n
    ensures var r := Decide(t, active, key, excluded, depth);
      r.rounds[0].active == active && r.rounds[0].excluded == excluded && r.rounds[0].votes == key
  {
    var top := Filter(active, Reaching(key, Majority(M(t))));
    if |top| == 0 {
      var low := MinKey(active, key);
      var lowest := Filter(active, HasKey(key, low));
      FilterCandidates(t, active, HasKey(key, low));
      BottomNonEmpty(active, key);
      if |lowest| != |active| {
        var out := if |lowest| == 1 then lowest[0] else EliminationTiebreak(t, lowest, active, depth);
        var rest := Rounds(t, Without(active, out), false, depth);
        assert NoMajority(t, active, key, excluded, depth).rounds == [Round(active, key, excluded, Eliminated(out))] + rest.rounds;
      }
    }
  }

  /**
   A candidate whom a majority (m // 2 + 1) of judges rank first among the
   candidates wins IRV outright: in round 1, before any elimination, and
   even when round 1 drops candidates with no first-choice vote.
   */
  lemma Landslide(t: Table, candidates: seq<nat>, c: nat, depth: nat)
    requires ValidTable(t) && Candidates(t, candidates) && c in candidates
    requires LevelVotes(t, candidates, 0, c) >= Majority(M(t))
    ensures var r := RunIrv(t, candidates, depth);
      && r.winner == One(c)
      && |r.rounds| == (if |candidates| == 1 then 0 else 1)
      && (|candidates| >= 2 ==> r.rounds[0].end == MajorityWinner(c))
  {
    if |candidates| == 1 {
      assert candidates == [candidates[0]];
    } else if 0 < |Filter(candidates, NoVotes(t, candidates))| < |candidates| {
      ExcludeLandslide(t, candidates, c, depth);
    } else {
      MajorityFilter(t, candidates, c);
      DecideMajority(t, candidates, VoteKey(t, candidates), [], depth, c);
    }
  }

  /** A majority candidate survives the round 1 exclusion and wins that round. */
  lemma ExcludeLandslide(t: Table, active: seq<nat>, c: nat, depth: nat)
    requires ValidTable(t) && Candidates(t, active) && c in active && |active| >= 2
    requires 0 < |Filter(active, NoVotes(t, active))| < |active|
    requires LevelVotes(t, active, 0, c) >= Majority(M(t))
    ensures var r := Exclude(t, active, depth);
      r.winner == One(c) && |r.rounds| == 1 && r.rounds[0].end == MajorityWinner(c)
  {
    var key := VoteKey(t, active);
    var kept := Filter(active, SomeVotes(t, active));
    var zero := Filter(active, NoVotes(t, active));
    FilterCandidates(t, active, SomeVotes(t, active));
    assert SomeVotes(t, active)(c);
    if |kept| == 1 {
      assert kept == [kept[0]];
    } else {
      var p := Reaching(key, Majority(M(t)));
      forall x <- kept | x != c ensures !p(x) {
        MajorityAlone(t, active, c, x);
      }
      FilterOnly(kept, p, c);
      DecideMajority(t, kept, key, zero, depth, c);
    }
  }

  /** When only c reaches the majority threshold, the round ends with c as the winner. */
  lemma DecideMajority(t: Table, active: seq<nat>, key: seq<int>, excluded: seq<nat>, depth: nat, c: nat)
    requires ValidTable(t) && Candidates(t, active) && |active| >= 2 && |key| == t.n
    requires Filter(active, Reaching(key, Majority(M(t)))) == [c]
    ensures Decide(t, active, key, excluded, depth) == Irv(One(c), [Round(active, key, excluded, MajorityWinner(c))])
  {
  }
}
