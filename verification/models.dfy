/**
 The shared data model of the tabulation engines (core/models.py):
 the scoresheet, a judge's ranking, tie-aware placement records and the
 lookup of a competitor's place in a result.

 The engines themselves work on `Table`, the same scoresheet with judges and
 competitors replaced by their positions in the sheet's lists; `ToTable`
 performs that translation once every placement is known to be present.
 */
module Models {
  import opened Seqs
  import opened Sorting

  type Id = string

  /** A judge's placement of a competitor; 1 is best. */
  type Rank = p: int | p >= 1 witness 1

  datatype Option<T> = None | Some(value: T)

  /** The errors the engines raise instead of ranking malformed input. */
  datatype Error =
    | MissingPlacement
    | PlacementOutOfRange

  datatype Result<T> = Success(value: T) | Failure(error: Error)

  datatype Scoresheet = Scoresheet(
    competitionName: string,
    competitors: seq<Id>,
    judges: seq<Id>,
    rankings: map<Id, map<Id, Rank>>)

  function NumCompetitors(s: Scoresheet): nat
  {
    |s.competitors|
  }

  function NumJudges(s: Scoresheet): nat
  {
    |s.judges|
  }

  /** A judge's placement of a competitor; a missing judge or competitor is an error, never a default. */
  function GetPlacement(s: Scoresheet, judge: Id, competitor: Id): (r: Option<Rank>)
    ensures r.Some? <==> judge in s.rankings && competitor in s.rankings[judge]
    ensures r.Some? ==> r.value == s.rankings[judge][competitor]
  {
    if judge in s.rankings && competitor in s.rankings[judge] then Some(s.rankings[judge][competitor])
    else None
  }

  /** Every judge of the sheet has placed every competitor of the sheet. */
  predicate Complete(s: Scoresheet)
  {
    forall j, c :: 0 <= j < |s.judges| && 0 <= c < |s.competitors| ==>
      GetPlacement(s, s.judges[j], s.competitors[c]).Some?
  }

  /** Every judge of the sheet has an entry in the rankings map, placements or not. */
  predicate JudgesListed(s: Scoresheet)
  {
    forall j <- s.judges :: j in s.rankings
  }

  // ---------------------------------------------------------------------------
  // Index form of a scoresheet

  /** rows[j][c] is the placement judge number j gave competitor number c. */
  datatype Table = Table(n: nat, rows: seq<seq<int>>)

  predicate ValidTable(t: Table)
  {
    forall j :: 0 <= j < |t.rows| ==>
      |t.rows[j]| == t.n && forall c :: 0 <= c < t.n ==> t.rows[j][c] >= 1
  }

  /** Number of judges of a table. */
  function M(t: Table): nat
  {
    |t.rows|
  }

  /** The places 1, 2, ..., n. */
  function Places(n: nat): (r: seq<int>)
    ensures |r| == n && forall i :: 0 <= i < n ==> r[i] == i + 1
  {
    seq(n, i => i + 1)
  }

  /** Judge j hands out each of the places 1, ..., n exactly once, with no two competitors level. */
  predicate StrictBallot(t: Table, j: nat)
    requires ValidTable(t) && j < M(t)
  {
    multiset(t.rows[j]) == multiset(Places(t.n))
  }

  /** What each judge's placement of c is worth as Borda points over the whole field: n minus the placement. */
  function JudgePoints(t: Table, c: nat): (r: seq<int>)
    requires ValidTable(t) && c < t.n
    ensures |r| == M(t) && forall j :: 0 <= j < M(t) ==> r[j] == t.n - t.rows[j][c]
  {
    seq(M(t), j requires 0 <= j < M(t) => t.n - t.rows[j][c])
  }

  /** Every competitor's sum of n minus its placement over all judges: the Borda score that Sequential IRV's tiebreaks use. */
  function BordaKey(t: Table): (key: seq<int>)
    requires ValidTable(t)
    ensures |key| == t.n && forall c :: 0 <= c < t.n ==> key[c] == Sum(JudgePoints(t, c))
  {
    seq(t.n, c requires 0 <= c < t.n => Sum(JudgePoints(t, c)))
  }

  function ToTable(s: Scoresheet): (t: Table)
    requires Complete(s)
    ensures ValidTable(t) && t.n == |s.competitors| && M(t) == |s.judges|
    ensures forall j, c :: 0 <= j < |s.judges| && 0 <= c < |s.competitors| ==>
      GetPlacement(s, s.judges[j], s.competitors[c]) == Some(t.rows[j][c] as Rank)
  {
    Table(|s.competitors|,
      seq(|s.judges|, j requires 0 <= j < |s.judges| =>
        seq(|s.competitors|, c requires 0 <= c < |s.competitors| =>
          assert GetPlacement(s, s.judges[j], s.competitors[c]).Some?;
          s.rankings[s.judges[j]][s.competitors[c]] as int)))
  }

  // ---------------------------------------------------------------------------
  // A judge's ranking

  predicate IntLe(a: int, b: int)
  {
    a <= b
  }

  lemma IntLeTotalPreorder()
    ensures TotalPreorder(IntLe)
  {
  }

  /** Competitor numbers sorted by judge j's placement, ties in entry order. */
  function JudgeRanking(t: Table, j: nat): (r: seq<nat>)
    requires ValidTable(t) && j < M(t)
    ensures |r| == t.n && Below(r, t.n) && Distinct(r)
    ensures multiset(r) == multiset(Iota(t.n))
    ensures forall i, k :: 0 <= i < k < |r| ==> t.rows[j][r[i]] <= t.rows[j][r[k]]
    ensures forall i, k :: 0 <= i < k < |r| && t.rows[j][r[i]] == t.rows[j][r[k]] ==> r[i] < r[k]
  {
    IotaFacts(t.n);
    var r := SortBy(Iota(t.n), t.rows[j], IntLe);
    IntLeTotalPreorder();
    SortByOrdered(Iota(t.n), t.rows[j], IntLe);
    SortByTiesAscending(Iota(t.n), t.rows[j], IntLe);
    PermutationDistinct(r, Iota(t.n));
    assert |r| == |multiset(r)| == |multiset(Iota(t.n))| == t.n;
    r
  }

  /** Every competitor number of the table occurs in a judge's ranking. */
  lemma JudgeRankingMembers(t: Table, j: nat)
    requires ValidTable(t) && j < M(t)
    ensures forall c :: c in JudgeRanking(t, j) <==> 0 <= c < t.n
  {
    IotaFacts(t.n);
    var r := JudgeRanking(t, j);
    forall c ensures c in r <==> c in Iota(t.n) {
      assert c in r <==> c in multiset(r);
      assert c in Iota(t.n) <==> c in multiset(Iota(t.n));
    }
  }

  /** Judge j ranks a ahead of b: a better placement, or an equal one and earlier entry. */
  predicate Prefers(t: Table, j: nat, a: nat, b: nat)
    requires ValidTable(t) && j < M(t) && a < t.n && b < t.n
  {
    t.rows[j][a] < t.rows[j][b] || (t.rows[j][a] == t.rows[j][b] && a < b)
  }

  /** Position of a competitor in judge j's ranking. */
  function PositionIn(t: Table, j: nat, c: nat): nat
    requires ValidTable(t) && j < M(t)
  {
    IndexOf(JudgeRanking(t, j), c)
  }

  /** A judge's ranking puts a before b exactly when the judge prefers a. */
  lemma RankingOrder(t: Table, j: nat, a: nat, b: nat)
    requires ValidTable(t) && j < M(t) && a < t.n && b < t.n && a != b
    ensures PositionIn(t, j, a) < t.n && PositionIn(t, j, b) < t.n
    ensures PositionIn(t, j, a) < PositionIn(t, j, b) <==> Prefers(t, j, a, b)
  {
    JudgeRankingMembers(t, j);
    var r := JudgeRanking(t, j);
    var ia, ib := PositionIn(t, j, a), PositionIn(t, j, b);
    assert r[ia] == a && r[ib] == b;
    assert ia < ib ==> Prefers(t, j, a, b);
    assert ib < ia ==> Prefers(t, j, b, a);
  }

  /** Every name in `r` was placed by `judge`, and the placements never improve along `r`. */
  predicate ByPlacement(s: Scoresheet, judge: Id, r: seq<Id>)
    requires judge in s.rankings
  {
    && (forall x <- r :: x in s.rankings[judge])
    && forall i, k :: 0 <= i < k < |r| ==> s.rankings[judge][r[i]] <= s.rankings[judge][r[k]]
  }

  /** Names with equal placements keep the order of the sheet's competitor list. */
  predicate TiesInEntryOrder(s: Scoresheet, judge: Id, r: seq<Id>)
    requires judge in s.rankings && forall x <- r :: x in s.rankings[judge]
  {
    forall i, k :: 0 <= i < k < |r| && s.rankings[judge][r[i]] == s.rankings[judge][r[k]]
      ==> IndexOf(s.competitors, r[i]) < IndexOf(s.competitors, r[k])
  }

  /**
   get_judge_ranking on names: the sheet's competitors sorted by one judge's
   placements; a missing judge or placement is an error.
   */
  function GetJudgeRanking(s: Scoresheet, judge: Id): (r: Result<seq<Id>>)
    ensures r.Success? <==> judge in s.rankings && forall c <- s.competitors :: c in s.rankings[judge]
    ensures r.Success? ==> multiset(r.value) == multiset(s.competitors)
    ensures r.Success? ==> ByPlacement(s, judge, r.value)
    ensures r.Success? && Distinct(s.competitors) ==> TiesInEntryOrder(s, judge, r.value)
  {
    if judge in s.rankings && forall c <- s.competitors :: c in s.rankings[judge] then
      var order := JudgeRanking(JudgeTable(s, judge), 0);
      NamesOfRanking(s, judge, order);
      Success(Gather(order, s.competitors))
    else Failure(MissingPlacement)
  }

  /** Asking every judge for a ranking succeeds exactly when every judge is listed and the sheet is complete. */
  lemma AllJudgeRankings(s: Scoresheet)
    ensures (forall j <- s.judges :: GetJudgeRanking(s, j).Success?) <==> JudgesListed(s) && Complete(s)
  {
    if forall j <- s.judges :: GetJudgeRanking(s, j).Success? {
      forall j, c | 0 <= j < |s.judges| && 0 <= c < |s.competitors|
        ensures GetPlacement(s, s.judges[j], s.competitors[c]).Some?
      {
        assert GetJudgeRanking(s, s.judges[j]).Success?;
        assert s.competitors[c] in s.competitors;
      }
    }
    if JudgesListed(s) && Complete(s) {
      forall j <- s.judges ensures GetJudgeRanking(s, j).Success? {
        var k :| 0 <= k < |s.judges| && s.judges[k] == j;
        forall c <- s.competitors ensures c in s.rankings[j] {
          var i :| 0 <= i < |s.competitors| && s.competitors[i] == c;
          assert GetPlacement(s, s.judges[k], s.competitors[i]).Some?;
        }
      }
    }
  }

  /** A one-judge table holding the placements of `judge`. */
  function JudgeTable(s: Scoresheet, judge: Id): (t: Table)
    requires judge in s.rankings && forall c <- s.competitors :: c in s.rankings[judge]
    ensures ValidTable(t) && M(t) == 1 && t.n == |s.competitors|
    ensures forall i :: 0 <= i < |s.competitors| ==> t.rows[0][i] == s.rankings[judge][s.competitors[i]]
  {
    Table(|s.competitors|,
      [seq(|s.competitors|, i requires 0 <= i < |s.competitors| => s.rankings[judge][s.competitors[i]] as int)])
  }

  lemma NamesOfRanking(s: Scoresheet, judge: Id, order: seq<nat>)
    requires judge in s.rankings && forall c <- s.competitors :: c in s.rankings[judge]
    requires order == JudgeRanking(JudgeTable(s, judge), 0)
    ensures Below(order, |s.competitors|)
    ensures multiset(Gather(order, s.competitors)) == multiset(s.competitors)
    ensures ByPlacement(s, judge, Gather(order, s.competitors))
    ensures Distinct(s.competitors) ==> TiesInEntryOrder(s, judge, Gather(order, s.competitors))
  {
    NamesPermutation(s, judge, order);
    NamesOrdered(s, judge, order);
    if Distinct(s.competitors) {
      NamesTies(s, judge, order);
    }
  }

  lemma NamesPermutation(s: Scoresheet, judge: Id, order: seq<nat>)
    requires judge in s.rankings && forall c <- s.competitors :: c in s.rankings[judge]
    requires order == JudgeRanking(JudgeTable(s, judge), 0)
    ensures Below(order, |s.competitors|)
    ensures multiset(Gather(order, s.competitors)) == multiset(s.competitors)
  {
    IotaFacts(|s.competitors|);
    GatherPermutation(order, Iota(|s.competitors|), s.competitors);
    GatherIota(s.competitors);
  }

  lemma NamesOrdered(s: Scoresheet, judge: Id, order: seq<nat>)
    requires judge in s.rankings && forall c <- s.competitors :: c in s.rankings[judge]
    requires order == JudgeRanking(JudgeTable(s, judge), 0)
    ensures Below(order, |s.competitors|)
    ensures ByPlacement(s, judge, Gather(order, s.competitors))
  {
    var t := JudgeTable(s, judge);
    var r := Gather(order, s.competitors);
    NamesPlacements(s, judge, order);
    forall x <- r ensures x in s.rankings[judge] {
      var i :| 0 <= i < |r| && r[i] == x;
    }
    forall i, k | 0 <= i < k < |order| ensures s.rankings[judge][r[i]] <= s.rankings[judge][r[k]] {
      assert t.rows[0][order[i]] <= t.rows[0][order[k]];
    }
  }

  lemma NamesTies(s: Scoresheet, judge: Id, order: seq<nat>)
    requires judge in s.rankings && forall c <- s.competitors :: c in s.rankings[judge]
    requires order == JudgeRanking(JudgeTable(s, judge), 0)
    requires Distinct(s.competitors)
    ensures Below(order, |s.competitors|)
    ensures ByPlacement(s, judge, Gather(order, s.competitors))
    ensures TiesInEntryOrder(s, judge, Gather(order, s.competitors))
  {
    var t := JudgeTable(s, judge);
    var r := Gather(order, s.competitors);
    NamesOrdered(s, judge, order);
    NamesPlacements(s, judge, order);
    NamesEntryOrder(s, judge, order);
    forall i, k | 0 <= i < k < |order| && s.rankings[judge][r[i]] == s.rankings[judge][r[k]]
      ensures IndexOf(s.competitors, r[i]) < IndexOf(s.competitors, r[k])
    {
      assert t.rows[0][order[i]] == t.rows[0][order[k]];
    }
  }

  lemma NamesPlacements(s: Scoresheet, judge: Id, order: seq<nat>)
    requires judge in s.rankings && forall c <- s.competitors :: c in s.rankings[judge]
    requires order == JudgeRanking(JudgeTable(s, judge), 0)
    ensures forall i :: 0 <= i < |order| ==>
      Gather(order, s.competitors)[i] in s.rankings[judge] &&
      s.rankings[judge][Gather(order, s.competitors)[i]] == JudgeTable(s, judge).rows[0][order[i]]
  {
  }

  lemma NamesEntryOrder(s: Scoresheet, judge: Id, order: seq<nat>)
    requires judge in s.rankings && forall c <- s.competitors :: c in s.rankings[judge]
    requires order == JudgeRanking(JudgeTable(s, judge), 0)
    requires Distinct(s.competitors)
    ensures forall i :: 0 <= i < |order| ==> IndexOf(s.competitors, Gather(order, s.competitors)[i]) == order[i]
  {
    forall i | 0 <= i < |order| ensures IndexOf(s.competitors, Gather(order, s.competitors)[i]) == order[i] {
      IndexOfDistinct(s.competitors, order[i]);
    }
  }

  // ---------------------------------------------------------------------------
  // Placement records

  /** One step of an ordered result: a single competitor, or competitors tied with each other. */
  datatype Entry<T> = Single(name: T) | Group(names: seq<T>)

  function Members<T>(e: Entry<T>): seq<T>
  {
    match e
    case Single(x) => [x]
    case Group(xs) => xs
  }

  /** All names of an ordered result, first place first. */
  function Flatten<T>(es: seq<Entry<T>>): seq<T>
  {
    if |es| == 0 then [] else Members(es[0]) + Flatten(es[1..])
  }

  datatype Placement<T> = Placement(name: T, rank: int, tied: bool)

  function Names<T>(ps: seq<Placement<T>>): (r: seq<T>)
    ensures |r| == |ps| && forall i :: 0 <= i < |ps| ==> r[i] == ps[i].name
  {
    seq(|ps|, i requires 0 <= i < |ps| => ps[i].name)
  }

  /** The records of one entry, all at `rank`. */
  function EntryRecords<T>(e: Entry<T>, rank: int): (r: seq<Placement<T>>)
    ensures |r| == |Members(e)|
    ensures forall t :: 0 <= t < |r| ==> r[t] == Placement(Members(e)[t], rank, e.Group?)
  {
    match e
    case Single(x) => [Placement(x, rank, false)]
    case Group(xs) => seq(|xs|, t requires 0 <= t < |xs| => Placement(xs[t], rank, true))
  }

  /** build_ranking from a starting rank: an entry takes the current rank and advances it by its size. */
  function BuildFrom<T>(es: seq<Entry<T>>, rank: int): (r: seq<Placement<T>>)
  {
    if |es| == 0 then []
    else EntryRecords(es[0], rank) + BuildFrom(es[1..], rank + |Members(es[0])|)
  }

  /** The records name every competitor of the entries, in order. */
  lemma {:induction false} BuildFromNames<T>(es: seq<Entry<T>>, rank: int)
    ensures Names(BuildFrom(es, rank)) == Flatten(es)
  {
    if |es| > 0 {
      var head := EntryRecords(es[0], rank);
      var tail := BuildFrom(es[1..], rank + |Members(es[0])|);
      BuildFromNames(es[1..], rank + |Members(es[0])|);
      assert Names(head) == Members(es[0]);
      assert Names(head + tail) == Names(head) + Names(tail);
    }
  }

  /** Placement.build_ranking: ranks start at 1. */
  function BuildRanking<T>(es: seq<Entry<T>>): (r: seq<Placement<T>>)
    ensures Names(r) == Flatten(es)
  {
    BuildFromNames(es, 1);
    BuildFrom(es, 1)
  }

  /** Ranks start at `rank`, never exceed `rank` plus the position, and never go down. */
  predicate RanksFrom<T>(r: seq<Placement<T>>, rank: int)
  {
    && (forall i :: 0 <= i < |r| ==> rank <= r[i].rank <= rank + i)
    && (forall i, k :: 0 <= i < k < |r| ==> r[i].rank <= r[k].rank)
  }

  /** Records all at `rank`, followed by records ranked from `rank` plus their count. */
  lemma AppendRanks<T>(head: seq<Placement<T>>, tail: seq<Placement<T>>, rank: int)
    requires forall i :: 0 <= i < |head| ==> head[i].rank == rank
    requires RanksFrom(tail, rank + |head|)
    ensures RanksFrom(head + tail, rank)
  {
    var r := head + tail;
    forall i | 0 <= i < |r| ensures rank <= r[i].rank <= rank + i {
      if i >= |head| {
        assert r[i] == tail[i - |head|];
      }
    }
    forall i, k | 0 <= i < k < |r| ensures r[i].rank <= r[k].rank {
      if k >= |head| {
        assert r[k] == tail[k - |head|];
        if i >= |head| {
          assert r[i] == tail[i - |head|];
        }
      }
    }
  }

  lemma {:induction false} BuildFromRanks<T>(es: seq<Entry<T>>, rank: int)
    ensures RanksFrom(BuildFrom(es, rank), rank)
  {
    if |es| > 0 {
      var head := EntryRecords(es[0], rank);
      var rank' := rank + |Members(es[0])|;
      BuildFromRanks(es[1..], rank');
      AppendRanks(head, BuildFrom(es[1..], rank'), rank);
    }
  }

  /** build_ranking: ranks start at 1, a competitor's rank is at most its position plus one, and ranks never go down. */
  lemma BuildRankingRanks<T>(es: seq<Entry<T>>)
    ensures var r := BuildRanking(es);
      forall i :: 0 <= i < |r| ==> 1 <= r[i].rank <= i + 1
    ensures var r := BuildRanking(es);
      forall i, k :: 0 <= i < k < |r| ==> r[i].rank <= r[k].rank
  {
    BuildFromRanks(es, 1);
    assert RanksFrom(BuildFrom(es, 1), 1);
  }

  /** Numbering two runs of entries in one go numbers the second from where the first stops. */
  lemma {:induction false} BuildFromAppend<T>(a: seq<Entry<T>>, b: seq<Entry<T>>, rank: int)
    ensures BuildFrom(a + b, rank) == BuildFrom(a, rank) + BuildFrom(b, rank + |Flatten(a)|)
  {
    if |a| == 0 {
      assert a + b == b;
      assert BuildFrom(a, rank) == [] && |Flatten(a)| == 0;
      assert BuildFrom(a, rank) + BuildFrom(b, rank) == BuildFrom(b, rank);
    } else {
      var rank' := rank + |Members(a[0])|;
      AppendCons(a, b);
      BuildFromSplit(a + b, rank);
      BuildFromSplit(a, rank);
      FlattenSplit(a);
      BuildFromAppend(a[1..], b, rank');
      AppendAssoc(EntryRecords(a[0], rank), BuildFrom(a[1..], rank'), BuildFrom(b, rank + |Flatten(a)|));
    }
  }

  lemma FlattenSplit<T>(es: seq<Entry<T>>)
    requires |es| > 0
    ensures Flatten(es) == Members(es[0]) + Flatten(es[1..])
  {
  }

  /** The records of a non-empty result: the first entry's, then the rest numbered after it. */
  lemma BuildFromSplit<T>(es: seq<Entry<T>>, rank: int)
    requires |es| > 0
    ensures BuildFrom(es, rank) == EntryRecords(es[0], rank) + BuildFrom(es[1..], rank + |Members(es[0])|)
  {
  }

  lemma IndexShift<T>(head: seq<T>, tail: seq<T>, j: nat)
    requires j < |tail|
    ensures |head| + j < |head + tail| && (head + tail)[|head| + j] == tail[j]
  {
  }

  /**
   The t-th name of entry e sits at position |Flatten(es[..e])| + t, ranked
   one below everything in earlier entries, and is marked tied exactly when
   the entry is a group.
   */
  lemma BuildFromAt<T>(es: seq<Entry<T>>, rank: int, e: nat, t: nat)
    requires e < |es| && t < |Members(es[e])|
    ensures |Flatten(es[..e])| + t < |BuildFrom(es, rank)|
    ensures BuildFrom(es, rank)[|Flatten(es[..e])| + t]
         == Placement(Members(es[e])[t], rank + |Flatten(es[..e])|, es[e].Group?)
  {
    var a, b := es[..e], es[e..];
    var rank' := rank + |Flatten(a)|;
    var pre, post := BuildFrom(a, rank), BuildFrom(b, rank');
    TakeDrop(es, e);
    BuildFromAppend(a, b, rank);
    assert BuildFrom(es, rank) == pre + post;
    BuildFromLength(a, rank);
    EntryFirst(b, rank', t);
    IndexShift(pre, post, t);
    var k := |Flatten(es[..e])| + t;
    assert k == |pre| + t;
    assert BuildFrom(es, rank)[k] == (pre + post)[|pre| + t];
  }

  /** The first records of a result are those of its first entry. */
  lemma EntryFirst<T>(es: seq<Entry<T>>, rank: int, t: nat)
    requires |es| > 0 && t < |Members(es[0])|
    ensures t < |BuildFrom(es, rank)|
    ensures BuildFrom(es, rank)[t] == Placement(Members(es[0])[t], rank, es[0].Group?)
  {
    BuildFromSplit(es, rank);
    var records := EntryRecords(es[0], rank);
    IndexLeft(records, BuildFrom(es[1..], rank + |Members(es[0])|), t);
  }

  lemma TakeDrop<T>(xs: seq<T>, e: nat)
    requires e < |xs|
    ensures xs[..e] + xs[e..] == xs && xs[e..][0] == xs[e]
  {
  }

  lemma IndexLeft<T>(head: seq<T>, tail: seq<T>, j: nat)
    requires j < |head|
    ensures (head + tail)[j] == head[j]
  {
  }

  lemma BuildFromLength<T>(es: seq<Entry<T>>, rank: int)
    ensures |BuildFrom(es, rank)| == |Flatten(es)|
  {
    BuildFromNames(es, rank);
  }

  lemma BuildRankingAt<T>(es: seq<Entry<T>>, e: nat, t: nat)
    requires e < |es| && t < |Members(es[e])|
    ensures |Flatten(es[..e])| + t < |BuildRanking(es)|
    ensures BuildRanking(es)[|Flatten(es[..e])| + t]
         == Placement(Members(es[e])[t], 1 + |Flatten(es[..e])|, es[e].Group?)
  {
    BuildFromAt(es, 1, e, t);
  }

  /** The t-th member of entry e is the name at its position in the flattened result. */
  lemma EntryAt<T>(es: seq<Entry<T>>, e: nat, t: nat)
    requires e < |es| && t < |Members(es[e])|
    ensures |Flatten(es[..e])| + t < |Flatten(es)|
    ensures Flatten(es)[|Flatten(es[..e])| + t] == Members(es[e])[t]
  {
    BuildRankingAt(es, e, t);
    assert Names(BuildRanking(es))[|Flatten(es[..e])| + t] == Members(es[e])[t];
  }

  /** A name of the flattened result is some member of some entry. */
  lemma InEntry<T>(es: seq<Entry<T>>, x: T) returns (e: nat, t: nat)
    requires x in Flatten(es)
    ensures e < |es| && t < |Members(es[e])| && Members(es[e])[t] == x
  {
    var i :| 0 <= i < |Flatten(es)| && Flatten(es)[i] == x;
    e, t := Locate(es, i);
    EntryAt(es, e, t);
  }

  /** In a result whose names are distinct, the members of one entry are distinct. */
  lemma EntryDistinct<T>(es: seq<Entry<T>>, e: nat, t: nat, u: nat)
    requires Distinct(Flatten(es)) && e < |es| && t < u < |Members(es[e])|
    ensures Members(es[e])[t] != Members(es[e])[u]
  {
    EntryAt(es, e, t);
    EntryAt(es, e, u);
  }

  /** Every position of a flattened result belongs to exactly one entry. */
  lemma {:induction false} Locate<T>(es: seq<Entry<T>>, i: nat) returns (e: nat, t: nat)
    requires i < |Flatten(es)|
    ensures e < |es| && t < |Members(es[e])| && i == |Flatten(es[..e])| + t
  {
    if i < |Members(es[0])| {
      e, t := 0, i;
      assert es[..0] == [];
    } else {
      var e', t' := Locate(es[1..], i - |Members(es[0])|);
      e, t := e' + 1, t';
      assert es[..e][1..] == es[1..][..e'];
    }
  }

  /** VotingResult.get_place: the rank of the first record with that name. */
  function GetPlace<T(==)>(ps: seq<Placement<T>>, name: T): (r: Option<int>)
    ensures r.None? <==> name !in Names(ps)
    ensures r.Some? ==> r.value == ps[IndexOf(Names(ps), name)].rank
  {
    if |ps| == 0 then None
    else if ps[0].name == name then Some(ps[0].rank)
    else
      NamesTail(ps);
      GetPlace(ps[1..], name)
  }

  lemma NamesTail<T>(ps: seq<Placement<T>>)
    requires |ps| > 0
    ensures Names(ps) == [ps[0].name] + Names(ps[1..])
  {
  }

  /** In a result whose names are distinct, each competitor's place is its entry's rank. */
  lemma PlaceOfMember<T>(es: seq<Entry<T>>, e: nat, t: nat)
    requires Distinct(Flatten(es)) && e < |es| && t < |Members(es[e])|
    ensures GetPlace(BuildRanking(es), Members(es[e])[t]) == Some(1 + |Flatten(es[..e])|)
  {
    var r, x := BuildRanking(es), Members(es[e])[t];
    var k := |Flatten(es[..e])|;
    var i := k + t;
    BuildRankingAt(es, e, t);
    assert r[i] == Placement(x, 1 + k, es[e].Group?);
    var names := Names(r);
    assert names == Flatten(es) && names[i] == x;
    IndexOfDistinct(names, i);
    assert IndexOf(names, x) == i;
  }

  lemma {:induction false} FlattenAppend<T>(a: seq<Entry<T>>, b: seq<Entry<T>>)
    ensures Flatten(a + b) == Flatten(a) + Flatten(b)
  {
    if |a| == 0 {
      assert a + b == b;
    } else {
      var ab := a + b;
      assert ab[0] == a[0] && ab[1..] == a[1..] + b;
      FlattenAppend(a[1..], b);
      assert Flatten(ab) == Members(a[0]) + Flatten(a[1..] + b);
    }
  }

  lemma FlattenOne<T>(e: Entry<T>)
    ensures Flatten([e]) == Members(e)
  {
    assert [e][1..] == [];
  }

  /** Every name in a sequence of entries is an index below `bound`. */
  predicate EntriesBelow(es: seq<Entry<nat>>, bound: nat)
  {
    Below(Flatten(es), bound)
  }

  lemma {:induction false} MembersBelow(es: seq<Entry<nat>>, e: nat, bound: nat)
    requires EntriesBelow(es, bound) && e < |es|
    ensures Below(Members(es[e]), bound) && EntriesBelow(es[1..], bound)
  {
    var h := Members(es[0]);
    assert Flatten(es) == h + Flatten(es[1..]);
    assert forall i :: 0 <= i < |Flatten(es[1..])| ==> Flatten(es[1..])[i] == Flatten(es)[|h| + i];
    if e == 0 {
      assert forall i :: 0 <= i < |h| ==> h[i] == Flatten(es)[i];
    } else {
      MembersBelow(es[1..], e - 1, bound);
    }
  }

  /** One entry with every competitor number replaced by its name. */
  function NameEntry<T>(e: Entry<nat>, names: seq<T>): (r: Entry<T>)
    requires Below(Members(e), |names|)
    ensures Members(r) == Gather(Members(e), names) && r.Group? == e.Group?
  {
    match e
    case Single(c) =>
      assert c == Members(e)[0];
      Single(names[c])
    case Group(cs) => Group(Gather(cs, names))
  }

  /** The same entries with every competitor number replaced by its name. */
  function NameEntries<T>(es: seq<Entry<nat>>, names: seq<T>): (r: seq<Entry<T>>)
    requires EntriesBelow(es, |names|)
    ensures |r| == |es| && Flatten(r) == Gather(Flatten(es), names)
    ensures forall e :: 0 <= e < |es| ==> r[e].Group? == es[e].Group?
  {
    if |es| == 0 then []
    else
      MembersBelow(es, 0, |names|);
      var h := NameEntry(es[0], names);
      var rest := NameEntries(es[1..], names);
      GatherAppend(Members(es[0]), Flatten(es[1..]), names);
      assert Flatten([h] + rest) == Members(h) + Flatten(rest) by {
        assert ([h] + rest)[1..] == rest;
      }
      [h] + rest
  }

  /** An engine's ordered entries of competitor numbers, named and numbered into placement records. */
  function Publish<T>(es: seq<Entry<nat>>, names: seq<T>): (r: seq<Placement<T>>)
    requires EntriesBelow(es, |names|)
    ensures Names(r) == Gather(Flatten(es), names)
    ensures forall i :: 0 <= i < |r| ==> 1 <= r[i].rank <= i + 1
  {
    BuildRankingRanks(NameEntries(es, names));
    BuildRanking(NameEntries(es, names))
  }

  /** Entries that place every competitor number once publish every name once. */
  lemma PublishPermutation<T>(es: seq<Entry<nat>>, names: seq<T>)
    requires multiset(Flatten(es)) == multiset(Iota(|names|))
    ensures EntriesBelow(es, |names|)
    ensures multiset(Names(Publish(es, names))) == multiset(names)
  {
    PermutationOfIota(Flatten(es), |names|);
    IotaFacts(|names|);
    GatherPermutation(Flatten(es), Iota(|names|), names);
    GatherIota(names);
  }
}
