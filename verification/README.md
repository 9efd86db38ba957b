# who-woulda-won tabulation engines, modelled in Dafny

This project models the core of who-woulda-won: the shared scoresheet model and the four ranking engines. The engines are Borda count, Relative Placement (the Skating System), Schulze and Sequential IRV. Each engine takes a scoresheet and returns a ranking that may contain ties. A scoresheet holds:

- an ordered list of competitors;
- a list of judges;
- one placement per judge and competitor, with 1 as the best.

All the engines work on the **index form** of a scoresheet, the `Table` of `models.dfy`:

- competitor `c` is the `c`-th name of the competitor list;
- judge `j` is the `j`-th judge;
- `rows[j][c]` is the placement judge `j` gave competitor `c`.

`Models.ToTable` builds this form from a `Scoresheet` whose placements are all present. Each engine's `CalculateSheet` wraps its `Calculate`:

- A missing placement gives `Failure(MissingPlacement)`. The Python code raises `KeyError` there. Schulze and Sequential IRV ask every judge for a whole ranking (`get_judge_ranking`), so for them a judge absent from the rankings map fails too, even when there is nothing to rank in Schulze.
- Sequential IRV consults no judge when one competitor or none is left, so a sheet with at most one competitor always succeeds there. Its `CalculateSheet` takes the iteration order of the competitor set as a parameter and returns the flat list of names that `calculate` returns.
- A placement larger than the field gives `Failure(PlacementOutOfRange)` in Relative Placement. The Python code raises `IndexError` there.

Results are built as in the source. The engine produces a sequence of entries, each a single name or a tied group. `BuildRanking` turns those entries into `(name, rank, tied)` records.

| file | module | what it models |
|---|---|---|
| seqs.dfy | Seqs | sums, filters, counts and index sequences that the rest shares |
| sorting.dfy | Sorting | Python's stable `sorted`, as an insertion sort on competitor numbers |
| models.dfy | Models | `Scoresheet`, `get_placement`, `get_judge_ranking`, `Placement.build_ranking`, `get_place` |
| tally.dfy | Tally | the majority threshold `m // 2 + 1`, and the head-to-head count used by two engines |
| borda.dfy | Borda | `_compute_borda_scores`, `calculate` and the recursive `_break_ties` |
| relative_placement.dfy | RelativePlacement | cumulative counts, the cutoff scan of `calculate`, `_resolve_placement`, head-to-head |
| schulze.dfy | Schulze | the `d` matrix, strongest paths, wins, winning strength, grouping, `tiebreak_used` |
| irv_votes.dfy | IrvVotes | first-choice and n-th-choice vote counts among the active candidates |
| sequential_irv.dfy | SequentialIrv | `_run_irv`, `_head_to_head`, `_elimination_tiebreak`, `_winner_tiebreak` |
| irv_properties.dfy | IrvProperties | what every IRV round establishes, as a trace predicate |
| irv_placements.dfy | IrvPlacements | Sequential IRV's `calculate`: run IRV, place the winner, repeat |
| fixtures.dfy | Fixtures | the shared test scoresheets "Clear Winner" and "Disagreement", and the results their tests expect |

Some behaviour is shown by the shapes of the definitions rather than by a lemma:

- Termination of Borda's tie recursion is shown by its `decreases` clauses. The recursion runs on strictly smaller groups.
- Termination of the Relative Placement cutoff loops is shown by their `decreases` clauses, and so is termination of the IRV rounds.
- The IRV sub-election runs only at depth 0 and is called at depth 1. This is visible in the measure `Level(depth)`, which is 1 at the top and 0 inside, and which is the first component of every IRV `decreases` clause. A sub-election therefore cannot start another.

## Model

| member | source | states |
|---|---|---|
| Models.GetPlacement | core/models.py:42-44 | A placement exists exactly when the judge is in the rankings map and that judge placed the competitor. It is then that entry. A missing key is an error, never a default. |
| Models.ToTable | core/models.py:29-44 | The index form has one row per judge and one column per competitor. Cell `[j][c]` is what `get_placement` gives for the `j`-th judge and the `c`-th competitor. |
| Models.JudgeRanking | core/models.py:50-53 | A judge's ranking is a permutation of all competitor numbers. Its placements never improve along the ranking. Equal placements keep entry order, because the sort is stable. |
| Models.RankingOrder | core/models.py:50-53 | For two different competitors, the ranking lists `a` first exactly when the judge placed `a` better. If they were placed equal, `a` is listed first exactly when it comes first in the sheet. |
| Models.AllJudgeRankings | core/models.py:50-53 | Asking every judge for a ranking succeeds exactly when every judge is in the rankings map and every placement is present. |
| Models.GetJudgeRanking | core/models.py:50-53 | On names, the call succeeds exactly when the judge exists and placed every competitor. The result is a permutation of the competitor list and never improves in placement. When names are distinct, equal placements keep the sheet's order. |
| Models.BuildRanking | core/models.py:72-97 | The record names are the entries flattened in order: the singletons, with each group's members in their place. |
| Models.BuildRankingRanks | core/models.py:86-97 | Every rank is at least 1 and at most the position plus one. Ranks never decrease along the list. |
| Models.BuildRankingAt | core/models.py:87-95 | The `t`-th member of entry `e` gets rank 1 plus the number of names in earlier entries. It is tied exactly when its entry is a list, including a one-element list. |
| Models.GetPlace | core/models.py:114-119 | The result is `None` exactly when the name is absent. Otherwise it is the rank of the first record carrying the name. |
| Models.PlaceOfMember | core/models.py:114-119 | When names are distinct, asking `get_place` for a member of an entry of `build_ranking` gives 1 plus the number of names before that entry. |
| Models.Publish | core/models.py:72-97 | Publishing index entries gives records whose names are the competitors' names in flattened order, with each rank between 1 and the position plus one. |
| Models.PublishPermutation | core/models.py:86-97 | If the entries place every competitor number once, the published names are a permutation of the competitor list. |
| Sorting.SortByOrdered | core/models.py:53 | A sort under a total preorder puts every element's key at or before every later element's key. |
| Sorting.SortByStable | core/models.py:53 | For every key value, the elements with an equivalent key appear in their input order. This is the stability of `sorted`. |
| Sorting.SortByTiesAscending | core/voting/schulze.py:97-101 | When the input is in entry order, equal keys stay in entry order. This also holds with `reverse=True`. |
| Tally.Majority | core/voting/relative_placement.py:35 | `m // 2 + 1` is the least count greater than half the judges: twice it exceeds `m`, and twice one less does not. |
| Tally.HeadToHead | core/voting/relative_placement.py:272-294 | The two counts add up to `m`. `a`'s count is the judges placing `a` strictly better. There is no winner exactly when the counts are equal. Otherwise the larger count wins. |
| Tally.HeadToHeadTiesCountForB | core/voting/relative_placement.py:283-287 | `b`'s count is the judges placing `b` strictly better plus the judges placing the two level. Level judges count for `b`. |
| Tally.HeadToHeadSymmetric | core/voting/sequential_irv.py:199-215 | When no judge places the two level, swapping the pair swaps the counts and keeps the winner. |
| Borda.RelativeRanking | core/voting/borda.py:53 | A judge's ranking of a subset is a permutation of the subset, and its placements never improve along the ranking. |
| Borda.RelativeRankingStable | core/voting/borda.py:53 | Competitors with equal placement keep their order in the subset. |
| Borda.PointsMonotone | core/voting/borda.py:51-57 | A strictly better placement from a judge earns strictly more points from that judge. |
| Borda.PointsAtRank | core/voting/borda.py:54-55 | The competitor at position `i` of the relative ranking gets `k - 1 - i` points. |
| Borda.PointsArePermutation | core/voting/borda.py:47-57 | Over a subset of size `k`, each judge hands out the points `k - 1` down to 0 exactly once each. |
| Borda.JudgeTotal | core/voting/borda.py:51-57 | Each judge's points over a subset of size `k` add up to `k(k - 1)/2`. |
| Borda.Breakdown | core/voting/borda.py:49-57 | A breakdown has exactly one entry per judge. For a member of the subset, each entry is between 0 and `k - 1`. |
| Borda.ScoreBounds | core/voting/borda.py:55-57 | A member's score lies between 0 and `(k - 1)·m`. |
| Borda.ScoresTotal | core/voting/borda.py:47-57 | The scores of a subset of size `k` total `m·k(k - 1)/2`. |
| Borda.GroupsMembers | core/voting/borda.py:66-71 | Each score group holds exactly the competitors with that score, in entry order. |
| Borda.GroupsDecreasing | core/voting/borda.py:77 | The groups come in strictly decreasing score. |
| Borda.GroupsPermutation | core/voting/borda.py:66-71 | Together, the groups hold every input competitor exactly as often as the input does. |
| Borda.GroupsSingle | core/voting/borda.py:118-126 | There is a single group exactly when all the relative scores are equal. |
| Borda.BreakTies | core/voting/borda.py:103-167 | For two or more tied competitors, the first tiebreak record names the tied list at the current level. |
| Borda.BreakTiesFacts | core/voting/borda.py:112-167 | The result flattens to a permutation of the tied list and is non-empty when the input is. Every tiebreak record is at the current level or deeper. |
| Borda.UnresolvedExactly | core/voting/borda.py:125-133 | The whole tied list comes back as one group exactly when all relative scores are equal. The record says `unresolved` in exactly that case. |
| Borda.BreakTiesSplitShape | core/voting/borda.py:135-167 | When the relative scores differ, the result has at least two entries and the record says `recursive-borda`. |
| Borda.BreakTiesOrdered | core/voting/borda.py:151-165 | The resolved order never increases in relative score among the tied competitors. |
| Borda.ResolveGroupsFacts | core/voting/borda.py:77-89 | Placing the score groups in order places each of their members once. Every tiebreak record is at the starting level or deeper. |
| Borda.ResolveOrdered | core/voting/borda.py:77-89 | Placing groups of strictly decreasing score yields an order that never increases in score. |
| Borda.CalculatePermutation | core/voting/borda.py:61-93 | The final ranking contains every competitor exactly once. |
| Borda.CalculateOrdered | core/voting/borda.py:66-89 | The final order never increases in total score. |
| Borda.CalculateBounds | core/voting/borda.py:98 | `max_possible` is `(n - 1)·m`, and every score lies between 0 and it. |
| Borda.CalculateTotal | core/voting/borda.py:47-64 | The scores of the full field total `m·n(n - 1)/2`. |
| Borda.PointsCountBehind | core/voting/borda.py:51-57 | Over the whole field, judge `j`'s points for `c` are the number of competitors that judge ranks behind `c`. These are the competitors placed worse, plus those placed level but entered after `c`, which the stable sort keeps behind it. |
| Borda.CountBehindPosition | core/voting/borda.py:51-57 | In a stable ranking of the whole field by one judge's placements, exactly `n - 1 - p` competitors are ranked behind the one at position `p`. |
| Borda.CalculateBreakdowns | core/voting/borda.py:51-57 | A score is the sum of its breakdown. The breakdown's `j`-th entry is the number of competitors judge `j` ranks behind the competitor, placed worse or placed level and entered later. That is also `n - 1` minus the competitor's position in judge `j`'s ranking. |
| Borda.StrictRanking | core/voting/borda.py:53 | On a ballot that hands out the places 1 to `n` once each, the judge's relative ranking of the whole field lists the competitors placed 1, 2, ..., `n` in that order. |
| Borda.StrictPoints | core/voting/borda.py:51-57 | On such a ballot, the points a judge gives over the whole field are `n` minus the placement. |
| Borda.StrictScores | core/voting/borda.py:47-57 | When every ballot hands out each place once, the Borda scores equal the sums of `n` minus the placement. That is the key Sequential IRV's Borda tiebreaks compute (`core/voting/sequential_irv.py:338-341`). |
| Borda.CalculateDistinctScores | core/voting/borda.py:66-89 | When the scores fall strictly from each competitor to the next in entry order, the final ranking is the entry order with no ties. |
| Borda.CalculateLevels | core/voting/borda.py:84-89 | Every tiebreak record is at level 1 or deeper. |
| Borda.CalculateSheet | core/voting/borda.py:61-101 | The sheet is ranked exactly when every placement is present. The published names are then a permutation of the competitors. |
| RelativePlacement.AtOrBetterZero | core/voting/relative_placement.py:155-159 | The cumulative count at place 0 is 0. |
| RelativePlacement.AtOrBetterStep | core/voting/relative_placement.py:157-159 | The count at place `i` is the count at `i - 1` plus the judges placing the competitor exactly at `i`. |
| RelativePlacement.AtOrBetterMonotone | core/voting/relative_placement.py:154-159 | Cumulative counts never decrease with the place. |
| RelativePlacement.AtOrBetterLast | core/voting/relative_placement.py:144-163 | When all placements are in `1..n`, the count at place `n` is every judge. |
| RelativePlacement.CumulativeCounts | core/voting/relative_placement.py:136-163 | The counts succeed exactly when every placement is at most `n`. Otherwise the error is `PlacementOutOfRange`, the `counts[placement]` index error. On success they are the cumulative table. |
| RelativePlacement.TallyPlaces | core/voting/relative_placement.py:147-152 | The per-place tally of one competitor succeeds exactly when its placements are in range. Entry `p` is the number of judges placing it at `p`. |
| RelativePlacement.RunningTotals | core/voting/relative_placement.py:154-161 | Running sums of the per-place tally give the competitor's cumulative counts. |
| RelativePlacement.AtCutoff | core/voting/relative_placement.py:211-252 | One cutoff either decides a member of the majority holders, by majority, greater majority or quality, or narrows them to at least two. |
| RelativePlacement.Majors | core/voting/relative_placement.py:188-192 | The majority holders at a cutoff are exactly the candidates holding a majority there, in candidate order. |
| RelativePlacement.Resolve | core/voting/relative_placement.py:165-270 | The result is either one member of the candidates or a sub-list of them. The sub-list has at least two members when there were two candidates or more. |
| RelativePlacement.ResolveNoMajorityYet | core/voting/relative_placement.py:196-201 | If no candidate has a majority at the cutoff, resolution moves on to the next cutoff. |
| RelativePlacement.ResolveClearLeader | core/voting/relative_placement.py:203-227 | A candidate with a majority and a strictly larger count than all others wins. The rule is majority when it alone holds one, and greater majority otherwise. |
| RelativePlacement.ResolveQuality | core/voting/relative_placement.py:229-248 | Suppose the top count is shared and one of the sharers has a strictly smaller sum of placements within the cutoff. That sharer wins on quality. |
| RelativePlacement.ResolveHeadToHead | core/voting/relative_placement.py:254-264 | Past the last cutoff, two candidates go head to head. The pair is returned as a tie when the judges split evenly. |
| RelativePlacement.ResolveUnresolved | core/voting/relative_placement.py:265-267 | Past the last cutoff, three or more candidates come back as an unresolved tie. |
| RelativePlacement.ResolveWinnerHasMajority | core/voting/relative_placement.py:182-252 | A place decided by majority, greater majority or quality goes to a candidate that holds a majority by the last place. |
| RelativePlacement.Fallback | core/voting/relative_placement.py:254-270 | After the cutoffs, the result is a member of the candidates or the candidates unchanged. |
| RelativePlacement.PlaceCutoffPermutation | core/voting/relative_placement.py:64-120 | Placing everyone who holds a majority at one cutoff places each of them exactly once. |
| RelativePlacement.PlaceCutoffShape | core/voting/relative_placement.py:102-118 | Every tied group placed at a cutoff has at least two members. |
| RelativePlacement.WithMajorityAt | core/voting/relative_placement.py:54-57 | The competitors placed at a cutoff are exactly those whose first majority place is that cutoff. After them, the unplaced set is the one of the next cutoff. |
| RelativePlacement.ScanFacts | core/voting/relative_placement.py:49-122 | From any cutoff on, the scan places each competitor whose first majority place is that cutoff or later exactly once, in order of that place. |
| RelativePlacement.Calculate | core/voting/relative_placement.py:32-39 | The calculation succeeds exactly when every placement is in range. The majority is `m // 2 + 1` and the counts are the cumulative table. |
| RelativePlacement.CalculateOrdered | core/voting/relative_placement.py:45-122 | No one is placed twice. Competitors come in order of their first majority place, so a tiebreak loser precedes anyone who gains a majority only later. Every tie has at least two members. |
| RelativePlacement.CalculateRanksEveryone | core/voting/relative_placement.py:49-122 | With at least one judge and placements in range, every competitor is placed exactly once. |
| RelativePlacement.CalculateNoJudges | core/voting/relative_placement.py:32-57 | With no judges, nobody reaches the majority of 1 and the ranking is empty. |
| RelativePlacement.FaultIsReal | core/voting/relative_placement.py:150-152 | A reported missing placement means the sheet is incomplete. A reported out-of-range one names a placement greater than `n`. |
| RelativePlacement.CompleteFault | core/voting/relative_placement.py:150-152 | A complete sheet never reports a missing placement. |
| RelativePlacement.CalculateSheet | core/voting/relative_placement.py:32-134 | The sheet is ranked exactly when every placement is present and at most `n`. On a complete sheet, a failure is an out-of-range placement. With a judge, the names are a permutation of the competitors. With none, the ranking is empty. |
| Schulze.Pairwise | core/voting/schulze.py:39-48 | `d[a][b]` counts the judges whose ranking lists `a` before `b`. |
| Schulze.PairwiseFacts | core/voting/schulze.py:41-48 | `d[a][a]` is 0. For `a ≠ b`, `d[a][b]` counts the judges preferring `a`, with level placements going to the earlier entry. `d[a][b] + d[b][a]` is `m`. |
| Schulze.Relax | core/voting/schulze.py:62-72 | The imperative triple loop computes the same strengths as the passes over `k` of the functional definition. |
| Schulze.RelaxedGrows | core/voting/schulze.py:71-72 | Relaxation never lowers a strength and never changes the diagonal. |
| Schulze.RelaxedWithin | core/voting/schulze.py:63-72 | Strengths that start within bounds stay within them. |
| Schulze.RelaxedColumnZero | core/voting/schulze.py:63-72 | A column of zeros, with nonnegative strengths, stays zero: nothing acquires a path to that competitor. |
| Schulze.WinsTotal | core/voting/schulze.py:76-83 | Counting each half-win as one and each win as two, the doubled wins total `n(n - 1)`. |
| Schulze.OrderOrdered | core/voting/schulze.py:95-101 | The sorted order never improves in (wins, winning strength). Equal standings keep entry order. |
| Schulze.RunsFlatten | core/voting/schulze.py:103-122 | The grouping scan flattens back to the sorted order. |
| Schulze.RunsShape | core/voting/schulze.py:108-121 | Each group shares one standing and every tie group has at least two members. |
| Schulze.CalculatePermutation | core/voting/schulze.py:95-122 | The ranking is the sorted order and holds every competitor exactly once. |
| Schulze.CalculateOrdered | core/voting/schulze.py:95-101 | Along the ranking, doubled wins never increase, and at equal wins winning strength never increases. Equal standings keep entry order. |
| Schulze.CalculateGrouping | core/voting/schulze.py:103-122 | Two competitors share an entry exactly when they have equal wins and equal winning strength. |
| Schulze.DetectTiebreak | core/voting/schulze.py:124-134 | The pair loop reports `winning` exactly when two competitors of the sorted list share wins but not winning strength. |
| Schulze.UsedWinningAnyPair | core/voting/schulze.py:124-134 | Scanning the pairs of the sorted list is the same as asking whether any two competitors split on winning strength. |
| Schulze.CalculateTiebreak | core/voting/schulze.py:124-134 | `tiebreak_used` is `winning` exactly when two competitors share a win count but differ in winning strength. |
| Schulze.CalculateTieGroups | core/voting/schulze.py:116-121 | Each recorded tie has at least two members, all with the same wins and winning strength. |
| Schulze.CalculateTies | core/voting/schulze.py:116-121 | A competitor is in a recorded tie exactly when another competitor shares its wins and winning strength. |
| Schulze.CalculatePairwise | core/voting/schulze.py:41-48 | The outcome's `d` has a zero diagonal and counts the preferring judges, and each pair adds up to `m`. |
| Schulze.CalculateStrengths | core/voting/schulze.py:52-72 | Strengths lie between 0 and `m` and have a zero diagonal. A direct defeat `d[i][j] > d[j][i]` starts, and so leaves, `p[i][j]` at least `d[i][j]`. |
| Schulze.CalculateWinsTotal | core/voting/schulze.py:76-83 | The doubled wins of the outcome total `n(n - 1)`. |
| Schulze.EvenStrengthsHalfWins | core/voting/schulze.py:76-93 | When every pair of strengths is equal, everyone gets `n - 1` half-wins, which is one win in a three-way cycle, and a winning strength of 0. |
| Schulze.CondorcetStrengths | core/voting/schulze.py:52-72 | A Condorcet winner keeps a zero column of strengths and a positive strength to everyone. |
| Schulze.CalculateCondorcet | core/voting/schulze.py:52-101 | A Condorcet winner gets all `n - 1` wins, more than anyone else, and is ranked first on its own. |
| Schulze.EntryOrderStrengths | core/voting/schulze.py:52-72 | When every competitor beats each later one head-on, every path strength runs forward: positive from earlier to later, zero back. |
| Schulze.RelaxedLowerZero | core/voting/schulze.py:62-72 | A zero lower triangle of non-negative strengths stays zero through every relaxation pass. |
| Schulze.ForwardWins | core/voting/schulze.py:74-82 | When every path forward beats its reverse, competitor `a` wins against exactly the `n - 1 - a` entered after it. |
| Schulze.FallingScoresIota | core/voting/schulze.py:97-101 | A permutation of `0 .. n-1` sorted best first, with wins falling strictly in entry order, is the entry order itself. |
| Schulze.FallingWinsOrder | core/voting/schulze.py:97-118 | Wins that fall strictly along entry order make the ranking the entry order. |
| Schulze.DistinctWinsNoTies | core/voting/schulze.py:104-128 | With pairwise different wins, there is no tie group and the tiebreak is not reported as used. |
| Schulze.EntryOrderWins | core/voting/schulze.py:52-82 | When every competitor beats each later one head-on, competitor `a` has `n - 1 - a` wins. |
| Schulze.CalculateEntryOrder | core/voting/schulze.py:34-136 | When every competitor beats each later one head-on, the result is the entry order with `n - 1 - a` wins for competitor `a`, no tie and no tiebreak. |
| Schulze.CalculateSheet | core/voting/schulze.py:34-136 | The sheet is ranked exactly when every judge is in the rankings map and every placement is present, which is exactly when `get_judge_ranking` succeeds for every judge. Any failure is a missing placement. The published names are a permutation of the competitors. |
| IrvVotes.Without | core/voting/sequential_irv.py:186 | Removing a candidate keeps everyone else. For a set it shrinks the count by one. |
| IrvVotes.ActiveRanking | core/voting/sequential_irv.py:105-111 | A judge's ranking restricted to the active candidates is a permutation of them, ordered by the judge's placements. |
| IrvVotes.FirstChoiceBest | core/voting/sequential_irv.py:105-111 | A judge's first choice among the active candidates is one that judge placed best. |
| IrvVotes.RestrictedRanking | core/voting/sequential_irv.py:106-111 | Filtering the judge's full ranking by the active set keeps each active candidate once. |
| IrvVotes.VotesTotal | core/voting/sequential_irv.py:103-111 | First-choice votes over a non-empty active set add up to `m`. |
| IrvVotes.MajorityAlone | core/voting/sequential_irv.py:149-155 | If one active candidate reaches `m // 2 + 1` first choices, no other active candidate does. |
| IrvVotes.MajorityFilter | core/voting/sequential_irv.py:149-155 | Such a candidate is then the only active candidate at or over the threshold. |
| IrvVotes.ExclusionKeepsVotes | core/voting/sequential_irv.py:113-122 | Dropping the zero-vote candidates leaves everyone's first-choice votes unchanged. |
| IrvVotes.SameFirstChoice | core/voting/sequential_irv.py:113-122 | Each judge's first choice is the same before and after the zero-vote exclusion. |
| IrvVotes.TopChoice | core/voting/sequential_irv.py:105-111 | A judge who places `c` strictly ahead of every other active candidate votes for `c`. |
| IrvVotes.TopVotes | core/voting/sequential_irv.py:103-111 | A candidate's first-choice votes are at least the number of judges who place it strictly ahead of every other active candidate. |
| SequentialIrv.RunIrv | core/voting/sequential_irv.py:83-190 | The winner is one candidate or a non-empty sub-list of them. There are fewer rounds than candidates, so the loop ends. The first eliminated and the lone excluded candidate are candidates. |
| SequentialIrv.Rounds | core/voting/sequential_irv.py:99-190 | As `RunIrv`, from any round. A round happens exactly when two or more are active. |
| SequentialIrv.Exclude | core/voting/sequential_irv.py:116-137 | With the zero-vote candidates dropped, the winner is still among the active candidates, after at least one round. |
| SequentialIrv.Decide | core/voting/sequential_irv.py:149-155 | A round among two or more ends in a winner among them and takes fewer rounds than there are of them. |
| SequentialIrv.NoMajority | core/voting/sequential_irv.py:157-186 | A round without a majority still ends in a winner among the active candidates, after at least one round and fewer rounds than there are of them. The first eliminated candidate is one of them. |
| SequentialIrv.Loser | core/voting/sequential_irv.py:235-246 | A head-to-head loser exists exactly when there is a head-to-head winner, and it is the one with fewer judges. |
| SequentialIrv.EliminationTiebreak | core/voting/sequential_irv.py:217-367 | The competitor eliminated is always a member of the tied list. |
| SequentialIrv.ByRankLevels | core/voting/sequential_irv.py:300-334 | The pick is a tied candidate with the fewest judges at the current preference level. |
| SequentialIrv.ByBordaLowest | core/voting/sequential_irv.py:336-367 | The pick is a tied candidate, and no tied candidate has a lower Borda score. |
| SequentialIrv.WinnerTiebreak | core/voting/sequential_irv.py:369-481 | The result is one member of the tied list or a non-empty sub-list of it. |
| SequentialIrv.ByBordaHighest | core/voting/sequential_irv.py:420-442 | Everyone picked has the highest Borda score among the tied. |
| SequentialIrv.ByWins | core/voting/sequential_irv.py:444-481 | Everyone picked has the most head-to-head wins among the Borda-tied, and every candidate with that many is picked. |
| SequentialIrv.HighestGroup | core/voting/sequential_irv.py:426-427 | The group is the candidates whose key equals the maximum, and it is non-empty. |
| IrvProperties.RoundsTrace | core/voting/sequential_irv.py:99-190 | The rounds form a sound trace. Each round's votes are first choices among its active candidates. A majority winner reaches the threshold. An all-tied round has everyone level and below it. An eliminated candidate has the fewest votes while someone has more, and the rest carry on. |
| IrvProperties.IrvTrace | core/voting/sequential_irv.py:83-190 | `_run_irv` yields a sound trace. A single candidate wins with no rounds. Round 1 drops zero-vote candidates only when some, but not all, have no votes. |
| IrvProperties.ExcludeFirst | core/voting/sequential_irv.py:116-147 | The excluding round counts votes among all candidates, then plays on among those with votes and records the others as excluded. |
| IrvProperties.KeptVotes | core/voting/sequential_irv.py:113-122 | The votes counted before the exclusion are the first-choice votes among the survivors. |
| IrvProperties.LoneSurvivor | core/voting/sequential_irv.py:124-137 | A lone survivor of the exclusion holds every judge's vote, so it wins by majority. |
| IrvProperties.Landslide | core/voting/sequential_irv.py:149-155 | A candidate with a first-choice majority wins in one round by majority. |
| IrvProperties.ExcludeLandslide | core/voting/sequential_irv.py:124-155 | After an exclusion, a majority holder still wins in that single round. |
| IrvProperties.DecideMajority | core/voting/sequential_irv.py:149-155 | The only candidate at or over the threshold wins that round, and the round ends the run. |
| IrvProperties.AllTiedTrace | core/voting/sequential_irv.py:161-171 | When everyone is level and below majority, the run from that round is a sound trace, and it starts with that round among the same candidates. |
| IrvProperties.EliminationTrace | core/voting/sequential_irv.py:173-186 | A sound elimination round followed by the rounds among the rest is a sound trace. |
| IrvPlacements.PickedFacts | core/voting/sequential_irv.py:64-73 | The winner or tied group and the competitors left over make up the remaining competitors, and fewer are left. |
| IrvPlacements.Placements | core/voting/sequential_irv.py:38-81 | The ranking is each round's winner or tied group, followed by the ranking of those left (`Ranking`). It is a permutation of the remaining competitors, block by block. Each block's place is the start place plus the size of the blocks before it. Each block is chosen by a sound IRV trace. Every block but a final lone competitor carries at least one IRV round, and that competitor is placed without any. With one competitor left, the only block is that competitor at the current place, marked as last remaining with no rounds. With none left there is no block. The first block is IRV's winner among everyone. |
| IrvPlacements.Calculate | core/voting/sequential_irv.py:38-81 | The final ranking is a flat permutation of the competitors. Places start at 1 and advance by each block's size. |
| IrvPlacements.CalculateSheet | core/voting/sequential_irv.py:38-81 | With at most one competitor the names come back unchanged and no judge is consulted. Otherwise the sheet is ranked exactly when every judge is listed and every placement is present, any failure is a missing placement, and the names are a permutation of the competitors. |
| IrvPlacements.CalculateLandslide | core/voting/sequential_irv.py:56-73 | A competitor with a first-choice majority takes 1st place alone and heads the ranking. |
| IrvPlacements.RankingLandslide | core/voting/sequential_irv.py:56-73 | Among two or more remaining, a competitor with a first-choice majority is placed next on its own, and the ranking goes on with the others. |
| Fixtures.ClearWinnerStrict | tests/test_voting/conftest.py:19-23 | Every judge of "Clear Winner" hands out the places 1 to 4 once each. |
| Fixtures.DisagreementStrict | tests/test_voting/conftest.py:38-44 | Every judge of "Disagreement" hands out the places 1 to 4 once each. |
| Fixtures.ClearWinnerKey | tests/test_voting/test_borda.py:22-23 | On "Clear Winner", the sums of 4 minus the placement are A 8, B 6, C 4, D 0. |
| Fixtures.DisagreementKey | tests/test_voting/test_borda.py:30 | On "Disagreement", the sums of 4 minus the placement are A 9, B 9, C 6, D 6. |
| Fixtures.FallingKeys | core/voting/borda.py:47-89 | With strict ballots and keys falling from competitor to competitor, Borda's scores are those keys and its ranking is the entry order. |
| Fixtures.ClearWinnerBorda | tests/test_voting/test_borda.py:13-27 | Borda scores "Clear Winner" 8, 6, 4, 0 and ranks it A, B, C, D. |
| Fixtures.DisagreementBorda | tests/test_voting/test_borda.py:34-39 | Borda scores "Disagreement" 9, 9, 6, 6. |
| Fixtures.HeadOnByTwo | core/voting/schulze.py:43-48 | On a three-judge sheet, two judges placing `a` above `b` give `a` the head-on win. |
| Fixtures.HeadOnByThree | core/voting/schulze.py:43-48 | On a five-judge sheet, three judges placing `a` above `b` give `a` the head-on win. |
| Fixtures.ClearWinnerPair | tests/test_voting/test_schulze.py:14-17 | In "Clear Winner", every competitor beats each later one head-on. |
| Fixtures.DisagreementPair | tests/test_voting/test_schulze.py:28-31 | In "Disagreement", every competitor beats each later one head-on, each time by at least three judges to two. |
| Fixtures.FourInEntryOrder | core/voting/schulze.py:34-136 | Four competitors who each beat every later one head-on get doubled wins 6, 4, 2, 0 and the order A, B, C, D, with no tie. |
| Fixtures.ClearWinnerSchulze | tests/test_voting/test_schulze.py:14-26 | Schulze ranks "Clear Winner" A, B, C, D with 3, 2, 1 and 0 wins, and no tie. |
| Fixtures.DisagreementSchulze | tests/test_voting/test_schulze.py:28-31 | Schulze ranks "Disagreement" A, B, C, D, and no tie. |
| Fixtures.MajorityStep | core/voting/sequential_irv.py:56-73 | On a three-judge sheet, two judges placing `c` strictly ahead of the rest give `c` the next place on its own. |
| Fixtures.LoneCandidate | core/voting/sequential_irv.py:45-54 | When one competitor is left, it is placed last on its own. Its record is that competitor at the current place, marked as last remaining, with no IRV rounds. |
| Fixtures.ClearWinnerRanking | tests/test_voting/test_sequential_irv.py:14-17 | Sequential IRV ranks "Clear Winner" A, B, C, D, whatever the order of the competitor set. |
| Fixtures.ClearWinnerIrv | tests/test_voting/test_sequential_irv.py:14-17 | The final ranking of Sequential IRV's `calculate` on "Clear Winner" is A, B, C, D. |

## Left out

- The `details` dictionaries are not modelled. These include the tiebreak score fill-in (`core/voting/borda.py:86-89`, `163-164`), `target_place` and `round_info` in Relative Placement, the `explanation` strings, and the printable matrices. Only the numbers they report are kept: scores, breakdowns, cumulative counts, `d`, `p`, wins and winning strength.
- Python's set iteration order is not modelled. Sequential IRV keeps `remaining` and `active` in sets, and several results depend on hash order: which tied candidate comes first, `list(active)[0]`, and `fewest[0]`. The model uses sequences instead. `IrvPlacements.Calculate` takes the competitors in an `order` given as a parameter. Removals keep the order of the rest, and `set(tied)` is taken in list order. Every property proved about IRV holds for every such order.
- The list of excluded zero-vote candidates is kept in active order rather than `sorted` by name. Only its members and its length matter to the tiebreak at `core/voting/sequential_irv.py:275-279`.
- Name truthiness is not modelled. Relative Placement's head-to-head test `if winner:` also treats a competitor named `""` as no winner. Sequential IRV's elimination tiebreak tests `if rd.get("eliminated"):` (`core/voting/sequential_irv.py:263-266`), so a sub-IRV whose first eliminated competitor is named `""` has that round skipped: the source returns a later eliminated competitor, or goes on to the single-exclusion and rank-level steps. The model treats every name as a real competitor in both places, so `SequentialIrv.FirstEliminated` returns that competitor.
- `Models.Rank`: placements are integers of at least 1. The source accepts any integer. In Relative Placement, `counts` has `n + 1` slots (`core/voting/relative_placement.py:149-158`). A placement of 0 or of `-(n + 1)` lands in `counts[0]`, which the running total never reads, so that judge's vote is silently dropped. A placement from -1 to -n counts as place `n + 1 - k` for `-k`. A placement below `-(n + 1)` raises `IndexError`. None of these cases is modelled.
- `Schulze.Relax`: the relaxation is shown to be the source's loop, monotone, bounded and zero on the diagonal. It is not shown to compute maximal beatpath strengths over all paths, which the source does not rely on.
- Schulze's half-win of 0.5 is doubled, so that all win counts are integers (`wins2`). The sort and the grouping are unchanged by the doubling.
- The Python `sorted` in Schulze runs on names with `reverse=True`. The model sorts competitor numbers under "at least" and keeps equal standings in entry order, which is what a stable reverse sort does.
- `SequentialIrv.EliminationTiebreak`: a first eliminated competitor named `""` is returned, where the source skips it (see the name-truthiness line above). The branch at `core/voting/sequential_irv.py:291-295` returns the lone survivor of removing the sub-IRV winner. It can only fire with exactly two tied, which goes to head-to-head instead. The model reaches the same competitor through the rank-level tiebreak, which returns a lone tied candidate at once.
- Parsers, the HTTP entry point, `core/analyze.py`, the engine registry and the anonymising scripts are not part of this model. They wrap the engines in I/O and third-party libraries.
- `Borda.CalculateSheet`, `RelativePlacement.CalculateSheet`, `Schulze.CalculateSheet` and `IrvPlacements.CalculateSheet` assume that competitor names are distinct. Python keys `rankings`, `comp_idx`, the score dictionaries and `set(competitors)` by name, so a repeated name collapses into one key there. The model keeps one column per list entry, and it does not promise what the source returns for a repeated name.
- `get_competitor_placements` (`core/models.py:46-48`) is not modelled. No engine calls it.
- `tests/test_voting/test_schulze.py:52-64` expects a perfect cycle to give 0 wins each. The code gives half-wins instead (see `Schulze.EvenStrengthsHalfWins`), and the model follows the code.
