# LMD, verified

LMD caches the tables of remote monitoring sites in memory and answers
Livestatus queries over them. This project models the parts of LMD where a fast
form has to agree with a simple one, where two sides have to stay in step, or
where a state machine has to keep a promise over whole runs, and proves that they do.
Where the code keeps a promise only under a condition, the condition
is part of the theorem, mostly as an if-and-only-if, and a lemma shows inputs
outside the condition for which the promise fails.

`dafny verify dfyconfig.toml` checks everything.

| files | subject |
|---|---|
| `Text`, `Lists`, `Ordering`, `Filters`, `DataStore` | numerals, splitting and joining; lists; sort orders; filters, rows and matching; a cached table and its lookups |
| `FilterText`, `Timestamps` | printing filters, reading them back with the stack parser, and filter programs for sets of timestamps |
| `FilterLaws`, `CellLaws` | what the header lines of a request say of a cached row: negation, And and Or; every operator on every kind of cell |
| `StatsValues`, `StatsGroups`, `StatsPeels`, `StatsMeaning`, `StatsExact`, `StatsHeap` | regrouping of stats counters: as a function, which counters it takes apart, what that does to the counts, exactly when every row is counted as before, and the rewriting of the filter objects in place |
| `StatsMerge` | aggregating per peer, merging, final values, group keys |
| `IndexPrefilter`, `LimitPushdown` | answering from the host index; cutting each peer's rows at the limit |
| `PeerScans`, `StatsQuery`, `RowQuery` | whole queries over all peers, all optimisations together |
| `CommentSync`, `CommentRuns`, `IdLists`, `PositionalUpdate` | keeping the cache in step with a site |
| `Cluster`, `ClusterRuns` | dealing backends out to nodes, starting and stopping peers |
| `PeerLifecycle`, `Fixed16`, `Utf8Repair` | states of a site, framing of answers, repair of broken text |

The main results are `StatsQuery.StatsQueryExact`, `StatsQuery.StatsQueryCells`,
`RowQuery.RowQueryExact` and `RowQuery.RowAnswerExact`
(an optimised query answers what a plain scan of all tables would),
`CellLaws.TextLaw`, `CellLaws.WholeLaw`, `FilterLaws.NegateLaw` and their neighbours
(from the text of a filter to the cells it accepts),
`FilterText.RoundTripExact`, `FilterText.ReparseExact`, `StatsExact.RegroupExact`,
`IndexPrefilter.PrefilterExactIff`, `Timestamps.TimestampsExactIff`,
`CommentRuns.UpdateExact`, `ClusterRuns.RunFollowsAssignment`,
`ClusterRuns.ExactlyOneRuns`, `PeerLifecycle.RunSafe`,
`PeerLifecycle.GracePeriodExact`, `PeerLifecycle.UpMeansDataIff`, `PositionalUpdate.AlignedIff`,
`IdLists.ListsInvert`, `Fixed16.FramingExact` and `Utf8Repair.RepairPromise`.

Fast forms and references share some definitions: how a filter matches, how cells compare, which
rows a page shows, which object an entry belongs to. What these definitions mean is stated apart from
them, on request text, cells, positions and names: in `FilterLaws` and `CellLaws`, `LimitPushdown.RowLessMeans`
and the contract of `LimitPushdown.RawResultSet.PostProcessing`, `StatsQuery.StatsQueryCells`,
`IdLists.BuildDowntimeCommentsList`, `CommentSync.SyncedMeans`, `Cluster.DealtInTurn` and `Text.DigitAt`.

## How the model relates to the code

- Methods follow the loops of the code and are proved against functions; the
  theorems are about those functions. Objects that the code updates in place are
  classes: filter objects during regrouping, cached tables, cached rows, the result of a
  query, the cluster manager, a peer.
- Text is a sequence of characters, except in `Utf8Repair`, which works on bytes. Numbers are
  unbounded; stats values are reals. Regular expressions, letter case and number
  literals beyond plain decimals are functions passed in, about which nothing is assumed.
- A library sort may return any sorted arrangement. Go's map iteration order is an arbitrary choice.
- Answers of remote sites, connection attempts and clocks are parameters. A
  lock-protected section of the code is one step; runs are arbitrary sequences of steps.
- Where the code stops the process (a nil dereference, an index of -1, starting a running peer), the
  model either returns a failure (`IdLists`), requires what the code needs
  (`Cluster.Nodes.Redistribute`: this node is in the list), or proves that it cannot happen
  (`ClusterRuns.RunFollowsAssignment`; that no backend name is listed twice is checked at start, `lmd/main.go:447-451`).
- Code and comment disagree in two places; the model follows the code. The comment in `lmd/rawresultset.go:35` speaks of
  one backend, but sorting is skipped only for a request without any backend, which has no
  rows. The comment of `lmd/datastoreset.go:637` speaks of a boolean flag that is not returned.

## What turned out to be false in general

- Regrouping of stats counters ignores the operator of a counter's group and the name of a
  custom variable, and treats a nested first filter like a test. Rows that are then counted wrongly:
  `StatsExact.TakenBreaks`, `StatsExact.CustomTagBreaks`, `StatsExact.NestedOrBreaks`, `StatsExact.NestedFirstBreaks`.
  Exact conditions: `StatsExact.RegroupExact`, `StatsExact.TextRegroupExact`, `StatsExact.NestedRegroupExact`,
  `StatsExact.CustomKeysExact`, `StatsExact.NestedFirstExact`.
- The index misses rows for filters on lower-case columns as soon as a host name has a capital letter:
  `IndexPrefilter.CapitalsMissed`; exactly when: `IndexPrefilter.PrefilterExactIff`.
- A minimum of -1 and a maximum below 0 are not reported correctly: `StatsMerge.MinExact`, `StatsMerge.MergedStatsExact`.
- Values that contain the separator, as the text of a list column does, can put different rows into one group:
  `StatsMerge.SeparatorsCollide`; exactly when keys split back: `StatsMerge.StatsKeyExact`.
- A negated group, an operator the parser does not know, or a value with outer blanks does not
  survive printing and parsing: `FilterText.RoundTripExact`, and for parsed text `FilterText.ReparseExact`.
- Timestamps that start a run at -1 are lost: `Timestamps.TimestampsExactIff`.
- The change detector misses an entry replaced by one with another id below the highest: `CommentRuns.ReusedIdMissed`;
  exactly when it misses nothing: `CommentRuns.DetectorExactIff`.
- A site can be up without cached data, after a failover inside one update: `PeerLifecycle.UpWithoutData`;
  exactly when it cannot: `PeerLifecycle.UpMeansDataIff`.
- Negate behind a group changes nothing, and a second Negate behind a filter neither: `FilterLaws.NegateLaw`.
- On lists of numbers `!>=` looks for 0 whatever its value, because only comparisons convert the value, and `>=` without
  a value looks for 0 too: `CellLaws.NumbersLaw`. A filter on a custom variable without a value compares the variable
  with its own name: `CellLaws.VarsLaw`.
- A site that was never online has its grace period counted from time 0, so that with a real clock it goes down at the
  first error, however many sources it has: `PeerLifecycle.NeverOnlineExact`.
- Answers of 10^11 bytes and more break the framing: `Fixed16.FramingExact`.

## Model

| member | source | states |
|---|---|---|
| FilterText.FilterString | lmd/filter.go:153-192 | the string builder prints exactly the lines of the tree, children before their group line |
| FilterText.Request.ParseHeaderLine | lmd/request.go:685-712 | a filter, and, or, negate line changes the stack as the grammar says, and a line in error leaves it alone |
| FilterText.Request.FoldTop | lmd/filter.go:565-589 | And/Or folds the top n filters into one group, with the error cases for bad, negative and too large counts |
| FilterText.Request.ReadHeaders | lmd/request.go:308-331 | reading line by line leaves the stack of the recursive reading, and at the first line in error the stack before that line |
| FilterText.WellTypedIff | lmd/filter.go:370-425 | converting a test's value text gives the test back exactly when number, tag, text and the mark for a missing value agree as its column asks |
| FilterText.RoundTripExact | lmd/filter.go:153-334 | parsing a printed forest gives the same forest, column, operator and value included, if and only if every test is well typed, fits its line, is found under its printed name and has a parser operator, and no group is negated |
| FilterText.TextAsParsed | lmd/filter.go:289-334 | whatever text is parsed, the stack holds full groups over well-typed tests whose values fit one line |
| FilterText.ReparseExact | lmd/filter.go:153-192 | printing what a text parsed to and parsing that gives the same filters if and only if no operator is internal, every column is found under its printed name and no group is negated |
| FilterText.Request.OptimizeFilterIndentation | lmd/request.go:1025-1033 | unpacking single outer conjunctions changes the outcome for no row, and none is left |
| FilterLaws.NegateLaw | lmd/datarow.go:697-735 | for header lines that describe one filter, the rows that pass the lines followed by Negate are exactly those that do not pass the lines, if the filter is a single test not negated yet; behind a group or a second time Negate changes nothing |
| FilterLaws.NegatedLine | lmd/filter.go:592-600 | a Filter line followed by Negate accepts exactly the rows the line alone rejects |
| FilterLaws.NegateNothing | lmd/filter.go:592-600 | Negate with no filter in front of it rejects the request |
| FilterLaws.AndLaw | lmd/datarow.go:697-706 | blocks of lines that describe one filter each, one after the other or folded by And, accept a row if and only if every block alone accepts it |
| FilterLaws.OrLaw | lmd/datarow.go:707-714 | folded by Or they accept a row if and only if some block alone accepts it |
| FilterLaws.GroupLimits | lmd/filter.go:565-589 | And and Or over more filters than there are reject the request, over none they change nothing |
| CellLaws.TextLaw | lmd/filter.go:714-747 | for a text cell s and a value v, each of the seventeen operators as its word says: equality, byte order by first difference, occurrence of v at some place in s, a match of the accepted pattern, and their opposites |
| CellLaws.VarsLaw | lmd/filter.go:370-425 | the same for the value of a custom variable, empty where the row has none; with the name alone the variable is compared with its own name, and without a name the request is rejected |
| CellLaws.WholeLaw | lmd/filter.go:636-712 | a whole number cell is compared with the value without its fraction by the six comparisons, by the other operators as decimal text; an empty value is below every number and a value that is no number rejects the request |
| CellLaws.IntegerLaw | lmd/filter.go:656-674 | with a whole number n as value, a cell i passes =, !=, <, <=, >, >= n if and only if i stands so to n |
| CellLaws.FractionLaw | lmd/filter.go:676-712 | a cell with a fraction is compared with the value as it is |
| CellLaws.ListLaw | lmd/filter.go:749-792 | on a list of texts: membership, emptiness, or an operator on some or on all items |
| CellLaws.NumbersLaw | lmd/filter.go:794-819 | on a list of numbers: emptiness and membership, where "is not in" looks for 0 whatever the value |
| CellLaws.OtherWords | lmd/filter.go:454-515 | any other word in the place of the operator rejects the request |
| Timestamps.ComposeTimestampFilter | lmd/datastoreset.go:862-901 | the loop with its running block emits one program line group per run of consecutive timestamps and a final Or |
| Timestamps.ComposedParse | lmd/datastoreset.go:862-901 | the emitted text parses to exactly one filter, or to none for no timestamps |
| Timestamps.TimestampsExact | lmd/datastoreset.go:862-901 | that filter matches a row iff its attribute is in the list, for lists in any order without a run starting at -1 |
| Timestamps.TimestampsExactIff | lmd/datastoreset.go:864-867 | for strictly increasing lists this holds if and only if -1 does not start a run |
| StatsMeaning.CountStats | lmd/datarow.go:1528-1551 | counting a row in place, groups included, changes the slots exactly as the list of touches says, with slot 0 meaning the own index |
| StatsMeaning.TouchOrder | lmd/datarow.go:1528-1551 | when every slot is touched at most once, the order of counting does not matter |
| StatsMeaning.RegroupPreservesCounts | lmd/request.go:1049-1130 | counting any row over the regrouped counters leaves every slot as counting over the flat list does, whenever each counter taken apart, at any level, begins with a plain test and is a conjunction or repeats it, and tests that compare equal have equal outcomes |
| StatsMeaning.RegroupMeaning | lmd/request.go:1049-1130 | for counters that begin with plain tests, regrouping at every level keeps the slot numbers, never adds a count, and loses none exactly when every counter it takes apart in a group the row enters passes |
| StatsPeels.PeelsTaken | lmd/request.go:1060-1095 | at the outer level the scan takes apart exactly the counters that join an open group or open one with the next |
| StatsPeels.ChainPeels | lmd/request.go:1105-1130 | a condition that holds along every taken counter, filter after filter, holds wherever the nested regrouping takes one apart |
| StatsExact.RowExact | lmd/request.go:1049-1130 | a row's counts are preserved if and only if every counter taken apart, inside groups the row enters, passes on it |
| StatsExact.TakenBreaks | lmd/request.go:1060-1073 | a row that a taken counter matches but its first test does not is counted wrongly |
| StatsExact.RegroupExact | lmd/request.go:1049-1130 | over all rows, counters of any nesting whose different disjuncts rows can tell apart are counted as before if and only if every counter taken apart, at any level, is a conjunction or repeats one test |
| StatsExact.FlatSound | lmd/request.go:1060-1095 | for counters over plain tests that guard is a condition on the taken counters alone |
| StatsExact.TwoTestsExact | lmd/request.go:1060-1095 | for counters over two plain tests each, with no condition on the tests: all rows are counted as before if and only if the two tests of every taken disjunction agree on every row |
| StatsExact.TextRegroupExact | lmd/request.go:1049-1130 | for flat counters over equality tests of text columns and custom variables: all rows are counted as before if and only if every taken counter is a conjunction or repeats one test |
| StatsExact.NestedRegroupExact | lmd/request.go:1105-1114 | for nested counters whose tests each have a text column of their own: all rows are counted as before if and only if the guard holds wherever one is taken apart |
| StatsExact.TagsDecide | lmd/filter.go:195-226 | parsed tests that compare equal and name the same custom variable have the same outcome on every row |
| StatsExact.CustomKeysExact | lmd/filter.go:195-226 | all conjunctions over a set of parsed tests are counted as before on all rows if and only if no two of the tests compare equal and name different custom variables |
| StatsExact.CustomTagBreaks | lmd/request.go:1067-1072 | a row with the second variable's value but not the first's loses its count |
| StatsExact.CustomRow | lmd/filter.go:821-825 | such a row of custom variables exists for every operator that can tell two texts apart |
| StatsExact.NestedOrBreaks | lmd/request.go:1105-1114 | a row that meets a nested StatsOr by its second test only loses its count |
| StatsExact.NestedOrRow | lmd/request.go:1105-1114 | such a row exists for equality tests on two text columns |
| StatsExact.NestedFirstExact | lmd/request.go:1089-1091 | two counters that begin with the same nested group are counted as before on a row exactly under the stated relation of the group and the two tests |
| StatsExact.NestedFirstBreaks | lmd/request.go:1089-1091 | for conjunctions of equality tests on different columns some row is counted wrongly |
| StatsExact.StrippedDenotes | lmd/request.go:588-594 | what a counter of the request's own list, printed later for other nodes, denotes after it lost its first filter |
| StatsHeap.EqualNodes | lmd/filter.go:195-226 | comparing filter objects agrees with comparing the trees they stand for |
| StatsHeap.RemoveFirst | lmd/request.go:1116-1130 | stripping the first filter in place gives the stripped tree, lifting a single remaining filter into the slot, and leaves the counter's own object without that filter |
| StatsHeap.JoinGroup | lmd/request.go:1064-1072 | appending a stripped counter to the open group changes only that group's tree |
| StatsHeap.StartGroup | lmd/request.go:1089-1095 | turning the first filter into a group in place gives the new group's tree |
| StatsHeap.OptimizeStatsGroups | lmd/request.go:1049-1103 | the loop over shared mutable objects, nested calls included, ends with disjoint trees that show the regrouped list |
| StatsHeap.OptimizeRequestStats | lmd/request.go:336-336 | the whole optimisation of a request shows the regrouping of the renumbered counters it started from |
| StatsMerge.GatherStatsResult | lmd/response.go:843-880 | one pass over a peer's rows builds the table of aggregates by key over the matching rows, counting matches and scanned rows |
| StatsMerge.ResultSetStats.MergeStats | lmd/response.go:633-652 | merging a peer's table into the shared one, keys in any order, adds new keys and combines common ones |
| StatsMerge.MergeRepresents | lmd/filter.go:263-285 | merging two slots represents the rows of both, for every type, markers included |
| StatsMerge.MergedStatsExact | lmd/response.go:254-330 | for any number of peers the merged keys are those that occur, and final values are count, sum, average, minimum and maximum over all rows of the key when the start markers are not in the way; for all types but Min only then |
| StatsMerge.MergeOrderIrrelevant | lmd/response.go:633-652 | the same rows spread over other peers and merged in another order give the same keys and values, for a minimum as long as the marker is not in the way |
| StatsMerge.MinExact | lmd/peer.go:2119-2129 | a minimum is right for every order of the rows if and only if -1 is not the smallest of several different values |
| StatsMerge.NonNegativeSafe | lmd/filter.go:271-280 | with values from 0 up no marker is in the way |
| StatsMerge.TotalMeans | lmd/filter.go:263-285 | a total is 0 for nothing, a single value itself, and adds up over parts |
| StatsMerge.StatsKeyExact | lmd/datarow.go:738-747 | a key splits back into the column values if and only if none holds the separator, and then equal keys mean equal values |
| StatsMerge.SeparatorsCollide | lmd/datarow.go:174-174 | grouped by two list columns, rows whose lists differ share a key |
| StatsMerge.GroupedByColumns | lmd/datarow.go:738-747 | the rows behind a slot are exactly those with the same column values |
| StatsMerge.EmptyAnswer | lmd/response.go:258-264 | without key columns there is always one line: the statistics of all rows, and zeroes when there are none |
| StatsQuery.FlatStep | lmd/datarow.go:1528-1551 | counting over the parsed list is one step of every requested statistic |
| StatsQuery.GatherGroupedSame | lmd/response.go:871-876 | aggregating with the regrouped counters gives the same table as with the parsed ones |
| StatsQuery.StatsQueryExact | lmd/response.go:843-880 | index, regrouping, per-peer aggregation and merging together report, for every key that occurs and no other, the statistics over all matching rows of all tables |
| StatsQuery.StatsQueryCells | lmd/datarow.go:1528-1551 | on cells: a key is reported if and only if some cached row has it and passes the filter; a counter reports how many of these rows it accepts, sum, average, minimum and maximum are those of the numbers, whole or with fractions, in their cells of the column, as long as no marker is in the way |
| PeerScans.SameRows | lmd/datastore.go:236-286 | on every peer the index scan finds exactly the matching rows of the full table |
| IndexPrefilter.TryFilterIndex | lmd/datastore.go:288-327 | the recursive collection of host names, And and Or nested, returns the set and verdict of its specification |
| IndexPrefilter.CollectCovers | lmd/datastore.go:288-327 | when the collection succeeds it contains the host of every row that the filters accept |
| IndexPrefilter.MatchedHost | lmd/datastore.go:329-443 | every matching row's host is among the names taken from host and service columns, group members included |
| IndexPrefilter.PrefilterExact | lmd/datastore.go:236-286 | filtering the prefiltered rows selects the same rows as filtering the whole table, for every And/Or tree without lower-case columns |
| IndexPrefilter.PrefilterExactIff | lmd/datastore.go:369-386 | for all filters this holds if and only if all host names are lower case |
| IndexPrefilter.CapitalsMissed | lmd/datastore.go:371-386 | a host name with a capital makes a lower-case filter miss its row |
| IndexPrefilter.HostQueryScans | lmd/datastore.go:236-286 | a query for one host by name looks at exactly the rows of that host |
| IndexPrefilter.SortNames | lmd/datastore.go:255-260 | the collected names in ascending order, each once |
| IndexPrefilter.GetPreFilteredData | lmd/datastore.go:236-286 | the returned rows are the table or exactly the rows of the collected hosts, hosts in name order |
| IndexPrefilter.LookupHosts | lmd/datastore.go:266-272 | each collected host that exists contributes its row, in name order |
| IndexPrefilter.LookupServices | lmd/datastore.go:273-281 | each collected host contributes all its services, once |
| DataStores.DataStore.AddItem | lmd/datastore.go:150-165 | appends a row and keeps rows and lookups in agreement when the key is new |
| DataStores.DataStore.RemoveItem | lmd/datastore.go:168-183 | removes one row, keeps the order of the others and the agreement |
| DataStores.DataStore.InsertData | lmd/datastore.go:86-109 | with no, one or two keys, rows and lookups agree afterwards if and only if no key repeats |
| LimitPushdown.CompareRows | lmd/rawresultset.go:61-103 | the comparison loop decides by the first sort field that differs, as LimitPushdown.RowLessMeans says on cells |
| LimitPushdown.RowLessMeans | lmd/rawresultset.go:61-103 | if a row may stand before another, their cells agree in the sort fields up to one, and there the number is smaller or the text is a proper prefix or smaller at the first difference, the other way round for a descending field |
| LimitPushdown.OneNumberField | lmd/rawresultset.go:64-77 | in rows sorted by one numeric field the numbers never decrease, or for a descending field never increase |
| LimitPushdown.OneTextField | lmd/rawresultset.go:78-100 | in rows sorted by one text field the texts stand in byte order, or in reverse |
| Ordering.StrLessMeans | lmd/rawresultset.go:78-86 | the text order holds if and only if one text is a proper prefix of the other or has the smaller character at the first difference |
| Ordering.LessMeans | lmd/rawresultset.go:61-103 | keys in order agree up to a field, and there the order is that field's |
| LimitPushdown.OrderTotal | lmd/rawresultset.go:61-103 | that comparison is a total preorder whose ties are exactly equal keys |
| LimitPushdown.GatherResultRows | lmd/response.go:797-841 | a peer contributes the first limit+offset matches; wrapped output counts every match, other output stops one past the limit |
| LimitPushdown.CollectResponses | lmd/response.go:560-576 | answers are appended and counted in order of arrival |
| LimitPushdown.OffsetInRange | lmd/rawresultset.go:27-46 | the offset slice is never out of range, the total decides correctly about it even when peers stop early, and wrapped output counts all matches |
| LimitPushdown.PageUnsorted | lmd/rawresultset.go:21-53 | without sorting, the page equals the page of all rows in order of arrival |
| LimitPushdown.PageSorted | lmd/response.go:797-841 | with sorting, for any number of peers scanned in sort order, the page has the keys of the page cut from all matches |
| LimitPushdown.CutSafeExact | lmd/request.go:1012-1022 | cutting a scan early is safe for all limits if and only if the scan is sorted |
| LimitPushdown.PushedDownByName | lmd/request.go:993-1022 | where a limit cuts the peers' scans of a sorted query, rows in order are in the order of host names |
| LimitPushdown.UnsortedCut | lmd/request.go:1012-1022 | a scan with two rows out of order loses a row of the page for some limit |
| LimitPushdown.RawResultSet.PostProcessing | lmd/rawresultset.go:21-53 | beyond the total the result is empty; otherwise it holds, of the same rows put in order field by field, row offset + i at place i, as many as the limit and the rows behind the offset allow |
| LimitPushdown.PageMeans | lmd/rawresultset.go:44-52 | the page is the part of the ordered rows from the offset on that the limit allows, nothing beyond the total |
| LimitPushdown.PagesJoin | lmd/rawresultset.go:44-52 | pages of one size at the offsets 0, size, 2 size and so on, joined, are the ordered rows up to where they reach, in the end all of them, each once |
| RowQuery.RowQueryExact | lmd/response.go:797-841 | index, cut, merge, sort and slice together give the keys of the page cut from all matching rows of all tables |
| RowQuery.RowAnswerExact | lmd/rawresultset.go:21-53 | against all matching rows of all tables in order: nothing beyond them, otherwise as many rows as limit and offset allow, row i with the numbers and texts of row offset + i in every sort field, in order; wrapped output reports the number of all matching rows |
| RowQuery.IndexScanSorted | lmd/datastore.go:255-272 | where the limit is pushed down to hosts, a scan in the order of the index is in sort order |
| SortedSeqs.SortDetermined | lmd/rawresultset.go:61-103 | two sorted arrangements of the same rows carry the same keys position by position |
| CommentSync.FindMissing | lmd/datastoreset.go:537-550 | the missing ids in order, and an index of all ids of the site |
| CommentSync.RemoveOld | lmd/datastoreset.go:552-560 | removing in any order keeps exactly the rows the site still has, in order, and the index in agreement |
| CommentSync.AppendData | lmd/datastore.go:112-129 | appends all rows and keeps the agreement when keys are distinct |
| CommentSync.UpdateDeltaCommentsOrDowntimes | lmd/datastoreset.go:515-602 | one update with any answers, failed ones included, leaves the specified rows, and succeeds iff no query it sends fails |
| CommentSync.SyncedMeans | lmd/datastoreset.go:515-633 | without a change or an answer the cache stays; otherwise rows whose ids are gone are dropped, even if the next query fails, and the rows answered for the ids of the site that no cached row has are added |
| CommentSync.SyncConverges | lmd/datastoreset.go:515-602 | after a changed update the cached ids are the site's ids; surviving rows keep place and content, new rows follow in the site's order |
| CommentSync.SyncedDistinct | lmd/datastoreset.go:515-602 | with unique ids on both sides the rows after an update have unique keys, so that the lookup keeps mirroring them |
| CommentRuns.DetectorExact | lmd/datastoreset.go:605-633 | if ids only grow, equal count and equal highest id hold if and only if nothing changed |
| CommentRuns.ReusedIdMissed | lmd/datastoreset.go:605-633 | without growth, a swapped entry below the highest id goes unnoticed |
| CommentRuns.DetectorExactIff | lmd/datastoreset.go:605-633 | for a cache of two rows or more the detector is right about everything the site may list if and only if each row it may list below the highest cached id is cached |
| CommentRuns.RunInvariant | lmd/datastoreset.go:515-633 | in every run, with site changes between the queries of an update and failing queries, the cache stays in id order and misses only entries added since its last complete update |
| CommentRuns.UndisturbedUpdate | lmd/datastoreset.go:515-602 | three queries without a change in between do what one update with a stable site does |
| CommentRuns.UpdateExact | lmd/datastoreset.go:515-602 | at any point of any run, an undisturbed update leaves the cache equal to the site's table, row by row |
| IdLists.CollectIds | lmd/datastoreset.go:822-842 | ids by object in table order: under a host those of the entries with its name and no service, under a service those with its two names |
| IdLists.BuildDowntimeCommentsList | lmd/datastoreset.go:800-860 | succeeds iff every entry's host, or service on its host, is in the lookup; then the list of each host holds the ids of the entries with its name and no service, that of each service the ids of the entries with both names, in table order, and the other columns are untouched |
| IdLists.IdsForMembers | lmd/datastoreset.go:822-842 | an id is in such a list if and only if some entry has this id, host and service |
| IdLists.ListsInvert | lmd/datastoreset.go:829-842 | all lists together hold each id as often as the table if and only if every entry's object is among the objects |
| IdLists.InOneList | lmd/datastoreset.go:829-842 | with distinct ids, an id is in the list of its own object and of no other |
| IdLists.RebuildInverts | lmd/datastoreset.go:800-860 | after a rebuild the lists partition the table and their lengths add up to its size |
| PositionalUpdate.SortByPrimaryKey | lmd/resultset.go:75-90 | sorts the reply by its key cells |
| PositionalUpdate.ByKeyTotal | lmd/resultset.go:118-145 | the comparison is a total preorder whose ties are exactly equal keys |
| PositionalUpdate.KeysAscend | lmd/resultset.go:118-145 | of two rows of a sorted reply the earlier one has the smaller number or text in the first key column that differs |
| PositionalUpdate.AlignedIff | lmd/datastoreset.go:667-712 | however the sort arranges the reply, row i has the key of cached row i for all i if and only if the site reported exactly the cached keys |
| PositionalUpdate.OwnPosition | lmd/datastoreset.go:667-712 | with unique keys every reply row ends at the position of its own object |
| PositionalUpdate.WrittenMeaning | lmd/datarow.go:750-795 | every stored column holds its own cell afterwards and everything else is as before |
| PositionalUpdate.DataRow.UpdateValues | lmd/datarow.go:750-795 | writes all columns or, on a wrong size, nothing |
| PositionalUpdate.UpdateFullTable | lmd/datastoreset.go:638-720 | a different number of rows asks for a restart and changes nothing; otherwise, with an unchanged key set, every object gets the values of its own reply row |
| Cluster.Nodes.GetOnlineNodes | lmd/nodes.go:402-424 | the last node that is this one; a node is online if and only if some online node has its url; and how many are |
| Cluster.Nodes.NumberPerNode | lmd/nodes.go:292-311 | one backend per online node if there are enough nodes, else the average rounded up |
| Cluster.Nodes.Chunk | lmd/nodes.go:321-328 | the named backends between two positions, even beyond the end of the list |
| Cluster.Nodes.AssignLists | lmd/nodes.go:313-334 | the loop with its running count gives every node its list, also by node id |
| Cluster.ByIdExact | lmd/nodes.go:331-334 | with distinct node ids exactly the online nodes are entered, each with its own list |
| Cluster.Nodes.Redistribute | lmd/nodes.go:283-338 | the lists by node id, this node's own list with its sub peers, and the calls made on peers |
| Cluster.AssignmentCovers | lmd/nodes.go:283-338 | the lists in node order are exactly the named backends if and only if a node is online or there is nothing to deal out |
| Cluster.AssignmentBounded | lmd/nodes.go:292-311 | offline nodes get nothing and no node more than the average rounded up |
| Cluster.AssignmentDisjoint | lmd/nodes.go:313-332 | with distinct backends no two nodes share one |
| Cluster.OneOwner | lmd/nodes.go:283-338 | every named backend has exactly one owner, and it is online |
| Cluster.DealtInTurn | lmd/nodes.go:292-332 | with s the average rounded up, the name at position p belongs to an online node if and only if p / s online nodes stand before it |
| Cluster.GetSubBackends | lmd/request.go:535-552 | the requested ones among a node's backends, in order: all named ones for a request without backends |
| Cluster.RequestCovered | lmd/request.go:535-552 | the sub-requests to all nodes together ask for exactly the requested backends, each once |
| Cluster.Nodes.AppendSubPeers | lmd/nodes.go:341-356 | every sub peer of an assigned backend is added, and only sub peers of what is in the list |
| Cluster.Nodes.Compare | lmd/nodes.go:358-383 | which backends were gained and which were dropped |
| Cluster.Nodes.UpdateBackends | lmd/nodes.go:340-400 | stops exactly the dropped backends, then starts exactly the gained ones; what is assigned are the given backends, every sub peer of them, and only sub peers of what is assigned |
| ClusterRuns.RunFollowsAssignment | lmd/nodes.go:340-400 | in every state of every run, sub peers coming and going, a backend runs iff it is assigned, none was started while running or stopped while standing still |
| ClusterRuns.NoDoubleStartIff | lmd/main.go:447-451 | no run starts a running peer if and only if no backend name is listed twice, which is what the check at start demands |
| ClusterRuns.ExactlyOneRuns | lmd/nodes.go:283-400 | if the online nodes redistributed on the same view, every named backend runs on exactly one of them |
| PeerLifecycle.Peer.SetNextAddrFromErr | lmd/peer.go:1392-1450 | a client error changes nothing; a connection error moves to the next source, clears the data and leaves the peer down if it ends the grace period, and otherwise takes it from up or pending to warning |
| PeerLifecycle.Peer.CommitTables | lmd/peer.go:816-830 | a complete reload stores its data and leaves the peer up, with the errors reset if it was not |
| PeerLifecycle.Peer.UpdateDone | lmd/datastoreset.go:138-143 | a finished update resets the errors |
| PeerLifecycle.Peer.SetBrokenState | lmd/peer.go:2141-2150 | a broken peer drops its data |
| PeerLifecycle.Peer.UpdateInitialStatus | lmd/peer.go:944-955 | a site without status is down and drops its data |
| PeerLifecycle.RunSafe | lmd/peer.go:818-830 | after any steps in any order, a peer that is Pending, Down or Broken holds no data, and its address is the source at an index in range |
| PeerLifecycle.DataOnlyByCommit | lmd/peer.go:818-830 | data appears or changes only in the step that commits a reload, which leaves the peer up |
| PeerLifecycle.UpWithoutData | lmd/peer.go:1402-1445 | when the first source fails after the grace period and the next one answers within the same update, the site is up without data |
| PeerLifecycle.UpMeansDataIff | lmd/datastoreset.go:138-143 | in a whole run, up always means data if and only if every update ends while its data is there and data is cleared from outside only while the site is not up |
| PeerLifecycle.OutageExact | lmd/peer.go:1432-1445 | any number of errors in a row take a peer down and clear its data if and only if one of them ends the grace period; otherwise the first one takes it from up or pending to warning |
| PeerLifecycle.GracePeriodExact | lmd/peer.go:1435-1445 | a site that was online stays out of Down and keeps its data, in Warning, if and only if all errors come within the grace period |
| PeerLifecycle.NeverOnlineExact | lmd/peer.go:1432-1445 | a site that was never online goes down if and only if the errors outnumber its sources or one comes when the clock is past the grace period counted from 0; before that it is in warning |
| PeerLifecycle.DataSurvives | lmd/peer.go:1392-1450 | errors and recoveries mixed in any order within the grace period never cost the data |
| PeerLifecycle.Peer.GetConnection | lmd/peer.go:1295-1364 | sources are tried in cyclic order until one answers; if all dials fail each was tried once and the start is current again |
| PeerLifecycle.RotationComplete | lmd/peer.go:1402-1418 | a whole cycle holds every source exactly as often as the configuration |
| Fixed16.HeaderIs16 | lmd/response.go:346-349 | for three-digit codes the header line has 16 bytes if and only if the size is below 10^11 |
| Fixed16.HeaderRoundTrip | lmd/peer.go:1238-1265 | code and size are read back from a printed header |
| Fixed16.MatchHeaderExact | lmd/peer.go:1248-1262 | every text of digits, blanks and digits is taken apart at those places |
| Fixed16.MatchHeaderSound | lmd/peer.go:1248-1262 | and nothing else is accepted |
| Fixed16.FittingHeader | lmd/peer.go:1173-1208 | a header of fifteen characters gives the body with its newline for code 200 and the code as an error otherwise |
| Fixed16.FramingExact | lmd/peer.go:1268-1289 | the receiver gets exactly body and newline and leaves the rest of the stream if and only if the code is 200 and the size below 10^11 |
| Fixed16.BrokenOff | lmd/peer.go:1173-1289 | an answer that breaks off at any place is reported as incomplete within the header, and as a wrong size with what arrived within the body |
| Fixed16.StreamRoundTrip | lmd/response.go:341-370 | any number of answers on a kept connection come apart where they were put together |
| Utf8Repair.BytesToValidUTF8 | lmd/future.go:11-36 | the loop with its flag computes the recursive repair |
| Utf8Repair.WidthExact | lmd/future.go:22-22 | a width above one is decoded exactly where a longer character of section 4 of RFC 3629 starts |
| Utf8Repair.EncodeIsChar | lmd/future.go:22-22 | every character number is encoded as a character of the grammar and decoded back |
| Utf8Repair.CharIsEncoded | lmd/future.go:22-22 | every character of the grammar is the encoding of its number |
| Utf8Repair.RepairExact | lmd/future.go:11-36 | a text is left alone if and only if it is clean, and repairing twice is repairing once |
| Utf8Repair.CleanExact | lmd/future.go:11-36 | a text is clean if and only if it is well-formed and holds no byte below 0x20 and no 0x7F |
| Utf8Repair.RepairPromise | lmd/future.go:11-36 | with U+FFFD the result is well-formed, holds no byte below 0x20 and no 0x7F, the repair is idempotent, and a text is unchanged if and only if it is well-formed without such bytes |
| Utf8Repair.CleanReplacementNeeded | lmd/future.go:11-36 | all results are clean if and only if the replacement is |
| Utf8Repair.RepairReplacesRuns | lmd/future.go:22-33 | kept characters survive in order and each maximal run of bad bytes becomes one replacement |
| Utf8Repair.PiecesPartition | lmd/future.go:11-36 | kept characters and bad runs partition the text and no two bad runs touch |
| Text.IntRoundTrip | lmd/datastoreset.go:542-542 | decimal text is read back as the number |
| Text.DigitAt | lmd/datastoreset.go:542-542 | in the text of a number the digit k places from the right is the number divided by 10^k, modulo 10, and there are no leading zeros |
| Text.SplitJoin | lmd/response.go:273-273 | splitting a joined text gives the parts back if and only if no part holds the separator |

## Left out

- StatsExact.RegroupExact: for counters that begin with a plain test; for a nested first filter there is the exact condition for pairs, StatsExact.NestedFirstExact, but none for longer lists.
- StatsMerge.MergedStatsExact: for Min the condition is sufficient for each arrangement of rows; that it is also needed is stated over all orders, in StatsMerge.MinExact.
- PositionalUpdate.WriteRows: what earlier rows hold after a row of the wrong size was met is not stated.
- IdLists.BuildDowntimeCommentsList: what the lists hold after the failure on an entry without an object is not stated.
- PeerLifecycle.Peer.GetConnection: one call alone; other goroutines between its steps are covered by PeerLifecycle.RunSafe only.
- ClusterRuns.RunFollowsAssignment: stopping takes effect at once; the code only asks the update loop to stop. Sub peers are not promised to follow their parent, and in the code they do not.
- StatsHeap.OptimizeRequestStats: says what the returned counters are; of the request's own list it is stated only what one peeling leaves of a counter (StatsHeap.RemoveFirst, StatsExact.StrippedDenotes), not the text of the whole list printed for other nodes.
- LimitPushdown.PageSorted: needs scans in sort order; services found through the index come in map order within a host, where it does not apply.
- Text of stats headers, all other request headers, and requests parsed with optimisation, whose lower-case columns are not meant to be printed back.
- Authorisation, optional columns of backends without the needed flag, virtual columns, virtual tables.
- PositionalUpdate.UpdateFullTable: the branches for hosts, services, timeperiods and status are not modelled; hosts and services of Icinga 2 sites are looked up by key there.
- CommentSync.UpdateDeltaCommentsOrDowntimes: ends with the table; the rebuild of the id lists that follows is IdLists.BuildDowntimeCommentsList.
- Delta updates and full scans of hosts and services.
- The second merge in a cluster, of the answers of several nodes.
- Rounding of floating point values, integer overflow, ids beyond 2^53.
- Sockets, HTTP, TLS, JSON, compression, configuration, logging, metrics, export and import.
