# Verified models of the telemetry test utilities

This project models the algorithmic core of the CloudWatch agent test repository in Dafny and proves
what that core is for. Each module follows one piece of the repository.

**The PromQL query cache** (`QueryCacheProtocol.dfy`, `QueryCacheAtomic.dfy`, `QueryCacheObject.dfy`, `FetchPool.dfy`,
`QueryText.dfy`, `SeriesStore.dfy`, `Sharding.dfy`, `FetchFiltered.dfy`, `SourceRegistry.dfy`, `QueryCacheAnswers.dfy`,
`QueryCacheSystem.dfy`).
`QueryCacheProtocol` turns `QueryCache.Get` into a transition system with one atomic step per critical
section, channel wait, fetch and channel close. Any number of calls interleave. An inductive invariant
gives singleflight, write-once, what every kind of reply means, absence of deadlock, and a bound of five
steps per call. `QueryCacheAtomic` proves linearizability: every interleaving has the stored entries and the
replies of undisturbed calls in some order. `QueryCacheObject` is the object itself; each method is one critical section and is
proved to be the protocol's step. `FetchPool` is the fan-out: any number of fetches with any number of
workers share one semaphore, and every schedule is bounded, returns all tokens and merges exactly the
replies of its workers. `QueryText` says exactly when a query reads as what it is meant to say, `SeriesStore`
what it then selects, and `Sharding` exactly when the split query returns what the unsplit one does,
whatever fails. `QueryCacheSystem` puts these together: calls and workers interleave in one system with one
semaphore, one bound on its steps and no deadlock, and every reply is related to one store of series.

**Labels and selectors** (`PromQL.dfy`, `Labels.dfy`, `LabelLaws.dfy`, `LabelPrinting.dfy`).
The two escapers, the label scopes, flattening and printing. The laws are exact: each round trip is
stated as an equivalence with the condition on the input under which the code meets it.

**Sequence-numbered logs** (`SequenceLogs.dfy`, `GapCheck.dfy`, `LogGenerator.dfy`, `Sorting.dfy`).
Concurrent generators, the printed number and its parser, the gap loop and its verdict, joined by one
end-to-end theorem about lossy, reordered delivery.

**The debug-log scanner** (`DebugLogScanner.dfy`). The line-by-line state machine is proved equal to a
description of request blocks.

**Numeric and loop cores** (`RealArithmetic.dfy`, `PerformanceStats.dfy`, `LogPaging.dfy`, `HttpRetry.dfy`,
`MetricPresence.dfy`, `MetricGrouping.dfy`). Statistics over exact reals, paging with retries and the
duplicate index, backoff, polling until everything is found, and grouping with set comparison by counting.

Shared vocabulary is in `Common.dfy` and `Results.dfy`. `dafny verify dfyconfig.toml` checks the project.

Conventions. Where Go iterates over a map, the iteration order is a parameter and results are stated for
all orders. Services, clocks and the random filler are parameters: what a query, a page request or an
HTTP attempt returns is an arbitrary function or sequence.

## Where the code and its description differ

The models follow the code. These differences are stated as lemmas.

- "Each unique metric name is queried exactly once" (`util/otelmetrics/query_cache.go:33`): an empty
  success is not stored, so a metric can be fetched again. `QueriedTwice` is a run that does it, and
  `FetchesAgainIff` says exactly when a call that missed fetches again.
- Nil host types are documented as cluster-scoped (`util/otelmetrics/source_registry.go:31-32`, `:69-70`):
  `IsClusterScoped` tests two fixed sources, and any other source mapped to no host types is queried
  without a host condition (`NilHostTypesRoute`, and `KarpenterIsWhole` for a registry that the suites
  build). `NilHostTypesMean` says exactly when the answers differ.
- Host types and metric names are put into the query unescaped while the cluster name is escaped
  (`util/otelmetrics/query_cache.go:20-25`, `:191`): a query says what is meant exactly when they can stand
  there as they are (`WholeTextReads`, `ShardTextReads`; `UnescapedHost` and `UnescapedMetric` are queries
  that do not). What comes back then is part of the same laws: nothing that a query with a metric name to
  escape returns is of that metric, and whatever the names, the fetch is complete exactly when the queries
  as they are read ask once for each series (`FetchMeans`). An empty metric name asks for every metric.
- `FormatPromQL` does not escape keys (`PrintedReadsIff` says exactly when that is harmless; `BlankInKey`
  and `QuoteInKey` are labels for which it is not), and it prints a selector that nothing satisfies when
  two scopes give one full key different values (`FormatMeans` says exactly when; `CloudWatchClash` is such
  an input).
- `AllLabels` and `ParseLabels` are inverse only on the inputs named in `FlattenParsed` and
  `ParseFlattened` (`ExplicitDatapoint` and `CloudWatchReread` are others), and `ParseLabels` depends on the
  iteration order exactly when an explicit and an implicit datapoint key of one name disagree
  (`OrderIndependence`, with the input in `ConflictingKeys`).
- A repeated sequence number can hide a gap (`RepetitionHidesGap`); `FailsIff` says exactly when the check
  fails, and `ReportExact` what it then reports.
- The log note "less than 99 values given, p99 value will be equal the max value"
  (`validator/validators/performance/performance_stats.go:44-46`): for up to 100 samples P99 is the second
  greatest (`P99IsSecondGreatest`; `P99BelowMax` for two samples).
- A metric listed twice makes `AssertMetricsPresent` fail even when everything is found, with an empty list
  of missing metrics (`AssertMetricsPresent`, `NothingMissing`, with the input in `ListedTwice`).
- Metrics without a dimension name each get their own group (`KeysDistinctIff`, with the input in
  `TwoUnnamed`), so a lookup of the empty key finds only the first (`LookupFindsIff`). The fetch asks the
  service for metrics with the cluster's dimension (`test/metric/container_insights_util.go:100-107`); what
  the service answers is a parameter here, so the laws cover answers without it.
- A dimension name that contains the delimiter can share a group with other names (`DelimiterInName`). A key
  says which names it was made of exactly when it is a single name that no hyphen splits into two names in
  order (`KeyDeterminesNames`); among names without a hyphen it always does (`KeyMeansNames`).
- An expected list with duplicates never compares equal to its own set (`CompareMeans`, with the input in
  `RepeatedName`).

## Model

| member | source | states |
|---|---|---|
| `QueryCacheProtocol.StepInv` | util/otelmetrics/query_cache.go:81-141 | every step of every call keeps the invariant on the stored entries, the running fetches and the channels |
| `QueryCacheProtocol.LookingStep` | util/otelmetrics/query_cache.go:83-101 | looking, joining a fetch, waking up and looking again keep the invariant |
| `QueryCacheProtocol.ClaimingStep` | util/otelmetrics/query_cache.go:105-124 | claiming a fetch after the second check keeps the invariant, and an earlier fetch of the metric was empty |
| `QueryCacheProtocol.OwnerStepInv` | util/otelmetrics/query_cache.go:127-138 | fetching, publishing and closing by the claiming call keep the invariant |
| `QueryCacheProtocol.SingleFlight` | util/otelmetrics/query_cache.go:81-141 | in every reachable state a metric is never both stored and in flight, at most one call fetches it, what is in flight is what some call is fetching, and a channel has been closed once if its creator is done and otherwise not at all |
| `QueryCacheProtocol.WriteOnce` | util/otelmetrics/query_cache.go:129-136 | over any further run a stored entry neither changes nor disappears |
| `QueryCacheProtocol.Replies` | util/otelmetrics/query_cache.go:89-101 | a waiter returns the entry of the fetch it waited on if that carried anything; if that fetch succeeded with no results it returns "nothing", or an entry stored by a later fetch |
| `QueryCacheProtocol.Agreement` | util/otelmetrics/query_cache.go:81-141 | all calls for a metric that return results or an error return the one stored entry |
| `QueryCacheProtocol.RefetchOnlyEmpty` | util/otelmetrics/query_cache.go:129-137 | in every reachable state, of two fetches of one metric the earlier succeeded with no results; exactly when a call fetches again is `FetchesAgainIff` |
| `QueryCacheProtocol.QueriedTwice` | util/otelmetrics/query_cache.go:33-34 | a run in which one metric is fetched twice |
| `QueryCacheAtomic.AbsentIff` | util/otelmetrics/query_cache.go:83-137 | in every reachable state a metric is neither stored nor in flight exactly when all its fetches were empty and are published |
| `QueryCacheAtomic.FetchesAgainIff` | util/otelmetrics/query_cache.go:33-34 | a call that missed claims a new fetch exactly when every earlier fetch of its metric was empty and is published, and otherwise claims none |
| `QueryCacheProtocol.Progress` | util/otelmetrics/query_cache.go:83-140 | an unfinished call can step, or waits on a channel whose creator can |
| `QueryCacheProtocol.StepRank` | util/otelmetrics/query_cache.go:83-140 | every step of every call lowers one rank of the whole system |
| `QueryCacheProtocol.EveryRunEnds` | util/otelmetrics/query_cache.go:83-140 | n calls take at most 5n steps; a run that cannot go on has finished all calls, closed every channel exactly once and left nothing in flight |
| `QueryCacheAtomic.StepIsAtomic` | util/otelmetrics/query_cache.go:81-141 | each step of each call changes nothing that callers can observe, or is one undisturbed call of its caller, with a fetch that was made wherever nothing is stored |
| `QueryCacheAtomic.Linearizable` | util/otelmetrics/query_cache.go:79-141 | every run has the stored entries and replies of undisturbed calls in some order, each caller once, and a call that has its reply comes before all that have not |
| `QueryCacheAtomic.RepliesWereFetched` | util/otelmetrics/query_cache.go:81-141 | every reply is what some fetch of that metric gave |
| `QueryCacheAtomic.StoredWasFetched` | util/otelmetrics/query_cache.go:129-136 | every stored entry is what some fetch of that metric gave |
| `QueryCacheAnswers.GetMeans` | util/otelmetrics/query_cache.go:79-220 | if every fetch asked one store, any query of which may fail, a call's reply merges the replies of one fetch of its metric, and for any names it is complete or has nothing extra exactly under the conditions on those replies |
| `QueryCacheAnswers.GetNothingExtra` | util/otelmetrics/query_cache.go:79-220 | with failing queries or not, a call returns nothing extra if the metric's queries together select no series twice and none but the metric's, as they do if no name needs escaping and no host type is listed twice |
| `QueryCacheAnswers.PartialStays` | util/otelmetrics/query_cache.go:129-220 | a stored entry is without an error exactly when some query of its fetch found a series, complete exactly when the answered queries cover each series once, and in every further run it remains and is every carrying reply |
| `QueryCacheSystem.StepInv` | util/otelmetrics/query_cache.go:81-220 | every step of a call or of a worker keeps the calls reachable, the pool consistent and each fetch linked to the call that claimed it |
| `QueryCacheSystem.TokenBound` | util/otelmetrics/query_cache.go:183-189 | all fetches of all calls together never use more tokens than the semaphore has |
| `QueryCacheSystem.Progress` | util/otelmetrics/query_cache.go:81-220 | while a call is unfinished some step is possible, of a call or of a worker that does not give up |
| `QueryCacheSystem.StepRank` | util/otelmetrics/query_cache.go:81-220 | every step, of a call or of a worker, lowers one rank of the whole system |
| `QueryCacheSystem.EveryRunEnds` | util/otelmetrics/query_cache.go:81-220 | at most seven steps per call and six per worker; a run that cannot go on has finished every call, closed every channel once, left nothing in flight and returned all tokens |
| `QueryCacheSystem.CallsReturn` | util/otelmetrics/query_cache.go:79-220 | end to end, for any interleaving of calls and workers, any names and any failing queries, a call's reply merges one fetch of its metric to the store and is complete or has nothing extra exactly under the conditions on its replies |
| `QueryCacheObject.QueryCache.constructor` | util/otelmetrics/query_cache.go:62-77 | a new cache is empty |
| `QueryCacheObject.QueryCache.FastPath` | util/otelmetrics/query_cache.go:83-102 | the read-locked lookup is the protocol's first step |
| `QueryCacheObject.QueryCache.Claim` | util/otelmetrics/query_cache.go:105-124 | the write-locked double check and claim are the protocol's step |
| `QueryCacheObject.QueryCache.Publish` | util/otelmetrics/query_cache.go:132-137 | stores unless empty and retires the claim, as the protocol's step |
| `QueryCacheObject.QueryCache.CloseChannel` | util/otelmetrics/query_cache.go:138 | closes the one channel |
| `QueryCacheObject.QueryCache.Reread` | util/otelmetrics/query_cache.go:91-101 | the second look of a waiter is the protocol's step |
| `QueryCacheObject.QueryCache.Get` | util/otelmetrics/query_cache.go:81-141 | an undisturbed call returns the stored entry unchanged, or waits on the channel of the fetch in flight, or returns the fetch, stored exactly if it carries something, with its channel closed once and the claim gone |
| `FetchPool.StepInv` | util/otelmetrics/query_cache.go:172-207 | every step keeps tokens, queues, received replies and merged results consistent in all fetches |
| `FetchPool.TokenBound` | util/otelmetrics/query_cache.go:183-189 | tokens in use are those of the workers between acquire and release, never more than the capacity |
| `FetchPool.SendNeverBlocks` | util/otelmetrics/query_cache.go:176-193 | a worker with a reply can always send it: there is room and the queue is open |
| `FetchPool.ClosedMeansReturned` | util/otelmetrics/query_cache.go:181-197 | once a fetch's queue is closed all its tokens are back |
| `FetchPool.FetchReturns` | util/otelmetrics/query_cache.go:199-219 | whatever the schedule, a finished fetch returns the successful workers' results, each as often, and an error exactly when there is no result and some worker failed |
| `FetchPool.BagRows` | util/otelmetrics/query_cache.go:199-207 | merging replies in another order gives the same results, each as often |
| `FetchPool.Progress` | util/otelmetrics/query_cache.go:172-207 | while a fetch has not returned some step other than giving up is possible |
| `FetchPool.EveryRunEnds` | util/otelmetrics/query_cache.go:172-219 | every schedule takes at most six steps per worker and two per fetch, and ends with all fetches returned and all tokens back |
| `SourceRegistry.NewSourceRegistry` | util/otelmetrics/source_registry.go:49-67 | the last mapping of a source or metric counts, and nothing else is indexed |
| `SourceRegistry.NilHostTypesRoute` | util/otelmetrics/source_registry.go:31-36 | in every registry a metric whose source is last mapped to no host types is asked for as cluster-scoped exactly when the source is one of two fixed ones, and otherwise without a host condition |
| `FetchFiltered.RegistryAsks` | util/otelmetrics/query_cache.go:151-213 | the queries sent, by the mappings a registry was built from: a metric in no mapping is asked for on every host type of the cluster, one of the two fixed sources with the empty host type, any other on every host type of the last mapping of its source, one query each and in order, and where there is none by the unsplit query |
| `FetchFiltered.NoRegistryAsks` | util/otelmetrics/query_cache.go:160-162 | without a registry one query per host type of the cache, in order, or the unsplit query if it has none |
| `FetchFiltered.MappedFetchMeans` | util/otelmetrics/query_cache.go:151-219 | with such a registry, no failing query and no name to escape, a fetch returns the metric's series exactly when the host type of each is listed once in the last mapping of its source |
| `SourceRegistry.KarpenterIsWhole` | test/otel/solutions/karpenter/setup_test.go:87-93 | the registry of that suite, with one source mapped to nil host types, asks without a host condition |
| `FetchFiltered.NilHostTypesMean` | util/otelmetrics/source_registry.go:69-86 | for a source without host types that is not a fixed one, the query sent agrees with the documented one exactly when the two select the same series; if the metric's name can stand in a query, exactly when none of its series has a host type, and otherwise neither returns anything of the metric |
| `QueryText.SelectorReads` | util/otelmetrics/query_cache.go:20-25 | a query whose other conditions begin with a quoted name that does not start with a comma, an equal sign or a closing brace reads as the metric and those conditions exactly when the metric's name can stand there as it is and the rest reads as them |
| `QueryText.MisnamedRead` | util/otelmetrics/query_cache.go:20-25 | with a metric name that cannot stand there as it is, the same query reads as nothing or as one on another metric |
| `QueryText.WholeTextReads` | util/otelmetrics/query_cache.go:208-212 | the unsplit query, with any cluster name, reads as the conditions on the label of the name and on the cluster's label exactly when the metric's name can stand there as it is, and otherwise as nothing or as another metric |
| `QueryText.ShardTextReads` | util/otelmetrics/query_cache.go:191 | a shard query reads as the conditions on the three labels, given by name, exactly when the metric's name can stand there and the host type has no quote or backslash |
| `QueryText.QueryTextsAre` | util/otelmetrics/query_cache.go:191 | the two query texts letter by letter, with the names of the labels |
| `QueryText.ShardMisread` | util/otelmetrics/query_cache.go:191 | a shard query that does not read as intended reads as nothing, as another metric, or as this metric and cluster with another host type |
| `QueryText.UnescapedHost` | util/otelmetrics/query_cache.go:191 | a host type with a quote whose shard query does not read as intended |
| `QueryText.UnescapedMetric` | util/otelmetrics/query_cache.go:20-25 | a dotted metric name with quotes whose query reads as one on the metric before the first quote |
| `Sharding.MergedCount` | util/otelmetrics/query_cache.go:179-207 | whatever the queries and whatever fails, a series is merged exactly as often as the store has it times the number of answered queries that select it |
| `Sharding.MergedMeans` | util/otelmetrics/query_cache.go:151-219 | for any queries and any failures the merged result is a selection, each series as often, exactly when the answered queries ask once for each series of the selection and for no other, and has nothing extra exactly when they ask at most so |
| `Sharding.ShardAsks` | util/otelmetrics/query_cache.go:191 | a shard query selects its host type's part of the unsplit selection; with a host type to escape only series of other host types, and with a metric name to escape only series of other metrics |
| `Sharding.ShardedMeansWhole` | util/otelmetrics/query_cache.go:151-219 | for any names and whatever fails, the merged result is the unsplit one exactly when the answered queries ask once for each series; where no name needs escaping, exactly when every selected series' host type is listed once among the answered shards, nothing is extra exactly when none is listed twice among them, and a list without repetitions never has anything extra; without failures all shards are answered |
| `Sharding.MisnamedReturns` | util/otelmetrics/query_cache.go:20-25 | nothing returned by queries that read as another metric or as nothing is of the metric |
| `FetchFiltered.MergeReplies` | util/otelmetrics/query_cache.go:199-219 | the collecting loop returns all rows, and an error exactly when there are none and some reply failed, the first failure to arrive |
| `FetchFiltered.FetchFiltered` | util/otelmetrics/query_cache.go:144-220 | the route decides the queries (`RegistryAsks` says by which host types), and their replies are merged whatever their order of arrival |
| `FetchFiltered.FetchMeans` | util/otelmetrics/query_cache.go:144-220 | the fetch by whichever route, for any names and any failing queries, is the unsplit answer exactly when the answered queries ask once for each series; where no name needs escaping, with host types listed exactly when the answered ones cover each series once and otherwise exactly when its one query was answered or had nothing to find; with a metric name to escape exactly when both are empty |
| `FetchFiltered.PooledFetchMeans` | util/otelmetrics/query_cache.go:172-219 | in every reachable state of the pool a finished sharded fetch is the unsplit answer exactly when the answered queries ask once for each series; where no name needs escaping, exactly when the answered shards cover each series once, with nothing extra exactly when they list none twice, and never anything extra if the host list has no repetitions |
| `FetchFiltered.WholeRouteMeans` | util/otelmetrics/query_cache.go:208-219 | the unsplit route returns exactly the metric's series of the cluster if the metric's name can stand in the query, and otherwise nothing of the metric |
| `FetchFiltered.ClusterScopedRouteMeans` | util/otelmetrics/query_cache.go:163-170 | the cluster-scoped route agrees with the unsplit one exactly when no selected series has a host type, if the metric's name can stand in the query, and otherwise returns nothing of the metric |
| `FetchFiltered.FilterText` | util/otelmetrics/query_cache.go:223-242 | the text built by the filter loop is the printed list of cluster and extra conditions |
| `FetchFiltered.FilterPiece` | util/otelmetrics/query_cache.go:228-239 | the piece that each kind of key appends: quoted for a resource label, and a regular expression after a tilde |
| `FetchFiltered.FilterTextReads` | util/otelmetrics/query_cache.go:223-242 | that text reads back as metric, cluster and extra conditions in order, for arbitrary values, exactly when the metric's name and each key can be printed as they are |
| `PromQL.EscapersAgree` | util/otelmetrics/models.go:135-139 | the two-pass and the one-pass escaper agree on every string |
| `PromQL.UnescapeEscape` | util/otelmetrics/query_cache.go:18 | dropping the backslash of each pair undoes the escaper |
| `PromQL.EscapeInjective` | util/otelmetrics/query_cache.go:18 | different values are never escaped to the same text |
| `PromQL.LexEscaped` | util/otelmetrics/models.go:135-139 | a literal with an escaped value ends at exactly its closing quote, whatever follows, and decodes to the value |
| `PromQL.LexExact` | util/otelmetrics/models.go:135-139 | a literal that is read was written as the escaped value: there is no other way |
| `PromQL.ReadUnescaped` | util/otelmetrics/query_cache.go:20-25 | an unescaped text between quotes is read as itself only if it has nothing to escape, whatever follows |
| `PromQL.ReadPrintedItems` | util/otelmetrics/models.go:93-111 | a joined list of printable conditions reads back as those conditions in order |
| `PromQL.ReadItemsIff` | util/otelmetrics/models.go:93-111 | a joined list of conditions reads back as itself exactly when each name can be printed as it is |
| `PromQL.ReadPrinted` | util/otelmetrics/query_cache.go:20-25 | the same after a bare metric name, which becomes the condition on the name |
| `Labels.ParseLabels` | util/otelmetrics/models.go:69-90 | the switch in the loop is the specification's step per key, in any iteration order |
| `Labels.ParseLookup` | util/otelmetrics/models.go:69-90 | a scope holds a name exactly when some key belongs there, with the value of such a key |
| `Labels.ClassifyInverse` | util/otelmetrics/models.go:57-64 | a key is the full key of its scope and name, unless it is an explicit datapoint key |
| `Labels.AddScope` | util/otelmetrics/models.go:116-130 | one loop adds the scope's labels under their full keys, in any iteration order |
| `Labels.AllLabels` | util/otelmetrics/models.go:114-132 | the five loops give the flat map of all scopes |
| `LabelLaws.AllLabelsLookup` | util/otelmetrics/models.go:114-132 | the flat map has a key exactly when some scope has its name, and then that scope's value |
| `LabelLaws.FlattenParsed` | util/otelmetrics/models.go:69-132 | flattening parsed labels gives the input without its metric name exactly when there is no explicit datapoint key |
| `LabelLaws.ExplicitDatapoint` | util/otelmetrics/models.go:69-132 | an explicit datapoint key comes back without its prefix |
| `LabelLaws.ParseFlattened` | util/otelmetrics/models.go:69-132 | parsing flattened labels gives the labels exactly when they are normalised |
| `LabelLaws.CloudWatchReread` | util/otelmetrics/models.go:69-132 | an AWS label "cloudwatch.x" comes back as a CloudWatch label |
| `LabelLaws.OrderIndependence` | util/otelmetrics/models.go:71-88 | parsing is independent of the iteration order exactly when no explicit and implicit key of one name disagree |
| `LabelLaws.ConflictingKeys` | util/otelmetrics/models.go:71-88 | two keys and two iteration orders with different results |
| `LabelPrinting.FormatPromQL` | util/otelmetrics/models.go:93-111 | the text is the braced list of all labels as conditions, scoped ones quoted, datapoint ones bare |
| `LabelPrinting.OnePerScope` | util/otelmetrics/models.go:93-111 | with any one label in each scope: how each part is written, their order and what stands between them |
| `LabelPrinting.ItemsDescribeLabels` | util/otelmetrics/models.go:93-132 | the printed conditions are exactly the flat labels, if and only if no two scopes give one full key different values |
| `LabelPrinting.PrintedReadsIff` | util/otelmetrics/models.go:93-111 | for any iteration order and arbitrary values the printed text reads back as the printed conditions exactly when the keys can be printed as they are |
| `LabelPrinting.BlankInKey` | util/otelmetrics/models.go:107-109 | a datapoint name with a blank: the printed text does not read back |
| `LabelPrinting.QuoteInKey` | util/otelmetrics/models.go:95-97 | a resource name with a quote: the printed text does not read back |
| `LabelPrinting.FormatRoundTrip` | util/otelmetrics/models.go:93-132 | for arbitrary labels and any iteration order the printed selector reads back as its conditions and these are exactly the flat labels, if and only if the keys can be printed as they are and no two scopes clash |
| `LabelPrinting.FormatMeans` | util/otelmetrics/models.go:93-132 | for arbitrary labels and any iteration order the printed selector reads back as its conditions and these select exactly the series that carry the flat labels, if and only if the keys can be printed as they are and no two scopes clash |
| `LabelPrinting.ClashSelectsNothing` | util/otelmetrics/models.go:93-132 | labels that clash print as conditions that no series satisfies |
| `LabelPrinting.CloudWatchClash` | util/otelmetrics/models.go:101-106 | an AWS label "cloudwatch.x" and a CloudWatch label "x" that differ: the printed selector selects nothing |
| `LabelPrinting.NormalisedNeverClash` | util/otelmetrics/models.go:93-132 | normalised labels never clash |
| `LabelPrinting.PrintReadParse` | util/otelmetrics/models.go:69-111 | printing, reading and parsing gives back arbitrary labels exactly when the keys can be printed as they are and the labels are normalised |
| `SequenceLogs.EntryRoundTrip` | util/common/logs/generate.go:98-103 | a printed entry parses to its number exactly when its timestamp reads as no number or as that one |
| `SequenceLogs.LayoutMeans` | util/common/logs/generate.go:25 | in an entry's text the timestamp and the content stand as they are, at the ends, and its length is theirs, that of the number, and seven |
| `SequenceLogs.DecimalPrints` | util/common/logs/generate.go:25 | the number is printed in decimal digits with its value and no zero in front |
| `SequenceLogs.FindSeqMeans` | util/common/logs/generate.go:29 | the search finds the leftmost `seq=` before a digit, with all its digits, and nothing exactly when there is none |
| `SequenceLogs.ParseSeqMeans` | util/common/logs/generate.go:120-130 | a message has a number exactly when the digits found stay below 2 to the power of 64 |
| `SequenceLogs.FindAcrossBlank` | util/common/logs/generate.go:29 | the leftmost match is never across a blank: what stands before it is searched first |
| `SequenceLogs.ValueOfDecimal` | util/common/logs/generate.go:25 | the printed digits have the number's value |
| `GapCheck.FindGaps` | util/common/logs/generate.go:143-151 | the nested loop computes the specification's gaps |
| `GapCheck.GapInvariant` | util/common/logs/generate.go:143-151 | current is first plus handled plus reported and past the last handled; the report is increasing, absent and strictly between first and last |
| `GapCheck.GapsComplete` | util/common/logs/generate.go:143-151 | without repetitions every absent number in between is reported |
| `GapCheck.AssertNoMissingLogs` | util/common/logs/generate.go:116-157 | parsing, sorting, comparing the counts and the gap loop give the verdict on the delivered numbers |
| `GapCheck.ReportSound` | util/common/logs/generate.go:142-155 | on any delivery each reported number is absent and lies between two delivered ones |
| `GapCheck.ReportExact` | util/common/logs/generate.go:142-155 | on any delivery the report of a failing check has exactly the numbers below some sorted number that no earlier one, counted up by one per place, exceeds |
| `GapCheck.ReportComplete` | util/common/logs/generate.go:142-155 | without repetitions the report has every absent number in between |
| `GapCheck.FailureMeansGap` | util/common/logs/generate.go:142-155 | a failing check has found a real gap, repetitions or not |
| `GapCheck.PassesIffContiguous` | util/common/logs/generate.go:138-156 | without repetitions the check passes exactly on contiguous numbers |
| `GapCheck.FailsIff` | util/common/logs/generate.go:138-156 | on any delivery the check fails exactly when the count differs from the span and some sorted number is further from the first than its place |
| `GapCheck.RepetitionHidesGap` | util/common/logs/generate.go:138-142 | a delivery with a repetition and a gap that passes |
| `LogGenerator.Generator.GenerateEntry` | util/common/logs/generate.go:98-103 | the counter grows by one and the entry is the timestamp, the new value in decimal, the content and a line break, with nothing left out or added |
| `LogGenerator.StepIssues` | util/common/logs/generate.go:76-103 | each step hands out only the next number, once |
| `LogGenerator.NumbersAreConsecutive` | util/common/logs/generate.go:76-103 | for any interleaving of callers the numbers 1 to the counter are each in exactly one entry |
| `LogGenerator.WrittenDistinct` | util/common/logs/generate.go:76-103 | written entries carry distinct numbers between 1 and the counter |
| `LogGenerator.DeliveryCheck` | util/common/logs/generate.go:76-157 | for any interleaving of callers whose timestamps do not read as sequence numbers, and any lossy, reordered delivery without repetitions, the check passes exactly when the delivered numbers are contiguous |
| `DebugLogScanner.CheckForConfusedDeputyHeaders` | test/assume_role/assume_role_unix.go:548-563 | true exactly when both header lines occur |
| `DebugLogScanner.Evaluate` | test/assume_role/assume_role_unix.go:465-474 | true exactly when the block has the action and both headers |
| `DebugLogScanner.ScanForConfusedDeputyHeaders` | test/assume_role/assume_role_unix.go:457-520 | the scan is true exactly when some one request block contains all three facts, and exactly when the log has a part that begins like a request of either format, goes on without a line that ends a block, and mentions the action and both headers, all by their text |
| `DebugLogScanner.LinesMean` | test/assume_role/assume_role_unix.go:468-563 | which lines start a request or a block, end one, or carry a fact, exactly, by the text in them and the white space after it |
| `DebugLogScanner.LogMeans` | test/assume_role/assume_role_unix.go:457-520 | the description of the blocks by position and the one by text agree on every log |
| `DebugLogScanner.NewerFormatFound` | test/assume_role/assume_role_unix.go:515-530 | a log with a request of the format without an end marker and all facts passes, whatever comes before and after |
| `DebugLogScanner.OlderFormatFound` | test/assume_role/assume_role_unix.go:494-528 | the same for the format with markers |
| `DebugLogScanner.AfterTerminator` | test/assume_role/assume_role_unix.go:481-502 | a line that ends blocks leaves open at most the block it starts |
| `DebugLogScanner.Monotone` | test/assume_role/assume_role_unix.go:457-520 | a log that passes still passes when extended |
| `DebugLogScanner.BlocksDoNotCombine` | test/assume_role/assume_role_unix.go:457-545 | facts on different sides of a line that starts or ends a block never combine |
| `PerformanceStats.SortFloats` | validator/validators/performance/performance_stats.go:32 | sorts the array in place |
| `PerformanceStats.CalculateMetricStatistics` | validator/validators/performance/performance_stats.go:26-63 | the loops over the sorted array compute the statistics of the original samples, zero without samples, and the array ends up sorted; `P99Means`, `MomentsMean`, `PeriodMeans` and `Extremes` say what these are |
| `PerformanceStats.SortSum` | validator/validators/performance/performance_stats.go:37-53 | sums and squared deviations do not depend on the sorting |
| `PerformanceStats.IndexInRange` | validator/validators/performance/performance_stats.go:47-48 | for two samples or more the P99 index is in range, and not the last |
| `PerformanceStats.P99Means` | validator/validators/performance/performance_stats.go:47-48 | for two samples or more P99 is the sorted sample at the place, counted from 1, that is 99 of 100 of their number rounded down |
| `PerformanceStats.P99Splits` | validator/validators/performance/performance_stats.go:47-48 | the samples fall into that many of which P99 is the greatest and others that are no less |
| `PerformanceStats.PeriodMeans` | validator/validators/performance/performance_stats.go:61 | the period is the time per sample, cut towards zero |
| `PerformanceStats.MomentsMean` | validator/validators/performance/performance_stats.go:37-60 | n times Average is the sum, and n times the square of Std is the sum of squares less n times the square of Average |
| `PerformanceStats.SumMeans` | validator/validators/performance/performance_stats.go:37-40 | sums and sums of squares are those of the parts of a list, down to single samples |
| `PerformanceStats.Extremes` | validator/validators/performance/performance_stats.go:34-48 | Min and Max are the least and greatest sample, and P99 is a sample |
| `PerformanceStats.AverageBounds` | validator/validators/performance/performance_stats.go:37-42 | Min <= Average <= Max |
| `PerformanceStats.VarianceBound` | validator/validators/performance/performance_stats.go:50-60 | variance <= (Max - Average) * (Average - Min) |
| `PerformanceStats.StdMeans` | validator/validators/performance/performance_stats.go:50-60 | Std is the non-negative root of the variance, and 0 exactly when all samples are equal |
| `PerformanceStats.OrderIrrelevant` | validator/validators/performance/performance_stats.go:26-63 | all statistics are invariant under permutation of the samples |
| `PerformanceStats.ScaleInvariance` | validator/validators/performance/performance_validator.go:130-139 | scaling all samples by c > 0 scales every statistic but the period by c |
| `PerformanceStats.P99IsSecondGreatest` | validator/validators/performance/performance_stats.go:44-48 | up to 100 samples P99 is the second greatest sample, and equals Max exactly when the two greatest are equal |
| `PerformanceStats.P99BelowMax` | validator/validators/performance/performance_stats.go:44-48 | two samples whose P99 is not their Max |
| `LogPaging.GetLogsSince` | util/awsservice/cloudwatchlogs.go:75-130 | terminates; returns the pages of the answered calls in order; stops at the first fault that is not retried or at the last page |
| `LogPaging.NextPage` | util/awsservice/cloudwatchlogs.go:121-127 | each token leads to the next page and only the last page repeats the token it was asked with |
| `LogPaging.OutcomeUnique` | util/awsservice/cloudwatchlogs.go:75-130 | that contract determines the events, the error and the number of calls |
| `LogPaging.EveryPageOnce` | util/awsservice/cloudwatchlogs.go:117-130 | without an error every page is returned exactly once in order; with one, a prefix of the stream |
| `LogPaging.RetriesBounded` | util/awsservice/cloudwatchlogs.go:104-115 | only missing resources among the first three calls are retried, so at most three calls are wasted, and a missing resource ends the reading only at the fourth call or later |
| `LogPaging.FourthMissing` | util/awsservice/cloudwatchlogs.go:104-115 | four missing resources in a row end the reading with that error and no events; up to three cost only their calls |
| `LogPaging.AssertNoDuplicateLogs` | util/awsservice/cloudwatchlogs.go:354-373 | accepts exactly the lists without a repeated event; otherwise reports the first event that repeats an earlier one |
| `LogPaging.ValidateNoDuplicates` | util/awsservice/cloudwatchlogs.go:57-71 | reading and checking together accept exactly readable streams without a repeated event |
| `HttpRetry.RequestRawWithRetry` | util/otelmetrics/client.go:103-155 | the first attempt that is not retryable decides; 2^i - 1 seconds slept if it is attempt i, 2^(n-1) - 1 if all n fail, none if there are none |
| `HttpRetry.EndsAt` | util/otelmetrics/client.go:108-152 | by statuses: after attempts without a response or with a status from 500, a status below 400 returns the body, one from 400 to 499 or any other fault its own error, there and then |
| `HttpRetry.AllTried` | util/otelmetrics/client.go:108-155 | if all attempts within the limit are of that kind all are made, and the last one's failure is reported; without attempts nothing is |
| `HttpRetry.OutcomeUnique` | util/otelmetrics/client.go:103-155 | that contract determines the result, the attempts made and the time slept |
| `HttpRetry.SucceedsIff` | util/otelmetrics/client.go:103-155 | a body is returned exactly when an attempt within the limit is answered below 400 and only retryable ones precede it |
| `HttpRetry.MoreRetries` | util/otelmetrics/client.go:103-155 | a larger limit changes nothing for a decided call, never loses a success and never sleeps less |
| `MetricPresence.AssertMetricsPresent` | util/otelmetrics/validate.go:43-72 | succeeds exactly when there is an attempt, no metric is listed twice and all are found; otherwise lists in order exactly those never found; stops at the first attempt after which all are found; makes exactly the queries for metrics not yet found |
| `MetricPresence.EnoughFound` | util/otelmetrics/validate.go:61-63 | comparing the two lengths tests that all are found and none is listed twice |
| `MetricPresence.NeverRequeried` | util/otelmetrics/validate.go:48-60 | no metric is asked for after a query for it succeeded |
| `MetricPresence.MissingMembers` | util/otelmetrics/validate.go:66-71 | the reported list has exactly the metrics that no attempt found |
| `MetricPresence.MissingInOrder` | util/otelmetrics/validate.go:66-71 | it has them in the order of the list and as often |
| `MetricPresence.NothingMissing` | util/otelmetrics/validate.go:66-72 | the list of a failed check is empty exactly when everything was found |
| `MetricPresence.ListedTwice` | util/otelmetrics/validate.go:61-72 | a metric listed twice and always found: the check fails and names nothing |
| `MetricGrouping.GetMetricsInClusterDimension` | test/metric/container_insights_util.go:115-147 | filtering and the search over groups that share their maps build the specification's groups |
| `MetricGrouping.FilteredMeans` | test/metric/container_insights_util.go:117-120 | the filter keeps, in order, just the metrics with the text somewhere in their name |
| `MetricGrouping.Store` | test/metric/container_insights_util.go:121-144 | one metric goes into the first group with its key, or a new one; all other groups stay as they are |
| `MetricGrouping.GroupingConserves` | test/metric/container_insights_util.go:115-147 | for every key and name the groups hold exactly the dimension sets of those metrics, in order, and keys other than the empty one are distinct |
| `MetricGrouping.TotalConserved` | test/metric/container_insights_util.go:115-147 | over all groups and names as many sets are stored as there are filtered metrics |
| `MetricGrouping.KeyIgnoresOrder` | test/metric/container_insights_util.go:121-126 | the key does not depend on the order of the dimensions |
| `MetricGrouping.KeyMeansNames` | test/metric/container_insights_util.go:121-126 | for names without the delimiter equal keys mean the same dimension names; when a key alone determines them is stated by `KeyDeterminesNames` |
| `MetricGrouping.KeyDeterminesNames` | test/metric/container_insights_util.go:121-126 | every metric with dimensions and this key has the same dimension names exactly when the key is one name that no hyphen splits into two names in order |
| `MetricGrouping.DelimiterInName` | test/metric/container_insights_util.go:126 | two different sets of names, both with the cluster's, with one key |
| `MetricGrouping.EmptyKeyCount` | test/metric/container_insights_util.go:129-143 | every metric with the empty key has a group of its own |
| `MetricGrouping.KeysDistinctIff` | test/metric/container_insights_util.go:129-143 | all keys are distinct exactly when at most one metric has the empty key |
| `MetricGrouping.TwoUnnamed` | test/metric/container_insights_util.go:129-143 | two metrics without dimensions: two groups with one key, and a check of both names fails |
| `MetricGrouping.LookupFindsIff` | test/metric/container_insights_util.go:61-67 | looking up a key finds all and only the sets of its metrics exactly when the key is not the empty one or at most one metric has the empty key |
| `MetricGrouping.FoundUnnamed` | test/metric/container_insights_util.go:61-67 | looking up the empty key finds the first metric with it, and no other |
| `MetricGrouping.CompareMetrics` | test/metric/container_insights_util.go:162-193 | true exactly when the counts agree and every expected name is present |
| `MetricGrouping.CompareMeans` | test/metric/container_insights_util.go:162-193 | without duplicates that is equality of sets; with duplicates it never is, but asks for as many names missing from the list as it has repetitions |
| `MetricGrouping.RepeatedName` | test/metric/container_insights_util.go:162-193 | a name listed twice: what was seen is rejected, and accepted with another name in it |
| `MetricGrouping.ValidateAvailability` | test/metric/container_insights_util.go:60-78 | the search and the comparison for one expected group |
| `MetricGrouping.AvailabilityMeans` | test/metric/container_insights_util.go:59-193 | end to end, for every key and list: it is accepted exactly when it is not empty, lists only names seen under the key, and as many of those are missing from it as it has repetitions; without repetitions, exactly when it is the non-empty set of names seen |
| `Sorting.SortSorts` | util/common/logs/generate.go:135-137 | the library sort yields a sorted permutation |
| `Sorting.SortedUnique` | validator/validators/performance/performance_stats.go:32 | a sorted list is determined by how often each value occurs |

## Left out

- HTTP, request signing, credentials, JSON decoding and the AWS SDK: what they return is a parameter.
- The random filler of a log line is a parameter, with its length.
- Real time, tickers, rate limiting and sleeping: only counts and sums of requested sleeps are modelled; `1<<attempt` is not cut off at 64 bits.
- Context cancellation is a nondeterministic alternative of a waiting worker; the pool does not model the time at which a context ends.
- `GetUnfiltered`: it has no in-flight map, so it promises neither singleflight nor write-once.
- `QueryCacheObject.QueryCache.Get`: states a call that is not interleaved with others, up to its wait if the metric is in flight; what follows the wait is `Reread`, and interleaved calls are the subject of `QueryCacheProtocol` and `QueryCacheAtomic`.
- `QueryText.SelectorReads`: speaks of conditions that begin with a quoted name as the repository's do.
- `LabelPrinting.FormatRoundTrip`: is about reading the text back as its own conditions; what else a text with unprintable keys may be read as is not stated.
- `LabelPrinting.FormatMeans`: the same.
- `LabelPrinting.PrintReadParse`: the same.
- `LogGenerator.DeliveryCheck`: the timestamp format is configurable; for a timestamp that reads as a number `EntryRoundTrip` says what an entry parses to.
- Query results carry their raw labels; converting an answer's labels with `ParseLabels` in `parseResponse` is not composed with the cache, and `parseResponse` and `QueryRange` themselves would only add members without branching worth proving.
- The selector reader understands what the repository prints: quoted and bare names, `=` and `=~`, escaped quotes and backslashes. Other PromQL escapes, line breaks inside literals and UTF-8 encoding are not modelled, and what a regular expression matches is a parameter. A bare name is any text without quotes, blanks, braces, commas and equal signs: the PromQL grammar for identifiers is narrower, so a bare `@instrumentation.x` or `9a` reads here and not there.
- Floating-point rounding: statistics are over exact reals, the P99 index is computed from exactly 99n/100, and the square root is a parameter. A single sample is excluded because the code indexes out of range.
- Unsigned 64-bit wrap-around in the generator and the gap check; a delivery with no parsable number is excluded because the code indexes its first element.
- The scanner's input is a list of lines: the line-length limit and read errors of the buffered reader are not modelled.
- `LogPaging.GetLogsSince`: assumes a stream whose last page repeats its token, as the service documents; a service that never repeats a token, or sends none, makes the loop endless.
- The query text of `AssertMetricsPresent`, with its label conditions: whether a query finds something is a parameter.
- The random choice of a dimension set in `ValidateMetrics` and the value checks that follow it.
- Go panics, nil maps and semaphore capacity 0.
- Test runners, expected-metric tables, platform helpers, agent control, Terraform and Kubernetes set-up, and the load generators: data, wiring or I/O.
