/** `fetchFiltered` and `GetWithFilter`: which queries are sent, how replies are merged, and what comes back. */
module FetchFiltered {
  import opened Common
  import opened Results
  import opened PromQL
  import opened SourceRegistry
  import opened FetchPool
  import opened SeriesStore
  import opened QueryText
  import opened Sharding

  /** The queries sent for a metric, one per worker when the route is sharded. */
  function QueryTexts(route: Route, metric: string, cluster: string): seq<string> {
    match route
    case ClusterScoped => [ShardText(metric, cluster, "")]
    case Sharded(hosts) => ShardTexts(metric, cluster, hosts)
    case Whole => [WholeText(metric, cluster)]
  }

  function RepliesTo(query: string -> Reply, texts: seq<string>): seq<Reply> {
    seq(|texts|, i requires 0 <= i < |texts| => query(texts[i]))
  }

  /** An error is that of the first failure to arrive. */
  ghost predicate FirstArrived(entry: Entry, arrived: seq<Reply>) {
    entry.err.Some? ==> exists k :: 0 <= k < |arrived| && arrived[k] == Failed(entry.err.value) && forall j | 0 <= j < k :: arrived[j].Rows?
  }

  lemma {:induction false} FirstErrorFirst(arrived: seq<Reply>)
    ensures FirstError(arrived).Some? ==>
      exists k :: 0 <= k < |arrived| && arrived[k] == Failed(FirstError(arrived).value) && forall j | 0 <= j < k :: arrived[j].Rows?
    ensures FirstError(arrived).None? ==> forall j | 0 <= j < |arrived| :: arrived[j].Rows?
  {
    if arrived != [] {
      var n := |arrived| - 1;
      var front := arrived[..n];
      FirstErrorFirst(front);
      assert forall j | 0 <= j < n :: arrived[j] == front[j];
      if FirstError(front).Some? {
        var k :| 0 <= k < |front| && front[k] == Failed(FirstError(front).value) && forall j | 0 <= j < k :: front[j].Rows?;
        assert arrived[k] == Failed(FirstError(arrived).value);
      } else if arrived[n].Failed? {
        assert arrived[n] == Failed(FirstError(arrived).value);
      }
    }
  }

  /** The collecting loop over the replies in arrival order, and the conclusion after it. */
  method MergeReplies(arrived: seq<Reply>) returns (entry: Entry)
    ensures Merges(entry, arrived)
    ensures FirstArrived(entry, arrived)
  {
    var results: seq<MetricResult>, firstErr: Option<string> := [], None;
    for i := 0 to |arrived|
      invariant results == AllRows(arrived[..i])
      invariant firstErr == FirstError(arrived[..i])
    {
      var qr := arrived[i];
      assert arrived[..i + 1][..i] == arrived[..i];
      if qr.Failed? {
        if firstErr == None {
          firstErr := Some(qr.err);
        }
        continue;
      }
      results := results + qr.rows;
    }
    assert arrived[..|arrived|] == arrived;
    ConcludeMerges(arrived, arrived);
    FirstErrorFirst(arrived);
    if |results| == 0 && firstErr.Some? {
      return Entry([], firstErr);
    }
    entry := Entry(results, None);
  }

  /** `arrived` are the workers' replies in the order in which the collector saw them. */
  method FetchFiltered(registry: Option<Registry>, hostTypes: seq<string>, cluster: string, metric: string,
                       query: string -> Reply, arrived: seq<Reply>)
    returns (entry: Entry)
    requires RouteOf(registry, hostTypes, metric).Sharded? ==>
      SameBag(arrived, RepliesTo(query, QueryTexts(RouteOf(registry, hostTypes, metric), metric, cluster)))
    ensures Merges(entry, RepliesTo(query, QueryTexts(RouteOf(registry, hostTypes, metric), metric, cluster)))
    ensures RouteOf(registry, hostTypes, metric).Sharded? ==> FirstArrived(entry, arrived)
  {
    var route := RouteOf(registry, hostTypes, metric);
    ghost var replies := RepliesTo(query, QueryTexts(route, metric, cluster));
    match route {
      case ClusterScoped =>
        entry := MergeReplies([query(ShardText(metric, cluster, ""))]);
        assert replies == [query(ShardText(metric, cluster, ""))];
      case Whole =>
        entry := MergeReplies([query(WholeText(metric, cluster))]);
        assert replies == [query(WholeText(metric, cluster))];
      case Sharded(_) =>
        entry := MergeReplies(arrived);
        MergesAnyOrder(entry, arrived, replies);
    }
  }

  /** Merging is about the bag of replies, not their order. */
  lemma MergesAnyOrder(entry: Entry, a: seq<Reply>, b: seq<Reply>)
    requires Merges(entry, a) && SameBag(a, b)
    ensures Merges(entry, b)
  {
    BagRows(a, b);
    BagEmpty(AllRows(a), AllRows(b));
    forall r ensures r in a <==> r in b {
      BagMember(a, b, r);
    }
  }

  // ----- what comes back from a store of series -----

  /** What a fetch is said to return: the metric's series of the cluster, each as often. */
  ghost predicate Complete(b: Backend, metric: string, cluster: string, entry: Entry) {
    SameBag(entry.results, WholeAnswer(b, metric, cluster))
  }

  /** ... or at least none of them too often, and no others. */
  ghost predicate NothingExtra(b: Backend, metric: string, cluster: string, entry: Entry) {
    multiset(entry.results) <= multiset(WholeAnswer(b, metric, cluster))
  }

  /** Nothing that came back is of the metric, so it is complete only by being empty. */
  ghost predicate Misdirected(b: Backend, metric: string, cluster: string, entry: Entry) {
    && (forall x | x in entry.results :: LabelValue(x, NAME) != metric)
    && (NothingExtra(b, metric, cluster, entry) <==> entry.results == [])
    && (Complete(b, metric, cluster, entry) <==> entry.results == [] && WholeAnswer(b, metric, cluster) == [])
  }

  /**
    What merged replies to these queries amount to, for any names and any failures: complete exactly
    when the answered queries ask once for every series of the metric in the cluster and for no
    other, and nothing extra exactly when they ask at most so. Failures never add anything. A metric
    name that would have to be escaped brings nothing of that metric.
   */
  ghost predicate AmountsTo(b: Backend, metric: string, cluster: string, texts: seq<string>, replies: seq<Reply>, entry: Entry) {
    && |replies| == |texts|
    && (Complete(b, metric, cluster, entry) <==> AskedExactly(b, WholeMatchers(metric, cluster), Answered(texts, replies)))
    && (NothingExtra(b, metric, cluster, entry) <==> AskedAtMost(b, WholeMatchers(metric, cluster), Answered(texts, replies)))
    && (AskedAtMost(b, WholeMatchers(metric, cluster), texts) ==> NothingExtra(b, metric, cluster, entry))
    && (!MetricName(metric) ==> Misdirected(b, metric, cluster, entry))
  }

  /**
    What replies to one query per host type amount to, by the host types: complete exactly when the
    answered ones cover each series once, and nothing extra exactly when none of them is listed twice.
   */
  ghost predicate AsListed(b: Backend, metric: string, cluster: string, hosts: seq<string>, replies: seq<Reply>, entry: Entry) {
    && |replies| == |hosts|
    && (Complete(b, metric, cluster, entry) <==> CoveredOnce(b, metric, cluster, Answered(hosts, replies)))
    && (NothingExtra(b, metric, cluster, entry) <==> ListedAtMostOnce(b, metric, cluster, Answered(hosts, replies)))
    && (NoDup(hosts) ==> NothingExtra(b, metric, cluster, entry))
    && (AllSucceeded(replies) ==> Answered(hosts, replies) == hosts)
  }

  /** Without host types: complete exactly when the one query was answered or had nothing to find. */
  ghost predicate AsOne(b: Backend, metric: string, cluster: string, replies: seq<Reply>, entry: Entry) {
    && |replies| == 1
    && (Complete(b, metric, cluster, entry) <==> replies[0].Rows? || WholeAnswer(b, metric, cluster) == [])
    && NothingExtra(b, metric, cluster, entry)
  }

  lemma Misdirects(b: Backend, metric: string, cluster: string, texts: seq<string>, replies: seq<Reply>, entry: Entry)
    requires !MetricName(metric) && forall i | 0 <= i < |texts| :: Misnamed(ReadSelector(texts[i]), metric)
    requires RepliesFrom(b, texts, replies) && Merges(entry, replies)
    ensures Misdirected(b, metric, cluster, entry)
  {
    assert NameMatcher(metric) in WholeMatchers(metric, cluster);
    hide MetricName, ReadSelector, Misnamed, WholeMatchers, WholeAnswer, Merges, RepliesFrom, LabelValue;
    MisnamedReturns(b, metric, texts, replies, entry);
    forall x | x in WholeAnswer(b, metric, cluster) ensures LabelValue(x, NAME) == metric {
      InWhole(b, metric, cluster, x);
    }
    Apart(entry.results, WholeAnswer(b, metric, cluster));
  }

  lemma Apart(results: seq<MetricResult>, whole: seq<MetricResult>)
    requires forall x | x in results :: x !in whole
    ensures multiset(results) <= multiset(whole) <==> results == []
    ensures SameBag(results, whole) <==> results == [] && whole == []
  {
    if results != [] {
      assert results[0] in results && results[0] in multiset(results) && results[0] !in whole;
    }
    if whole != [] {
      assert whole[0] in multiset(whole);
    }
  }

  lemma Amounts(b: Backend, metric: string, cluster: string, texts: seq<string>, replies: seq<Reply>, entry: Entry)
    requires !MetricName(metric) ==> forall i | 0 <= i < |texts| :: Misnamed(ReadSelector(texts[i]), metric)
    requires RepliesFrom(b, texts, replies) && Merges(entry, replies)
    ensures AmountsTo(b, metric, cluster, texts, replies, entry)
  {
    hide MetricName, Misnamed, Misdirected, ReadSelector, Merges, RepliesFrom, Answered, AskedExactly, AskedAtMost, WholeMatchers;
    MergedMeans(b, WholeMatchers(metric, cluster), texts, replies, entry);
    if !MetricName(metric) {
      Misdirects(b, metric, cluster, texts, replies, entry);
    }
  }

  lemma ShardsMisnamed(metric: string, cluster: string, hosts: seq<string>)
    requires !MetricName(metric)
    ensures forall i | 0 <= i < |ShardTexts(metric, cluster, hosts)| :: Misnamed(ReadSelector(ShardTexts(metric, cluster, hosts)[i]), metric)
  {
    hide MetricName, Misnamed, ReadSelector, ShardText;
    forall i | 0 <= i < |hosts| ensures Misnamed(ReadSelector(ShardTexts(metric, cluster, hosts)[i]), metric) {
      ShardMisread(metric, cluster, hosts[i]);
    }
  }

  lemma ShardsAmount(b: Backend, metric: string, cluster: string, hosts: seq<string>, replies: seq<Reply>, entry: Entry)
    requires RepliesFrom(b, ShardTexts(metric, cluster, hosts), replies) && Merges(entry, replies)
    ensures AmountsTo(b, metric, cluster, ShardTexts(metric, cluster, hosts), replies, entry)
    ensures Askable(metric, hosts) ==> AsListed(b, metric, cluster, hosts, replies, entry)
  {
    hide AmountsTo, Askable, MetricName, Misnamed, ReadSelector, Merges, RepliesFrom, ShardTexts, AskedExactly, AskedAtMost,
      CoveredOnce, ListedAtMostOnce, AllSucceeded, Answered, NoDup;
    if !MetricName(metric) {
      ShardsMisnamed(metric, cluster, hosts);
    }
    Amounts(b, metric, cluster, ShardTexts(metric, cluster, hosts), replies, entry);
    ShardedMeansWhole(b, metric, cluster, hosts, replies, entry);
  }

  /** The unsplit query, which may fail. */
  lemma OneAmounts(b: Backend, metric: string, cluster: string, replies: seq<Reply>, entry: Entry)
    requires RepliesFrom(b, [WholeText(metric, cluster)], replies) && Merges(entry, replies)
    ensures AmountsTo(b, metric, cluster, [WholeText(metric, cluster)], replies, entry)
    ensures MetricName(metric) ==> AsOne(b, metric, cluster, replies, entry)
  {
    hide AmountsTo, AsOne, MetricName, Misnamed, ReadSelector, WholeText, WholeMatchers, Merges;
    WholeTextReads(metric, cluster);
    Amounts(b, metric, cluster, [WholeText(metric, cluster)], replies, entry);
    if MetricName(metric) {
      OneReply(b, metric, cluster, replies, entry);
    }
  }

  lemma OneReply(b: Backend, metric: string, cluster: string, replies: seq<Reply>, entry: Entry)
    requires ReadSelector(WholeText(metric, cluster)) == Some(WholeMatchers(metric, cluster))
    requires RepliesFrom(b, [WholeText(metric, cluster)], replies) && Merges(entry, replies)
    ensures AsOne(b, metric, cluster, replies, entry)
  {
    assert replies == [replies[0]] && [replies[0]][..0] == [];
    assert AllRows(replies) == if replies[0].Rows? then WholeAnswer(b, metric, cluster) else [];
    hide WholeAnswer, AllRows, WholeText;
    BagEmpty(AllRows(replies), entry.results);
    if SameBag(entry.results, WholeAnswer(b, metric, cluster)) {
      BagEmpty(entry.results, WholeAnswer(b, metric, cluster));
    }
  }

  /** The store's own answers, none of which is lost. */
  function Answers(b: Backend, texts: seq<string>): seq<Reply> {
    RepliesTo(text => b.Answer(text), texts)
  }

  /** The unsplit route returns exactly the metric's series in the cluster, if its name can stand in the query. */
  lemma WholeRouteMeans(b: Backend, metric: string, cluster: string, entry: Entry)
    requires Merges(entry, Answers(b, QueryTexts(Whole, metric, cluster)))
    ensures MetricName(metric) ==> Complete(b, metric, cluster, entry) && entry.err == None
    ensures !MetricName(metric) ==> Misdirected(b, metric, cluster, entry)
  {
    var text := WholeText(metric, cluster);
    assert Answers(b, QueryTexts(Whole, metric, cluster)) == [b.Answer(text)];
    WholeTextReads(metric, cluster);
    hide MetricName, Misnamed, Misdirected, WholeText, WholeAnswer, WholeMatchers, Complete, AmountsTo;
    OneAmounts(b, metric, cluster, [b.Answer(text)], entry) by {
      hide *;
      assert [b.Answer(text)][0] == b.Answer(text);
      OnlyAnswer(b, text);
    }
  }

  lemma OnlyAnswer(b: Backend, text: string)
    ensures RepliesFrom(b, [text], [b.Answer(text)])
  {
    hide Backend.Answer;
  }

  /** The cluster-scoped route returns the same series as the unsplit one exactly when none of them has a host type. */
  lemma ClusterScopedRouteMeans(b: Backend, metric: string, cluster: string, entry: Entry)
    requires Merges(entry, Answers(b, QueryTexts(ClusterScoped, metric, cluster)))
    ensures MetricName(metric) ==>
      (Complete(b, metric, cluster, entry) <==> forall x | x in WholeAnswer(b, metric, cluster) :: LabelValue(x, HOST) == "")
    ensures !MetricName(metric) ==> Misdirected(b, metric, cluster, entry)
  {
    var reply := b.Answer(ShardText(metric, cluster, ""));
    assert Answers(b, QueryTexts(ClusterScoped, metric, cluster)) == [reply];
    ShardTextReads(metric, cluster, "");
    assert MetricName(metric) ==> reply.Rows? && Askable(metric, [""]);
    assert ShardTexts(metric, cluster, [""]) == [ShardText(metric, cluster, "")];
    hide *;
    OnlyAnswer(b, ShardText(metric, cluster, ""));
    ShardsAmount(b, metric, cluster, [""], [reply], entry);
    ScopedFromShards(b, metric, cluster, reply, entry);
  }

  lemma ScopedFromShards(b: Backend, metric: string, cluster: string, reply: Reply, entry: Entry)
    requires AmountsTo(b, metric, cluster, ShardTexts(metric, cluster, [""]), [reply], entry)
    requires MetricName(metric) ==> AsListed(b, metric, cluster, [""], [reply], entry) && reply.Rows?
    ensures MetricName(metric) ==>
      (Complete(b, metric, cluster, entry) <==> forall x | x in WholeAnswer(b, metric, cluster) :: LabelValue(x, HOST) == "")
    ensures !MetricName(metric) ==> Misdirected(b, metric, cluster, entry)
  {
    hide MetricName, Complete, NothingExtra, Misdirected, WholeAnswer, LabelValue, Answered, Copies, AskedExactly, AskedAtMost, ListedAtMostOnce;
    forall x ensures Copies([""], x) == 1 <==> LabelValue(x, HOST) == "" {
      OnlyNoHost(x);
    }
  }

  lemma OnlyNoHost(x: MetricResult)
    ensures Copies([""], x) == 1 <==> LabelValue(x, HOST) == ""
  {
    assert multiset([""]) == multiset{""};
  }

  /** The sharded route, with an arbitrary schedule of the pool behind it and arbitrary failures. */
  lemma PooledFetchMeans(p: Pool, i: nat, b: Backend, metric: string, cluster: string, hosts: seq<string>)
    requires Reachable(p) && i < |p.fetches| && p.fetches[i].entry.Some?
    requires AllOut(p.fetches[i].workers) && RepliesFrom(b, ShardTexts(metric, cluster, hosts), Outcomes(p.fetches[i].workers))
    ensures var entry, replies := p.fetches[i].entry.value, Outcomes(p.fetches[i].workers);
      && AmountsTo(b, metric, cluster, ShardTexts(metric, cluster, hosts), replies, entry)
      && (Askable(metric, hosts) ==> AsListed(b, metric, cluster, hosts, replies, entry))
  {
    FetchReturns(p, i);
    hide *;
    ShardsAmount(b, metric, cluster, hosts, Outcomes(p.fetches[i].workers), p.fetches[i].entry.value);
  }

  /**
    A source without host types is documented as cluster-scoped. If it is not one of the two fixed
    ones, what is asked for and what is documented have the same answer exactly when the two
    queries select the same series of the store: for a metric whose name can stand in a query,
    exactly when none of its series in the cluster has a host type.
   */
  lemma NilHostTypesMean(b: Backend, r: Registry, hostTypes: seq<string>, metric: string, cluster: string, sent: Entry, documented: Entry)
    requires metric in r.metricToSource && r.HostTypesFor(metric) == [] && !FixedClusterScoped(r.metricToSource[metric])
    requires Merges(sent, Answers(b, QueryTexts(RouteOf(Some(r), hostTypes, metric), metric, cluster)))
    requires Merges(documented, Answers(b, QueryTexts(ClusterScoped, metric, cluster)))
    ensures SameBag(sent.results, documented.results) <==>
      forall x | x in b.store :: AsksFor(b, WholeText(metric, cluster), x) <==> AsksFor(b, ShardText(metric, cluster, ""), x)
    ensures MetricName(metric) ==> Complete(b, metric, cluster, sent)
    ensures MetricName(metric) ==>
      (SameBag(sent.results, documented.results) <==> forall x | x in WholeAnswer(b, metric, cluster) :: LabelValue(x, HOST) == "")
    ensures !MetricName(metric) ==> Misdirected(b, metric, cluster, sent) && Misdirected(b, metric, cluster, documented)
  {
    var whole, scoped := WholeText(metric, cluster), ShardText(metric, cluster, "");
    assert Answers(b, QueryTexts(Whole, metric, cluster)) == [b.Answer(whole)];
    assert Answers(b, QueryTexts(ClusterScoped, metric, cluster)) == [b.Answer(scoped)];
    assert RouteOf(Some(r), hostTypes, metric) == Whole;
    hide MetricName, Misdirected, WholeText, ShardText, WholeAnswer, AsksFor, Merges, Answers, QueryTexts, Backend.Answer;
    SameAnswers(b, whole, scoped, sent, documented);
    WholeRouteMeans(b, metric, cluster, sent);
    ClusterScopedRouteMeans(b, metric, cluster, documented);
  }

  lemma OneAnswer(b: Backend, text: string, x: MetricResult)
    ensures CountIn(AllRows([b.Answer(text)]), x) == if AsksFor(b, text, x) then CountIn(b.store, x) else 0
  {
    assert b.Answer(text).Failed? ==> !AsksFor(b, text, x);
    assert [] + [b.Answer(text)] == [b.Answer(text)];
    OneMoreReply(b, text, [], b.Answer(text), x);
  }

  /** Two queries have the same answer exactly when they select the same series of the store. */
  lemma SameAnswers(b: Backend, one: string, other: string, first: Entry, second: Entry)
    requires Merges(first, [b.Answer(one)]) && Merges(second, [b.Answer(other)])
    ensures SameBag(first.results, second.results) <==> forall x | x in b.store :: AsksFor(b, one, x) <==> AsksFor(b, other, x)
  {
    var some, more := AllRows([b.Answer(one)]), AllRows([b.Answer(other)]);
    forall x ensures x in b.store <==> CountIn(b.store, x) > 0 {}
    hide AsksFor, CountIn, AllRows, Backend.Answer;
    forall x
      ensures CountIn(some, x) == if AsksFor(b, one, x) then CountIn(b.store, x) else 0
      ensures CountIn(more, x) == if AsksFor(b, other, x) then CountIn(b.store, x) else 0
    {
      OneAnswer(b, one, x);
      OneAnswer(b, other, x);
    }
    BagFromCounts(some, more);
  }

  /** The host types whose series are asked for; none listed means all series. */
  function AskedHosts(registry: Option<Registry>, hostTypes: seq<string>, metric: string): seq<string> {
    match registry
    case None => hostTypes
    case Some(r) =>
      if metric in r.metricToSource && FixedClusterScoped(r.metricToSource[metric]) then [""]
      else r.HostTypesFor(metric)
  }

  /** One query per host type, or the unsplit one. */
  function AskedTexts(metric: string, cluster: string, hosts: seq<string>): seq<string> {
    if hosts == [] then [WholeText(metric, cluster)] else ShardTexts(metric, cluster, hosts)
  }

  /** What `entry` is when these host types are asked for and these are the replies, by the queries and by the host types. */
  ghost predicate AsAsked(b: Backend, metric: string, cluster: string, hosts: seq<string>, replies: seq<Reply>, entry: Entry) {
    && AmountsTo(b, metric, cluster, AskedTexts(metric, cluster, hosts), replies, entry)
    && (Askable(metric, hosts) ==>
          if hosts == [] then AsOne(b, metric, cluster, replies, entry)
          else AsListed(b, metric, cluster, hosts, replies, entry))
  }

  /** The whole fetch, by whichever route, over a store of series, any query of which may fail. */
  lemma FetchMeans(b: Backend, registry: Option<Registry>, hostTypes: seq<string>, cluster: string, metric: string, replies: seq<Reply>, entry: Entry)
    requires RepliesFrom(b, QueryTexts(RouteOf(registry, hostTypes, metric), metric, cluster), replies) && Merges(entry, replies)
    ensures AsAsked(b, metric, cluster, AskedHosts(registry, hostTypes, metric), replies, entry)
  {
    var hosts := AskedHosts(registry, hostTypes, metric);
    RouteAsks(registry, hostTypes, metric, cluster);
    hide MetricName, Clean, QueryTexts, RouteOf, AskedHosts, RepliesFrom, Merges, AmountsTo, AsListed, AsOne, WholeText, ShardTexts;
    if hosts == [] {
      OneAmounts(b, metric, cluster, replies, entry);
    } else {
      ShardsAmount(b, metric, cluster, hosts, replies, entry);
    }
  }

  /** Each route sends the queries for the host types it asks for. */
  lemma RouteAsks(registry: Option<Registry>, hostTypes: seq<string>, metric: string, cluster: string)
    ensures QueryTexts(RouteOf(registry, hostTypes, metric), metric, cluster) ==
      AskedTexts(metric, cluster, AskedHosts(registry, hostTypes, metric))
  {
    hide WholeText, ShardText;
    assert ShardTexts(metric, cluster, [""]) == [ShardText(metric, cluster, "")];
  }

  lemma AsksAsRead(b: Backend, text: string, ms: seq<Matcher>, x: MetricResult)
    requires ReadSelector(text) == Some(ms)
    ensures AsksFor(b, text, x) <==> b.Selects(ms, x)
  {
    hide ReadSelector, Backend.Selects;
  }

  /** One query for each of these host types, in this order. */
  predicate OnePerHost(texts: seq<string>, metric: string, cluster: string, hosts: seq<string>) {
    |texts| == |hosts| && forall i | 0 <= i < |hosts| :: texts[i] == ShardText(metric, cluster, hosts[i])
  }

  /**
    What a registry asks, by the mappings it was built from. A metric that no mapping defines is asked
    for on all host types. Otherwise the last mapping that defines it gives its source: the two fixed
    sources are asked for with the empty host type, and any other source on every host type of its
    last host mapping. Without a host type to ask the unsplit query is sent.
   */
  lemma RegistryAsks(r: Registry, allHostTypes: seq<string>, hostMappings: seq<SourceHostMapping>, metricMappings: seq<SourceMapping>,
                     hostTypes: seq<string>, metric: string, cluster: string)
    requires Indexes(r, allHostTypes, hostMappings, metricMappings)
    ensures var texts := QueryTexts(RouteOf(Some(r), hostTypes, metric), metric, cluster);
      && ((forall k | 0 <= k < |metricMappings| :: metric !in metricMappings[k].metrics) ==>
            if allHostTypes == [] then texts == [WholeText(metric, cluster)] else OnePerHost(texts, metric, cluster, allHostTypes))
      && (forall k: nat | LastDefines(metricMappings, k, metric) && metricMappings[k].source in {ControlPlane, KubeStateMetrics} ::
            texts == [ShardText(metric, cluster, "")])
      && (forall k: nat, h: nat |
            && LastDefines(metricMappings, k, metric) && metricMappings[k].source !in {ControlPlane, KubeStateMetrics}
            && LastHosts(hostMappings, h, metricMappings[k].source) ::
            if hostMappings[h].hostTypes == [] then texts == [WholeText(metric, cluster)]
            else OnePerHost(texts, metric, cluster, hostMappings[h].hostTypes))
      && (forall k: nat |
            && LastDefines(metricMappings, k, metric) && metricMappings[k].source !in {ControlPlane, KubeStateMetrics}
            && (forall h | 0 <= h < |hostMappings| :: hostMappings[h].source != metricMappings[k].source) ::
            texts == [WholeText(metric, cluster)])
  {
    var texts := QueryTexts(RouteOf(Some(r), hostTypes, metric), metric, cluster);
    hide WholeText, ShardText;
    forall k: nat | LastDefines(metricMappings, k, metric)
      ensures metric in r.metricToSource && r.metricToSource[metric] == metricMappings[k].source
    {
      assert metric in metricMappings[k].metrics;
    }
    forall h: nat, source | LastHosts(hostMappings, h, source)
      ensures source in r.sourceToHosts && r.sourceToHosts[source] == hostMappings[h].hostTypes
    {
      assert hostMappings[h].source == source;
    }
  }

  /** The same without a registry: the cache's own host types. */
  lemma NoRegistryAsks(hostTypes: seq<string>, metric: string, cluster: string)
    ensures var texts := QueryTexts(RouteOf(None, hostTypes, metric), metric, cluster);
      if hostTypes == [] then texts == [WholeText(metric, cluster)] else OnePerHost(texts, metric, cluster, hostTypes)
  {
    hide WholeText, ShardText;
  }

  /**
    What a fetch through such a registry returns when no query fails and no name needs escaping: the
    metric's series of the cluster, exactly when the host type of each of them is listed once in the
    last host mapping of the metric's source.
   */
  lemma MappedFetchMeans(b: Backend, r: Registry, allHostTypes: seq<string>, hostMappings: seq<SourceHostMapping>, metricMappings: seq<SourceMapping>,
                         hostTypes: seq<string>, metric: string, cluster: string, k: nat, h: nat, replies: seq<Reply>, entry: Entry)
    requires Indexes(r, allHostTypes, hostMappings, metricMappings)
    requires LastDefines(metricMappings, k, metric) && metricMappings[k].source !in {ControlPlane, KubeStateMetrics}
    requires LastHosts(hostMappings, h, metricMappings[k].source) && hostMappings[h].hostTypes != []
    requires Askable(metric, hostMappings[h].hostTypes) && AllSucceeded(replies) && Merges(entry, replies)
    requires RepliesFrom(b, QueryTexts(RouteOf(Some(r), hostTypes, metric), metric, cluster), replies)
    ensures Complete(b, metric, cluster, entry) <==> CoveredOnce(b, metric, cluster, hostMappings[h].hostTypes)
  {
    var hosts, texts := hostMappings[h].hostTypes, QueryTexts(RouteOf(Some(r), hostTypes, metric), metric, cluster);
    RegistryAsks(r, allHostTypes, hostMappings, metricMappings, hostTypes, metric, cluster);
    assert OnePerHost(texts, metric, cluster, hosts);
    assert texts == ShardTexts(metric, cluster, hosts);
    hide RepliesFrom, Merges, Askable, AllSucceeded, CoveredOnce, ListedAtMostOnce, Complete, NothingExtra, QueryTexts, Indexes, Answered, NoDup;
    ShardsAmount(b, metric, cluster, hosts, replies, entry);
  }

  /** Names that need no escaping, none listed twice: no series is asked for twice, and none but the metric's. */
  lemma ListedOnceAsks(b: Backend, metric: string, cluster: string, hosts: seq<string>)
    requires Askable(metric, hosts) && NoDup(hosts)
    ensures AskedAtMost(b, WholeMatchers(metric, cluster), AskedTexts(metric, cluster, hosts))
  {
    if hosts == [] {
      var text := WholeText(metric, cluster);
      WholeTextReads(metric, cluster);
      assert [] + [text] == [text];
      hide AsksFor, ReadSelector, WholeText, WholeMatchers, MetricName;
      forall x ensures Askers(b, [text], x) <= 1 && (AsksFor(b, text, x) <==> Askers(b, [text], x) == 1) {
        AskersSnoc(b, [], text, x);
      }
      forall x ensures AsksFor(b, text, x) ==> b.Selects(WholeMatchers(metric, cluster), x) {
        AsksAsRead(b, text, WholeMatchers(metric, cluster), x);
      }
    } else {
      forall x ensures Copies(hosts, x) <= 1 {
        AtMostOnce(hosts, x);
      }
      hide AskedAtMost, WholeMatchers, WholeAnswer, ShardTexts, Askable, NoDup, Copies;
      CoverageMeans(b, metric, cluster, hosts);
    }
  }

  // ----- extra filters -----

  /** How `GetWithFilter` prints one extra filter: `~` asks for a regular expression, resource labels are quoted. */
  function FilterItem(key: string, value: string): Item {
    if "~@resource." <= key then Item(Matcher(key[1..], true, value), true)
    else if "@resource." <= key then Item(Matcher(key, false, value), true)
    else if "~" <= key then Item(Matcher(key[1..], true, value), false)
    else Item(Matcher(key, false, value), false)
  }

  function FilterItems(extra: map<string, string>, order: seq<string>): seq<Item>
    requires forall key | key in order :: key in extra
  {
    seq(|order|, i requires 0 <= i < |order| => FilterItem(order[i], extra[order[i]]))
  }

  lemma {:induction false} JoinSnoc(parts: seq<string>, part: string, sep: string)
    requires parts != []
    ensures Join(parts + [part], sep) == Join(parts, sep) + (sep + part)
  {
    if |parts| > 1 {
      assert (parts + [part])[1..] == parts[1..] + [part];
      JoinSnoc(parts[1..], part, sep);
    } else {
      assert (parts + [part])[1..] == [part];
    }
  }

  /** The piece that each branch of the `switch` appends. */
  lemma FilterPiece(key: string, value: string)
    ensures "," + PrintItem(FilterItem(key, value)) ==
      if "~@resource." <= key then ",\"" + key[1..] + "\"=~\"" + Escape(value) + "\""
      else if "@resource." <= key then ",\"" + key + "\"=\"" + Escape(value) + "\""
      else if "~" <= key then "," + key[1..] + "=~\"" + Escape(value) + "\""
      else "," + key + "=\"" + Escape(value) + "\""
  {
    hide Escape;
    QuotedPiece(FilterItem(key, value).matcher);
  }

  lemma QuotedPiece(m: Matcher)
    ensures "," + PrintItem(Item(m, true)) == ",\"" + m.name + (if m.regex then "\"=~\"" else "\"=\"") + Escape(m.value) + "\""
    ensures "," + PrintItem(Item(m, false)) == "," + m.name + (if m.regex then "=~\"" else "=\"") + Escape(m.value) + "\""
  {
    hide Escape;
  }

  method AppendFilter(filters: string, key: string, value: string) returns (r: string)
    ensures r == filters + ("," + PrintItem(FilterItem(key, value)))
  {
    hide Escape, PrintItem, FilterItem;
    FilterPiece(key, value);
    var escapedVal := Escape(value);
    if "~@resource." <= key {
      r := filters + (",\"" + key[1..] + "\"=~\"" + escapedVal + "\"");
    } else if "@resource." <= key {
      r := filters + (",\"" + key + "\"=\"" + escapedVal + "\"");
    } else if "~" <= key {
      r := filters + ("," + key[1..] + "=~\"" + escapedVal + "\"");
    } else {
      r := filters + ("," + key + "=\"" + escapedVal + "\"");
    }
  }

  lemma OneMoreFilter(cluster: string, extra: map<string, string>, order: seq<string>, i: nat)
    requires i < |order| && forall key | key in order :: key in extra
    ensures var items := [ClusterItem(cluster)] + FilterItems(extra, order);
      Join(PrintItems(items[..i + 2]), ",") == Join(PrintItems(items[..i + 1]), ",") + ("," + PrintItem(FilterItem(order[i], extra[order[i]])))
  {
    var items, it := [ClusterItem(cluster)] + FilterItems(extra, order), FilterItem(order[i], extra[order[i]]);
    hide PrintItem, FilterItem;
    assert PrintItems(items[..i + 2]) == PrintItems(items[..i + 1]) + [PrintItem(it)];
    JoinSnoc(PrintItems(items[..i + 1]), PrintItem(it), ",");
  }

  method FilterText(metric: string, cluster: string, extra: map<string, string>, order: seq<string>) returns (text: string)
    requires forall key | key in order :: key in extra
    ensures text == MetricSelector(metric) + Join(PrintItems([ClusterItem(cluster)] + FilterItems(extra, order)), ",") + "}"
  {
    ghost var items := [ClusterItem(cluster)] + FilterItems(extra, order);
    var filters := Head(CLUSTER) + Escape(cluster) + "\"";
    ClusterItemText(cluster);
    hide MetricSelector, PrintItem, Escape, FilterItem;
    assert PrintItems(items[..1]) == [PrintItem(ClusterItem(cluster))];
    for i := 0 to |order|
      invariant filters == Join(PrintItems(items[..i + 1]), ",")
    {
      filters := AppendFilter(filters, order[i], extra[order[i]]);
      OneMoreFilter(cluster, extra, order, i);
    }
    assert items[..|order| + 1] == items;
    text := MetricSelector(metric) + filters + "}";
  }

  lemma FiltersPrintable(cluster: string, extra: map<string, string>, order: seq<string>)
    requires forall key | key in order :: key in extra
    ensures var items := [ClusterItem(cluster)] + FilterItems(extra, order);
      (forall i | 0 <= i < |items| :: Printable(items[i])) <==> forall key | key in order :: Printable(FilterItem(key, extra[key]))
  {
    ClusterItemText(cluster);
    hide FilterItem, Printable;
    var items := [ClusterItem(cluster)] + FilterItems(extra, order);
    if forall i | 0 <= i < |items| :: Printable(items[i]) {
      forall key | key in order ensures Printable(FilterItem(key, extra[key])) {
        var k :| 0 <= k < |order| && order[k] == key;
        assert items[k + 1] == FilterItem(key, extra[key]);
      }
    }
  }

  /**
    The filtered query reads back as the metric, the cluster and the extra conditions, for every
    metric, every iteration order and arbitrary values, exactly when the metric's name and each key,
    which are not escaped, can be printed as they are.
   */
  lemma FilterTextReads(metric: string, cluster: string, extra: map<string, string>, order: seq<string>)
    requires forall key | key in order :: key in extra
    ensures ReadSelector(MetricSelector(metric) + Join(PrintItems([ClusterItem(cluster)] + FilterItems(extra, order)), ",") + "}")
      == Some(WholeMatchers(metric, cluster) + Matchers(FilterItems(extra, order)))
      <==> MetricName(metric) && forall key | key in order :: Printable(FilterItem(key, extra[key]))
  {
    var items := [ClusterItem(cluster)] + FilterItems(extra, order);
    assert NameMatchers(metric) + Matchers(items) == WholeMatchers(metric, cluster) + Matchers(FilterItems(extra, order));
    FiltersPrintable(cluster, extra, order);
    FiltersOpen(cluster, FilterItems(extra, order));
    hide *;
    var tail := Join(PrintItems(items), ",") + ("}" + "");
    assert MetricSelector(metric) + Join(PrintItems(items), ",") + "}" == MetricSelector(metric) + tail;
    ReadItemsIff(items, ",");
    SelectorReads(metric, tail, Matchers(items));
  }

  lemma FiltersOpen(cluster: string, rest: seq<Item>)
    ensures Opens(Join(PrintItems([ClusterItem(cluster)] + rest), ",") + ("}" + ""))
  {
    var first, items := ClusterItem(cluster), [ClusterItem(cluster)] + rest;
    assert PrintItems(items) == [PrintItem(first)] + PrintItems(rest);
    hide PrintItem, PrintItems, Opens, ClusterItem;
    var more := if rest == [] then "" else "," + Join(PrintItems(rest), ",");
    JoinCons(PrintItem(first), PrintItems(rest), ",");
    assert |PrintItems(rest)| == |rest|;
    ClusterOpens(cluster, more + ("}" + ""));
    assert PrintItem(first) + more + ("}" + "") == PrintItem(first) + (more + ("}" + ""));
  }

  lemma JoinCons(first: string, rest: seq<string>, sep: string)
    ensures Join([first] + rest, sep) == first + if rest == [] then "" else sep + Join(rest, sep)
  {
    assert ([first] + rest)[1..] == rest;
  }
}
