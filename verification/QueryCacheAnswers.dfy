/** What concurrent callers of the cache get when every fetch is a `fetchFiltered` over one store of series. */
module QueryCacheAnswers {
  import opened Common
  import opened Results
  import opened SourceRegistry
  import Protocol = QueryCacheProtocol
  import Atomic = QueryCacheAtomic
  import Pool = FetchPool
  import PromQL
  import SeriesStore
  import QueryText
  import Sharding
  import Fetch = FetchFiltered

  /** The session's settings and the store behind the service. */
  datatype Session = Session(store: SeriesStore.Backend, cluster: string, registry: Option<Registry>, hostTypes: seq<string>) {

    function Hosts(metric: string): seq<string> {
      Fetch.AskedHosts(registry, hostTypes, metric)
    }

    function Texts(metric: string): seq<string> {
      Fetch.QueryTexts(RouteOf(registry, hostTypes, metric), metric, cluster)
    }

    /** The workers that a fetch of the metric starts; none when it is one query outside the pool. */
    function Workers(metric: string): nat {
      match RouteOf(registry, hostTypes, metric)
      case Sharded(hosts) => |hosts|
      case _ => 0
    }

    /** What the metric's unsplit query is meant to select. */
    function Meant(metric: string): seq<PromQL.Matcher> {
      QueryText.WholeMatchers(metric, cluster)
    }
  }

  /** The fetch merged one reply per query, in some order; any query may have failed. */
  ghost predicate FetchedFrom(session: Session, metric: string, replies: seq<Pool.Reply>, e: Entry) {
    Sharding.RepliesFrom(session.store, session.Texts(metric), replies) && Pool.Merges(e, replies)
  }

  /** Every finished fetch asked the session's store. */
  ghost predicate FetchesAsk(session: Session, c: Protocol.Cache) {
    forall ch | 0 <= ch < |c.channels| && c.channels[ch].outcome.Some? ::
      exists replies :: FetchedFrom(session, c.channels[ch].metric, replies, c.channels[ch].outcome.value)
  }

  /**
    End to end: whatever the interleaving of calls, the order of replies and the failures, a call
    that has its reply got the merged replies of one fetch of its metric, so it is complete or has
    nothing extra exactly under the conditions on those replies.
   */
  lemma GetMeans(session: Session, s: Protocol.System, i: nat) returns (replies: seq<Pool.Reply>)
    requires Protocol.Reachable(s) && i < |s.calls| && Atomic.Reply(s.calls[i].pc).Some?
    requires FetchesAsk(session, s.cache)
    ensures var m, reply := s.calls[i].metric, Atomic.Reply(s.calls[i].pc).value;
      && FetchedFrom(session, m, replies, reply)
      && Fetch.AsAsked(session.store, m, session.cluster, session.Hosts(m), replies, reply)
  {
    var m, reply := s.calls[i].metric, Atomic.Reply(s.calls[i].pc).value;
    Atomic.RepliesWereFetched(s, i);
    replies := FetchedMeans(session, s.cache, m, reply);
  }

  lemma FetchedMeans(session: Session, c: Protocol.Cache, metric: string, e: Entry) returns (replies: seq<Pool.Reply>)
    requires FetchesAsk(session, c) && Atomic.Fetched(c, metric, e)
    ensures FetchedFrom(session, metric, replies, e)
    ensures Fetch.AsAsked(session.store, metric, session.cluster, session.Hosts(metric), replies, e)
  {
    hide FetchedFrom;
    var ch: nat :| Protocol.ChannelFor(c, ch, metric) && c.channels[ch].outcome == Some(e);
    replies :| FetchedFrom(session, metric, replies, e);
    FromTexts(session, metric, replies, e);
  }

  lemma FromTexts(session: Session, metric: string, replies: seq<Pool.Reply>, e: Entry)
    requires FetchedFrom(session, metric, replies, e)
    ensures Fetch.AsAsked(session.store, metric, session.cluster, session.Hosts(metric), replies, e)
  {
    Fetch.FetchMeans(session.store, session.registry, session.hostTypes, session.cluster, metric, replies, e);
  }

  /**
    With failing queries or not, a call returns nothing extra if the queries for its metric select
    no series twice and none that is not the metric's in the cluster, as they do when the names need
    no escaping and no host type is listed twice.
   */
  lemma GetNothingExtra(session: Session, s: Protocol.System, i: nat)
    requires Protocol.Reachable(s) && i < |s.calls| && Atomic.Reply(s.calls[i].pc).Some?
    requires FetchesAsk(session, s.cache)
    ensures var m := s.calls[i].metric;
      Sharding.AskedAtMost(session.store, session.Meant(m), session.Texts(m)) ==>
        Fetch.NothingExtra(session.store, m, session.cluster, Atomic.Reply(s.calls[i].pc).value)
    ensures var m := s.calls[i].metric;
      Sharding.Askable(m, session.Hosts(m)) && NoDup(session.Hosts(m)) ==> Sharding.AskedAtMost(session.store, session.Meant(m), session.Texts(m))
  {
    var m := s.calls[i].metric;
    var replies := GetMeans(session, s, i);
    Fetch.RouteAsks(session.registry, session.hostTypes, m, session.cluster);
    hide Sharding.AskedAtMost, QueryText.WholeMatchers, Sharding.Askable, NoDup, QueryText.WholeText, Fetch.QueryTexts;
    if Sharding.Askable(m, session.Hosts(m)) && NoDup(session.Hosts(m)) {
      Fetch.ListedOnceAsks(session.store, m, session.cluster, session.Hosts(m));
    }
  }

  /**
    What is stored stays, complete or not. A stored entry is without an error exactly when some query
    of its fetch found a series, whether or not others failed; it is then incomplete exactly when the
    answered queries do not ask once for each series, which for names that need no escaping means
    that some series has a host type that is not listed once among the answered ones. In every
    further run it remains, and every reply that carries something equals it.
   */
  lemma PartialStays(session: Session, s: Protocol.System, more: seq<Protocol.Step>, metric: string) returns (replies: seq<Pool.Reply>)
    requires Protocol.Reachable(s) && FetchesAsk(session, s.cache) && metric in s.cache.filtered
    requires Protocol.ValidRun(s, more)
    ensures var e, b, cluster, hosts := s.cache.filtered[metric], session.store, session.cluster, session.Hosts(metric);
      && FetchedFrom(session, metric, replies, e)
      && (e.err == None <==> Pool.AllRows(replies) != [])
      && |replies| == |session.Texts(metric)|
      && (Fetch.Complete(b, metric, cluster, e) <==> Sharding.AskedExactly(b, session.Meant(metric), Sharding.Answered(session.Texts(metric), replies)))
      && (Sharding.Askable(metric, hosts) && hosts != [] ==>
            && |replies| == |hosts|
            && (Fetch.Complete(b, metric, cluster, e) <==> Sharding.CoveredOnce(b, metric, cluster, Sharding.Answered(hosts, replies))))
    ensures var e, s' := s.cache.filtered[metric], Protocol.Run(s, more);
      && metric in s'.cache.filtered && s'.cache.filtered[metric] == e
      && forall i | 0 <= i < |s'.calls| && s'.calls[i].metric == metric && s'.calls[i].pc.Done? && Cacheable(s'.calls[i].pc.reply) ::
           s'.calls[i].pc.reply == e
  {
    var e, s' := s.cache.filtered[metric], Protocol.Run(s, more);
    Protocol.ReachableInv(s);
    Atomic.StoredWasFetched(s, metric);
    replies := FetchedMeans(session, s.cache, metric, e);
    StoredError(session, s.cache, metric, replies, e);
    Fetch.RouteAsks(session.registry, session.hostTypes, metric, session.cluster);
    hide Protocol.Inv, FetchedFrom, FetchesAsk, Cacheable, Sharding.Askable, Sharding.AskedExactly, Sharding.CoveredOnce, Sharding.Answered,
      QueryText.WholeText, QueryText.WholeMatchers, Fetch.QueryTexts, Fetch.AskedHosts;
    Protocol.WriteOnce(s, more);
    Protocol.RunReachable(s, more);
    forall i | 0 <= i < |s'.calls| && s'.calls[i].metric == metric && s'.calls[i].pc.Done? && Cacheable(s'.calls[i].pc.reply)
      ensures s'.calls[i].pc.reply == e
    {
      Protocol.Agreement(s', i);
    }
  }

  lemma StoredError(session: Session, c: Protocol.Cache, metric: string, replies: seq<Pool.Reply>, e: Entry)
    requires FetchedFrom(session, metric, replies, e) && Cacheable(e)
    ensures e.err == None <==> Pool.AllRows(replies) != []
  {
    hide Sharding.RepliesFrom, Pool.AllRows;
    Pool.BagEmpty(e.results, Pool.AllRows(replies));
  }
}
