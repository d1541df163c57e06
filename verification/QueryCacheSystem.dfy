/**
  The cache and the worker pool together: concurrent calls of `Get` whose fetches run in the pool
  while all of them share one semaphore. A fetch that asks several host types begins with its
  claim and is over when the pool returns its entry; any other fetch is one query outside the pool.
 */
module QueryCacheSystem {
  import opened Common
  import opened Results
  import Protocol = QueryCacheProtocol
  import Pool = FetchPool
  import Atomic = QueryCacheAtomic
  import Answers = QueryCacheAnswers
  import Fetch = FetchFiltered
  import Sharding
  import SeriesStore

  /** The fetch of a channel is the pool's fetch with the channel's number. */
  datatype State = State(calls: Protocol.System, pool: Pool.Pool)

  datatype Step = CallStep(call: Protocol.Step) | PoolStep(work: Pool.Step)

  /** How many workers the fetch of a metric starts; none when it is one query outside the pool. */
  type Workers = string -> nat

  /** The place in the pool of a fetch outside it: nothing to do there. */
  const OUTSIDE := Pool.Fetch([], [], true, [], None, Some(NOTHING), [])

  function Started(workers: nat): Pool.Fetch {
    if workers == 0 then OUTSIDE else Pool.Begin(workers)
  }

  predicate Enabled(w: Workers, s: State, st: Step) {
    match st
    case PoolStep(work) => Pool.Enabled(s.pool, work)
    case CallStep(call) =>
      && Protocol.Enabled(s.calls, call)
      && (s.calls.calls[call.caller].pc.Fetching? && w(s.calls.calls[call.caller].metric) > 0 ==>
            var ch := s.calls.calls[call.caller].pc.ch;
            ch < |s.pool.fetches| && s.pool.fetches[ch].entry == Some(call.entry))
  }

  /** Whether the step claims a fetch. */
  predicate Claims(s: Protocol.System, call: Protocol.Step)
    requires Protocol.Enabled(s, call)
  {
    s.calls[call.caller].pc.Missed? && Protocol.Look(s.cache, s.calls[call.caller].metric) == None
  }

  function Next(w: Workers, s: State, st: Step): State
    requires Enabled(w, s, st)
  {
    match st
    case PoolStep(work) => s.(pool := Pool.Next(s.pool, work))
    case CallStep(call) =>
      State(Protocol.Next(s.calls, call),
            if Claims(s.calls, call) then
              s.pool.(fetches := s.pool.fetches + [Started(w(s.calls.calls[call.caller].metric))])
            else s.pool)
  }

  function Init(capacity: nat, metrics: seq<string>): State {
    State(Protocol.Init(metrics), Pool.Pool(capacity, 0, []))
  }

  predicate ValidRun(w: Workers, s: State, run: seq<Step>)
    decreases |run|
  {
    run == [] || (Enabled(w, s, run[0]) && ValidRun(w, Next(w, s, run[0]), run[1..]))
  }

  function Run(w: Workers, s: State, run: seq<Step>): State
    requires ValidRun(w, s, run)
    decreases |run|
  {
    if run == [] then s else Run(w, Next(w, s, run[0]), run[1..])
  }

  ghost predicate Reachable(w: Workers, s: State) {
    exists capacity: nat, metrics, run ::
      capacity >= 1 && ValidRun(w, Init(capacity, metrics), run) && Run(w, Init(capacity, metrics), run) == s
  }

  // ----- the joint invariant -----

  /** A fetch in the pool has the workers of its metric, and once it is over its entry is what the claiming call got. */
  ghost predicate Linked(w: Workers, x: Protocol.Channel, f: Pool.Fetch) {
    && |f.workers| == w(x.metric)
    && (w(x.metric) > 0 && x.outcome.Some? ==> f.entry == x.outcome)
  }

  ghost predicate AllLinked(w: Workers, channels: seq<Protocol.Channel>, fetches: seq<Pool.Fetch>) {
    |channels| == |fetches| && forall ch | 0 <= ch < |channels| :: Linked(w, channels[ch], fetches[ch])
  }

  ghost predicate Inv(w: Workers, s: State) {
    && Protocol.Reachable(s.calls)
    && Pool.PoolInv(s.pool)
    && AllLinked(w, s.calls.cache.channels, s.pool.fetches)
  }

  lemma StartedInv(workers: nat)
    ensures Pool.FetchInv(Started(workers)) && Pool.Held(Started(workers).workers) == 0
    ensures |Started(workers).workers| == workers
  {
    if workers == 0 {
      Pool.BagSame<Pool.Reply>([]);
    } else {
      Pool.BeginInv(workers);
    }
  }

  lemma FetchAdded(p: Pool.Pool, f: Pool.Fetch)
    requires Pool.PoolInv(p) && Pool.FetchInv(f) && Pool.Held(f.workers) == 0
    ensures Pool.PoolInv(p.(fetches := p.fetches + [f]))
  {
    assert (p.fetches + [f])[..|p.fetches|] == p.fetches;
    hide Pool.FetchInv, Pool.Held;
  }

  /** The channels after a step: one more after a claim, a recorded outcome after a fetch, otherwise the same metrics and outcomes. */
  lemma ChannelsAfter(s: Protocol.System, call: Protocol.Step)
    requires Protocol.Inv(s) && Protocol.Enabled(s, call)
    ensures var c, c', x := s.cache.channels, Protocol.Next(s, call).cache.channels, s.calls[call.caller];
      if Claims(s, call) then
        c' == c + [Protocol.Channel(x.metric, call.caller, 0, None)]
      else
        && |c'| == |c|
        && forall ch | 0 <= ch < |c| :: c'[ch].metric == c[ch].metric
             && c'[ch].outcome == if x.pc == Protocol.Fetching(ch) then Some(call.entry) else c[ch].outcome
  {
    assert Protocol.CallOk(s.cache, call.caller, s.calls[call.caller]);
  }

  lemma ClaimLinked(w: Workers, s: State, call: Protocol.Step)
    requires Protocol.Inv(s.calls) && AllLinked(w, s.calls.cache.channels, s.pool.fetches)
    requires Enabled(w, s, CallStep(call)) && Claims(s.calls, call)
    ensures var s' := Next(w, s, CallStep(call)); AllLinked(w, s'.calls.cache.channels, s'.pool.fetches)
  {
    var x := s.calls.calls[call.caller];
    var ch := Protocol.Channel(x.metric, call.caller, 0, None);
    ChannelsAfter(s.calls, call);
    StartedInv(w(x.metric));
    assert Linked(w, ch, Started(w(x.metric)));
    hide Protocol.Inv, Protocol.Reachable, Pool.PoolInv, Protocol.Next, Protocol.Look, Started, AllLinked, Linked, Pool.FetchInv, Pool.Held, Protocol.Enabled;
    LinkedSnoc(w, s.calls.cache.channels, ch, s.pool.fetches, Started(w(x.metric)));
  }

  lemma LinkedSnoc(w: Workers, channels: seq<Protocol.Channel>, x: Protocol.Channel, fetches: seq<Pool.Fetch>, f: Pool.Fetch)
    requires AllLinked(w, channels, fetches) && Linked(w, x, f)
    ensures AllLinked(w, channels + [x], fetches + [f])
  {
    hide Linked;
  }

  /** The fetch of a call that is fetching is the one that its claim started. */
  lemma OwnFetch(s: Protocol.System, call: Protocol.Step)
    requires Protocol.Inv(s) && Protocol.Enabled(s, call) && s.calls[call.caller].pc.Fetching?
    ensures var x := s.calls[call.caller]; Protocol.ChannelFor(s.cache, x.pc.ch, x.metric)
  {
    assert Protocol.CallOk(s.cache, call.caller, s.calls[call.caller]);
  }

  lemma NoClaimLinked(w: Workers, s: State, call: Protocol.Step)
    requires Inv(w, s) && Enabled(w, s, CallStep(call)) && !Claims(s.calls, call)
    ensures var s' := Next(w, s, CallStep(call)); AllLinked(w, s'.calls.cache.channels, s'.pool.fetches)
  {
    Protocol.ReachableInv(s.calls);
    ChannelsAfter(s.calls, call);
    var x := s.calls.calls[call.caller];
    if x.pc.Fetching? {
      OwnFetch(s.calls, call);
      assert w(x.metric) > 0 ==> s.pool.fetches[x.pc.ch].entry == Some(call.entry);
    }
    var s' := Next(w, s, CallStep(call));
    assert s'.pool == s.pool;
    hide Protocol.Inv, Protocol.Reachable, Pool.PoolInv, Protocol.Next, Protocol.Enabled, Next, Enabled, Claims;
    forall ch | 0 <= ch < |s.pool.fetches| ensures Linked(w, s'.calls.cache.channels[ch], s.pool.fetches[ch]) {
      assert Linked(w, s.calls.cache.channels[ch], s.pool.fetches[ch]);
    }
  }

  /** Work in the pool keeps the number of workers, and the entry of a fetch that is over. */
  lemma WorkKeeps(f: Pool.Fetch, free: bool, a: Pool.Action)
    requires Pool.Ready(f, free, a)
    ensures |Pool.Act(f, free, a).workers| == |f.workers|
    ensures f.entry.Some? ==> Pool.Act(f, free, a).entry == f.entry
  {
  }

  lemma StepInv(w: Workers, s: State, st: Step)
    requires Inv(w, s) && Enabled(w, s, st)
    ensures Inv(w, Next(w, s, st))
  {
    match st
    case PoolStep(work) => WorkInv(w, s, work);
    case CallStep(call) => CallInv(w, s, call);
  }

  lemma WorkInv(w: Workers, s: State, work: Pool.Step)
    requires Inv(w, s) && Enabled(w, s, PoolStep(work))
    ensures Inv(w, Next(w, s, PoolStep(work)))
  {
    var fetches, free := s.pool.fetches, s.pool.tokens < s.pool.capacity;
    var f := fetches[work.fetch];
    var f' := Pool.Act(f, free, work.action);
    assert Pool.Next(s.pool, work).fetches == fetches[work.fetch := f'];
    assert Linked(w, s.calls.cache.channels[work.fetch], f);
    hide Pool.PoolInv, Pool.Act, Pool.Ready, Pool.Next, Protocol.Reachable, Linked, AllLinked;
    Pool.StepInv(s.pool, work);
    WorkLinked(w, s.calls.cache.channels[work.fetch], f, free, work.action);
    LinkedUpdate(w, s.calls.cache.channels, fetches, work.fetch, f');
  }

  lemma LinkedUpdate(w: Workers, channels: seq<Protocol.Channel>, fetches: seq<Pool.Fetch>, i: nat, f: Pool.Fetch)
    requires AllLinked(w, channels, fetches) && i < |fetches| && Linked(w, channels[i], f)
    ensures AllLinked(w, channels, fetches[i := f])
  {
    hide Linked;
  }

  lemma WorkLinked(w: Workers, x: Protocol.Channel, f: Pool.Fetch, free: bool, a: Pool.Action)
    requires Pool.Ready(f, free, a) && Linked(w, x, f)
    ensures Linked(w, x, Pool.Act(f, free, a))
  {
    WorkKeeps(f, free, a);
    hide Pool.Act, Pool.Ready;
  }

  lemma CallInv(w: Workers, s: State, call: Protocol.Step)
    requires Inv(w, s) && Enabled(w, s, CallStep(call))
    ensures Inv(w, Next(w, s, CallStep(call)))
  {
    var n := w(s.calls.calls[call.caller].metric);
    StartedInv(n);
    assert Protocol.Enabled(s.calls, call);
    hide Pool.PoolInv, Pool.FetchInv, Pool.Held, AllLinked, Protocol.Reachable, Protocol.Next, Protocol.Enabled, Protocol.Look, Started, Claims;
    if Claims(s.calls, call) {
      Protocol.ReachableInv(s.calls);
      ClaimLinked(w, s, call);
    } else {
      NoClaimLinked(w, s, call);
    }
    Protocol.StepReachable(s.calls, call);
    FetchAdded(s.pool, Started(n));
  }

  lemma InitInv(w: Workers, capacity: nat, metrics: seq<string>)
    requires capacity >= 1
    ensures Inv(w, Init(capacity, metrics))
  {
    assert Protocol.ValidRun(Protocol.Init(metrics), []) && Protocol.Run(Protocol.Init(metrics), []) == Protocol.Init(metrics);
  }

  lemma {:induction false} RunKeepsInv(w: Workers, s: State, run: seq<Step>)
    requires Inv(w, s) && ValidRun(w, s, run)
    ensures Inv(w, Run(w, s, run))
    decreases |run|
  {
    if run != [] {
      StepInv(w, s, run[0]);
      RunKeepsInv(w, Next(w, s, run[0]), run[1..]);
    }
  }

  /** What holds in every reachable state of the calls and of the pool holds in every reachable state of both. */
  lemma ReachableInv(w: Workers, s: State)
    requires Reachable(w, s)
    ensures Inv(w, s)
  {
    var capacity: nat, metrics, run :|
      capacity >= 1 && ValidRun(w, Init(capacity, metrics), run) && Run(w, Init(capacity, metrics), run) == s;
    InitInv(w, capacity, metrics);
    RunKeepsInv(w, Init(capacity, metrics), run);
  }

  /** All fetches of all calls together never use more tokens than the semaphore has. */
  lemma TokenBound(w: Workers, s: State)
    requires Reachable(w, s)
    ensures s.pool.tokens == Pool.TotalHeld(s.pool.fetches) <= s.pool.capacity
  {
    ReachableInv(w, s);
  }

  // ----- progress -----

  /** No deadlock: while a call is unfinished some step is possible, of a call or of a worker that does not give up. */
  lemma Progress(w: Workers, s: State, i: nat) returns (st: Step)
    requires Reachable(w, s) && i < |s.calls.calls| && !s.calls.calls[i].pc.Done?
    ensures Enabled(w, s, st) && (st.PoolStep? ==> !st.work.action.GiveUp?)
  {
    ReachableInv(w, s);
    Protocol.ReachableInv(s.calls);
    var call := Protocol.Progress(s.calls, i);
    var x := s.calls.calls[call.caller];
    assert Protocol.CallOk(s.calls.cache, call.caller, x);
    st := CallStep(call);
    if x.pc.Fetching? && w(x.metric) > 0 {
      var ch := x.pc.ch;
      if s.pool.fetches[ch].entry == None {
        forall j | 0 <= j < |s.pool.fetches| ensures Pool.HasRoom(s.pool.fetches[j]) {
          Pool.InvHasRoom(s.pool.fetches[j]);
        }
        var work := Pool.RoomProgress(s.pool, ch);
        st := PoolStep(work);
      } else {
        st := CallStep(Protocol.Step(call.caller, s.pool.fetches[ch].entry.value));
      }
    }
  }

  /** The steps that a call and its fetch may still take. */
  function CallRank(w: Workers, x: Protocol.Call): nat {
    Protocol.PcRank(x.pc) + if x.pc.Start? || x.pc.Missed? then 6 * w(x.metric) + 2 else 0
  }

  function CallsRank(w: Workers, calls: seq<Protocol.Call>): nat {
    if calls == [] then 0 else CallsRank(w, calls[..|calls| - 1]) + CallRank(w, calls[|calls| - 1])
  }

  function Rank(w: Workers, s: State): nat {
    CallsRank(w, s.calls.calls) + Pool.Rank(s.pool.fetches)
  }

  lemma {:induction false} CallsRankUpdate(w: Workers, calls: seq<Protocol.Call>, i: nat, x: Protocol.Call)
    requires i < |calls|
    ensures CallsRank(w, calls[i := x]) == CallsRank(w, calls) - CallRank(w, calls[i]) + CallRank(w, x)
  {
    var n := |calls| - 1;
    if i == n {
      assert calls[i := x][..n] == calls[..n];
    } else {
      assert calls[i := x][..n] == calls[..n][i := x];
      CallsRankUpdate(w, calls[..n], i, x);
    }
  }

  lemma StartedRank(workers: nat)
    ensures Pool.FetchRank(Started(workers)) <= 6 * workers + 2
  {
    if workers > 0 {
      Pool.SpawnedRank(Pool.Begin(workers).workers);
    }
  }

  /** One step of a call lowers its rank by more than its claim adds to the pool. */
  lemma CallRankStep(w: Workers, s: Protocol.System, call: Protocol.Step)
    requires Protocol.Enabled(s, call)
    ensures var x, x' := s.calls[call.caller], Protocol.Next(s, call).calls[call.caller];
      && CallRank(w, x') + (if Claims(s, call) then 6 * w(x.metric) + 2 else 0) < CallRank(w, x)
      && Protocol.Next(s, call).calls == s.calls[call.caller := x']
  {
  }

  lemma StepRank(w: Workers, s: State, st: Step)
    requires Enabled(w, s, st)
    ensures Rank(w, Next(w, s, st)) < Rank(w, s)
  {
    match st
    case PoolStep(work) => Pool.StepRank(s.pool, work);
    case CallStep(call) =>
      var x, x' := s.calls.calls[call.caller], Protocol.Next(s.calls, call).calls[call.caller];
      CallRankStep(w, s.calls, call);
      CallsRankUpdate(w, s.calls.calls, call.caller, x');
      var f := Started(w(x.metric));
      StartedRank(w(x.metric));
      assert (s.pool.fetches + [f])[..|s.pool.fetches|] == s.pool.fetches;
      assert Pool.Rank(s.pool.fetches + [f]) == Pool.Rank(s.pool.fetches) + Pool.FetchRank(f);
      hide CallRank, CallsRank, Pool.Rank, Pool.FetchRank, Started, Protocol.Next;
  }

  lemma {:induction false} RunRank(w: Workers, s: State, run: seq<Step>)
    requires ValidRun(w, s, run)
    ensures |run| + Rank(w, Run(w, s, run)) <= Rank(w, s)
    decreases |run|
  {
    if run != [] {
      StepRank(w, s, run[0]);
      RunRank(w, Next(w, s, run[0]), run[1..]);
    }
  }

  /** Seven steps per call and six per worker. */
  function StepBound(w: Workers, metrics: seq<string>): nat {
    if metrics == [] then 0 else StepBound(w, metrics[..|metrics| - 1]) + 7 + 6 * w(metrics[|metrics| - 1])
  }

  lemma {:induction false} InitRank(w: Workers, metrics: seq<string>)
    ensures CallsRank(w, Protocol.Init(metrics).calls) == StepBound(w, metrics)
  {
    if metrics != [] {
      var n := |metrics| - 1;
      assert Protocol.Init(metrics).calls[..n] == Protocol.Init(metrics[..n]).calls;
      InitRank(w, metrics[..n]);
    }
  }

  /** When every call is finished, every fetch is over and has returned its tokens. */
  lemma AllOver(w: Workers, s: State)
    requires Inv(w, s) && forall i | 0 <= i < |s.calls.calls| :: s.calls.calls[i].pc.Done?
    ensures forall ch | 0 <= ch < |s.calls.cache.channels| :: s.calls.cache.channels[ch].closes == 1
    ensures s.calls.cache.inflight == map[]
    ensures s.pool.tokens == 0
  {
    var c, fetches := s.calls.cache, s.pool.fetches;
    Protocol.SingleFlight(s.calls);
    Protocol.ReachableInv(s.calls);
    forall ch | 0 <= ch < |fetches| ensures Pool.Held(fetches[ch].workers) == 0 {
      assert Protocol.ChannelOk(c, ch, s.calls.calls[c.channels[ch].owner]);
      assert Linked(w, c.channels[ch], fetches[ch]) && Pool.FetchInv(fetches[ch]);
      if w(c.channels[ch].metric) > 0 {
        Pool.OutHoldNothing(fetches[ch].workers);
      }
    }
    Pool.NoneHeld(fetches);
  }

  /**
    Termination of every interleaving of calls and workers: at most seven steps per call and six
    per worker, and a run that cannot be extended has finished every call, closed every channel
    exactly once, left nothing in flight and returned all tokens.
   */
  lemma EveryRunEnds(w: Workers, capacity: nat, metrics: seq<string>, run: seq<Step>)
    requires capacity >= 1 && ValidRun(w, Init(capacity, metrics), run)
    ensures |run| <= StepBound(w, metrics)
    ensures var s := Run(w, Init(capacity, metrics), run);
      (forall st :: !Enabled(w, s, st)) ==>
        && (forall i | 0 <= i < |s.calls.calls| :: s.calls.calls[i].pc.Done?)
        && (forall ch | 0 <= ch < |s.calls.cache.channels| :: s.calls.cache.channels[ch].closes == 1)
        && s.calls.cache.inflight == map[]
        && s.pool.tokens == 0
  {
    var s := Run(w, Init(capacity, metrics), run);
    InitRank(w, metrics);
    RunRank(w, Init(capacity, metrics), run);
    assert Reachable(w, s);
    ReachableInv(w, s);
    hide Enabled, Inv, Rank;
    if forall st :: !Enabled(w, s, st) {
      forall i | 0 <= i < |s.calls.calls| ensures s.calls.calls[i].pc.Done? {
        if !s.calls.calls[i].pc.Done? {
          var st := Progress(w, s, i);
        }
      }
      AllOver(w, s);
    }
  }

  // ----- what the calls return -----

  /** Every worker that is done, and every fetch outside the pool, asked the session's store; any query may have failed. */
  ghost predicate AsksStore(session: Answers.Session, s: State) {
    && (forall ch, k | 0 <= ch < |s.calls.cache.channels| && ch < |s.pool.fetches| && 0 <= k < |s.pool.fetches[ch].workers| ::
          s.pool.fetches[ch].workers[k].Exited? ==>
            WorkerAsks(session, s.calls.cache.channels[ch].metric, k, s.pool.fetches[ch].workers[k].reply))
    && (forall ch | 0 <= ch < |s.calls.cache.channels| && session.Workers(s.calls.cache.channels[ch].metric) == 0 ::
          s.calls.cache.channels[ch].outcome.Some? ==> QueryAsks(session, s.calls.cache.channels[ch].metric, s.calls.cache.channels[ch].outcome.value))
  }

  ghost predicate WorkerAsks(session: Answers.Session, metric: string, k: nat, reply: Pool.Reply) {
    k < |session.Texts(metric)| ==> reply.Failed? || reply == session.store.Answer(session.Texts(metric)[k])
  }

  ghost predicate QueryAsks(session: Answers.Session, metric: string, e: Entry) {
    exists reply :: Answers.FetchedFrom(session, metric, [reply], e)
  }

  /** A session's fetch in the pool has one worker per query. */
  lemma OneWorkerPerQuery(session: Answers.Session, metric: string)
    requires session.Workers(metric) > 0
    ensures |session.Texts(metric)| == session.Workers(metric)
  {
  }

  lemma WorkersAsk(session: Answers.Session, s: State, ch: nat)
    requires AsksStore(session, s) && ch < |s.calls.cache.channels| && ch < |s.pool.fetches|
    requires Pool.AllOut(s.pool.fetches[ch].workers)
    requires |session.Texts(s.calls.cache.channels[ch].metric)| == |s.pool.fetches[ch].workers|
    ensures Sharding.RepliesFrom(session.store, session.Texts(s.calls.cache.channels[ch].metric), Pool.Outcomes(s.pool.fetches[ch].workers))
  {
    hide Answers.Session.Texts, SeriesStore.Backend.Answer;
    var texts, workers := session.Texts(s.calls.cache.channels[ch].metric), s.pool.fetches[ch].workers;
    forall k | 0 <= k < |texts| ensures workers[k].reply.Failed? || workers[k].reply == session.store.Answer(texts[k]) {
      assert WorkerAsks(session, s.calls.cache.channels[ch].metric, k, workers[k].reply);
    }
  }

  lemma PooledFetchAsks(session: Answers.Session, s: State, ch: nat)
    requires Inv(session.Workers, s) && AsksStore(session, s)
    requires ch < |s.calls.cache.channels| && s.calls.cache.channels[ch].outcome.Some?
    requires session.Workers(s.calls.cache.channels[ch].metric) > 0
    ensures var x, f := s.calls.cache.channels[ch], s.pool.fetches[ch];
      Pool.AllOut(f.workers) && Answers.FetchedFrom(session, x.metric, Pool.Outcomes(f.workers), x.outcome.value)
  {
    var x, f := s.calls.cache.channels[ch], s.pool.fetches[ch];
    assert Linked(session.Workers, x, f) && Pool.FetchInv(f);
    OneWorkerPerQuery(session, x.metric);
    hide Answers.Session.Texts, Answers.Session.Workers, AsksStore, Inv, Pool.FetchInv, Pool.Merges, Pool.AllOut, Pool.Outcomes, Sharding.RepliesFrom;
    Pool.FinishedMerges(f);
    WorkersAsk(session, s, ch);
  }

  /**
    End to end: with calls and workers interleaved in any way, sharing one semaphore, and with any
    queries failing, a call that has its reply got the merged replies of one fetch of its metric to
    the session's store, and it is complete or has nothing extra exactly under the conditions on
    those replies.
   */
  lemma CallsReturn(session: Answers.Session, s: State, i: nat) returns (replies: seq<Pool.Reply>)
    requires Reachable(session.Workers, s) && AsksStore(session, s)
    requires i < |s.calls.calls| && Atomic.Reply(s.calls.calls[i].pc).Some?
    ensures var m, reply := s.calls.calls[i].metric, Atomic.Reply(s.calls.calls[i].pc).value;
      && Answers.FetchedFrom(session, m, replies, reply)
      && Fetch.AsAsked(session.store, m, session.cluster, session.Hosts(m), replies, reply)
  {
    ReachableInv(session.Workers, s);
    forall ch | 0 <= ch < |s.calls.cache.channels| && s.calls.cache.channels[ch].outcome.Some?
      ensures exists replies :: Answers.FetchedFrom(session, s.calls.cache.channels[ch].metric, replies, s.calls.cache.channels[ch].outcome.value)
    {
      if session.Workers(s.calls.cache.channels[ch].metric) > 0 {
        PooledFetchAsks(session, s, ch);
      } else {
        assert QueryAsks(session, s.calls.cache.channels[ch].metric, s.calls.cache.channels[ch].outcome.value);
      }
    }
    replies := Answers.GetMeans(session, s.calls, i);
  }
}
