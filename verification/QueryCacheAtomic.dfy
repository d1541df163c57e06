/**
  Concurrent calls of `QueryCache.Get` look like calls made one at a time: every interleaving has
  the stored entries and the replies of some sequence of undisturbed calls.
 */
module QueryCacheAtomic {
  import opened Common
  import opened Results
  import opened QueryCacheProtocol

  /** What callers can observe: the stored entries and the replies given so far. */
  datatype Observed = Observed(stored: map<string, Entry>, replies: seq<Option<Entry>>)

  /** One undisturbed call: `fetch` is what a fetch would give. */
  datatype Turn = Turn(caller: nat, fetch: Entry)

  function AtomicGet(o: Observed, metric: string, t: Turn): Observed
    requires t.caller < |o.replies|
  {
    if metric in o.stored then o.(replies := o.replies[t.caller := Some(o.stored[metric])])
    else Observed(if Cacheable(t.fetch) then o.stored[metric := t.fetch] else o.stored, o.replies[t.caller := Some(t.fetch)])
  }

  /** Callers `turns` of the listed metrics, one after the other on an empty cache. */
  function OneAtATime(metrics: seq<string>, turns: seq<Turn>): (o: Observed)
    requires forall t | t in turns :: t.caller < |metrics|
    ensures |o.replies| == |metrics|
  {
    if turns == [] then Observed(map[], seq(|metrics|, i => None))
    else AtomicGet(OneAtATime(metrics, turns[..|turns| - 1]), metrics[turns[|turns| - 1].caller], turns[|turns| - 1])
  }

  /** A call has its reply from the moment it publishes or finishes. */
  function Reply(pc: Pc): Option<Entry> {
    match pc
    case Published(_, e) => Some(e)
    case Done(_, e) => Some(e)
    case _ => None
  }

  function Observe(s: System): Observed {
    Observed(s.cache.filtered, seq(|s.calls|, i requires 0 <= i < |s.calls| => Reply(s.calls[i].pc)))
  }

  /** Some fetch of the metric gave this entry. */
  ghost predicate Fetched(c: Cache, metric: string, e: Entry) {
    exists ch: nat :: ChannelFor(c, ch, metric) && c.channels[ch].outcome == Some(e)
  }

  /** The step at which a call gets its reply, and what its fetch gave if it has to have one. */
  ghost predicate TakesEffect(s: System, st: Step, t: Turn)
    requires Enabled(s, st)
  {
    var m := s.calls[st.caller].metric;
    && t.caller == st.caller
    && Observe(s).replies[st.caller] == None
    && Observe(Next(s, st)) == AtomicGet(Observe(s), m, t)
    && (m !in s.cache.filtered ==> Fetched(Next(s, st).cache, m, t.fetch))
  }

  /** A step changes what can be observed only in the stored entries and the reply of its caller. */
  lemma ObserveNext(s: System, st: Step)
    requires Enabled(s, st)
    ensures st.caller < |s.calls| == |Observe(s).replies|
    ensures Observe(Next(s, st)) ==
      Observed(Next(s, st).cache.filtered, Observe(s).replies[st.caller := Reply(Next(s, st).calls[st.caller].pc)])
    ensures Observe(s).stored == s.cache.filtered && Observe(s).replies[st.caller] == Reply(s.calls[st.caller].pc)
  {
  }

  lemma PublishIsAtomic(s: System, st: Step) returns (t: Turn)
    requires Inv(s) && Enabled(s, st) && s.calls[st.caller].pc.Fetched?
    ensures TakesEffect(s, st, t)
  {
    var c, x := s.cache, s.calls[st.caller];
    assert CallOk(c, st.caller, x) && ChannelOk(c, x.pc.ch, x);
    t := Turn(st.caller, x.pc.entry);
    ObserveNext(s, st);
    var ch: nat := x.pc.ch;
    assert ChannelFor(Next(s, st).cache, ch, x.metric) && Next(s, st).cache.channels[ch].outcome == Some(t.fetch);
    hide Inv, CallOk, ChannelOk, Observe;
  }

  lemma RereadIsAtomic(s: System, st: Step) returns (t: Turn)
    requires Inv(s) && Enabled(s, st) && s.calls[st.caller].pc.Woken?
    ensures TakesEffect(s, st, t)
  {
    var c, x := s.cache, s.calls[st.caller];
    var ch: nat := x.pc.ch;
    assert CallOk(c, st.caller, x) && ChannelOk(c, ch, s.calls[c.channels[ch].owner]);
    if x.metric !in c.filtered {
      NotCacheable(c.channels[ch].outcome.value);
    }
    assert x.metric !in c.filtered ==> c.channels[ch].outcome == Some(NOTHING);
    t := Turn(st.caller, NOTHING);
    ObserveNext(s, st);
    assert x.metric !in c.filtered ==> Fetched(Next(s, st).cache, x.metric, NOTHING);
    hide Inv, CallOk, ChannelOk, Observe;
  }

  /** Each step either changes nothing that can be observed or is one undisturbed call of its caller. */
  lemma StepIsAtomic(s: System, st: Step) returns (t: Turn)
    requires Inv(s) && Enabled(s, st)
    ensures Observe(Next(s, st)) == Observe(s) || TakesEffect(s, st, t)
  {
    t := Turn(st.caller, NOTHING);
    match s.calls[st.caller].pc
    case Fetched(_, _) => t := PublishIsAtomic(s, st);
    case Woken(_) => t := RereadIsAtomic(s, st);
    case _ =>
      ObserveNext(s, st);
      hide Inv, Observe;
  }

  /** If a turn after the turns `before` finds nothing stored, its fetch is one that was made. */
  ghost predicate RealFetch(metrics: seq<string>, c: Cache, before: seq<Turn>, t: Turn)
    requires t.caller < |metrics| && forall t' | t' in before :: t'.caller < |metrics|
  {
    metrics[t.caller] !in OneAtATime(metrics, before).stored ==> Fetched(c, metrics[t.caller], t.fetch)
  }

  ghost predicate RealFetches(metrics: seq<string>, c: Cache, turns: seq<Turn>)
    requires forall t | t in turns :: t.caller < |metrics|
  {
    forall k | 0 <= k < |turns| :: RealFetch(metrics, c, turns[..k], turns[k])
  }

  /** `turns` explains a state: its callers, each once, called one at a time, give what is observed. */
  ghost predicate Explains(metrics: seq<string>, s: System, turns: seq<Turn>) {
    && CallsFor(metrics, s)
    && OnceEach(metrics, turns)
    && Observe(s) == OneAtATime(metrics, turns)
    && RealFetches(metrics, s.cache, turns)
  }

  ghost predicate CallsFor(metrics: seq<string>, s: System) {
    |s.calls| == |metrics| && forall i | 0 <= i < |metrics| :: s.calls[i].metric == metrics[i]
  }

  ghost predicate OnceEach(metrics: seq<string>, turns: seq<Turn>) {
    && (forall t | t in turns :: t.caller < |metrics|)
    && (forall i, j | 0 <= i < j < |turns| :: turns[i].caller != turns[j].caller)
  }

  lemma StartExplained(metrics: seq<string>)
    ensures Explains(metrics, Init(metrics), [])
  {
  }

  lemma TurnSnoc(metrics: seq<string>, turns: seq<Turn>, t: Turn)
    requires t.caller < |metrics| && forall t' | t' in turns :: t'.caller < |metrics|
    ensures OneAtATime(metrics, turns + [t]) == AtomicGet(OneAtATime(metrics, turns), metrics[t.caller], t)
  {
    assert (turns + [t])[..|turns|] == turns;
  }

  /** The callers with a reply are those that had a turn. */
  lemma {:induction false} TurnsAnswer(metrics: seq<string>, turns: seq<Turn>, i: nat)
    requires i < |metrics| && forall t | t in turns :: t.caller < |metrics|
    ensures OneAtATime(metrics, turns).replies[i].Some? <==> exists t :: t in turns && t.caller == i
  {
    if turns != [] {
      var front, last := turns[..|turns| - 1], turns[|turns| - 1];
      TurnsAnswer(metrics, front, i);
      assert turns == front + [last];
    }
  }

  /** Every step keeps what was fetched. */
  lemma StepLater(s: System, st: Step)
    requires Inv(s) && Enabled(s, st)
    ensures Later(s.cache, Next(s, st).cache)
  {
    if OwnerStep(s, st) {
      OwnerStepLater(s, st);
    }
  }

  lemma FetchesStayReal(metrics: seq<string>, c: Cache, c': Cache, turns: seq<Turn>)
    requires (forall t | t in turns :: t.caller < |metrics|) && RealFetches(metrics, c, turns) && Later(c, c')
    ensures RealFetches(metrics, c', turns)
  {
    forall k | 0 <= k < |turns| ensures RealFetch(metrics, c', turns[..k], turns[k]) {
      FetchStaysReal(metrics, c, c', turns[..k], turns[k]);
    }
  }

  lemma FetchStaysReal(metrics: seq<string>, c: Cache, c': Cache, before: seq<Turn>, t: Turn)
    requires t.caller < |metrics| && forall t' | t' in before :: t'.caller < |metrics|
    requires RealFetch(metrics, c, before, t) && Later(c, c')
    ensures RealFetch(metrics, c', before, t)
  {
    if ch: nat :| ChannelFor(c, ch, metrics[t.caller]) && c.channels[ch].outcome == Some(t.fetch) {
      assert LaterChannel(c.channels[ch], c'.channels[ch]);
    }
  }

  lemma RealFetchesSnoc(metrics: seq<string>, c: Cache, turns: seq<Turn>, t: Turn)
    requires t.caller < |metrics| && (forall t' | t' in turns :: t'.caller < |metrics|)
    ensures RealFetches(metrics, c, turns + [t]) <==> RealFetches(metrics, c, turns) && RealFetch(metrics, c, turns, t)
  {
    var all := turns + [t];
    assert all[..|turns|] == turns && all[|turns|] == t;
    assert forall k | 0 <= k < |turns| :: all[..k] == turns[..k] && all[k] == turns[k];
    hide RealFetch;
    if RealFetches(metrics, c, all) {
      forall k | 0 <= k < |turns| ensures RealFetch(metrics, c, turns[..k], turns[k]) {
        assert RealFetch(metrics, c, all[..k], all[k]);
      }
    }
  }

  lemma StepExplained(metrics: seq<string>, s: System, st: Step, turns: seq<Turn>) returns (more: seq<Turn>)
    requires Inv(s) && Enabled(s, st) && Explains(metrics, s, turns)
    ensures turns <= more && Explains(metrics, Next(s, st), more)
  {
    var t := StepIsAtomic(s, st);
    StepLater(s, st);
    FetchesStayReal(metrics, s.cache, Next(s, st).cache, turns);
    hide *;
    if Observe(Next(s, st)) == Observe(s) {
      more := turns;
      SilentStep(metrics, s, st, turns);
    } else {
      more := turns + [t];
      TurnTaken(metrics, s, st, turns, t);
    }
  }

  lemma StepCallsFor(metrics: seq<string>, s: System, st: Step)
    requires CallsFor(metrics, s) && Enabled(s, st)
    ensures CallsFor(metrics, Next(s, st))
  {
  }

  lemma SilentStep(metrics: seq<string>, s: System, st: Step, turns: seq<Turn>)
    requires Enabled(s, st) && Explains(metrics, s, turns) && Observe(Next(s, st)) == Observe(s)
    requires OnceEach(metrics, turns) && RealFetches(metrics, Next(s, st).cache, turns)
    ensures Explains(metrics, Next(s, st), turns)
  {
    hide Observe, OneAtATime, RealFetches, CallsFor, Next, Enabled;
    StepCallsFor(metrics, s, st);
  }

  lemma OnceMore(metrics: seq<string>, turns: seq<Turn>, t: Turn)
    requires OnceEach(metrics, turns) && t.caller < |metrics| && OneAtATime(metrics, turns).replies[t.caller] == None
    ensures OnceEach(metrics, turns + [t])
  {
    TurnsAnswer(metrics, turns, t.caller);
    hide OneAtATime;
    forall i | 0 <= i < |turns| ensures turns[i].caller != t.caller {
      assert turns[i] in turns;
    }
  }

  lemma TurnTaken(metrics: seq<string>, s: System, st: Step, turns: seq<Turn>, t: Turn)
    requires Enabled(s, st) && Explains(metrics, s, turns) && TakesEffect(s, st, t)
    requires OnceEach(metrics, turns) && RealFetches(metrics, Next(s, st).cache, turns)
    ensures Explains(metrics, Next(s, st), turns + [t])
  {
    CallerHas(metrics, s, st, t);
    hide OneAtATime, RealFetches, Observe, Fetched, AtomicGet, Next, Enabled, CallsFor, OnceEach;
    StepCallsFor(metrics, s, st);
    OnceMore(metrics, turns, t);
    TurnSnoc(metrics, turns, t);
    RealFetchesSnoc(metrics, Next(s, st).cache, turns, t);
  }

  lemma CallerHas(metrics: seq<string>, s: System, st: Step, t: Turn)
    requires CallsFor(metrics, s) && Enabled(s, st) && t.caller == st.caller
    ensures t.caller < |metrics| && metrics[t.caller] == s.calls[st.caller].metric && Observe(s).stored == s.cache.filtered
  {
  }

  lemma {:induction false} RunExplained(metrics: seq<string>, s: System, run: seq<Step>, turns: seq<Turn>) returns (more: seq<Turn>)
    requires Inv(s) && ValidRun(s, run) && Explains(metrics, s, turns)
    ensures turns <= more && Explains(metrics, Run(s, run), more)
    decreases |run|
  {
    more := turns;
    if run != [] {
      hide Explains;
      StepInv(s, run[0]);
      more := StepExplained(metrics, s, run[0], turns);
      more := RunExplained(metrics, Next(s, run[0]), run[1..], more);
    }
  }

  /** The calls that have their reply are exactly those that had a turn. */
  ghost predicate Answered(s: System, turns: seq<Turn>) {
    forall i | 0 <= i < |s.calls| :: Reply(s.calls[i].pc).Some? <==> exists t :: t in turns && t.caller == i
  }

  lemma WhoIsAnswered(metrics: seq<string>, s: System, turns: seq<Turn>)
    requires Explains(metrics, s, turns)
    ensures Answered(s, turns)
  {
    forall i | 0 <= i < |s.calls| ensures Reply(s.calls[i].pc).Some? <==> exists t :: t in turns && t.caller == i {
      TurnsAnswer(metrics, turns, i);
      assert Observe(s).replies[i] == Reply(s.calls[i].pc);
    }
  }

  /**
    Linearizability: every run is explained by undisturbed calls in some order, and what explains
    it later extends what explains it now, so a call that has its reply comes before every call
    that has not.
   */
  lemma Linearizable(metrics: seq<string>, run: seq<Step>, later: seq<Step>) returns (turns: seq<Turn>, more: seq<Turn>)
    requires ValidRun(Init(metrics), run) && ValidRun(Run(Init(metrics), run), later)
    ensures Explains(metrics, Run(Init(metrics), run), turns)
    ensures turns <= more && Explains(metrics, Run(Run(Init(metrics), run), later), more)
    ensures Answered(Run(Init(metrics), run), turns) && Answered(Run(Run(Init(metrics), run), later), more)
  {
    InitInv(metrics);
    StartExplained(metrics);
    turns := RunExplained(metrics, Init(metrics), run, []);
    RunInv(Init(metrics), run);
    more := RunExplained(metrics, Run(Init(metrics), run), later, turns);
    WhoIsAnswered(metrics, Run(Init(metrics), run), turns);
    WhoIsAnswered(metrics, Run(Run(Init(metrics), run), later), more);
  }

  /** All that is stored and replied was fetched for that metric. */
  ghost predicate AllFetched(metrics: seq<string>, c: Cache, o: Observed)
    requires |o.replies| == |metrics|
  {
    && (forall m | m in o.stored :: Fetched(c, m, o.stored[m]))
    && (forall i | 0 <= i < |metrics| && o.replies[i].Some? :: Fetched(c, metrics[i], o.replies[i].value))
  }

  lemma TurnFetched(metrics: seq<string>, c: Cache, o: Observed, t: Turn)
    requires |o.replies| == |metrics| && AllFetched(metrics, c, o) && t.caller < |metrics|
    requires metrics[t.caller] !in o.stored ==> Fetched(c, metrics[t.caller], t.fetch)
    ensures AllFetched(metrics, c, AtomicGet(o, metrics[t.caller], t))
  {
    hide Fetched;
  }

  lemma {:induction false} TurnsFetched(metrics: seq<string>, c: Cache, turns: seq<Turn>)
    requires (forall t | t in turns :: t.caller < |metrics|) && RealFetches(metrics, c, turns)
    ensures AllFetched(metrics, c, OneAtATime(metrics, turns))
  {
    if turns != [] {
      var front, last := turns[..|turns| - 1], turns[|turns| - 1];
      assert turns == front + [last];
      RealFetchesSnoc(metrics, c, front, last);
      hide RealFetches, Fetched, AllFetched, AtomicGet;
      TurnsFetched(metrics, c, front);
      TurnFetched(metrics, c, OneAtATime(metrics, front), last);
    }
  }

  /** Nothing is made up: in every reachable state each reply is what some fetch of that metric gave. */
  lemma RepliesWereFetched(s: System, i: nat)
    requires Reachable(s) && i < |s.calls| && Reply(s.calls[i].pc).Some?
    ensures Fetched(s.cache, s.calls[i].metric, Reply(s.calls[i].pc).value)
  {
    var metrics, run :| ValidRun(Init(metrics), run) && Run(Init(metrics), run) == s;
    InitInv(metrics);
    StartExplained(metrics);
    var turns := RunExplained(metrics, Init(metrics), run, []);
    TurnsFetched(metrics, s.cache, turns);
    assert Observe(s).replies[i] == Reply(s.calls[i].pc);
  }

  /** ... and so is each stored entry. */
  lemma StoredWasFetched(s: System, metric: string)
    requires Reachable(s) && metric in s.cache.filtered
    ensures Fetched(s.cache, metric, s.cache.filtered[metric])
  {
    var metrics, run :| ValidRun(Init(metrics), run) && Run(Init(metrics), run) == s;
    InitInv(metrics);
    StartExplained(metrics);
    var turns := RunExplained(metrics, Init(metrics), run, []);
    TurnsFetched(metrics, s.cache, turns);
    assert Observe(s).stored == s.cache.filtered;
  }

  // ----- when a metric is fetched again -----

  /** Every fetch of the metric so far has been published, and gave nothing. */
  ghost predicate OnlyEmptyFetches(s: System, metric: string) {
    forall ch | 0 <= ch < |s.cache.channels| && s.cache.channels[ch].metric == metric :: EmptyAndPublished(s, ch)
  }

  /** The fetch succeeded with no results and its creator has published. */
  ghost predicate EmptyAndPublished(s: System, ch: nat)
    requires ch < |s.cache.channels|
  {
    && s.cache.channels[ch].outcome == Some(NOTHING)
    && s.cache.channels[ch].owner < |s.calls|
    && Reply(s.calls[s.cache.channels[ch].owner].pc).Some?
  }

  lemma AbsentFetchWasEmpty(s: System, ch: nat)
    requires Inv(s) && ch < |s.cache.channels|
    requires s.cache.channels[ch].metric !in s.cache.filtered && s.cache.channels[ch].metric !in s.cache.inflight
    ensures EmptyAndPublished(s, ch)
  {
    assert ChannelOk(s.cache, ch, s.calls[s.cache.channels[ch].owner]);
    NotCacheable(s.cache.channels[ch].outcome.value);
  }

  lemma InFlightIsUnpublished(s: System, metric: string)
    requires Inv(s) && metric in s.cache.inflight
    ensures !OnlyEmptyFetches(s, metric)
  {
    assert OwnedInFlight(s, metric);
    assert !EmptyAndPublished(s, s.cache.inflight[metric]);
  }

  lemma StoredIsNotEmpty(s: System, metric: string)
    requires Reachable(s) && metric in s.cache.filtered
    ensures !OnlyEmptyFetches(s, metric)
  {
    StoredWasFetched(s, metric);
    SingleFlight(s);
    var ch: nat :| ChannelFor(s.cache, ch, metric) && s.cache.channels[ch].outcome == Some(s.cache.filtered[metric]);
    assert !EmptyAndPublished(s, ch);
  }

  /** A metric is neither stored nor in flight exactly when all its fetches were empty and are published. */
  lemma AbsentIff(s: System, metric: string)
    requires Reachable(s)
    ensures metric !in s.cache.filtered && metric !in s.cache.inflight <==> OnlyEmptyFetches(s, metric)
  {
    ReachableInv(s);
    if metric in s.cache.filtered {
      StoredIsNotEmpty(s, metric);
    } else if metric in s.cache.inflight {
      InFlightIsUnpublished(s, metric);
    } else {
      forall ch | 0 <= ch < |s.cache.channels| && s.cache.channels[ch].metric == metric ensures EmptyAndPublished(s, ch) {
        AbsentFetchWasEmpty(s, ch);
      }
    }
  }

  /**
    "Queried exactly once", exactly: a call that missed goes on to fetch its metric, once more if
    it was fetched before, if and only if every earlier fetch of it was empty and is published.
   */
  lemma FetchesAgainIff(s: System, st: Step)
    requires Reachable(s) && Enabled(s, st) && s.calls[st.caller].pc == Missed
    ensures var m, c, s' := s.calls[st.caller].metric, s.cache, Next(s, st);
      if OnlyEmptyFetches(s, m) then
        && s'.cache.channels == c.channels + [Channel(m, st.caller, 0, None)]
        && s'.calls[st.caller].pc == Fetching(|c.channels|)
      else s'.cache.channels == c.channels && !s'.calls[st.caller].pc.Fetching?
  {
    AbsentIff(s, s.calls[st.caller].metric);
  }
}
