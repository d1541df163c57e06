/**
  `QueryCache.Get` as a transition system.

  The read/write lock makes each critical section atomic, so a call is a sequence of atomic
  steps: the read-locked fast path, the write-locked claim, the fetch, the write-locked publish,
  the channel close, and for a caller that joined another's fetch the channel wait and the
  read-locked second look. Any number of calls interleave these steps freely.
 */
module QueryCacheProtocol {
  import opened Common
  import opened Results

  /** The wait channel of one claimed fetch. `owner` and `outcome` are history: who created it and what its fetch gave. */
  datatype Channel = Channel(metric: string, owner: nat, closes: nat, outcome: Option<Entry>)

  /** The shared state guarded by the lock. A channel is named by its index in `channels`. */
  datatype Cache = Cache(filtered: map<string, Entry>, inflight: map<string, nat>, channels: seq<Channel>)

  /** How a finished call came by its reply. */
  datatype Source = Hit | Owner(ch: nat) | Joined(ch: nat) | JoinedEmpty(ch: nat)

  datatype Pc =
    | Start
    | Missed
    | Waiting(ch: nat)
    | Woken(ch: nat)
    | Fetching(ch: nat)
    | Fetched(ch: nat, entry: Entry)
    | Published(ch: nat, entry: Entry)
    | Done(via: Source, reply: Entry)

  datatype Call = Call(metric: string, pc: Pc)

  datatype System = System(cache: Cache, calls: seq<Call>)

  /** One atomic step of call `caller`; `entry` is what the fetch returns when the step is a fetch. */
  datatype Step = Step(caller: nat, entry: Entry)

  // ----- the critical sections -----

  /** The two lookups that the fast path and the claim have in common. */
  function Look(c: Cache, metric: string): Option<Pc> {
    if metric in c.filtered then Some(Done(Hit, c.filtered[metric]))
    else if metric in c.inflight then Some(Waiting(c.inflight[metric]))
    else None
  }

  function FastPath(c: Cache, metric: string): Pc {
    match Look(c, metric)
    case Some(pc) => pc
    case None => Missed
  }

  function Claim(c: Cache, metric: string, caller: nat): (Cache, Pc) {
    match Look(c, metric)
    case Some(pc) => (c, pc)
    case None =>
      var ch := |c.channels|;
      (c.(inflight := c.inflight[metric := ch],
          channels := c.channels + [Channel(metric, caller, 0, None)]),
       Fetching(ch))
  }

  function Publish(c: Cache, metric: string, entry: Entry): Cache {
    c.(filtered := if Cacheable(entry) then c.filtered[metric := entry] else c.filtered,
       inflight := c.inflight - {metric})
  }

  function CloseChannel(c: Cache, ch: nat): Cache
    requires ch < |c.channels|
  {
    c.(channels := c.channels[ch := c.channels[ch].(closes := c.channels[ch].closes + 1)])
  }

  function RecordOutcome(c: Cache, ch: nat, entry: Entry): Cache
    requires ch < |c.channels|
  {
    c.(channels := c.channels[ch := c.channels[ch].(outcome := Some(entry))])
  }

  function Reread(c: Cache, metric: string, ch: nat): Pc {
    if metric in c.filtered then Done(Joined(ch), c.filtered[metric]) else Done(JoinedEmpty(ch), NOTHING)
  }

  // ----- the system -----

  predicate Enabled(s: System, st: Step) {
    && st.caller < |s.calls|
    && match s.calls[st.caller].pc
       case Done(_, _) => false
       case Waiting(ch) => ch < |s.cache.channels| && s.cache.channels[ch].closes > 0
       case Fetching(ch) => ch < |s.cache.channels|
       case Published(ch, _) => ch < |s.cache.channels|
       case _ => true
  }

  function Next(s: System, st: Step): System
    requires Enabled(s, st)
  {
    var i, c := st.caller, s.cache;
    var m := s.calls[i].metric;
    var (c', pc') :=
      match s.calls[i].pc
      case Start => (c, FastPath(c, m))
      case Missed => Claim(c, m, i)
      case Waiting(ch) => (c, Woken(ch))
      case Woken(ch) => (c, Reread(c, m, ch))
      case Fetching(ch) => (RecordOutcome(c, ch, st.entry), Fetched(ch, st.entry))
      case Fetched(ch, e) => (Publish(c, m, e), Published(ch, e))
      case Published(ch, e) => (CloseChannel(c, ch), Done(Owner(ch), e));
    System(c', s.calls[i := Call(m, pc')])
  }

  /** A fresh cache and one call, not yet started, for each metric listed. */
  function Init(metrics: seq<string>): System {
    System(Cache(map[], map[], []), seq(|metrics|, i requires 0 <= i < |metrics| => Call(metrics[i], Start)))
  }

  predicate ValidRun(s: System, run: seq<Step>)
    decreases |run|
  {
    run == [] || (Enabled(s, run[0]) && ValidRun(Next(s, run[0]), run[1..]))
  }

  function Run(s: System, run: seq<Step>): System
    requires ValidRun(s, run)
    decreases |run|
  {
    if run == [] then s else Run(Next(s, run[0]), run[1..])
  }

  // ----- the inductive invariant -----

  /** What each call's program counter says about the shared state. */
  ghost predicate CallOk(c: Cache, i: nat, call: Call) {
    match call.pc
    case Start => true
    case Missed => true
    case Waiting(ch) => ChannelFor(c, ch, call.metric)
    case Woken(ch) => ChannelFor(c, ch, call.metric) && c.channels[ch].closes == 1
    case Fetching(ch) => Owns(c, ch, i, call.metric)
    case Fetched(ch, _) => Owns(c, ch, i, call.metric)
    case Published(ch, _) => Owns(c, ch, i, call.metric)
    case Done(Hit, e) => call.metric in c.filtered && c.filtered[call.metric] == e
    case Done(Owner(ch), _) => Owns(c, ch, i, call.metric)
    case Done(Joined(ch), e) =>
      && ChannelFor(c, ch, call.metric) && c.channels[ch].closes == 1
      && call.metric in c.filtered && c.filtered[call.metric] == e
    case Done(JoinedEmpty(ch), e) =>
      && ChannelFor(c, ch, call.metric) && c.channels[ch].closes == 1
      && e == NOTHING && c.channels[ch].outcome == Some(NOTHING)
  }

  ghost predicate ChannelFor(c: Cache, ch: nat, metric: string) {
    ch < |c.channels| && c.channels[ch].metric == metric
  }

  ghost predicate Owns(c: Cache, ch: nat, i: nat, metric: string) {
    ChannelFor(c, ch, metric) && c.channels[ch].owner == i
  }

  /** The life of a channel, told by its creator's program counter. */
  ghost predicate ChannelOk(c: Cache, ch: nat, creator: Call)
    requires ch < |c.channels|
  {
    var x := c.channels[ch];
    && creator.metric == x.metric
    && match creator.pc
       case Fetching(own) => own == ch && x.closes == 0 && x.outcome == None && InFlight(c, x.metric, ch)
       case Fetched(own, e) => own == ch && x.closes == 0 && x.outcome == Some(e) && InFlight(c, x.metric, ch)
       case Published(own, e) => own == ch && x.closes == 0 && x.outcome == Some(e) && Stored(c, x.metric, e)
       case Done(Owner(own), e) => own == ch && x.closes == 1 && x.outcome == Some(e) && Stored(c, x.metric, e)
       case _ => false
  }

  ghost predicate InFlight(c: Cache, metric: string, ch: nat) {
    metric in c.inflight && c.inflight[metric] == ch
  }

  ghost predicate Stored(c: Cache, metric: string, e: Entry) {
    Cacheable(e) ==> metric in c.filtered && c.filtered[metric] == e
  }

  ghost predicate Inv(s: System) {
    var c := s.cache;
    && c.filtered.Keys !! c.inflight.Keys
    && (forall m | m in c.filtered :: Cacheable(c.filtered[m]))
    && (forall m | m in c.inflight :: OwnedInFlight(s, m))
    && (forall ch | 0 <= ch < |c.channels| :: c.channels[ch].owner < |s.calls| && ChannelOk(c, ch, s.calls[c.channels[ch].owner]))
    && (forall i | 0 <= i < |s.calls| :: CallOk(c, i, s.calls[i]))
    && EarlierEmpty(c)
  }

  /** An entry of `inflight` names a channel of that metric whose creator is between claim and publish. */
  ghost predicate OwnedInFlight(s: System, m: string)
    requires m in s.cache.inflight
  {
    var ch := s.cache.inflight[m];
    && ch < |s.cache.channels|
    && s.cache.channels[ch].metric == m
    && s.cache.channels[ch].owner < |s.calls|
    && var pc := s.calls[s.cache.channels[ch].owner].pc;
       pc == Fetching(ch) || (pc.Fetched? && pc.ch == ch)
  }

  /** A metric is claimed again only after every earlier fetch of it succeeded with no results. */
  ghost predicate EarlierEmpty(c: Cache) {
    forall a, b | 0 <= a < b < |c.channels| && c.channels[a].metric == c.channels[b].metric ::
      c.channels[a].outcome == Some(NOTHING)
  }

  lemma NotCacheable(e: Entry)
    ensures Cacheable(e) || e == NOTHING
  {
  }

  lemma InitInv(metrics: seq<string>)
    ensures Inv(Init(metrics))
  {
  }

  /** The call that claimed a fetch is at one of its three later steps: the fetch returns, publish, close. */
  predicate OwnerStep(s: System, st: Step) {
    Enabled(s, st) && (s.calls[st.caller].pc.Fetching? || s.calls[st.caller].pc.Fetched? || s.calls[st.caller].pc.Published?)
  }

  /** Steps that only look: the fast path, joining a fetch, waking up and the second look. */
  lemma LookingStep(s: System, st: Step)
    requires Inv(s) && Enabled(s, st) && Next(s, st).cache == s.cache
    requires !OwnerStep(s, st)
    ensures Inv(Next(s, st))
  {
    var c, s' := s.cache, Next(s, st);
    forall ch | 0 <= ch < |c.channels|
      ensures c.channels[ch].owner < |s'.calls| && ChannelOk(c, ch, s'.calls[c.channels[ch].owner])
    {
      assert ChannelOk(c, ch, s.calls[c.channels[ch].owner]);
    }
    forall m | m in c.inflight ensures OwnedInFlight(s', m) {
      assert OwnedInFlight(s, m);
    }
    forall i | 0 <= i < |s'.calls| ensures CallOk(c, i, s'.calls[i]) {
      assert CallOk(c, i, s.calls[i]);
      if s.calls[i].pc.Woken? {
        var ch := s.calls[i].pc.ch;
        assert ChannelOk(c, ch, s.calls[c.channels[ch].owner]);
        NotCacheable(c.channels[ch].outcome.value);
      } else if s.calls[i].pc.Waiting? {
        var ch := s.calls[i].pc.ch;
        assert ChannelOk(c, ch, s.calls[c.channels[ch].owner]);
      }
    }
  }

  lemma ClaimingStep(s: System, st: Step)
    requires Inv(s) && Enabled(s, st)
    requires s.calls[st.caller].pc == Missed && Look(s.cache, s.calls[st.caller].metric) == None
    ensures Inv(Next(s, st))
  {
    var c, s' := s.cache, Next(s, st);
    var c' := s'.cache;
    forall ch | 0 <= ch < |c'.channels|
      ensures c'.channels[ch].owner < |s'.calls| && ChannelOk(c', ch, s'.calls[c'.channels[ch].owner])
    {
      if ch < |c.channels| {
        assert ChannelOk(c, ch, s.calls[c.channels[ch].owner]);
      }
    }
    forall m | m in c'.inflight ensures OwnedInFlight(s', m) {
      if m in c.inflight { assert OwnedInFlight(s, m); }
    }
    forall i | 0 <= i < |s'.calls| ensures CallOk(c', i, s'.calls[i]) {
      assert CallOk(c, i, s.calls[i]);
    }
    forall a, b | 0 <= a < b < |c'.channels| && c'.channels[a].metric == c'.channels[b].metric
      ensures c'.channels[a].outcome == Some(NOTHING)
    {
      assert ChannelOk(c, a, s.calls[c.channels[a].owner]);
      if b == |c.channels| {
        NotCacheable(c.channels[a].outcome.value);
      }
    }
  }

  lemma OwnerStepKeepsChannel(s: System, st: Step, ch: nat)
    requires Inv(s) && OwnerStep(s, st) && ch < |s.cache.channels|
    ensures var s' := Next(s, st);
      s'.cache.channels[ch].owner < |s'.calls| && ChannelOk(s'.cache, ch, s'.calls[s'.cache.channels[ch].owner])
  {
    var c, own := s.cache, s.calls[st.caller].pc.ch;
    assert CallOk(c, st.caller, s.calls[st.caller]);
    assert ChannelOk(c, own, s.calls[st.caller]);
    assert ChannelOk(c, ch, s.calls[c.channels[ch].owner]);
  }

  /** Nothing a call relies on is taken back: stored entries, closed channels and known outcomes. */
  ghost predicate Later(c: Cache, c': Cache) {
    && (forall m | m in c.filtered :: m in c'.filtered && c'.filtered[m] == c.filtered[m])
    && |c.channels| <= |c'.channels|
    && (forall ch | 0 <= ch < |c.channels| :: LaterChannel(c.channels[ch], c'.channels[ch]))
  }

  ghost predicate LaterChannel(x: Channel, x': Channel) {
    x'.metric == x.metric && x'.owner == x.owner && (x.closes == 1 ==> x'.closes == 1) && (x.outcome.Some? ==> x'.outcome == x.outcome)
  }

  lemma CallOkLater(c: Cache, c': Cache, i: nat, call: Call)
    requires CallOk(c, i, call) && Later(c, c')
    ensures CallOk(c', i, call)
  {
  }

  lemma OwnerStepLater(s: System, st: Step)
    requires Inv(s) && OwnerStep(s, st)
    ensures Later(s.cache, Next(s, st).cache)
  {
    assert CallOk(s.cache, st.caller, s.calls[st.caller]);
    assert ChannelOk(s.cache, s.calls[st.caller].pc.ch, s.calls[st.caller]);
  }

  lemma OwnerStepKeepsCall(s: System, st: Step, i: nat)
    requires Inv(s) && OwnerStep(s, st) && i < |s.calls|
    ensures CallOk(Next(s, st).cache, i, Next(s, st).calls[i])
  {
    assert CallOk(s.cache, i, s.calls[i]);
    OwnerStepLater(s, st);
    CallOkLater(s.cache, Next(s, st).cache, i, s.calls[i]);
  }

  lemma OwnerStepKeepsMaps(s: System, st: Step)
    requires Inv(s) && OwnerStep(s, st)
    ensures var s' := Next(s, st);
      && s'.cache.filtered.Keys !! s'.cache.inflight.Keys
      && (forall m | m in s'.cache.filtered :: Cacheable(s'.cache.filtered[m]))
      && (forall m | m in s'.cache.inflight :: OwnedInFlight(s', m))
  {
    var s', c, own := Next(s, st), s.cache, s.calls[st.caller].pc.ch;
    assert CallOk(c, st.caller, s.calls[st.caller]);
    assert ChannelOk(c, own, s.calls[st.caller]);
    assert s'.cache.filtered.Keys <= c.filtered.Keys + {s.calls[st.caller].metric};
    forall m | m in s'.cache.inflight ensures OwnedInFlight(s', m) {
      assert OwnedInFlight(s, m);
    }
  }

  lemma OwnerStepKeepsEarlier(s: System, st: Step)
    requires Inv(s) && OwnerStep(s, st)
    ensures EarlierEmpty(Next(s, st).cache)
  {
    var c, own := s.cache, s.calls[st.caller].pc.ch;
    assert CallOk(c, st.caller, s.calls[st.caller]);
    assert ChannelOk(c, own, s.calls[st.caller]);
    EarlierStaysEmpty(c, own, Next(s, st).cache.channels[own]);
    assert Next(s, st).cache.channels == c.channels[own := Next(s, st).cache.channels[own]];
  }

  /** The newest channel of a metric may change its history: nothing comes after it. */
  lemma EarlierStaysEmpty(c: Cache, ch: nat, x: Channel)
    requires EarlierEmpty(c) && ch < |c.channels| && x.metric == c.channels[ch].metric
    requires c.channels[ch].outcome == None || x.outcome == c.channels[ch].outcome
    ensures EarlierEmpty(c.(channels := c.channels[ch := x]))
  {
  }

  lemma OwnerStepInv(s: System, st: Step)
    requires Inv(s) && OwnerStep(s, st)
    ensures Inv(Next(s, st))
  {
    var s' := Next(s, st);
    OwnerStepKeepsMaps(s, st);
    OwnerStepKeepsEarlier(s, st);
    forall ch | 0 <= ch < |s'.cache.channels|
      ensures s'.cache.channels[ch].owner < |s'.calls| && ChannelOk(s'.cache, ch, s'.calls[s'.cache.channels[ch].owner])
    {
      OwnerStepKeepsChannel(s, st, ch);
    }
    forall i | 0 <= i < |s'.calls| ensures CallOk(s'.cache, i, s'.calls[i]) {
      OwnerStepKeepsCall(s, st, i);
    }
    hide EarlierEmpty, CallOk, ChannelOk, OwnedInFlight;
  }

  lemma StepInv(s: System, st: Step)
    requires Inv(s) && Enabled(s, st)
    ensures Inv(Next(s, st))
  {
    var call := s.calls[st.caller];
    if OwnerStep(s, st) {
      OwnerStepInv(s, st);
    } else if call.pc.Missed? && Look(s.cache, call.metric) == None {
      ClaimingStep(s, st);
    } else {
      LookingStep(s, st);
    }
  }

  lemma {:induction false} RunInv(s: System, run: seq<Step>)
    requires Inv(s) && ValidRun(s, run)
    ensures Inv(Run(s, run))
    decreases |run|
  {
    if run != [] {
      StepInv(s, run[0]);
      RunInv(Next(s, run[0]), run[1..]);
    }
  }

  // ----- what holds in every reachable state -----

  /** Some interleaving of some set of calls on a fresh cache leads to `s`. */
  ghost predicate Reachable(s: System) {
    exists metrics, run :: ValidRun(Init(metrics), run) && Run(Init(metrics), run) == s
  }

  lemma ReachableInv(s: System)
    requires Reachable(s)
    ensures Inv(s)
  {
    var metrics, run :| ValidRun(Init(metrics), run) && Run(Init(metrics), run) == s;
    InitInv(metrics);
    RunInv(Init(metrics), run);
  }

  /** A call between claiming a fetch and publishing it. */
  predicate MidFetch(call: Call) {
    call.pc.Fetching? || call.pc.Fetched?
  }

  /**
    Singleflight. A metric is never both stored and in flight; at most one call is fetching it;
    what is in flight is exactly what some call is fetching; and a channel is closed at most once,
    namely when its creator has finished.
   */
  lemma SingleFlight(s: System)
    requires Reachable(s)
    ensures s.cache.filtered.Keys !! s.cache.inflight.Keys
    ensures forall m | m in s.cache.filtered :: Cacheable(s.cache.filtered[m])
    ensures forall i, j | 0 <= i < |s.calls| && 0 <= j < |s.calls| ::
      MidFetch(s.calls[i]) && MidFetch(s.calls[j]) && s.calls[i].metric == s.calls[j].metric ==> i == j
    ensures forall m :: m in s.cache.inflight <==> exists i :: 0 <= i < |s.calls| && MidFetch(s.calls[i]) && s.calls[i].metric == m
    ensures forall m | m in s.cache.inflight :: s.cache.inflight[m] < |s.cache.channels| && s.cache.channels[s.cache.inflight[m]].closes == 0
    ensures forall ch | 0 <= ch < |s.cache.channels| ::
      && s.cache.channels[ch].owner < |s.calls|
      && s.cache.channels[ch].closes == if s.calls[s.cache.channels[ch].owner].pc.Done? then 1 else 0
  {
    ReachableInv(s);
    var c := s.cache;
    forall i | 0 <= i < |s.calls| && MidFetch(s.calls[i])
      ensures InFlight(c, s.calls[i].metric, s.calls[i].pc.ch) && Owns(c, s.calls[i].pc.ch, i, s.calls[i].metric)
    {
      assert CallOk(c, i, s.calls[i]);
      assert ChannelOk(c, s.calls[i].pc.ch, s.calls[i]);
    }
    forall ch | 0 <= ch < |c.channels|
      ensures c.channels[ch].owner < |s.calls|
      ensures c.channels[ch].closes == if s.calls[c.channels[ch].owner].pc.Done? then 1 else 0
    {
      assert ChannelOk(c, ch, s.calls[c.channels[ch].owner]);
    }
    forall m | m in c.inflight
      ensures exists i :: 0 <= i < |s.calls| && MidFetch(s.calls[i]) && s.calls[i].metric == m
      ensures c.inflight[m] < |c.channels| && c.channels[c.inflight[m]].closes == 0
    {
      assert OwnedInFlight(s, m);
      var ch := c.inflight[m];
      assert ChannelOk(c, ch, s.calls[c.channels[ch].owner]);
      assert MidFetch(s.calls[c.channels[ch].owner]);
    }
  }

  /** Whatever steps follow, a stored entry stays as it is. */
  lemma {:induction false} WriteOnce(s: System, more: seq<Step>)
    requires Inv(s) && ValidRun(s, more)
    ensures forall m | m in s.cache.filtered ::
      m in Run(s, more).cache.filtered && Run(s, more).cache.filtered[m] == s.cache.filtered[m]
    decreases |more|
  {
    if more != [] {
      var s' := Next(s, more[0]);
      StepInv(s, more[0]);
      assert forall m | m in s.cache.filtered :: m in s'.cache.filtered && s'.cache.filtered[m] == s.cache.filtered[m] by {
        var i := more[0].caller;
        assert CallOk(s.cache, i, s.calls[i]);
        if s.calls[i].pc.Fetched? {
          assert ChannelOk(s.cache, s.calls[i].pc.ch, s.calls[i]);
        }
      }
      WriteOnce(s', more[1..]);
    }
  }

  /**
    What a finished call returns. A hit returns the stored entry and the fetching call its own
    fetch. A call that waited on a channel returns that fetch's entry whenever it carried
    anything, and reports "nothing" only if that fetch succeeded with no results.
   */
  lemma Replies(s: System, i: nat)
    requires Reachable(s) && i < |s.calls| && s.calls[i].pc.Done?
    ensures var c, m, reply := s.cache, s.calls[i].metric, s.calls[i].pc.reply;
      match s.calls[i].pc.via
      case Hit => m in c.filtered && c.filtered[m] == reply
      case Owner(ch) => ChannelFor(c, ch, m) && c.channels[ch].outcome == Some(reply)
      case Joined(ch) =>
        && ChannelFor(c, ch, m) && c.channels[ch].outcome.Some?
        && (Cacheable(c.channels[ch].outcome.value) ==> reply == c.channels[ch].outcome.value)
        && m in c.filtered && c.filtered[m] == reply
      case JoinedEmpty(ch) => ChannelFor(c, ch, m) && c.channels[ch].outcome == Some(NOTHING) && reply == NOTHING
  {
    ReachableInv(s);
    var c := s.cache;
    assert CallOk(c, i, s.calls[i]);
    match s.calls[i].pc.via
    case Hit =>
    case Owner(ch) => assert ChannelOk(c, ch, s.calls[i]);
    case Joined(ch) => assert ChannelOk(c, ch, s.calls[c.channels[ch].owner]);
    case JoinedEmpty(ch) =>
  }

  /** All calls for one metric that return results or an error return the same entry, and it is the stored one. */
  lemma Agreement(s: System, i: nat)
    requires Reachable(s) && i < |s.calls| && s.calls[i].pc.Done? && Cacheable(s.calls[i].pc.reply)
    ensures s.calls[i].metric in s.cache.filtered
    ensures s.cache.filtered[s.calls[i].metric] == s.calls[i].pc.reply
  {
    Replies(s, i);
    ReachableInv(s);
    if s.calls[i].pc.via.Owner? {
      var ch := s.calls[i].pc.via.ch;
      assert CallOk(s.cache, i, s.calls[i]);
      assert ChannelOk(s.cache, ch, s.calls[i]);
    }
  }

  /** A metric is fetched a second time only if every fetch of it before that succeeded with no results. */
  lemma RefetchOnlyEmpty(s: System, a: nat, b: nat)
    requires Reachable(s) && a < b < |s.cache.channels|
    requires s.cache.channels[a].metric == s.cache.channels[b].metric
    ensures s.cache.channels[a].outcome == Some(NOTHING)
  {
    ReachableInv(s);
  }

  /** "Each unique metric name is queried exactly once" fails for an empty metric: two calls in turn, two queries. */
  lemma QueriedTwice() returns (run: seq<Step>)
    ensures ValidRun(Init(["m", "m"]), run)
    ensures var c := Run(Init(["m", "m"]), run).cache;
      |c.channels| == 2 && c.channels[0].metric == c.channels[1].metric == "m"
  {
    var s, st0, st1 := Init(["m", "m"]), Step(0, NOTHING), Step(1, NOTHING);
    var s1 := Next(s, st0);
    var s2 := Next(s1, st0);
    var s3 := Next(s2, st0);
    var s4 := Next(s3, st0);
    var s5 := Next(s4, st1);
    var s6 := Next(s5, st1);
    run := [];
    assert Run(s6, run) == s6 && ValidRun(s6, run);
    hide Next, Enabled, Run, ValidRun;
    run := Before(s5, st1, run);
    run := Before(s4, st1, run);
    run := Before(s3, st0, run);
    run := Before(s2, st0, run);
    run := Before(s1, st0, run);
    run := Before(s, st0, run);
  }

  lemma Before(s: System, st: Step, run: seq<Step>) returns (longer: seq<Step>)
    requires Enabled(s, st) && ValidRun(Next(s, st), run)
    ensures ValidRun(s, longer) && Run(s, longer) == Run(Next(s, st), run)
  {
    longer := [st] + run;
    assert longer[1..] == run;
  }

  // ----- progress -----

  lemma {:induction false} RunSnoc(s: System, run: seq<Step>, st: Step)
    requires ValidRun(s, run) && Enabled(Run(s, run), st)
    ensures ValidRun(s, run + [st]) && Run(s, run + [st]) == Next(Run(s, run), st)
    decreases |run|
  {
    if run == [] {
      assert [] + [st] == [st] && [st][1..] == [];
    } else {
      assert (run + [st])[1..] == run[1..] + [st];
      RunSnoc(Next(s, run[0]), run[1..], st);
    }
  }

  lemma StepReachable(s: System, st: Step)
    requires Reachable(s) && Enabled(s, st)
    ensures Reachable(Next(s, st))
  {
    var metrics, run :| ValidRun(Init(metrics), run) && Run(Init(metrics), run) == s;
    RunSnoc(Init(metrics), run, st);
  }

  lemma {:induction false} RunReachable(s: System, more: seq<Step>)
    requires Reachable(s) && ValidRun(s, more)
    ensures Reachable(Run(s, more))
    decreases |more|
  {
    if more != [] {
      StepReachable(s, more[0]);
      RunReachable(Next(s, more[0]), more[1..]);
    }
  }

  /** No deadlock: while a call is unfinished some step can be taken, by it or by the creator of the channel it waits on. */
  lemma Progress(s: System, i: nat) returns (st: Step)
    requires Reachable(s) && i < |s.calls| && !s.calls[i].pc.Done?
    ensures Enabled(s, st)
    ensures st.caller == i || (s.calls[i].pc.Waiting? && ChannelFor(s.cache, s.calls[i].pc.ch, s.calls[i].metric)
                                && s.cache.channels[s.calls[i].pc.ch].owner == st.caller)
  {
    ReachableInv(s);
    var c := s.cache;
    assert CallOk(c, i, s.calls[i]);
    st := Step(i, NOTHING);
    if s.calls[i].pc.Waiting? && c.channels[s.calls[i].pc.ch].closes == 0 {
      var ch := s.calls[i].pc.ch;
      st := Step(c.channels[ch].owner, NOTHING);
      assert ChannelOk(c, ch, s.calls[st.caller]);
    }
  }

  function PcRank(pc: Pc): nat {
    match pc
    case Start => 5
    case Missed => 4
    case Fetching(_) => 3
    case Fetched(_, _) => 2
    case Waiting(_) => 2
    case Published(_, _) => 1
    case Woken(_) => 1
    case Done(_, _) => 0
  }

  function Rank(calls: seq<Call>): nat {
    if calls == [] then 0 else PcRank(calls[0].pc) + Rank(calls[1..])
  }

  lemma {:induction false} RankUpdate(calls: seq<Call>, i: nat, call: Call)
    requires i < |calls|
    ensures Rank(calls[i := call]) == Rank(calls) - PcRank(calls[i].pc) + PcRank(call.pc)
  {
    if i > 0 {
      assert calls[i := call][1..] == calls[1..][i - 1 := call];
      RankUpdate(calls[1..], i - 1, call);
    } else {
      assert calls[i := call][1..] == calls[1..];
    }
  }

  lemma {:induction false} InitRank(metrics: seq<string>)
    ensures Rank(Init(metrics).calls) == 5 * |metrics|
  {
    if metrics != [] {
      assert Init(metrics).calls[1..] == Init(metrics[1..]).calls;
      InitRank(metrics[1..]);
    }
  }

  /** Every step, of whichever call, lowers the rank of the whole system. */
  lemma StepRank(s: System, st: Step)
    requires Enabled(s, st)
    ensures Rank(Next(s, st).calls) < Rank(s.calls)
  {
    RankUpdate(s.calls, st.caller, Next(s, st).calls[st.caller]);
  }

  lemma {:induction false} RunRank(s: System, run: seq<Step>)
    requires ValidRun(s, run)
    ensures |run| + Rank(Run(s, run).calls) <= Rank(s.calls)
    decreases |run|
  {
    if run != [] {
      StepRank(s, run[0]);
      RunRank(Next(s, run[0]), run[1..]);
    }
  }

  /**
    Termination of every interleaving: `n` calls take at most `5 n` steps in all, and a run that
    cannot be extended has finished every call, closed every channel exactly once and left
    nothing in flight.
   */
  lemma EveryRunEnds(metrics: seq<string>, run: seq<Step>)
    requires ValidRun(Init(metrics), run)
    ensures |run| <= 5 * |metrics|
    ensures var s := Run(Init(metrics), run);
      (forall st :: !Enabled(s, st)) ==>
        && (forall i | 0 <= i < |s.calls| :: s.calls[i].pc.Done?)
        && (forall ch | 0 <= ch < |s.cache.channels| :: s.cache.channels[ch].closes == 1)
        && s.cache.inflight == map[]
  {
    var s := Run(Init(metrics), run);
    InitRank(metrics);
    RunRank(Init(metrics), run);
    assert Reachable(s);
    if forall st :: !Enabled(s, st) {
      forall i | 0 <= i < |s.calls| ensures s.calls[i].pc.Done? {
        if !s.calls[i].pc.Done? {
          var st := Progress(s, i);
        }
      }
      SingleFlight(s);
    }
  }
}
