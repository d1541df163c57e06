/**
  The fan-out of `fetchFiltered` as a transition system: any number of fetches, each with one
  worker per host type, share one semaphore. Each worker takes a token or gives up when its
  context is done, queries, sends its reply to its fetch's buffered queue, returns its token and
  checks out; the queue is closed when all workers of a fetch have checked out; the collector
  merges the replies in arrival order.
 */
module FetchPool {
  import opened Common
  import opened Results

  datatype Reply = Rows(rows: seq<MetricResult>) | Failed(err: string)

  datatype Worker =
    | Spawned
    | Querying
    | Sending(reply: Reply, token: bool)
    | Sent(reply: Reply, token: bool)
    | Exited(reply: Reply)

  /** One fetch. `seen` is history: the replies that the collector has received, in that order. */
  datatype Fetch = Fetch(
    workers: seq<Worker>,
    queue: seq<Reply>,
    closed: bool,
    merged: seq<MetricResult>,
    firstErr: Option<string>,
    entry: Option<Entry>,
    seen: seq<Reply>
  )

  /** `tokens` counts the tokens in use. */
  datatype Pool = Pool(capacity: nat, tokens: int, fetches: seq<Fetch>)

  datatype Action =
    | Acquire(w: nat)
    | GiveUp(w: nat, err: string)
    | Answer(w: nat, reply: Reply)
    | Send(w: nat)
    | Release(w: nat)
    | CheckOut(w: nat)
    | CloseQueue
    | Receive
    | Return

  /** One step: an action within fetch `fetch`. */
  datatype Step = Step(fetch: nat, action: Action)

  // ----- one fetch -----

  /** A fetch over `hosts` host types, its workers just spawned. */
  function Begin(hosts: nat): Fetch {
    Fetch(seq(hosts, i => Spawned), [], false, [], None, None, [])
  }

  /** Whether the action can be taken, given whether a token is free. The queue has one place per worker. */
  predicate Ready(f: Fetch, free: bool, a: Action) {
    match a
    case Acquire(w) => w < |f.workers| && f.workers[w] == Spawned && free
    case GiveUp(w, _) => w < |f.workers| && f.workers[w] == Spawned
    case Answer(w, _) => w < |f.workers| && f.workers[w] == Querying
    case Send(w) => w < |f.workers| && f.workers[w].Sending? && |f.queue| < |f.workers| && !f.closed
    case Release(w) => w < |f.workers| && f.workers[w].Sent? && f.workers[w].token
    case CheckOut(w) => w < |f.workers| && f.workers[w].Sent? && !f.workers[w].token
    case CloseQueue => !f.closed && AllOut(f.workers)
    case Receive => f.queue != []
    case Return => f.closed && f.queue == [] && f.entry == None
  }

  predicate AllOut(workers: seq<Worker>) {
    forall w | 0 <= w < |workers| :: workers[w].Exited?
  }

  function Act(f: Fetch, free: bool, a: Action): Fetch
    requires Ready(f, free, a)
  {
    match a
    case Acquire(w) => f.(workers := f.workers[w := Querying])
    case GiveUp(w, err) => f.(workers := f.workers[w := Sending(Failed(err), false)])
    case Answer(w, reply) => f.(workers := f.workers[w := Sending(reply, true)])
    case Send(w) =>
      var Sending(reply, token) := f.workers[w];
      f.(workers := f.workers[w := Sent(reply, token)], queue := f.queue + [reply])
    case Release(w) => f.(workers := f.workers[w := Sent(f.workers[w].reply, false)])
    case CheckOut(w) => f.(workers := f.workers[w := Exited(f.workers[w].reply)])
    case CloseQueue => f.(closed := true)
    case Receive =>
      var (merged, firstErr) := MergeOne(f.merged, f.firstErr, f.queue[0]);
      f.(queue := f.queue[1..], merged := merged, firstErr := firstErr, seen := f.seen + [f.queue[0]])
    case Return => f.(entry := Some(Conclude(f.merged, f.firstErr)))
  }

  function MergeOne(merged: seq<MetricResult>, firstErr: Option<string>, reply: Reply): (seq<MetricResult>, Option<string>) {
    match reply
    case Rows(rows) => (merged + rows, firstErr)
    case Failed(err) => (merged, if firstErr == None then Some(err) else firstErr)
  }

  /** The end of `fetchFiltered`: an error counts only when there are no results at all. */
  function Conclude(merged: seq<MetricResult>, firstErr: Option<string>): Entry {
    if |merged| == 0 && firstErr.Some? then Entry([], firstErr) else Entry(merged, None)
  }

  /** How many tokens the action takes. */
  function TokensTaken(a: Action): int {
    match a
    case Acquire(_) => 1
    case Release(_) => -1
    case _ => 0
  }

  // ----- what the replies amount to -----

  /** The results of the successful replies, in order. */
  function AllRows(replies: seq<Reply>): seq<MetricResult> {
    if replies == [] then []
    else AllRows(replies[..|replies| - 1]) + (if replies[|replies| - 1].Rows? then replies[|replies| - 1].rows else [])
  }

  function FirstError(replies: seq<Reply>): Option<string> {
    if replies == [] then None
    else
      var before := FirstError(replies[..|replies| - 1]);
      if before == None && replies[|replies| - 1].Failed? then Some(replies[|replies| - 1].err) else before
  }

  /** What the collecting loop has after these replies. */
  function Collected(seen: seq<Reply>): (seq<MetricResult>, Option<string>) {
    if seen == [] then ([], None)
    else
      var (merged, firstErr) := Collected(seen[..|seen| - 1]);
      MergeOne(merged, firstErr, seen[|seen| - 1])
  }

  /** The replies of the workers that have sent theirs, in worker order. */
  function SentReplies(workers: seq<Worker>): seq<Reply> {
    if workers == [] then []
    else
      var front, last := workers[..|workers| - 1], workers[|workers| - 1];
      SentReplies(front) + (if HasSent(last) then [last.reply] else [])
  }

  predicate Holds(w: Worker) {
    w.Querying? || (w.Sending? && w.token) || (w.Sent? && w.token)
  }

  function Held(workers: seq<Worker>): nat {
    if workers == [] then 0
    else Held(workers[..|workers| - 1]) + (if Holds(workers[|workers| - 1]) then 1 else 0)
  }

  function TotalHeld(fetches: seq<Fetch>): nat {
    if fetches == [] then 0
    else TotalHeld(fetches[..|fetches| - 1]) + Held(fetches[|fetches| - 1].workers)
  }

  // ----- the invariant of one fetch -----

  /** The same replies, each as often, in some order. */
  ghost predicate SameBag<T>(a: seq<T>, b: seq<T>) {
    multiset(a) == multiset(b)
  }

  lemma BagInsert<T>(a: seq<T>, before: seq<T>, after: seq<T>, x: T)
    requires SameBag(a, before + after)
    ensures SameBag(a + [x], before + [x] + after)
  {
  }

  ghost predicate FetchInv(f: Fetch) {
    && SameBag(f.seen + f.queue, SentReplies(f.workers))
    && (f.merged, f.firstErr) == Collected(f.seen)
    && (f.closed ==> AllOut(f.workers))
    && (f.entry.Some? ==> f.closed && f.queue == [] && f.entry.value == Conclude(f.merged, f.firstErr))
  }

  lemma {:induction false} HeldUpdate(workers: seq<Worker>, w: nat, x: Worker)
    requires w < |workers|
    ensures Held(workers[w := x]) == Held(workers) - (if Holds(workers[w]) then 1 else 0) + (if Holds(x) then 1 else 0)
  {
    var n := |workers| - 1;
    if w == n {
      assert workers[w := x][..n] == workers[..n];
    } else {
      assert workers[w := x][..n] == workers[..n][w := x];
      HeldUpdate(workers[..n], w, x);
    }
  }

  predicate HasSent(w: Worker) {
    w.Sent? || w.Exited?
  }

  /** Sending inserts the worker's reply somewhere among the sent ones. */
  lemma {:induction false} SentNew(workers: seq<Worker>, w: nat, x: Worker) returns (before: seq<Reply>, after: seq<Reply>)
    requires w < |workers| && !HasSent(workers[w]) && HasSent(x)
    ensures SentReplies(workers) == before + after
    ensures SentReplies(workers[w := x]) == before + [x.reply] + after
  {
    var n := |workers| - 1;
    if w == n {
      assert workers[w := x][..n] == workers[..n];
      before, after := SentReplies(workers[..n]), [];
    } else {
      assert workers[w := x][..n] == workers[..n][w := x];
      var a, b := SentNew(workers[..n], w, x);
      before, after := a, b + (if HasSent(workers[n]) then [workers[n].reply] else []);
    }
  }

  lemma {:induction false} NotYetSent(workers: seq<Worker>, w: nat, x: Worker)
    requires w < |workers| && !HasSent(workers[w]) && !HasSent(x)
    ensures SentReplies(workers[w := x]) == SentReplies(workers)
  {
    var n := |workers| - 1;
    if w == n {
      assert workers[w := x][..n] == workers[..n];
    } else {
      assert workers[w := x][..n] == workers[..n][w := x];
      NotYetSent(workers[..n], w, x);
    }
  }

  lemma {:induction false} SentKept(workers: seq<Worker>, w: nat, x: Worker)
    requires w < |workers| && HasSent(workers[w]) && HasSent(x) && x.reply == workers[w].reply
    ensures SentReplies(workers[w := x]) == SentReplies(workers)
  {
    var n := |workers| - 1;
    if w == n {
      assert workers[w := x][..n] == workers[..n];
    } else {
      assert workers[w := x][..n] == workers[..n][w := x];
      SentKept(workers[..n], w, x);
    }
  }

  /** Fewer replies are sent than there are workers while some worker has not sent: the queue has room for it. */
  lemma {:induction false} SentCount(workers: seq<Worker>)
    ensures |SentReplies(workers)| <= |workers|
    ensures (exists w :: 0 <= w < |workers| && !HasSent(workers[w])) ==> |SentReplies(workers)| < |workers|
  {
    if workers != [] {
      SentCount(workers[..|workers| - 1]);
    }
  }

  lemma SendKeepsInv(f: Fetch, free: bool, w: nat)
    requires FetchInv(f) && Ready(f, free, Send(w))
    ensures FetchInv(Act(f, free, Send(w)))
  {
    hide SameBag, SentReplies, Collected;
    var f' := Act(f, free, Send(w));
    var before, after := SentNew(f.workers, w, f'.workers[w]);
    BagInsert(f.seen + f.queue, before, after, f.workers[w].reply);
    assert f'.seen + f'.queue == f.seen + f.queue + [f.workers[w].reply];
  }

  lemma CollectedSnoc(seen: seq<Reply>, reply: Reply)
    ensures Collected(seen + [reply]) == MergeOne(Collected(seen).0, Collected(seen).1, reply)
  {
    assert (seen + [reply])[..|seen|] == seen;
  }

  lemma ReceiveKeepsInv(f: Fetch, free: bool)
    requires FetchInv(f) && Ready(f, free, Receive)
    ensures FetchInv(Act(f, free, Receive))
  {
    hide SameBag, SentReplies, Collected, MergeOne;
    CollectedSnoc(f.seen, f.queue[0]);
    assert f.seen + [f.queue[0]] + f.queue[1..] == f.seen + f.queue;
  }

  lemma ActKeepsInv(f: Fetch, free: bool, a: Action)
    requires FetchInv(f) && Ready(f, free, a)
    ensures FetchInv(Act(f, free, a))
  {
    hide SameBag, SentReplies, Collected;
    var f' := Act(f, free, a);
    match a
    case Acquire(w) => NotYetSent(f.workers, w, f'.workers[w]);
    case GiveUp(w, _) => NotYetSent(f.workers, w, f'.workers[w]);
    case Answer(w, _) => NotYetSent(f.workers, w, f'.workers[w]);
    case Send(w) => SendKeepsInv(f, free, w);
    case Release(w) => SentKept(f.workers, w, f'.workers[w]);
    case CheckOut(w) => SentKept(f.workers, w, f'.workers[w]);
    case CloseQueue =>
    case Receive => ReceiveKeepsInv(f, free);
    case Return =>
  }

  lemma ActHeld(f: Fetch, free: bool, a: Action)
    requires Ready(f, free, a)
    ensures Held(Act(f, free, a).workers) == Held(f.workers) + TokensTaken(a)
  {
    if a.Acquire? || a.GiveUp? || a.Answer? || a.Send? || a.Release? || a.CheckOut? {
      HeldUpdate(f.workers, a.w, Act(f, free, a).workers[a.w]);
    }
  }

  // ----- the pool -----

  predicate Enabled(p: Pool, st: Step) {
    st.fetch < |p.fetches| && Ready(p.fetches[st.fetch], p.tokens < p.capacity, st.action)
  }

  function Next(p: Pool, st: Step): Pool
    requires Enabled(p, st)
  {
    Pool(p.capacity, p.tokens + TokensTaken(st.action),
         p.fetches[st.fetch := Act(p.fetches[st.fetch], p.tokens < p.capacity, st.action)])
  }

  /** A semaphore of the given capacity and one fetch for each listed number of host types. */
  function Init(capacity: nat, hosts: seq<nat>): Pool {
    Pool(capacity, 0, seq(|hosts|, i requires 0 <= i < |hosts| => Begin(hosts[i])))
  }

  predicate ValidRun(p: Pool, run: seq<Step>)
    decreases |run|
  {
    run == [] || (Enabled(p, run[0]) && ValidRun(Next(p, run[0]), run[1..]))
  }

  function Run(p: Pool, run: seq<Step>): Pool
    requires ValidRun(p, run)
    decreases |run|
  {
    if run == [] then p else Run(Next(p, run[0]), run[1..])
  }

  ghost predicate Reachable(p: Pool) {
    exists capacity: nat, hosts: seq<nat>, run ::
      capacity >= 1 && ValidRun(Init(capacity, hosts), run) && Run(Init(capacity, hosts), run) == p
  }

  ghost predicate PoolInv(p: Pool) {
    && 1 <= p.capacity
    && p.tokens == TotalHeld(p.fetches) <= p.capacity
    && forall i | 0 <= i < |p.fetches| :: FetchInv(p.fetches[i])
  }

  lemma {:induction false} TotalUpdate(fetches: seq<Fetch>, i: nat, f: Fetch)
    requires i < |fetches|
    ensures TotalHeld(fetches[i := f]) == TotalHeld(fetches) - Held(fetches[i].workers) + Held(f.workers)
  {
    var n := |fetches| - 1;
    if i == n {
      assert fetches[i := f][..n] == fetches[..n];
    } else {
      assert fetches[i := f][..n] == fetches[..n][i := f];
      TotalUpdate(fetches[..n], i, f);
    }
  }

  lemma StepInv(p: Pool, st: Step)
    requires PoolInv(p) && Enabled(p, st)
    ensures PoolInv(Next(p, st))
  {
    hide FetchInv, Act, Held, TotalHeld, AllOut;
    var f, free := p.fetches[st.fetch], p.tokens < p.capacity;
    ActKeepsInv(f, free, st.action);
    ActHeld(f, free, st.action);
    TotalUpdate(p.fetches, st.fetch, Act(f, free, st.action));
    assert st.action.Acquire? ==> free;
  }

  lemma {:induction false} SpawnedWorkers(workers: seq<Worker>)
    requires forall w | 0 <= w < |workers| :: workers[w] == Spawned
    ensures Held(workers) == 0 && SentReplies(workers) == []
  {
    if workers != [] {
      SpawnedWorkers(workers[..|workers| - 1]);
    }
  }

  lemma FreshInv(f: Fetch)
    requires f.queue == [] && f.seen == [] && f.merged == [] && f.firstErr == None && !f.closed && f.entry == None
    requires SentReplies(f.workers) == []
    ensures FetchInv(f)
  {
    BagSame(f.seen);
    assert f.seen + f.queue == f.seen;
    hide SameBag, SentReplies;
  }

  lemma BagSame<T>(a: seq<T>)
    ensures SameBag(a, a)
  {
  }

  lemma BeginInv(hosts: nat)
    ensures FetchInv(Begin(hosts)) && Held(Begin(hosts).workers) == 0
  {
    hide SentReplies, Held, FetchInv;
    SpawnedWorkers(Begin(hosts).workers);
    FreshInv(Begin(hosts));
  }

  lemma {:induction false} NoneHeld(fetches: seq<Fetch>)
    requires forall i | 0 <= i < |fetches| :: Held(fetches[i].workers) == 0
    ensures TotalHeld(fetches) == 0
  {
    if fetches != [] {
      NoneHeld(fetches[..|fetches| - 1]);
    }
  }

  lemma InitInv(capacity: nat, hosts: seq<nat>)
    requires capacity >= 1
    ensures PoolInv(Init(capacity, hosts))
  {
    hide Begin, FetchInv;
    var p := Init(capacity, hosts);
    forall i | 0 <= i < |p.fetches| ensures FetchInv(p.fetches[i]) && Held(p.fetches[i].workers) == 0 {
      BeginInv(hosts[i]);
    }
    NoneHeld(p.fetches);
  }

  lemma ReachableInv(p: Pool)
    requires Reachable(p)
    ensures PoolInv(p)
  {
    var capacity: nat, hosts: seq<nat>, run :|
      capacity >= 1 && ValidRun(Init(capacity, hosts), run) && Run(Init(capacity, hosts), run) == p;
    InitInv(capacity, hosts);
    var q, rest := Init(capacity, hosts), run;
    hide PoolInv, Next, Enabled;
    while rest != []
      invariant PoolInv(q) && ValidRun(q, rest) && Run(q, rest) == p
      decreases |rest|
    {
      StepInv(q, rest[0]);
      q, rest := Next(q, rest[0]), rest[1..];
    }
  }

  // ----- what holds in every reachable pool -----

  /** The tokens in use are exactly those of the workers between acquire and release, and never exceed the capacity. */
  lemma TokenBound(p: Pool)
    requires Reachable(p)
    ensures p.tokens == TotalHeld(p.fetches) <= p.capacity
  {
    ReachableInv(p);
  }

  /** A worker with a reply can always send it: the queue has room and is not closed. */
  lemma SendNeverBlocks(p: Pool, i: nat, w: nat)
    requires Reachable(p) && i < |p.fetches| && w < |p.fetches[i].workers| && p.fetches[i].workers[w].Sending?
    ensures Enabled(p, Step(i, Send(w)))
  {
    ReachableInv(p);
    RoomToSend(p.fetches[i], w);
  }

  lemma RoomToSend(f: Fetch, w: nat)
    requires FetchInv(f) && w < |f.workers| && f.workers[w].Sending?
    ensures |f.queue| < |f.workers| && !f.closed
  {
    SentCount(f.workers);
    assert !HasSent(f.workers[w]);
    SameLength(f.seen + f.queue, SentReplies(f.workers));
  }

  lemma {:induction false} OutHoldNothing(workers: seq<Worker>)
    requires AllOut(workers)
    ensures Held(workers) == 0
    ensures SentReplies(workers) == Outcomes(workers)
  {
    if workers != [] {
      var n := |workers| - 1;
      OutHoldNothing(workers[..n]);
      assert Outcomes(workers) == Outcomes(workers[..n]) + [workers[n].reply];
    }
  }

  /** Once a fetch's queue is closed, none of its workers holds a token. */
  lemma ClosedMeansReturned(p: Pool, i: nat)
    requires Reachable(p) && i < |p.fetches| && p.fetches[i].closed
    ensures Held(p.fetches[i].workers) == 0
  {
    ReachableInv(p);
    OutHoldNothing(p.fetches[i].workers);
  }

  /** The replies of finished workers, one per host type. */
  function Outcomes(workers: seq<Worker>): seq<Reply>
    requires AllOut(workers)
  {
    seq(|workers|, w requires 0 <= w < |workers| => workers[w].reply)
  }

  lemma {:induction false} AllRowsConcat(a: seq<Reply>, b: seq<Reply>)
    ensures AllRows(a + b) == AllRows(a) + AllRows(b)
  {
    if b == [] {
      assert a + b == a;
    } else {
      assert (a + b)[..|a + b| - 1] == a + b[..|b| - 1];
      AllRowsConcat(a, b[..|b| - 1]);
    }
  }

  lemma BagRemove(a: seq<Reply>, b: seq<Reply>) returns (b1: seq<Reply>, b2: seq<Reply>)
    requires SameBag(a, b) && a != []
    ensures b == b1 + [a[|a| - 1]] + b2 && SameBag(a[..|a| - 1], b1 + b2)
  {
    var front, last := a[..|a| - 1], a[|a| - 1];
    BagMember(a, b, last);
    var k :| 0 <= k < |b| && b[k] == last;
    b1, b2 := b[..k], b[k + 1..];
    assert a == front + [last] && b == b1 + [last] + b2;
    BagCancel(front, b1, b2, last);
  }

  lemma BagCancel(front: seq<Reply>, b1: seq<Reply>, b2: seq<Reply>, last: Reply)
    requires SameBag(front + [last], b1 + [last] + b2)
    ensures SameBag(front, b1 + b2)
  {
    assert multiset(front) == multiset(front + [last]) - multiset{last};
    assert multiset(b1 + b2) == multiset(b1 + [last] + b2) - multiset{last};
  }

  lemma RowsInsert(front: seq<Reply>, before: seq<Reply>, after: seq<Reply>, x: Reply)
    requires SameBag(AllRows(front), AllRows(before + after))
    ensures SameBag(AllRows(front + [x]), AllRows(before + [x] + after))
  {
    AllRowsConcat(front, [x]);
    AllRowsConcat(before + [x], after);
    AllRowsConcat(before, [x]);
    AllRowsConcat(before, after);
  }

  /** Merging in another order gives the same results, each as often. */
  lemma {:induction false} BagRows(a: seq<Reply>, b: seq<Reply>)
    requires SameBag(a, b)
    ensures SameBag(AllRows(a), AllRows(b))
    decreases |a|
  {
    if a == [] {
      SameLength(a, b);
    } else {
      hide SameBag, AllRows;
      var b1, b2 := BagRemove(a, b);
      BagRows(a[..|a| - 1], b1 + b2);
      RowsInsert(a[..|a| - 1], b1, b2, a[|a| - 1]);
      assert a[..|a| - 1] + [a[|a| - 1]] == a;
    }
  }

  lemma {:induction false} FirstErrorMeans(replies: seq<Reply>)
    ensures FirstError(replies).Some? <==> exists r :: r in replies && r.Failed?
    ensures FirstError(replies).Some? ==> Failed(FirstError(replies).value) in replies
  {
    if replies != [] {
      var front := replies[..|replies| - 1];
      FirstErrorMeans(front);
      assert replies == front + [replies[|replies| - 1]];
    }
  }

  lemma BagMember<T>(a: seq<T>, b: seq<T>, x: T)
    requires SameBag(a, b)
    ensures x in a <==> x in b
  {
    assert x in a <==> x in multiset(a);
    assert x in b <==> x in multiset(b);
  }

  lemma BagEmpty<T>(a: seq<T>, b: seq<T>)
    requires SameBag(a, b)
    ensures a == [] <==> b == []
  {
    assert |multiset(a)| == |a| && |multiset(b)| == |b|;
  }

  /** The outcome of merging one bag of replies: all rows, and an error exactly when there are none and some reply failed. */
  ghost predicate Merges(entry: Entry, replies: seq<Reply>) {
    && SameBag(entry.results, AllRows(replies))
    && (entry.err.Some? <==> AllRows(replies) == [] && exists r :: r in replies && r.Failed?)
    && (entry.err.Some? ==> Failed(entry.err.value) in replies)
  }

  lemma ConcludeMerges(log: seq<Reply>, replies: seq<Reply>)
    requires SameBag(log, replies)
    ensures Merges(Conclude(AllRows(log), FirstError(log)), replies)
  {
    BagRows(log, replies);
    hide SameBag, AllRows, FirstError;
    BagEmpty(AllRows(log), AllRows(replies));
    FirstErrorMeans(log);
    forall r ensures r in log <==> r in replies {
      BagMember(log, replies, r);
    }
  }

  /** The loop has all results in order, and the first error. */
  lemma {:induction false} CollectedIs(seen: seq<Reply>)
    ensures Collected(seen) == (AllRows(seen), FirstError(seen))
  {
    if seen != [] {
      var front := seen[..|seen| - 1];
      CollectedIs(front);
      assert AllRows(front) + [] == AllRows(front);
    }
  }

  lemma FinishedMerges(f: Fetch)
    requires FetchInv(f) && f.entry.Some?
    ensures AllOut(f.workers) && Merges(f.entry.value, Outcomes(f.workers))
  {
    hide SameBag, AllRows, FirstError, Collected, Conclude, Merges, SentReplies, AllOut, Outcomes;
    CollectedIs(f.seen);
    OutHoldNothing(f.workers);
    assert f.seen + f.queue == f.seen;
    ConcludeMerges(f.seen, Outcomes(f.workers));
  }

  /**
    What a finished fetch returns, whatever the schedule: the results of its successful workers,
    each as often as they were returned; and an error, one of the workers' own, exactly when there
    is no result at all and some worker failed.
   */
  lemma FetchReturns(p: Pool, i: nat)
    requires Reachable(p) && i < |p.fetches| && p.fetches[i].entry.Some?
    ensures AllOut(p.fetches[i].workers) && Merges(p.fetches[i].entry.value, Outcomes(p.fetches[i].workers))
  {
    ReachableInv(p);
    FinishedMerges(p.fetches[i]);
  }

  // ----- progress -----

  lemma {:induction false} FindHolder(workers: seq<Worker>) returns (w: nat)
    requires Held(workers) > 0
    ensures w < |workers| && Holds(workers[w])
  {
    var n := |workers| - 1;
    if Holds(workers[n]) {
      w := n;
    } else {
      w := FindHolder(workers[..n]);
    }
  }

  lemma {:induction false} FindHoldingFetch(fetches: seq<Fetch>) returns (i: nat)
    requires TotalHeld(fetches) > 0
    ensures i < |fetches| && Held(fetches[i].workers) > 0
  {
    var n := |fetches| - 1;
    if Held(fetches[n].workers) > 0 {
      i := n;
    } else {
      i := FindHoldingFetch(fetches[..n]);
    }
  }

  /** A worker with a reply finds room in an open queue. */
  ghost predicate HasRoom(f: Fetch) {
    forall w | 0 <= w < |f.workers| && f.workers[w].Sending? :: |f.queue| < |f.workers| && !f.closed
  }

  lemma InvHasRoom(f: Fetch)
    requires FetchInv(f)
    ensures HasRoom(f)
  {
    hide FetchInv;
    forall w | 0 <= w < |f.workers| && f.workers[w].Sending? ensures |f.queue| < |f.workers| && !f.closed {
      RoomToSend(f, w);
    }
  }

  /** A worker that has started can always take its next step. */
  lemma WorkerMoves(f: Fetch, free: bool, w: nat) returns (a: Action)
    requires HasRoom(f) && w < |f.workers| && !f.workers[w].Spawned? && !f.workers[w].Exited?
    ensures Ready(f, free, a) && !a.GiveUp?
  {
    match f.workers[w]
    case Querying => a := Answer(w, Rows([]));
    case Sending(_, _) => a := Send(w);
    case Sent(_, token) => a := if token then Release(w) else CheckOut(w);
  }

  lemma RoomProgress(p: Pool, i: nat) returns (st: Step)
    requires 1 <= p.capacity && p.tokens == TotalHeld(p.fetches) && forall j | 0 <= j < |p.fetches| :: HasRoom(p.fetches[j])
    requires i < |p.fetches| && p.fetches[i].entry == None
    ensures Enabled(p, st) && !st.action.GiveUp?
  {
    hide HasRoom;
    var f, free := p.fetches[i], p.tokens < p.capacity;
    if w :| 0 <= w < |f.workers| && !f.workers[w].Exited? {
      if !f.workers[w].Spawned? {
        var a := WorkerMoves(f, free, w);
        st := Step(i, a);
      } else if free {
        st := Step(i, Acquire(w));
      } else {
        var j := FindHoldingFetch(p.fetches);
        var v := FindHolder(p.fetches[j].workers);
        var a := WorkerMoves(p.fetches[j], free, v);
        st := Step(j, a);
      }
    } else if !f.closed {
      st := Step(i, CloseQueue);
    } else if f.queue != [] {
      st := Step(i, Receive);
    } else {
      st := Step(i, Return);
    }
  }

  /** No deadlock: while a fetch has not returned, some step other than giving up can be taken. */
  lemma Progress(p: Pool, i: nat) returns (st: Step)
    requires Reachable(p) && i < |p.fetches| && p.fetches[i].entry == None
    ensures Enabled(p, st) && !st.action.GiveUp?
  {
    ReachableInv(p);
    hide FetchInv, HasRoom;
    forall j | 0 <= j < |p.fetches| ensures HasRoom(p.fetches[j]) {
      InvHasRoom(p.fetches[j]);
    }
    st := RoomProgress(p, i);
  }

  function WorkerRank(w: Worker): nat {
    match w
    case Spawned => 6
    case Querying => 5
    case Sending(_, _) => 4
    case Sent(_, token) => if token then 2 else 1
    case Exited(_) => 0
  }

  function WorkersRank(workers: seq<Worker>): nat {
    if workers == [] then 0 else WorkersRank(workers[..|workers| - 1]) + WorkerRank(workers[|workers| - 1])
  }

  function FetchRank(f: Fetch): nat {
    WorkersRank(f.workers) + |f.queue| + (if f.closed then 0 else 1) + (if f.entry == None then 1 else 0)
  }

  function Rank(fetches: seq<Fetch>): nat {
    if fetches == [] then 0 else Rank(fetches[..|fetches| - 1]) + FetchRank(fetches[|fetches| - 1])
  }

  lemma {:induction false} WorkersRankUpdate(workers: seq<Worker>, w: nat, x: Worker)
    requires w < |workers|
    ensures WorkersRank(workers[w := x]) == WorkersRank(workers) - WorkerRank(workers[w]) + WorkerRank(x)
  {
    var n := |workers| - 1;
    if w == n {
      assert workers[w := x][..n] == workers[..n];
    } else {
      assert workers[w := x][..n] == workers[..n][w := x];
      WorkersRankUpdate(workers[..n], w, x);
    }
  }

  lemma {:induction false} RankUpdate(fetches: seq<Fetch>, i: nat, f: Fetch)
    requires i < |fetches|
    ensures Rank(fetches[i := f]) == Rank(fetches) - FetchRank(fetches[i]) + FetchRank(f)
  {
    var n := |fetches| - 1;
    if i == n {
      assert fetches[i := f][..n] == fetches[..n];
    } else {
      assert fetches[i := f][..n] == fetches[..n][i := f];
      RankUpdate(fetches[..n], i, f);
    }
  }

  lemma StepRank(p: Pool, st: Step)
    requires Enabled(p, st)
    ensures Rank(Next(p, st).fetches) < Rank(p.fetches)
  {
    hide WorkersRank, Rank;
    var f, f' := p.fetches[st.fetch], Next(p, st).fetches[st.fetch];
    var a := st.action;
    if a.Acquire? || a.GiveUp? || a.Answer? || a.Send? || a.Release? || a.CheckOut? {
      WorkersRankUpdate(f.workers, a.w, f'.workers[a.w]);
    }
    RankUpdate(p.fetches, st.fetch, f');
  }

  lemma {:induction false} RunRank(p: Pool, run: seq<Step>)
    requires ValidRun(p, run)
    ensures |run| + Rank(Run(p, run).fetches) <= Rank(p.fetches)
    decreases |run|
  {
    if run != [] {
      StepRank(p, run[0]);
      RunRank(Next(p, run[0]), run[1..]);
    }
  }

  /** The most steps a pool of fetches can take: six per worker and two per fetch. */
  function StepBound(hosts: seq<nat>): nat {
    if hosts == [] then 0 else StepBound(hosts[..|hosts| - 1]) + 6 * hosts[|hosts| - 1] + 2
  }

  lemma {:induction false} SpawnedRank(workers: seq<Worker>)
    requires forall w | 0 <= w < |workers| :: workers[w] == Spawned
    ensures WorkersRank(workers) == 6 * |workers|
  {
    if workers != [] {
      SpawnedRank(workers[..|workers| - 1]);
    }
  }

  lemma {:induction false} InitRank(capacity: nat, hosts: seq<nat>)
    ensures Rank(Init(capacity, hosts).fetches) == StepBound(hosts)
    decreases |hosts|
  {
    if hosts != [] {
      var n := |hosts| - 1;
      InitRank(capacity, hosts[..n]);
      assert Init(capacity, hosts).fetches[..n] == Init(capacity, hosts[..n]).fetches;
      SpawnedRank(Begin(hosts[n]).workers);
    }
  }

  /** Every schedule ends within the bound, and one that cannot be extended has returned from every fetch with all tokens back. */
  lemma EveryRunEnds(capacity: nat, hosts: seq<nat>, run: seq<Step>)
    requires capacity >= 1 && ValidRun(Init(capacity, hosts), run)
    ensures |run| <= StepBound(hosts)
    ensures var p := Run(Init(capacity, hosts), run);
      (forall st :: !Enabled(p, st)) ==> p.tokens == 0 && forall i | 0 <= i < |p.fetches| :: p.fetches[i].entry.Some?
  {
    var p := Run(Init(capacity, hosts), run);
    InitRank(capacity, hosts);
    RunRank(Init(capacity, hosts), run);
    assert Reachable(p);
    if forall st :: !Enabled(p, st) {
      forall i | 0 <= i < |p.fetches|
        ensures p.fetches[i].entry.Some? && Held(p.fetches[i].workers) == 0
      {
        if p.fetches[i].entry == None {
          var st := Progress(p, i);
        }
        ReachableInv(p);
        ClosedMeansReturned(p, i);
      }
      ReachableInv(p);
      NoneHeld(p.fetches);
    }
  }
}
