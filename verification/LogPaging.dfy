/** `GetLogsSince`, which reads a log stream page by page and retries, and `AssertNoDuplicateLogs`. */
module LogPaging {
  import opened Common

  datatype Event = Event(timestamp: int, message: string)

  datatype Fault = ResourceNotFound | OtherFault(text: string)

  const STANDARD_RETRIES := 3

  /** What the service holds: the pages in forward order, and the forward token returned with each. */
  datatype Stream = Stream(pages: seq<seq<Event>>, tokens: seq<string>) {

    /** The last page is recognised by its token, which repeats the one it was asked with. */
    ghost predicate Valid() {
      && |pages| == |tokens| >= 2
      && NoDup(tokens[..|tokens| - 1])
      && tokens[|tokens| - 1] == tokens[|tokens| - 2]
    }

    /** The page that a request with this token gets. */
    function PageAt(token: Option<string>): Option<nat> {
      if token.None? then Some(0) else After(token.value, 0)
    }

    function After(token: string, from: nat): Option<nat>
      decreases |tokens| - from
    {
      if from + 1 >= |tokens| then None
      else if tokens[from] == token then Some(from + 1)
      else After(token, from + 1)
    }

    lemma {:induction false} AfterFinds(from: nat, i: nat)
      requires Valid() && from <= i < |tokens| - 1
      ensures After(tokens[i], from) == Some(i + 1)
      decreases i - from
    {
      if from < i {
        assert tokens[..|tokens| - 1][from] != tokens[..|tokens| - 1][i];
        AfterFinds(from + 1, i);
      }
    }
  }

  /** Call number `call`, counted from 1, fails and is not retried. */
  predicate Fatal(fault: nat -> Option<Fault>, call: nat) {
    fault(call).Some? && !(fault(call).value.ResourceNotFound? && call <= STANDARD_RETRIES)
  }

  /** How many of the first `calls` calls were answered. */
  function Answered(fault: nat -> Option<Fault>, calls: nat): nat {
    if calls == 0 then 0 else Answered(fault, calls - 1) + if fault(calls).None? then 1 else 0
  }

  /** What a caller may rely on: the outcome of reading `s` while calls fail as `fault` says. */
  ghost predicate ReadOutcome(s: Stream, fault: nat -> Option<Fault>, events: seq<Event>, err: Option<Fault>, calls: nat) {
    && calls >= 1
    && (forall a | 1 <= a < calls :: !Fatal(fault, a))
    && Answered(fault, calls) <= |s.pages|
    && events == Flatten(s.pages[..Answered(fault, calls)])
    && err == fault(calls)
    && (err.Some? ==> Fatal(fault, calls) && Answered(fault, calls) < |s.pages|)
    && (err.None? ==> Answered(fault, calls) == |s.pages|)
  }

  method GetLogsSince(s: Stream, fault: nat -> Option<Fault>) returns (events: seq<Event>, err: Option<Fault>, calls: nat)
    requires s.Valid()
    ensures ReadOutcome(s, fault, events, err, calls)
  {
    events := [];
    assert Flatten(s.pages[..0]) == [] && Answered(fault, 0) == 0;
    FirstPage(s);
    hide Flatten, NoDup, Stream.Valid, Stream.PageAt, Answered;
    var paramToken: Option<string>, nextToken: Option<string> := None, None;
    var attempts := 0;
    ghost var served := 0;
    while true
      invariant served == Answered(fault, attempts) < |s.pages|
      invariant forall a | 1 <= a <= attempts :: !Fatal(fault, a)
      invariant events == Flatten(s.pages[..served])
      invariant nextToken == if served == 0 then None else Some(s.tokens[served - 1])
      invariant nextToken.None? ==> paramToken.None?
      decreases |s.pages| - served, if attempts <= STANDARD_RETRIES then STANDARD_RETRIES + 1 - attempts else 0
    {
      if nextToken.Some? {
        paramToken := nextToken;
      }
      AnsweredNext(fault, attempts);
      var failure := fault(attempts + 1);
      attempts := attempts + 1;
      if failure.Some? {
        if failure.value.ResourceNotFound? && attempts <= STANDARD_RETRIES {
          continue;
        }
        return events, failure, attempts;
      }
      NextPage(s, served);
      var page := s.PageAt(paramToken).value;
      var output, forward := s.pages[page], s.tokens[page];
      events := events + output;
      served := served + 1;
      if nextToken.Some? && forward == nextToken.value {
        assert s.pages[..served] == s.pages;
        return events, None, attempts;
      }
      nextToken := Some(forward);
    }
  }

  lemma AnsweredNext(fault: nat -> Option<Fault>, calls: nat)
    ensures Answered(fault, calls + 1) == Answered(fault, calls) + if fault(calls + 1).None? then 1 else 0
  {
  }

  lemma FirstPage(s: Stream)
    requires s.Valid()
    ensures |s.pages| == |s.tokens| && |s.pages| > 0
  {
  }

  /** The token of a page asks for the next one, and only the last page comes with the token it was asked with. */
  lemma NextPage(s: Stream, page: nat)
    requires s.Valid() && page < |s.pages|
    ensures |s.pages| == |s.tokens|
    ensures s.PageAt(if page == 0 then None else Some(s.tokens[page - 1])) == Some(page)
    ensures page > 0 ==> (s.tokens[page] == s.tokens[page - 1] <==> page == |s.pages| - 1)
    ensures page == 0 ==> page < |s.pages| - 1
    ensures Flatten(s.pages[..page + 1]) == Flatten(s.pages[..page]) + s.pages[page]
  {
    if page > 0 {
      s.AfterFinds(0, page - 1);
    }
    var front := s.tokens[..|s.tokens| - 1];
    if 0 < page < |s.pages| - 1 {
      assert front[page] != front[page - 1];
    }
    assert s.pages[..page + 1] == s.pages[..page] + [s.pages[page]];
    FlattenSnoc(s.pages[..page], s.pages[page]);
  }

  // ----- what the outcome means -----

  lemma {:induction false} AnsweredGrows(fault: nat -> Option<Fault>, a: nat, b: nat)
    requires a <= b
    ensures Answered(fault, a) <= Answered(fault, b) <= Answered(fault, a) + (b - a)
    decreases b - a
  {
    if a < b {
      AnsweredGrows(fault, a, b - 1);
    }
  }

  /** The faults alone decide how many calls are made, what is returned and with which error. */
  lemma OutcomeUnique(s: Stream, fault: nat -> Option<Fault>, events1: seq<Event>, err1: Option<Fault>, calls1: nat,
                      events2: seq<Event>, err2: Option<Fault>, calls2: nat)
    requires ReadOutcome(s, fault, events1, err1, calls1) && ReadOutcome(s, fault, events2, err2, calls2)
    ensures (events1, err1, calls1) == (events2, err2, calls2)
  {
    if calls1 < calls2 {
      OutcomeNotBefore(s, fault, events1, err1, calls1, events2, err2, calls2);
    } else if calls2 < calls1 {
      OutcomeNotBefore(s, fault, events2, err2, calls2, events1, err1, calls1);
    }
  }

  lemma OutcomeNotBefore(s: Stream, fault: nat -> Option<Fault>, events1: seq<Event>, err1: Option<Fault>, calls1: nat,
                         events2: seq<Event>, err2: Option<Fault>, calls2: nat)
    requires ReadOutcome(s, fault, events1, err1, calls1) && ReadOutcome(s, fault, events2, err2, calls2)
    ensures calls1 >= calls2
  {
    if calls1 < calls2 {
      assert !Fatal(fault, calls1);
      AnsweredGrows(fault, calls1, calls2 - 1);
      AnsweredGrows(fault, calls1, calls2);
    }
  }

  /** Without an error every page was read exactly once and in order; with one, the events are those of the first pages. */
  lemma EveryPageOnce(s: Stream, fault: nat -> Option<Fault>, events: seq<Event>, err: Option<Fault>, calls: nat)
    requires ReadOutcome(s, fault, events, err, calls)
    ensures err.None? ==> events == Flatten(s.pages)
    ensures events <= Flatten(s.pages)
  {
    var k := Answered(fault, calls);
    assert s.pages[..k] + s.pages[k..] == s.pages;
    FlattenConcat(s.pages[..k], s.pages[k..]);
    assert s.pages[..|s.pages|] == s.pages;
  }

  lemma {:induction false} FlattenConcat<T>(a: seq<seq<T>>, b: seq<seq<T>>)
    ensures Flatten(a + b) == Flatten(a) + Flatten(b)
  {
    if a == [] {
      assert a + b == b;
    } else {
      assert (a + b)[1..] == a[1..] + b;
      FlattenConcat(a[1..], b);
    }
  }

  /** At most three unanswered calls are survived: they are among the first three. */
  lemma {:induction false} WastedCalls(fault: nat -> Option<Fault>, calls: nat)
    requires forall a | 1 <= a <= calls :: !Fatal(fault, a)
    ensures calls <= Answered(fault, calls) + STANDARD_RETRIES
  {
    if calls > STANDARD_RETRIES {
      WastedCalls(fault, calls - 1);
      assert !Fatal(fault, calls);
    }
  }

  /** A missing resource is retried only while at most three calls were made, and no other fault is. */
  lemma RetriesBounded(s: Stream, fault: nat -> Option<Fault>, events: seq<Event>, err: Option<Fault>, calls: nat)
    requires ReadOutcome(s, fault, events, err, calls)
    ensures calls <= |s.pages| + 3
    ensures forall a | 1 <= a < calls && fault(a).Some? :: fault(a).value.ResourceNotFound? && a <= 3
    ensures err.Some? ==> calls >= 4 || !err.value.ResourceNotFound?
  {
    WastedCalls(fault, calls - 1);
    forall a | 1 <= a < calls && fault(a).Some?
      ensures fault(a).value.ResourceNotFound? && a <= 3
    {
      assert !Fatal(fault, a);
    }
  }

  /** A fourth missing resource in a row ends the reading; up to three cost nothing but their calls. */
  lemma FourthMissing(s: Stream, fault: nat -> Option<Fault>, events: seq<Event>, err: Option<Fault>, calls: nat, missing: nat)
    requires ReadOutcome(s, fault, events, err, calls) && s.Valid()
    requires forall a | 1 <= a <= missing :: fault(a) == Some(ResourceNotFound)
    ensures missing >= 4 ==> calls == 4 && err == Some(ResourceNotFound) && events == []
    ensures missing <= 3 && (forall a: nat | missing < a :: fault(a).None?) ==>
      calls == missing + |s.pages| && err.None? && events == Flatten(s.pages)
  {
    if missing >= 4 {
      assert Fatal(fault, 4);
      NoneAnswered(fault, 4, 4);
      assert calls < 4 ==> !Fatal(fault, calls);
      assert s.pages[..0] == [];
    } else if forall a: nat | missing < a :: fault(a).None? {
      NoneAnswered(fault, missing, missing);
      assert calls <= missing ==> !Fatal(fault, calls);
      AllAnsweredAfter(fault, missing, calls);
      EveryPageOnce(s, fault, events, err, calls);
    }
  }

  lemma {:induction false} NoneAnswered(fault: nat -> Option<Fault>, missing: nat, calls: nat)
    requires calls <= missing && forall a | 1 <= a <= missing :: fault(a) == Some(ResourceNotFound)
    ensures Answered(fault, calls) == 0
  {
    if calls > 0 {
      NoneAnswered(fault, missing, calls - 1);
    }
  }

  lemma {:induction false} AllAnsweredAfter(fault: nat -> Option<Fault>, missing: nat, calls: nat)
    requires missing <= calls && Answered(fault, missing) == 0 && forall a: nat | missing < a :: fault(a).None?
    ensures Answered(fault, calls) == calls - missing
  {
    if missing < calls {
      AllAnsweredAfter(fault, missing, calls - 1);
    }
  }

  // ----- duplicate events -----

  /** Whether the two-level index holds an event. */
  predicate Indexed(byTimestamp: map<int, set<string>>, e: Event) {
    e.timestamp in byTimestamp && e.message in byTimestamp[e.timestamp]
  }

  /** Reports the first event that repeats an earlier one, if any. */
  method AssertNoDuplicateLogs(events: seq<Event>) returns (duplicate: Option<Event>)
    ensures duplicate.None? <==> NoDup(events)
    ensures duplicate.Some? ==> exists k :: 0 <= k < |events| && events[k] == duplicate.value && events[k] in events[..k] && NoDup(events[..k])
  {
    var byTimestamp: map<int, set<string>> := map[];
    for i := 0 to |events|
      invariant NoDup(events[..i])
      invariant forall e :: Indexed(byTimestamp, e) <==> e in events[..i]
    {
      var event := events[i];
      var message, timestamp := event.message, event.timestamp;
      var messages := if timestamp in byTimestamp then byTimestamp[timestamp] else {};
      assert message in messages <==> event in events[..i] by {
        assert Indexed(byTimestamp, event) <==> event in events[..i];
      }
      if message in messages {
        RepeatedHere(events, i);
        return Some(event);
      }
      ghost var before := byTimestamp;
      byTimestamp := byTimestamp[timestamp := messages + {message}];
      forall e ensures Indexed(byTimestamp, e) <==> e in events[..i + 1] {
        assert Indexed(byTimestamp, e) <==> Indexed(before, e) || e == event;
        InSnoc(events, i, e);
      }
    }
    assert events[..|events|] == events;
    duplicate := None;
  }

  lemma InSnoc<T>(s: seq<T>, i: nat, x: T)
    requires i < |s|
    ensures x in s[..i + 1] <==> x in s[..i] || x == s[i]
  {
    assert s[..i + 1] == s[..i] + [s[i]];
  }

  lemma RepeatedHere<T>(s: seq<T>, i: nat)
    requires i < |s| && s[i] in s[..i]
    ensures !NoDup(s)
  {
    var j :| 0 <= j < i && s[..i][j] == s[i];
    assert s[j] == s[i];
  }

  /** `ValidateLogs` with the duplicate check: it accepts exactly when the stream is readable and has no repeated event. */
  method ValidateNoDuplicates(s: Stream, fault: nat -> Option<Fault>) returns (ok: bool, calls: nat)
    requires s.Valid()
    ensures exists events, err :: ReadOutcome(s, fault, events, err, calls)
    ensures ok <==> fault(calls).None? && NoDup(Flatten(s.pages))
  {
    var events, err, made := GetLogsSince(s, fault);
    calls := made;
    EveryPageOnce(s, fault, events, err, calls);
    if err.Some? {
      return false, calls;
    }
    var duplicate := AssertNoDuplicateLogs(events);
    ok := duplicate.None?;
  }
}
