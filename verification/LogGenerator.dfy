/** Concurrent `Generate` calls on one generator, and the check on what is delivered of their output. */
module LogGenerator {
  import opened Common
  import opened SequenceLogs
  import opened GapCheck

  /** An entry as made by `generateEntry`: the number it took and its text. */
  datatype Line = Line(number: nat, text: string)

  /** The generator's counter is the one field that its calls share. */
  class Generator {
    var sequenceNumber: nat

    constructor ()
      ensures sequenceNumber == 0
    {
      sequenceNumber := 0;
    }

    /** The atomic add, and the entry printed with its result. */
    method GenerateEntry(timestamp: string, content: string) returns (line: Line)
      modifies this
      ensures sequenceNumber == old(sequenceNumber) + 1
      ensures line == NewLine(old(sequenceNumber), timestamp, content)
      ensures line.number == sequenceNumber && LaidOut(line.text, timestamp, line.number, content)
    {
      EntryLaidOut(timestamp, sequenceNumber + 1, content);
      sequenceNumber := sequenceNumber + 1;
      line := Line(sequenceNumber, EntryText(timestamp, sequenceNumber, content));
    }
  }

  function NewLine(counter: nat, timestamp: string, content: string): Line {
    Line(counter + 1, EntryText(timestamp, counter + 1, content))
  }

  // ----- any number of callers -----

  /** Each caller is between entries or holds one it has yet to write; a write may fail. */
  datatype System = System(counter: nat, callers: seq<Option<Line>>, written: seq<Line>, lost: seq<Line>)

  datatype Step =
    | Take(caller: nat, timestamp: string, content: string)
    | Write(caller: nat, ok: bool)

  predicate Enabled(s: System, st: Step) {
    match st
    case Take(c, _, _) => c < |s.callers| && s.callers[c] == None
    case Write(c, _) => c < |s.callers| && s.callers[c].Some?
  }

  function Next(s: System, st: Step): System
    requires Enabled(s, st)
  {
    match st
    case Take(c, timestamp, content) =>
      s.(counter := s.counter + 1, callers := s.callers[c := Some(NewLine(s.counter, timestamp, content))])
    case Write(c, ok) =>
      var line := s.callers[c].value;
      s.(callers := s.callers[c := None],
         written := if ok then s.written + [line] else s.written,
         lost := if ok then s.lost else s.lost + [line])
  }

  function Init(callers: nat): System {
    System(0, seq(callers, i => None), [], [])
  }

  predicate ValidRun(s: System, run: seq<Step>)
    decreases |run|
  {
    run == [] || (Enabled(s, run[0]) && ValidRun(Next(s, run[0]), run[1..]))
  }

  function Run(s: System, run: seq<Step>): System
    requires ValidRun(s, run)
    decreases |run|
  {
    if run == [] then s else Run(Next(s, run[0]), run[1..])
  }

  ghost predicate Reachable(s: System) {
    exists callers: nat, run :: ValidRun(Init(callers), run) && Run(Init(callers), run) == s
  }

  // ----- the numbers handed out -----

  function NumbersOf(lines: seq<Line>): seq<nat> {
    seq(|lines|, i requires 0 <= i < |lines| => lines[i].number)
  }

  function One(x: Option<Line>, n: nat): nat {
    if x.Some? && x.value.number == n then 1 else 0
  }

  /** How many callers hold an entry with number `n`. */
  function Pending(callers: seq<Option<Line>>, n: nat): nat {
    if callers == [] then 0 else Pending(callers[..|callers| - 1], n) + One(callers[|callers| - 1], n)
  }

  function Count(lines: seq<Line>, n: nat): nat {
    if lines == [] then 0 else Count(lines[..|lines| - 1], n) + One(Some(lines[|lines| - 1]), n)
  }

  /** How often number `n` was handed out. */
  function Issued(s: System, n: nat): nat {
    Pending(s.callers, n) + Count(s.written, n) + Count(s.lost, n)
  }

  lemma {:induction false} PendingUpdate(callers: seq<Option<Line>>, c: nat, x: Option<Line>, n: nat)
    requires c < |callers|
    ensures Pending(callers[c := x], n) + One(callers[c], n) == Pending(callers, n) + One(x, n)
  {
    var last := |callers| - 1;
    if c == last {
      assert callers[c := x][..last] == callers[..last];
    } else {
      assert callers[c := x][..last] == callers[..last][c := x];
      PendingUpdate(callers[..last], c, x, n);
    }
  }

  lemma CountSnoc(lines: seq<Line>, line: Line, n: nat)
    ensures Count(lines + [line], n) == Count(lines, n) + One(Some(line), n)
  {
    assert (lines + [line])[..|lines|] == lines;
  }

  ghost predicate Printed(line: Line) {
    exists timestamp, content :: line.text == EntryText(timestamp, line.number, content)
  }

  ghost predicate Inv(s: System) {
    && (forall n: nat :: Issued(s, n) == if 1 <= n <= s.counter then 1 else 0)
    && (forall c | 0 <= c < |s.callers| && s.callers[c].Some? :: Printed(s.callers[c].value))
    && (forall line | line in s.written :: Printed(line))
  }

  /** A step only adds the number it takes; writing or losing an entry moves its number. */
  lemma StepIssues(s: System, st: Step, n: nat)
    requires Enabled(s, st)
    ensures Issued(Next(s, st), n) == Issued(s, n) + (if st.Take? && n == s.counter + 1 then 1 else 0)
  {
    PendingUpdate(s.callers, st.caller, Next(s, st).callers[st.caller], n);
    if st.Write? {
      CountSnoc(s.written, s.callers[st.caller].value, n);
      CountSnoc(s.lost, s.callers[st.caller].value, n);
    }
  }

  lemma StepInv(s: System, st: Step)
    requires Inv(s) && Enabled(s, st)
    ensures Inv(Next(s, st))
  {
    forall n: nat ensures Issued(Next(s, st), n) == if 1 <= n <= Next(s, st).counter then 1 else 0 {
      StepIssues(s, st, n);
    }
    hide Issued;
    if st.Take? {
      var line := NewLine(s.counter, st.timestamp, st.content);
      assert line.text == EntryText(st.timestamp, line.number, st.content);
    }
  }

  lemma {:induction false} NothingPending(callers: seq<Option<Line>>, n: nat)
    requires forall c | 0 <= c < |callers| :: callers[c] == None
    ensures Pending(callers, n) == 0
  {
    if callers != [] {
      NothingPending(callers[..|callers| - 1], n);
    }
  }

  lemma InitInv(callers: nat)
    ensures Inv(Init(callers))
  {
    forall n: nat ensures Issued(Init(callers), n) == 0 {
      NothingPending(Init(callers).callers, n);
    }
  }

  lemma {:induction false} RunInv(s: System, run: seq<Step>)
    requires Inv(s) && ValidRun(s, run)
    ensures Inv(Run(s, run))
    decreases |run|
  {
    if run != [] {
      StepInv(s, run[0]);
      RunInv(Next(s, run[0]), run[1..]);
    }
  }

  /**
    Whatever the interleaving, the entries pending, written and lost carry the numbers from 1 to
    the counter, each exactly once; and every written entry's text was printed from its number.
   */
  lemma NumbersAreConsecutive(s: System)
    requires Reachable(s)
    ensures forall n: nat :: Issued(s, n) == if 1 <= n <= s.counter then 1 else 0
    ensures forall line | line in s.written :: Printed(line)
  {
    var callers: nat, run :| ValidRun(Init(callers), run) && Run(Init(callers), run) == s;
    InitInv(callers);
    RunInv(Init(callers), run);
  }

  lemma {:induction false} CountedOnce(lines: seq<Line>, i: nat)
    requires i < |lines|
    ensures Count(lines, lines[i].number) >= 1
    decreases |lines|
  {
    if i < |lines| - 1 {
      CountedOnce(lines[..|lines| - 1], i);
    }
  }

  lemma {:induction false} CountedTwice(lines: seq<Line>, i: nat, j: nat)
    requires i < j < |lines| && lines[i].number == lines[j].number
    ensures Count(lines, lines[i].number) >= 2
    decreases |lines|
  {
    if j < |lines| - 1 {
      CountedTwice(lines[..|lines| - 1], i, j);
    } else {
      CountedOnce(lines[..|lines| - 1], i);
    }
  }

  lemma WrittenDistinct(s: System)
    requires Reachable(s)
    ensures NoDup(NumbersOf(s.written))
    ensures forall i | 0 <= i < |s.written| :: 1 <= s.written[i].number <= s.counter
  {
    NumbersAreConsecutive(s);
    forall n: nat ensures Count(s.written, n) <= if 1 <= n <= s.counter then 1 else 0 {
      assert Count(s.written, n) <= Issued(s, n);
    }
    forall i | 0 <= i < |s.written| ensures 1 <= s.written[i].number <= s.counter {
      CountedOnce(s.written, i);
    }
    forall i, j | 0 <= i < j < |s.written| ensures s.written[i].number != s.written[j].number {
      if s.written[i].number == s.written[j].number {
        CountedTwice(s.written, i, j);
      }
    }
  }

  // ----- delivery -----

  /** Some of the written entries, each at most once and in any order. */
  ghost predicate Delivery(s: System, picks: seq<nat>) {
    NoDup(picks) && forall k | 0 <= k < |picks| :: picks[k] < |s.written|
  }

  function Messages(s: System, picks: seq<nat>): seq<string>
    requires forall k | 0 <= k < |picks| :: picks[k] < |s.written|
  {
    seq(|picks|, k requires 0 <= k < |picks| => s.written[picks[k]].text)
  }

  function Delivered(s: System, picks: seq<nat>): seq<nat>
    requires forall k | 0 <= k < |picks| :: picks[k] < |s.written|
  {
    seq(|picks|, k requires 0 <= k < |picks| => s.written[picks[k]].number)
  }

  /** The caller's timestamp does not read as a sequence number. */
  predicate Plain(st: Step) {
    st.Take? ==> FindSeq(st.timestamp) == None
  }

  ghost predicate PlainRun(run: seq<Step>) {
    forall k | 0 <= k < |run| :: Plain(run[k])
  }

  /** A reachable state in which every timestamp so far was plain. */
  ghost predicate PlainlyReachable(s: System) {
    exists callers: nat, run :: PlainRun(run) && ValidRun(Init(callers), run) && Run(Init(callers), run) == s
  }

  /** The entry was printed after a timestamp that does not read as a sequence number. */
  ghost predicate Readable(line: Line) {
    exists timestamp, content :: line.text == EntryText(timestamp, line.number, content) && FindSeq(timestamp) == None
  }

  ghost predicate AllReadable(s: System) {
    && (forall c | 0 <= c < |s.callers| && s.callers[c].Some? :: Readable(s.callers[c].value))
    && (forall line | line in s.written :: Readable(line))
  }

  lemma StepReadable(s: System, st: Step)
    requires AllReadable(s) && Enabled(s, st) && Plain(st)
    ensures AllReadable(Next(s, st))
  {
    if st.Take? {
      var line := NewLine(s.counter, st.timestamp, st.content);
      assert line.text == EntryText(st.timestamp, line.number, st.content);
      assert Readable(line);
    }
    hide Readable, EntryText;
  }

  lemma {:induction false} RunReadable(s: System, run: seq<Step>)
    requires AllReadable(s) && ValidRun(s, run) && PlainRun(run)
    ensures AllReadable(Run(s, run))
    decreases |run|
  {
    if run != [] {
      hide AllReadable, Next, Enabled;
      assert Plain(run[0]);
      StepReadable(s, run[0]);
      RunReadable(Next(s, run[0]), run[1..]);
    }
  }

  /** Plain timestamps make every entry readable. */
  lemma PlainReadable(s: System)
    requires PlainlyReachable(s)
    ensures Reachable(s) && AllReadable(s)
  {
    var callers: nat, run :| PlainRun(run) && ValidRun(Init(callers), run) && Run(Init(callers), run) == s;
    RunReadable(Init(callers), run);
  }

  lemma ReadableParses(s: System, line: Line)
    requires Reachable(s) && AllReadable(s) && s.counter < LIMIT && line in s.written
    ensures ParseSeq(line.text) == Some(line.number)
  {
    WrittenDistinct(s);
    var i :| 0 <= i < |s.written| && s.written[i] == line;
    assert 1 <= s.written[i].number <= s.counter;
    var timestamp, content :| line.text == EntryText(timestamp, line.number, content) && FindSeq(timestamp) == None;
    EntryRoundTrip(timestamp, line.number, content);
  }

  lemma {:induction false} NumbersOfDelivery(s: System, picks: seq<nat>)
    requires Reachable(s) && AllReadable(s) && s.counter < LIMIT
    requires forall k | 0 <= k < |picks| :: picks[k] < |s.written|
    ensures Numbers(Messages(s, picks)) == Delivered(s, picks)
    decreases |picks|
  {
    if picks != [] {
      var n := |picks| - 1;
      ReadableParses(s, s.written[picks[n]]);
      hide Reachable, AllReadable, ParseSeq;
      NumbersOfDelivery(s, picks[..n]);
      DeliverySnoc(s, picks);
      NumbersNext(Messages(s, picks), n);
      assert Messages(s, picks)[..n + 1] == Messages(s, picks);
    }
  }

  lemma DeliverySnoc(s: System, picks: seq<nat>)
    requires picks != [] && forall k | 0 <= k < |picks| :: picks[k] < |s.written|
    ensures var n := |picks| - 1;
      && Messages(s, picks)[..n] == Messages(s, picks[..n])
      && Messages(s, picks)[n] == s.written[picks[n]].text
      && Delivered(s, picks) == Delivered(s, picks[..n]) + [s.written[picks[n]].number]
  {
  }

  /**
    End to end: for any interleaving of callers whose timestamps do not read as sequence numbers,
    and any lossy, reordered delivery without repetitions of what they wrote, the check passes
    exactly when the delivered numbers are contiguous.
   */
  lemma DeliveryCheck(s: System, picks: seq<nat>)
    requires PlainlyReachable(s) && s.counter < LIMIT
    requires Delivery(s, picks) && picks != []
    ensures Numbers(Messages(s, picks)) == Delivered(s, picks) != []
    ensures Verdict(Numbers(Messages(s, picks))) == None <==> Contiguous(Delivered(s, picks))
  {
    PlainReadable(s);
    NumbersOfDelivery(s, picks);
    WrittenDistinct(s);
    var numbers := Delivered(s, picks);
    forall i, j | 0 <= i < j < |numbers| ensures numbers[i] != numbers[j] {
      assert picks[i] != picks[j];
      assert NumbersOf(s.written)[picks[i]] != NumbersOf(s.written)[picks[j]];
    }
    PassesIffContiguous(numbers);
  }
}
