/** `AssertNoMissingLogs`: collects the numbers of a delivery, sorts them and reports the gaps. */
module GapCheck {
  import opened Common
  import opened Sorting
  import opened SequenceLogs

  predicate LeNat(a: nat, b: nat) {
    a <= b
  }

  lemma LeNatOrder()
    ensures LinearOrder(LeNat)
  {
  }

  /** The numbers from `a` up to but excluding `b`. */
  function Range(a: nat, b: nat): seq<nat>
    decreases b - a
  {
    if a < b then [a] + Range(a + 1, b) else []
  }

  lemma {:induction false} RangeMembers(a: nat, b: nat)
    ensures forall m :: m in Range(a, b) <==> a <= m < b
    ensures forall i, j | 0 <= i < j < |Range(a, b)| :: Range(a, b)[i] < Range(a, b)[j]
    ensures a <= b ==> |Range(a, b)| == b - a
    decreases b - a
  {
    if a < b {
      RangeMembers(a + 1, b);
      var rest := Range(a + 1, b);
      forall m ensures m in Range(a, b) <==> a <= m < b {
        assert m in rest <==> a + 1 <= m < b;
      }
      forall i, j | 0 <= i < j < |Range(a, b)| ensures Range(a, b)[i] < Range(a, b)[j] {
        assert rest[j - 1] in rest;
      }
    }
  }

  lemma {:induction false} RangeSnoc(a: nat, b: nat)
    requires a <= b
    ensures Range(a, b + 1) == Range(a, b) + [b]
    decreases b - a
  {
    if a < b {
      RangeSnoc(a + 1, b);
    } else {
      assert Range(a + 1, b + 1) == [];
    }
  }

  // ----- the gap loop -----

  /** What `current` is after handling the numbers of `s`. */
  function After(current: nat, s: seq<nat>): nat {
    if s == [] then current
    else
      var before := After(current, s[..|s| - 1]);
      (if before < s[|s| - 1] then s[|s| - 1] else before) + 1
  }

  /** What is reported missing after handling the numbers of `s`. */
  function Gaps(current: nat, s: seq<nat>): seq<nat> {
    if s == [] then []
    else Gaps(current, s[..|s| - 1]) + Range(After(current, s[..|s| - 1]), s[|s| - 1])
  }

  method FindGaps(s: seq<nat>) returns (missing: seq<nat>)
    requires s != []
    ensures missing == Gaps(s[0], s)
  {
    missing := [];
    var current := s[0];
    for i := 0 to |s|
      invariant current == After(s[0], s[..i])
      invariant missing == Gaps(s[0], s[..i])
    {
      assert s[..i + 1][..i] == s[..i];
      ghost var from, found := current, missing;
      while current < s[i]
        invariant from <= current
        invariant current <= s[i] || current == from
        invariant missing == found + Range(from, current)
      {
        RangeSnoc(from, current);
        missing := missing + [current];
        current := current + 1;
      }
      if from >= s[i] {
        assert Range(from, s[i]) == [];
      }
      current := current + 1;
    }
    assert s[..|s|] == s;
  }

  ghost predicate Ascending(s: seq<nat>) {
    Sorted(s, LeNat)
  }

  lemma AscendingLast(front: seq<nat>, last: nat)
    requires front != [] && Ascending(front + [last])
    ensures Ascending(front) && front[|front| - 1] <= last
    ensures forall x | x in front :: x <= front[|front| - 1]
  {
    var s, n := front + [last], |front| - 1;
    forall i, j | 0 <= i < j < |front| ensures LeNat(front[i], front[j]) {
      assert LeNat(s[i], s[j]);
    }
    assert LeNat(s[n], s[n + 1]);
    forall x | x in front ensures x <= front[n] {
      var k :| 0 <= k < |front| && front[k] == x;
      assert k < n ==> LeNat(front[k], front[n]);
    }
  }

  ghost predicate Increasing(s: seq<nat>) {
    forall i, j | 0 <= i < j < |s| :: s[i] < s[j]
  }

  /** The numbers between two numbers that are not among these. */
  ghost predicate AllBetween(found: seq<nat>, lo: nat, hi: nat, s: seq<nat>) {
    forall m | m in found :: lo < m < hi && m !in s
  }

  /** A range added beyond what was reported. */
  lemma ReportGrows(found: seq<nat>, first: nat, front: seq<nat>, at: nat, last: nat)
    requires front != [] && (forall x | x in front :: first <= x <= front[|front| - 1]) && front[|front| - 1] <= last
    requires Increasing(found) && AllBetween(found, first, front[|front| - 1], front) && front[|front| - 1] < at
    ensures Increasing(found + Range(at, last)) && AllBetween(found + Range(at, last), first, last, front + [last])
  {
    RangeMembers(at, last);
    var range := Range(at, last);
    hide Range;
    assert front[|front| - 1] in front;
    forall i, j | 0 <= i < j < |found + range| ensures (found + range)[i] < (found + range)[j] {
      if i < |found| <= j {
        assert found[i] in found && range[j - |found|] in range;
      }
    }
  }

  /**
    The accounting of the loop: each step of `current` was either a number handled or a number
    reported, and `current` has passed every number handled. What is reported is increasing and
    lies between the first number and `current`.
   */
  lemma {:induction false} GapInvariant(s: seq<nat>)
    requires s != [] && Ascending(s)
    ensures After(s[0], s) == s[0] + |s| + |Gaps(s[0], s)|
    ensures s[|s| - 1] < After(s[0], s)
    ensures AllBetween(Gaps(s[0], s), s[0], s[|s| - 1], s)
    ensures Increasing(Gaps(s[0], s))
    decreases |s|
  {
    hide *;
    var n := |s| - 1;
    var front, last := s[..n], s[n];
    assert s == front + [last];
    if front == [] {
      OneNumber(last);
    } else {
      AscendingLast(front, last);
      AscendingFirst(front);
      GapInvariant(front);
      var at := After(s[0], front);
      GapsSnoc(s[0], front, last);
      RangeMembers(at, last);
      ReportGrows(Gaps(s[0], front), s[0], front, at, last);
    }
  }

  lemma OneNumber(x: nat)
    ensures After(x, [x]) == x + 1 && Gaps(x, [x]) == []
    ensures AllBetween(Gaps(x, [x]), x, x, [x]) && Increasing(Gaps(x, [x]))
  {
    assert [x][..0] == [] && Range(x, x) == [];
  }

  /** One more number: what `current` becomes and what is reported. */
  lemma GapsSnoc(current: nat, front: seq<nat>, last: nat)
    ensures var at := After(current, front);
      && Gaps(current, front + [last]) == Gaps(current, front) + Range(at, last)
      && After(current, front + [last]) == (if at < last then last else at) + 1
      && (at >= last ==> Range(at, last) == [])
  {
    assert (front + [last])[..|front|] == front;
  }

  lemma AscendingFirst(s: seq<nat>)
    requires s != [] && Ascending(s)
    ensures forall x | x in s :: s[0] <= x
  {
    forall x | x in s ensures s[0] <= x {
      var k :| 0 <= k < |s| && s[k] == x;
      assert k > 0 ==> LeNat(s[0], s[k]);
    }
  }

  /** Without repetitions nothing absent is left out of the report. */
  lemma {:induction false} GapsComplete(s: seq<nat>, m: nat)
    requires s != [] && Ascending(s) && NoDup(s)
    ensures After(s[0], s) == s[|s| - 1] + 1
    ensures s[0] < m < s[|s| - 1] && m !in s ==> m in Gaps(s[0], s)
    decreases |s|
  {
    var n := |s| - 1;
    var front, last := s[..n], s[n];
    assert s == front + [last];
    if front == [] {
      assert After(s[0], front) == s[0];
    } else {
      assert front[n - 1] == s[n - 1] < last;
      GapsComplete(front, m);
      RangeMembers(After(s[0], front), last);
    }
  }

  /** Some number is further from the first than the numbers before it account for. */
  ghost predicate Ahead(s: seq<nat>) {
    exists i :: 0 <= i < |s| && s[i] > s[0] + i
  }

  lemma AheadSnoc(front: seq<nat>, last: nat)
    requires front != []
    ensures Ahead(front + [last]) <==> Ahead(front) || last > front[0] + |front|
  {
    var s := front + [last];
    if Ahead(front) {
      var i :| 0 <= i < |front| && front[i] > front[0] + i;
      assert s[i] > s[0] + i;
    }
    if Ahead(s) {
      var i :| 0 <= i < |s| && s[i] > s[0] + i;
      assert i < |front| ==> front[i] > front[0] + i;
    }
    if last > front[0] + |front| {
      assert s[|front|] > s[0] + |front|;
    }
  }

  /** Something is reported exactly when some number is ahead. */
  lemma {:induction false} SomeGap(s: seq<nat>)
    requires s != [] && Ascending(s)
    ensures Gaps(s[0], s) != [] <==> Ahead(s)
    decreases |s|
  {
    var n := |s| - 1;
    var front, last := s[..n], s[n];
    if front == [] {
      assert Gaps(s[0], front) == [] && After(s[0], front) == s[0] == last;
      assert Range(last, last) == [];
    } else {
      assert s == front + [last];
      AscendingLast(front, last);
      GapsSnoc(s[0], front, last);
      RangeMembers(After(s[0], front), last);
      AheadSnoc(front, last);
      assert Range(After(s[0], front), last) != [] <==> After(s[0], front) < last;
      hide *;
      SomeGap(front);
      GapInvariant(front);
    }
  }

  // ----- the verdict -----

  /** As many numbers as the span from the first to the last has places. */
  predicate SpanFilled(s: seq<nat>)
    requires s != []
  {
    |s| + s[0] == s[|s| - 1] + 1
  }

  /** The check on the numbers of a delivery: nothing, or the list of missing numbers. */
  function Verdict(numbers: seq<nat>): Option<seq<nat>>
    requires numbers != []
  {
    var s := Sort(numbers, LeNat);
    if s == [] || SpanFilled(s) || Gaps(s[0], s) == [] then None else Some(Gaps(s[0], s))
  }

  /** The numbers of the messages that carry one. */
  function Numbers(messages: seq<string>): seq<nat> {
    if messages == [] then []
    else
      var before := Numbers(messages[..|messages| - 1]);
      match ParseSeq(messages[|messages| - 1])
      case None => before
      case Some(n) => before + [n]
  }

  lemma SortedNumbers(numbers: seq<nat>) returns (s: seq<nat>)
    requires numbers != []
    ensures s == Sort(numbers, LeNat) && s != [] && Ascending(s) && |s| == |numbers|
    ensures forall x :: x in s <==> x in numbers
    ensures forall x | x in numbers :: s[0] <= x <= s[|s| - 1]
    ensures NoDup(numbers) ==> NoDup(s)
  {
    LeNatOrder();
    hide Sort, LinearOrder;
    SortSorts(numbers, LeNat);
    s := Sort(numbers, LeNat);
    SameMembers(s, numbers);
    assert Elems(s) == Elems(numbers);
    AscendingEnds(s);
    hide Ascending, NoDup, Sorted, Elems;
    DistinctCount(s);
    DistinctCount(numbers);
  }

  lemma AscendingEnds(s: seq<nat>)
    requires s != [] && Ascending(s)
    ensures forall x | x in s :: s[0] <= x <= s[|s| - 1]
  {
    assert s == s[..|s| - 1] + [s[|s| - 1]];
    AscendingFirst(s);
    if |s| > 1 {
      AscendingLast(s[..|s| - 1], s[|s| - 1]);
    }
  }

  /** One more message adds its number, if it carries one. */
  lemma NumbersNext(messages: seq<string>, i: nat)
    requires i < |messages|
    ensures Numbers(messages[..i + 1]) == Numbers(messages[..i]) + if ParseSeq(messages[i]).Some? then [ParseSeq(messages[i]).value] else []
  {
    assert messages[..i + 1][..i] == messages[..i];
    hide ParseSeq;
    assert Numbers(messages[..i]) + [] == Numbers(messages[..i]);
  }

  /** The verdict in terms of the sorted numbers. */
  lemma VerdictIs(numbers: seq<nat>)
    requires numbers != []
    ensures var s := Sort(numbers, LeNat);
      && s != [] && s[0] <= s[|s| - 1]
      && Verdict(numbers) == if SpanFilled(s) || Gaps(s[0], s) == [] then None else Some(Gaps(s[0], s))
  {
    var s := SortedNumbers(numbers);
    assert s[0] in numbers;
  }

  /** The code indexes the first number, so at least one message must carry one. */
  method AssertNoMissingLogs(messages: seq<string>) returns (missing: Option<seq<nat>>)
    requires Numbers(messages) != []
    ensures missing == Verdict(Numbers(messages))
  {
    VerdictIs(Numbers(messages));
    assert Numbers(messages[..0]) == [] && messages[..|messages|] == messages;
    hide Numbers, ParseSeq, Verdict, Sort, Gaps, After;
    var seqNums: seq<nat> := [];
    var skipped := 0;
    for i := 0 to |messages|
      invariant seqNums == Numbers(messages[..i])
      invariant skipped + |seqNums| == i
    {
      NumbersNext(messages, i);
      match ParseSeq(messages[i]) {
        case None =>
          skipped := skipped + 1;
          continue;
        case Some(n) =>
          seqNums := seqNums + [n];
      }
    }
    seqNums := Sort(seqNums, LeNat);
    var gotCount, wantCount := |seqNums|, seqNums[|seqNums| - 1] - seqNums[0] + 1;
    if gotCount != wantCount {
      var gaps := FindGaps(seqNums);
      if |gaps| > 0 {
        return Some(gaps);
      }
    }
    missing := None;
  }

  /** Every number between two delivered ones is delivered. */
  ghost predicate Contiguous(numbers: seq<nat>) {
    forall lo, m, hi | lo in numbers && hi in numbers && lo <= m <= hi :: m in numbers
  }

  /** The report is sound on every delivery: increasing, and each number absent though a smaller and a larger one arrived. */
  lemma ReportSound(numbers: seq<nat>)
    requires numbers != [] && Verdict(numbers).Some?
    ensures var missing := Verdict(numbers).value;
      && missing != []
      && Increasing(missing)
      && (forall m | m in missing :: m !in numbers && exists lo, hi :: lo in numbers && hi in numbers && lo < m < hi)
  {
    var s := SortedNumbers(numbers);
    GapInvariant(s);
    assert s[0] in numbers && s[|s| - 1] in numbers;
  }

  /** The number is below the one in place `i`, and everything before that place was used up before it. */
  ghost predicate SkippedAt(s: seq<nat>, i: nat, m: nat) {
    i < |s| && m < s[i] && forall j | 0 <= j < i :: s[j] + (i - j) <= m
  }

  /** Each number handled moves `current` past it by as many places as come after it. */
  lemma {:induction false} AfterMeans(s: seq<nat>, i: nat, m: nat)
    requires 1 <= i <= |s|
    ensures After(s[0], s[..i]) <= m <==> forall j | 0 <= j < i :: s[j] + (i - j) <= m
  {
    assert s[..i][..i - 1] == s[..i - 1];
    if i == 1 {
      assert s[..0] == [];
    } else if m == 0 {
      assert s[0] + (i - 0) > m;
    } else {
      AfterMeans(s, i - 1, m - 1);
      hide After;
      forall j | 0 <= j < i - 1 ensures s[j] + (i - j) <= m <==> s[j] + (i - 1 - j) <= m - 1 {}
      assert s[i - 1] + (i - (i - 1)) <= m <==> s[i - 1] <= m - 1;
    }
  }

  lemma {:induction false} GapsMean(s: seq<nat>, n: nat, m: nat)
    requires 1 <= n <= |s|
    ensures m in Gaps(s[0], s[..n]) <==> exists i: nat :: 1 <= i < n && SkippedAt(s, i, m)
  {
    assert s[..n][..n - 1] == s[..n - 1];
    if n == 1 {
      assert s[..0] == [] && Range(s[0], s[0]) == [];
    } else {
      RangeMembers(After(s[0], s[..n - 1]), s[n - 1]);
      AfterMeans(s, n - 1, m);
      assert SkippedAt(s, n - 1, m) <==> m in Range(After(s[0], s[..n - 1]), s[n - 1]);
      hide Range, After, SkippedAt;
      GapsMean(s, n - 1, m);
    }
  }

  /**
    The exact report on every delivery: when the check fails it lists just the numbers that the
    sorted numbers skip. A number is skipped in some place if it is below the number there, and each
    number before that place, counted up by one for every place since, does not exceed it.
   */
  lemma ReportExact(numbers: seq<nat>, m: nat)
    requires numbers != [] && Verdict(numbers).Some?
    ensures m in Verdict(numbers).value <==> exists i: nat :: 1 <= i && SkippedAt(Sort(numbers, LeNat), i, m)
  {
    var s := SortedNumbers(numbers);
    VerdictIs(numbers);
    assert s[..|s|] == s;
    GapsMean(s, |s|, m);
  }

  /** Without repetitions the report lists every absent number between the first and the last. */
  lemma ReportComplete(numbers: seq<nat>, lo: nat, m: nat, hi: nat)
    requires numbers != [] && NoDup(numbers)
    requires lo in numbers && hi in numbers && lo < m < hi && m !in numbers
    ensures Verdict(numbers).Some? && m in Verdict(numbers).value
  {
    var s := Surrounds(numbers, lo, m, hi);
    VerdictIs(numbers);
    hide Verdict, Sort, Gaps, After, Ascending, AllBetween, Increasing, NoDup;
    GapsComplete(s, m);
    GapInvariant(s);
  }

  /** An absent number between two delivered ones lies inside the sorted numbers. */
  lemma Surrounds(numbers: seq<nat>, lo: nat, m: nat, hi: nat) returns (s: seq<nat>)
    requires NoDup(numbers) && lo in numbers && hi in numbers && lo < m < hi && m !in numbers
    ensures s == Sort(numbers, LeNat) && s != [] && Ascending(s) && NoDup(s)
    ensures s[0] < m < s[|s| - 1] && m !in s
  {
    s := SortedNumbers(numbers);
  }

  /** A failing check has found a real gap, repetitions or not: contiguous numbers always pass. */
  lemma FailureMeansGap(numbers: seq<nat>)
    requires numbers != [] && Verdict(numbers).Some?
    ensures !Contiguous(numbers)
  {
    ReportSound(numbers);
    var m := Verdict(numbers).value[0];
    assert m in Verdict(numbers).value;
  }

  /** Without repetitions the check passes exactly on contiguous numbers. */
  lemma PassesIffContiguous(numbers: seq<nat>)
    requires numbers != [] && NoDup(numbers)
    ensures Verdict(numbers) == None <==> Contiguous(numbers)
  {
    if Verdict(numbers).Some? {
      FailureMeansGap(numbers);
    } else {
      forall lo, m, hi | lo in numbers && hi in numbers && lo <= m <= hi ensures m in numbers {
        if m !in numbers {
          ReportComplete(numbers, lo, m, hi);
        }
      }
    }
  }

  /**
    On any delivery, repetitions included, the check fails exactly when the number of entries is
    not the width of the span and some number is ahead of its place.
   */
  lemma FailsIff(numbers: seq<nat>)
    requires numbers != []
    ensures var s := Sort(numbers, LeNat);
      s != [] && (Verdict(numbers).Some? <==> !SpanFilled(s) && Ahead(s))
  {
    var s := SortedNumbers(numbers);
    SomeGap(s);
  }

  /** A repetition can hide a gap: 2 is missing here and the check passes. */
  lemma RepetitionHidesGap()
    ensures var numbers: seq<nat> := [1, 1, 3]; !Contiguous(numbers) && Verdict(numbers) == None
  {
    var one, two, all: seq<nat> := [3], [1, 3], [1, 1, 3];
    assert one[1..] == [] && two[1..] == one && all[1..] == two;
    assert Sort<nat>(one, LeNat) == one;
    assert Sort<nat>(two, LeNat) == two;
    assert Sort<nat>(all, LeNat) == all;
    assert 1 in all && 3 in all && 2 !in all;
  }
}
