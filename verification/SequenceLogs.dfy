/** Sequence-numbered log entries: how an entry is printed and how its number is read back. */
module SequenceLogs {
  import opened Common

  // ----- printing and parsing one entry -----

  predicate IsDigit(c: char) {
    '0' <= c <= '9'
  }

  predicate AllDigits(s: string) {
    forall i | 0 <= i < |s| :: IsDigit(s[i])
  }

  /** `%d` of an unsigned number. */
  function Decimal(n: nat): string {
    if n < 10 then ['0' + n as char] else Decimal(n / 10) + ['0' + (n % 10) as char]
  }

  function Value(digits: string): nat
    requires AllDigits(digits)
  {
    if digits == "" then 0
    else 10 * Value(digits[..|digits| - 1]) + (digits[|digits| - 1] - '0') as nat
  }

  lemma {:induction false} ValueOfDecimal(n: nat)
    ensures Decimal(n) != "" && AllDigits(Decimal(n)) && Value(Decimal(n)) == n
  {
    if n >= 10 {
      ValueOfDecimal(n / 10);
      assert Decimal(n)[..|Decimal(n)| - 1] == Decimal(n / 10);
    }
  }

  /** `generateEntry`'s template: timestamp, number and random filler. */
  function EntryText(timestamp: string, n: nat, content: string): string {
    timestamp + (" " + ("seq=" + (Decimal(n) + (" " + content + "\n"))))
  }

  /** The longest run of digits at the start. */
  function DigitRun(s: string): (r: string)
    ensures AllDigits(r)
  {
    if s == "" || !IsDigit(s[0]) then "" else [s[0]] + DigitRun(s[1..])
  }

  predicate Matches(s: string) {
    "seq=" <= s && |s| > 4 && IsDigit(s[4])
  }

  /** The leftmost match of `seq=(\d+)`, its digits. */
  function FindSeq(s: string): (r: Option<string>)
    ensures r.Some? ==> AllDigits(r.value)
  {
    if s == "" then None else if Matches(s) then Some(DigitRun(s[4..])) else FindSeq(s[1..])
  }

  /** The text `seq=` and a digit stand at this place. */
  ghost predicate NumberAt(s: string, i: nat) {
    i + 4 < |s| && s[i..i + 4] == "seq=" && '0' <= s[i + 4] <= '9'
  }

  ghost predicate NoNumberBefore(s: string, n: nat) {
    forall i: nat | i < n :: !NumberAt(s, i)
  }

  /** The leftmost match: all digits after the first `seq=` that has any. */
  ghost predicate LeftmostMatch(s: string, before: string, digits: string, after: string) {
    && s == before + "seq=" + digits + after
    && digits != "" && AllDigits(digits) && (after == "" || !IsDigit(after[0]))
    && NoNumberBefore(s, |before|)
  }

  lemma {:induction false} DigitRunMeans(s: string)
    ensures DigitRun(s) <= s && (|DigitRun(s)| < |s| ==> !IsDigit(s[|DigitRun(s)|]))
  {
    if s != "" && IsDigit(s[0]) {
      DigitRunMeans(s[1..]);
    }
  }

  lemma NumberHere(s: string)
    ensures Matches(s) <==> NumberAt(s, 0)
  {
  }

  lemma NumberFurther(s: string, i: nat)
    requires s != ""
    ensures NumberAt(s, i + 1) <==> NumberAt(s[1..], i)
  {
    if i + 5 < |s| {
      assert s[1..][i..i + 4] == s[i + 1..i + 5];
    }
  }

  lemma NoneFurther(s: string, n: nat)
    requires s != "" && !Matches(s)
    ensures NoNumberBefore(s, n + 1) <==> NoNumberBefore(s[1..], n)
  {
    NumberHere(s);
    hide NumberAt, Matches;
    forall i: nat ensures NumberAt(s, i + 1) <==> NumberAt(s[1..], i) {
      NumberFurther(s, i);
    }
    if NoNumberBefore(s, n + 1) {
      forall i: nat | i < n ensures !NumberAt(s[1..], i) {
        assert !NumberAt(s, i + 1);
      }
    }
    if NoNumberBefore(s[1..], n) {
      forall i: nat | i < n + 1 ensures !NumberAt(s, i) {
        if i > 0 {
          assert !NumberAt(s[1..], i - 1) && NumberAt(s, (i - 1) + 1) == NumberAt(s, i);
        }
      }
    }
  }

  lemma MatchFirst(s: string) returns (after: string)
    requires Matches(s)
    ensures FindSeq(s).Some? && LeftmostMatch(s, "", FindSeq(s).value, after)
  {
    var rest := s[4..];
    DigitRunMeans(rest);
    assert rest[0] == s[4];
    var digits := DigitRun(rest);
    after := rest[|digits|..];
    assert rest == digits + after;
    assert s == "" + "seq=" + digits + after;
  }

  lemma MatchFurther(s: string, before: string, digits: string, after: string)
    requires s != "" && !Matches(s) && LeftmostMatch(s[1..], before, digits, after)
    ensures LeftmostMatch(s, [s[0]] + before, digits, after)
  {
    NoneFurther(s, |before|);
    hide Matches, NoNumberBefore;
    assert s == [s[0]] + s[1..] && s == [s[0]] + before + "seq=" + digits + after;
  }

  /** The search by its text: it finds the leftmost match, and nothing exactly when there is no `seq=` before a digit. */
  lemma {:induction false} FindSeqMeans(s: string)
    ensures FindSeq(s).Some? ==> exists before, after :: LeftmostMatch(s, before, FindSeq(s).value, after)
    ensures FindSeq(s).None? <==> NoNumberBefore(s, |s|)
  {
    if s != "" {
      NumberHere(s);
      if Matches(s) {
        var after := MatchFirst(s);
        assert !NoNumberBefore(s, |s|);
      } else {
        assert FindSeq(s) == FindSeq(s[1..]);
        hide *;
        FindSeqMeans(s[1..]);
        NoneFurther(s, |s| - 1);
        if FindSeq(s).Some? {
          var before, after :| LeftmostMatch(s[1..], before, FindSeq(s).value, after);
          MatchFurther(s, before, FindSeq(s).value, after);
        }
      }
    }
  }

  /** A number is taken when the digits of the match stay below 2 to the power of 64. */
  lemma ParseSeqMeans(message: string, n: nat)
    ensures ParseSeq(message) == Some(n) <==>
      FindSeq(message).Some? && Value(FindSeq(message).value) == n && n < 18446744073709551616
  {
  }

  const LIMIT := 0x1_0000_0000_0000_0000

  /** The number of a message; nothing if there is no match or the digits do not fit 64 bits. */
  function ParseSeq(message: string): Option<nat> {
    match FindSeq(message)
    case None => None
    case Some(digits) => if Value(digits) < LIMIT then Some(Value(digits)) else None
  }

  lemma {:induction false} DigitRunStops(digits: string, rest: string)
    requires AllDigits(digits) && (rest == "" || !IsDigit(rest[0]))
    ensures DigitRun(digits + rest) == digits
  {
    if digits == "" {
      assert digits + rest == rest;
    } else {
      assert (digits + rest)[1..] == digits[1..] + rest;
      DigitRunStops(digits[1..], rest);
      assert [digits[0]] + digits[1..] == digits;
    }
  }

  lemma {:induction false} DigitRunBeforeBlank(s: string, rest: string)
    requires rest != "" && rest[0] == ' '
    ensures DigitRun(s + rest) == DigitRun(s)
  {
    if s == "" {
      assert s + rest == rest;
    } else {
      assert (s + rest)[1..] == s[1..] + rest;
      DigitRunBeforeBlank(s[1..], rest);
    }
  }

  /** No match straddles a blank: what stands before it is searched first and on its own. */
  lemma {:induction false} FindAcrossBlank(s: string, rest: string)
    requires rest != "" && rest[0] == ' '
    ensures FindSeq(s + rest) == if FindSeq(s).Some? then FindSeq(s) else FindSeq(rest)
  {
    var all := s + rest;
    if s == "" {
      assert all == rest;
    } else {
      assert all[1..] == s[1..] + rest;
      assert Matches(all) <==> Matches(s) by {
        MatchBeforeBlank(s, rest);
      }
      if Matches(s) {
        assert all[4..] == s[4..] + rest;
        DigitRunBeforeBlank(s[4..], rest);
      } else {
        FindAcrossBlank(s[1..], rest);
      }
    }
  }

  lemma MatchBeforeBlank(s: string, rest: string)
    requires rest != "" && rest[0] == ' '
    ensures Matches(s + rest) <==> Matches(s)
  {
    assert (s + rest)[|s|] == ' ';
  }

  lemma FindPrinted(n: nat, tail: string)
    requires tail != "" && tail[0] == ' '
    ensures FindSeq("seq=" + (Decimal(n) + tail)) == Some(Decimal(n))
  {
    ValueOfDecimal(n);
    var s := "seq=" + (Decimal(n) + tail);
    assert s[4..] == Decimal(n) + tail;
    assert s[4] == Decimal(n)[0] && IsDigit(Decimal(n)[0]);
    DigitRunStops(Decimal(n), tail);
  }

  function Pow10(n: nat): nat {
    if n == 0 then 1 else 10 * Pow10(n - 1)
  }

  /** The text is a decimal number as it is printed: digits without a zero in front, with this value. */
  ghost predicate Prints(digits: string, n: nat) {
    && digits != "" && AllDigits(digits) && Value(digits) == n
    && (|digits| > 1 ==> digits[0] != '0')
    && n < Pow10(|digits|) && (|digits| > 1 ==> Pow10(|digits| - 1) <= n)
  }

  lemma {:induction false} DecimalPrints(n: nat)
    ensures Prints(Decimal(n), n)
  {
    ValueOfDecimal(n);
    if n < 10 {
      assert Pow10(1) == 10 * Pow10(0);
    } else {
      DecimalPrints(n / 10);
      var front := Decimal(n / 10);
      assert Decimal(n)[0] == front[0];
      assert Pow10(|front| + 1) == 10 * Pow10(|front|);
      if |front| > 1 {
        assert Pow10(|front|) == 10 * Pow10(|front| - 1);
      } else {
        assert Pow10(0) == 1 && Pow10(1) == 10;
      }
    }
  }

  /** An entry's text: the timestamp, the number as it is printed, the content, a line break; nothing else. */
  ghost predicate LaidOut(text: string, timestamp: string, n: nat, content: string) {
    exists digits :: Prints(digits, n) && text == timestamp + " seq=" + digits + " " + content + "\n"
  }

  lemma EntryLaidOut(timestamp: string, n: nat, content: string)
    ensures LaidOut(EntryText(timestamp, n, content), timestamp, n, content)
  {
    DecimalPrints(n);
    var d := Decimal(n);
    hide Prints, Decimal;
    assert " seq=" == " " + "seq=";
    assert timestamp + (" " + ("seq=" + (d + (" " + content + "\n")))) == timestamp + (" " + "seq=") + d + " " + content + "\n";
  }

  /** Timestamp and content stand in the text as they are, and its length is theirs, that of the number, and seven. */
  lemma LayoutMeans(text: string, timestamp: string, n: nat, content: string)
    requires LaidOut(text, timestamp, n, content)
    ensures timestamp + " seq=" <= text
    ensures exists digits :: Prints(digits, n) && |text| == |timestamp| + |content| + 7 + |digits|
    ensures |text| > |content| && text[|text| - 1 - |content|..|text| - 1] == content && text[|text| - 1] == '\n'
  {
    var digits :| Prints(digits, n) && text == timestamp + " seq=" + digits + " " + content + "\n";
    hide Prints;
    var front := timestamp + " seq=" + digits + " ";
    assert text == front + content + "\n";
    assert front == (timestamp + " seq=") + (digits + " ");
  }

  /** A printed entry parses back to its number exactly when its timestamp reads as no number, or by chance as that one. */
  lemma EntryRoundTrip(timestamp: string, n: nat, content: string)
    requires n < LIMIT
    ensures ParseSeq(EntryText(timestamp, n, content)) == Some(n) <==> FindSeq(timestamp) == None || ParseSeq(timestamp) == Some(n)
  {
    var tail := " " + content + "\n";
    var printed := "seq=" + (Decimal(n) + tail);
    var rest := " " + printed;
    FindAcrossBlank(timestamp, rest);
    assert rest[1..] == printed && !Matches(rest);
    FindPrinted(n, tail);
    ValueOfDecimal(n);
  }
}
