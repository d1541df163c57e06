/**
  PromQL label selectors as text: the two value escapers, how a selector is printed, and a
  reader for exactly the selectors that are printed.
 */
module PromQL {
  import opened Common

  // ----- escaping label values -----

  /** `strings.ReplaceAll` for a one-character pattern. */
  function ReplaceAll(s: string, pattern: char, replacement: string): string {
    if s == "" then "" else (if s[0] == pattern then replacement else [s[0]]) + ReplaceAll(s[1..], pattern, replacement)
  }

  /** `EscapePromQLValue`: backslashes first, quotes in a second pass. */
  function EscapePromQLValue(value: string): string {
    ReplaceAll(ReplaceAll(value, '\\', "\\\\"), '\"', "\\\"")
  }

  /** `promqlEscaper`: a replacer with both patterns, one pass. */
  function Escape(s: string): string {
    if s == "" then "" else
      (if s[0] == '\\' then "\\\\" else if s[0] == '\"' then "\\\"" else [s[0]]) + Escape(s[1..])
  }

  /** Drops the backslash of each escape pair. */
  function Unescape(s: string): string {
    if s == "" then ""
    else if s[0] == '\\' && |s| > 1 then [s[1]] + Unescape(s[2..])
    else [s[0]] + Unescape(s[1..])
  }

  lemma {:induction false} ReplaceAllConcat(a: string, b: string, pattern: char, replacement: string)
    ensures ReplaceAll(a + b, pattern, replacement) == ReplaceAll(a, pattern, replacement) + ReplaceAll(b, pattern, replacement)
  {
    if a == "" {
      assert a + b == b;
    } else {
      assert (a + b)[1..] == a[1..] + b;
      ReplaceAllConcat(a[1..], b, pattern, replacement);
    }
  }

  /** The two escapers agree on every string. */
  lemma {:induction false} EscapersAgree(value: string)
    ensures EscapePromQLValue(value) == Escape(value)
  {
    if value != "" {
      var tail := ReplaceAll(value[1..], '\\', "\\\\");
      var head := if value[0] == '\\' then "\\\\" else [value[0]];
      ReplaceAllConcat(head, tail, '\"', "\\\"");
      EscapersAgree(value[1..]);
      assert ReplaceAll("\\\\", '\"', "\\\"") == "\\\\" by {
        assert "\\\\"[1..] == "\\";
        assert "\\"[1..] == "";
      }
      assert [value[0]][1..] == "";
    }
  }

  lemma {:induction false} UnescapeEscape(s: string)
    ensures Unescape(Escape(s)) == s
  {
    if s != "" {
      UnescapeEscape(s[1..]);
      if s[0] == '\\' || s[0] == '\"' {
        assert Escape(s)[2..] == Escape(s[1..]);
      } else {
        assert Escape(s)[1..] == Escape(s[1..]);
      }
    }
  }

  /** Different values are never escaped to the same text. */
  lemma EscapeInjective(a: string, b: string)
    requires Escape(a) == Escape(b)
    ensures a == b
  {
    UnescapeEscape(a);
    UnescapeEscape(b);
  }

  // ----- reading a string literal -----

  /** Neither a quote nor a backslash: what may stand between quotes unescaped. */
  predicate Clean(s: string) {
    forall i | 0 <= i < |s| :: s[i] != '\"' && s[i] != '\\'
  }

  /** Reads the rest of a string literal whose opening quote is already read; gives its value and what follows. */
  function LexString(s: string): (r: Option<(string, string)>)
    ensures r.Some? ==> |r.value.1| < |s|
  {
    if s == "" then None
    else if s[0] == '\"' then Some(("", s[1..]))
    else if s[0] != '\\' then
      match LexString(s[1..])
      case None => None
      case Some((v, rest)) => Some(([s[0]] + v, rest))
    else if |s| > 1 && (s[1] == '\\' || s[1] == '\"') then
      match LexString(s[2..])
      case None => None
      case Some((v, rest)) => Some(([s[1]] + v, rest))
    else None
  }

  /** The literal of an escaped value ends at exactly the closing quote, whatever follows, and decodes to the value. */
  lemma {:induction false} LexEscaped(v: string, rest: string)
    ensures LexString(Escape(v) + "\"" + rest) == Some((v, rest))
  {
    if v == "" {
      assert (Escape(v) + "\"" + rest)[1..] == rest;
    } else {
      var c, tail := v[0], Escape(v[1..]) + "\"" + rest;
      assert v == [c] + v[1..];
      EscapeFirst(c, v[1..]);
      hide Escape;
      LexEscaped(v[1..], rest);
      if c == '\\' || c == '\"' {
        assert Escape(v) + "\"" + rest == ['\\', c] + tail;
      } else {
        assert Escape(v) + "\"" + rest == [c] + tail;
      }
      LexNext(c, tail);
    }
  }

  /** Reading one character, escaped where it has to be. */
  lemma LexNext(c: char, tail: string)
    ensures LexString((if c == '\\' || c == '\"' then ['\\', c] else [c]) + tail) ==
      match LexString(tail)
      case None => None
      case Some((v, rest)) => Some(([c] + v, rest))
  {
    if c == '\\' || c == '\"' {
      assert (['\\', c] + tail)[2..] == tail;
    } else {
      assert ([c] + tail)[1..] == tail;
    }
  }

  lemma {:induction false} EscapeClean(s: string)
    requires Clean(s)
    ensures Escape(s) == s
  {
    if s != "" {
      assert Clean(s[1..]);
      EscapeClean(s[1..]);
    }
  }

  /** A literal's text is its escaped value: there is no other way to write it. */
  lemma {:induction false} LexExact(s: string)
    requires LexString(s).Some?
    ensures var (v, rest) := LexString(s).value; s == Escape(v) + "\"" + rest
  {
    if s[0] == '\"' {
      assert s == "" + "\"" + s[1..];
    } else if s[0] != '\\' {
      LexExact(s[1..]);
      var (v, rest) := LexString(s[1..]).value;
      hide Escape, LexString;
      EscapeFirst(s[0], v);
      Prepend([s[0]], Escape(v), rest, s);
    } else {
      LexExact(s[2..]);
      var (v, rest) := LexString(s[2..]).value;
      hide Escape, LexString;
      EscapeFirst(s[1], v);
      Prepend([s[0], s[1]], Escape(v), rest, s);
    }
  }

  lemma Prepend(a: string, b: string, rest: string, s: string)
    requires |a| <= |s| && a == s[..|a|] && s[|a|..] == b + "\"" + rest
    ensures s == (a + b) + "\"" + rest
  {
    assert s == a + s[|a|..];
  }

  lemma EscapeFirst(c: char, v: string)
    ensures Escape([c] + v) == (if c == '\\' || c == '\"' then ['\\', c] else [c]) + Escape(v)
  {
    assert ([c] + v)[1..] == v;
  }

  function Backslashes(n: nat): string {
    if n == 0 then "" else "\\" + Backslashes(n - 1)
  }

  lemma {:induction false} MoreBackslashes(n: nat, s: string)
    ensures Backslashes(n) + ("\\" + s) == "\\" + (Backslashes(n) + s)
  {
    if n == 0 {
      assert "" + ("\\" + s) == "\\" + ("" + s);
    } else {
      MoreBackslashes(n - 1, s);
      var b := Backslashes(n - 1);
      assert ("\\" + b) + ("\\" + s) == "\\" + (b + ("\\" + s));
      assert ("\\" + b) + s == "\\" + (b + s);
    }
  }

  /** An unescaped text never catches up with its escaped form once that is ahead by a backslash. */
  lemma {:induction false} NeverCatchesUp(k: string, x: string, n: nat, y: string)
    requires n >= 1
    ensures k + ("\"" + x) != Backslashes(n) + (Escape(k) + ("\"" + y))
  {
    var b := Backslashes(n - 1);
    var text, other := k + ("\"" + x), Escape(k) + ("\"" + y);
    assert Backslashes(n) == "\\" + b;
    assert Backslashes(n) + other == "\\" + (b + other);
    if k != "" && k[0] == '\\' {
      var k' := k[1..];
      var rest := Escape(k') + ("\"" + y);
      assert k == "\\" + k';
      EscapeFirst('\\', k');
      hide Escape;
      assert text == "\\" + (k' + ("\"" + x));
      assert other == "\\" + ("\\" + rest);
      assert b + other == Backslashes(n + 1) + rest by {
        MoreBackslashes(n - 1, "\\" + rest);
        MoreBackslashes(n - 1, rest);
        MoreBackslashes(n, rest);
      }
      NeverCatchesUp(k', x, n + 1, y);
      hide Backslashes;
      assert text[1..] == k' + ("\"" + x) && ("\\" + (b + other))[1..] == b + other;
    } else {
      assert text[0] != '\\';
    }
  }

  /** A text that would have to be escaped is never read from its unescaped form. */
  lemma {:induction false} UnescapedMisread(k: string, x: string, y: string)
    requires k + ("\"" + x) == Escape(k) + ("\"" + y)
    ensures Clean(k)
  {
    if k != "" {
      var c, k' := k[0], k[1..];
      assert k == [c] + k';
      EscapeFirst(c, k');
      var text, other := k' + ("\"" + x), Escape(k') + ("\"" + y);
      assert k + ("\"" + x) == [c] + text;
      if c == '\\' || c == '\"' {
        assert Escape(k) + ("\"" + y) == ['\\'] + ([c] + other);
        ConsInjective('\\', text, [c] + other);
        assert ([c] + text)[0] == c && (['\\'] + ([c] + other))[0] == '\\';
        assert Backslashes(1) == "\\" + "" == "\\";
        NeverCatchesUp(k', x, 1, y);
      } else {
        assert Escape(k) + ("\"" + y) == [c] + other;
        ConsInjective(c, text, other);
        UnescapedMisread(k', x, y);
        assert forall i | 1 <= i < |k| :: k[i] == k'[i - 1];
      }
    }
  }

  /** Read from between quotes, a text is itself only if it needed no escaping. */
  lemma ReadUnescaped(k: string, x: string)
    requires LexString(k + ("\"" + x)).Some? && LexString(k + ("\"" + x)).value.0 == k
    ensures Clean(k)
  {
    LexExact(k + ("\"" + x));
    var y := LexString(k + ("\"" + x)).value.1;
    hide LexString, Escape;
    assert Escape(k) + "\"" + y == Escape(k) + ("\"" + y);
    UnescapedMisread(k, x, y);
  }

  // ----- selectors -----

  /** One label condition: `name="value"`, or `name=~"value"` when `regex`. */
  datatype Matcher = Matcher(name: string, regex: bool, value: string)

  /** A condition as printed: its name stands in quotes or bare. */
  datatype Item = Item(matcher: Matcher, quoted: bool)

  predicate NameChar(c: char) {
    c != '\"' && c != '=' && c != ',' && c != '{' && c != '}' && c != ' '
  }

  predicate BareName(s: string) {
    s != "" && forall i | 0 <= i < |s| :: NameChar(s[i])
  }

  predicate Printable(it: Item) {
    if it.quoted then Clean(it.matcher.name) else BareName(it.matcher.name)
  }

  function PrintName(name: string, quoted: bool): string {
    if quoted then "\"" + name + "\"" else name
  }

  function PrintOp(regex: bool): string {
    if regex then "=~\"" else "=\""
  }

  function PrintItem(it: Item): string {
    PrintName(it.matcher.name, it.quoted) + PrintOp(it.matcher.regex) + Escape(it.matcher.value) + "\""
  }

  /** `strings.Join`. */
  function PrintItems(items: seq<Item>): (parts: seq<string>) {
    seq(|items|, i requires 0 <= i < |items| => PrintItem(items[i]))
  }

  function Matchers(items: seq<Item>): seq<Matcher> {
    seq(|items|, i requires 0 <= i < |items| => items[i].matcher)
  }

  // ----- reading selectors -----

  /** The longest run of name characters. */
  function LexBare(s: string): (r: (string, string))
    ensures r.0 + r.1 == s
  {
    if s == "" || !NameChar(s[0]) then ("", s) else
      var (name, rest) := LexBare(s[1..]);
      ([s[0]] + name, rest)
  }

  function ReadName(s: string): (r: Option<(string, string)>)
    ensures r.Some? ==> |r.value.1| < |s|
  {
    if s != "" && s[0] == '\"' then LexString(s[1..])
    else
      var (name, rest) := LexBare(s);
      assert |name| + |rest| == |s|;
      if name == "" then None else Some((name, rest))
  }

  /** `=` or `=~`, and the opening quote of the value. */
  function ReadOp(s: string): (r: Option<(bool, string)>)
    ensures r.Some? ==> |r.value.1| < |s|
  {
    if "=~\"" <= s then Some((true, s[3..])) else if "=\"" <= s then Some((false, s[2..])) else None
  }

  function ReadMatcher(s: string): (r: Option<(Matcher, string)>)
    ensures r.Some? ==> |r.value.1| < |s|
  {
    match ReadName(s)
    case None => None
    case Some((name, afterName)) =>
      match ReadOp(afterName)
      case None => None
      case Some((regex, afterOp)) =>
        match LexString(afterOp)
        case None => None
        case Some((value, rest)) => Some((Matcher(name, regex, value), rest))
  }

  /** One or more matchers separated by a comma and an optional blank, up to the closing brace. */
  function ReadMatchers(s: string): (r: Option<(seq<Matcher>, string)>)
    ensures r.Some? ==> r.value.0 != []
    decreases |s|
  {
    match ReadMatcher(s)
    case None => None
    case Some((m, rest)) =>
      if rest == "" then None
      else if rest[0] == '}' then Some(([m], rest[1..]))
      else if rest[0] != ',' then None
      else
        match ReadMatchers(if |rest| > 1 && rest[1] == ' ' then rest[2..] else rest[1..])
        case None => None
        case Some((ms, after)) => Some(([m] + ms, after))
  }

  function ReadBraces(s: string): Option<(seq<Matcher>, string)> {
    if s == "" || s[0] != '{' then None
    else if |s| > 1 && s[1] == '}' then Some(([], s[2..]))
    else ReadMatchers(s[1..])
  }

  /** A whole selector, with or without a metric name before the brace; the name is a condition on `__name__`. */
  function ReadSelector(s: string): Option<seq<Matcher>> {
    var (name, braces) := LexBare(s);
    match ReadBraces(braces)
    case None => None
    case Some((ms, rest)) =>
      if rest != "" then None
      else Some((if name == "" then [] else [Matcher("__name__", false, name)]) + ms)
  }

  // ----- a brace where none belongs -----

  /** The text ends with this rest. */
  predicate EndsWith(text: string, rest: string) {
    |rest| <= |text| && text[|text| - |rest|..] == rest
  }

  /** A long enough end of `p + x` is an end of `p` and then `x`. */
  lemma EndSplits(p: string, x: string, rest: string) returns (q: string)
    requires EndsWith(p + x, rest) && |rest| >= |x|
    ensures rest == q + x && |q| == |rest| - |x| <= |p|
    ensures |q| < |p| || q == p
  {
    q := p[|p| - (|rest| - |x|)..];
  }

  lemma EndsTransitive(a: string, b: string, c: string)
    requires EndsWith(a, b) && EndsWith(b, c)
    ensures EndsWith(a, c)
  {
    assert a == a[..|a| - |b|] + b;
  }

  lemma ConcatEnds(a: string, b: string)
    ensures EndsWith(a + b, b)
  {
  }

  lemma LexEnds(s: string)
    requires LexString(s).Some?
    ensures EndsWith(s, LexString(s).value.1)
  {
    LexExact(s);
    ConcatEnds(Escape(LexString(s).value.0) + "\"", LexString(s).value.1);
  }

  /** A literal that is open before a brace and a quote ends at that quote at the latest. */
  lemma {:induction false} LiteralAcross(p: string, y: string)
    requires LexString(p + ("{\"" + y)).Some?
    ensures var rest := LexString(p + ("{\"" + y)).value.1; rest == y || |rest| >= |y| + 2
  {
    var x := "{\"" + y;
    var text := p + x;
    if p == "" {
      assert text == x && x[1..] == "\"" + y && x[1..][1..] == y;
    } else if p[0] == '\"' {
    } else if p[0] != '\\' {
      assert text[1..] == p[1..] + x;
      LiteralAcross(p[1..], y);
    } else {
      if |p| > 1 {
        assert text[2..] == p[2..] + x;
        LiteralAcross(p[2..], y);
      }
    }
  }

  lemma {:induction false} BareBefore(p: string, x: string)
    requires x != "" && x[0] == '{'
    ensures |LexBare(p + x).1| >= |x|
  {
    if p == "" {
      assert p + x == x;
    } else {
      assert (p + x)[1..] == p[1..] + x;
      BareBefore(p[1..], x);
    }
  }

  /** What may follow the closing quote of a name or a value. */
  predicate Continues(y: string) {
    y != "" && (y[0] == '=' || y[0] == ',' || y[0] == '}')
  }

  lemma NameAcross(p: string, y: string)
    requires ReadName(p + ("{\"" + y)).Some?
    ensures var rest := ReadName(p + ("{\"" + y)).value.1; (rest == y || |rest| >= |y| + 2) && EndsWith(p + ("{\"" + y), rest)
  {
    var x := "{\"" + y;
    var text := p + x;
    assert p == "" ==> text == x;
    if text[0] == '\"' {
      assert text[1..] == p[1..] + x;
      LiteralAcross(p[1..], y);
      LexEnds(text[1..]);
      assert text == [text[0]] + text[1..];
      ConcatEnds([text[0]], text[1..]);
      EndsTransitive(text, text[1..], LexString(text[1..]).value.1);
    } else {
      BareBefore(p, x);
      ConcatEnds(LexBare(text).0, LexBare(text).1);
    }
  }

  lemma OpAcross(p: string, y: string)
    requires ReadOp(p + ("{\"" + y)).Some?
    ensures var rest := ReadOp(p + ("{\"" + y)).value.1; |rest| >= |y| + 2 && EndsWith(p + ("{\"" + y), rest)
  {
    var text := p + ("{\"" + y);
    assert text[|p|] == '{';
  }

  /** A condition that begins before the brace ends before it, or at the quote after it. */
  lemma MatcherAcross(p: string, y: string)
    requires !Continues(y) && ReadMatcher(p + ("{\"" + y)).Some?
    ensures var rest := ReadMatcher(p + ("{\"" + y)).value.1; rest == y || (|rest| >= |y| + 2 && EndsWith(p + ("{\"" + y), rest))
  {
    var x := "{\"" + y;
    var text := p + x;
    var afterName := ReadName(text).value.1;
    NameAcross(p, y);
    assert ReadOp(y) == None;
    var q := EndSplits(p, x, afterName);
    OpAcross(q, y);
    var afterOp := ReadOp(afterName).value.1;
    var r := EndSplits(q, x, afterOp);
    LiteralAcross(r, y);
    LexEnds(afterOp);
    var rest := LexString(afterOp).value.1;
    hide LexString, ReadName, ReadOp, ReadMatcher, EndsWith;
    EndsTransitive(text, afterName, afterOp);
    EndsTransitive(text, afterOp, rest);
  }

  /** No list of conditions reaches from before a brace and a quote to the end of the text. */
  lemma {:induction false} BraceInside(p: string, y: string)
    requires !Continues(y)
    ensures var read := ReadMatchers(p + ("{\"" + y)); read.Some? ==> read.value.1 != ""
    decreases |p|
  {
    hide LexString, ReadName, ReadOp, ReadMatcher, EndsWith;
    var x := "{\"" + y;
    var text := p + x;
    if ReadMatchers(text).Some? {
      MatcherAcross(p, y);
      var rest := ReadMatcher(text).value.1;
      assert rest != y;
      var q := EndSplits(p, x, rest);
      if rest[0] == ',' {
        if |rest| > 1 && rest[1] == ' ' {
          assert rest[2..] == q[2..] + x;
          BraceInside(q[2..], y);
        } else {
          assert rest[1..] == q[1..] + x;
          BraceInside(q[1..], y);
        }
      }
    }
  }

  /** A selector that is read begins with its bare name, if it has one, as the first condition. */
  lemma ReadSelectorExact(s: string)
    requires ReadSelector(s).Some?
    ensures var (name, braces), ms := LexBare(s), ReadSelector(s).value;
      if name == "" then ReadBraces(braces) == Some((ms, "")) else ms != [] && ms[0] == Matcher("__name__", false, name)
  {
    hide LexBare, ReadBraces;
    var (name, braces) := LexBare(s);
    var read := ReadBraces(braces).value.0;
    assert [] + read == read;
  }

  // ----- what is printed reads back -----

  lemma Concat(a: string, b: string, c: string, d: string, e: string)
    ensures a + (b + (c + d + e)) == (a + b + c + d) + e
  {
  }

  lemma {:induction false} LexBareName(name: string, rest: string)
    requires forall i | 0 <= i < |name| :: NameChar(name[i])
    requires rest == "" || !NameChar(rest[0])
    ensures LexBare(name + rest) == (name, rest)
  {
    if name == "" {
      assert name + rest == rest;
    } else {
      assert (name + rest)[1..] == name[1..] + rest;
      LexBareName(name[1..], rest);
      assert [name[0]] + name[1..] == name;
    }
  }

  /** Text without quotes and backslashes needs no escaping. */
  lemma LexClean(name: string, rest: string)
    requires Clean(name)
    ensures LexString(name + "\"" + rest) == Some((name, rest))
  {
    EscapeClean(name);
    LexEscaped(name, rest);
  }

  lemma ReadQuotedName(name: string, rest: string)
    requires Clean(name)
    ensures ReadName(PrintName(name, true) + rest) == Some((name, rest))
  {
    var text := PrintName(name, true) + rest;
    LexClean(name, rest);
    assert text[1..] == name + "\"" + rest;
  }

  lemma ReadBareName(name: string, rest: string)
    requires BareName(name)
    requires rest != "" && rest[0] == '='
    ensures ReadName(name + rest) == Some((name, rest))
  {
    LexBareName(name, rest);
    assert (name + rest)[0] == name[0];
  }

  lemma ReadPrintedOp(regex: bool, rest: string)
    ensures ReadOp(PrintOp(regex) + rest) == Some((regex, rest))
  {
    var text := PrintOp(regex) + rest;
    if regex {
      assert text[3..] == rest && "=~\"" <= text;
    } else {
      assert text[2..] == rest && text[1] == '\"' && "=\"" <= text;
    }
  }

  lemma ReadPrintedItem(it: Item, rest: string)
    requires Printable(it)
    ensures ReadMatcher(PrintItem(it) + rest) == Some((it.matcher, rest))
  {
    var m := it.matcher;
    var afterOp := Escape(m.value) + "\"" + rest;
    var afterName := PrintOp(m.regex) + afterOp;
    Concat(PrintName(m.name, it.quoted), PrintOp(m.regex), Escape(m.value), "\"", rest);
    assert PrintItem(it) + rest == PrintName(m.name, it.quoted) + afterName;
    assert afterName != "" && afterName[0] == '=';
    hide PrintItem, PrintOp, Escape, LexString, ReadOp, ReadName, LexBare;
    if it.quoted {
      ReadQuotedName(m.name, afterName);
    } else {
      ReadBareName(m.name, afterName);
    }
    ReadPrintedOp(m.regex, afterOp);
    LexEscaped(m.value, rest);
  }

  /** After a condition and a separator, reading goes on with whatever follows. */
  lemma AfterComma(t: string, m: Matcher, sep: string, more: string)
    requires ReadMatcher(t) == Some((m, sep + more))
    requires sep == "," || sep == ", "
    requires more != "" && more[0] != ' '
    ensures ReadMatchers(t) ==
      match ReadMatchers(more)
      case None => None
      case Some((ms, after)) => Some(([m] + ms, after))
  {
    if sep == "," {
      assert (sep + more)[1..] == more;
    } else {
      assert (sep + more)[2..] == more;
    }
  }

  lemma ReadCons(it: Item, sep: string, more: string)
    requires Printable(it)
    requires sep == "," || sep == ", "
    requires more != "" && more[0] != ' '
    ensures ReadMatchers(PrintItem(it) + (sep + more)) ==
      match ReadMatchers(more)
      case None => None
      case Some((ms, after)) => Some(([it.matcher] + ms, after))
  {
    ReadPrintedItem(it, sep + more);
    AfterComma(PrintItem(it) + (sep + more), it.matcher, sep, more);
  }

  lemma ReadLast(it: Item, rest: string)
    requires Printable(it)
    ensures ReadMatchers(PrintItem(it) + ("}" + rest)) == Some(([it.matcher], rest))
  {
    ReadPrintedItem(it, "}" + rest);
    assert ("}" + rest)[1..] == rest;
  }

  lemma ConcatRight(a: string, b: string, c: string, d: string)
    ensures (a + b + c) + d == a + (b + (c + d))
  {
  }

  lemma JoinCons(items: seq<Item>, sep: string, tail: string)
    requires |items| > 1
    ensures Join(PrintItems(items), sep) + tail == PrintItem(items[0]) + (sep + (Join(PrintItems(items[1..]), sep) + tail))
  {
    var parts := PrintItems(items);
    assert parts[1..] == PrintItems(items[1..]) && parts[0] == PrintItem(items[0]);
    assert Join(parts, sep) == parts[0] + sep + Join(parts[1..], sep);
    hide *;
    ConcatRight(parts[0], sep, Join(parts[1..], sep), tail);
  }

  /** A printed list of conditions, with either separator in use, reads back as the same conditions in the same order. */
  lemma {:induction false} ReadPrintedItems(items: seq<Item>, sep: string, rest: string)
    requires items != [] && forall i | 0 <= i < |items| :: Printable(items[i])
    requires sep == "," || sep == ", "
    ensures ReadMatchers(Join(PrintItems(items), sep) + ("}" + rest)) == Some((Matchers(items), rest))
    decreases |items|
  {
    hide ReadMatchers, PrintItem, Printable;
    if |items| == 1 {
      ReadLast(items[0], rest);
      assert Matchers(items) == [items[0].matcher];
    } else {
      var more := Join(PrintItems(items[1..]), sep) + ("}" + rest);
      ReadPrintedItems(items[1..], sep, rest);
      NotBlankFirst(items[1..], sep, "}" + rest);
      ReadCons(items[0], sep, more);
      JoinCons(items, sep, "}" + rest);
      assert Matchers(items) == [items[0].matcher] + Matchers(items[1..]);
    }
  }

  lemma NotBlankFirst(items: seq<Item>, sep: string, rest: string)
    requires items != [] && Printable(items[0])
    ensures var text := Join(PrintItems(items), sep) + rest;
      text != "" && text[0] != ' ' && text[0] != '}'
  {
    var first := PrintItem(items[0]);
    assert first != "" && first[0] != ' ' && first[0] != '}';
    assert PrintItems(items)[0] == first;
  }

  /** A braced list of printed conditions reads back as those conditions. */
  lemma ReadBraceList(items: seq<Item>, sep: string)
    requires forall i | 0 <= i < |items| :: Printable(items[i])
    requires sep == "," || sep == ", "
    ensures ReadBraces("{" + Join(PrintItems(items), sep) + "}") == Some((Matchers(items), ""))
  {
    var body := Join(PrintItems(items), sep) + ("}" + "");
    var text := "{" + Join(PrintItems(items), sep) + "}";
    assert text[1..] == body;
    if items == [] {
      assert text == "{}";
      assert text[2..] == "" && Matchers(items) == [];
    } else {
      NotBlankFirst(items, sep, "}" + "");
      ReadPrintedItems(items, sep, "");
    }
  }

  /** So does the same list after a metric name, which becomes the condition on `__name__`. */
  lemma ReadPrinted(name: string, items: seq<Item>, sep: string)
    requires name == "" || BareName(name)
    requires forall i | 0 <= i < |items| :: Printable(items[i])
    requires sep == "," || sep == ", "
    ensures ReadSelector(name + ("{" + Join(PrintItems(items), sep) + "}")) ==
      Some((if name == "" then [] else [Matcher("__name__", false, name)]) + Matchers(items))
  {
    LexBareName(name, "{" + Join(PrintItems(items), sep) + "}");
    ReadBraceList(items, sep);
  }

  // ----- names that cannot be printed as they are -----

  /** Quotes, backslashes and blanks. */
  predicate OnlyMarks(s: string) {
    forall i | 0 <= i < |s| :: s[i] == '\\' || s[i] == '\"' || s[i] == ' '
  }

  lemma {:induction false} MarksStay(s: string)
    requires OnlyMarks(s)
    ensures OnlyMarks(Escape(s)) && |Escape(s)| >= |s|
  {
    if s != "" {
      MarksStay(s[1..]);
    }
  }

  /** A text that goes on, after a few marks, as its own escaped form is made of marks only. */
  lemma {:induction false} SelfEscaping(k: string, from: nat, n: nat, after: string, y: string)
    requires 1 <= from <= n <= |k| && OnlyMarks(k[..from])
    requires k[from..] + after == Escape(k) + y
    ensures OnlyMarks(k[..n])
    decreases n
  {
    if n > from {
      SelfEscaping(k, from, n - 1, after, y);
      var p := k[..n - 1];
      MarksStay(p);
      assert k == p + k[n - 1..];
      EscapeConcat(p, k[n - 1..]);
      assert k[n - 1] == (k[from..] + after)[n - 1 - from] == (Escape(k) + y)[n - 1 - from] == Escape(p)[n - 1 - from];
    }
  }

  lemma {:induction false} EscapeConcat(a: string, b: string)
    ensures Escape(a + b) == Escape(a) + Escape(b)
  {
    if a == "" {
      assert a + b == b;
    } else {
      assert (a + b)[1..] == a[1..] + b;
      EscapeConcat(a[1..], b);
    }
  }

  /** A bare name that begins with marks is never read as itself from behind them. */
  lemma MarksMisread(k: string, from: nat, after: string)
    requires 1 <= from <= |k| && OnlyMarks(k[..from]) && after != "" && after[0] == '='
    ensures LexString(k[from..] + after).None? || LexString(k[from..] + after).value.0 != k
  {
    hide LexString, Escape, OnlyMarks;
    var text := k[from..] + after;
    assert text[|k| - from] == after[0];
    if LexString(text).Some? && LexString(text).value.0 == k {
      LexExact(text);
      var y := "\"" + LexString(text).value.1;
      assert text == Escape(k) + y;
      SelfEscaping(k, from, |k|, after, y);
      assert k[..|k|] == k;
      MarksStay(k);
    }
  }

  lemma {:induction false} LexBareChars(s: string)
    ensures forall i | 0 <= i < |LexBare(s).0| :: NameChar(LexBare(s).0[i])
  {
    if s != "" && NameChar(s[0]) {
      LexBareChars(s[1..]);
    }
  }

  /** A bare name that begins with a blank is not read as itself either when the blank is skipped. */
  lemma BlankMisread(name: string, after: string)
    requires name != "" && name[0] == ' ' && after != "" && after[0] == '='
    ensures ReadName(name[1..] + after).None? || ReadName(name[1..] + after).value.0 != name
  {
    var text := name[1..] + after;
    if text[0] == '\"' {
      assert |name| > 1 && name[1] == '\"';
      assert text[1..] == name[2..] + after;
      MarksMisread(name, 2, after);
    } else {
      LexBareChars(text);
    }
  }

  lemma {:induction false} LexBareStops(name: string, rest: string)
    requires !(forall i | 0 <= i < |name| :: NameChar(name[i]))
    ensures var (read, more) := LexBare(name);
      more != "" && |read| < |name| && LexBare(name + rest) == (read, more + rest)
  {
    assert (name + rest)[0] == name[0] && (name + rest)[1..] == name[1..] + rest;
    if NameChar(name[0]) {
      assert forall i | 1 <= i < |name| :: name[1..][i - 1] == name[i];
      LexBareStops(name[1..], rest);
    }
  }

  lemma NameMisread(name: string, quoted: bool, after: string)
    requires if quoted then !Clean(name) else !BareName(name)
    requires after != "" && after[0] == '='
    ensures ReadName(PrintName(name, quoted) + after).None? || ReadName(PrintName(name, quoted) + after).value.0 != name
  {
    var text := PrintName(name, quoted) + after;
    if quoted {
      assert text == "\"" + (name + ("\"" + after)) && text[1..] == name + ("\"" + after);
      if LexString(text[1..]).Some? && LexString(text[1..]).value.0 == name {
        ReadUnescaped(name, after);
      }
    } else if name == "" {
      LexBareName("", after);
      assert text == after && "" + after == after;
    } else if name[0] == '\"' {
      assert text[0] == '\"' && text[1..] == name[1..] + after;
      MarksMisread(name, 1, after);
    } else {
      LexBareStops(name, after);
      assert text[0] == name[0];
    }
  }

  /** What is read from the text, which may begin with a blank to be skipped, is not a condition on this name. */
  predicate Misreads(text: string, name: string) {
    && (ReadMatcher(text).None? || ReadMatcher(text).value.0.name != name)
    && (text != "" && text[0] == ' ' ==> ReadMatcher(text[1..]).None? || ReadMatcher(text[1..]).value.0.name != name)
  }

  /** A condition and what follows, from the operator on. */
  lemma ItemParts(it: Item, rest: string) returns (after: string)
    ensures PrintItem(it) + rest == PrintName(it.matcher.name, it.quoted) + after && after != "" && after[0] == '='
    ensures it.quoted ==> PrintName(it.matcher.name, true)[0] == '\"'
    ensures !it.quoted ==> PrintName(it.matcher.name, false) == it.matcher.name
  {
    var m := it.matcher;
    after := PrintOp(m.regex) + (Escape(m.value) + "\"" + rest);
    hide Escape;
    Concat(PrintName(m.name, it.quoted), PrintOp(m.regex), Escape(m.value), "\"", rest);
  }

  /** A condition whose name cannot be printed as it is reads as none, or as one on another name. */
  lemma ItemMisread(it: Item, rest: string)
    requires !Printable(it)
    ensures Misreads(PrintItem(it) + rest, it.matcher.name)
  {
    hide PrintItem, PrintOp, Escape, ReadName, PrintName, Clean, BareName;
    var m, text := it.matcher, PrintItem(it) + rest;
    var after := ItemParts(it, rest);
    NameMisread(m.name, it.quoted, after);
    if text[0] == ' ' {
      assert m.name != "" && m.name[0] == ' ' && text[1..] == m.name[1..] + after;
      BlankMisread(m.name, after);
    }
  }

  lemma FirstRead(t: string)
    ensures ReadMatchers(t).Some? ==> ReadMatcher(t).Some? && ReadMatchers(t).value.0[0] == ReadMatcher(t).value.0
  {
  }

  /** The text of the conditions after the first. */
  lemma RestRead(it: Item, sep: string, more: string, ms: seq<Matcher>)
    requires Printable(it) && (sep == "," || sep == ", ") && more != ""
    requires ReadMatchers(PrintItem(it) + (sep + more)) == Some(([it.matcher] + ms, ""))
    ensures ReadMatchers(more) == Some((ms, "")) || (more[0] == ' ' && ReadMatchers(more[1..]) == Some((ms, "")))
  {
    ReadPrintedItem(it, sep + more);
    var t := PrintItem(it) + (sep + more);
    hide PrintItem, ReadMatcher, Printable;
    var rest := sep + more;
    if sep == "," {
      assert rest[1..] == more;
      assert rest[1] == ' ' ==> rest[2..] == more[1..];
      var next := if rest[1] == ' ' then more[1..] else more;
      ConsInjective(it.matcher, ReadMatchers(next).value.0, ms);
    } else {
      assert rest[2..] == more;
      ConsInjective(it.matcher, ReadMatchers(more).value.0, ms);
    }
  }

  /** A list that begins with a condition that cannot be printed as it is does not read back. */
  lemma FirstMisread(items: seq<Item>, sep: string, rest: string)
    requires items != [] && !Printable(items[0])
    ensures Misreads(Join(PrintItems(items), sep) + rest, items[0].matcher.name)
  {
    var tail := if |items| == 1 then rest else sep + (Join(PrintItems(items[1..]), sep) + rest);
    if |items| > 1 {
      JoinCons(items, sep, rest);
    }
    assert Join(PrintItems(items), sep) + rest == PrintItem(items[0]) + tail;
    hide Join, PrintItems, PrintItem, Printable, Misreads;
    ItemMisread(items[0], tail);
  }

  /** A text that reads as a list, or does after a blank, does not misread the name of its first condition. */
  lemma ReadsFirst(text: string, ms: seq<Matcher>)
    requires ms != [] && text != ""
    requires ReadMatchers(text) == Some((ms, "")) || (text[0] == ' ' && ReadMatchers(text[1..]) == Some((ms, "")))
    ensures !Misreads(text, ms[0].name)
  {
    FirstRead(text);
    FirstRead(text[1..]);
    hide ReadMatchers, ReadMatcher;
  }

  /** If a list reads back, so do the conditions after the first. */
  lemma RestReads(items: seq<Item>, sep: string)
    requires |items| > 1 && (sep == "," || sep == ", ") && Printable(items[0])
    requires ReadMatchers(Join(PrintItems(items), sep) + ("}" + "")) == Some((Matchers(items), ""))
    ensures ReadMatchers(Join(PrintItems(items[1..]), sep) + ("}" + "")) == Some((Matchers(items[1..]), ""))
  {
    var rest := items[1..];
    var more := Join(PrintItems(rest), sep) + ("}" + "");
    assert |more| > 0;
    assert Matchers(items) == [items[0].matcher] + Matchers(rest);
    assert Matchers(rest)[0] == rest[0].matcher;
    hide *;
    JoinCons(items, sep, "}" + "");
    RestRead(items[0], sep, more, Matchers(rest));
    ReadsFirst(more, Matchers(rest));
    if !Printable(rest[0]) {
      FirstMisread(rest, sep, "}" + "");
    }
    NotBlankFirst(rest, sep, "}" + "");
  }

  lemma {:induction false} ReadOnlyPrintable(items: seq<Item>, sep: string)
    requires items != [] && (sep == "," || sep == ", ")
    requires ReadMatchers(Join(PrintItems(items), sep) + ("}" + "")) == Some((Matchers(items), ""))
    ensures forall i | 0 <= i < |items| :: Printable(items[i])
    decreases |items|
  {
    assert Matchers(items)[0] == items[0].matcher && |Join(PrintItems(items), sep) + ("}" + "")| > 0;
    hide *;
    ReadsFirst(Join(PrintItems(items), sep) + ("}" + ""), Matchers(items));
    if !Printable(items[0]) {
      FirstMisread(items, sep, "}" + "");
    } else if |items| > 1 {
      RestReads(items, sep);
      ReadOnlyPrintable(items[1..], sep);
      forall i | 0 <= i < |items| ensures Printable(items[i]) {
        assert i > 0 ==> items[i] == items[1..][i - 1];
      }
    }
  }

  /** A list of conditions reads back as it is exactly when each of its names can be printed as it is. */
  lemma ReadItemsIff(items: seq<Item>, sep: string)
    requires items != [] && (sep == "," || sep == ", ")
    ensures ReadMatchers(Join(PrintItems(items), sep) + ("}" + "")) == Some((Matchers(items), ""))
      <==> forall i | 0 <= i < |items| :: Printable(items[i])
  {
    if forall i | 0 <= i < |items| :: Printable(items[i]) {
      ReadPrintedItems(items, sep, "");
    } else if ReadMatchers(Join(PrintItems(items), sep) + ("}" + "")) == Some((Matchers(items), "")) {
      ReadOnlyPrintable(items, sep);
    }
  }

  /** How a text in braces is read. */
  lemma ReadBraced(body: string, ms: seq<Matcher>)
    requires body != ""
    ensures ReadSelector("{" + body) == Some(ms) <==>
      if body[0] == '}' then ms == [] && body == "}" else ReadMatchers(body) == Some((ms, ""))
  {
    var text := "{" + body;
    assert text[1..] == body && text == "" + text;
    LexBareName("", text);
    hide ReadMatchers, LexBare;
    if ReadBraces(text).Some? {
      assert [] + ReadBraces(text).value.0 == ReadBraces(text).value.0;
    }
    assert body[0] == '}' ==> text[2..] == body[1..] && (body[1..] == "" <==> body == "}");
  }

  /** So does the list between braces. */
  lemma ReadBracedIff(items: seq<Item>, sep: string)
    requires sep == "," || sep == ", "
    ensures ReadSelector("{" + Join(PrintItems(items), sep) + "}") == Some(Matchers(items))
      <==> forall i | 0 <= i < |items| :: Printable(items[i])
  {
    var body := Join(PrintItems(items), sep) + ("}" + "");
    assert "{" + Join(PrintItems(items), sep) + "}" == "{" + body;
    assert body != "" && (items == [] ==> body == "}" && Matchers(items) == []) && (items != [] ==> Matchers(items) != []);
    hide *;
    ReadBraced(body, Matchers(items));
    if items != [] {
      ReadItemsIff(items, sep);
      if body[0] == '}' && Printable(items[0]) {
        NotBlankFirst(items, sep, "}" + "");
      }
    }
  }
}
