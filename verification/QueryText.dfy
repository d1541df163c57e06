/** The texts of the queries of `fetchFiltered`, and exactly when they say what they are meant to say. */
module QueryText {
  import opened Common
  import opened PromQL

  const NAME := "__name__"
  const CLUSTER := "@resource.k8s.cluster.name"
  const HOST := "@resource.host.type"

  /** The beginning of a condition with a quoted name, up to its value. */
  function Head(name: string): string {
    "\"" + name + "\"=\""
  }

  /** `promqlMetricSelector`: a dotted name must be quoted, a plain one stands before the brace. */
  function MetricSelector(metric: string): string {
    if '.' in metric then "{" + Head(NAME) + metric + "\"," else metric + "{"
  }

  function WholeText(metric: string, cluster: string): string {
    MetricSelector(metric) + Head(CLUSTER) + Escape(cluster) + "\"}"
  }

  /** The host type, unlike the cluster name, is not escaped. */
  function ShardText(metric: string, cluster: string, host: string): string {
    MetricSelector(metric) + Head(CLUSTER) + Escape(cluster) + "\"," + Head(HOST) + host + "\"}"
  }

  function NameMatcher(metric: string): Matcher {
    Matcher(NAME, false, metric)
  }

  function ClusterMatcher(cluster: string): Matcher {
    Matcher(CLUSTER, false, cluster)
  }

  function HostMatcher(host: string): Matcher {
    Matcher(HOST, false, host)
  }

  /** The condition on the name; an empty name asks for every metric. */
  function NameMatchers(metric: string): seq<Matcher> {
    if metric == "" then [] else [NameMatcher(metric)]
  }

  function WholeMatchers(metric: string, cluster: string): seq<Matcher> {
    NameMatchers(metric) + [ClusterMatcher(cluster)]
  }

  function ShardMatchers(metric: string, cluster: string, host: string): seq<Matcher> {
    NameMatchers(metric) + [ClusterMatcher(cluster), HostMatcher(host)]
  }

  /** A metric name that the selector can carry as it is. */
  predicate MetricName(metric: string) {
    if '.' in metric then Clean(metric) else metric == "" || BareName(metric)
  }

  function ClusterItem(cluster: string): Item {
    Item(ClusterMatcher(cluster), true)
  }

  // ----- a condition with a quoted name -----

  lemma HeadItem(name: string, value: string)
    ensures PrintItem(Item(Matcher(name, false, value), true)) == Head(name) + Escape(value) + "\""
  {
    hide Escape;
    assert PrintName(name, true) + PrintOp(false) == Head(name);
  }

  lemma ClusterItemText(cluster: string)
    ensures PrintItem(ClusterItem(cluster)) == Head(CLUSTER) + Escape(cluster) + "\""
    ensures PrintItem(ClusterItem(cluster))[0] == '\"' && Head(CLUSTER)[0] == '\"'
    ensures Printable(ClusterItem(cluster))
  {
    HeadItem(CLUSTER, cluster);
    hide Escape, PrintItem;
  }

  /** What is read from a condition depends on how its value ends. */
  lemma HeadReads(name: string, text: string)
    requires Clean(name)
    ensures Head(name)[0] == '\"'
    ensures ReadMatcher(Head(name) + text) ==
      match LexString(text)
      case None => None
      case Some((v, rest)) => Some((Matcher(name, false, v), rest))
  {
    var afterName := PrintOp(false) + text;
    assert Head(name) + text == PrintName(name, true) + afterName;
    ReadQuotedName(name, afterName);
    ReadPrintedOp(false, text);
    hide ReadName, ReadOp, LexString;
  }

  // ----- the metric before the rest of the conditions -----

  lemma ReadAnonymous(body: string)
    requires body != "" && body[0] == '\"'
    ensures ReadSelector("{" + body) ==
      match ReadMatchers(body)
      case None => None
      case Some((ms, after)) => if after != "" then None else Some(ms)
  {
    hide ReadMatchers;
    var text := "{" + body;
    LexBareName("", text);
    assert "" + text == text;
    assert text[1..] == body;
    assert ReadBraces(text) == ReadMatchers(body);
    if ReadMatchers(body).Some? {
      assert [] + ReadMatchers(body).value.0 == ReadMatchers(body).value.0;
    }
  }

  /** A query for a dotted metric without its brace. */
  function DottedBody(metric: string, more: string): string {
    Head(NAME) + (metric + ("\"" + ("," + more)))
  }

  lemma DottedText(metric: string, more: string)
    requires '.' in metric
    ensures MetricSelector(metric) + more == "{" + DottedBody(metric, more)
  {
    hide Head, NAME;
    assert "\"," == "\"" + ",";
  }

  lemma DottedRead(metric: string, more: string)
    requires '.' in metric
    ensures ReadSelector(MetricSelector(metric) + more) ==
      match ReadMatchers(DottedBody(metric, more))
      case None => None
      case Some((ms, after)) => if after != "" then None else Some(ms)
    ensures ReadMatcher(DottedBody(metric, more)) ==
      match LexString(metric + ("\"" + ("," + more)))
      case None => None
      case Some((v, rest)) => Some((NameMatcher(v), rest))
  {
    assert Clean(NAME);
    HeadReads(NAME, metric + ("\"" + ("," + more)));
    DottedText(metric, more);
    hide Head, MetricSelector, ReadMatchers, ReadMatcher, ReadSelector, LexString, Clean;
    ReadAnonymous(DottedBody(metric, more));
  }

  lemma ReadAfterDotted(metric: string, more: string)
    requires '.' in metric && Clean(metric) && more != "" && more[0] == '\"'
    ensures ReadSelector(MetricSelector(metric) + more) ==
      match ReadMatchers(more)
      case None => None
      case Some((ms, after)) => if after != "" then None else Some([NameMatcher(metric)] + ms)
  {
    assert metric + "\"" + ("," + more) == metric + ("\"" + ("," + more));
    LexClean(metric, "," + more);
    hide *;
    DottedRead(metric, more);
    AfterComma(DottedBody(metric, more), NameMatcher(metric), ",", more);
  }

  lemma ReadAfterPlain(metric: string, more: string)
    requires '.' !in metric && (metric == "" || BareName(metric)) && more != "" && more[0] == '\"'
    ensures ReadSelector(MetricSelector(metric) + more) ==
      match ReadMatchers(more)
      case None => None
      case Some((ms, after)) => if after != "" then None else Some(NameMatchers(metric) + ms)
  {
    hide ReadMatchers;
    var text := MetricSelector(metric) + more;
    assert text == metric + ("{" + more);
    LexBareName(metric, "{" + more);
    assert ("{" + more)[1..] == more;
    assert ReadBraces("{" + more) == ReadMatchers(more);
  }

  lemma SameAfter(a: seq<Matcher>, b: seq<Matcher>, c: seq<Matcher>)
    ensures a + b == a + c <==> b == c
  {
    assert (a + b)[|a|..] == b && (a + c)[|a|..] == c;
  }

  /** After a metric name that can stand as it is, a query reads as the rest of its conditions does. */
  lemma ReadAfterSelector(metric: string, more: string)
    requires MetricName(metric) && more != "" && more[0] == '\"'
    ensures ReadSelector(MetricSelector(metric) + more) ==
      match ReadMatchers(more)
      case None => None
      case Some((ms, after)) => if after != "" then None else Some(NameMatchers(metric) + ms)
  {
    if '.' in metric {
      assert NameMatchers(metric) == [NameMatcher(metric)];
      ReadAfterDotted(metric, more);
    } else {
      ReadAfterPlain(metric, more);
    }
  }

  // ----- a metric that cannot stand as it is -----

  /** The rest of a query: it begins with a quoted name, and its first quote can close no name or value. */
  predicate Opens(tail: string) {
    tail != "" && tail[0] == '\"' && !Continues(tail[1..])
  }

  /** No selector, or one whose first condition is on another metric name. */
  predicate Misnamed(read: Option<seq<Matcher>>, metric: string) {
    read.Some? ==> read.value != [] && read.value[0] == NameMatcher(read.value[0].value) && read.value[0].value != metric
  }

  lemma DottedMisread(metric: string, tail: string)
    requires '.' in metric && !Clean(metric)
    ensures Misnamed(ReadSelector(MetricSelector(metric) + tail), metric)
  {
    DottedRead(metric, tail);
    FirstRead(DottedBody(metric, tail));
    hide MetricSelector, DottedBody, ReadMatchers, ReadMatcher, ReadSelector, LexString, Clean;
    var value := LexString(metric + ("\"" + ("," + tail)));
    if value.Some? && value.value.0 == metric {
      ReadUnescaped(metric, "," + tail);
    }
  }

  /** The bare name that is read from a text that begins with no bare name and a brace is shorter. */
  lemma StoppedName(metric: string, rest: string)
    requires metric != "" && !BareName(metric) && rest != "" && rest[0] == '{'
    ensures var (name, braces) := LexBare(metric + rest);
      if name == "" then braces == metric + rest else name != metric
  {
    LexBareStops(metric, rest);
  }

  /** A brace too many: nothing is read. */
  lemma BracesMisread(metric: string, tail: string)
    requires metric != "" && Opens(tail)
    ensures var read := ReadBraces(metric + ("{" + tail)); read.Some? ==> read.value.1 != ""
  {
    var text := metric + ("{" + tail);
    var w, y := metric[1..], tail[1..];
    assert tail == "\"" + y;
    assert text[1..] == w + ("{\"" + y);
    hide ReadMatchers;
    BraceInside(w, y);
  }

  lemma PlainText(metric: string, tail: string)
    requires '.' !in metric
    ensures MetricSelector(metric) + tail == metric + ("{" + tail)
  {
  }

  lemma PlainMisread(metric: string, tail: string)
    requires '.' !in metric && metric != "" && !BareName(metric) && Opens(tail)
    ensures Misnamed(ReadSelector(MetricSelector(metric) + tail), metric)
  {
    var text := metric + ("{" + tail);
    PlainText(metric, tail);
    StoppedName(metric, "{" + tail);
    BracesMisread(metric, tail);
    hide MetricSelector, LexBare, ReadBraces, ReadSelector, BareName;
    if ReadSelector(text).Some? {
      ReadSelectorExact(text);
    }
  }

  /** A metric name that cannot stand as it is is never read as itself, whatever the rest of the query. */
  lemma MisnamedRead(metric: string, tail: string)
    requires !MetricName(metric) && Opens(tail)
    ensures Misnamed(ReadSelector(MetricSelector(metric) + tail), metric)
  {
    hide MetricSelector, ReadSelector, Misnamed, Opens;
    if '.' in metric {
      DottedMisread(metric, tail);
    } else {
      PlainMisread(metric, tail);
    }
  }

  /** Whatever the metric: its query reads as intended exactly when its name can stand there and the rest reads as intended. */
  lemma SelectorReads(metric: string, tail: string, ms: seq<Matcher>)
    requires Opens(tail)
    ensures ReadSelector(MetricSelector(metric) + tail) == Some(NameMatchers(metric) + ms)
      <==> MetricName(metric) && ReadMatchers(tail) == Some((ms, ""))
  {
    if MetricName(metric) {
      ReadAfterSelector(metric, tail);
      hide ReadSelector, ReadMatchers, MetricSelector, NameMatchers;
      if ReadMatchers(tail).Some? {
        SameAfter(NameMatchers(metric), ReadMatchers(tail).value.0, ms);
      }
    } else {
      assert (NameMatchers(metric) + ms)[0] == NameMatcher(metric);
      hide ReadSelector, ReadMatchers, MetricSelector, NameMatchers;
      MisnamedRead(metric, tail);
    }
  }

  // ----- the two queries -----

  /** The unsplit query after the metric. */
  function ClusterTail(cluster: string): string {
    PrintItem(ClusterItem(cluster)) + ("}" + "")
  }

  /** A query goes on with the condition on the cluster. */
  lemma ClusterOpens(cluster: string, more: string)
    ensures Opens(PrintItem(ClusterItem(cluster)) + more)
  {
    ClusterItemText(cluster);
    assert Head(CLUSTER)[1] == CLUSTER[0] == '@';
    hide PrintItem, Head, Escape;
    var text := PrintItem(ClusterItem(cluster)) + more;
    assert text[1] == '@' && text[1..][0] == '@';
  }

  lemma WholeTextIs(metric: string, cluster: string)
    ensures WholeText(metric, cluster) == MetricSelector(metric) + ClusterTail(cluster)
  {
    ClusterItemText(cluster);
    hide PrintItem, MetricSelector, Escape, Head, CLUSTER;
    assert "\"}" == "\"" + "}";
  }

  lemma HeadsAre()
    ensures Head(NAME) == "\"__name__\"=\"" && Head(CLUSTER) == "\"@resource.k8s.cluster.name\"=\""
    ensures Head(HOST) == "\"@resource.host.type\"=\""
  {
  }

  lemma SelectorIs(metric: string)
    ensures MetricSelector(metric) == if '.' in metric then "{\"__name__\"=\"" + metric + "\"," else metric + "{"
  {
    HeadsAre();
    hide Head;
    assert "{" + "\"__name__\"=\"" == "{\"__name__\"=\"";
  }

  lemma Glued(x: string, a: string, b: string, ab: string)
    requires ab == a + b
    ensures x + a + b == x + ab
  {
  }

  /** The two texts, letter by letter. */
  lemma QueryTextsAre(metric: string, cluster: string, host: string)
    ensures var selector := if '.' in metric then "{\"__name__\"=\"" + metric + "\"," else metric + "{";
      && WholeText(metric, cluster) == selector + "\"@resource.k8s.cluster.name\"=\"" + Escape(cluster) + "\"}"
      && ShardText(metric, cluster, host) ==
           selector + "\"@resource.k8s.cluster.name\"=\"" + Escape(cluster) + "\",\"@resource.host.type\"=\"" + host + "\"}"
  {
    HeadsAre();
    SelectorIs(metric);
    assert "\",\"@resource.host.type\"=\"" == "\"," + "\"@resource.host.type\"=\"";
    hide Escape, Head, MetricSelector, NAME, CLUSTER, HOST;
    Glued(MetricSelector(metric) + Head(CLUSTER) + Escape(cluster), "\",", Head(HOST), "\",\"@resource.host.type\"=\"");
  }

  /** The conditions of the two queries by their labels; an empty name asks for every metric. */
  lemma MatchersAre(metric: string, cluster: string, host: string)
    ensures var named := if metric == "" then [] else [Matcher("__name__", false, metric)];
      && WholeMatchers(metric, cluster) == named + [Matcher("@resource.k8s.cluster.name", false, cluster)]
      && ShardMatchers(metric, cluster, host) ==
           named + [Matcher("@resource.k8s.cluster.name", false, cluster), Matcher("@resource.host.type", false, host)]
  {
  }

  /** The unsplit query says what it is meant to say exactly when its metric name, which is not escaped, can stand there as it is. */
  lemma WholeTextReads(metric: string, cluster: string)
    ensures ReadSelector(WholeText(metric, cluster)) == Some(WholeMatchers(metric, cluster)) <==> MetricName(metric)
    ensures WholeMatchers(metric, cluster) == (if metric == "" then [] else [Matcher("__name__", false, metric)])
      + [Matcher("@resource.k8s.cluster.name", false, cluster)]
    ensures !MetricName(metric) ==> Misnamed(ReadSelector(WholeText(metric, cluster)), metric)
  {
    MatchersAre(metric, cluster, "");
    WholeTextIs(metric, cluster);
    ClusterOpens(cluster, "}" + "");
    ClusterItemText(cluster);
    hide ReadSelector, ReadMatchers, PrintItem, MetricSelector, MetricName, Escape, WholeText, NameMatchers, Opens, Printable, Head, Misnamed;
    ReadLast(ClusterItem(cluster), "");
    SelectorReads(metric, ClusterTail(cluster), [ClusterMatcher(cluster)]);
    if !MetricName(metric) {
      MisnamedRead(metric, ClusterTail(cluster));
    }
  }

  /** The last condition of a shard query, whose value is not escaped. */
  function HostTail(host: string): string {
    Head(HOST) + (host + ("\"" + "}"))
  }

  /** It reads as intended exactly when there is nothing to escape, and otherwise as none or first as another host type. */
  lemma HostTailReads(host: string)
    ensures ReadMatchers(HostTail(host)) == Some(([HostMatcher(host)], "")) <==> Clean(host)
    ensures HostTail(host) != "" && HostTail(host)[0] == '\"'
    ensures !Clean(host) && ReadMatchers(HostTail(host)).Some? ==>
      var first := ReadMatchers(HostTail(host)).value.0[0]; first == HostMatcher(first.value) && first.value != host
  {
    var value := host + ("\"" + "}");
    assert Clean(HOST);
    HeadReads(HOST, value);
    hide ReadMatcher, LexString, Head, HOST;
    if Clean(host) {
      LexClean(host, "}");
      assert host + "\"" + "}" == value;
      assert "}"[1..] == "";
    } else if LexString(value).Some? && LexString(value).value.0 == host {
      ReadUnescaped(host, "}");
    }
  }

  /** A shard query after the metric. */
  function ShardTail(cluster: string, host: string): string {
    PrintItem(ClusterItem(cluster)) + ("," + HostTail(host))
  }

  lemma ShardTextIs(metric: string, cluster: string, host: string)
    ensures ShardText(metric, cluster, host) == MetricSelector(metric) + ShardTail(cluster, host)
  {
    ClusterItemText(cluster);
    hide PrintItem, MetricSelector, Escape, Head, CLUSTER, HOST;
    assert "\"}" == "\"" + "}" && "\"," == "\"" + ",";
    var sel, c, e, h := MetricSelector(metric), Head(CLUSTER), Escape(cluster), HostTail(host);
    assert ShardText(metric, cluster, host) == sel + c + e + "\"" + "," + h;
    assert sel + c + e + "\"" + "," + h == sel + ((c + e + "\"") + ("," + h));
  }

  lemma ShardTailReads(cluster: string, host: string)
    ensures ReadMatchers(ShardTail(cluster, host)) ==
      match ReadMatchers(HostTail(host))
      case None => None
      case Some((ms, after)) => Some(([ClusterMatcher(cluster)] + ms, after))
  {
    ClusterItemText(cluster);
    HostTailReads(host);
    hide ReadMatchers, PrintItem, Printable, HostTail, Clean, Head, Escape;
    ReadCons(ClusterItem(cluster), ",", HostTail(host));
  }

  /** A shard query says what it is meant to say exactly when neither its metric name nor its host type needs escaping. */
  lemma ShardTextReads(metric: string, cluster: string, host: string)
    ensures ReadSelector(ShardText(metric, cluster, host)) == Some(ShardMatchers(metric, cluster, host)) <==> MetricName(metric) && Clean(host)
    ensures ShardMatchers(metric, cluster, host) == (if metric == "" then [] else [Matcher("__name__", false, metric)])
      + [Matcher("@resource.k8s.cluster.name", false, cluster), Matcher("@resource.host.type", false, host)]
  {
    MatchersAre(metric, cluster, host);
    var c, h := ClusterMatcher(cluster), HostMatcher(host);
    ShardTextIs(metric, cluster, host);
    ClusterOpens(cluster, "," + HostTail(host));
    ShardTailReads(cluster, host);
    HostTailReads(host);
    hide ReadSelector, ReadMatchers, MetricSelector, MetricName, Clean, ShardText, NameMatchers, HostTail, Opens, PrintItem;
    SelectorReads(metric, ShardTail(cluster, host), [c, h]);
    if ReadMatchers(HostTail(host)).Some? {
      assert [c] + [h] == [c, h];
      ConsInjective(c, ReadMatchers(HostTail(host)).value.0, [h]);
    }
  }

  /** What else a shard query can be read as: one on another metric name, or on another host type of this metric. */
  lemma ShardMisread(metric: string, cluster: string, host: string)
    ensures !MetricName(metric) ==> Misnamed(ReadSelector(ShardText(metric, cluster, host)), metric)
    ensures MetricName(metric) && !Clean(host) && ReadSelector(ShardText(metric, cluster, host)).Some? ==>
      exists v, more :: v != host && ReadSelector(ShardText(metric, cluster, host)).value == WholeMatchers(metric, cluster) + ([HostMatcher(v)] + more)
  {
    ShardTextIs(metric, cluster, host);
    ClusterOpens(cluster, "," + HostTail(host));
    ShardTailReads(cluster, host);
    HostTailReads(host);
    hide ReadSelector, ReadMatchers, MetricSelector, MetricName, Clean, ShardText, NameMatchers, HostTail, Opens, PrintItem, Misnamed;
    if !MetricName(metric) {
      MisnamedRead(metric, ShardTail(cluster, host));
    } else if !Clean(host) {
      OpensQuoted(ShardTail(cluster, host));
      ReadAfterSelector(metric, ShardTail(cluster, host));
      if ReadSelector(ShardText(metric, cluster, host)).Some? {
        var ms := ReadMatchers(HostTail(host)).value.0;
        assert ms == [ms[0]] + ms[1..];
        assert NameMatchers(metric) + ([ClusterMatcher(cluster)] + ms) == WholeMatchers(metric, cluster) + ([HostMatcher(ms[0].value)] + ms[1..]);
      }
    }
  }

  lemma OpensQuoted(tail: string)
    requires Opens(tail)
    ensures tail != "" && tail[0] == '\"'
  {
  }

  /** A host type with a quote: its shard query does not read as metric, cluster and host type. */
  lemma UnescapedHost(cluster: string)
    ensures ReadSelector(ShardText("up", cluster, "a\"b")) != Some(ShardMatchers("up", cluster, "a\"b"))
  {
    assert "a\"b"[1] == '\"';
    assert !Clean("a\"b");
    ShardTextReads("up", cluster, "a\"b");
  }

  const QUOTED := "a.b\",x=\"y"

  lemma QuotedParts()
    ensures '.' in QUOTED && Clean("a.b")
    ensures PrintItem(Item(Matcher("x", false, "y"), false)) == "x=\"y\"" && Printable(Item(Matcher("x", false, "y"), false))
  {
    assert QUOTED[1] == '.';
    assert Clean("y") && BareName("x");
    EscapeClean("y");
    assert "x" + "=\"" + "y" + "\"" == "x=\"y\"";
  }

  lemma QuotedValue(tail: string)
    ensures QUOTED + ("\"" + ("," + tail)) == "a.b" + "\"" + ("," + ("x=\"y\"" + ("," + tail)))
  {
    assert QUOTED + "\"" == "a.b" + "\"" + "," + "x=\"y\"";
    var x, y := "a.b", "x=\"y\"";
    assert (QUOTED + "\"") + ("," + tail) == x + "\"" + ("," + (y + ("," + tail)));
  }

  /** A dotted metric name with quotes: its query is read as one on the metric before the first quote. */
  lemma UnescapedMetric(cluster: string)
    ensures ReadSelector(WholeText(QUOTED, cluster)) == Some([NameMatcher("a.b"), Matcher("x", false, "y"), ClusterMatcher(cluster)])
  {
    var tail, c := ClusterTail(cluster), ClusterMatcher(cluster);
    var second := Item(Matcher("x", false, "y"), false);
    var more := PrintItem(second) + ("," + tail);
    QuotedParts();
    hide *;
    WholeTextIs(QUOTED, cluster);
    QuotedRead(tail);
    OpensQuotedTail(cluster);
    ReadCons(second, ",", tail);
    LastTail(cluster);
    assert [NameMatcher("a.b")] + ([second.matcher] + [c]) == [NameMatcher("a.b"), second.matcher, c];
  }

  lemma QuotedRead(tail: string)
    ensures var more := PrintItem(Item(Matcher("x", false, "y"), false)) + ("," + tail);
      ReadSelector(MetricSelector(QUOTED) + tail) ==
      match ReadMatchers(more)
      case None => None
      case Some((ms, after)) => if after != "" then None else Some([NameMatcher("a.b")] + ms)
  {
    var more := PrintItem(Item(Matcher("x", false, "y"), false)) + ("," + tail);
    QuotedParts();
    QuotedValue(tail);
    assert more != "" && more[0] == 'x';
    hide *;
    DottedRead(QUOTED, tail);
    LexClean("a.b", "," + more);
    AfterComma(DottedBody(QUOTED, tail), NameMatcher("a.b"), ",", more);
  }

  lemma OpensQuotedTail(cluster: string)
    ensures ClusterTail(cluster) != "" && ClusterTail(cluster)[0] == '\"'
  {
    ClusterItemText(cluster);
  }

  lemma LastTail(cluster: string)
    ensures ReadMatchers(ClusterTail(cluster)) == Some(([ClusterMatcher(cluster)], ""))
  {
    ClusterItemText(cluster);
    ReadLast(ClusterItem(cluster), "");
  }
}
