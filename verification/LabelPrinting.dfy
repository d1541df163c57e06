/** `FormatPromQL`: labels printed as a selector, and the proof that the selector reads back as the same labels. */
module LabelPrinting {
  import opened Common
  import opened Results
  import opened PromQL
  import opened SeriesStore
  import opened Labels
  import LabelLaws

  /** A scope's labels as printed conditions, in iteration order. */
  function ScopeItems(prefix: string, quoted: bool, labels: map<string, string>, order: seq<string>): seq<Item>
    requires forall name | name in order :: name in labels
  {
    seq(|order|, i requires 0 <= i < |order| => Item(Matcher(prefix + order[i], false, labels[order[i]]), quoted))
  }

  ghost predicate Covers(l: MetricLabels, o: Orders) {
    && (forall name | name in o.resource :: name in l.resource)
    && (forall name | name in o.instrumentation :: name in l.instrumentation)
    && (forall name | name in o.awsCloudWatch :: name in l.awsCloudWatch)
    && (forall name | name in o.aws :: name in l.aws)
    && (forall name | name in o.datapoint :: name in l.datapoint)
  }

  /** All conditions in printing order: scoped labels with their full key in quotes, datapoint labels bare. */
  function ItemsOf(l: MetricLabels, o: Orders): seq<Item>
    requires Covers(l, o)
  {
    ScopeItems("@resource.", true, l.resource, o.resource)
    + ScopeItems("@instrumentation.", true, l.instrumentation, o.instrumentation)
    + ScopeItems("@aws.cloudwatch.", true, l.awsCloudWatch, o.awsCloudWatch)
    + ScopeItems("@aws.", true, l.aws, o.aws)
    + ScopeItems("", false, l.datapoint, o.datapoint)
  }

  lemma OrdersCover(l: MetricLabels, o: Orders)
    requires OrdersOf(l, o)
    ensures Covers(l, o)
  {
    assert forall name | name in o.resource :: name in Elems(o.resource);
    assert forall name | name in o.instrumentation :: name in Elems(o.instrumentation);
    assert forall name | name in o.awsCloudWatch :: name in Elems(o.awsCloudWatch);
    assert forall name | name in o.aws :: name in Elems(o.aws);
    assert forall name | name in o.datapoint :: name in Elems(o.datapoint);
  }

  lemma PrintFive(a: seq<Item>, b: seq<Item>, c: seq<Item>, d: seq<Item>, e: seq<Item>)
    ensures PrintItems(a + b + c + d + e) == [] + PrintItems(a) + PrintItems(b) + PrintItems(c) + PrintItems(d) + PrintItems(e)
  {
  }

  /** The part that a loop appends for a label. */
  function Part(prefix: string, quoted: bool, key: string, value: string): string {
    if quoted then "\"" + prefix + key + "\"=\"" + EscapePromQLValue(value) + "\""
    else prefix + key + "=\"" + EscapePromQLValue(value) + "\""
  }

  lemma PartIsItem(prefix: string, quoted: bool, key: string, value: string)
    ensures Part(prefix, quoted, key, value) == PrintItem(Item(Matcher(prefix + key, false, value), quoted))
  {
    EscapersAgree(value);
    hide Escape, EscapePromQLValue;
    assert "\"" + prefix + key + "\"=\"" == PrintName(prefix + key, true) + PrintOp(false);
    assert prefix + key + "=\"" == PrintName(prefix + key, false) + PrintOp(false);
  }

  lemma NextPart(prefix: string, quoted: bool, labels: map<string, string>, order: seq<string>, i: nat)
    requires i < |order| && forall name | name in order :: name in labels
    ensures PrintItems(ScopeItems(prefix, quoted, labels, order[..i + 1])) ==
            PrintItems(ScopeItems(prefix, quoted, labels, order[..i])) + [Part(prefix, quoted, order[i], labels[order[i]])]
  {
    PartIsItem(prefix, quoted, order[i], labels[order[i]]);
    hide PrintItem, Part;
  }

  /** One of the loops that append a part per label. */
  method AppendParts(parts: seq<string>, prefix: string, quoted: bool, labels: map<string, string>, order: seq<string>)
    returns (r: seq<string>)
    requires forall name | name in order :: name in labels
    ensures r == parts + PrintItems(ScopeItems(prefix, quoted, labels, order))
  {
    r := parts;
    assert r == parts + PrintItems(ScopeItems(prefix, quoted, labels, order[..0])) && order[..|order|] == order;
    hide PrintItems, ScopeItems, EscapePromQLValue;
    for i := 0 to |order|
      invariant r == parts + PrintItems(ScopeItems(prefix, quoted, labels, order[..i]))
    {
      var key, value := order[i], labels[order[i]];
      NextPart(prefix, quoted, labels, order, i);
      if quoted {
        r := r + ["\"" + prefix + key + "\"=\"" + EscapePromQLValue(value) + "\""];
      } else {
        r := r + [prefix + key + "=\"" + EscapePromQLValue(value) + "\""];
      }
    }
  }

  /** The text of the selector. */
  function Printed(l: MetricLabels, o: Orders): string
    requires Covers(l, o)
  {
    "{" + Join(PrintItems(ItemsOf(l, o)), ", ") + "}"
  }

  method FormatPromQL(l: MetricLabels, o: Orders) returns (text: string)
    requires OrdersOf(l, o)
    ensures Covers(l, o) && text == Printed(l, o)
  {
    hide ScopeItems, Join, PrintItems;
    OrdersCover(l, o);
    var parts := AppendParts([], "@resource.", true, l.resource, o.resource);
    parts := AppendParts(parts, "@instrumentation.", true, l.instrumentation, o.instrumentation);
    parts := AppendParts(parts, "@aws.cloudwatch.", true, l.awsCloudWatch, o.awsCloudWatch);
    parts := AppendParts(parts, "@aws.", true, l.aws, o.aws);
    parts := AppendParts(parts, "", false, l.datapoint, o.datapoint);
    PrintFive(ScopeItems("@resource.", true, l.resource, o.resource),
              ScopeItems("@instrumentation.", true, l.instrumentation, o.instrumentation),
              ScopeItems("@aws.cloudwatch.", true, l.awsCloudWatch, o.awsCloudWatch),
              ScopeItems("@aws.", true, l.aws, o.aws),
              ScopeItems("", false, l.datapoint, o.datapoint));
    text := "{" + Join(parts, ", ") + "}";
  }

  lemma JoinFive(a: string, b: string, c: string, d: string, e: string)
    ensures Join([a, b, c, d, e], ", ") == a + ", " + b + ", " + c + ", " + d + ", " + e
  {
    var de, cde, bcde := [d, e], [c, d, e], [b, c, d, e];
    assert [a, b, c, d, e][1..] == bcde && bcde[1..] == cde && cde[1..] == de && de[1..] == [e];
    assert Join(de, ", ") == d + ", " + e;
    assert Join(cde, ", ") == c + ", " + (d + ", " + e);
    assert Join(bcde, ", ") == b + ", " + (c + ", " + (d + ", " + e));
  }

  /** A key with what stands around it, and its value escaped up to the closing quote. */
  function Written(start: string, key: string, middle: string, value: string): string {
    start + key + middle + Escape(value) + "\""
  }

  lemma OnePart(start: string, prefix: string, key: string, value: string)
    requires start == "\"" + prefix
    ensures PrintItems(ScopeItems(prefix, true, map[key := value], [key])) == [Written(start, key, "\"=\"", value)]
  {
    PartIsItem(prefix, true, key, value);
    EscapersAgree(value);
    hide Escape, EscapePromQLValue, PrintItem;
  }

  lemma BarePart(key: string, value: string)
    ensures PrintItems(ScopeItems("", false, map[key := value], [key])) == [Written("", key, "=\"", value)]
  {
    PartIsItem("", false, key, value);
    EscapersAgree(value);
    hide Escape, EscapePromQLValue, PrintItem;
  }

  lemma FromParts(l: MetricLabels, o: Orders, p: string, q: string, r: string, s: string, t: string)
    requires Covers(l, o)
    requires PrintItems(ScopeItems("@resource.", true, l.resource, o.resource)) == [p]
    requires PrintItems(ScopeItems("@instrumentation.", true, l.instrumentation, o.instrumentation)) == [q]
    requires PrintItems(ScopeItems("@aws.cloudwatch.", true, l.awsCloudWatch, o.awsCloudWatch)) == [r]
    requires PrintItems(ScopeItems("@aws.", true, l.aws, o.aws)) == [s]
    requires PrintItems(ScopeItems("", false, l.datapoint, o.datapoint)) == [t]
    ensures Printed(l, o) == "{" + (p + ", " + q + ", " + r + ", " + s + ", " + t) + "}"
  {
    hide ScopeItems, PrintItems, Join;
    PrintFive(ScopeItems("@resource.", true, l.resource, o.resource),
              ScopeItems("@instrumentation.", true, l.instrumentation, o.instrumentation),
              ScopeItems("@aws.cloudwatch.", true, l.awsCloudWatch, o.awsCloudWatch),
              ScopeItems("@aws.", true, l.aws, o.aws),
              ScopeItems("", false, l.datapoint, o.datapoint));
    assert [] + [p] + [q] + [r] + [s] + [t] == [p, q, r, s, t];
    JoinFive(p, q, r, s, t);
  }

  /** One label in each scope: each part begins as the source writes it, and they follow in the source's order. */
  lemma OnePerScope(r: string, i: string, c: string, a: string, d: string, v: string, w: string, x: string, y: string, z: string)
    ensures var l, o := MetricLabels(map[r := v], map[i := w], map[d := z], map[a := y], map[c := x]), Orders([r], [i], [c], [a], [d]);
      Covers(l, o) && Printed(l, o) ==
        "{" + (Written("\"@resource.", r, "\"=\"", v) + ", " + Written("\"@instrumentation.", i, "\"=\"", w)
        + ", " + Written("\"@aws.cloudwatch.", c, "\"=\"", x) + ", " + Written("\"@aws.", a, "\"=\"", y)
        + ", " + Written("", d, "=\"", z)) + "}"
  {
    hide Written, ScopeItems, PrintItems, Join, Printed;
    var l, o := MetricLabels(map[r := v], map[i := w], map[d := z], map[a := y], map[c := x]), Orders([r], [i], [c], [a], [d]);
    assert Covers(l, o);
    hide Covers;
    OnePart("\"@resource.", "@resource.", r, v);
    OnePart("\"@instrumentation.", "@instrumentation.", i, w);
    OnePart("\"@aws.cloudwatch.", "@aws.cloudwatch.", c, x);
    OnePart("\"@aws.", "@aws.", a, y);
    BarePart(d, z);
    FromParts(l, o, Written("\"@resource.", r, "\"=\"", v), Written("\"@instrumentation.", i, "\"=\"", w),
              Written("\"@aws.cloudwatch.", c, "\"=\"", x), Written("\"@aws.", a, "\"=\"", y), Written("", d, "=\"", z));
  }

  // ----- what the printed conditions say -----

  /** The conditions are equalities, and exactly those that the labels state. */
  ghost predicate Describes(ms: seq<Matcher>, labels: map<string, string>) {
    && (forall m | m in ms :: !m.regex && m.name in labels && labels[m.name] == m.value)
    && (forall key | key in labels :: Matcher(key, false, labels[key]) in ms)
  }

  /** Two scopes give one full key different values. */
  ghost predicate Clashing(l: MetricLabels) {
    exists s: Scope, name, s': Scope, name' :: Clash(l, s, name, s', name')
  }

  ghost predicate Clash(l: MetricLabels, s: Scope, name: string, s': Scope, name': string) {
    name in l.Of(s) && name' in l.Of(s') && FullKey(s, name) == FullKey(s', name') && l.Of(s)[name] != l.Of(s')[name']
  }

  lemma ScopeItemsMembers(prefix: string, quoted: bool, labels: map<string, string>, order: seq<string>, it: Item)
    requires IsOrder(order, labels.Keys) && forall name | name in order :: name in labels
    ensures it in ScopeItems(prefix, quoted, labels, order) <==>
      exists name :: name in labels && it == Item(Matcher(prefix + name, false, labels[name]), quoted)
  {
    var items := ScopeItems(prefix, quoted, labels, order);
    if it in items {
      var i :| 0 <= i < |items| && items[i] == it;
      assert order[i] in labels;
    }
    if name :| name in labels && it == Item(Matcher(prefix + name, false, labels[name]), quoted) {
      assert name in Elems(order);
      var i :| 0 <= i < |order| && order[i] == name;
      assert items[i] == it;
    }
  }

  /** The condition is one of the scope's labels, under its full key. */
  ghost predicate InScope(l: MetricLabels, s: Scope, it: Item) {
    exists name :: name in l.Of(s) && it == Item(Matcher(FullKey(s, name), false, l.Of(s)[name]), !s.Datapoint?)
  }

  lemma ScopePrinted(l: MetricLabels, s: Scope, order: seq<string>, it: Item)
    requires IsOrder(order, l.Of(s).Keys) && forall name | name in order :: name in l.Of(s)
    ensures it in ScopeItems(Prefix(s), !s.Datapoint?, l.Of(s), order) <==> InScope(l, s, it)
  {
    ScopeItemsMembers(Prefix(s), !s.Datapoint?, l.Of(s), order, it);
  }

  lemma PrintedItems(l: MetricLabels, o: Orders, it: Item)
    requires OrdersOf(l, o) && Covers(l, o)
    ensures it in ItemsOf(l, o) <==> exists s: Scope :: InScope(l, s, it)
  {
    ScopePrinted(l, Resource, o.resource, it);
    ScopePrinted(l, Instrumentation, o.instrumentation, it);
    ScopePrinted(l, AwsCloudWatch, o.awsCloudWatch, it);
    ScopePrinted(l, Aws, o.aws, it);
    ScopePrinted(l, Datapoint, o.datapoint, it);
    hide InScope, ScopeItems, OrdersOf, Covers;
  }

  lemma PrintedMatchers(l: MetricLabels, o: Orders, m: Matcher)
    requires OrdersOf(l, o) && Covers(l, o)
    ensures m in Matchers(ItemsOf(l, o)) <==>
      exists s: Scope, name :: name in l.Of(s) && m == Matcher(FullKey(s, name), false, l.Of(s)[name])
  {
    var items := ItemsOf(l, o);
    if m in Matchers(items) {
      var i :| 0 <= i < |items| && Matchers(items)[i] == m;
      PrintedItems(l, o, items[i]);
      var s: Scope :| InScope(l, s, items[i]);
    }
    if s: Scope, name :| name in l.Of(s) && m == Matcher(FullKey(s, name), false, l.Of(s)[name]) {
      assert InScope(l, s, Item(m, !s.Datapoint?));
      PrintedItems(l, o, Item(m, !s.Datapoint?));
      var i :| 0 <= i < |items| && items[i] == Item(m, !s.Datapoint?);
      assert Matchers(items)[i] == m;
    }
  }

  /** The printed conditions are exactly the flattened labels, unless two scopes clash. */
  lemma ItemsDescribeLabels(l: MetricLabels, o: Orders)
    requires OrdersOf(l, o) && Covers(l, o)
    ensures Describes(Matchers(ItemsOf(l, o)), AllLabelsOf(l)) <==> !Clashing(l)
  {
    hide OrdersOf, Covers, AllLabelsOf, FullKey, ItemsOf, Matchers;
    var ms, flat := Matchers(ItemsOf(l, o)), AllLabelsOf(l);
    forall key | key in flat ensures Matcher(key, false, flat[key]) in ms {
      LabelLaws.AllLabelsLookup(l, key);
      PrintedMatchers(l, o, Matcher(key, false, flat[key]));
    }
    if Clashing(l) {
      var s: Scope, name, s': Scope, name' :| Clash(l, s, name, s', name');
      PrintedMatchers(l, o, Matcher(FullKey(s, name), false, l.Of(s)[name]));
      PrintedMatchers(l, o, Matcher(FullKey(s', name'), false, l.Of(s')[name']));
    } else {
      forall m | m in ms ensures !m.regex && m.name in flat && flat[m.name] == m.value {
        PrintedMatchers(l, o, m);
        var s: Scope, name :| name in l.Of(s) && m == Matcher(FullKey(s, name), false, l.Of(s)[name]);
        LabelLaws.AllLabelsLookup(l, m.name);
        var s': Scope, name' :| name' in l.Of(s') && m.name == FullKey(s', name') && flat[m.name] == l.Of(s')[name'];
        assert !Clash(l, s, name, s', name');
      }
    }
  }

  predicate PrintableIn(l: MetricLabels, s: Scope) {
    forall name | name in l.Of(s) :: if s.Datapoint? then BareName(name) else Clean(name)
  }

  /** Scoped names stand in quotes unescaped, datapoint names stand bare; values are arbitrary. */
  predicate PrintableKeys(l: MetricLabels) {
    PrintableIn(l, Resource) && PrintableIn(l, Instrumentation) && PrintableIn(l, AwsCloudWatch) && PrintableIn(l, Aws) && PrintableIn(l, Datapoint)
  }

  lemma ScopePrintable(l: MetricLabels, s: Scope)
    ensures (forall it | InScope(l, s, it) :: Printable(it)) <==> PrintableIn(l, s)
  {
    forall name ensures FullKey(s, name) == Prefix(s) + name && (if s.Datapoint? then FullKey(s, name) == name else Clean(FullKey(s, name)) <==> Clean(name)) {
      CleanPrefix(s, name);
    }
    hide Clean, BareName, FullKey;
    if forall it | InScope(l, s, it) :: Printable(it) {
      forall name | name in l.Of(s) ensures if s.Datapoint? then BareName(name) else Clean(name) {
        assert InScope(l, s, Item(Matcher(FullKey(s, name), false, l.Of(s)[name]), !s.Datapoint?));
      }
    }
  }

  lemma CleanPrefix(s: Scope, name: string)
    ensures if s.Datapoint? then FullKey(s, name) == name else Clean(FullKey(s, name)) <==> Clean(name)
  {
    var p := Prefix(s);
    assert Clean(p);
    if Clean(p + name) {
      assert forall i | 0 <= i < |name| :: name[i] == (p + name)[|p| + i];
    }
  }

  /** The conditions can be printed as they are exactly when the keys can. */
  lemma ItemsPrintable(l: MetricLabels, o: Orders)
    requires OrdersOf(l, o) && Covers(l, o)
    ensures (forall i | 0 <= i < |ItemsOf(l, o)| :: Printable(ItemsOf(l, o)[i])) <==> PrintableKeys(l)
  {
    var items := ItemsOf(l, o);
    if PrintableKeys(l) {
      forall s: Scope ensures PrintableIn(l, s) {
      }
      hide *;
      forall i | 0 <= i < |items| ensures Printable(items[i]) {
        PrintedItems(l, o, items[i]);
        var s: Scope :| InScope(l, s, items[i]);
        ScopePrintable(l, s);
      }
    }
    if forall i | 0 <= i < |items| :: Printable(items[i]) {
      forall s: Scope ensures PrintableIn(l, s) {
        hide *;
        forall it | InScope(l, s, it) ensures Printable(it) {
          PrintedItems(l, o, it);
        }
        ScopePrintable(l, s);
      }
    }
  }

  /** The printed text reads back as the printed conditions exactly when the keys, which are not escaped, can be printed as they are. */
  lemma PrintedReadsIff(l: MetricLabels, o: Orders)
    requires OrdersOf(l, o)
    ensures Covers(l, o)
    ensures ReadSelector(Printed(l, o)) == Some(Matchers(ItemsOf(l, o))) <==> PrintableKeys(l)
  {
    hide ReadSelector, Join, PrintItems, ItemsOf, Printable, Matchers, PrintableKeys;
    OrdersCover(l, o);
    ItemsPrintable(l, o);
    ReadBracedIff(ItemsOf(l, o), ", ");
  }

  /** The text reads back as its own conditions, one by one. */
  ghost predicate ReadsAsPrinted(l: MetricLabels, o: Orders)
    requires Covers(l, o)
  {
    ReadSelector(Printed(l, o)) == Some(Matchers(ItemsOf(l, o)))
  }

  /** A datapoint name with a blank, which is neither quoted nor escaped: the text does not read back. */
  lemma BlankInKey()
    ensures var l, o := EMPTY.(datapoint := map["a b" := "1"]), Orders([], [], [], [], ["a b"]);
      OrdersOf(l, o) && Covers(l, o) && !ReadsAsPrinted(l, o)
  {
    var l, o := EMPTY.(datapoint := map["a b" := "1"]), Orders([], [], [], [], ["a b"]);
    BlankUnprintable(l, o);
    hide OrdersOf, Covers, PrintableKeys, ReadSelector, Printed, ItemsOf, Matchers;
    PrintedReadsIff(l, o);
  }

  lemma BlankUnprintable(l: MetricLabels, o: Orders)
    requires l == EMPTY.(datapoint := map["a b" := "1"]) && o == Orders([], [], [], [], ["a b"])
    ensures OrdersOf(l, o) && !PrintableKeys(l)
  {
    assert "a b"[1] == ' ';
    assert !BareName("a b") && "a b" in l.Of(Datapoint);
  }

  /** A resource name with a quote: the text does not read back either. */
  lemma QuoteInKey()
    ensures var l, o := EMPTY.(resource := map["a\"b" := "1"]), Orders(["a\"b"], [], [], [], []);
      OrdersOf(l, o) && Covers(l, o) && !ReadsAsPrinted(l, o)
  {
    var l, o := EMPTY.(resource := map["a\"b" := "1"]), Orders(["a\"b"], [], [], [], []);
    QuoteUnprintable(l, o);
    hide OrdersOf, Covers, PrintableKeys, ReadSelector, Printed, ItemsOf, Matchers;
    PrintedReadsIff(l, o);
  }

  lemma QuoteUnprintable(l: MetricLabels, o: Orders)
    requires l == EMPTY.(resource := map["a\"b" := "1"]) && o == Orders(["a\"b"], [], [], [], [])
    ensures OrdersOf(l, o) && !PrintableKeys(l)
  {
    assert "a\"b"[1] == '\"';
    assert !Clean("a\"b") && "a\"b" in l.Of(Resource);
  }

  /**
    Round trip of `FormatPromQL`, for every iteration order and arbitrary labels: the printed text
    reads back as its conditions and these are exactly `AllLabels`, if and only if the keys can be
    printed as they are and no two scopes clash.
   */
  lemma FormatRoundTrip(l: MetricLabels, o: Orders)
    requires OrdersOf(l, o)
    ensures Covers(l, o)
    ensures ReadsAsPrinted(l, o) && Describes(Matchers(ItemsOf(l, o)), AllLabelsOf(l)) <==> PrintableKeys(l) && !Clashing(l)
    ensures PrintableKeys(l) ==>
      ReadSelector(Printed(l, o)).Some? && (Describes(ReadSelector(Printed(l, o)).value, AllLabelsOf(l)) <==> !Clashing(l))
  {
    PrintedReadsIff(l, o);
    ItemsDescribeLabels(l, o);
  }

  /** The series that carry all these labels, an absent label counting as empty. */
  predicate Carries(x: MetricResult, labels: map<string, string>) {
    forall key | key in labels :: LabelValue(x, key) == labels[key]
  }

  /** A described map selects the series that carry it. */
  lemma DescribedSelects(b: Backend, ms: seq<Matcher>, labels: map<string, string>, x: MetricResult)
    requires Describes(ms, labels)
    ensures b.Selects(ms, x) <==> Carries(x, labels)
  {
    if b.Selects(ms, x) {
      forall key | key in labels ensures LabelValue(x, key) == labels[key] {
        assert Matcher(key, false, labels[key]) in ms;
      }
    }
  }

  /** Labels that clash print as a selector that no series satisfies, though a series with the flat labels carries them. */
  lemma ClashSelectsNothing(b: Backend, l: MetricLabels, o: Orders, x: MetricResult)
    requires OrdersOf(l, o) && Covers(l, o) && Clashing(l)
    ensures !b.Selects(Matchers(ItemsOf(l, o)), x)
    ensures Carries(MetricResult(AllLabelsOf(l), 0.0), AllLabelsOf(l))
  {
    hide OrdersOf, Covers, AllLabelsOf, ItemsOf, Matchers;
    var s: Scope, name, s': Scope, name' :| Clash(l, s, name, s', name');
    var m, m' := Matcher(FullKey(s, name), false, l.Of(s)[name]), Matcher(FullKey(s', name'), false, l.Of(s')[name']);
    PrintedMatchers(l, o, m);
    PrintedMatchers(l, o, m');
    assert m in Matchers(ItemsOf(l, o)) && m' in Matchers(ItemsOf(l, o)) && m.name == m'.name && m.value != m'.value;
  }

  /** The conditions select exactly the series that carry the flattened labels. */
  ghost predicate SelectsCarriers(b: Backend, ms: seq<Matcher>, l: MetricLabels) {
    forall x :: b.Selects(ms, x) <==> Carries(x, AllLabelsOf(l))
  }

  lemma PrintedSelects(b: Backend, l: MetricLabels, o: Orders)
    requires OrdersOf(l, o) && Covers(l, o)
    ensures SelectsCarriers(b, Matchers(ItemsOf(l, o)), l) <==> !Clashing(l)
  {
    ItemsDescribeLabels(l, o);
    hide ItemsOf, Matchers, OrdersOf, Covers, AllLabelsOf, Clashing, Describes, Carries, Backend.Selects;
    var ms, flat := Matchers(ItemsOf(l, o)), AllLabelsOf(l);
    if Clashing(l) {
      ClashSelectsNothing(b, l, o, MetricResult(flat, 0.0));
    } else {
      forall x ensures b.Selects(ms, x) <==> Carries(x, flat) {
        DescribedSelects(b, ms, flat, x);
      }
    }
  }

  /**
    Meaning of `FormatPromQL`, for every iteration order and arbitrary labels: the printed text reads
    back as its conditions and these select exactly the series that carry the labels, if and only if
    the keys can be printed as they are and no two scopes clash.
   */
  lemma FormatMeans(b: Backend, l: MetricLabels, o: Orders)
    requires OrdersOf(l, o)
    ensures Covers(l, o)
    ensures ReadsAsPrinted(l, o) && SelectsCarriers(b, Matchers(ItemsOf(l, o)), l) <==> PrintableKeys(l) && !Clashing(l)
    ensures PrintableKeys(l) ==>
      ReadSelector(Printed(l, o)).Some? && (SelectsCarriers(b, ReadSelector(Printed(l, o)).value, l) <==> !Clashing(l))
  {
    PrintedReadsIff(l, o);
    hide ReadSelector, Printed, ItemsOf, Matchers, OrdersOf, PrintableKeys, Covers, Clashing, SelectsCarriers;
    PrintedSelects(b, l, o);
  }

  /** Normalised labels never clash. */
  lemma NormalisedNeverClash(l: MetricLabels)
    requires LabelLaws.Normalised(l)
    ensures !Clashing(l)
  {
    forall s: Scope, name, s': Scope, name' ensures !Clash(l, s, name, s', name') {
      LabelLaws.ClassifyFullKey(s, name);
      LabelLaws.ClassifyFullKey(s', name');
      hide Classify, FullKey, LabelLaws.Misread;
    }
  }

  /** An AWS label "cloudwatch.x" and a CloudWatch label "x" that differ: the printed selector selects nothing. */
  lemma CloudWatchClash(b: Backend, x: MetricResult)
    ensures var l, o := CLASHING, Orders([], [], ["x"], ["cloudwatch.x"], []);
      && OrdersOf(l, o) && Covers(l, o) && PrintableKeys(l) && Clashing(l)
      && ReadSelector(Printed(l, o)).Some? && !b.Selects(ReadSelector(Printed(l, o)).value, x)
  {
    var l, o := CLASHING, Orders([], [], ["x"], ["cloudwatch.x"], []);
    ClashingPrintable(l, o);
    hide *;
    OrdersCover(l, o);
    PrintedReadsIff(l, o);
    ClashSelectsNothing(b, l, o, x);
  }

  const CLASHING := MetricLabels(map[], map[], map[], map["cloudwatch.x" := "1"], map["x" := "2"])

  lemma ClashingPrintable(l: MetricLabels, o: Orders)
    requires l == CLASHING && o == Orders([], [], ["x"], ["cloudwatch.x"], [])
    ensures OrdersOf(l, o) && PrintableKeys(l) && Clashing(l)
  {
    assert "@aws." + "cloudwatch.x" == "@aws.cloudwatch." + "x";
    assert Clash(l, Aws, "cloudwatch.x", AwsCloudWatch, "x");
  }

  /** Reading the printed selector and parsing the labels it describes gives back `l`. */
  ghost predicate ComesBack(l: MetricLabels, ms: seq<Matcher>) {
    exists flat: map<string, string>, order :: Describes(ms, flat) && IsOrder(order, flat.Keys) && ParseInOrder(flat, order) == l
  }

  /** A list of conditions describes at most one map. */
  lemma DescribesOne(ms: seq<Matcher>, a: map<string, string>, b: map<string, string>)
    requires Describes(ms, a) && Describes(ms, b)
    ensures a == b
  {
    forall key | key in a ensures key in b && a[key] == b[key] {
      assert Matcher(key, false, a[key]) in ms;
    }
    forall key | key in b ensures key in a {
      assert Matcher(key, false, b[key]) in ms;
    }
  }

  lemma PrintedComesBack(l: MetricLabels, o: Orders)
    requires OrdersOf(l, o) && Covers(l, o)
    ensures ComesBack(l, Matchers(ItemsOf(l, o))) <==> LabelLaws.Normalised(l)
  {
    ItemsDescribeLabels(l, o);
    hide ItemsOf, Matchers, OrdersOf, Covers, AllLabelsOf, Clashing, Describes, ParseInOrder, LabelLaws.Normalised;
    var ms, flat := Matchers(ItemsOf(l, o)), AllLabelsOf(l);
    if LabelLaws.Normalised(l) {
      NormalisedNeverClash(l);
      var order := SomeOrder(flat.Keys);
      LabelLaws.ParseFlattened(l, order);
    }
    if other: map<string, string>, order :| Describes(ms, other) && IsOrder(order, other.Keys) && ParseInOrder(other, order) == l {
      DescribedIsFlat(l, o, other);
      LabelLaws.ParseFlattened(l, order);
    }
  }

  /**
    Printing, reading and parsing again, in any iteration order, gives back arbitrary labels exactly
    when the keys can be printed as they are and the labels are normalised.
   */
  lemma PrintReadParse(l: MetricLabels, o: Orders)
    requires OrdersOf(l, o)
    ensures Covers(l, o)
    ensures ReadsAsPrinted(l, o) && ComesBack(l, Matchers(ItemsOf(l, o))) <==> PrintableKeys(l) && LabelLaws.Normalised(l)
    ensures PrintableKeys(l) ==>
      ReadSelector(Printed(l, o)).Some? && (ComesBack(l, ReadSelector(Printed(l, o)).value) <==> LabelLaws.Normalised(l))
  {
    PrintedReadsIff(l, o);
    hide ReadSelector, Printed, ItemsOf, Matchers, OrdersOf, PrintableKeys, Covers, ComesBack, LabelLaws.Normalised;
    PrintedComesBack(l, o);
  }

  /** What the printed conditions describe, if anything, is the flattened labels. */
  lemma DescribedIsFlat(l: MetricLabels, o: Orders, other: map<string, string>)
    requires OrdersOf(l, o) && Covers(l, o) && Describes(Matchers(ItemsOf(l, o)), other)
    ensures other == AllLabelsOf(l)
  {
    ItemsDescribeLabels(l, o);
    hide OrdersOf, Covers, AllLabelsOf, ItemsOf, Matchers;
    var ms := Matchers(ItemsOf(l, o));
    forall s: Scope, name, s': Scope, name' ensures !Clash(l, s, name, s', name') {
      if Clash(l, s, name, s', name') {
        PrintedMatchers(l, o, Matcher(FullKey(s, name), false, l.Of(s)[name]));
        PrintedMatchers(l, o, Matcher(FullKey(s', name'), false, l.Of(s')[name']));
      }
    }
    DescribesOne(ms, other, AllLabelsOf(l));
  }
}
