/** How parsing, flattening and printing of metric labels undo each other, and exactly when they do. */
module LabelLaws {
  import opened Common
  import opened Labels

  /** A flat map holds a key exactly when some scope holds its name, and then with that scope's value. */
  lemma AllLabelsLookup(l: MetricLabels, key: string)
    ensures key in AllLabelsOf(l) <==> exists s: Scope, name :: name in l.Of(s) && key == FullKey(s, name)
    ensures key in AllLabelsOf(l) ==>
      exists s: Scope, name :: name in l.Of(s) && key == FullKey(s, name) && AllLabelsOf(l)[key] == l.Of(s)[name]
  {
    forall s: Scope
      ensures key in Scoped(l, s) ==> key == FullKey(s, key[|Prefix(s)|..]) && key[|Prefix(s)|..] in l.Of(s)
      ensures key in Scoped(l, s) ==> Scoped(l, s)[key] == l.Of(s)[key[|Prefix(s)|..]]
    {
      PrefixedLookup(Prefix(s), l.Of(s), key);
    }
    hide Prefixed;
    if key in AllLabelsOf(l) {
      var s: Scope :| key in Scoped(l, s) && AllLabelsOf(l)[key] == Scoped(l, s)[key];
      assert key[|Prefix(s)|..] in l.Of(s);
    }
    forall s: Scope, name | name in l.Of(s) && key == FullKey(s, name) ensures key in AllLabelsOf(l) {
      FullKeyScoped(l, s, name);
    }
  }

  lemma FullKeyScoped(l: MetricLabels, s: Scope, name: string)
    requires name in l.Of(s)
    ensures FullKey(s, name) in AllLabelsOf(l)
  {
    var key := FullKey(s, name);
    PrefixedLookup(Prefix(s), l.Of(s), key);
    assert key[|Prefix(s)|..] == name;
    hide Prefixed;
    assert key in Scoped(l, s);
  }

  /** Whatever the order, a parsed label comes from a key of the input that belongs there, and every such key leaves one. */
  lemma ParsedFrom(metric: map<string, string>, order: seq<string>, s: Scope, name: string)
    requires IsOrder(order, metric.Keys)
    ensures name in ParseInOrder(metric, order).Of(s) <==> exists key :: key in metric && Classify(key) == Some((s, name))
    ensures name in ParseInOrder(metric, order).Of(s) ==>
      exists key :: key in metric && Classify(key) == Some((s, name)) && ParseInOrder(metric, order).Of(s)[name] == metric[key]
  {
    ParseLookup(metric, order, s, name);
    assert forall key :: key in order <==> key in Elems(order);
  }

  predicate HasExplicit(metric: map<string, string>) {
    exists key | key in metric :: EXPLICIT <= key
  }

  lemma FlatComesFromInput(metric: map<string, string>, order: seq<string>, key: string)
    requires IsOrder(order, metric.Keys) && !HasExplicit(metric)
    ensures key in AllLabelsOf(ParseInOrder(metric, order)) ==>
      key in metric && key != "__name__" && AllLabelsOf(ParseInOrder(metric, order))[key] == metric[key]
  {
    var l := ParseInOrder(metric, order);
    AllLabelsLookup(l, key);
    if key in AllLabelsOf(l) {
      var s: Scope, name :| name in l.Of(s) && key == FullKey(s, name) && AllLabelsOf(l)[key] == l.Of(s)[name];
      ParsedFrom(metric, order, s, name);
      var k :| k in metric && Classify(k) == Some((s, name)) && l.Of(s)[name] == metric[k];
      ClassifyInverse(k);
    }
  }

  lemma InputBecomesFlat(metric: map<string, string>, order: seq<string>, key: string)
    requires IsOrder(order, metric.Keys) && !HasExplicit(metric)
    requires key in metric && key != "__name__"
    ensures key in AllLabelsOf(ParseInOrder(metric, order))
  {
    var l := ParseInOrder(metric, order);
    var (s, name) := Classify(key).value;
    ParsedFrom(metric, order, s, name);
    ClassifyInverse(key);
    assert name in l.Of(s) && key == FullKey(s, name);
    AllLabelsLookup(l, key);
  }

  lemma NoExplicitRoundTrip(metric: map<string, string>, order: seq<string>)
    requires IsOrder(order, metric.Keys) && !HasExplicit(metric)
    ensures AllLabelsOf(ParseInOrder(metric, order)) == metric - {"__name__"}
  {
    hide AllLabelsOf, ParseInOrder, HasExplicit;
    var flat, want := AllLabelsOf(ParseInOrder(metric, order)), metric - {"__name__"};
    forall key | key in flat ensures key in want && flat[key] == want[key] {
      FlatComesFromInput(metric, order, key);
    }
    forall key | key in want ensures key in flat {
      InputBecomesFlat(metric, order, key);
    }
    SameMap(flat, want);
  }

  lemma ExplicitLost(metric: map<string, string>, order: seq<string>)
    requires IsOrder(order, metric.Keys) && HasExplicit(metric)
    ensures AllLabelsOf(ParseInOrder(metric, order)) != metric - {"__name__"}
  {
    var l := ParseInOrder(metric, order);
    var some :| some in metric && EXPLICIT <= some;
    var explicit := set key | key in metric && EXPLICIT <= key;
    assert some in explicit;
    var longest := Longest(explicit);
    if longest in AllLabelsOf(l) {
      AllLabelsLookup(l, longest);
      var s: Scope, name :| name in l.Of(s) && longest == FullKey(s, name);
      ParsedFrom(metric, order, s, name);
      var k :| k in metric && Classify(k) == Some((s, name));
      ClassifyInverse(k);
      ExplicitKey(s, name);
    }
  }

  /** An explicit datapoint key is the full key of no scope but the datapoint scope. */
  lemma ExplicitKey(s: Scope, name: string)
    requires EXPLICIT <= FullKey(s, name)
    ensures s == Datapoint && FullKey(s, name) == name
  {
    assert FullKey(s, name)[1] == EXPLICIT[1] == 'd';
  }

  /**
    Flattening the parsed labels gives back the input without its metric name, in every iteration
    order, exactly when the input has no explicit datapoint key: those come back without their prefix.
   */
  lemma FlattenParsed(metric: map<string, string>, order: seq<string>)
    requires IsOrder(order, metric.Keys)
    ensures AllLabelsOf(ParseInOrder(metric, order)) == metric - {"__name__"} <==> !HasExplicit(metric)
  {
    if HasExplicit(metric) {
      ExplicitLost(metric, order);
    } else {
      NoExplicitRoundTrip(metric, order);
    }
  }

  /** An explicit datapoint key comes back without its prefix. */
  lemma ExplicitDatapoint()
    ensures var metric := map["@datapoint.x" := "1"];
      && IsOrder(["@datapoint.x"], metric.Keys)
      && AllLabelsOf(ParseInOrder(metric, ["@datapoint.x"])) == map["x" := "1"] != metric - {"__name__"}
  {
    var key, name := "@datapoint.x", "x";
    assert EXPLICIT + name == key && key[0] != name[0] && FullKey(Datapoint, name) == name;
    ClassifyExplicit(name);
    ParseOne(key, "1", Datapoint, name);
    hide AllLabelsOf, ParseInOrder, FullKey;
    FlatOne(Datapoint, name, "1");
    assert name in map[name := "1"] && name !in map[key := "1"];
  }

  lemma ParseOne(key: string, value: string, s: Scope, name: string)
    requires Classify(key) == Some((s, name))
    ensures var metric := map[key := value]; IsOrder([key], metric.Keys) && ParseInOrder(metric, [key]) == EMPTY.Put(s, name, value)
  {
    assert [key][..0] == [] && Elems([key]) == {key};
  }

  lemma ScopedOne(s: Scope, name: string, value: string, other: Scope)
    ensures Scoped(EMPTY.Put(s, name, value), other) == if other == s then map[FullKey(s, name) := value] else map[]
  {
    hide Prefixed, Prefix;
    NothingPrefixed(Prefix(other));
    PrefixedInsert(Prefix(s), map[], name, value);
    assert EMPTY.Put(s, name, value).Of(other) == if other == s then map[][name := value] else map[];
  }

  /** One label flattens to one key. */
  lemma FlatOne(s: Scope, name: string, value: string)
    ensures AllLabelsOf(EMPTY.Put(s, name, value)) == map[FullKey(s, name) := value]
  {
    hide Scoped, FullKey;
    forall other: Scope
      ensures Scoped(EMPTY.Put(s, name, value), other) == if other == s then map[FullKey(s, name) := value] else map[]
    {
      ScopedOne(s, name, value, other);
    }
  }

  lemma NothingPrefixed(prefix: string)
    ensures Prefixed(prefix, map[]) == map[]
  {
    forall key ensures key !in Prefixed(prefix, map[]) {
      PrefixedLookup(prefix, map[], key);
    }
  }

  // ----- parsing the flattened labels -----

  /** No AWS label that reads as a CloudWatch label, no datapoint label that reads as the metric name or as scoped. */
  predicate Normalised(l: MetricLabels) {
    && (forall name | name in l.aws :: !("cloudwatch." <= name))
    && (forall name | name in l.datapoint :: !Misread(name))
  }

  predicate Misread(name: string) {
    name == "__name__" || "@aws." <= name || "@resource." <= name || "@instrumentation." <= name || "@datapoint." <= name
  }

  lemma PrefixOfConcat(p: string, q: string, name: string)
    ensures p + q <= p + name <==> q <= name
  {
    assert forall i | 0 <= i < |q| :: (p + q)[|p| + i] == q[i];
    assert forall i | 0 <= i < |name| :: (p + name)[|p| + i] == name[i];
    if p + q <= p + name {
      assert forall i | 0 <= i < |q| :: q[i] == (p + q)[|p| + i] == (p + name)[|p| + i] == name[i];
    }
  }

  lemma ClassifyAws(name: string)
    ensures Classify(FullKey(Aws, name)) == Some((Aws, name)) <==> !("cloudwatch." <= name)
  {
    var key := FullKey(Aws, name);
    assert key[|Prefix(Aws)|..] == name && Prefix(Aws) <= key && key[0] == Prefix(Aws)[0] == '@';
    assert Prefix(AwsCloudWatch) == Prefix(Aws) + "cloudwatch.";
    PrefixOfConcat(Prefix(Aws), "cloudwatch.", name);
  }

  lemma ClassifyDatapoint(name: string)
    ensures Classify(FullKey(Datapoint, name)) == Some((Datapoint, name)) <==> !Misread(name)
  {
    assert FullKey(Datapoint, name) == name;
    assert Prefix(Aws) <= Prefix(AwsCloudWatch);
    assert EXPLICIT <= name ==> |name[|EXPLICIT|..]| < |name|;
  }

  /** The scopes whose prefix begins no other scope's prefix. */
  lemma ClassifyOther(s: Scope, name: string)
    requires s.AwsCloudWatch? || s.Resource? || s.Instrumentation?
    ensures Classify(FullKey(s, name)) == Some((s, name))
  {
    var key := FullKey(s, name);
    assert key[|Prefix(s)|..] == name && Prefix(s) <= key;
    assert key[0] == Prefix(s)[0] == '@' && key[1] == Prefix(s)[1];
    assert Prefix(AwsCloudWatch)[1] == Prefix(Aws)[1] == 'a' && Prefix(Resource)[1] == 'r' && Prefix(Instrumentation)[1] == 'i';
  }

  lemma ClassifyFullKey(s: Scope, name: string)
    ensures Classify(FullKey(s, name)) == Some((s, name)) <==>
      match s
      case Aws => !("cloudwatch." <= name)
      case Datapoint => !Misread(name)
      case _ => true
  {
    hide Classify, FullKey, Misread;
    match s
    case Aws => ClassifyAws(name);
    case Datapoint => ClassifyDatapoint(name);
    case _ => ClassifyOther(s, name);
  }

  lemma BackFromLabels(l: MetricLabels, order: seq<string>, s: Scope, name: string)
    requires IsOrder(order, AllLabelsOf(l).Keys) && Normalised(l)
    ensures name in ParseInOrder(AllLabelsOf(l), order).Of(s) ==>
      name in l.Of(s) && ParseInOrder(AllLabelsOf(l), order).Of(s)[name] == l.Of(s)[name]
  {
    var flat := AllLabelsOf(l);
    ParsedFrom(flat, order, s, name);
    if name in ParseInOrder(flat, order).Of(s) {
      var key :| key in flat && Classify(key) == Some((s, name)) && ParseInOrder(flat, order).Of(s)[name] == flat[key];
      AllLabelsLookup(l, key);
      var s': Scope, name' :| name' in l.Of(s') && key == FullKey(s', name') && flat[key] == l.Of(s')[name'];
      ClassifyFullKey(s', name');
    }
  }

  lemma LabelsComeBack(l: MetricLabels, order: seq<string>, s: Scope, name: string)
    requires IsOrder(order, AllLabelsOf(l).Keys) && Normalised(l)
    requires name in l.Of(s)
    ensures name in ParseInOrder(AllLabelsOf(l), order).Of(s)
  {
    AllLabelsLookup(l, FullKey(s, name));
    ClassifyFullKey(s, name);
    assert FullKey(s, name) in AllLabelsOf(l);
    ParsedFrom(AllLabelsOf(l), order, s, name);
  }

  lemma NormalisedRoundTrip(l: MetricLabels, order: seq<string>)
    requires IsOrder(order, AllLabelsOf(l).Keys) && Normalised(l)
    ensures ParseInOrder(AllLabelsOf(l), order) == l
  {
    hide AllLabelsOf, ParseInOrder, Normalised;
    var back := ParseInOrder(AllLabelsOf(l), order);
    forall s: Scope ensures back.Of(s) == l.Of(s) {
      forall name | name in back.Of(s) ensures name in l.Of(s) && back.Of(s)[name] == l.Of(s)[name] {
        BackFromLabels(l, order, s, name);
      }
      forall name | name in l.Of(s) ensures name in back.Of(s) {
        LabelsComeBack(l, order, s, name);
      }
      SameMap(back.Of(s), l.Of(s));
    }
    SameLabels(back, l);
  }

  lemma CloudWatchLost(l: MetricLabels, order: seq<string>, name: string)
    requires IsOrder(order, AllLabelsOf(l).Keys)
    requires name in l.aws && "cloudwatch." <= name
    ensures name !in ParseInOrder(AllLabelsOf(l), order).Of(Aws)
  {
    hide AllLabelsOf, ParseInOrder;
    var flat := AllLabelsOf(l);
    ParsedFrom(flat, order, Aws, name);
    ClassifyFullKey(Aws, name);
    forall key | key in flat && Classify(key) == Some((Aws, name)) ensures false {
      ClassifyInverse(key);
    }
  }

  /** The longest misread datapoint label can only be restored by a longer one. */
  lemma LongestMisreadLost(l: MetricLabels, order: seq<string>, name: string)
    requires IsOrder(order, AllLabelsOf(l).Keys)
    requires name in l.datapoint && Misread(name)
    requires forall other | other in l.datapoint && Misread(other) :: |other| <= |name|
    ensures name !in ParseInOrder(AllLabelsOf(l), order).Of(Datapoint)
  {
    hide AllLabelsOf, ParseInOrder;
    var flat := AllLabelsOf(l);
    ParsedFrom(flat, order, Datapoint, name);
    ClassifyFullKey(Datapoint, name);
    assert FullKey(Datapoint, name) == name;
    forall key | key in flat && Classify(key) == Some((Datapoint, name)) ensures false {
      ClassifyInverse(key);
      assert EXPLICIT <= key;
      AllLabelsLookup(l, key);
      var s: Scope, other :| other in l.Of(s) && key == FullKey(s, other);
      ExplicitKey(s, other);
    }
  }

  lemma MisreadLost(l: MetricLabels, order: seq<string>)
    requires IsOrder(order, AllLabelsOf(l).Keys) && !Normalised(l)
    ensures ParseInOrder(AllLabelsOf(l), order) != l
  {
    hide AllLabelsOf, ParseInOrder;
    if name :| name in l.aws && "cloudwatch." <= name {
      CloudWatchLost(l, order, name);
    } else {
      var some :| some in l.datapoint && Misread(some);
      var misread := set name | name in l.datapoint && Misread(name);
      assert some in misread;
      var longest := Longest(misread);
      LongestMisreadLost(l, order, longest);
    }
  }

  /** Parsing the flattened labels gives the labels back, in every iteration order, exactly when they are normalised. */
  lemma ParseFlattened(l: MetricLabels, order: seq<string>)
    requires IsOrder(order, AllLabelsOf(l).Keys)
    ensures ParseInOrder(AllLabelsOf(l), order) == l <==> Normalised(l)
  {
    if Normalised(l) {
      NormalisedRoundTrip(l, order);
    } else {
      MisreadLost(l, order);
    }
  }

  /** An AWS label "cloudwatch.x" comes back as the CloudWatch label "x". */
  lemma CloudWatchReread()
    ensures var l, back := EMPTY.Put(Aws, "cloudwatch.x", "1"), EMPTY.Put(AwsCloudWatch, "x", "1");
      var flat := map["@aws.cloudwatch.x" := "1"];
      && AllLabelsOf(l) == flat && IsOrder(["@aws.cloudwatch.x"], flat.Keys)
      && ParseInOrder(flat, ["@aws.cloudwatch.x"]) == back != l
  {
    var key := "@aws.cloudwatch.x";
    assert FullKey(Aws, "cloudwatch.x") == key == FullKey(AwsCloudWatch, "x");
    ClassifyFullKey(AwsCloudWatch, "x");
    hide AllLabelsOf, ParseInOrder, FullKey, Classify;
    FlatOne(Aws, "cloudwatch.x", "1");
    ParseOne(key, "1", AwsCloudWatch, "x");
    assert "x" in EMPTY.Put(AwsCloudWatch, "x", "1").awsCloudWatch;
  }

  // ----- iteration order -----

  /** Two keys of the input, with different values, become the same datapoint label. */
  predicate Conflicted(metric: map<string, string>) {
    exists name | name in metric :: Conflict(metric, name)
  }

  predicate Conflict(metric: map<string, string>, name: string)
    requires name in metric
  {
    !Misread(name) && EXPLICIT + name in metric && metric[EXPLICIT + name] != metric[name]
  }

  lemma OrderIrrelevant(metric: map<string, string>, a: seq<string>, b: seq<string>)
    requires IsOrder(a, metric.Keys) && IsOrder(b, metric.Keys) && !Conflicted(metric)
    ensures ParseInOrder(metric, a) == ParseInOrder(metric, b)
  {
    var la, lb := ParseInOrder(metric, a), ParseInOrder(metric, b);
    forall s: Scope ensures la.Of(s) == lb.Of(s) {
      forall name
        ensures name in la.Of(s) <==> name in lb.Of(s)
        ensures name in la.Of(s) ==> la.Of(s)[name] == lb.Of(s)[name]
      {
        ParsedFrom(metric, a, s, name);
        ParsedFrom(metric, b, s, name);
        if name in la.Of(s) {
          var ka :| ka in metric && Classify(ka) == Some((s, name)) && la.Of(s)[name] == metric[ka];
          var kb :| kb in metric && Classify(kb) == Some((s, name)) && lb.Of(s)[name] == metric[kb];
          SameSlot(metric, ka, kb, s, name);
        }
      }
    }
    SameLabels(la, lb);
  }

  lemma SameSlot(metric: map<string, string>, a: string, b: string, s: Scope, name: string)
    requires !Conflicted(metric) && a in metric && b in metric
    requires Classify(a) == Some((s, name)) && Classify(b) == Some((s, name))
    ensures metric[a] == metric[b]
  {
    ClassifyInverse(a);
    ClassifyInverse(b);
    ClassifyFullKey(s, name);
    if a != b {
      assert name in metric && !Conflict(metric, name);
    }
  }

  lemma SharedSlot(name: string)
    requires !Misread(name)
    ensures Classify(name) == Some((Datapoint, name)) && Classify(EXPLICIT + name) == Some((Datapoint, name))
  {
    ClassifyFullKey(Datapoint, name);
    assert FullKey(Datapoint, name) == name;
    ClassifyExplicit(name);
  }

  lemma ClassifyExplicit(name: string)
    ensures Classify(EXPLICIT + name) == Some((Datapoint, name))
  {
    var key := EXPLICIT + name;
    assert key[1] == EXPLICIT[1] == 'd';
    assert key[|EXPLICIT|..] == name && EXPLICIT <= key;
    forall s: Scope | s != Datapoint ensures !(Prefix(s) <= key) {
      assert Prefix(s)[1] != 'd';
    }
    assert key[1] != "__name__"[1];
  }

  lemma OrderMatters(metric: map<string, string>) returns (a: seq<string>, b: seq<string>)
    requires Conflicted(metric)
    ensures IsOrder(a, metric.Keys) && IsOrder(b, metric.Keys)
    ensures ParseInOrder(metric, a) != ParseInOrder(metric, b)
  {
    hide ParseInOrder, Classify, Misread;
    var name :| name in metric && Conflict(metric, name);
    var long := EXPLICIT + name;
    var rest := SomeOrder(metric.Keys - {name, long});
    assert |long| > |name|;
    a, b := rest + [long, name], rest + [name, long];
    OrderWithLast(rest, long, name, metric.Keys);
    OrderWithLast(rest, name, long, metric.Keys);
    SharedSlot(name);
    assert a == (rest + [long]) + [name] && b == (rest + [name]) + [long];
    LastWins(metric, rest + [long], name, name);
    LastWins(metric, rest + [name], long, name);
  }

  lemma OrderWithLast(rest: seq<string>, x: string, y: string, keys: set<string>)
    requires x != y && x in keys && y in keys && IsOrder(rest, keys - {x, y})
    ensures IsOrder(rest + [x, y], keys)
  {
    assert forall k | k in rest :: k in Elems(rest);
    assert Elems(rest + [x, y]) == Elems(rest) + {x, y};
  }

  lemma LastWins(metric: map<string, string>, front: seq<string>, key: string, name: string)
    requires Elems(front + [key]) <= metric.Keys && Classify(key) == Some((Datapoint, name))
    ensures var l := ParseInOrder(metric, front + [key]); key in metric && name in l.datapoint && l.datapoint[name] == metric[key]
  {
    var order := front + [key];
    assert key in Elems(order) && Elems(front) <= Elems(order);
    assert order[..|order| - 1] == front;
    StepLookup(ParseInOrder(metric, front), key, metric[key], Datapoint);
  }

  /** The result depends on the iteration order exactly when an explicit and an implicit datapoint key of one name disagree. */
  lemma OrderIndependence(metric: map<string, string>)
    ensures (forall a, b | IsOrder(a, metric.Keys) && IsOrder(b, metric.Keys) :: ParseInOrder(metric, a) == ParseInOrder(metric, b))
      <==> !Conflicted(metric)
  {
    if Conflicted(metric) {
      var a, b := OrderMatters(metric);
    } else {
      forall a, b | IsOrder(a, metric.Keys) && IsOrder(b, metric.Keys) ensures ParseInOrder(metric, a) == ParseInOrder(metric, b) {
        OrderIrrelevant(metric, a, b);
      }
    }
  }

  /** An explicit and an implicit datapoint key of one name: two iteration orders, two results. */
  lemma ConflictingKeys() returns (a: seq<string>, b: seq<string>)
    ensures var metric := map["@datapoint.x" := "1", "x" := "2"];
      && IsOrder(a, metric.Keys) && IsOrder(b, metric.Keys)
      && ParseInOrder(metric, a) != ParseInOrder(metric, b)
  {
    var metric := map["@datapoint.x" := "1", "x" := "2"];
    assert EXPLICIT + "x" == "@datapoint.x" && "@datapoint.x"[0] != "x"[0];
    assert "x" in metric && Conflict(metric, "x");
    a, b := OrderMatters(metric);
  }
}
