/** Metric labels grouped by scope: parsing flat label maps and flattening them again. */
module Labels {
  import opened Common

  datatype Scope = Resource | Instrumentation | AwsCloudWatch | Aws | Datapoint

  datatype MetricLabels = MetricLabels(
    resource: map<string, string>,
    instrumentation: map<string, string>,
    datapoint: map<string, string>,
    aws: map<string, string>,
    awsCloudWatch: map<string, string>
  ) {
    function Of(s: Scope): map<string, string> {
      match s
      case Resource => resource
      case Instrumentation => instrumentation
      case AwsCloudWatch => awsCloudWatch
      case Aws => aws
      case Datapoint => datapoint
    }

    function Put(s: Scope, name: string, value: string): MetricLabels {
      match s
      case Resource => this.(resource := resource[name := value])
      case Instrumentation => this.(instrumentation := instrumentation[name := value])
      case AwsCloudWatch => this.(awsCloudWatch := awsCloudWatch[name := value])
      case Aws => this.(aws := aws[name := value])
      case Datapoint => this.(datapoint := datapoint[name := value])
    }
  }

  const EMPTY := MetricLabels(map[], map[], map[], map[], map[])

  /** The prefix under which a scope's labels appear in a flat label map. */
  function Prefix(s: Scope): string {
    match s
    case Resource => "@resource."
    case Instrumentation => "@instrumentation."
    case AwsCloudWatch => "@aws.cloudwatch."
    case Aws => "@aws."
    case Datapoint => ""
  }

  const EXPLICIT := "@datapoint."

  function FullKey(s: Scope, name: string): string {
    Prefix(s) + name
  }

  /** The `switch` of `ParseLabels`: scope and stripped name of a flat key, or nothing for the metric name. */
  function Classify(key: string): Option<(Scope, string)> {
    if key == "__name__" then None
    else if Prefix(AwsCloudWatch) <= key then Some((AwsCloudWatch, key[|Prefix(AwsCloudWatch)|..]))
    else if Prefix(Aws) <= key then Some((Aws, key[|Prefix(Aws)|..]))
    else if Prefix(Resource) <= key then Some((Resource, key[|Prefix(Resource)|..]))
    else if Prefix(Instrumentation) <= key then Some((Instrumentation, key[|Prefix(Instrumentation)|..]))
    else if EXPLICIT <= key then Some((Datapoint, key[|EXPLICIT|..]))
    else Some((Datapoint, key))
  }

  function ParseStep(l: MetricLabels, key: string, value: string): MetricLabels {
    match Classify(key)
    case None => l
    case Some((s, name)) => l.Put(s, name, value)
  }

  /** The labels after handling the keys of `order` one after the other. */
  function ParseInOrder(metric: map<string, string>, order: seq<string>): MetricLabels
    requires Elems(order) <= metric.Keys
  {
    if order == [] then EMPTY
    else
      var front, key := order[..|order| - 1], order[|order| - 1];
      assert Elems(front) <= Elems(order) && key in Elems(order);
      ParseStep(ParseInOrder(metric, front), key, metric[key])
  }

  method ParseLabels(metric: map<string, string>, order: seq<string>) returns (labels: MetricLabels)
    requires IsOrder(order, metric.Keys)
    ensures labels == ParseInOrder(metric, order)
  {
    labels := EMPTY;
    assert order[..|order|] == order;
    for i := 0 to |order|
      invariant Elems(order[..i]) <= metric.Keys
      invariant labels == ParseInOrder(metric, order[..i])
    {
      var key := order[i];
      assert key in Elems(order);
      assert order[..i + 1][..i] == order[..i];
      assert Elems(order[..i + 1]) == Elems(order[..i]) + {key};
      var value := metric[key];
      if key == "__name__" {
        continue;
      } else if "@aws.cloudwatch." <= key {
        labels := labels.(awsCloudWatch := labels.awsCloudWatch[key[|"@aws.cloudwatch."|..] := value]);
      } else if "@aws." <= key {
        labels := labels.(aws := labels.aws[key[|"@aws."|..] := value]);
      } else if "@resource." <= key {
        labels := labels.(resource := labels.resource[key[|"@resource."|..] := value]);
      } else if "@instrumentation." <= key {
        labels := labels.(instrumentation := labels.instrumentation[key[|"@instrumentation."|..] := value]);
      } else if "@datapoint." <= key {
        labels := labels.(datapoint := labels.datapoint[key[|"@datapoint."|..] := value]);
      } else {
        labels := labels.(datapoint := labels.datapoint[key := value]);
      }
    }
  }

  // ----- flattening -----

  /** A scope's labels under their full keys. */
  function Prefixed(prefix: string, labels: map<string, string>): map<string, string> {
    var keys := set name | name in labels :: prefix + name;
    assert forall name | name in labels :: (prefix + name)[|prefix|..] == name;
    map key | key in keys :: labels[key[|prefix|..]]
  }

  lemma PrefixedLookup(prefix: string, labels: map<string, string>, key: string)
    ensures key in Prefixed(prefix, labels) <==> prefix <= key && key[|prefix|..] in labels
    ensures key in Prefixed(prefix, labels) ==> Prefixed(prefix, labels)[key] == labels[key[|prefix|..]]
  {
    if prefix <= key && key[|prefix|..] in labels {
      assert key == prefix + key[|prefix|..];
    }
    if key in Prefixed(prefix, labels) {
      var name :| name in labels && key == prefix + name;
      assert key[|prefix|..] == name;
    }
  }

  function Scoped(l: MetricLabels, s: Scope): map<string, string> {
    Prefixed(Prefix(s), l.Of(s))
  }

  /** Later scopes overwrite earlier ones, in the order in which the source handles them. */
  function AllLabelsOf(l: MetricLabels): map<string, string> {
    map[] + Scoped(l, Resource) + Scoped(l, Instrumentation) + Scoped(l, AwsCloudWatch) + Scoped(l, Aws) + Scoped(l, Datapoint)
  }

  lemma PrefixedInsertAt(prefix: string, labels: map<string, string>, name: string, value: string, key: string)
    ensures var a, b := Prefixed(prefix, labels[name := value]), Prefixed(prefix, labels)[prefix + name := value];
      (key in a <==> key in b) && (key in a ==> a[key] == b[key])
  {
    PrefixedLookup(prefix, labels[name := value], key);
    PrefixedLookup(prefix, labels, key);
    hide Prefixed;
    assert (prefix + name)[|prefix|..] == name;
    if prefix <= key && key[|prefix|..] == name {
      assert key == prefix + name;
    }
  }

  lemma PrefixedInsert(prefix: string, labels: map<string, string>, name: string, value: string)
    ensures Prefixed(prefix, labels[name := value]) == Prefixed(prefix, labels)[prefix + name := value]
  {
    hide Prefixed;
    var a, b := Prefixed(prefix, labels[name := value]), Prefixed(prefix, labels)[prefix + name := value];
    forall key ensures (key in a <==> key in b) && (key in a ==> a[key] == b[key]) {
      PrefixedInsertAt(prefix, labels, name, value, key);
    }
  }

  function Restrict(labels: map<string, string>, names: seq<string>): map<string, string> {
    map name | name in names && name in labels :: labels[name]
  }

  lemma AddName(result: map<string, string>, prefix: string, labels: map<string, string>, names: seq<string>, name: string)
    requires name in labels
    ensures (result + Prefixed(prefix, Restrict(labels, names)))[prefix + name := labels[name]]
         == result + Prefixed(prefix, Restrict(labels, names + [name]))
  {
    assert Restrict(labels, names + [name]) == Restrict(labels, names)[name := labels[name]];
    hide Prefixed, Restrict;
    PrefixedInsert(prefix, Restrict(labels, names), name, labels[name]);
    InsertLast(result, Prefixed(prefix, Restrict(labels, names)), prefix + name, labels[name]);
  }

  lemma InsertLast<K, V>(a: map<K, V>, b: map<K, V>, k: K, v: V)
    ensures (a + b)[k := v] == a + b[k := v]
  {
  }

  /** The flat map after handling the names of `order` one after the other. */
  function AddInOrder(result: map<string, string>, prefix: string, labels: map<string, string>, order: seq<string>): map<string, string>
    requires forall name | name in order :: name in labels
  {
    if order == [] then result
    else AddInOrder(result, prefix, labels, order[..|order| - 1])[prefix + order[|order| - 1] := labels[order[|order| - 1]]]
  }

  lemma {:induction false} AddAll(result: map<string, string>, prefix: string, labels: map<string, string>, order: seq<string>)
    requires forall name | name in order :: name in labels
    ensures AddInOrder(result, prefix, labels, order) == result + Prefixed(prefix, Restrict(labels, order))
  {
    if order == [] {
      assert Restrict(labels, []) == map[];
    } else {
      var front, last := order[..|order| - 1], order[|order| - 1];
      AddAll(result, prefix, labels, front);
      AddName(result, prefix, labels, front, last);
      assert front + [last] == order;
    }
  }

  /** One of the five loops: adds a scope's labels under their full keys. */
  method AddScope(result: map<string, string>, prefix: string, labels: map<string, string>, order: seq<string>)
    returns (r: map<string, string>)
    requires IsOrder(order, labels.Keys)
    ensures r == result + Prefixed(prefix, labels)
  {
    r := result;
    assert forall name | name in order :: name in Elems(order);
    for i := 0 to |order|
      invariant r == AddInOrder(result, prefix, labels, order[..i])
    {
      assert order[..i + 1][..i] == order[..i];
      r := r[prefix + order[i] := labels[order[i]]];
    }
    assert order[..|order|] == order;
    AddAll(result, prefix, labels, order);
    assert Restrict(labels, order) == labels by {
      assert forall name | name in labels :: name in Elems(order);
    }
  }

  /** One iteration order per scope. */
  datatype Orders = Orders(
    resource: seq<string>,
    instrumentation: seq<string>,
    awsCloudWatch: seq<string>,
    aws: seq<string>,
    datapoint: seq<string>
  )

  ghost predicate OrdersOf(l: MetricLabels, o: Orders) {
    && IsOrder(o.resource, l.resource.Keys)
    && IsOrder(o.instrumentation, l.instrumentation.Keys)
    && IsOrder(o.awsCloudWatch, l.awsCloudWatch.Keys)
    && IsOrder(o.aws, l.aws.Keys)
    && IsOrder(o.datapoint, l.datapoint.Keys)
  }

  method AllLabels(l: MetricLabels, o: Orders) returns (result: map<string, string>)
    requires OrdersOf(l, o)
    ensures result == AllLabelsOf(l)
  {
    result := AddScope(map[], "@resource.", l.resource, o.resource);
    result := AddScope(result, "@instrumentation.", l.instrumentation, o.instrumentation);
    result := AddScope(result, "@aws.cloudwatch.", l.awsCloudWatch, o.awsCloudWatch);
    result := AddScope(result, "@aws.", l.aws, o.aws);
    result := AddScope(result, "", l.datapoint, o.datapoint);
  }

  // ----- what parsing does to a key -----

  /** A flat key that is not an explicit datapoint key is the full key of its scope and name. */
  lemma ClassifyInverse(key: string)
    requires Classify(key).Some?
    ensures var (s, name) := Classify(key).value;
      if EXPLICIT <= key then s == Datapoint && key == EXPLICIT + name else key == FullKey(s, name)
  {
    if EXPLICIT <= key {
      assert key[1] == 'd' == EXPLICIT[1];
      assert "@aws."[1] == 'a' && "@resource."[1] == 'r' && "@instrumentation."[1] == 'i' && "@aws.cloudwatch."[1] == 'a';
      assert key[1] != '_';
    }
  }

  lemma StepLookup(l: MetricLabels, key: string, value: string, s: Scope)
    ensures ParseStep(l, key, value).Of(s) ==
      if Classify(key).Some? && Classify(key).value.0 == s then l.Of(s)[Classify(key).value.1 := value] else l.Of(s)
  {
  }

  /** What is said of scope `s` and `name` by parsing the keys of `order`: the last key that lands there decides. */
  lemma {:induction false} ParseLookup(metric: map<string, string>, order: seq<string>, s: Scope, name: string)
    requires Elems(order) <= metric.Keys
    ensures name in ParseInOrder(metric, order).Of(s) <==> exists key :: key in order && Classify(key) == Some((s, name))
    ensures name in ParseInOrder(metric, order).Of(s) ==>
      exists key :: key in order && Classify(key) == Some((s, name)) && ParseInOrder(metric, order).Of(s)[name] == metric[key]
  {
    if order != [] {
      var front, last := order[..|order| - 1], order[|order| - 1];
      assert order == front + [last];
      assert Elems(front) <= Elems(order) && last in Elems(order);
      ParseLookup(metric, front, s, name);
      var before, after := ParseInOrder(metric, front), ParseInOrder(metric, order);
      StepLookup(before, last, metric[last], s);
      if Classify(last) == Some((s, name)) {
        assert after.Of(s)[name] == metric[last];
      } else {
        assert name in after.Of(s) <==> name in before.Of(s);
        if name in before.Of(s) {
          var key :| key in front && Classify(key) == Some((s, name)) && before.Of(s)[name] == metric[key];
          assert key in order && after.Of(s)[name] == metric[key];
        }
      }
    }
  }

  lemma SameLabels(a: MetricLabels, b: MetricLabels)
    requires forall s: Scope :: a.Of(s) == b.Of(s)
    ensures a == b
  {
    assert a.Of(Resource) == b.Of(Resource) && a.Of(Instrumentation) == b.Of(Instrumentation);
    assert a.Of(AwsCloudWatch) == b.Of(AwsCloudWatch) && a.Of(Aws) == b.Of(Aws) && a.Of(Datapoint) == b.Of(Datapoint);
  }

  lemma {:induction false} Longest(keys: set<string>) returns (longest: string)
    requires keys != {}
    ensures longest in keys && forall k | k in keys :: |k| <= |longest|
    decreases keys
  {
    var k :| k in keys;
    if keys == {k} {
      longest := k;
    } else {
      var other := Longest(keys - {k});
      longest := if |k| <= |other| then other else k;
      forall x | x in keys ensures |x| <= |longest| {
        assert x == k || x in keys - {k};
      }
    }
  }
}
