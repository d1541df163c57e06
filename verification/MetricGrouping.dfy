/** `getMetricsInClusterDimension`, which groups metrics by their dimension names, and `compareMetrics`. */
module MetricGrouping {
  import opened Common
  import opened Sorting

  datatype Dimension = Dimension(name: string, value: string)

  datatype Metric = Metric(name: string, dimensions: seq<Dimension>)

  /** The dimension sets stored for each metric name. */
  type Stored = map<string, seq<seq<Dimension>>>

  // ----- group keys -----

  /** The order of Go strings: character by character, a prefix first. */
  predicate LeString(a: string, b: string) {
    a == [] || (b != [] && (a[0] < b[0] || (a[0] == b[0] && LeString(a[1..], b[1..]))))
  }

  const DELIMITER := "-"

  function NamesOf(dimensions: seq<Dimension>): seq<string> {
    seq(|dimensions|, i requires 0 <= i < |dimensions| => dimensions[i].name)
  }

  /** The key of the group that a metric belongs to. */
  function KeyOf(m: Metric): string {
    Join(Sort(NamesOf(m.dimensions), LeString), DELIMITER)
  }

  predicate Passes(m: Metric, metricFilter: string) {
    metricFilter == "" || Contains(m.name, metricFilter)
  }

  function Filtered(metrics: seq<Metric>, metricFilter: string): seq<Metric> {
    if metrics == [] then [] else
      var front, last := Filtered(metrics[..|metrics| - 1], metricFilter), metrics[|metrics| - 1];
      if Passes(last, metricFilter) then front + [last] else front
  }

  // ----- groups -----

  /** A group; copies of the record share the map, so the map lives in an object. */
  class Group {
    const dimStr: string
    var metrics: Stored

    constructor (key: string)
      ensures dimStr == key && metrics == map[]
    {
      dimStr, metrics := key, map[];
    }

    method Append(m: Metric)
      modifies this
      ensures metrics == Add(old(metrics), m)
    {
      metrics := metrics[m.name := Lookup(metrics, m.name) + [m.dimensions]];
    }
  }

  /** The value of a group. */
  datatype View = View(key: string, metrics: Stored)

  ghost function ViewOf(g: Group): View
    reads g
  {
    View(g.dimStr, g.metrics)
  }

  ghost function Views(groups: seq<Group>): seq<View>
    reads groups
  {
    seq(|groups|, i requires 0 <= i < |groups| reads groups => ViewOf(groups[i]))
  }

  function Lookup(stored: Stored, name: string): seq<seq<Dimension>> {
    if name in stored then stored[name] else []
  }

  function Add(stored: Stored, m: Metric): Stored {
    stored[m.name := Lookup(stored, m.name) + [m.dimensions]]
  }

  /** The position of the first group with this key; the empty key never counts as found. */
  function Find(views: seq<View>, key: string): Option<nat> {
    if key == "" then None else FindFrom(views, key, 0)
  }

  function FindFrom(views: seq<View>, key: string, i: nat): (r: Option<nat>)
    ensures r.Some? ==> i <= r.value < |views| && views[r.value].key == key && forall j | i <= j < r.value :: views[j].key != key
    ensures r.None? ==> forall j | i <= j < |views| :: views[j].key != key
    decreases |views| - i
  {
    if i >= |views| then None else if views[i].key == key then Some(i) else FindFrom(views, key, i + 1)
  }

  /** Where the next metric goes. */
  function Place(views: seq<View>, m: Metric): seq<View> {
    match Find(views, KeyOf(m))
    case Some(i) => views[i := View(views[i].key, Add(views[i].metrics, m))]
    case None => views + [View(KeyOf(m), Add(map[], m))]
  }

  function Grouped(metrics: seq<Metric>): seq<View> {
    if metrics == [] then [] else Place(Grouped(metrics[..|metrics| - 1]), metrics[|metrics| - 1])
  }

  method GetMetricsInClusterDimension(metrics: seq<Metric>, metricFilter: string) returns (results: seq<Group>)
    ensures fresh(results)
    ensures Views(results) == Grouped(Filtered(metrics, metricFilter))
  {
    hide *;
    results := [];
    NothingGrouped(results, metrics, metricFilter);
    for n := 0 to |metrics|
      invariant fresh(results) && NoDup(results)
      invariant Views(results) == Grouped(Filtered(metrics[..n], metricFilter))
    {
      var m := metrics[n];
      FilterNext(metrics, metricFilter, n);
      if metricFilter != "" && !Contains(m.name, metricFilter) {
        continue;
      }
      results := Store(results, m);
    }
    assert metrics[..|metrics|] == metrics;
  }

  lemma NothingGrouped(results: seq<Group>, metrics: seq<Metric>, metricFilter: string)
    requires results == []
    ensures NoDup(results) && Views(results) == Grouped(Filtered(metrics[..0], metricFilter))
  {
    hide Place, Passes;
  }

  /** The body of the loop for a metric that passes the filter. */
  method Store(groups: seq<Group>, m: Metric) returns (results: seq<Group>)
    requires NoDup(groups)
    modifies groups
    ensures NoDup(results) && forall i | 0 <= i < |results| :: fresh(results[i]) || results[i] in groups
    ensures Views(results) == Place(old(Views(groups)), m)
  {
    var dimsKey := KeyOf(m);
    ghost var before := Views(groups);
    hide KeyOf, Add;
    var dtm: Group? := null;
    ghost var at := |groups|;
    for k := 0 to |groups|
      invariant dtm == null && at == |groups|
      invariant forall j | 0 <= j < k :: groups[j].dimStr != dimsKey
    {
      if groups[k].dimStr == dimsKey {
        dtm, at := groups[k], k;
        break;
      }
    }
    results := groups;
    FindIs(before, dimsKey, at);
    hide FindFrom;
    if dtm == null || dtm.dimStr == "" {
      dtm := new Group(dimsKey);
      results := results + [dtm];
      dtm.Append(m);
      assert Views(results) == before + [View(dimsKey, Add(map[], m))];
    } else {
      dtm.Append(m);
      assert Views(results) == before[at := View(dimsKey, Add(before[at].metrics, m))];
    }
  }

  lemma FilterNext(metrics: seq<Metric>, metricFilter: string, n: nat)
    requires n < |metrics|
    ensures var front := Filtered(metrics[..n], metricFilter);
      if metricFilter == "" || Contains(metrics[n].name, metricFilter) then
        && Filtered(metrics[..n + 1], metricFilter) == front + [metrics[n]]
        && Grouped(front + [metrics[n]]) == Place(Grouped(front), metrics[n])
      else Filtered(metrics[..n + 1], metricFilter) == front
  {
    assert metrics[..n + 1][..n] == metrics[..n];
    var front := Filtered(metrics[..n], metricFilter);
    assert (front + [metrics[n]])[..|front|] == front;
  }

  lemma FilterStep(metrics: seq<Metric>, metricFilter: string, n: nat)
    requires n < |metrics|
    ensures var front := Filtered(metrics[..n], metricFilter);
      Filtered(metrics[..n + 1], metricFilter) == if Passes(metrics[n], metricFilter) then front + [metrics[n]] else front
  {
    hide Passes;
    assert metrics[..n + 1][..n] == metrics[..n];
  }

  /** The filter keeps, in their order, just the metrics with the text somewhere in their name; the empty text keeps all. */
  lemma {:induction false} FilteredMeans(metrics: seq<Metric>, metricFilter: string, upTo: nat) returns (places: seq<nat>)
    requires upTo <= |metrics|
    ensures Picks(metrics, upTo, places, Filtered(metrics[..upTo], metricFilter))
    ensures forall p: nat | p < upTo :: p in places <==> Around(metrics[p].name, metricFilter)
  {
    if upTo == 0 {
      places := [];
    } else {
      hide *;
      var n := upTo - 1;
      FilterStep(metrics, metricFilter, n);
      PassesMeans(metrics[n], metricFilter);
      var front := FilteredMeans(metrics, metricFilter, n);
      PicksNext(metrics, n, front, Filtered(metrics[..n], metricFilter));
      places := if Passes(metrics[n], metricFilter) then front + [n] else front;
    }
  }

  lemma PassesMeans(m: Metric, metricFilter: string)
    ensures Passes(m, metricFilter) <==> Around(m.name, metricFilter)
  {
    ContainsMeans(m.name, metricFilter);
    assert m.name == "" + "" + m.name;
  }

  /** The search of the loop: the first group with the key, or none. */
  lemma FindIs(views: seq<View>, key: string, at: nat)
    requires at <= |views| && forall j | 0 <= j < at :: views[j].key != key
    requires at < |views| ==> views[at].key == key
    ensures FindFrom(views, key, 0) == if at < |views| then Some(at) else None
  {
  }

  // ----- conservation -----

  /** All sets stored under a metric name in the groups with a key, in order. */
  function StoredUnder(views: seq<View>, key: string, name: string): seq<seq<Dimension>> {
    if views == [] then [] else
      var front, last := StoredUnder(views[..|views| - 1], key, name), views[|views| - 1];
      if last.key == key then front + Lookup(last.metrics, name) else front
  }

  /** The dimension sets of the metrics with a name and a key, in order. */
  function SetsOf(metrics: seq<Metric>, key: string, name: string): seq<seq<Dimension>> {
    if metrics == [] then [] else
      var front, last := SetsOf(metrics[..|metrics| - 1], key, name), metrics[|metrics| - 1];
      if KeyOf(last) == key && last.name == name then front + [last.dimensions] else front
  }

  /** No two groups share a key other than the empty one. */
  ghost predicate KeysDistinct(views: seq<View>) {
    forall i, j | 0 <= i < j < |views| && views[i].key == views[j].key :: views[i].key == ""
  }

  /** Nothing is lost, added or put into another group: each group holds exactly the sets of its metrics. */
  lemma {:induction false} GroupingConserves(metrics: seq<Metric>, key: string, name: string)
    ensures StoredUnder(Grouped(metrics), key, name) == SetsOf(metrics, key, name)
    ensures KeysDistinct(Grouped(metrics))
  {
    if metrics != [] {
      var front, m := metrics[..|metrics| - 1], metrics[|metrics| - 1];
      GroupingConserves(front, key, name);
      PlaceConserves(Grouped(front), m, key, name);
    }
  }

  lemma PlaceConserves(views: seq<View>, m: Metric, key: string, name: string)
    requires KeysDistinct(views)
    ensures KeysDistinct(Place(views, m))
    ensures StoredUnder(Place(views, m), key, name) ==
            StoredUnder(views, key, name) + if KeyOf(m) == key && m.name == name then [m.dimensions] else []
  {
    hide KeyOf;
    var found := Find(views, KeyOf(m));
    if found.None? {
      var v := View(KeyOf(m), Add(map[], m));
      assert (views + [v])[..|views + [v]| - 1] == views;
    } else {
      var i := found.value;
      UpdateConserves(views, i, View(views[i].key, Add(views[i].metrics, m)), key, name);
    }
  }

  /** Changing a group whose key no later group has appends to what is stored under that key. */
  lemma {:induction false} UpdateConserves(views: seq<View>, i: nat, v: View, key: string, name: string)
    requires i < |views| && v.key == views[i].key && forall j | i < j < |views| :: views[j].key != v.key
    requires Lookup(views[i].metrics, name) <= Lookup(v.metrics, name)
    ensures StoredUnder(views[i := v], key, name) ==
            StoredUnder(views, key, name) + if v.key == key then Lookup(v.metrics, name)[|Lookup(views[i].metrics, name)|..] else []
  {
    var front, last := views[..|views| - 1], views[|views| - 1];
    if i == |views| - 1 {
      assert views[i := v][..|views| - 1] == front;
    } else {
      assert views[i := v][..|views| - 1] == front[i := v];
      UpdateConserves(front, i, v, key, name);
    }
  }

  // ----- keys -----

  lemma {:induction false} LeStringTotal(a: string, b: string)
    ensures LeString(a, b) || LeString(b, a)
    ensures LeString(a, b) && LeString(b, a) ==> a == b
  {
    if a != [] && b != [] {
      LeStringTotal(a[1..], b[1..]);
      assert a == [a[0]] + a[1..] && b == [b[0]] + b[1..];
    }
  }

  lemma {:induction false} LeStringTransitive(a: string, b: string, c: string)
    requires LeString(a, b) && LeString(b, c)
    ensures LeString(a, c)
  {
    if a != [] && a[0] == b[0] && b[0] == c[0] {
      LeStringTransitive(a[1..], b[1..], c[1..]);
    }
  }

  lemma LeStringOrder()
    ensures LinearOrder(LeString)
  {
    forall a, b ensures LeString(a, b) || LeString(b, a) {
      LeStringTotal(a, b);
    }
    forall a, b | LeString(a, b) && LeString(b, a) ensures a == b {
      LeStringTotal(a, b);
    }
    forall a, b, c | LeString(a, b) && LeString(b, c) ensures LeString(a, c) {
      LeStringTransitive(a, b, c);
    }
  }

  /** The key does not depend on the order in which the service lists the dimensions. */
  lemma KeyIgnoresOrder(a: Metric, b: Metric)
    requires multiset(NamesOf(a.dimensions)) == multiset(NamesOf(b.dimensions))
    ensures KeyOf(a) == KeyOf(b)
  {
    LeStringOrder();
    SortOfPermutation(NamesOf(a.dimensions), NamesOf(b.dimensions), LeString);
  }

  predicate Undelimited(names: seq<string>) {
    forall name | name in names :: '-' !in name
  }

  /** Two texts that stop at the first delimiter, or have none, agree before and after it. */
  lemma SplitAtDelimiter(a: string, x: string, b: string, y: string)
    requires '-' !in a && '-' !in b
    requires x == "" || x[0] == '-'
    requires y == "" || y[0] == '-'
    requires a + x == b + y
    ensures a == b && x == y
  {
    assert a == (a + x)[..|a|] && b == (b + y)[..|b|];
    assert x == (a + x)[|a|..] && y == (b + y)[|b|..];
  }

  /** What follows the first name in a joined list. */
  function Rest(names: seq<string>): string {
    if |names| <= 1 then "" else DELIMITER + Join(names[1..], DELIMITER)
  }

  lemma {:induction false} JoinInjective(a: seq<string>, b: seq<string>)
    requires a != [] && b != [] && Undelimited(a) && Undelimited(b)
    requires Join(a, DELIMITER) == Join(b, DELIMITER)
    ensures a == b
  {
    JoinParts(a);
    JoinParts(b);
    hide Join, Rest;
    SplitAtDelimiter(a[0], Rest(a), b[0], Rest(b));
    if |a| > 1 && |b| > 1 {
      ConsInjective('-', Join(a[1..], DELIMITER), Join(b[1..], DELIMITER));
      JoinInjective(a[1..], b[1..]);
      assert a == [a[0]] + a[1..] && b == [b[0]] + b[1..];
    } else {
      assert a == [a[0]] && b == [b[0]];
    }
  }

  lemma JoinParts(names: seq<string>)
    requires names != [] && Undelimited(names)
    ensures Join(names, DELIMITER) == names[0] + Rest(names)
    ensures '-' !in names[0] && Undelimited(names[1..])
    ensures if |names| == 1 then Rest(names) == "" else Rest(names) == ['-'] + Join(names[1..], DELIMITER) && Rest(names)[0] == '-'
  {
    assert names[0] in names;
    assert names[0] + "" == names[0];
    assert names[0] + DELIMITER + Join(names[1..], DELIMITER) == names[0] + (DELIMITER + Join(names[1..], DELIMITER));
  }

  /** For names without the delimiter the key stands for the dimension names, whatever their order. */
  lemma KeyMeansNames(a: Metric, b: Metric)
    requires a.dimensions != [] && b.dimensions != []
    requires Undelimited(NamesOf(a.dimensions)) && Undelimited(NamesOf(b.dimensions))
    ensures KeyOf(a) == KeyOf(b) <==> multiset(NamesOf(a.dimensions)) == multiset(NamesOf(b.dimensions))
  {
    var x, y := NamesOf(a.dimensions), NamesOf(b.dimensions);
    LeStringOrder();
    SortSorts(x, LeString);
    SortSorts(y, LeString);
    SameMembers(x, Sort(x, LeString));
    SameMembers(y, Sort(y, LeString));
    if KeyOf(a) == KeyOf(b) {
      JoinInjective(Sort(x, LeString), Sort(y, LeString));
    } else if multiset(x) == multiset(y) {
      KeyIgnoresOrder(a, b);
    }
  }

  // ----- when a key determines the names -----

  /** Some hyphen of the name stands between two names in order, as in the key of two dimensions. */
  predicate SplitsAt(name: string, p: nat) {
    p < |name| && name[p] == '-' && LeString(name[..p], name[p + 1..])
  }

  function OneDimension(name: string): Metric {
    Metric("", [Dimension(name, "")])
  }

  function TwoDimensions(x: string, y: string): Metric {
    Metric("", [Dimension(x, ""), Dimension(y, "")])
  }

  lemma OneName(m: Metric)
    requires |m.dimensions| == 1
    ensures NamesOf(m.dimensions) == [m.dimensions[0].name] && KeyOf(m) == m.dimensions[0].name
  {
    var name := m.dimensions[0].name;
    assert NamesOf(m.dimensions) == [name];
    assert Sort([], LeString) == [] && Sort([name], LeString) == [name];
  }

  lemma SortTwo(x: string, y: string)
    requires LeString(x, y)
    ensures Sort([x, y], LeString) == [x, y]
  {
    hide LeString;
    assert [x, y][1..] == [y] && [y][1..] == [];
    assert Sort([y], LeString) == Insert(y, [], LeString) == [y];
  }

  lemma JoinTwo(x: string, y: string)
    ensures Join([x, y], DELIMITER) == x + (DELIMITER + y)
  {
    assert [x, y][1..] == [y];
    assert Join([x, y], DELIMITER) == x + DELIMITER + y;
  }

  lemma TwoNames(x: string, y: string)
    requires LeString(x, y)
    ensures NamesOf(TwoDimensions(x, y).dimensions) == [x, y] && KeyOf(TwoDimensions(x, y)) == x + (DELIMITER + y)
  {
    assert NamesOf(TwoDimensions(x, y).dimensions) == [x, y];
    SortTwo(x, y);
    JoinTwo(x, y);
    hide Sort, Join, LeString;
  }

  lemma {:induction false} LeExtended(a: string, b: string, more: string)
    requires LeString(a, b)
    ensures LeString(a, b + more)
  {
    if a != [] && a[0] == b[0] {
      assert (b + more)[1..] == b[1..] + more;
      LeExtended(a[1..], b[1..], more);
    }
  }

  lemma JoinHead(names: seq<string>)
    requires names != []
    ensures exists more :: Join(names, DELIMITER) == names[0] + more
  {
    if |names| == 1 {
      assert Join(names, DELIMITER) == names[0] + "";
    } else {
      assert Join(names, DELIMITER) == names[0] + (DELIMITER + Join(names[1..], DELIMITER));
    }
  }

  /** The key of two or more dimensions is also a name that splits. */
  lemma LongKeySplits(m: Metric) returns (p: nat)
    requires |m.dimensions| >= 2
    ensures SplitsAt(KeyOf(m), p)
  {
    var names := NamesOf(m.dimensions);
    LeStringOrder();
    SortSorts(names, LeString);
    var s := Sort(names, LeString);
    assert |s| == |multiset(s)| == |multiset(names)| == |names|;
    var first, second := s[0], s[1];
    assert LeString(first, second);
    hide Sort, LeString, LinearOrder, Sorted;
    JoinHead(s[1..]);
    var more :| Join(s[1..], DELIMITER) == second + more;
    LeExtended(first, second, more);
    p := |first|;
    assert KeyOf(m) == first + DELIMITER + (second + more);
    assert KeyOf(m)[..p] == first && KeyOf(m)[p + 1..] == second + more;
  }

  lemma NamesDiffer(a: Metric, b: Metric)
    requires |a.dimensions| != |b.dimensions|
    ensures multiset(NamesOf(a.dimensions)) != multiset(NamesOf(b.dimensions))
  {
    assert |multiset(NamesOf(a.dimensions))| == |a.dimensions| && |multiset(NamesOf(b.dimensions))| == |b.dimensions|;
  }

  /** Every metric with dimensions and this key has this metric's dimension names. */
  ghost predicate KeyDetermines(a: Metric) {
    forall b: Metric | b.dimensions != [] && KeyOf(b) == KeyOf(a) :: multiset(NamesOf(b.dimensions)) == multiset(NamesOf(a.dimensions))
  }

  lemma SharedByOne(a: Metric)
    requires |a.dimensions| != 1
    ensures !KeyDetermines(a)
  {
    hide KeyOf, NamesOf;
    var b := OneDimension(KeyOf(a));
    OneName(b);
    NamesDiffer(a, b);
  }

  lemma SharedBySplit(a: Metric, p: nat)
    requires |a.dimensions| == 1 && SplitsAt(a.dimensions[0].name, p)
    ensures !KeyDetermines(a)
  {
    var name := a.dimensions[0].name;
    var x, y := name[..p], name[p + 1..];
    assert name == x + (DELIMITER + y) && LeString(x, y);
    hide KeyOf, NamesOf, LeString;
    OneName(a);
    TwoNames(x, y);
    NamesDiffer(a, TwoDimensions(x, y));
  }

  lemma Unshared(a: Metric)
    requires |a.dimensions| == 1 && forall p: nat :: !SplitsAt(a.dimensions[0].name, p)
    ensures KeyDetermines(a)
  {
    hide KeyOf, NamesOf, SplitsAt;
    OneName(a);
    forall b: Metric | b.dimensions != [] && KeyOf(b) == KeyOf(a) ensures NamesOf(b.dimensions) == NamesOf(a.dimensions) {
      if |b.dimensions| == 1 {
        OneName(b);
      } else {
        var p := LongKeySplits(b);
      }
    }
  }

  /** A key determines the dimension names exactly when it is a single name that no hyphen splits into two names in order. */
  lemma KeyDeterminesNames(a: Metric)
    ensures KeyDetermines(a) <==> |a.dimensions| == 1 && forall p: nat :: !SplitsAt(a.dimensions[0].name, p)
  {
    hide *;
    if |a.dimensions| != 1 {
      SharedByOne(a);
    } else if p: nat :| SplitsAt(a.dimensions[0].name, p) {
      SharedBySplit(a, p);
    } else {
      Unshared(a);
    }
  }

  /** With the delimiter in a name two different sets of names, both with the cluster's, share a group. */
  lemma DelimiterInName()
    ensures var a := Metric("m", [Dimension("ClusterName", ""), Dimension("a-b", "")]);
      var b := Metric("m", [Dimension("ClusterName", ""), Dimension("a", ""), Dimension("b", "")]);
      KeyOf(a) == KeyOf(b) == "ClusterName-a-b"
  {
    var a := Metric("m", [Dimension("ClusterName", ""), Dimension("a-b", "")]);
    var b := Metric("m", [Dimension("ClusterName", ""), Dimension("a", ""), Dimension("b", "")]);
    assert NamesOf(a.dimensions) == ["ClusterName", "a-b"] && NamesOf(b.dimensions) == ["ClusterName", "a", "b"];
    assert Sort(["a-b"], LeString) == ["a-b"];
    assert Sort(["ClusterName", "a-b"], LeString) == ["ClusterName", "a-b"];
    assert Sort(["b"], LeString) == ["b"];
    assert Sort(["a", "b"], LeString) == ["a", "b"];
    assert Sort(["ClusterName", "a", "b"], LeString) == ["ClusterName", "a", "b"];
    assert "a" + "-" + "b" == "a-b";
  }

  // ----- the total -----

  /** The number of sets stored under some of the names. */
  ghost function SetsUnder(stored: Stored, names: set<string>): nat
    requires names <= stored.Keys
  {
    if names == {} then 0 else
      var name :| name in names;
      |stored[name]| + SetsUnder(stored, names - {name})
  }

  lemma {:induction false} SetsUnderRemove(stored: Stored, names: set<string>, name: string)
    requires name in names && names <= stored.Keys
    ensures SetsUnder(stored, names) == |stored[name]| + SetsUnder(stored, names - {name})
    decreases names
  {
    var first :| first in names && SetsUnder(stored, names) == |stored[first]| + SetsUnder(stored, names - {first});
    if first != name {
      SetsUnderRemove(stored, names - {first}, name);
      SetsUnderRemove(stored, names - {name}, first);
      assert names - {first} - {name} == names - {name} - {first};
    }
  }

  lemma {:induction false} SetsUnderSame(a: Stored, b: Stored, names: set<string>)
    requires names <= a.Keys && names <= b.Keys && forall name | name in names :: a[name] == b[name]
    ensures SetsUnder(a, names) == SetsUnder(b, names)
    decreases names
  {
    if names != {} {
      var name :| name in names;
      SetsUnderSame(a, b, names - {name});
      SetsUnderRemove(a, names, name);
      SetsUnderRemove(b, names, name);
    }
  }

  lemma AddStoresOne(stored: Stored, m: Metric)
    ensures SetsUnder(Add(stored, m), Add(stored, m).Keys) == SetsUnder(stored, stored.Keys) + 1
  {
    var after := Add(stored, m);
    SetsUnderRemove(after, after.Keys, m.name);
    assert after.Keys - {m.name} == stored.Keys - {m.name};
    SetsUnderSame(stored, after, stored.Keys - {m.name});
    if m.name in stored {
      SetsUnderRemove(stored, stored.Keys, m.name);
    } else {
      assert stored.Keys - {m.name} == stored.Keys;
    }
  }

  /** The number of sets stored in all groups under all names. */
  ghost function TotalStored(views: seq<View>): nat {
    if views == [] then 0 else
      var last := views[|views| - 1];
      TotalStored(views[..|views| - 1]) + SetsUnder(last.metrics, last.metrics.Keys)
  }

  lemma {:induction false} UpdateTotal(views: seq<View>, i: nat, v: View)
    requires i < |views|
    ensures TotalStored(views[i := v]) + SetsUnder(views[i].metrics, views[i].metrics.Keys) == TotalStored(views) + SetsUnder(v.metrics, v.metrics.Keys)
  {
    var n := |views| - 1;
    if i == n {
      assert views[i := v][..n] == views[..n];
    } else {
      assert views[i := v][..n] == views[..n][i := v];
      UpdateTotal(views[..n], i, v);
    }
  }

  lemma PlaceStoresOne(views: seq<View>, m: Metric)
    ensures TotalStored(Place(views, m)) == TotalStored(views) + 1
  {
    hide KeyOf, SetsUnder, Add;
    match Find(views, KeyOf(m))
    case Some(i) =>
      AddStoresOne(views[i].metrics, m);
      UpdateTotal(views, i, View(views[i].key, Add(views[i].metrics, m)));
    case None =>
      var v := View(KeyOf(m), Add(map[], m));
      AddStoresOne(map[], m);
      NothingUnder();
      assert (views + [v])[..|views|] == views;
  }

  lemma NothingUnder()
    ensures var none: Stored := map[]; SetsUnder(none, none.Keys) == 0
  {
  }

  /** As many sets are stored, over all groups and names, as there are metrics. */
  lemma {:induction false} TotalConserved(metrics: seq<Metric>)
    ensures TotalStored(Grouped(metrics)) == |metrics|
  {
    if metrics != [] {
      TotalConserved(metrics[..|metrics| - 1]);
      PlaceStoresOne(Grouped(metrics[..|metrics| - 1]), metrics[|metrics| - 1]);
    }
  }

  // ----- the empty key -----

  function WithEmptyKey(metrics: seq<Metric>): nat {
    if metrics == [] then 0 else
      WithEmptyKey(metrics[..|metrics| - 1]) + if KeyOf(metrics[|metrics| - 1]) == "" then 1 else 0
  }

  function EmptyKeys(views: seq<View>): nat {
    if views == [] then 0 else
      EmptyKeys(views[..|views| - 1]) + if views[|views| - 1].key == "" then 1 else 0
  }

  /** Every metric with the empty key gets a group of its own. */
  lemma {:induction false} EmptyKeyCount(metrics: seq<Metric>)
    ensures EmptyKeys(Grouped(metrics)) == WithEmptyKey(metrics)
  {
    if metrics != [] {
      var front, m := metrics[..|metrics| - 1], metrics[|metrics| - 1];
      EmptyKeyCount(front);
      var views := Grouped(front);
      if Find(views, KeyOf(m)).None? {
        var v := View(KeyOf(m), Add(map[], m));
        assert (views + [v])[..|views + [v]| - 1] == views;
      } else {
        var i := Find(views, KeyOf(m)).value;
        UpdateEmptyKeys(views, i, View(views[i].key, Add(views[i].metrics, m)));
      }
    }
  }

  lemma {:induction false} UpdateEmptyKeys(views: seq<View>, i: nat, v: View)
    requires i < |views| && v.key == views[i].key
    ensures EmptyKeys(views[i := v]) == EmptyKeys(views)
  {
    var front := views[..|views| - 1];
    if i == |views| - 1 {
      assert views[i := v][..|views| - 1] == front;
    } else {
      assert views[i := v][..|views| - 1] == front[i := v];
      UpdateEmptyKeys(front, i, v);
    }
  }

  function Keys(views: seq<View>): seq<string> {
    seq(|views|, i requires 0 <= i < |views| => views[i].key)
  }

  lemma {:induction false} EmptyKeysDistinct(views: seq<View>)
    ensures EmptyKeys(views) == 0 <==> forall i | 0 <= i < |views| :: views[i].key != ""
    ensures EmptyKeys(views) <= 1 <==> forall i, j | 0 <= i < j < |views| :: views[i].key != "" || views[j].key != ""
  {
    if views != [] {
      var front := views[..|views| - 1];
      EmptyKeysDistinct(front);
    }
  }

  /** Group keys are distinct exactly when at most one metric has the empty key. */
  lemma KeysDistinctIff(metrics: seq<Metric>)
    ensures NoDup(Keys(Grouped(metrics))) <==> WithEmptyKey(metrics) <= 1
  {
    var views := Grouped(metrics);
    GroupingConserves(metrics, "", "");
    EmptyKeyCount(metrics);
    EmptyKeysDistinct(views);
    hide Grouped, WithEmptyKey, EmptyKeys;
    assert forall i | 0 <= i < |views| :: Keys(views)[i] == views[i].key;
  }

  // ----- finding a group -----

  /** No group is without a metric, and no metric without a set. */
  ghost predicate NoneEmpty(views: seq<View>) {
    && (forall i | 0 <= i < |views| :: views[i].metrics != map[])
    && (forall i, name | 0 <= i < |views| && name in views[i].metrics :: views[i].metrics[name] != [])
  }

  lemma {:induction false} NothingEmpty(metrics: seq<Metric>)
    ensures NoneEmpty(Grouped(metrics))
  {
    if metrics != [] {
      NothingEmpty(metrics[..|metrics| - 1]);
    }
  }

  /** Where only one group has a key, that group holds everything stored under it. */
  lemma {:induction false} StoredInOne(views: seq<View>, i: nat, key: string, name: string)
    requires i < |views| && views[i].key == key && forall j | 0 <= j < |views| && j != i :: views[j].key != key
    ensures StoredUnder(views, key, name) == Lookup(views[i].metrics, name)
  {
    var front := views[..|views| - 1];
    if i == |views| - 1 {
      StoredInNone(front, key, name);
    } else {
      StoredInOne(front, i, key, name);
    }
  }

  lemma {:induction false} StoredInNone(views: seq<View>, key: string, name: string)
    requires forall j | 0 <= j < |views| :: views[j].key != key
    ensures StoredUnder(views, key, name) == []
  {
    if views != [] {
      StoredInNone(views[..|views| - 1], key, name);
    }
  }

  lemma {:induction false} StoredInTwo(views: seq<View>, i: nat, j: nat, key: string, name: string)
    requires i < j < |views| && views[i].key == views[j].key == key
    ensures |StoredUnder(views, key, name)| >= |Lookup(views[i].metrics, name)| + |Lookup(views[j].metrics, name)|
    decreases |views|
  {
    var n := |views| - 1;
    if j == n {
      StoredInSome(views[..n], i, key, name);
    } else {
      StoredInTwo(views[..n], i, j, key, name);
    }
  }

  lemma {:induction false} StoredInSome(views: seq<View>, i: nat, key: string, name: string)
    requires i < |views| && views[i].key == key
    ensures |StoredUnder(views, key, name)| >= |Lookup(views[i].metrics, name)|
    decreases |views|
  {
    var n := |views| - 1;
    if i < n {
      StoredInSome(views[..n], i, key, name);
    }
  }

  /** What a lookup of the key finds under a name: the first group's sets, or nothing. */
  function FoundUnder(views: seq<View>, key: string, name: string): seq<seq<Dimension>> {
    match FindFrom(views, key, 0)
    case Some(i) => Lookup(views[i].metrics, name)
    case None => []
  }

  lemma FoundIfOne(metrics: seq<Metric>, key: string, name: string)
    requires forall i, j | 0 <= i < j < |Grouped(metrics)| :: Grouped(metrics)[i].key != key || Grouped(metrics)[j].key != key
    ensures FoundUnder(Grouped(metrics), key, name) == SetsOf(metrics, key, name)
  {
    var views := Grouped(metrics);
    GroupingConserves(metrics, key, name);
    hide Grouped, SetsOf;
    match FindFrom(views, key, 0)
    case Some(i) => StoredInOne(views, i, key, name);
    case None => StoredInNone(views, key, name);
  }

  /** Of two groups with the key, the lookup misses the second. */
  lemma SecondMissed(metrics: seq<Metric>, key: string, i: nat, j: nat) returns (name: string)
    requires i < j < |Grouped(metrics)| && Grouped(metrics)[i].key == Grouped(metrics)[j].key == key
    ensures FoundUnder(Grouped(metrics), key, name) != SetsOf(metrics, key, name)
  {
    var views := Grouped(metrics);
    NothingEmpty(metrics);
    hide Grouped, SetsOf;
    name :| name in views[j].metrics;
    assert views[j].metrics[name] != [];
    GroupingConserves(metrics, key, name);
    var first := FindFrom(views, key, 0).value;
    StoredInTwo(views, first, j, key, name);
  }

  /**
    Looking up a key finds all and only the sets of its metrics, under every name, exactly when the
    key is not the empty one or at most one metric has the empty key.
   */
  lemma LookupFindsIff(metrics: seq<Metric>, key: string)
    ensures (forall name :: FoundUnder(Grouped(metrics), key, name) == SetsOf(metrics, key, name)) <==>
      key != "" || WithEmptyKey(metrics) <= 1
  {
    var views := Grouped(metrics);
    GroupingConserves(metrics, "", "");
    EmptyKeyCount(metrics);
    EmptyKeysDistinct(views);
    hide Grouped, SetsOf, FoundUnder, WithEmptyKey, EmptyKeys;
    if i, j :| 0 <= i < j < |views| && views[i].key == views[j].key == key {
      var name := SecondMissed(metrics, key, i, j);
    } else {
      forall name ensures FoundUnder(views, key, name) == SetsOf(metrics, key, name) {
        FoundIfOne(metrics, key, name);
      }
    }
  }

  // ----- comparing names -----

  /** As many expected names as stored ones, and each of them stored. */
  predicate Compares(expected: seq<string>, actual: Stored) {
    |expected| == |actual| && Elems(expected) <= actual.Keys
  }

  /** The test by counting. */
  method CompareMetrics(expected: seq<string>, actual: Stored) returns (same: bool)
    ensures same <==> Compares(expected, actual)
  {
    assert |actual| == |actual.Keys|;
    if |expected| != |actual| {
      return false;
    }
    for i := 0 to |expected|
      invariant forall j | 0 <= j < i :: expected[j] in actual
    {
      if expected[i] !in actual {
        assert expected[i] in Elems(expected);
        return false;
      }
    }
    same := true;
  }

  /**
    The test is equality of sets when the expected list has no duplicates. With duplicates it never
    is: there have to be as many names missing from the list as the list has repetitions.
   */
  lemma CompareMeans(expected: seq<string>, actual: Stored)
    ensures |expected| >= |Elems(expected)| && (|expected| == |Elems(expected)| <==> NoDup(expected))
    ensures Compares(expected, actual) <==>
      Elems(expected) <= actual.Keys && |actual.Keys - Elems(expected)| == |expected| - |Elems(expected)|
    ensures if NoDup(expected) then Compares(expected, actual) <==> Elems(expected) == actual.Keys
      else Compares(expected, actual) ==> Elems(expected) < actual.Keys
  {
    DistinctCount(expected);
    assert |actual| == |actual.Keys|;
    if Elems(expected) <= actual.Keys {
      assert actual.Keys == Elems(expected) + (actual.Keys - Elems(expected));
      assert |actual.Keys| == |Elems(expected)| + |actual.Keys - Elems(expected)|;
    }
  }

  /** A name listed twice: what was seen is rejected, and accepted with another name in it that is not in the list. */
  lemma RepeatedName()
    ensures !Compares(["a", "a"], map["a" := [[]]])
    ensures Compares(["a", "a"], map["a" := [[]], "b" := [[]]])
  {
    assert "a"[0] != "b"[0];
    var one: Stored, two: Stored := map["a" := [[]]], map["a" := [[]], "b" := [[]]];
    assert one.Keys == {"a"} && |one| == |one.Keys| == 1;
    assert two.Keys == {"a", "b"} && |two| == |two.Keys| == 2;
    assert Elems(["a", "a"]) == {"a"};
  }

  // ----- the check of one expected group -----

  /** The names of the metrics with a key. */
  ghost function NamesWith(metrics: seq<Metric>, key: string): set<string> {
    set m | m in metrics && KeyOf(m) == key :: m.name
  }

  /** The group is present, not empty, and has the expected metrics by the test of `CompareMetrics`. */
  predicate Available(views: seq<View>, dims: string, expected: seq<string>) {
    match FindFrom(views, dims, 0)
    case None => false
    case Some(i) => |views[i].metrics| >= 1 && Compares(expected, views[i].metrics)
  }

  method ValidateAvailability(groups: seq<Group>, dims: string, expected: seq<string>) returns (ok: bool)
    ensures ok <==> Available(Views(groups), dims, expected)
  {
    var actual: Stored := map[];
    ghost var at := |groups|;
    for k := 0 to |groups|
      invariant actual == map[] && at == |groups|
      invariant forall j | 0 <= j < k :: groups[j].dimStr != dims
    {
      if groups[k].dimStr == dims {
        actual, at := groups[k].metrics, k;
        break;
      }
    }
    FindIs(Views(groups), dims, at);
    if |actual| < 1 {
      return false;
    }
    ok := CompareMetrics(expected, actual);
  }

  lemma {:induction false} SetsOfNames(metrics: seq<Metric>, key: string, name: string)
    ensures SetsOf(metrics, key, name) != [] <==> name in NamesWith(metrics, key)
  {
    if metrics != [] {
      var front, last := metrics[..|metrics| - 1], metrics[|metrics| - 1];
      SetsOfNames(front, key, name);
      assert metrics == front + [last];
      assert name in NamesWith(metrics, key) <==> name in NamesWith(front, key) || (KeyOf(last) == key && last.name == name);
    }
  }

  /** The group found for a key other than the empty one has exactly the names of the metrics with that key. */
  lemma FoundGroupNames(metrics: seq<Metric>, key: string)
    requires key != ""
    ensures match FindFrom(Grouped(metrics), key, 0)
      case Some(i) => Grouped(metrics)[i].metrics.Keys == NamesWith(metrics, key)
      case None => NamesWith(metrics, key) == {}
  {
    NothingEmpty(metrics);
    LookupFindsIff(metrics, key);
    hide Grouped, NamesWith, SetsOf;
    forall name ensures match FindFrom(Grouped(metrics), key, 0)
      case Some(i) => name in Grouped(metrics)[i].metrics <==> name in NamesWith(metrics, key)
      case None => name !in NamesWith(metrics, key)
    {
      assert FoundUnder(Grouped(metrics), key, name) == SetsOf(metrics, key, name);
      SetsOfNames(metrics, key, name);
    }
  }

  /** The first metric with the empty key. */
  function FirstUnnamed(metrics: seq<Metric>): Option<Metric> {
    if metrics == [] then None else
      var before := FirstUnnamed(metrics[..|metrics| - 1]);
      if before == None && KeyOf(metrics[|metrics| - 1]) == "" then Some(metrics[|metrics| - 1]) else before
  }

  /** The group found for the empty key holds the first metric with that key, and no other. */
  lemma {:induction false} FoundUnnamed(metrics: seq<Metric>)
    ensures match FirstUnnamed(metrics)
      case Some(m) =>
        && FindFrom(Grouped(metrics), "", 0).Some?
        && Grouped(metrics)[FindFrom(Grouped(metrics), "", 0).value].metrics == map[m.name := [m.dimensions]]
      case None => FindFrom(Grouped(metrics), "", 0) == None
  {
    if metrics != [] {
      FoundUnnamed(metrics[..|metrics| - 1]);
      hide KeyOf;
      PlaceUnnamed(Grouped(metrics[..|metrics| - 1]), metrics[|metrics| - 1]);
    }
  }

  /** Placing a metric changes what is found for the empty key only if nothing was. */
  lemma PlaceUnnamed(views: seq<View>, m: Metric)
    ensures var before, after := FindFrom(views, "", 0), FindFrom(Place(views, m), "", 0);
      if before.Some? then after == before && Place(views, m)[before.value] == views[before.value]
      else if KeyOf(m) == "" then after.Some? && Place(views, m)[after.value].metrics == map[m.name := [m.dimensions]]
      else after == None
  {
    hide KeyOf;
    var before, after := FindFrom(views, "", 0), Place(views, m);
    if before.Some? {
      FindIs(after, "", before.value);
    } else if KeyOf(m) == "" {
      FindIs(after, "", |views|);
      assert [] + [m.dimensions] == [m.dimensions];
    } else {
      FindIs(after, "", |after|);
    }
  }

  /** The names that the check of an expected group gets to see. */
  ghost function NamesSeen(metrics: seq<Metric>, dims: string): set<string> {
    if dims != "" then NamesWith(metrics, dims)
    else match FirstUnnamed(metrics) case Some(m) => {m.name} case None => {}
  }

  lemma NamesFound(metrics: seq<Metric>, dims: string)
    ensures match FindFrom(Grouped(metrics), dims, 0)
      case Some(i) => Grouped(metrics)[i].metrics.Keys == NamesSeen(metrics, dims)
      case None => NamesSeen(metrics, dims) == {}
  {
    if dims != "" {
      FoundGroupNames(metrics, dims);
    } else {
      FoundUnnamed(metrics);
    }
  }

  /**
    End to end, for every key and every expected list. Seen are the names grouped under the key, or
    for the empty key the first metric's name. A list is accepted exactly when it is not empty, lists
    only names seen, and as many of them are missing from it as it has repetitions: without
    repetitions, when it is the set of names seen.
   */
  lemma AvailabilityMeans(metrics: seq<Metric>, dims: string, expected: seq<string>)
    ensures var seen := NamesSeen(metrics, dims);
      Available(Grouped(metrics), dims, expected) <==>
        expected != [] && Elems(expected) <= seen && |seen - Elems(expected)| == |expected| - |Elems(expected)|
    ensures NoDup(expected) ==>
      (Available(Grouped(metrics), dims, expected) <==> expected != [] && Elems(expected) == NamesSeen(metrics, dims))
  {
    NamesFound(metrics, dims);
    hide Grouped, NamesSeen;
    assert expected != [] ==> expected[0] in Elems(expected);
    match FindFrom(Grouped(metrics), dims, 0)
    case Some(i) =>
      CompareMeans(expected, Grouped(metrics)[i].metrics);
    case None =>
  }

  /** Two metrics without dimensions end up in two groups with one key. */
  lemma TwoUnnamed()
    ensures var metrics := [Metric("a", []), Metric("b", [])];
      Keys(Grouped(metrics)) == ["", ""] && !Available(Grouped(metrics), "", ["a", "b"])
  {
    var a, b := Metric("a", []), Metric("b", []);
    assert [a, b][..1] == [a] && [a][..0] == [];
    assert NamesOf([]) == [] && KeyOf(a) == "" && KeyOf(b) == "";
    assert Grouped([a]) == [View("", Add(map[], a))];
    assert Grouped([a, b]) == [View("", Add(map[], a)), View("", Add(map[], b))];
    FindIs(Grouped([a, b]), "", 0);
  }
}
