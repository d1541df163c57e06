/** Which collector produces a metric, and which host types to ask for it. */
module SourceRegistry {
  import opened Common

  datatype MetricSource =
    | NodeExporter | Cadvisor | Kubeletstats | DCGM | Neuron | EFA | EBSCSI | LISCSI
    | ControlPlane | KubeStateMetrics | KSMNodeScoped | Karpenter | KEDA

  /** A source and the names of the metrics it defines. */
  datatype SourceMapping = SourceMapping(source: MetricSource, metrics: seq<string>)

  datatype SourceHostMapping = SourceHostMapping(source: MetricSource, hostTypes: seq<string>)

  datatype Registry = Registry(
    metricToSource: map<string, MetricSource>,
    sourceToHosts: map<MetricSource, seq<string>>,
    allHostTypes: seq<string>
  ) {
    /** All host types for an unknown metric; none when the source has no host mapping. */
    function HostTypesFor(metric: string): seq<string> {
      if metric !in metricToSource then allHostTypes
      else if metricToSource[metric] in sourceToHosts then sourceToHosts[metricToSource[metric]]
      else []
    }

    predicate IsClusterScoped(metric: string) {
      metric in metricToSource && (metricToSource[metric] == ControlPlane || metricToSource[metric] == KubeStateMetrics)
    }
  }

  /** The last of the mappings that defines the metric. */
  ghost predicate LastDefines(mappings: seq<SourceMapping>, i: nat, metric: string) {
    && i < |mappings| && metric in mappings[i].metrics
    && forall j | i < j < |mappings| :: metric !in mappings[j].metrics
  }

  ghost predicate LastHosts(mappings: seq<SourceHostMapping>, i: nat, source: MetricSource) {
    && i < |mappings| && mappings[i].source == source
    && forall j | i < j < |mappings| :: mappings[j].source != source
  }

  /** What a registry built from these mappings holds. */
  ghost predicate Indexes(r: Registry, allHostTypes: seq<string>, hostMappings: seq<SourceHostMapping>, metricMappings: seq<SourceMapping>) {
    && r.allHostTypes == allHostTypes
    && (forall source :: source in r.sourceToHosts <==> exists i :: 0 <= i < |hostMappings| && hostMappings[i].source == source)
    && (forall i: nat, source | LastHosts(hostMappings, i, source) :: r.sourceToHosts[source] == hostMappings[i].hostTypes)
    && (forall metric :: metric in r.metricToSource <==> exists i :: 0 <= i < |metricMappings| && metric in metricMappings[i].metrics)
    && (forall i: nat, metric | LastDefines(metricMappings, i, metric) :: r.metricToSource[metric] == metricMappings[i].source)
  }

  /** A later mapping of the same source or metric replaces an earlier one; nothing else is indexed. */
  method NewSourceRegistry(allHostTypes: seq<string>, hostMappings: seq<SourceHostMapping>, metricMappings: seq<SourceMapping>)
    returns (r: Registry)
    ensures Indexes(r, allHostTypes, hostMappings, metricMappings)
  {
    var sourceToHosts: map<MetricSource, seq<string>> := map[];
    for i := 0 to |hostMappings|
      invariant forall source :: source in sourceToHosts <==> exists k :: 0 <= k < i && hostMappings[k].source == source
      invariant forall k: nat, source | LastHosts(hostMappings[..i], k, source) :: sourceToHosts[source] == hostMappings[k].hostTypes
    {
      var hm := hostMappings[i];
      sourceToHosts := sourceToHosts[hm.source := hm.hostTypes];
      forall k: nat, source | LastHosts(hostMappings[..i + 1], k, source)
        ensures source in sourceToHosts && sourceToHosts[source] == hostMappings[k].hostTypes
      {
        if k < i {
          assert hostMappings[..i + 1][i].source != source;
          assert LastHosts(hostMappings[..i], k, source);
        }
      }
    }
    assert hostMappings[..|hostMappings|] == hostMappings;

    var metricToSource: map<string, MetricSource> := map[];
    for i := 0 to |metricMappings|
      invariant forall metric :: metric in metricToSource <==> exists k :: 0 <= k < i && metric in metricMappings[k].metrics
      invariant forall k: nat, metric | LastDefines(metricMappings[..i], k, metric) :: metricToSource[metric] == metricMappings[k].source
    {
      var m := metricMappings[i];
      var before := metricToSource;
      for j := 0 to |m.metrics|
        invariant forall metric :: metric in metricToSource <==> metric in before || metric in m.metrics[..j]
        invariant forall metric | metric in metricToSource ::
          metricToSource[metric] == if metric in m.metrics[..j] then m.source else before[metric]
      {
        metricToSource := metricToSource[m.metrics[j] := m.source];
        assert m.metrics[..j + 1] == m.metrics[..j] + [m.metrics[j]];
      }
      assert m.metrics[..|m.metrics|] == m.metrics;
      forall k: nat, metric | LastDefines(metricMappings[..i + 1], k, metric)
        ensures metric in metricToSource && metricToSource[metric] == metricMappings[k].source
      {
        if k < i {
          assert metric !in metricMappings[..i + 1][i].metrics;
          assert LastDefines(metricMappings[..i], k, metric);
        }
      }
    }
    assert metricMappings[..|metricMappings|] == metricMappings;
    r := Registry(metricToSource, sourceToHosts, allHostTypes);
  }

  // ----- routing -----

  /** The three ways in which `fetchFiltered` asks for a metric. */
  datatype Route = ClusterScoped | Sharded(hosts: seq<string>) | Whole

  function RouteOf(registry: Option<Registry>, hostTypes: seq<string>, metric: string): Route {
    match registry
    case Some(r) =>
      if r.IsClusterScoped(metric) then ClusterScoped
      else if |r.HostTypesFor(metric)| > 0 then Sharded(r.HostTypesFor(metric))
      else Whole
    case None => if |hostTypes| > 0 then Sharded(hostTypes) else Whole
  }

  /** The two sources that are asked for as cluster-scoped, whatever their host types. */
  predicate FixedClusterScoped(source: MetricSource) {
    source == ControlPlane || source == KubeStateMetrics
  }

  /**
    Documented as cluster-scoped: a source mapped to no host types. The code asks for its metrics
    as cluster-scoped exactly when it is one of the two fixed sources, and otherwise without any
    host condition. This holds for the last mappings of every registry.
   */
  lemma NilHostTypesRoute(r: Registry, allHostTypes: seq<string>, hostMappings: seq<SourceHostMapping>, metricMappings: seq<SourceMapping>,
                          metric: string, hostTypes: seq<string>, h: nat, k: nat)
    requires Indexes(r, allHostTypes, hostMappings, metricMappings)
    requires LastDefines(metricMappings, k, metric) && LastHosts(hostMappings, h, metricMappings[k].source)
    requires hostMappings[h].hostTypes == []
    ensures RouteOf(Some(r), hostTypes, metric) == if FixedClusterScoped(metricMappings[k].source) then ClusterScoped else Whole
  {
    assert metric in metricMappings[k].metrics;
    assert hostMappings[h].source == metricMappings[k].source;
  }

  /** A registry with one source mapped to no host types, as the Karpenter suite builds it. */
  lemma KarpenterIsWhole(r: Registry, allHostTypes: seq<string>, metric: string)
    requires Indexes(r, allHostTypes, [SourceHostMapping(Karpenter, [])], [SourceMapping(Karpenter, [metric])])
    ensures metric in r.metricToSource && r.metricToSource[metric] == Karpenter
    ensures Karpenter in r.sourceToHosts && r.HostTypesFor(metric) == []
    ensures RouteOf(Some(r), allHostTypes, metric) == Whole
  {
    assert LastDefines([SourceMapping(Karpenter, [metric])], 0, metric);
    assert LastHosts([SourceHostMapping(Karpenter, [])], 0, Karpenter);
    NilHostTypesRoute(r, allHostTypes, [SourceHostMapping(Karpenter, [])], [SourceMapping(Karpenter, [metric])], metric, allHostTypes, 0, 0);
  }
}
