/** A store of series and what a query selects from it. */
module SeriesStore {
  import opened Common
  import opened Results
  import opened PromQL
  import opened FetchPool

  /** The value a series has for a label; an absent label counts as empty. */
  function LabelValue(x: MetricResult, name: string): string {
    if name in x.labels then x.labels[name] else ""
  }

  /** A store of series, and what matching a regular expression means. */
  datatype Backend = Backend(store: seq<MetricResult>, regex: (string, string) -> bool) {

    predicate Selects(ms: seq<Matcher>, x: MetricResult) {
      forall m | m in ms :: if m.regex then regex(m.value, LabelValue(x, m.name)) else LabelValue(x, m.name) == m.value
    }

    function Answer(text: string): Reply {
      match ReadSelector(text)
      case None => Failed("parse error")
      case Some(ms) => Rows(Select(this, ms, store))
    }
  }

  /** The series of the store that satisfy every condition, in store order. */
  function Select(b: Backend, ms: seq<Matcher>, store: seq<MetricResult>): seq<MetricResult> {
    if store == [] then []
    else Select(b, ms, store[..|store| - 1]) + (if b.Selects(ms, store[|store| - 1]) then [store[|store| - 1]] else [])
  }

  lemma {:induction false} SelectCount(b: Backend, ms: seq<Matcher>, store: seq<MetricResult>, x: MetricResult)
    ensures multiset(Select(b, ms, store))[x] == if b.Selects(ms, x) then multiset(store)[x] else 0
  {
    if store != [] {
      SelectCount(b, ms, store[..|store| - 1], x);
      assert store == store[..|store| - 1] + [store[|store| - 1]];
    }
  }
}
