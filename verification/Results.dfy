/** What a query returns, and what the cache stores for it. */
module Results {
  import opened Common

  /** One series of a query answer: its raw labels and its value. */
  datatype MetricResult = MetricResult(labels: map<string, string>, value: real)

  /** `cacheEntry`: results, or the error of a query that produced none. */
  datatype Entry = Entry(results: seq<MetricResult>, err: Option<string>)

  const NOTHING := Entry([], None)

  /** Only entries that carry something are stored; an empty success is not. */
  predicate Cacheable(e: Entry) {
    |e.results| > 0 || e.err.Some?
  }
}
