/** `AssertMetricsPresent`: poll until every metric was found, then report exactly the missing ones. */
module MetricPresence {
  import opened Common

  /** One query: the attempt it belongs to and the position of the metric it asks for. */
  datatype Query = Query(attempt: nat, position: nat)

  /** Whether a query comes before another in the order of the two nested loops. */
  predicate Earlier(p: Query, q: Query) {
    p.attempt < q.attempt || (p.attempt == q.attempt && p.position < q.position)
  }

  /** Some query before `q` for the metric `m` would have succeeded with a result. */
  ghost predicate FoundBefore(metrics: seq<string>, found: (nat, nat) -> bool, m: string, q: Query) {
    exists a: nat, i: nat :: i < |metrics| && metrics[i] == m && Earlier(Query(a, i), q) && found(a, i)
  }

  /** ... during the first `attempts` attempts. */
  ghost predicate FoundWithin(metrics: seq<string>, found: (nat, nat) -> bool, m: string, attempts: nat) {
    FoundBefore(metrics, found, m, Query(attempts, 0))
  }

  ghost predicate AllFound(metrics: seq<string>, found: (nat, nat) -> bool, attempts: nat) {
    forall m | m in metrics :: FoundWithin(metrics, found, m, attempts)
  }

  /** The metrics never found, in the order of the list. */
  ghost function Missing(metrics: seq<string>, found: (nat, nat) -> bool, attempts: nat, upTo: nat): seq<string>
    requires upTo <= |metrics|
  {
    if upTo == 0 then [] else
      var front := Missing(metrics, found, attempts, upTo - 1);
      if FoundWithin(metrics, found, metrics[upTo - 1], attempts) then front else front + [metrics[upTo - 1]]
  }

  /** A query is made exactly when its metric was not found by an earlier one. */
  ghost predicate Queried(metrics: seq<string>, found: (nat, nat) -> bool, log: seq<Query>, end: Query) {
    forall q :: q in log <==> q.position < |metrics| && Earlier(q, end) && !FoundBefore(metrics, found, metrics[q.position], q)
  }

  /** The log is in the order of the loops and ends before `end`. */
  ghost predicate InOrder(log: seq<Query>, end: Query) {
    && (forall i, j | 0 <= i < j < |log| :: Earlier(log[i], log[j]))
    && (forall q | q in log :: Earlier(q, end))
  }

  method AssertMetricsPresent(metrics: seq<string>, found: (nat, nat) -> bool, maxRetries: int)
    returns (missing: Option<seq<string>>, attempts: nat, log: seq<Query>)
    ensures attempts <= if maxRetries > 0 then maxRetries else 0
    ensures missing.None? <==> maxRetries >= 1 && NoDup(metrics) && AllFound(metrics, found, maxRetries)
    ensures missing.None? ==> AllFound(metrics, found, attempts)
    ensures forall a | 1 <= a < attempts :: !(NoDup(metrics) && AllFound(metrics, found, a))
    ensures missing.Some? ==> attempts == if maxRetries > 0 then maxRetries else 0
    ensures missing.Some? ==> missing.value == Missing(metrics, found, attempts, |metrics|)
    ensures Queried(metrics, found, log, Query(attempts, 0))
    ensures InOrder(log, Query(attempts, 0))
  {
    NothingYet(metrics, found);
    hide FoundBefore, Queried, AllFound, NoDup, InOrder, Missing;
    var validated: set<string> := {};
    log := [];
    attempts := 0;
    while attempts < maxRetries
      invariant attempts <= if maxRetries > 0 then maxRetries else 0
      invariant forall m :: m in validated <==> FoundWithin(metrics, found, m, attempts)
      invariant forall a | 1 <= a <= attempts :: !(NoDup(metrics) && AllFound(metrics, found, a))
      invariant Queried(metrics, found, log, Query(attempts, 0)) && InOrder(log, Query(attempts, 0))
    {
      for i := 0 to |metrics|
        invariant forall m :: m in validated <==> FoundBefore(metrics, found, m, Query(attempts, i))
        invariant Queried(metrics, found, log, Query(attempts, i)) && InOrder(log, Query(attempts, i))
      {
        var m := metrics[i];
        FoundNext(metrics, found, attempts, i);
        QueriedNext(metrics, found, log, attempts, i);
        InOrderNext(log, attempts, i);
        if m !in validated {
          log := log + [Query(attempts, i)];
          if found(attempts, i) {
            validated := validated + {m};
          }
        }
      }
      NextAttempt(metrics, found, attempts);
      QueriedNextAttempt(metrics, found, log, attempts);
      InOrderNextAttempt(log, attempts, |metrics|);
      attempts := attempts + 1;
      EnoughFound(metrics, found, validated, attempts);
      if |validated| == |metrics| {
        FoundGrows(metrics, found, attempts, maxRetries);
        return None, attempts, log;
      }
    }
    var absent: seq<string> := [];
    for i := 0 to |metrics|
      invariant absent == Missing(metrics, found, attempts, i)
    {
      MissingNext(metrics, found, attempts, i);
      if metrics[i] !in validated {
        absent := absent + [metrics[i]];
      }
    }
    missing := Some(absent);
  }

  // ----- one step of the loops -----

  lemma NothingYet(metrics: seq<string>, found: (nat, nat) -> bool)
    ensures forall m :: !FoundWithin(metrics, found, m, 0)
    ensures Queried(metrics, found, [], Query(0, 0)) && InOrder([], Query(0, 0))
    ensures forall a: nat :: Missing(metrics, found, a, 0) == []
  {
  }

  lemma InOrderNext(log: seq<Query>, attempt: nat, i: nat)
    requires InOrder(log, Query(attempt, i))
    ensures InOrder(log, Query(attempt, i + 1)) && InOrder(log + [Query(attempt, i)], Query(attempt, i + 1))
  {
  }

  lemma InOrderNextAttempt(log: seq<Query>, attempt: nat, i: nat)
    requires InOrder(log, Query(attempt, i))
    ensures InOrder(log, Query(attempt + 1, 0))
  {
  }

  lemma MissingNext(metrics: seq<string>, found: (nat, nat) -> bool, attempts: nat, i: nat)
    requires i < |metrics|
    ensures var front := Missing(metrics, found, attempts, i);
      Missing(metrics, found, attempts, i + 1) == if FoundWithin(metrics, found, metrics[i], attempts) then front else front + [metrics[i]]
  {
  }

  lemma FoundNext(metrics: seq<string>, found: (nat, nat) -> bool, attempt: nat, i: nat)
    requires i < |metrics|
    ensures forall m :: FoundBefore(metrics, found, m, Query(attempt, i + 1)) <==>
                        FoundBefore(metrics, found, m, Query(attempt, i)) || (m == metrics[i] && found(attempt, i))
  {
    forall m ensures FoundBefore(metrics, found, m, Query(attempt, i + 1)) <==>
                     FoundBefore(metrics, found, m, Query(attempt, i)) || (m == metrics[i] && found(attempt, i))
    {
      if a: nat, k: nat :| k < |metrics| && metrics[k] == m && Earlier(Query(a, k), Query(attempt, i + 1)) && found(a, k) {
        assert Earlier(Query(a, k), Query(attempt, i)) || (a, k) == (attempt, i);
      }
      if a: nat, k: nat :| k < |metrics| && metrics[k] == m && Earlier(Query(a, k), Query(attempt, i)) && found(a, k) {
        assert Earlier(Query(a, k), Query(attempt, i + 1));
      }
      if m == metrics[i] && found(attempt, i) {
        assert Earlier(Query(attempt, i), Query(attempt, i + 1));
      }
    }
  }

  lemma QueriedNext(metrics: seq<string>, found: (nat, nat) -> bool, log: seq<Query>, attempt: nat, i: nat)
    requires i < |metrics| && Queried(metrics, found, log, Query(attempt, i))
    ensures Queried(metrics, found, if FoundBefore(metrics, found, metrics[i], Query(attempt, i)) then log else log + [Query(attempt, i)], Query(attempt, i + 1))
  {
    forall q ensures Earlier(q, Query(attempt, i + 1)) <==> Earlier(q, Query(attempt, i)) || q == Query(attempt, i) {
    }
    hide FoundBefore, Earlier;
  }

  /** The end of one attempt is the beginning of the next. */
  lemma NextAttempt(metrics: seq<string>, found: (nat, nat) -> bool, attempt: nat)
    ensures forall m :: FoundBefore(metrics, found, m, Query(attempt, |metrics|)) <==> FoundWithin(metrics, found, m, attempt + 1)
  {
    forall m ensures FoundBefore(metrics, found, m, Query(attempt, |metrics|)) <==> FoundWithin(metrics, found, m, attempt + 1) {
      if a: nat, k: nat :| k < |metrics| && metrics[k] == m && Earlier(Query(a, k), Query(attempt + 1, 0)) && found(a, k) {
        assert Earlier(Query(a, k), Query(attempt, |metrics|));
      }
      if a: nat, k: nat :| k < |metrics| && metrics[k] == m && Earlier(Query(a, k), Query(attempt, |metrics|)) && found(a, k) {
        assert Earlier(Query(a, k), Query(attempt + 1, 0));
      }
    }
  }

  lemma QueriedNextAttempt(metrics: seq<string>, found: (nat, nat) -> bool, log: seq<Query>, attempt: nat)
    requires Queried(metrics, found, log, Query(attempt, |metrics|))
    ensures Queried(metrics, found, log, Query(attempt + 1, 0))
  {
    hide FoundBefore;
    forall q: Query | q.position < |metrics| ensures Earlier(q, Query(attempt + 1, 0)) <==> Earlier(q, Query(attempt, |metrics|)) {
    }
  }

  lemma FoundGrows(metrics: seq<string>, found: (nat, nat) -> bool, a: nat, b: nat)
    requires a <= b && AllFound(metrics, found, a)
    ensures AllFound(metrics, found, b)
  {
    forall m | m in metrics ensures FoundWithin(metrics, found, m, b) {
      assert FoundWithin(metrics, found, m, a);
      var c: nat, k: nat :| k < |metrics| && metrics[k] == m && Earlier(Query(c, k), Query(a, 0)) && found(c, k);
      assert Earlier(Query(c, k), Query(b, 0));
    }
  }

  // ----- the test by counting -----

  /** Pigeonhole: as many metrics found as listed means that all were found and none is listed twice. */
  lemma EnoughFound(metrics: seq<string>, found: (nat, nat) -> bool, validated: set<string>, attempts: nat)
    requires forall m :: m in validated <==> FoundWithin(metrics, found, m, attempts)
    ensures |validated| == |metrics| <==> NoDup(metrics) && AllFound(metrics, found, attempts)
  {
    assert validated <= Elems(metrics);
    hide FoundWithin;
    DistinctCount(metrics);
    SubsetCount(validated, Elems(metrics));
    assert AllFound(metrics, found, attempts) <==> Elems(metrics) <= validated;
  }

  lemma SubsetCount<T>(a: set<T>, b: set<T>)
    requires a <= b
    ensures |a| <= |b|
    ensures |a| == |b| <==> a == b
  {
    assert b == a + (b - a) && a !! (b - a);
    assert |b| == |a| + |b - a|;
  }

  // ----- what a caller may conclude -----

  /** No metric is asked for again once a query for it succeeded. */
  lemma NeverRequeried(metrics: seq<string>, found: (nat, nat) -> bool, log: seq<Query>, end: Query, i: nat, j: nat)
    requires Queried(metrics, found, log, end) && i < |log| && j < |log| && Earlier(log[i], log[j])
    requires found(log[i].attempt, log[i].position)
    ensures log[i].position < |metrics| && log[j].position < |metrics|
    ensures metrics[log[j].position] != metrics[log[i].position]
  {
    var p, q := log[i], log[j];
    assert p in log && q in log;
    assert Query(p.attempt, p.position) == p;
    assert !FoundBefore(metrics, found, metrics[q.position], q);
  }

  /** The reported list holds exactly the metrics that no attempt found. */
  lemma {:induction false} MissingMembers(metrics: seq<string>, found: (nat, nat) -> bool, attempts: nat, upTo: nat)
    requires upTo <= |metrics|
    ensures forall m :: m in Missing(metrics, found, attempts, upTo) <==> m in metrics[..upTo] && !FoundWithin(metrics, found, m, attempts)
  {
    if upTo > 0 {
      MissingMembers(metrics, found, attempts, upTo - 1);
      assert metrics[..upTo] == metrics[..upTo - 1] + [metrics[upTo - 1]];
    }
  }

  /** It has them in the order of the list, each as often as it is listed: just the places not found, one after the other. */
  lemma {:induction false} MissingInOrder(metrics: seq<string>, found: (nat, nat) -> bool, attempts: nat, upTo: nat) returns (places: seq<nat>)
    requires upTo <= |metrics|
    ensures Picks(metrics, upTo, places, Missing(metrics, found, attempts, upTo))
    ensures forall p: nat | p < upTo :: p in places <==> !FoundWithin(metrics, found, metrics[p], attempts)
  {
    if upTo == 0 {
      places := [];
    } else {
      var n := upTo - 1;
      MissingNext(metrics, found, attempts, n);
      hide FoundWithin, Picks, Missing;
      var front := MissingInOrder(metrics, found, attempts, n);
      PicksNext(metrics, n, front, Missing(metrics, found, attempts, n));
      places := if FoundWithin(metrics, found, metrics[n], attempts) then front else front + [n];
    }
  }

  /** Without a missing metric the list of a failed check is empty: that happens when a metric is listed twice. */
  lemma NothingMissing(metrics: seq<string>, found: (nat, nat) -> bool, attempts: nat)
    ensures Missing(metrics, found, attempts, |metrics|) == [] <==> AllFound(metrics, found, attempts)
  {
    MissingMembers(metrics, found, attempts, |metrics|);
    assert metrics[..|metrics|] == metrics;
    var missing := Missing(metrics, found, attempts, |metrics|);
    assert missing != [] ==> missing[0] in missing;
  }

  /** One metric listed twice and found by every query: all are found, none is missing, and yet the list cannot pass. */
  lemma ListedTwice(attempts: nat)
    requires attempts >= 1
    ensures var metrics, found := ["m", "m"], (a: nat, i: nat) => true;
      !NoDup(metrics) && AllFound(metrics, found, attempts) && Missing(metrics, found, attempts, |metrics|) == []
  {
    var metrics, found := ["m", "m"], (a: nat, i: nat) => true;
    assert metrics[0] == metrics[1];
    assert Earlier(Query(0, 0), Query(attempts, 0)) && found(0, 0);
    assert FoundWithin(metrics, found, "m", attempts);
    NothingMissing(metrics, found, attempts);
  }
}
