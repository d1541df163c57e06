/**
  What `fetchFiltered` asks and gets: the answers to its queries from a store of series, and how
  the query split per host type relates to the unsplit one.
 */
module Sharding {
  import opened Common
  import opened Results
  import opened PromQL
  import opened FetchPool
  import opened SeriesStore
  import opened QueryText

  /** What the unsplit, cluster-only query selects. */
  function WholeAnswer(b: Backend, metric: string, cluster: string): seq<MetricResult> {
    Select(b, WholeMatchers(metric, cluster), b.store)
  }

  /** The query selects the series. */
  predicate AsksFor(b: Backend, text: string, x: MetricResult) {
    ReadSelector(text).Some? && b.Selects(ReadSelector(text).value, x)
  }

  /** How many of the queries select the series. */
  function Askers(b: Backend, texts: seq<string>, x: MetricResult): nat {
    if texts == [] then 0 else Askers(b, texts[..|texts| - 1], x) + if AsksFor(b, texts[|texts| - 1], x) then 1 else 0
  }

  /** One reply per query: the store's answer, or a failure. */
  ghost predicate RepliesFrom(b: Backend, texts: seq<string>, replies: seq<Reply>) {
    && |replies| == |texts|
    && forall i | 0 <= i < |texts| :: replies[i].Failed? || replies[i] == b.Answer(texts[i])
  }

  /** One more query adds what it selects once, or nothing if it failed. */
  lemma OneMoreReply(b: Backend, text: string, before: seq<Reply>, reply: Reply, x: MetricResult)
    requires reply.Failed? || reply == b.Answer(text)
    ensures CountIn(AllRows(before + [reply]), x) == CountIn(AllRows(before), x) +
      if reply.Rows? && AsksFor(b, text, x) then CountIn(b.store, x) else 0
  {
    if reply.Rows? {
      SelectCount(b, ReadSelector(text).value, b.store, x);
    }
    hide Select, ReadSelector, Backend.Selects;
    assert (before + [reply])[..|before|] == before;
  }

  function Times(copies: nat, whole: nat): nat {
    copies * whole
  }

  /** How often the host list names the host type of a series. */
  function Copies(hosts: seq<string>, x: MetricResult): nat {
    multiset(hosts)[LabelValue(x, HOST)]
  }

  function CountIn(results: seq<MetricResult>, x: MetricResult): nat {
    multiset(results)[x]
  }

  lemma BagFromCounts(a: seq<MetricResult>, b: seq<MetricResult>)
    ensures (forall x :: CountIn(a, x) <= CountIn(b, x)) <==> multiset(a) <= multiset(b)
    ensures (forall x :: CountIn(a, x) == CountIn(b, x)) <==> multiset(a) == multiset(b)
  {
    if multiset(a) <= multiset(b) {
      forall x ensures CountIn(a, x) <= CountIn(b, x) {}
    }
    if multiset(a) == multiset(b) {
      forall x ensures CountIn(a, x) == CountIn(b, x) {}
    }
    if forall x :: CountIn(a, x) <= CountIn(b, x) {
      forall x ensures multiset(a)[x] <= multiset(b)[x] {
        assert CountIn(a, x) <= CountIn(b, x);
      }
    }
    if forall x :: CountIn(a, x) == CountIn(b, x) {
      forall x ensures multiset(a)[x] == multiset(b)[x] {
        assert CountIn(a, x) == CountIn(b, x);
      }
    }
  }

  lemma OneMoreTime(copies: nat, n: nat)
    ensures Times(copies + 1, n) == Times(copies, n) + n && Times(0, n) == 0
  {
    assert (copies + 1) * n == copies * n + n;
  }

  ghost predicate AllSucceeded(replies: seq<Reply>) {
    forall r | r in replies :: r.Rows?
  }

  /** What was answered of what was asked. */
  function Answered<T>(asked: seq<T>, replies: seq<Reply>): seq<T>
    requires |replies| == |asked|
  {
    if asked == [] then []
    else
      var n := |asked| - 1;
      Answered(asked[..n], replies[..n]) + (if replies[n].Rows? then [asked[n]] else [])
  }

  lemma AnsweredSnoc<T>(asked: seq<T>, one: T, replies: seq<Reply>, reply: Reply)
    requires |replies| == |asked|
    ensures Answered(asked + [one], replies + [reply]) == Answered(asked, replies) + (if reply.Rows? then [one] else [])
  {
    assert (asked + [one])[..|asked|] == asked && (replies + [reply])[..|asked|] == replies;
  }

  lemma {:induction false} AllAnswered<T>(asked: seq<T>, replies: seq<Reply>)
    requires |replies| == |asked| && AllSucceeded(replies)
    ensures Answered(asked, replies) == asked
  {
    if asked != [] {
      var n := |asked| - 1;
      AllAnswered(asked[..n], replies[..n]);
      assert asked == asked[..n] + [asked[n]] && replies[n] in replies;
    }
  }

  lemma AskersSnoc(b: Backend, texts: seq<string>, text: string, x: MetricResult)
    ensures Askers(b, texts + [text], x) == Askers(b, texts, x) + if AsksFor(b, text, x) then 1 else 0
  {
    assert (texts + [text])[..|texts|] == texts;
  }

  /** How often the merged rows hold a series: once per answered query that selects it, each time as often as the store does. */
  function Merged(b: Backend, answered: seq<string>, x: MetricResult): nat {
    Times(Askers(b, answered, x), CountIn(b.store, x))
  }

  lemma MergedSnoc(b: Backend, answered: seq<string>, text: string, x: MetricResult)
    ensures Merged(b, answered + [text], x) == Merged(b, answered, x) + if AsksFor(b, text, x) then CountIn(b.store, x) else 0
  {
    hide Askers, AsksFor, CountIn, Times;
    AskersSnoc(b, answered, text, x);
    OneMoreTime(Askers(b, answered, x), CountIn(b.store, x));
  }

  lemma CountGrows(b: Backend, texts: seq<string>, text: string, replies: seq<Reply>, reply: Reply, x: MetricResult)
    requires |replies| == |texts| && CountIn(AllRows(replies), x) == Merged(b, Answered(texts, replies), x)
    requires reply.Failed? || reply == b.Answer(text)
    ensures CountIn(AllRows(replies + [reply]), x) == Merged(b, Answered(texts + [text], replies + [reply]), x)
  {
    hide *;
    OneMoreReply(b, text, replies, reply, x);
    AnsweredSnoc(texts, text, replies, reply);
    if reply.Rows? {
      MergedSnoc(b, Answered(texts, replies), text, x);
    } else {
      assert Answered(texts, replies) + [] == Answered(texts, replies);
    }
  }

  lemma LessOneReply(b: Backend, texts: seq<string>, replies: seq<Reply>)
    requires RepliesFrom(b, texts, replies) && texts != []
    ensures |replies| == |texts| && RepliesFrom(b, texts[..|texts| - 1], replies[..|texts| - 1])
    ensures replies[|texts| - 1].Failed? || replies[|texts| - 1] == b.Answer(texts[|texts| - 1])
    ensures texts == texts[..|texts| - 1] + [texts[|texts| - 1]] && replies == replies[..|texts| - 1] + [replies[|texts| - 1]]
  {
  }

  lemma {:induction false} MergedCount(b: Backend, texts: seq<string>, replies: seq<Reply>, x: MetricResult)
    requires RepliesFrom(b, texts, replies)
    ensures |replies| == |texts| && CountIn(AllRows(replies), x) == Merged(b, Answered(texts, replies), x)
    decreases |texts|
  {
    if texts == [] {
      assert replies == [] && Answered(texts, replies) == [];
      OneMoreTime(0, CountIn(b.store, x));
    } else {
      hide *;
      LessOneReply(b, texts, replies);
      var n := |texts| - 1;
      var front, text, before, reply := texts[..n], texts[n], replies[..n], replies[n];
      MergedCount(b, front, before, x);
      CountGrows(b, front, text, before, reply, x);
    }
  }

  // ----- any queries against the unsplit one -----

  lemma {:induction false} FailuresAskLess(b: Backend, texts: seq<string>, replies: seq<Reply>, x: MetricResult)
    requires |replies| == |texts|
    ensures Askers(b, Answered(texts, replies), x) <= Askers(b, texts, x)
  {
    if texts != [] {
      var n := |texts| - 1;
      hide AsksFor;
      var before := Answered(texts[..n], replies[..n]);
      assert Answered(texts, replies) == if replies[n].Rows? then before + [texts[n]] else before + [];
      assert before + [] == before;
      hide Answered;
      FailuresAskLess(b, texts[..n], replies[..n], x);
      AskersSnoc(b, before, texts[n], x);
    }
  }

  /** Each series of the store is selected once if it satisfies the conditions, and not at all if not. */
  ghost predicate AskedExactly(b: Backend, ms: seq<Matcher>, texts: seq<string>) {
    forall x | x in b.store :: Askers(b, texts, x) == if b.Selects(ms, x) then 1 else 0
  }

  /** ... at most. */
  ghost predicate AskedAtMost(b: Backend, ms: seq<Matcher>, texts: seq<string>) {
    forall x | x in b.store :: Askers(b, texts, x) <= if b.Selects(ms, x) then 1 else 0
  }

  lemma Scaled(copies: nat, n: nat, once: bool)
    ensures Times(copies, n) <= (if once then n else 0) <==> n == 0 || copies <= if once then 1 else 0
    ensures Times(copies, n) == (if once then n else 0) <==> n == 0 || copies == if once then 1 else 0
  {
    if copies > 1 {
      assert copies * n == n + (copies - 1) * n;
      if n > 0 {
        assert (copies - 1) * n > 0;
      }
    }
  }

  /** Whether the rows hold a series too often, or not often enough, is a matter of how many answered queries select it. */
  ghost predicate CountsCompare(b: Backend, ms: seq<Matcher>, answered: seq<string>, rows: seq<MetricResult>, whole: seq<MetricResult>, x: MetricResult) {
    && (CountIn(rows, x) <= CountIn(whole, x) <==> x !in b.store || Askers(b, answered, x) <= if b.Selects(ms, x) then 1 else 0)
    && (CountIn(rows, x) == CountIn(whole, x) <==> x !in b.store || Askers(b, answered, x) == if b.Selects(ms, x) then 1 else 0)
  }

  lemma CountCompares(b: Backend, ms: seq<Matcher>, texts: seq<string>, replies: seq<Reply>, x: MetricResult)
    requires RepliesFrom(b, texts, replies)
    ensures |replies| == |texts| && CountsCompare(b, ms, Answered(texts, replies), AllRows(replies), Select(b, ms, b.store), x)
  {
    MergedCount(b, texts, replies, x);
    SelectCount(b, ms, b.store, x);
    assert x in b.store <==> CountIn(b.store, x) > 0;
    hide AllRows, Select, Answered, Askers, Times, Backend.Selects, RepliesFrom;
    Scaled(Askers(b, Answered(texts, replies), x), CountIn(b.store, x), b.Selects(ms, x));
  }

  lemma ByCounts(b: Backend, ms: seq<Matcher>, answered: seq<string>, rows: seq<MetricResult>, whole: seq<MetricResult>)
    requires forall x :: CountsCompare(b, ms, answered, rows, whole, x)
    ensures multiset(rows) <= multiset(whole) <==> AskedAtMost(b, ms, answered)
    ensures multiset(rows) == multiset(whole) <==> AskedExactly(b, ms, answered)
  {
    hide Askers, CountIn, Backend.Selects;
    BagFromCounts(rows, whole);
    forall x
      ensures CountIn(rows, x) <= CountIn(whole, x) <==> x !in b.store || Askers(b, answered, x) <= if b.Selects(ms, x) then 1 else 0
      ensures CountIn(rows, x) == CountIn(whole, x) <==> x !in b.store || Askers(b, answered, x) == if b.Selects(ms, x) then 1 else 0
    {
      assert CountsCompare(b, ms, answered, rows, whole, x);
    }
  }

  /**
    What merged replies amount to, whatever the queries, the order of replies and the failures:
    they are the selection by `ms`, each series as often, exactly when the answered queries ask
    once for each series of the store that satisfies `ms` and for no other; and nothing is
    returned too often exactly when they ask at most so, as they do if all the queries together do.
   */
  lemma MergedMeans(b: Backend, ms: seq<Matcher>, texts: seq<string>, replies: seq<Reply>, entry: Entry)
    requires RepliesFrom(b, texts, replies) && Merges(entry, replies)
    ensures |replies| == |texts|
    ensures SameBag(entry.results, Select(b, ms, b.store)) <==> AskedExactly(b, ms, Answered(texts, replies))
    ensures multiset(entry.results) <= multiset(Select(b, ms, b.store)) <==> AskedAtMost(b, ms, Answered(texts, replies))
    ensures AskedAtMost(b, ms, texts) ==> multiset(entry.results) <= multiset(Select(b, ms, b.store))
  {
    var rows, whole, answered := AllRows(replies), Select(b, ms, b.store), Answered(texts, replies);
    hide AllRows, Select, Answered, Backend.Selects, RepliesFrom, Askers;
    if AskedAtMost(b, ms, texts) {
      forall x | x in b.store ensures Askers(b, answered, x) <= if b.Selects(ms, x) then 1 else 0 {
        FailuresAskLess(b, texts, replies, x);
      }
    }
    hide CountsCompare, AskedExactly, AskedAtMost;
    forall x ensures CountsCompare(b, ms, answered, rows, whole, x) {
      CountCompares(b, ms, texts, replies, x);
    }
    ByCounts(b, ms, answered, rows, whole);
  }

  // ----- the split query against the unsplit one -----

  function ShardTexts(metric: string, cluster: string, hosts: seq<string>): seq<string> {
    seq(|hosts|, i requires 0 <= i < |hosts| => ShardText(metric, cluster, hosts[i]))
  }

  /** The names in the queries need no escaping. */
  predicate Askable(metric: string, hosts: seq<string>) {
    MetricName(metric) && forall h | h in hosts :: Clean(h)
  }

  /** What a shard's query selects: its host type's part of the unsplit selection, or something else altogether. */
  lemma ShardAsks(b: Backend, metric: string, cluster: string, host: string, x: MetricResult)
    ensures MetricName(metric) && Clean(host) ==>
      (AsksFor(b, ShardText(metric, cluster, host), x) <==> b.Selects(WholeMatchers(metric, cluster), x) && LabelValue(x, HOST) == host)
    ensures MetricName(metric) && !Clean(host) && AsksFor(b, ShardText(metric, cluster, host), x) ==>
      b.Selects(WholeMatchers(metric, cluster), x) && LabelValue(x, HOST) != host
    ensures !MetricName(metric) && AsksFor(b, ShardText(metric, cluster, host), x) ==> LabelValue(x, NAME) != metric
  {
    var text, whole, h := ShardText(metric, cluster, host), WholeMatchers(metric, cluster), HostMatcher(host);
    ShardTextReads(metric, cluster, host);
    ShardMisread(metric, cluster, host);
    assert ShardMatchers(metric, cluster, host) == whole + [h];
    hide ReadSelector, ShardText, MetricName, Clean, WholeMatchers, ShardMatchers;
    SelectsBoth(b, whole, [h], x);
    assert b.Selects([h], x) <==> LabelValue(x, HOST) == host;
    if AsksFor(b, text, x) {
      var read := ReadSelector(text).value;
      if !MetricName(metric) {
        assert read[0] in read;
      } else if !Clean(host) {
        var v, more :| v != host && read == whole + ([HostMatcher(v)] + more);
        SelectsBoth(b, whole, [HostMatcher(v)] + more, x);
        assert HostMatcher(v) in [HostMatcher(v)] + more;
      }
    }
  }

  lemma SelectsBoth(b: Backend, ms: seq<Matcher>, more: seq<Matcher>, x: MetricResult)
    ensures b.Selects(ms + more, x) <==> b.Selects(ms, x) && b.Selects(more, x)
  {
    assert forall m :: m in ms + more <==> m in ms || m in more;
  }

  /** Where the names need no escaping, a series is asked for by the shards that list its host type. */
  lemma {:induction false} ShardAskers(b: Backend, metric: string, cluster: string, hosts: seq<string>, x: MetricResult)
    requires Askable(metric, hosts)
    ensures Askers(b, ShardTexts(metric, cluster, hosts), x) == if b.Selects(WholeMatchers(metric, cluster), x) then Copies(hosts, x) else 0
  {
    if hosts != [] {
      var front, host := hosts[..|hosts| - 1], hosts[|hosts| - 1];
      assert hosts == front + [host] && host in hosts && Askable(metric, front);
      assert ShardTexts(metric, cluster, hosts) == ShardTexts(metric, cluster, front) + [ShardText(metric, cluster, host)];
      OneMoreCopy(front, host, x);
      hide Askers, AsksFor, ShardText, ShardTexts, WholeMatchers, Backend.Selects, Copies, LabelValue, MetricName, Clean;
      AskersSnoc(b, ShardTexts(metric, cluster, front), ShardText(metric, cluster, host), x);
      ShardAsks(b, metric, cluster, host, x);
      ShardAskers(b, metric, cluster, front, x);
    }
  }

  lemma OneMoreCopy(hosts: seq<string>, host: string, x: MetricResult)
    ensures Copies(hosts + [host], x) == Copies(hosts, x) + if LabelValue(x, HOST) == host then 1 else 0
  {
  }

  lemma {:induction false} AnsweredShards(metric: string, cluster: string, hosts: seq<string>, replies: seq<Reply>)
    requires |replies| == |hosts|
    ensures Answered(ShardTexts(metric, cluster, hosts), replies) == ShardTexts(metric, cluster, Answered(hosts, replies))
    ensures forall h | h in Answered(hosts, replies) :: h in hosts
  {
    if hosts != [] {
      var n := |hosts| - 1;
      hide ShardText;
      AnsweredShards(metric, cluster, hosts[..n], replies[..n]);
      assert ShardTexts(metric, cluster, hosts)[..n] == ShardTexts(metric, cluster, hosts[..n]);
    }
  }

  /** Every series of the unsplit answer has a host type that is listed exactly once. */
  ghost predicate CoveredOnce(b: Backend, metric: string, cluster: string, hosts: seq<string>) {
    forall x | x in WholeAnswer(b, metric, cluster) :: Copies(hosts, x) == 1
  }

  /** No series of the unsplit answer has a host type that is listed twice. */
  ghost predicate ListedAtMostOnce(b: Backend, metric: string, cluster: string, hosts: seq<string>) {
    forall x | x in WholeAnswer(b, metric, cluster) :: Copies(hosts, x) <= 1
  }

  lemma InWhole(b: Backend, metric: string, cluster: string, x: MetricResult)
    ensures x in WholeAnswer(b, metric, cluster) <==> x in b.store && b.Selects(WholeMatchers(metric, cluster), x)
  {
    SelectCount(b, WholeMatchers(metric, cluster), b.store, x);
    assert x in b.store <==> multiset(b.store)[x] > 0;
    assert x in WholeAnswer(b, metric, cluster) <==> multiset(WholeAnswer(b, metric, cluster))[x] > 0;
  }

  lemma CoverageMeans(b: Backend, metric: string, cluster: string, hosts: seq<string>)
    requires Askable(metric, hosts)
    ensures AskedExactly(b, WholeMatchers(metric, cluster), ShardTexts(metric, cluster, hosts)) <==> CoveredOnce(b, metric, cluster, hosts)
    ensures AskedAtMost(b, WholeMatchers(metric, cluster), ShardTexts(metric, cluster, hosts)) <==> ListedAtMostOnce(b, metric, cluster, hosts)
  {
    hide Askers, Backend.Selects, WholeMatchers, WholeAnswer, Copies, ShardTexts, MetricName, Clean;
    forall x
      ensures x in WholeAnswer(b, metric, cluster) <==> x in b.store && b.Selects(WholeMatchers(metric, cluster), x)
      ensures Askers(b, ShardTexts(metric, cluster, hosts), x) == if b.Selects(WholeMatchers(metric, cluster), x) then Copies(hosts, x) else 0
    {
      InWhole(b, metric, cluster, x);
      ShardAskers(b, metric, cluster, hosts, x);
    }
  }

  lemma {:induction false} AtMostOnce(hosts: seq<string>, x: MetricResult)
    requires NoDup(hosts)
    ensures Copies(hosts, x) <= 1
    decreases |hosts|
  {
    if hosts != [] {
      var front, h := hosts[..|hosts| - 1], hosts[|hosts| - 1];
      assert hosts == front + [h];
      AtMostOnce(front, x);
      assert h !in front;
    }
  }

  lemma {:induction false} AnsweredCopies(hosts: seq<string>, replies: seq<Reply>, x: MetricResult)
    requires |replies| == |hosts|
    ensures Copies(Answered(hosts, replies), x) <= Copies(hosts, x)
  {
    if hosts != [] {
      var n := |hosts| - 1;
      var front, before := hosts[..n], replies[..n];
      var answered := Answered(front, before);
      assert hosts == front + [hosts[n]];
      assert Answered(hosts, replies) == answered + (if replies[n].Rows? then [hosts[n]] else []);
      assert answered + [] == answered;
      OneMoreCopy(front, hosts[n], x);
      OneMoreCopy(answered, hosts[n], x);
      hide Answered, Copies, LabelValue;
      AnsweredCopies(front, before, x);
    }
  }

  /**
    Sharding preserves meaning, with whatever order of replies and whatever failures. Where the
    names need no escaping, the merged results are the unsplit query's, each as often, exactly when
    the host type of every series of the unsplit answer is listed once among the answered shards;
    nothing is returned too often exactly when none is listed twice among them; and a list without
    repetitions never returns anything extra. Without failures all listed shards are answered. For
    any names, `MergedMeans` says when the results are the unsplit query's.
   */
  lemma ShardedMeansWhole(b: Backend, metric: string, cluster: string, hosts: seq<string>, replies: seq<Reply>, entry: Entry)
    requires RepliesFrom(b, ShardTexts(metric, cluster, hosts), replies) && Merges(entry, replies)
    ensures |replies| == |hosts|
    ensures var whole, asked := WholeAnswer(b, metric, cluster), Answered(ShardTexts(metric, cluster, hosts), replies);
      && (SameBag(entry.results, whole) <==> AskedExactly(b, WholeMatchers(metric, cluster), asked))
      && (multiset(entry.results) <= multiset(whole) <==> AskedAtMost(b, WholeMatchers(metric, cluster), asked))
    ensures Askable(metric, hosts) ==> var whole, answered := WholeAnswer(b, metric, cluster), Answered(hosts, replies);
      && (SameBag(entry.results, whole) <==> CoveredOnce(b, metric, cluster, answered))
      && (multiset(entry.results) <= multiset(whole) <==> ListedAtMostOnce(b, metric, cluster, answered))
      && (NoDup(hosts) ==> multiset(entry.results) <= multiset(whole))
    ensures AllSucceeded(replies) ==> Answered(hosts, replies) == hosts
  {
    var answered := Answered(hosts, replies);
    if AllSucceeded(replies) {
      AllAnswered(hosts, replies);
    }
    MergedMeans(b, WholeMatchers(metric, cluster), ShardTexts(metric, cluster, hosts), replies, entry);
    AnsweredShards(metric, cluster, hosts, replies);
    if NoDup(hosts) {
      forall x ensures Copies(answered, x) <= 1 {
        AnsweredCopies(hosts, replies, x);
        AtMostOnce(hosts, x);
      }
    }
    if Askable(metric, hosts) {
      assert Askable(metric, answered);
      CoverageMeans(b, metric, cluster, answered);
    }
  }

  /** A metric name that would have to be escaped: nothing that is returned is of that metric. */
  lemma MisnamedReturns(b: Backend, metric: string, texts: seq<string>, replies: seq<Reply>, entry: Entry)
    requires metric != "" && RepliesFrom(b, texts, replies) && Merges(entry, replies)
    requires forall i | 0 <= i < |texts| :: Misnamed(ReadSelector(texts[i]), metric)
    ensures forall x | x in entry.results :: LabelValue(x, NAME) != metric
  {
    forall x | x in entry.results ensures LabelValue(x, NAME) != metric {
      BagMember(entry.results, AllRows(replies), x);
      var i := RowFrom(replies, x);
      var ms := ReadSelector(texts[i]).value;
      SelectCount(b, ms, b.store, x);
      assert multiset(Select(b, ms, b.store))[x] > 0;
      assert ms[0] in ms;
    }
  }

  lemma {:induction false} RowFrom(replies: seq<Reply>, x: MetricResult) returns (i: nat)
    requires x in AllRows(replies)
    ensures i < |replies| && replies[i].Rows? && x in replies[i].rows
  {
    var n := |replies| - 1;
    if replies[n].Rows? && x in replies[n].rows {
      i := n;
    } else {
      i := RowFrom(replies[..n], x);
    }
  }
}
