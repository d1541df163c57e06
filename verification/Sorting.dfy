/** The library sort: what it returns is determined by the values alone. */
module Sorting {
  import opened Common

  ghost predicate LinearOrder<T(!new)>(le: (T, T) -> bool) {
    && (forall a, b :: le(a, b) || le(b, a))
    && (forall a, b, c :: le(a, b) && le(b, c) ==> le(a, c))
    && (forall a, b :: le(a, b) && le(b, a) ==> a == b)
  }

  ghost predicate Sorted<T>(s: seq<T>, le: (T, T) -> bool) {
    forall i, j | 0 <= i < j < |s| :: le(s[i], s[j])
  }

  function Insert<T>(x: T, s: seq<T>, le: (T, T) -> bool): seq<T> {
    if s == [] || le(x, s[0]) then [x] + s else [s[0]] + Insert(x, s[1..], le)
  }

  function Sort<T>(s: seq<T>, le: (T, T) -> bool): seq<T> {
    if s == [] then [] else Insert(s[0], Sort(s[1..], le), le)
  }

  lemma {:induction false} InsertBag<T>(x: T, s: seq<T>, le: (T, T) -> bool)
    ensures multiset(Insert(x, s, le)) == multiset(s) + multiset{x}
  {
    if s != [] && !le(x, s[0]) {
      InsertBag(x, s[1..], le);
      assert s == [s[0]] + s[1..];
    }
  }

  lemma ConsSorted<T>(x: T, s: seq<T>, le: (T, T) -> bool)
    requires Sorted(s, le) && forall y | y in s :: le(x, y)
    ensures Sorted([x] + s, le)
  {
  }

  lemma TailSorted<T>(s: seq<T>, le: (T, T) -> bool)
    requires s != [] && Sorted(s, le)
    ensures Sorted(s[1..], le) && forall y | y in s[1..] :: le(s[0], y)
  {
  }

  lemma {:induction false} InsertSorts<T(!new)>(x: T, s: seq<T>, le: (T, T) -> bool)
    requires LinearOrder(le) && Sorted(s, le)
    ensures Sorted(Insert(x, s, le), le)
    ensures multiset(Insert(x, s, le)) == multiset(s) + multiset{x}
  {
    InsertBag(x, s, le);
    if s == [] {
      ConsSorted(x, s, le);
    } else {
      var first, rest := s[0], s[1..];
      assert s == [first] + rest;
      TailSorted(s, le);
      hide Sorted;
      if le(x, first) {
        assert forall y | y in s :: y == first || y in rest;
        ConsSorted(x, s, le);
      } else {
        InsertSorts(x, rest, le);
        forall y | y in Insert(x, rest, le) ensures le(first, y) {
          assert y in multiset(Insert(x, rest, le));
          assert y in multiset(rest) || y == x;
        }
        ConsSorted(first, Insert(x, rest, le), le);
      }
    }
  }

  lemma {:induction false} SortSorts<T(!new)>(s: seq<T>, le: (T, T) -> bool)
    requires LinearOrder(le)
    ensures Sorted(Sort(s, le), le) && multiset(Sort(s, le)) == multiset(s) && |Sort(s, le)| == |s|
  {
    if s != [] {
      assert s == [s[0]] + s[1..];
      assert Sort(s, le) == Insert(s[0], Sort(s[1..], le), le);
      hide Sorted, Sort, Insert, LinearOrder;
      SortSorts(s[1..], le);
      InsertSorts(s[0], Sort(s[1..], le), le);
    }
    assert |multiset(Sort(s, le))| == |Sort(s, le)| && |multiset(s)| == |s|;
  }

  lemma SameMembers<T>(a: seq<T>, b: seq<T>)
    requires multiset(a) == multiset(b)
    ensures forall x :: x in a <==> x in b
  {
    forall x ensures x in a <==> x in b {
      assert x in a <==> x in multiset(a);
    }
  }

  lemma FirstIsLeast<T(!new)>(a: seq<T>, x: T, le: (T, T) -> bool)
    requires LinearOrder(le) && Sorted(a, le) && x in a
    ensures le(a[0], x)
  {
    var i :| 0 <= i < |a| && a[i] == x;
    assert le(a[0], a[0]);
  }

  lemma SameFirst<T(!new)>(a: seq<T>, b: seq<T>, le: (T, T) -> bool)
    requires LinearOrder(le) && Sorted(a, le) && Sorted(b, le) && multiset(a) == multiset(b) && a != [] && b != []
    ensures a[0] == b[0]
  {
    SameMembers(a, b);
    assert a[0] in a && b[0] in b;
    FirstIsLeast(a, b[0], le);
    FirstIsLeast(b, a[0], le);
  }

  lemma SameRest<T>(a: seq<T>, b: seq<T>)
    requires multiset(a) == multiset(b) && a != [] && b != [] && a[0] == b[0]
    ensures multiset(a[1..]) == multiset(b[1..])
  {
    assert a == [a[0]] + a[1..] && b == [b[0]] + b[1..];
    assert multiset(a[1..]) == multiset(a) - multiset{a[0]};
    assert multiset(b[1..]) == multiset(b) - multiset{b[0]};
  }

  /** A sorted list is determined by how often each value occurs. */
  lemma {:induction false} SortedUnique<T(!new)>(a: seq<T>, b: seq<T>, le: (T, T) -> bool)
    requires LinearOrder(le) && Sorted(a, le) && Sorted(b, le) && multiset(a) == multiset(b)
    ensures a == b
    decreases |a|
  {
    SameLength(a, b);
    if a != [] {
      SameFirst(a, b, le);
      SameRest(a, b);
      assert Sorted(a[1..], le) && Sorted(b[1..], le);
      hide Sorted, LinearOrder;
      SortedUnique(a[1..], b[1..], le);
      assert a == [a[0]] + a[1..] && b == [b[0]] + b[1..];
    }
  }

  lemma SortOfPermutation<T(!new)>(a: seq<T>, b: seq<T>, le: (T, T) -> bool)
    requires LinearOrder(le) && multiset(a) == multiset(b)
    ensures Sort(a, le) == Sort(b, le)
  {
    SortSorts(a, le);
    SortSorts(b, le);
    SortedUnique(Sort(a, le), Sort(b, le), le);
  }
}
