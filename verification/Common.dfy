/** Small vocabulary shared by the models: optional values, duplicate-free lists, text, flattening. */
module Common {

  datatype Option<+T> = None | Some(value: T)

  /** No value occurs twice. */
  ghost predicate NoDup<T>(s: seq<T>) {
    forall i, j :: 0 <= i < j < |s| ==> s[i] != s[j]
  }

  function Elems<T>(s: seq<T>): set<T> {
    set x | x in s
  }

  /** `order` is one of the orders in which a Go map with these keys may be iterated. */
  ghost predicate IsOrder<K>(order: seq<K>, keys: set<K>) {
    NoDup(order) && Elems(order) == keys
  }

  predicate Contains(s: string, sub: string) {
    exists i | 0 <= i <= |s| :: sub <= s[i..]
  }

  /** The text occurs somewhere in `s`. */
  ghost predicate Around(s: string, text: string) {
    exists before, after :: s == before + text + after
  }

  lemma ContainsMeans(s: string, sub: string)
    ensures Contains(s, sub) <==> Around(s, sub)
  {
    if i :| 0 <= i <= |s| && sub <= s[i..] {
      assert s == s[..i] + sub + s[i + |sub|..];
    }
    if before, after :| s == before + sub + after {
      assert s[|before|..] == sub + after && sub <= s[|before|..];
    }
  }

  function Join(parts: seq<string>, sep: string): string {
    if parts == [] then "" else if |parts| == 1 then parts[0] else parts[0] + sep + Join(parts[1..], sep)
  }

  function Flatten<T>(ss: seq<seq<T>>): seq<T> {
    if ss == [] then [] else ss[0] + Flatten(ss[1..])
  }

  lemma {:induction false} FlattenSnoc<T>(ss: seq<seq<T>>, last: seq<T>)
    ensures Flatten(ss + [last]) == Flatten(ss) + last
  {
    if ss == [] {
      assert [last][1..] == [];
    } else {
      assert (ss + [last])[1..] == ss[1..] + [last];
      FlattenSnoc(ss[1..], last);
    }
  }

  /** Pigeonhole: a list has as many distinct values as places exactly when nothing repeats. */
  lemma {:induction false} DistinctCount<T>(s: seq<T>)
    ensures |Elems(s)| <= |s|
    ensures |Elems(s)| == |s| <==> NoDup(s)
  {
    if s != [] {
      var front, last := s[..|s| - 1], s[|s| - 1];
      DistinctCount(front);
      assert s == front + [last];
      assert Elems(s) == Elems(front) + {last};
      if last in front {
        assert Elems(s) == Elems(front);
        var i :| 0 <= i < |front| && front[i] == last;
        assert s[i] == s[|s| - 1];
      } else {
        assert NoDup(s) <==> NoDup(front) by {
          if NoDup(s) {
            forall i, j | 0 <= i < j < |front| ensures front[i] != front[j] {
              assert s[i] != s[j];
            }
          }
        }
      }
    }
  }

  /** Every finite set of keys has at least one iteration order. */
  lemma {:induction false} SomeOrder<K>(keys: set<K>) returns (order: seq<K>)
    ensures IsOrder(order, keys)
    decreases keys
  {
    if keys == {} {
      order := [];
    } else {
      var k :| k in keys;
      var rest := SomeOrder(keys - {k});
      order := rest + [k];
      assert Elems(order) == Elems(rest) + {k};
    }
  }

  /** What stands at these places, taken from the first `upTo` in their order. */
  ghost predicate Picks<T>(s: seq<T>, upTo: nat, places: seq<nat>, picked: seq<T>) {
    && |picked| == |places| && upTo <= |s|
    && (forall i, j | 0 <= i < j < |places| :: places[i] < places[j])
    && (forall i | 0 <= i < |places| :: places[i] < upTo && picked[i] == s[places[i]])
  }

  lemma PicksNext<T>(s: seq<T>, upTo: nat, places: seq<nat>, picked: seq<T>)
    requires upTo < |s| && Picks(s, upTo, places, picked)
    ensures Picks(s, upTo + 1, places, picked) && Picks(s, upTo + 1, places + [upTo], picked + [s[upTo]])
    ensures forall p :: p in places + [upTo] <==> p in places || p == upTo
    ensures upTo !in places
  {
  }

  lemma SameMap<K, V>(a: map<K, V>, b: map<K, V>)
    requires forall k | k in a :: k in b && a[k] == b[k]
    requires forall k | k in b :: k in a
    ensures a == b
  {
  }

  lemma SameLength<T>(a: seq<T>, b: seq<T>)
    requires multiset(a) == multiset(b)
    ensures |a| == |b|
  {
    assert |multiset(a)| == |a| && |multiset(b)| == |b|;
  }

  lemma ConsInjective<T>(x: T, a: seq<T>, b: seq<T>)
    ensures [x] + a == [x] + b <==> a == b
  {
    assert ([x] + a)[1..] == a && ([x] + b)[1..] == b;
  }
}
