/**
 * `Catalogo.ordenarPor` for its integer-key criteria: `Array.prototype.sort` with a
 * comparator `(a, b) => key(a) - key(b)` (or the reverse), which is a stable sort.
 */
module Sorting {
  import opened Sequences
  import opened Vehicles

  /** The criteria whose comparator subtracts integer keys. */
  datatype Criterion = PriceAsc | PriceDesc | YearDesc | YearAsc | MileageAsc | MileageDesc

  /** The key a criterion sorts ascending by: a descending criterion sorts by the negated key. */
  function SortKey(c: Criterion, v: Vehicle): int {
    match c
    case PriceAsc => v.price
    case PriceDesc => -v.price
    case YearAsc => v.year
    case YearDesc => -v.year
    case MileageAsc => v.mileage.GetOr(0)
    case MileageDesc => -v.mileage.GetOr(0)
  }

  predicate SortedBy<T>(s: seq<T>, key: T -> int) {
    forall i, j :: 0 <= i < j < |s| ==> key(s[i]) <= key(s[j])
  }

  /** Places `x` before the first element whose key is not smaller, so equal keys keep `x` first. */
  function Insert<T>(x: T, s: seq<T>, key: T -> int): (r: seq<T>)
    ensures |r| == |s| + 1
  {
    if s == [] || key(x) <= key(s[0]) then [x] + s
    else [s[0]] + Insert(x, s[1..], key)
  }

  /** A stable insertion sort by `key`. */
  function SortByKey<T>(s: seq<T>, key: T -> int): (r: seq<T>)
    ensures |r| == |s|
  {
    if s == [] then [] else Insert(s[0], SortByKey(s[1..], key), key)
  }

  /** Insertion adds `x` and loses nothing. */
  lemma {:induction false} InsertPermutes<T>(x: T, s: seq<T>, key: T -> int)
    ensures multiset(Insert(x, s, key)) == multiset{x} + multiset(s)
  {
    if s != [] && key(x) > key(s[0]) {
      InsertPermutes(x, s[1..], key);
      assert s == [s[0]] + s[1..];
    }
  }

  /** The sorted list is a permutation of the input. */
  lemma {:induction false} SortByKeyPermutes<T>(s: seq<T>, key: T -> int)
    ensures multiset(SortByKey(s, key)) == multiset(s)
  {
    if s != [] {
      SortByKeyPermutes(s[1..], key);
      InsertPermutes(s[0], SortByKey(s[1..], key), key);
      assert s == [s[0]] + s[1..];
    }
  }

  /** A lower bound on the keys of `x` and of `s` bounds the keys after the insertion. */
  lemma {:induction false} InsertBound<T>(x: T, s: seq<T>, key: T -> int, b: int)
    requires b <= key(x) && forall k :: 0 <= k < |s| ==> b <= key(s[k])
    ensures forall k :: 0 <= k < |Insert(x, s, key)| ==> b <= key(Insert(x, s, key)[k])
  {
    if s != [] && key(x) > key(s[0]) {
      InsertBound(x, s[1..], key, b);
      var rest := Insert(x, s[1..], key);
      assert Insert(x, s, key) == [s[0]] + rest;
    }
  }

  lemma {:induction false} InsertSorted<T>(x: T, s: seq<T>, key: T -> int)
    requires SortedBy(s, key)
    ensures SortedBy(Insert(x, s, key), key)
  {
    if s != [] && key(x) > key(s[0]) {
      var tail := s[1..];
      assert SortedBy(tail, key) by {
        forall i, j | 0 <= i < j < |tail| ensures key(tail[i]) <= key(tail[j]) {
          assert tail[i] == s[i + 1] && tail[j] == s[j + 1];
        }
      }
      InsertSorted(x, tail, key);
      forall k | 0 <= k < |tail| ensures key(s[0]) <= key(tail[k]) {
        assert tail[k] == s[k + 1];
      }
      InsertBound(x, tail, key, key(s[0]));
      var rest := Insert(x, tail, key);
      assert Insert(x, s, key) == [s[0]] + rest;
    }
  }

  /** The sorted list is in non-decreasing key order. */
  lemma {:induction false} SortByKeySorted<T>(s: seq<T>, key: T -> int)
    ensures SortedBy(SortByKey(s, key), key)
  {
    if s != [] {
      SortByKeySorted(s[1..], key);
      InsertSorted(s[0], SortByKey(s[1..], key), key);
    }
  }

  /** The elements of `s` whose key is `k`, in their order in `s`. */
  function WithKey<T>(s: seq<T>, key: T -> int, k: int): seq<T> {
    if s == [] then [] else (if key(s[0]) == k then [s[0]] else []) + WithKey(s[1..], key, k)
  }

  /** The cons step of `WithKey`: the head, if it has key `k`, then the tail's elements of key `k`. */
  lemma WithKeyCons<T>(a: T, t: seq<T>, key: T -> int, k: int)
    ensures WithKey([a] + t, key, k) == (if key(a) == k then [a] else []) + WithKey(t, key, k)
  {
    assert ([a] + t)[0] == a && ([a] + t)[1..] == t;
  }

  /** Insertion puts `x` ahead of every element with its key and keeps their order. */
  lemma {:induction false} InsertWithKey<T>(x: T, s: seq<T>, key: T -> int, k: int)
    ensures WithKey(Insert(x, s, key), key, k) ==
            (if key(x) == k then [x] else []) + WithKey(s, key, k)
  {
    var hx := if key(x) == k then [x] else [];
    if s == [] || key(x) <= key(s[0]) {
      WithKeyCons(x, s, key, k);
    } else {
      var a, t := s[0], s[1..];
      InsertWithKey(x, t, key, k);
      var rest := Insert(x, t, key);
      var h0 := if key(a) == k then [a] else [];
      var w := WithKey(t, key, k);
      WithKeyCons(a, rest, key, k);
      assert s == [a] + t;
      WithKeyCons(a, t, key, k);
      assert Insert(x, s, key) == [a] + rest;
      if key(a) == k {
        assert hx == [];
        assert hx + WithKey(s, key, k) == WithKey(s, key, k);
        assert WithKey(rest, key, k) == w;
      } else {
        assert h0 == [];
        assert WithKey([a] + rest, key, k) == WithKey(rest, key, k);
        assert WithKey(s, key, k) == w;
      }
    }
  }

  /** The sort is stable: elements with equal keys keep their relative order. */
  lemma {:induction false} SortByKeyStable<T>(s: seq<T>, key: T -> int, k: int)
    ensures WithKey(SortByKey(s, key), key, k) == WithKey(s, key, k)
  {
    if s != [] {
      SortByKeyStable(s[1..], key, k);
      InsertWithKey(s[0], SortByKey(s[1..], key), key, k);
    }
  }

  /** Sorting a list without repeated elements gives one without repeated elements. */
  lemma {:induction false} SortByKeyDistinct<T>(s: seq<T>, key: T -> int)
    requires Distinct(s)
    ensures Distinct(SortByKey(s, key))
  {
    if s != [] {
      DistinctTail(s);
      SortByKeyDistinct(s[1..], key);
      var t := SortByKey(s[1..], key);
      SortByKeyPermutes(s[1..], key);
      assert s[0] !in multiset(s[1..]);
      assert s[0] !in t;
      InsertDistinct(s[0], t, key);
    }
  }

  /** The inserted list holds `x` and the elements of `s`, and nothing else. */
  lemma InsertMembers<T>(x: T, s: seq<T>, key: T -> int, y: T)
    ensures y in Insert(x, s, key) <==> y == x || y in s
  {
    InsertPermutes(x, s, key);
    assert y in Insert(x, s, key) <==> y in multiset(Insert(x, s, key));
    assert y in s <==> y in multiset(s);
  }

  lemma {:induction false} InsertDistinct<T>(x: T, s: seq<T>, key: T -> int)
    requires Distinct(s) && x !in s
    ensures Distinct(Insert(x, s, key))
  {
    if s == [] || key(x) <= key(s[0]) {
      DistinctCons(x, s);
    } else {
      DistinctTail(s);
      InsertDistinct(x, s[1..], key);
      var rest := Insert(x, s[1..], key);
      InsertMembers(x, s[1..], key, s[0]);
      DistinctCons(s[0], rest);
      assert Insert(x, s, key) == [s[0]] + rest;
    }
  }

  /** `vehiculosFiltrados.sort(ordenamientos[criterio])`. */
  function SortVehicles(vs: seq<Vehicle>, c: Criterion): seq<Vehicle> {
    SortByKey(vs, v => SortKey(c, v))
  }

  /**
   * Sorting by a criterion gives a permutation of the view, in the criterion's order, and
   * keeps listings with equal keys in the order they had.
   */
  lemma SortVehiclesCorrect(vs: seq<Vehicle>, c: Criterion, k: int)
    ensures multiset(SortVehicles(vs, c)) == multiset(vs)
    ensures SortedBy(SortVehicles(vs, c), v => SortKey(c, v))
    ensures WithKey(SortVehicles(vs, c), v => SortKey(c, v), k) == WithKey(vs, v => SortKey(c, v), k)
  {
    SortByKeyPermutes(vs, v => SortKey(c, v));
    SortByKeySorted(vs, v => SortKey(c, v));
    SortByKeyStable(vs, v => SortKey(c, v), k);
  }

  /** Sorting by price descending puts the dearest listing first. */
  lemma PriceDescFirstIsDearest(vs: seq<Vehicle>, i: int)
    requires 0 <= i < |vs|
    ensures SortVehicles(vs, PriceDesc) != [] && SortVehicles(vs, PriceDesc)[0].price >= vs[i].price
  {
    var r := SortVehicles(vs, PriceDesc);
    SortByKeySorted(vs, v => SortKey(PriceDesc, v));
    SortByKeyPermutes(vs, v => SortKey(PriceDesc, v));
    assert vs[i] in multiset(r);
    var m :| 0 <= m < |r| && r[m] == vs[i];
    if m > 0 {
      assert SortKey(PriceDesc, r[0]) <= SortKey(PriceDesc, r[m]);
    }
  }
}
