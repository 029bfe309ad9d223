/**
 * The filter options `cargarFiltros` falls back to when the option requests fail: the
 * distinct brands and types in order of first appearance (`[...new Set(...)]`) and the
 * distinct years, newest first.
 */
module Facets {
  import opened Sequences
  import opened Vehicles
  import opened Sorting

  /** `[...new Set(s)]`: each value once, a repeat is ignored where it recurs. */
  function Unique<T(==)>(s: seq<T>): (r: seq<T>)
    ensures forall k :: 0 <= k < |r| ==> r[k] in s
    ensures forall k :: 0 <= k < |s| ==> s[k] in r
    ensures Distinct(r)
  {
    if s == [] then []
    else
      var u := Unique(s[..|s| - 1]);
      var x := s[|s| - 1];
      assert s == s[..|s| - 1] + [x];
      if x in u then u else u + [x]
  }

  function Brands(vs: seq<Vehicle>): seq<string> {
    seq(|vs|, k requires 0 <= k < |vs| => vs[k].brand)
  }

  function Kinds(vs: seq<Vehicle>): seq<string> {
    seq(|vs|, k requires 0 <= k < |vs| => vs[k].kind)
  }

  function Years(vs: seq<Vehicle>): seq<int> {
    seq(|vs|, k requires 0 <= k < |vs| => vs[k].year)
  }

  /** `marcasUnicas`. */
  function BrandOptions(vs: seq<Vehicle>): seq<string> {
    Unique(Brands(vs))
  }

  /** `tiposUnicos`. */
  function KindOptions(vs: seq<Vehicle>): seq<string> {
    Unique(Kinds(vs))
  }

  /** `añosUnicos`: `[...new Set(years)].sort((a, b) => b - a)`. */
  function YearOptions(vs: seq<Vehicle>): seq<int> {
    SortByKey(Unique(Years(vs)), y => -y)
  }

  /** The brand options are exactly the catalog's brands, each offered once. */
  lemma BrandOptionsCorrect(vs: seq<Vehicle>, b: string)
    ensures Distinct(BrandOptions(vs))
    ensures b in BrandOptions(vs) <==> exists k :: 0 <= k < |vs| && vs[k].brand == b
  {
    if exists k :: 0 <= k < |vs| && vs[k].brand == b {
      var k :| 0 <= k < |vs| && vs[k].brand == b;
      assert Brands(vs)[k] == b;
    }
  }

  /** The type options are exactly the catalog's types, each offered once. */
  lemma KindOptionsCorrect(vs: seq<Vehicle>, t: string)
    ensures Distinct(KindOptions(vs))
    ensures t in KindOptions(vs) <==> exists k :: 0 <= k < |vs| && vs[k].kind == t
  {
    if exists k :: 0 <= k < |vs| && vs[k].kind == t {
      var k :| 0 <= k < |vs| && vs[k].kind == t;
      assert Kinds(vs)[k] == t;
    }
  }

  /** The year options are exactly the catalog's years. */
  lemma YearOptionsMembers(vs: seq<Vehicle>, y: int)
    ensures y in YearOptions(vs) <==> exists k :: 0 <= k < |vs| && vs[k].year == y
  {
    var u := Unique(Years(vs));
    var r := YearOptions(vs);
    assert y in r <==> y in u by {
      SortByKeyPermutes(u, y => -y);
      assert multiset(r) == multiset(u);
      assert y in r <==> y in multiset(r);
      assert y in u <==> y in multiset(u);
    }
    if exists k :: 0 <= k < |vs| && vs[k].year == y {
      var k :| 0 <= k < |vs| && vs[k].year == y;
      assert Years(vs)[k] == y;
    }
  }

  /** The year options are strictly decreasing: newest first, no year twice. */
  lemma YearOptionsDescending(vs: seq<Vehicle>)
    ensures forall i, j :: 0 <= i < j < |YearOptions(vs)| ==> YearOptions(vs)[i] > YearOptions(vs)[j]
  {
    var u := Unique(Years(vs));
    var key := (y: int) => -y;
    var r := SortByKey(u, key);
    SortByKeySorted(u, key);
    SortByKeyDistinct(u, key);
    forall i, j | 0 <= i < j < |r| ensures r[i] > r[j] {
      assert key(r[i]) <= key(r[j]);
      assert r[i] != r[j];
    }
  }
}
