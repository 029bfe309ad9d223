/**
 * `Array.prototype.filter` on values: the order-preserving selection of the elements that
 * satisfy a predicate, and what is true of it for every predicate.
 */
module Sequences {

  /** `s.filter(p)`. */
  function Select<T>(s: seq<T>, p: T -> bool): (r: seq<T>)
    ensures |r| <= |s|
  {
    if s == [] then [] else (if p(s[0]) then [s[0]] else []) + Select(s[1..], p)
  }

  /** `a` is `b` with some elements left out and the rest in their original order. */
  predicate IsSubsequence<T(==)>(a: seq<T>, b: seq<T>)
    decreases |b|
  {
    a == [] || (b != [] && ((a[0] == b[0] && IsSubsequence(a[1..], b[1..])) || IsSubsequence(a, b[1..])))
  }

  /** An element is selected exactly when it is in the input and satisfies the predicate. */
  lemma {:induction false} SelectMembers<T>(s: seq<T>, p: T -> bool, x: T)
    ensures x in Select(s, p) <==> x in s && p(x)
  {
    if s != [] {
      SelectMembers(s[1..], p, x);
      assert s == [s[0]] + s[1..];
    }
  }

  /** Every element of the selection satisfies the predicate. */
  lemma {:induction false} SelectAllSatisfy<T>(s: seq<T>, p: T -> bool)
    ensures forall k :: 0 <= k < |Select(s, p)| ==> p(Select(s, p)[k])
  {
    forall k | 0 <= k < |Select(s, p)| ensures p(Select(s, p)[k]) {
      SelectMembers(s, p, Select(s, p)[k]);
    }
  }

  /** Selecting from a concatenation selects from each part. */
  lemma {:induction false} SelectConcat<T>(a: seq<T>, b: seq<T>, p: T -> bool)
    ensures Select(a + b, p) == Select(a, p) + Select(b, p)
  {
    if a != [] {
      assert (a + b)[1..] == a[1..] + b;
      SelectConcat(a[1..], b, p);
    } else {
      assert a + b == b;
    }
  }

  /** The selection keeps the input's order. */
  lemma {:induction false} SelectSubsequence<T>(s: seq<T>, p: T -> bool)
    ensures IsSubsequence(Select(s, p), s)
  {
    if s != [] {
      SelectSubsequence(s[1..], p);
      var rest := Select(s[1..], p);
      if p(s[0]) {
        assert Select(s, p) == [s[0]] + rest;
        assert ([s[0]] + rest)[1..] == rest;
      } else {
        assert Select(s, p) == rest;
      }
    }
  }

  /** Selecting twice with the same predicate changes nothing more. */
  lemma {:induction false} SelectIdempotent<T>(s: seq<T>, p: T -> bool)
    ensures Select(Select(s, p), p) == Select(s, p)
  {
    if s != [] {
      SelectIdempotent(s[1..], p);
      if p(s[0]) {
        var r := Select(s, p);
        assert r == [s[0]] + Select(s[1..], p);
        assert r[0] == s[0] && r[1..] == Select(s[1..], p);
        assert Select(r, p) == [r[0]] + Select(r[1..], p);
      } else {
        assert Select(s, p) == Select(s[1..], p);
      }
    }
  }

  /** Every prefix of a selection is the selection from some prefix of the input. */
  lemma {:induction false} SelectPrefixCut<T>(s: seq<T>, p: T -> bool, m: nat)
    requires m <= |Select(s, p)|
    ensures exists c :: 0 <= c <= |s| && Select(s[..c], p) == Select(s, p)[..m]
  {
    if m == 0 {
      assert Select(s[..0], p) == [];
    } else if p(s[0]) {
      var t, rest := s[1..], Select(s[1..], p);
      SelectPrefixCut(t, p, m - 1);
      var c :| 0 <= c <= |t| && Select(t[..c], p) == rest[..m - 1];
      assert s[..c + 1] == [s[0]] + t[..c];
      assert Select(s[..c + 1], p) == [s[0]] + rest[..m - 1];
      assert Select(s, p)[..m] == [s[0]] + rest[..m - 1];
    } else {
      var t, rest := s[1..], Select(s[1..], p);
      SelectPrefixCut(t, p, m);
      var c :| 0 <= c <= |t| && Select(t[..c], p) == rest[..m];
      assert s[..c + 1] == [s[0]] + t[..c];
      assert Select(s[..c + 1], p) == rest[..m];
    }
  }

  /** A predicate every element satisfies selects the whole input. */
  lemma {:induction false} SelectEverything<T>(s: seq<T>, p: T -> bool)
    requires forall k :: 0 <= k < |s| ==> p(s[k])
    ensures Select(s, p) == s
  {
    if s != [] {
      SelectEverything(s[1..], p);
      assert s == [s[0]] + s[1..];
    }
  }

  /** How many elements of `s` satisfy `p`. */
  function Count<T>(s: seq<T>, p: T -> bool): nat {
    if s == [] then 0 else (if p(s[0]) then 1 else 0) + Count(s[1..], p)
  }

  /** The selection holds exactly as many elements as satisfy the predicate. */
  lemma {:induction false} SelectCount<T>(s: seq<T>, p: T -> bool)
    ensures |Select(s, p)| == Count(s, p)
  {
    if s != [] {
      SelectCount(s[1..], p);
    }
  }

  /** A prefix of a subsequence is still a subsequence. */
  lemma {:induction false} SubsequencePrefix<T>(a: seq<T>, b: seq<T>, n: nat)
    requires IsSubsequence(a, b) && n <= |a|
    ensures IsSubsequence(a[..n], b)
    decreases |b|
  {
    if n > 0 {
      if a[0] == b[0] && IsSubsequence(a[1..], b[1..]) {
        SubsequencePrefix(a[1..], b[1..], n - 1);
        assert a[..n][1..] == a[1..][..n - 1];
      } else {
        SubsequencePrefix(a, b[1..], n);
      }
    }
  }

  /** No element occurs twice. */
  predicate Distinct<T(==)>(s: seq<T>) {
    forall i, j :: 0 <= i < j < |s| ==> s[i] != s[j]
  }

  /** A list has at least as many entries as it has different values. */
  lemma {:induction false} SetSizeAtMost<T>(s: seq<T>)
    ensures |set x | x in s| <= |s|
  {
    if s != [] {
      SetSizeAtMost(s[1..]);
      assert (set x | x in s) == (set x | x in s[1..]) + {s[0]};
    }
  }

  /** The tail of a list without repeats has none either, and does not hold the head. */
  lemma DistinctTail<T>(s: seq<T>)
    requires Distinct(s) && s != []
    ensures Distinct(s[1..]) && s[0] !in s[1..]
  {
    var t := s[1..];
    forall i, j | 0 <= i < j < |t| ensures t[i] != t[j] {
      assert t[i] == s[i + 1] && t[j] == s[j + 1];
    }
  }

  /** Putting a new element in front of a list without repeats keeps it without repeats. */
  lemma DistinctCons<T>(a: T, t: seq<T>)
    requires Distinct(t) && a !in t
    ensures Distinct([a] + t)
  {
    var s := [a] + t;
    forall i, j | 0 <= i < j < |s| ensures s[i] != s[j] {
      assert s[j] == t[j - 1];
      if i > 0 {
        assert s[i] == t[i - 1];
      }
    }
  }

  /** A list without repeats has exactly as many entries as different values. */
  lemma {:induction false} DistinctSetSize<T>(s: seq<T>)
    requires Distinct(s)
    ensures |set x | x in s| == |s|
  {
    if s != [] {
      DistinctTail(s);
      DistinctSetSize(s[1..]);
      assert (set x | x in s) == (set x | x in s[1..]) + {s[0]};
    }
  }
}
