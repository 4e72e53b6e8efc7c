/** Sequence helpers shared by the pipeline: filter, de-duplication and counting. */
module Seqs {
  import opened Wrappers

  /** Array.prototype.filter: the elements satisfying `p`, in their original order. */
  function Filter<T(!new)>(s: seq<T>, p: T -> bool): (r: seq<T>)
    ensures |r| <= |s|
    ensures forall x :: x in r <==> x in s && p(x)
    ensures multiset(r) <= multiset(s)
  {
    if s == [] then []
    else
      assert s == s[..|s| - 1] + [s[|s| - 1]];
      Filter(s[..|s| - 1], p) + (if p(s[|s| - 1]) then [s[|s| - 1]] else [])
  }

  lemma {:induction false} FilterAppend<T(!new)>(a: seq<T>, b: seq<T>, p: T -> bool)
    ensures Filter(a + b, p) == Filter(a, p) + Filter(b, p)
    decreases |b|
  {
    if b == [] {
      assert a + b == a;
    } else {
      var b', x := b[..|b| - 1], b[|b| - 1];
      var last := if p(x) then [x] else [];
      assert (a + b)[..|a + b| - 1] == a + b' && (a + b)[|a + b| - 1] == x;
      assert Filter(b, p) == Filter(b', p) + last;
      FilterAppend(a, b', p);
      assert Filter(a + b, p) == (Filter(a, p) + Filter(b', p)) + last;
      assert (Filter(a, p) + Filter(b', p)) + last == Filter(a, p) + (Filter(b', p) + last);
    }
  }

  /** The number of elements satisfying `p`. */
  function Count<T(!new)>(s: seq<T>, p: T -> bool): nat {
    |Filter(s, p)|
  }

  predicate NoDuplicates<T(==)>(s: seq<T>) {
    forall i, j :: 0 <= i < j < |s| ==> s[i] != s[j]
  }

  /** `[...new Set(s)]`: each distinct element once, in order of first appearance. */
  function Distinct<T(==,!new)>(s: seq<T>): (r: seq<T>)
    ensures forall x :: x in r <==> x in s
    ensures NoDuplicates(r)
  {
    if s == [] then []
    else
      var d := Distinct(s[..|s| - 1]);
      if s[|s| - 1] in s[..|s| - 1] then d else d + [s[|s| - 1]]
  }

  /** Distinct keeps first-appearance order: wherever r[j] occurs in s, an earlier
      element r[i] has already occurred before that position. */
  lemma {:induction false} DistinctInFirstAppearanceOrder<T(!new)>(s: seq<T>)
    ensures forall i, j, q :: 0 <= i < j < |Distinct(s)| && 0 <= q < |s| && s[q] == Distinct(s)[j]
              ==> Distinct(s)[i] in s[..q]
    decreases |s|
  {
    if s != [] {
      var n := |s| - 1;
      var s', x := s[..n], s[n];
      var d, r := Distinct(s'), Distinct(s);
      DistinctInFirstAppearanceOrder(s');
      forall i, j, q | 0 <= i < j < |r| && 0 <= q < |s| && s[q] == r[j] ensures r[i] in s[..q] {
        if q < n {
          assert s'[q] == s[q] && s'[..q] == s[..q];
          if x !in s' && j == |d| {
            assert false;
          }
          assert r[i] == d[i] && r[j] == d[j];
        } else {
          assert s[..q] == s';
          assert r[i] in d;
        }
      }
    }
  }

  /** Array.prototype.map: `f` applied to every element, position by position. */
  function MapSeq<A, B>(s: seq<A>, f: A -> B): (r: seq<B>)
    ensures |r| == |s|
    ensures forall i :: 0 <= i < |s| ==> r[i] == f(s[i])
  {
    seq(|s|, i requires 0 <= i < |s| => f(s[i]))
  }

  /** A prefix one longer is the shorter prefix and the next element. */
  lemma PrefixSnoc<T>(s: seq<T>, k: nat)
    requires k < |s|
    ensures s[..k + 1] == s[..k] + [s[k]]
  {
  }

  /** `s.slice(0, n)`: at most the first n elements. */
  function Take<T>(s: seq<T>, n: nat): (r: seq<T>)
    ensures |r| == if n <= |s| then n else |s|
    ensures r <= s
  {
    if n <= |s| then s[..n] else s
  }

  /** Maps `f` over `s` and keeps the present results, in order. */
  function FilterMap<A, B>(s: seq<A>, f: A -> Option<B>): (r: seq<B>)
    ensures |r| <= |s|
  {
    if s == [] then []
    else
      var last := f(s[|s| - 1]);
      FilterMap(s[..|s| - 1], f) + (if last.Some? then [last.value] else [])
  }

  /** The positions of the elements of `s` that FilterMap keeps. */
  function Kept<A, B>(s: seq<A>, f: A -> Option<B>): seq<nat> {
    if s == [] then []
    else Kept(s[..|s| - 1], f) + (if f(s[|s| - 1]).Some? then [|s| - 1] else [])
  }

  /** Result k of FilterMap is what `f` gives for element Kept(s, f)[k]. */
  lemma {:induction false} KeptGivesResults<A, B>(s: seq<A>, f: A -> Option<B>)
    ensures |Kept(s, f)| == |FilterMap(s, f)|
    ensures forall k :: 0 <= k < |Kept(s, f)| ==>
              Kept(s, f)[k] < |s| && f(s[Kept(s, f)[k]]) == Some(FilterMap(s, f)[k])
    decreases |s|
  {
    if s != [] {
      var n := |s| - 1;
      KeptGivesResults(s[..n], f);
      var prev, origin := Kept(s[..n], f), Kept(s, f);
      var r, r' := FilterMap(s, f), FilterMap(s[..n], f);
      forall k | 0 <= k < |origin| ensures origin[k] < |s| && f(s[origin[k]]) == Some(r[k]) {
        if k < |prev| {
          assert r[k] == r'[k];
          assert s[..n][prev[k]] == s[prev[k]];
        }
      }
    }
  }

  /** The kept positions are increasing, and every element with a result is kept. */
  lemma {:induction false} KeptInOrder<A, B>(s: seq<A>, f: A -> Option<B>)
    ensures forall k :: 0 <= k < |Kept(s, f)| ==> Kept(s, f)[k] < |s|
    ensures forall k, l :: 0 <= k < l < |Kept(s, f)| ==> Kept(s, f)[k] < Kept(s, f)[l]
    ensures forall i :: 0 <= i < |s| && f(s[i]).Some? ==> i in Kept(s, f)
    decreases |s|
  {
    if s != [] {
      var n := |s| - 1;
      KeptInOrder(s[..n], f);
      forall i | 0 <= i < |s| && f(s[i]).Some? ensures i in Kept(s, f) {
        if i < n {
          assert s[..n][i] == s[i];
          assert i in Kept(s[..n], f);
        }
      }
    }
  }
}
