/** The order Array.prototype.sort uses when it is given no comparator, restricted to
    strings: character by character, a proper prefix first. */
module Lex {

  /** a comes no later than b. */
  predicate LexLe(a: string, b: string)
    decreases |a|
  {
    |a| == 0 || (|b| > 0 && (a[0] < b[0] || (a[0] == b[0] && LexLe(a[1..], b[1..]))))
  }

  lemma {:induction false} LexReflexive(a: string)
    ensures LexLe(a, a)
    decreases |a|
  {
    if |a| > 0 {
      LexReflexive(a[1..]);
    }
  }

  lemma {:induction false} LexTotal(a: string, b: string)
    ensures LexLe(a, b) || LexLe(b, a)
    decreases |a|
  {
    if |a| > 0 && |b| > 0 && a[0] == b[0] {
      LexTotal(a[1..], b[1..]);
    }
  }

  lemma {:induction false} LexAntisymmetric(a: string, b: string)
    requires LexLe(a, b) && LexLe(b, a)
    ensures a == b
    decreases |a|
  {
    if |a| > 0 {
      LexAntisymmetric(a[1..], b[1..]);
      assert a == [a[0]] + a[1..] && b == [b[0]] + b[1..];
    }
  }

  lemma {:induction false} LexTransitive(a: string, b: string, c: string)
    requires LexLe(a, b) && LexLe(b, c)
    ensures LexLe(a, c)
    decreases |a|
  {
    if |a| > 0 && a[0] == b[0] && b[0] == c[0] {
      LexTransitive(a[1..], b[1..], c[1..]);
    }
  }

  predicate LexSorted(s: seq<string>) {
    forall i, j :: 0 <= i < j < |s| ==> LexLe(s[i], s[j])
  }

  /** Puts `x` after the trailing elements of `t` that come no later than it. */
  function InsertString(t: seq<string>, x: string): (r: seq<string>)
    ensures multiset(r) == multiset(t) + multiset{x}
  {
    if t == [] || LexLe(t[|t| - 1], x) then t + [x]
    else
      assert t == t[..|t| - 1] + [t[|t| - 1]];
      InsertString(t[..|t| - 1], x) + [t[|t| - 1]]
  }

  /** `.sort()` on an array of strings. */
  function SortStrings(s: seq<string>): (r: seq<string>)
    ensures multiset(r) == multiset(s)
  {
    if s == [] then []
    else
      assert s == s[..|s| - 1] + [s[|s| - 1]];
      InsertString(SortStrings(s[..|s| - 1]), s[|s| - 1])
  }

  lemma {:induction false} InsertStringSorted(t: seq<string>, x: string)
    requires LexSorted(t)
    ensures LexSorted(InsertString(t, x))
    decreases |t|
  {
    var r := InsertString(t, x);
    if t == [] || LexLe(t[|t| - 1], x) {
      forall i, j | 0 <= i < j < |r| ensures LexLe(r[i], r[j]) {
        if j == |t| && i < |t| - 1 {
          LexTransitive(r[i], t[|t| - 1], x);
        }
      }
    } else {
      var t', last := t[..|t| - 1], t[|t| - 1];
      InsertStringSorted(t', x);
      var r' := InsertString(t', x);
      LexTotal(last, x);
      forall k | 0 <= k < |r'| ensures LexLe(r'[k], last) {
        assert r'[k] in multiset(r');
        if r'[k] != x {
          var j :| 0 <= j < |t'| && t'[j] == r'[k];
        }
      }
    }
  }

  /** The result of SortStrings is in order. */
  lemma {:induction false} SortStringsSorted(s: seq<string>)
    ensures LexSorted(SortStrings(s))
    decreases |s|
  {
    if s != [] {
      SortStringsSorted(s[..|s| - 1]);
      InsertStringSorted(SortStrings(s[..|s| - 1]), s[|s| - 1]);
    }
  }

  /** A sorted sequence without repeats is strictly increasing. */
  lemma SortedDistinctStrictly(s: seq<string>)
    requires LexSorted(s)
    requires forall i, j :: 0 <= i < j < |s| ==> s[i] != s[j]
    ensures forall i, j :: 0 <= i < j < |s| ==> LexLe(s[i], s[j]) && !LexLe(s[j], s[i])
  {
    forall i, j | 0 <= i < j < |s| ensures !LexLe(s[j], s[i]) {
      if LexLe(s[j], s[i]) {
        LexAntisymmetric(s[i], s[j]);
      }
    }
  }
}
