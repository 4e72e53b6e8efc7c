/** The in-place sort that `prices.sort(...)` and `courses.sort(...)` perform,
    proved to produce the stable sort StableSort.SortBy. */
module ArraySort {
  import opened StableSort

  /** Sorts `a` in place by ascending key, keeping equal keys in their original order. */
  method SortInPlace<T>(a: array<T>, key: T -> int)
    modifies a
    ensures a[..] == SortBy(old(a[..]), key)
  {
    ghost var s := a[..];
    for i := 0 to a.Length
      invariant a[..i] == SortBy(s[..i], key)
      invariant a[i..] == s[i..]
    {
      SortBySnoc(s, i, key);
      assert a[i + 1..] == a[i..][1..] == s[i..][1..] == s[i + 1..];
      InsertLast(a, i, key, a[..i], a[i]);
    }
    assert s[..a.Length] == s;
  }

  /** One step of insertion sort: with a[..i] holding `t` and a[i] holding `x`,
      moves `x` left past the greater keys of `t`. */
  method InsertLast<T>(a: array<T>, i: nat, key: T -> int, ghost t: seq<T>, ghost x: T)
    requires i < a.Length && a[..i] == t && a[i] == x
    modifies a
    ensures a[..i + 1] == Insert(t, x, key)
    ensures a[i + 1..] == old(a[i + 1..])
  {
    var y := a[i];
    var j := i;
    while j > 0 && key(a[j - 1]) > key(y)
      invariant 0 <= j <= i
      invariant forall m :: 0 <= m < j ==> a[m] == t[m]
      invariant forall m :: j < m <= i ==> a[m] == t[m - 1]
      invariant forall m :: j <= m < i ==> key(t[m]) > key(x)
      invariant a[i + 1..] == old(a[i + 1..])
    {
      a[j] := a[j - 1];
      j := j - 1;
    }
    a[j] := y;
    InsertAt(t, x, key, j);
    Shifted(a[..i + 1], t, x, j);
  }

  /** The array after the shifting loop holds `t` with `x` placed at index j. */
  lemma Shifted<T>(b: seq<T>, t: seq<T>, x: T, j: nat)
    requires j <= |t| && |b| == |t| + 1
    requires forall m :: 0 <= m < j ==> b[m] == t[m]
    requires b[j] == x
    requires forall m :: j < m <= |t| ==> b[m] == t[m - 1]
    ensures b == t[..j] + [x] + t[j..]
  {
  }

  /** Sorting one more element inserts it into the sorted prefix. */
  lemma SortBySnoc<T>(s: seq<T>, i: nat, key: T -> int)
    requires i < |s|
    ensures SortBy(s[..i + 1], key) == Insert(SortBy(s[..i], key), s[i], key)
  {
    assert s[..i + 1][..i] == s[..i];
  }
}
