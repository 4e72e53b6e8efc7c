/** Array.prototype.sort with a comparator of the form `(a, b) => key(a) - key(b)`.
    The JavaScript sort is stable, and a stable sort by an integer key has only one
    possible result, so it is modelled here by insertion sort: SortBy is the
    specification (ordered, a permutation, and stable, see SortBySorted and
    SortByStable), ArraySort.SortInPlace the in-place algorithm. */
module StableSort {

  predicate SortedBy<T>(s: seq<T>, key: T -> int) {
    forall i, j :: 0 <= i < j < |s| ==> key(s[i]) <= key(s[j])
  }

  /** The elements of `s` whose key is `k`, in their order in `s`. */
  function WithKey<T>(s: seq<T>, key: T -> int, k: int): seq<T> {
    if s == [] then []
    else WithKey(s[..|s| - 1], key, k) + (if key(s[|s| - 1]) == k then [s[|s| - 1]] else [])
  }

  /** Inserts `x` after every element whose key is not greater than its own. */
  function Insert<T>(t: seq<T>, x: T, key: T -> int): (r: seq<T>)
    ensures |r| == |t| + 1
  {
    if t == [] || key(t[|t| - 1]) <= key(x) then t + [x]
    else Insert(t[..|t| - 1], x, key) + [t[|t| - 1]]
  }

  lemma {:induction false} InsertPermutes<T>(t: seq<T>, x: T, key: T -> int)
    ensures multiset(Insert(t, x, key)) == multiset(t) + multiset{x}
    decreases |t|
  {
    if !(t == [] || key(t[|t| - 1]) <= key(x)) {
      InsertPermutes(t[..|t| - 1], x, key);
      assert t == t[..|t| - 1] + [t[|t| - 1]];
    }
  }

  /** The stable sort of `s` by ascending key. */
  function SortBy<T>(s: seq<T>, key: T -> int): (r: seq<T>)
    ensures |r| == |s|
    ensures multiset(r) == multiset(s)
  {
    if s == [] then []
    else
      assert s == s[..|s| - 1] + [s[|s| - 1]];
      InsertPermutes(SortBy(s[..|s| - 1], key), s[|s| - 1], key);
      Insert(SortBy(s[..|s| - 1], key), s[|s| - 1], key)
  }

  lemma {:induction false} InsertSorted<T>(t: seq<T>, x: T, key: T -> int)
    requires SortedBy(t, key)
    ensures SortedBy(Insert(t, x, key), key)
    ensures forall i :: 0 <= i < |Insert(t, x, key)| ==>
              key(Insert(t, x, key)[i]) == key(x) || exists j :: 0 <= j < |t| && key(t[j]) == key(Insert(t, x, key)[i])
    decreases |t|
  {
    if t == [] || key(t[|t| - 1]) <= key(x) {
    } else {
      var t' := t[..|t| - 1];
      var last := t[|t| - 1];
      InsertSorted(t', x, key);
      var r' := Insert(t', x, key);
      forall i | 0 <= i < |r'| ensures key(r'[i]) <= key(last) {
        if key(r'[i]) != key(x) {
          var j :| 0 <= j < |t'| && key(t'[j]) == key(r'[i]);
          assert t'[j] == t[j];
        }
      }
      forall i | 0 <= i < |r'| && key(r'[i]) != key(x)
        ensures exists j :: 0 <= j < |t| && key(t[j]) == key(r'[i])
      {
        var j :| 0 <= j < |t'| && key(t'[j]) == key(r'[i]);
        assert t'[j] == t[j];
      }
    }
  }

  /** The result of SortBy is ordered by key. */
  lemma {:induction false} SortBySorted<T>(s: seq<T>, key: T -> int)
    ensures SortedBy(SortBy(s, key), key)
    decreases |s|
  {
    if s != [] {
      SortBySorted(s[..|s| - 1], key);
      InsertSorted(SortBy(s[..|s| - 1], key), s[|s| - 1], key);
    }
  }

  lemma {:induction false} InsertKeepsOrder<T>(t: seq<T>, x: T, key: T -> int, k: int)
    ensures WithKey(Insert(t, x, key), key, k) == WithKey(t, key, k) + (if key(x) == k then [x] else [])
    decreases |t|
  {
    if t == [] || key(t[|t| - 1]) <= key(x) {
      assert (t + [x])[..|t|] == t;
    } else {
      var t' := t[..|t| - 1];
      var r := Insert(t, x, key);
      assert r[..|r| - 1] == Insert(t', x, key);
      InsertKeepsOrder(t', x, key, k);
    }
  }

  /** Stability: the elements that share a key keep their relative order. */
  lemma {:induction false} SortByStable<T>(s: seq<T>, key: T -> int, k: int)
    ensures WithKey(SortBy(s, key), key, k) == WithKey(s, key, k)
    decreases |s|
  {
    if s != [] {
      SortByStable(s[..|s| - 1], key, k);
      InsertKeepsOrder(SortBy(s[..|s| - 1], key), s[|s| - 1], key, k);
    }
  }

  /** Where Insert puts `x`: after the elements with key <= key(x) that end `t`. */
  lemma {:induction false} InsertAt<T>(t: seq<T>, x: T, key: T -> int, j: nat)
    requires j <= |t|
    requires forall m :: j <= m < |t| ==> key(t[m]) > key(x)
    requires j == 0 || key(t[j - 1]) <= key(x)
    ensures Insert(t, x, key) == t[..j] + [x] + t[j..]
    decreases |t|
  {
    if j < |t| {
      var n := |t| - 1;
      var t', last := t[..n], t[n];
      assert key(last) > key(x);
      InsertAt(t', x, key, j);
      var a, c := t[..j], t[j..n];
      assert t'[..j] == a && t'[j..] == c;
      assert Insert(t, x, key) == Insert(t', x, key) + [last];
      assert t[j..] == c + [last];
      assert (a + [x] + c) + [last] == a + [x] + (c + [last]);
    } else {
      assert t[..j] == t;
    }
  }

  /** The first n elements of a key-ordered sequence come no later than the rest. */
  lemma PrefixBeforeRest<T>(t: seq<T>, key: T -> int, n: nat)
    requires n <= |t| && SortedBy(t, key)
    ensures forall x, y :: x in t[..n] && y in t[n..] ==> key(x) <= key(y)
  {
    forall x, y | x in t[..n] && y in t[n..] ensures key(x) <= key(y) {
      var i :| 0 <= i < n && t[..n][i] == x;
      var j :| 0 <= j < |t| - n && t[n..][j] == y;
      assert t[i] == x && t[n + j] == y;
    }
  }

  /** The first n elements of the stable sort come no later, by key, than any element
      of `s` left out of them. */
  lemma SortedPrefixSmallest<T>(s: seq<T>, key: T -> int, n: nat)
    requires n <= |s|
    ensures multiset(SortBy(s, key)[..n]) <= multiset(s)
    ensures forall x, y :: x in SortBy(s, key)[..n] && y in multiset(s) - multiset(SortBy(s, key)[..n])
              ==> key(x) <= key(y)
  {
    var t := SortBy(s, key);
    SortBySorted(s, key);
    PrefixBeforeRest(t, key, n);
    assert t == t[..n] + t[n..];
    assert multiset(s) - multiset(t[..n]) == multiset(t[n..]);
  }
}
