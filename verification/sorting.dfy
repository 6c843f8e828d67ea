/**
 * A stable insertion sort by a sort key. The store uses it for `ORDER BY` and for
 * Python's `list.sort(key=...)`, and the JavaScript object model uses it to list
 * array-index keys in ascending numeric order.
 */
module Sorting {
  import opened Ordering

  /** Every element's key is at most the key of every later element. */
  predicate Sorted<T>(s: seq<T>, key: T -> SortKey) {
    forall i, j :: 0 <= i < j < |s| ==> KeyLeq(key(s[i]), key(s[j]))
  }

  /** Puts `x` before the first element whose key is strictly greater than its own. */
  function Insert<T>(x: T, s: seq<T>, key: T -> SortKey): (r: seq<T>)
    ensures multiset(r) == multiset(s) + multiset{x}
    ensures |r| == |s| + 1
  {
    if |s| == 0 then [x]
    else if KeyLess(key(x), key(s[0])) then [x] + s
    else
      assert s == [s[0]] + s[1..];
      [s[0]] + Insert(x, s[1..], key)
  }

  function Sort<T>(s: seq<T>, key: T -> SortKey): (r: seq<T>)
    ensures multiset(r) == multiset(s)
    ensures |r| == |s|
  {
    if |s| == 0 then []
    else
      assert s == s[..|s| - 1] + [s[|s| - 1]];
      Insert(s[|s| - 1], Sort(s[..|s| - 1], key), key)
  }

  lemma {:induction false} InsertKeepsSorted<T>(x: T, s: seq<T>, key: T -> SortKey)
    requires Sorted(s, key)
    ensures Sorted(Insert(x, s, key), key)
  {
    if |s| == 0 {
    } else if KeyLess(key(x), key(s[0])) {
      KeyLessAsymmetric(key(x), key(s[0]));
      forall j | 0 <= j < |s|
        ensures KeyLeq(key(x), key(s[j]))
      {
        if j > 0 {
          KeyLeqTransitive(key(x), key(s[0]), key(s[j]));
        }
      }
      ConsSorted(x, s, key);
    } else {
      var tail := Insert(x, s[1..], key);
      InsertKeepsSorted(x, s[1..], key);
      TailAfterHead(x, s, key);
      ConsSorted(s[0], tail, key);
    }
  }

  /** An element whose key bounds a sorted sequence from below can go in front of it. */
  lemma ConsSorted<T>(h: T, t: seq<T>, key: T -> SortKey)
    requires Sorted(t, key)
    requires forall j :: 0 <= j < |t| ==> KeyLeq(key(h), key(t[j]))
    ensures Sorted([h] + t, key)
  {
    var r := [h] + t;
    forall i, j | 0 <= i < j < |r|
      ensures KeyLeq(key(r[i]), key(r[j]))
    {
      assert r[j] == t[j - 1];
      if i > 0 {
        assert r[i] == t[i - 1];
      }
    }
  }

  /** Inserting `x` after the head keeps every element of the tail at or above the head. */
  lemma TailAfterHead<T>(x: T, s: seq<T>, key: T -> SortKey)
    requires |s| > 0 && Sorted(s, key) && !KeyLess(key(x), key(s[0]))
    ensures forall j :: 0 <= j < |Insert(x, s[1..], key)| ==> KeyLeq(key(s[0]), key(Insert(x, s[1..], key)[j]))
  {
    var tail := Insert(x, s[1..], key);
    forall j | 0 <= j < |tail|
      ensures KeyLeq(key(s[0]), key(tail[j]))
    {
      assert tail[j] in multiset(tail);
      if tail[j] != x {
        assert tail[j] in multiset(s[1..]);
        var k := IndexOfElem(s[1..], tail[j]);
        assert s[1 + k] == tail[j];
      }
    }
  }

  /** A position at which `y` occurs in `s`. */
  ghost function IndexOfElem<T>(s: seq<T>, y: T): (k: nat)
    requires y in s
    ensures k < |s| && s[k] == y
  {
    var k :| 0 <= k < |s| && s[k] == y; k
  }

  lemma {:induction false} SortSorted<T>(s: seq<T>, key: T -> SortKey)
    ensures Sorted(Sort(s, key), key)
  {
    if |s| > 0 {
      SortSorted(s[..|s| - 1], key);
      InsertKeepsSorted(s[|s| - 1], Sort(s[..|s| - 1], key), key);
    }
  }
}
