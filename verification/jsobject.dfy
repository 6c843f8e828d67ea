/**
 * Plain JavaScript objects used as string-keyed maps (`{}` literals and `JSON.parse`
 * results). Own properties are kept in creation order; `Object.entries` and `for..in`
 * list them in the order ECMAScript prescribes for ordinary objects: keys that are
 * array indices first, in ascending numeric order, then every other key in creation
 * order.
 */
module JsObject {
  import opened Wrappers
  import opened Seqs
  import opened Ordering
  import opened Sorting
  import opened Decimal

  /** An object's own properties in creation order. */
  type Props<V> = seq<(string, V)>

  function KeysOf<V>(o: Props<V>): (r: seq<string>)
    ensures |r| == |o|
    ensures forall i :: 0 <= i < |o| ==> r[i] == o[i].0
  {
    if |o| == 0 then [] else [o[0].0] + KeysOf(o[1..])
  }

  /** Reading property `k`: its value, or `None` for `undefined`. */
  function Get<V>(o: Props<V>, k: string): (r: Option<V>)
    ensures r.None? <==> k !in KeysOf(o)
    ensures r.Some? ==> (k, r.value) in o
  {
    if |o| == 0 then None
    else if o[0].0 == k then Some(o[0].1)
    else
      assert KeysOf(o) == [o[0].0] + KeysOf(o[1..]);
      Get(o[1..], k)
  }

  /** Assignment `o[k] = v`: overwrites an existing property in place, or adds a new last one. */
  function Put<V>(o: Props<V>, k: string, v: V): (r: Props<V>)
    ensures Get(r, k) == Some(v)
    ensures forall k' :: k' != k ==> Get(r, k') == Get(o, k')
  {
    if |o| == 0 then [(k, v)]
    else if o[0].0 == k then [(k, v)] + o[1..]
    else [o[0]] + Put(o[1..], k, v)
  }

  /** Assignment keeps the key order, appending the key when it is new. */
  lemma {:induction false} PutKeys<V>(o: Props<V>, k: string, v: V)
    ensures KeysOf(Put(o, k, v)) == if k in KeysOf(o) then KeysOf(o) else KeysOf(o) + [k]
  {
    if |o| > 0 {
      assert KeysOf(o) == [o[0].0] + KeysOf(o[1..]);
      if o[0].0 != k {
        PutKeys(o[1..], k, v);
      }
    }
  }

  /** Assigning a new key appends it as the last property. */
  lemma {:induction false} PutNew<V>(o: Props<V>, k: string, v: V)
    requires k !in KeysOf(o)
    ensures Put(o, k, v) == o + [(k, v)]
  {
    if |o| > 0 {
      var rest := o[1..];
      assert KeysOf(o) == [o[0].0] + KeysOf(rest);
      assert Put(o, k, v) == [o[0]] + Put(rest, k, v);
      PutNew(rest, k, v);
      ConsSnoc(o[0], rest, (k, v));
      HeadRest(o);
    }
  }

  /** Creating properties one by one keeps keys unique. */
  lemma PutKeepsKeysDistinct<V>(o: Props<V>, k: string, v: V)
    requires Distinct(KeysOf(o))
    ensures Distinct(KeysOf(Put(o, k, v)))
  {
    PutKeys(o, k, v);
  }

  /**
   * An array index is the canonical decimal text of an integer from 0 to 2^32 - 2:
   * digits only, no leading zero unless the key is "0".
   */
  predicate IsArrayIndex(k: string) {
    && |k| > 0
    && (forall i :: 0 <= i < |k| ==> IsDigit(k[i]))
    && (|k| == 1 || k[0] != '0')
    && DigitsValue(k, 10) <= 0xFFFF_FFFE
  }

  /** The numeric value of an array-index key, 0 for any other key. */
  function IndexValue(k: string): nat {
    if forall i :: 0 <= i < |k| ==> IsDigit(k[i]) then DigitsValue(k, 10) else 0
  }

  /** The sort key placing array-index properties in ascending numeric order. */
  function IndexOrder<V>(p: (string, V)): SortKey {
    SortKey("", IndexValue(p.0))
  }

  /** Properties whose key is an array index, in creation order. */
  function IndexProps<V>(o: Props<V>): (r: Props<V>)
    ensures forall i :: 0 <= i < |r| ==> IsArrayIndex(r[i].0)
  {
    if |o| == 0 then []
    else if IsArrayIndex(o[|o| - 1].0) then IndexProps(o[..|o| - 1]) + [o[|o| - 1]]
    else IndexProps(o[..|o| - 1])
  }

  /** Properties whose key is not an array index, in creation order. */
  function OtherProps<V>(o: Props<V>): (r: Props<V>)
    ensures forall i :: 0 <= i < |r| ==> !IsArrayIndex(r[i].0)
  {
    if |o| == 0 then []
    else if IsArrayIndex(o[|o| - 1].0) then OtherProps(o[..|o| - 1])
    else OtherProps(o[..|o| - 1]) + [o[|o| - 1]]
  }

  lemma {:induction false} PropsPartition<V>(o: Props<V>)
    ensures multiset(IndexProps(o)) + multiset(OtherProps(o)) == multiset(o)
    ensures |IndexProps(o)| + |OtherProps(o)| == |o|
  {
    if |o| > 0 {
      PropsPartition(o[..|o| - 1]);
      FrontLast(o);
    }
  }

  /** Without array-index keys, the other properties are all of them. */
  lemma {:induction false} OtherPropsAll<V>(o: Props<V>)
    requires forall i :: 0 <= i < |o| ==> !IsArrayIndex(o[i].0)
    ensures IndexProps(o) == []
    ensures OtherProps(o) == o
  {
    if |o| > 0 {
      OtherPropsAll(o[..|o| - 1]);
      FrontLast(o);
    }
  }

  /** `Object.entries(o)`: the own properties as [key, value] pairs in own-key order. */
  function Entries<V>(o: Props<V>): (r: Props<V>)
    ensures multiset(r) == multiset(o)
    ensures |r| == |o|
  {
    PropsPartition(o);
    Sort(IndexProps(o), IndexOrder) + OtherProps(o)
  }

  /** The keys `for..in` and `Object.keys` visit, in order. */
  function OwnKeys<V>(o: Props<V>): seq<string> {
    KeysOf(Entries(o))
  }

  /**
   * The entry order: every array-index property comes before every other property,
   * the array-index properties are all of them in ascending numeric order, and the
   * others follow in creation order.
   */
  lemma EntriesOrder<V>(o: Props<V>)
    ensures var r := Entries(o); var n := |IndexProps(o)|;
      && (forall i :: 0 <= i < n ==> IsArrayIndex(r[i].0))
      && (forall i :: n <= i < |r| ==> !IsArrayIndex(r[i].0))
      && (forall i, j :: 0 <= i < j < n ==> IndexValue(r[i].0) <= IndexValue(r[j].0))
      && multiset(r[..n]) == multiset(IndexProps(o))
      && r[n..] == OtherProps(o)
  {
    var idx := IndexProps(o);
    var sorted := Sort(idx, IndexOrder);
    assert Entries(o)[..|idx|] == sorted && Entries(o)[|idx|..] == OtherProps(o);
    SortSorted(idx, IndexOrder);
    forall i | 0 <= i < |sorted|
      ensures IsArrayIndex(sorted[i].0)
    {
      assert sorted[i] in multiset(idx);
    }
    forall i, j | 0 <= i < j < |sorted|
      ensures IndexValue(sorted[i].0) <= IndexValue(sorted[j].0)
    {
      assert KeyLeq(IndexOrder(sorted[i]), IndexOrder(sorted[j]));
      StrLessIrreflexive("");
    }
  }

  /** An object without array-index keys lists its properties in creation order. */
  lemma EntriesInCreationOrder<V>(o: Props<V>)
    requires forall i :: 0 <= i < |o| ==> !IsArrayIndex(o[i].0)
    ensures Entries(o) == o
  {
    OtherPropsAll(o);
  }

  /** Own-key order lists every key exactly as often as the object has it. */
  lemma OwnKeysPermutation<V>(o: Props<V>)
    ensures multiset(OwnKeys(o)) == multiset(KeysOf(o))
    ensures Distinct(KeysOf(o)) ==> Distinct(OwnKeys(o))
  {
    var f := (p: (string, V)) => p.0;
    MapMultiset(f, Entries(o), o);
    assert OwnKeys(o) == Map(f, Entries(o));
    assert KeysOf(o) == Map(f, o);
    if Distinct(KeysOf(o)) {
      DistinctPermutation(KeysOf(o), OwnKeys(o));
    }
  }

  /** The keys of `ks` that are array indices, in order. */
  function IndexKeys(ks: seq<string>): seq<string> {
    if |ks| == 0 then []
    else if IsArrayIndex(ks[|ks| - 1]) then IndexKeys(ks[..|ks| - 1]) + [ks[|ks| - 1]]
    else IndexKeys(ks[..|ks| - 1])
  }

  /** The keys of `ks` that are not array indices, in order. */
  function NonIndexKeys(ks: seq<string>): seq<string> {
    if |ks| == 0 then []
    else if IsArrayIndex(ks[|ks| - 1]) then NonIndexKeys(ks[..|ks| - 1])
    else NonIndexKeys(ks[..|ks| - 1]) + [ks[|ks| - 1]]
  }

  lemma KeysOfConcat<V>(a: Props<V>, b: Props<V>)
    ensures KeysOf(a + b) == KeysOf(a) + KeysOf(b)
  {
    var l, r := KeysOf(a + b), KeysOf(a) + KeysOf(b);
    forall i | 0 <= i < |l|
      ensures l[i] == r[i]
    {
      if i < |a| {
        assert (a + b)[i] == a[i];
      } else {
        assert (a + b)[i] == b[i - |a|];
      }
    }
  }

  lemma {:induction false} KeysOfParts<V>(o: Props<V>)
    ensures KeysOf(IndexProps(o)) == IndexKeys(KeysOf(o))
    ensures KeysOf(OtherProps(o)) == NonIndexKeys(KeysOf(o))
  {
    if |o| > 0 {
      var front, last := o[..|o| - 1], o[|o| - 1];
      KeysOfParts(front);
      var ks := KeysOf(o);
      assert ks[..|ks| - 1] == KeysOf(front);
      assert ks[|ks| - 1] == last.0;
      KeysOfConcat(IndexProps(front), [last]);
      KeysOfConcat(OtherProps(front), [last]);
    }
  }

  /**
   * `for..in` order on keys: the array-index keys first, as a rearrangement of those
   * keys in ascending numeric order, then every other key in creation order.
   */
  lemma OwnKeysSplit<V>(o: Props<V>)
    ensures var order, ks := OwnKeys(o), KeysOf(o); var n := |IndexKeys(ks)|;
      && n <= |order|
      && multiset(order[..n]) == multiset(IndexKeys(ks))
      && (forall i, j :: 0 <= i < j < n ==> IndexValue(order[i]) <= IndexValue(order[j]))
      && order[n..] == NonIndexKeys(ks)
  {
    KeysOfParts(o);
    OwnKeysAscend(o);
    OwnKeysParts(o);
  }

  lemma OwnKeysAscend<V>(o: Props<V>)
    ensures var order, n := OwnKeys(o), |IndexProps(o)|;
      forall i, j :: 0 <= i < j < n ==> IndexValue(order[i]) <= IndexValue(order[j])
  {
    EntriesOrder(o);
  }

  lemma OwnKeysParts<V>(o: Props<V>)
    ensures var order, n := OwnKeys(o), |IndexProps(o)|;
      && multiset(order[..n]) == multiset(KeysOf(IndexProps(o)))
      && order[n..] == KeysOf(OtherProps(o))
  {
    var r, n := Entries(o), |IndexProps(o)|;
    EntriesOrder(o);
    var f := (p: (string, V)) => p.0;
    assert r == r[..n] + r[n..];
    KeysOfConcat(r[..n], r[n..]);
    MapMultiset(f, r[..n], IndexProps(o));
    assert KeysOf(r[..n]) == Map(f, r[..n]);
    assert KeysOf(IndexProps(o)) == Map(f, IndexProps(o));
  }
}
