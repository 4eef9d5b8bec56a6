/**
 * Python dictionaries with string keys, as insertion-ordered association lists.
 * `tuple(d.values())` and `d | {k: v}` depend on the order, so it is kept.
 */
module Dicts {
  import opened Wrappers

  type Dict<V> = seq<(string, V)>

  function Keys<V>(d: Dict<V>): (ks: seq<string>)
    ensures |ks| == |d|
    ensures forall i :: 0 <= i < |d| ==> ks[i] == d[i].0
  {
    seq(|d|, i requires 0 <= i < |d| => d[i].0)
  }

  /** `list(d.values())`, in insertion order. */
  function Values<V>(d: Dict<V>): (vs: seq<V>)
    ensures |vs| == |d|
    ensures forall i :: 0 <= i < |d| ==> vs[i] == d[i].1
  {
    seq(|d|, i requires 0 <= i < |d| => d[i].1)
  }

  /** The position of the first entry with key `k`, or `|d|` when there is none. */
  function KeyIndex<V>(d: Dict<V>, k: string): (i: nat)
    ensures i <= |d|
    ensures forall j :: 0 <= j < i ==> d[j].0 != k
    ensures i < |d| ==> d[i].0 == k
  {
    if |d| == 0 then 0
    else if d[0].0 == k then 0
    else 1 + KeyIndex(d[1..], k)
  }

  /** The position of a key is fixed by its contract. */
  lemma KeyIndexUnique<V>(d: Dict<V>, k: string, i: nat)
    requires i <= |d|
    requires forall j :: 0 <= j < i ==> d[j].0 != k
    requires i < |d| ==> d[i].0 == k
    ensures KeyIndex(d, k) == i
  {
  }

  /** `d.get(k)`: the value of the entry with key `k`. */
  function Get<V>(d: Dict<V>, k: string): (r: Option<V>)
    ensures r.Some? <==> k in Keys(d)
  {
    var i := KeyIndex(d, k);
    assert i < |d| ==> Keys(d)[i] == k;
    assert k in Keys(d) ==> exists j :: 0 <= j < |d| && d[j].0 == k;
    if i < |d| then Some(d[i].1) else None
  }

  /** `d[k] = v`: an existing key keeps its place, a new key goes last. */
  function Set<V>(d: Dict<V>, k: string, v: V): (r: Dict<V>)
    ensures Get(r, k) == Some(v)
    ensures forall k' :: k' != k ==> Get(r, k') == Get(d, k')
    ensures k in Keys(d) ==> Keys(r) == Keys(d)
    ensures k !in Keys(d) ==> Keys(r) == Keys(d) + [k]
  {
    var i := KeyIndex(d, k);
    var r := if i < |d| then d[i := (k, v)] else d + [(k, v)];
    SetFacts(d, k, v, r);
    r
  }

  lemma SetFacts<V>(d: Dict<V>, k: string, v: V, r: Dict<V>)
    requires r == if KeyIndex(d, k) < |d| then d[KeyIndex(d, k) := (k, v)] else d + [(k, v)]
    ensures Get(r, k) == Some(v)
    ensures forall k' :: k' != k ==> Get(r, k') == Get(d, k')
    ensures k in Keys(d) ==> Keys(r) == Keys(d)
    ensures k !in Keys(d) ==> Keys(r) == Keys(d) + [k]
  {
    var i := KeyIndex(d, k);
    assert |r| == |d| || |r| == |d| + 1;
    assert forall j :: 0 <= j < |r| && j != i ==> j < |d| && r[j] == d[j];
    assert r[i] == (k, v);
    KeyIndexUnique(r, k, i);
    forall k' | k' != k
      ensures Get(r, k') == Get(d, k')
    {
      OtherKey(d, k, v, r, k');
    }
    if i == |d| {
      assert k !in Keys(d);
      assert Keys(r) == Keys(d) + [k];
    } else {
      assert Keys(r) == Keys(d);
    }
  }

  lemma OtherKey<V>(d: Dict<V>, k: string, v: V, r: Dict<V>, k': string)
    requires k' != k
    requires r == if KeyIndex(d, k) < |d| then d[KeyIndex(d, k) := (k, v)] else d + [(k, v)]
    ensures Get(r, k') == Get(d, k')
  {
    var i := KeyIndex(d, k);
    var j := KeyIndex(d, k');
    if i < |d| {
      assert |r| == |d|;
      assert forall m :: 0 <= m < |r| && m != i ==> r[m] == d[m];
      KeyIndexUnique(r, k', j);
    } else {
      assert r == d + [(k, v)];
      if j < |d| {
        KeyIndexUnique(r, k', j);
      } else {
        KeyIndexUnique(r, k', |r|);
      }
    }
  }

  /** `d[k] = v` on an existing key changes that key's value and nothing else. */
  lemma SetExisting<V>(d: Dict<V>, k: string, v: V)
    requires k in Keys(d)
    ensures Values(Set(d, k, v)) == Values(d)[KeyIndex(d, k) := v]
  {
  }

  /** Writing back the value a key already has leaves the dictionary as it was. */
  lemma SetUnchanged<V>(d: Dict<V>, k: string, v: V)
    requires Get(d, k) == Some(v)
    ensures Set(d, k, v) == d
  {
    var i := KeyIndex(d, k);
    assert d[i] == (k, v);
  }

  /** With the first key known, `d.get` of it is the first value. */
  lemma GetFirst<V>(d: Dict<V>, k: string)
    requires |d| > 0 && Keys(d)[0] == k
    ensures Get(d, k) == Some(Values(d)[0])
  {
  }
}
