// Python dicts as the modelled code uses them: insertion-ordered maps from
// string keys, represented as a sequence of key/value pairs with distinct keys.
module Dicts {
  import opened Outcomes

  predicate DistinctKeys<V>(d: seq<(string, V)>) {
    forall i, j :: 0 <= i < j < |d| ==> d[i].0 != d[j].0
  }

  /** An insertion-ordered dict. */
  type Dict<V> = d: seq<(string, V)> | DistinctKeys(d) witness []

  /** The keys in iteration order (dict.keys()). */
  function Keys<V>(d: seq<(string, V)>): (ks: seq<string>)
    ensures |ks| == |d|
    ensures forall i :: 0 <= i < |d| ==> ks[i] == d[i].0
  {
    seq(|d|, i requires 0 <= i < |d| => d[i].0)
  }

  /** The first position of k in ks. */
  function IndexOf(ks: seq<string>, k: string): (r: nat)
    requires k in ks
    ensures r < |ks| && ks[r] == k
    ensures forall j :: 0 <= j < r ==> ks[j] != k
  {
    if ks[0] == k then 0 else 1 + IndexOf(ks[1..], k)
  }

  /** d[k] when k is present, None otherwise. */
  function Get<V>(d: Dict<V>, k: string): (r: Option<V>)
    ensures r.None? <==> k !in Keys(d)
  {
    if k in Keys(d) then Some(d[IndexOf(Keys(d), k)].1) else None
  }

  /** d.get(k, default). */
  function GetOr<V>(d: Dict<V>, k: string, default: V): (r: V)
    ensures k !in Keys(d) ==> r == default
    ensures forall i :: 0 <= i < |d| && d[i].0 == k ==> r == d[i].1
  {
    match Get(d, k)
    case Some(v) => v
    case None => default
  }

  /** d[k] = v: an existing key keeps its position, a new key goes last. */
  function Set<V>(d: Dict<V>, k: string, v: V): (r: Dict<V>)
    ensures Keys(r) == if k in Keys(d) then Keys(d) else Keys(d) + [k]
    ensures Get(r, k) == Some(v)
    ensures forall k' :: k' != k ==> Get(r, k') == Get(d, k')
  {
    if k in Keys(d) then
      var i := IndexOf(Keys(d), k);
      var r := d[i := (k, v)];
      assert Keys(r) == Keys(d);
      r
    else
      var r := d + [(k, v)];
      assert Keys(r) == Keys(d) + [k];
      r
  }

  /** ks with every occurrence of k taken out, the rest in order. */
  function Without(ks: seq<string>, k: string): (r: seq<string>)
    ensures k !in r
    ensures forall x :: x in r <==> x in ks && x != k
  {
    if |ks| == 0 then []
    else if ks[0] == k then Without(ks[1..], k)
    else [ks[0]] + Without(ks[1..], k)
  }

  lemma {:induction false} WithoutAppend(a: seq<string>, b: seq<string>, k: string)
    ensures Without(a + b, k) == Without(a, k) + Without(b, k)
    decreases |a|
  {
    if |a| == 0 {
      assert a + b == b;
    } else {
      assert (a + b)[1..] == a[1..] + b;
      WithoutAppend(a[1..], b, k);
    }
  }

  lemma {:induction false} WithoutAbsent(a: seq<string>, k: string)
    requires k !in a
    ensures Without(a, k) == a
    decreases |a|
  {
    if |a| > 0 {
      WithoutAbsent(a[1..], k);
    }
  }

  /** Taking out the only occurrence of k, at position i. */
  lemma WithoutAt(ks: seq<string>, i: nat, k: string)
    requires i < |ks| && ks[i] == k
    requires k !in ks[..i] && k !in ks[i + 1..]
    ensures Without(ks, k) == ks[..i] + ks[i + 1..]
  {
    var a, b := ks[..i], ks[i + 1..];
    assert ks == a + [k] + b;
    WithoutAppend(a + [k], b, k);
    WithoutAppend(a, [k], k);
    assert Without([k], k) == [] by { assert [k][1..] == []; }
    WithoutAbsent(a, k);
    WithoutAbsent(b, k);
    assert a + [] == a;
  }

  lemma SpliceFacts<V>(d: Dict<V>, i: nat)
    requires i < |d|
    ensures DistinctKeys(d[..i] + d[i + 1..])
    ensures Keys(d[..i] + d[i + 1..]) == Without(Keys(d), d[i].0)
  {
    var ks, k := Keys(d), d[i].0;
    assert Keys(d[..i] + d[i + 1..]) == ks[..i] + ks[i + 1..];
    assert k !in ks[..i] by {
      forall j | 0 <= j < i ensures ks[j] != k { assert d[j].0 != d[i].0; }
    }
    assert k !in ks[i + 1..] by {
      forall j | i + 1 <= j < |ks| ensures ks[j] != k { assert d[i].0 != d[j].0; }
    }
    WithoutAt(ks, i, k);
  }

  /** d.pop(k, None) on d: k is gone, every other entry stays in place. */
  function Remove<V>(d: Dict<V>, k: string): (r: Dict<V>)
    ensures Keys(r) == Without(Keys(d), k)
    ensures Get(r, k) == None
    ensures forall k' :: k' != k ==> Get(r, k') == Get(d, k')
  {
    if k in Keys(d) then
      var i := IndexOf(Keys(d), k);
      SpliceFacts(d, i);
      var r: Dict<V> := d[..i] + d[i + 1..];
      forall k' | k' != k ensures Get(r, k') == Get(d, k') {
        SpliceGet(d, i, k');
      }
      r
    else
      WithoutAbsent(Keys(d), k);
      d
  }

  /** The entry at position i is what its key looks up. */
  lemma GetAt<V>(d: Dict<V>, i: nat)
    requires i < |d|
    ensures Get(d, d[i].0) == Some(d[i].1)
  {
  }

  lemma SpliceGet<V>(d: Dict<V>, i: nat, k: string)
    requires i < |d| && k != d[i].0 && DistinctKeys(d[..i] + d[i + 1..])
    ensures Get(d[..i] + d[i + 1..], k) == Get(d, k)
  {
    var r: Dict<V> := d[..i] + d[i + 1..];
    if k in Keys(d) {
      var j := IndexOf(Keys(d), k);
      var p := if j < i then j else j - 1;
      assert r[p] == d[j];
      GetAt(r, p);
      GetAt(d, j);
    } else {
      assert forall p :: 0 <= p < |r| ==> r[p].0 in Keys(d) by {
        forall p | 0 <= p < |r| ensures r[p].0 in Keys(d) {
          var j := if p < i then p else p + 1;
          assert r[p] == d[j] && Keys(d)[j] == d[j].0;
        }
      }
    }
  }
}
