/** Ruby's Hash as the modelled code uses it: keys are unique, entries keep
    the order in which their keys were first stored, and storing under a key
    that is already present replaces its value in place. */
module RubyHash {
  import opened Wrappers

  datatype Entry<K, V> = Entry(key: K, value: V)

  /** The keys of an association list, in order. */
  function Keys<K, V>(h: seq<Entry<K, V>>): (ks: seq<K>)
    ensures |ks| == |h|
  {
    if h == [] then [] else [h[0].key] + Keys(h[1..])
  }

  /** No key occurs twice. */
  predicate UniqueKeys<K(==), V>(h: seq<Entry<K, V>>) {
    h == [] || (h[0].key !in Keys(h[1..]) && UniqueKeys(h[1..]))
  }

  /** A hash: an insertion-ordered association list without repeated keys. */
  type Hash<K(==), V> = h: seq<Entry<K, V>> | UniqueKeys(h) witness []

  /** No element of xs occurs twice. */
  predicate Distinct<T(==)>(xs: seq<T>) {
    forall i, j :: 0 <= i < j < |xs| ==> xs[i] != xs[j]
  }

  /** `hash[k]`: the stored value, or None when k was never stored. */
  function Get<K(==), V>(h: Hash<K, V>, k: K): (r: Option<V>)
    ensures r.Some? <==> k in Keys(h)
    ensures r.Some? ==> Entry(k, r.value) in h
  {
    if h == [] then None
    else if h[0].key == k then Some(h[0].value)
    else Get(h[1..], k)
  }

  /** `hash[k] = v`. */
  function Store<K(==), V>(h: Hash<K, V>, k: K, v: V): (r: Hash<K, V>)
    ensures Get(r, k) == Some(v)
    ensures Keys(r) == if k in Keys(h) then Keys(h) else Keys(h) + [k]
  {
    if h == [] then
      var r := [Entry(k, v)];
      assert Keys(r) == [k];
      r
    else if h[0].key == k then
      ReplaceHead(h, v)
    else
      var tail := Store(h[1..], k, v);
      assert Keys(h[1..] + [Entry(k, v)]) == Keys(h[1..]) + [k] by {
        KeysAppend(h[1..], Entry(k, v));
      }
      ConsHash(h[0], tail)
  }

  /** The hash with its first value replaced: same keys, same order. */
  function ReplaceHead<K(==), V>(h: Hash<K, V>, v: V): (r: Hash<K, V>)
    requires h != []
    ensures r == [Entry(h[0].key, v)] + h[1..]
    ensures Keys(r) == Keys(h)
  {
    var r := [Entry(h[0].key, v)] + h[1..];
    assert r[1..] == h[1..];
    r
  }

  /** An entry put in front of a hash that lacks its key. */
  function ConsHash<K(==), V>(e: Entry<K, V>, h: Hash<K, V>): (r: Hash<K, V>)
    requires e.key !in Keys(h)
    ensures r == [e] + h
    ensures Keys(r) == [e.key] + Keys(h)
  {
    var r := [e] + h;
    assert r[1..] == h;
    r
  }

  lemma {:induction false} KeysAppend<K, V>(h: seq<Entry<K, V>>, e: Entry<K, V>)
    ensures Keys(h + [e]) == Keys(h) + [e.key]
    decreases |h|
  {
    if h != [] {
      assert (h + [e])[1..] == h[1..] + [e];
      KeysAppend(h[1..], e);
    } else {
      assert Keys([e]) == [e.key];
    }
  }

  /** Storing under one key leaves every other key's value alone. */
  lemma {:induction false} StoreElsewhere<K, V>(h: Hash<K, V>, k: K, v: V, x: K)
    requires x != k
    ensures Get(Store(h, k, v), x) == Get(h, x)
    decreases |h|
  {
    if h != [] && h[0].key != k {
      StoreElsewhere(h[1..], k, v, x);
      assert Store(h, k, v)[1..] == Store(h[1..], k, v);
    }
  }

  /** Stores ks[i] |-> vs[i] for each i in turn, into h. */
  function FromPairs<K(==), V>(h: Hash<K, V>, ks: seq<K>, vs: seq<V>): Hash<K, V>
    requires |ks| == |vs|
    decreases |ks|
  {
    if ks == [] then h else FromPairs(Store(h, ks[0], vs[0]), ks[1..], vs[1..])
  }

  /** The keys after storing the pairs are the old keys and the new ones. */
  lemma {:induction false} FromPairsKeys<K, V>(h: Hash<K, V>, ks: seq<K>, vs: seq<V>)
    requires |ks| == |vs|
    ensures forall x :: x in Keys(FromPairs(h, ks, vs)) <==> x in Keys(h) || x in ks
    decreases |ks|
  {
    if ks != [] {
      FromPairsKeys(Store(h, ks[0], vs[0]), ks[1..], vs[1..]);
      assert forall x :: x in ks <==> x == ks[0] || x in ks[1..];
    }
  }

  /** Storing the pairs adds at most one entry per pair. */
  lemma {:induction false} FromPairsSize<K, V>(h: Hash<K, V>, ks: seq<K>, vs: seq<V>)
    requires |ks| == |vs|
    ensures |FromPairs(h, ks, vs)| <= |h| + |ks|
    decreases |ks|
  {
    if ks != [] {
      var h' := Store(h, ks[0], vs[0]);
      assert |Keys(h')| <= |Keys(h)| + 1;
      FromPairsSize(h', ks[1..], vs[1..]);
    }
  }

  /** The last pair is stored last, so its value is the one kept for its
      key, whatever came before under the same key. */
  lemma {:induction false} FromPairsLast<K, V>(h: Hash<K, V>, ks: seq<K>, vs: seq<V>)
    requires |ks| == |vs| && |ks| > 0
    ensures Get(FromPairs(h, ks, vs), ks[|ks| - 1]) == Some(vs[|vs| - 1])
    decreases |ks|
  {
    if |ks| > 1 {
      FromPairsLast(Store(h, ks[0], vs[0]), ks[1..], vs[1..]);
    }
  }

  /** Keys not stored keep their old values. */
  lemma {:induction false} FromPairsElsewhere<K, V>(h: Hash<K, V>, ks: seq<K>, vs: seq<V>, x: K)
    requires |ks| == |vs|
    requires x !in ks
    ensures Get(FromPairs(h, ks, vs), x) == Get(h, x)
    decreases |ks|
  {
    if ks != [] {
      StoreElsewhere(h, ks[0], vs[0], x);
      FromPairsElsewhere(Store(h, ks[0], vs[0]), ks[1..], vs[1..], x);
    }
  }

  /** The first key is not among the rest of a distinct sequence. */
  lemma DistinctTail<T>(ks: seq<T>)
    requires |ks| > 0 && Distinct(ks)
    ensures Distinct(ks[1..]) && ks[0] !in ks[1..]
  {
  }

  /** Storing a key that is new keeps the key order: old keys, then it. */
  lemma StoreNewKey<K, V>(h: Hash<K, V>, ks: seq<K>, v: V)
    requires ks != [] && Distinct(Keys(h) + ks)
    ensures Keys(Store(h, ks[0], v)) + ks[1..] == Keys(h) + ks
  {
    var all := Keys(h) + ks;
    assert ks[0] !in Keys(h) by {
      forall j | 0 <= j < |Keys(h)| ensures Keys(h)[j] != ks[0] {
        assert all[j] == Keys(h)[j] && all[|Keys(h)|] == ks[0];
      }
    }
    assert Keys(h) + [ks[0]] + ks[1..] == all;
  }

  /** With distinct keys new to h, the new keys follow the old ones in the
      order given. */
  lemma {:induction false} FromPairsDistinctKeys<K, V>(h: Hash<K, V>, ks: seq<K>, vs: seq<V>)
    requires |ks| == |vs|
    requires Distinct(Keys(h) + ks)
    ensures Keys(FromPairs(h, ks, vs)) == Keys(h) + ks
    decreases |ks|
  {
    if ks != [] {
      StoreNewKey(h, ks, vs[0]);
      FromPairsDistinctKeys(Store(h, ks[0], vs[0]), ks[1..], vs[1..]);
    }
  }

  /** With distinct keys, every pair lands as stored. */
  lemma {:induction false} FromPairsDistinctValues<K, V>(h: Hash<K, V>, ks: seq<K>, vs: seq<V>, i: nat)
    requires |ks| == |vs|
    requires Distinct(ks)
    requires i < |ks|
    ensures Get(FromPairs(h, ks, vs), ks[i]) == Some(vs[i])
    decreases |ks|
  {
    DistinctTail(ks);
    var h' := Store(h, ks[0], vs[0]);
    if i == 0 {
      FromPairsElsewhere(h', ks[1..], vs[1..], ks[0]);
    } else {
      FromPairsDistinctValues(h', ks[1..], vs[1..], i - 1);
    }
  }
}
