/** Python dictionaries as the parser builds them: insertion-ordered, filled by
    `update`, which overwrites the value of a present key in place and appends
    a new key at the end. */
module Dicts {
  import opened Wrappers

  /** The entries of a dict, in insertion order. */
  type Dict<K, V> = seq<(K, V)>

  function Keys<K, V>(d: Dict<K, V>): (ks: seq<K>)
    ensures |ks| == |d|
  {
    if |d| == 0 then [] else [d[0].0] + Keys(d[1..])
  }

  /** `d.get(k)` */
  function Get<K(==, !new), V>(d: Dict<K, V>, k: K): Option<V>
  {
    if |d| == 0 then None
    else if d[0].0 == k then Some(d[0].1)
    else Get(d[1..], k)
  }

  predicate Distinct<K(==, !new)>(s: seq<K>) {
    forall i, j :: 0 <= i < j < |s| ==> s[i] != s[j]
  }

  /** `d.update({k: v})` */
  function Put<K(==, !new), V>(d: Dict<K, V>, k: K, v: V): Dict<K, V>
  {
    if |d| == 0 then [(k, v)]
    else if d[0].0 == k then [(k, v)] + d[1..]
    else [d[0]] + Put(d[1..], k, v)
  }

  /** After `update`, k holds v, every other key holds what it held, and the key
      list is unchanged when k was present and gains k at the end otherwise. */
  lemma {:induction false} PutFacts<K(!new), V>(d: Dict<K, V>, k: K, v: V)
    ensures Get(Put(d, k, v), k) == Some(v)
    ensures forall k' :: k' != k ==> Get(Put(d, k, v), k') == Get(d, k')
    ensures Keys(Put(d, k, v)) == if k in Keys(d) then Keys(d) else Keys(d) + [k]
    decreases |d|
  {
    if |d| > 0 {
      var r := Put(d, k, v);
      if d[0].0 == k {
        assert r[1..] == d[1..];
      } else {
        PutFacts(d[1..], k, v);
        assert r[1..] == Put(d[1..], k, v);
        assert Keys(d) == [d[0].0] + Keys(d[1..]);
      }
    }
  }

  /** The dict built by `update`-ing d with the pairs of ps in order. */
  function PutAll<K(==, !new), V>(d: Dict<K, V>, ps: seq<(K, V)>): Dict<K, V>
  {
    if |ps| == 0 then d
    else
      var last := ps[|ps| - 1];
      Put(PutAll(d, ps[..|ps| - 1]), last.0, last.1)
  }

  /** Updating with one more pair is one more `update`. */
  lemma PutAllSnoc<K(!new), V>(d: Dict<K, V>, ps: seq<(K, V)>, p: (K, V))
    ensures PutAll(d, ps + [p]) == Put(PutAll(d, ps), p.0, p.1)
  {
    assert (ps + [p])[..|ps|] == ps;
  }

  /** The value of the last pair of ps whose key is k. */
  function LastWith<K(==, !new), V>(ps: seq<(K, V)>, k: K): Option<V>
  {
    if |ps| == 0 then None
    else if ps[|ps| - 1].0 == k then Some(ps[|ps| - 1].1)
    else LastWith(ps[..|ps| - 1], k)
  }

  /** LastWith finds the pair with key k that no later pair with key k follows. */
  lemma {:induction false} LastWithIff<K(!new), V>(ps: seq<(K, V)>, k: K, v: V)
    ensures LastWith(ps, k) == Some(v) <==>
      exists i :: 0 <= i < |ps| && ps[i] == (k, v) && forall j :: i < j < |ps| ==> ps[j].0 != k
    decreases |ps|
  {
    if |ps| > 0 {
      var init := ps[..|ps| - 1];
      LastWithIff(init, k, v);
      if ps[|ps| - 1].0 != k {
        if exists i :: 0 <= i < |ps| && ps[i] == (k, v) && forall j :: i < j < |ps| ==> ps[j].0 != k {
          var i :| 0 <= i < |ps| && ps[i] == (k, v) && forall j :: i < j < |ps| ==> ps[j].0 != k;
          assert init[i] == ps[i];
        }
        if LastWith(init, k) == Some(v) {
          var i :| 0 <= i < |init| && init[i] == (k, v) && forall j :: i < j < |init| ==> init[j].0 != k;
          assert ps[i] == (k, v);
        }
      }
    }
  }

  /** LastWith is None exactly when no pair has key k. */
  lemma {:induction false} LastWithNone<K(!new), V>(ps: seq<(K, V)>, k: K)
    ensures LastWith(ps, k).None? <==> forall i :: 0 <= i < |ps| ==> ps[i].0 != k
    decreases |ps|
  {
    if |ps| > 0 {
      var init := ps[..|ps| - 1];
      LastWithNone(init, k);
      assert forall i :: 0 <= i < |init| ==> init[i] == ps[i];
    }
  }

  /** After updating with ps, a key holds the value of its last pair in ps, or
      what it held before when ps does not mention it. */
  lemma {:induction false} GetPutAll<K(!new), V>(d: Dict<K, V>, ps: seq<(K, V)>, k: K)
    ensures Get(PutAll(d, ps), k) == if LastWith(ps, k).Some? then LastWith(ps, k) else Get(d, k)
    decreases |ps|
  {
    if |ps| > 0 {
      GetPutAll(d, ps[..|ps| - 1], k);
      PutFacts(PutAll(d, ps[..|ps| - 1]), ps[|ps| - 1].0, ps[|ps| - 1].1);
    }
  }

  /** A key is listed exactly when the dict holds a value for it. */
  lemma {:induction false} KeysGet<K(!new), V>(d: Dict<K, V>, k: K)
    ensures k in Keys(d) <==> Get(d, k).Some?
    decreases |d|
  {
    if |d| > 0 {
      KeysGet(d[1..], k);
    }
  }

  /** Updates never list a key twice. */
  lemma {:induction false} PutAllDistinct<K(!new), V>(d: Dict<K, V>, ps: seq<(K, V)>)
    requires Distinct(Keys(d))
    ensures Distinct(Keys(PutAll(d, ps)))
    decreases |ps|
  {
    if |ps| > 0 {
      PutAllDistinct(d, ps[..|ps| - 1]);
      PutFacts(PutAll(d, ps[..|ps| - 1]), ps[|ps| - 1].0, ps[|ps| - 1].1);
    }
  }

  /** The keys of a dict built from nothing are in the order of their first pair. */
  lemma {:induction false} PutAllKeys<K(!new), V>(ps: seq<(K, V)>)
    ensures Keys(PutAll([], ps)) == FirstOccurrences(ps)
    decreases |ps|
  {
    if |ps| > 0 {
      var init := ps[..|ps| - 1];
      PutAllKeys(init);
      var k := ps[|ps| - 1].0;
      FirstOccurrencesHas(init, k);
      PutFacts(PutAll([], init), k, ps[|ps| - 1].1);
    }
  }

  /** The keys of ps without repeats, each where it first occurs. */
  function FirstOccurrences<K(==, !new), V>(ps: seq<(K, V)>): seq<K>
  {
    if |ps| == 0 then []
    else
      var init := FirstOccurrences(ps[..|ps| - 1]);
      var k := ps[|ps| - 1].0;
      if k in init then init else init + [k]
  }

  lemma {:induction false} FirstOccurrencesHas<K(!new), V>(ps: seq<(K, V)>, k: K)
    ensures k in FirstOccurrences(ps) <==> exists i :: 0 <= i < |ps| && ps[i].0 == k
    decreases |ps|
  {
    if |ps| > 0 {
      var init := ps[..|ps| - 1];
      FirstOccurrencesHas(init, k);
      assert forall i :: 0 <= i < |init| ==> init[i] == ps[i];
    }
  }
}
