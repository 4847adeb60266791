/** A JavaScript `Map`: entries in insertion order, one per key;
    setting a present key keeps its place, a new key goes last. */
module InsertionMap {
  type Entries<K, V> = seq<(K, V)>

  ghost predicate Unique<K, V>(m: Entries<K, V>) {
    forall i, j :: 0 <= i < j < |m| ==> m[i].0 != m[j].0
  }

  /** Place of the key, or -1. */
  function Place<K(==), V>(m: Entries<K, V>, key: K): (i: int)
    ensures -1 <= i < |m|
    ensures i >= 0 ==> m[i].0 == key
    ensures forall j :: 0 <= j < (if i < 0 then |m| else i) ==> m[j].0 != key
  {
    if m == [] then -1
    else if m[0].0 == key then 0
    else
      var i := Place(m[1..], key);
      assert forall j :: 1 <= j < |m| ==> m[j] == m[1..][j - 1];
      if i < 0 then -1 else i + 1
  }

  predicate Has<K(==), V>(m: Entries<K, V>, key: K) {
    Place(m, key) >= 0
  }

  function Get<K(==), V>(m: Entries<K, V>, key: K): V
    requires Has(m, key)
  {
    m[Place(m, key)].1
  }

  function Put<K(==), V>(m: Entries<K, V>, key: K, v: V): (r: Entries<K, V>)
    ensures Unique(m) ==> Unique(r)
    ensures |r| == if Has(m, key) then |m| else |m| + 1
  {
    var i := Place(m, key);
    if i >= 0 then m[i := (key, v)] else m + [(key, v)]
  }

  function RemoveAt<K(==), V>(m: Entries<K, V>, i: nat): (r: Entries<K, V>)
    requires i < |m|
    ensures |r| == |m| - 1
    ensures Unique(m) ==> Unique(r)
    ensures forall j :: 0 <= j < |r| ==> r[j] == if j < i then m[j] else m[j + 1]
  {
    m[..i] + m[i + 1..]
  }

  function Delete<K(==), V>(m: Entries<K, V>, key: K): (r: Entries<K, V>)
    ensures Unique(m) ==> Unique(r)
  {
    var i := Place(m, key);
    if i >= 0 then RemoveAt(m, i) else m
  }

  /** Membership as a statement about the entries. */
  lemma HasIsMember<K, V>(m: Entries<K, V>, key: K)
    ensures Has(m, key) <==> exists i :: 0 <= i < |m| && m[i].0 == key
  {
    var i := Place(m, key);
    if i >= 0 { assert m[i].0 == key; }
  }

  lemma PlaceIs<K, V>(m: Entries<K, V>, i: nat)
    requires Unique(m) && i < |m|
    ensures Place(m, m[i].0) == i
  {}

  lemma PutGet<K, V>(m: Entries<K, V>, key: K, v: V, other: K)
    ensures Has(Put(m, key, v), other) <==> other == key || Has(m, other)
    ensures Has(Put(m, key, v), other) ==>
              Get(Put(m, key, v), other) == if other == key then v else Get(m, other)
  {
    var r := Put(m, key, v);
    var i, j, l := Place(m, key), Place(m, other), Place(r, other);
    if j >= 0 { assert r[j].0 == other; }
    if i < 0 { assert r[|m|].0 == key; }
    if l >= 0 && other != key { assert m[l].0 == other; }
  }

  lemma RemoveAtHas<K, V>(m: Entries<K, V>, i: nat, other: K)
    requires Unique(m) && i < |m|
    ensures Has(RemoveAt(m, i), other) <==> other != m[i].0 && Has(m, other)
    ensures Has(RemoveAt(m, i), other) ==> Get(RemoveAt(m, i), other) == Get(m, other)
  {
    var r := RemoveAt(m, i);
    var j, l := Place(m, other), Place(r, other);
    if l >= 0 {
      var n := if l < i then l else l + 1;
      assert m[n] == r[l];
      PlaceIs(m, n);
    }
    if j >= 0 && j != i {
      var n := if j < i then j else j - 1;
      assert r[n].0 == other;
      HasIsMember(r, other);
    }
  }
}
