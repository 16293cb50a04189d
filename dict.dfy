/** A Python dict, kept as the sequence of its entries in insertion order.
    Assigning to a key already present replaces the value where the key
    stands; assigning to a new key appends the entry at the end. */
module Dicts {

  type Dict<K, V> = seq<(K, V)>

  /** The keys of a dict, as a set. */
  function KeySet<K, V>(d: Dict<K, V>): set<K>
  {
    set i | 0 <= i < |d| :: d[i].0
  }

  /** No key occurs twice: every value of a Python dict has this shape. */
  ghost predicate DistinctKeys<K, V>(d: Dict<K, V>)
  {
    forall i, j :: 0 <= i < j < |d| ==> d[i].0 != d[j].0
  }

  /** The mapping a dict stands for, forgetting the insertion order. */
  function ToMap<K(==), V>(d: Dict<K, V>): (m: map<K, V>)
    requires DistinctKeys(d)
    ensures m.Keys == KeySet(d)
    ensures forall i :: 0 <= i < |d| ==> d[i].0 in m && m[d[i].0] == d[i].1
  {
    map k | k in KeySet(d) :: d[IndexOf(d, k)].1
  }

  /** The position at which key `k` stands (its first occurrence). */
  function IndexOf<K(==), V>(d: Dict<K, V>, k: K): (i: nat)
    requires k in KeySet(d)
    ensures i < |d| && d[i].0 == k
    ensures forall j :: 0 <= j < i ==> d[j].0 != k
  {
    if d[0].0 == k then 0
    else
      assert k in KeySet(d[1..]) by {
        var j :| 0 <= j < |d| && d[j].0 == k;
        assert d[1..][j - 1].0 == k;
      }
      1 + IndexOf(d[1..], k)
  }

  /** `d[k] = v`: overwrite in place when `k` is present, append otherwise. */
  function Put<K(==), V>(d: Dict<K, V>, k: K, v: V): (r: Dict<K, V>)
    ensures KeySet(r) == KeySet(d) + {k}
    ensures (k, v) in r
    ensures k in KeySet(d) ==> |r| == |d|
    ensures k !in KeySet(d) ==> r == d + [(k, v)]
    ensures DistinctKeys(d) ==> DistinctKeys(r)
  {
    if k in KeySet(d) then
      var i := IndexOf(d, k);
      ReplaceValue(d, i, v);
      assert d[i := (k, v)][i] == (k, v);
      d[i := (k, v)]
    else
      AppendNew(d, k, v);
      d + [(k, v)]
  }

  /** Assigning to a key present keeps every key where it stands; every
      other entry stays in the dict, and the only entry added is `(k, v)`. */
  lemma PutKeepsOthers<K, V>(d: Dict<K, V>, k: K, v: V)
    ensures k in KeySet(d) ==> forall j :: 0 <= j < |d| ==> Put(d, k, v)[j].0 == d[j].0
    ensures forall e :: e in d && e.0 != k ==> e in Put(d, k, v)
    ensures forall e :: e in Put(d, k, v) ==> e == (k, v) || e in d
  {
    var r := Put(d, k, v);
    forall e | e in d && e.0 != k ensures e in r {
      var j :| 0 <= j < |d| && d[j] == e;
      assert r[j] == e;
    }
    forall e | e in r ensures e == (k, v) || e in d {
      var j :| 0 <= j < |r| && r[j] == e;
      if j < |d| && e != (k, v) {
        assert d[j] == e;
      }
    }
  }

  /** Seen as a mapping, `d[k] = v` is map update. */
  lemma PutToMap<K, V>(d: Dict<K, V>, k: K, v: V)
    requires DistinctKeys(d)
    ensures ToMap(Put(d, k, v)) == ToMap(d)[k := v]
  {
    if k in KeySet(d) {
      ReplaceValue(d, IndexOf(d, k), v);
    } else {
      AppendNew(d, k, v);
    }
  }

  /** Replacing the value at one position keeps the keys and their order. */
  lemma ReplaceValue<K, V>(d: Dict<K, V>, i: nat, v: V)
    requires i < |d|
    ensures KeySet(d[i := (d[i].0, v)]) == KeySet(d)
    ensures DistinctKeys(d) ==>
      && DistinctKeys(d[i := (d[i].0, v)])
      && ToMap(d[i := (d[i].0, v)]) == ToMap(d)[d[i].0 := v]
  {
    var r := d[i := (d[i].0, v)];
    assert forall j :: 0 <= j < |d| ==> r[j].0 == d[j].0;
    forall q | q in KeySet(d) ensures q in KeySet(r) {
      var j :| 0 <= j < |d| && d[j].0 == q;
      assert r[j].0 == q;
    }
    assert KeySet(r) == KeySet(d);
    if DistinctKeys(d) {
      ReplaceDistinct(d, i, v);
      ReplaceMap(d, i, v);
    }
  }

  lemma ReplaceDistinct<K, V>(d: Dict<K, V>, i: nat, v: V)
    requires i < |d| && DistinctKeys(d)
    ensures DistinctKeys(d[i := (d[i].0, v)])
  {
    var r := d[i := (d[i].0, v)];
    forall a, b | 0 <= a < b < |r| ensures r[a].0 != r[b].0 {
      assert r[a].0 == d[a].0 && r[b].0 == d[b].0;
    }
  }

  lemma ReplaceMap<K, V>(d: Dict<K, V>, i: nat, v: V)
    requires i < |d| && DistinctKeys(d) && DistinctKeys(d[i := (d[i].0, v)])
    requires KeySet(d[i := (d[i].0, v)]) == KeySet(d)
    ensures ToMap(d[i := (d[i].0, v)]) == ToMap(d)[d[i].0 := v]
  {
    forall q | q in KeySet(d) {
      ReplaceLookup(d, i, v, q);
    }
  }

  lemma ReplaceLookup<K, V>(d: Dict<K, V>, i: nat, v: V, q: K)
    requires i < |d| && DistinctKeys(d) && DistinctKeys(d[i := (d[i].0, v)])
    requires KeySet(d[i := (d[i].0, v)]) == KeySet(d) && q in KeySet(d)
    ensures ToMap(d[i := (d[i].0, v)])[q] == ToMap(d)[d[i].0 := v][q]
  {
    var r := d[i := (d[i].0, v)];
    var j := IndexOf(d, q);
    SameKeysIndexOf(d, r, q);
    if j != i {
      assert d[j].0 != d[i].0;
    }
  }

  /** Dicts with the same keys in the same order find a key at the same place. */
  lemma SameKeysIndexOf<K, V>(d: Dict<K, V>, e: Dict<K, V>, k: K)
    requires |d| == |e| && k in KeySet(d) && KeySet(d) == KeySet(e)
    requires forall j :: 0 <= j < |d| ==> d[j].0 == e[j].0
    ensures IndexOf(d, k) == IndexOf(e, k)
  {
    var a, b := IndexOf(d, k), IndexOf(e, k);
    assert !(a < b) && !(b < a);
  }

  /** Assigning a key not yet present appends it at the end. */
  lemma AppendNew<K, V>(d: Dict<K, V>, k: K, v: V)
    requires k !in KeySet(d)
    ensures KeySet(d + [(k, v)]) == KeySet(d) + {k}
    ensures DistinctKeys(d) ==>
      && DistinctKeys(d + [(k, v)])
      && ToMap(d + [(k, v)]) == ToMap(d)[k := v]
  {
    var r := d + [(k, v)];
    assert r[|d|].0 == k;
    forall q | q in KeySet(d) ensures q in KeySet(r) {
      var j :| 0 <= j < |d| && d[j].0 == q;
      assert r[j].0 == q;
    }
    if DistinctKeys(d) {
      AppendMap(d, k, v);
    }
  }

  lemma AppendMap<K, V>(d: Dict<K, V>, k: K, v: V)
    requires k !in KeySet(d) && DistinctKeys(d)
    ensures DistinctKeys(d + [(k, v)])
    ensures ToMap(d + [(k, v)]) == ToMap(d)[k := v]
  {
    var r := d + [(k, v)];
    forall i, j | 0 <= i < j < |r| ensures r[i].0 != r[j].0 {
      if j == |d| {
        assert d[i].0 in KeySet(d);
      }
    }
    var m, m' := ToMap(r), ToMap(d)[k := v];
    forall q | q in m ensures q in m' && m[q] == m'[q] {
      var j :| 0 <= j < |r| && r[j].0 == q;
    }
    forall q | q in m' ensures q in m {
      if q != k {
        var j :| 0 <= j < |d| && d[j].0 == q;
        assert r[j].0 == q;
      }
    }
  }
}
