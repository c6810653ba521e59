/**
 A model of android.util.SparseIntArray, the int-to-int map the band detector
 keeps its slots in. The Android class stores two parallel arrays, the keys in
 strictly ascending order and the values beside them; `put` binary-searches the
 key and either overwrites the value or inserts the pair at its sorted place,
 `get` returns 0 for a missing key, and `keyAt(i)` is the i-th smallest key.
 The model keeps the two arrays as sequences and inserts by a sorted walk.
 */
module SparseIntArrays {
  import opened Wrappers

  /** Strictly ascending: the order `keyAt` exposes. */
  predicate Increasing(ks: seq<int>) {
    forall i, j :: 0 <= i < j < |ks| ==> ks[i] < ks[j]
  }

  /** The value paired with the first occurrence of `key`, if any. */
  function Find(ks: seq<int>, vs: seq<int>, key: int): (r: Option<int>)
    requires |ks| == |vs|
    ensures r.Some? <==> key in ks
  {
    if |ks| == 0 then None
    else if ks[0] == key then Some(vs[0])
    else
      assert key in ks[1..] <==> key in ks;
      Find(ks[1..], vs[1..], key)
  }

  /** `Find` on a pair prepended to the arrays: the head answers for its own key. */
  lemma FindCons(k: int, v: int, ks: seq<int>, vs: seq<int>, key: int)
    requires |ks| == |vs|
    ensures Find([k] + ks, [v] + vs, key) == if k == key then Some(v) else Find(ks, vs, key)
  {
    assert ([k] + ks)[1..] == ks && ([v] + vs)[1..] == vs;
  }

  /** Prepending a key smaller than every key keeps the array ascending. */
  lemma IncreasingCons(x: int, ks: seq<int>)
    requires Increasing(ks)
    requires forall j :: 0 <= j < |ks| ==> x < ks[j]
    ensures Increasing([x] + ks)
  {
    forall i, j | 0 <= i < j < |[x] + ks| ensures ([x] + ks)[i] < ([x] + ks)[j] {
      if i > 0 {
        assert ([x] + ks)[i] == ks[i - 1];
      }
      assert ([x] + ks)[j] == ks[j - 1];
    }
  }

  /**
   Inserts or overwrites `key` in the parallel arrays, keeping the keys
   ascending: the sorted walk that `put` performs with its binary search.
   */
  function Insert(ks: seq<int>, vs: seq<int>, key: int, value: int): (r: (seq<int>, seq<int>))
    requires |ks| == |vs| && Increasing(ks)
    ensures |r.0| == |r.1| && Increasing(r.0)
    ensures forall x :: x in r.0 <==> x in ks || x == key
    ensures Find(r.0, r.1, key) == Some(value)
    ensures forall k :: k != key ==> Find(r.0, r.1, k) == Find(ks, vs, k)
    decreases |ks|, 1
  {
    if |ks| == 0 then ([key], [value])
    else if key < ks[0] then
      assert forall j :: 0 <= j < |ks| ==> key < ks[j] by {
        forall j | 0 <= j < |ks| ensures key < ks[j] {
          assert j == 0 || ks[0] < ks[j];
        }
      }
      IncreasingCons(key, ks);
      assert forall k :: Find([key] + ks, [value] + vs, k) == if key == k then Some(value) else Find(ks, vs, k) by {
        forall k ensures Find([key] + ks, [value] + vs, k) == if key == k then Some(value) else Find(ks, vs, k) {
          FindCons(key, value, ks, vs, k);
        }
      }
      ([key] + ks, [value] + vs)
    else if key == ks[0] then
      assert forall k :: Find(ks, [value] + vs[1..], k) == if key == k then Some(value) else Find(ks, vs, k) by {
        forall k ensures Find(ks, [value] + vs[1..], k) == if key == k then Some(value) else Find(ks, vs, k) {
          assert ks == [ks[0]] + ks[1..] && vs == [vs[0]] + vs[1..];
          FindCons(ks[0], value, ks[1..], vs[1..], k);
          FindCons(ks[0], vs[0], ks[1..], vs[1..], k);
        }
      }
      (ks, [value] + vs[1..])
    else
      InsertTail(ks, vs, key, value)
  }

  /** The `key > ks[0]` case of `Insert`: keep the head, insert into the tail. */
  function InsertTail(ks: seq<int>, vs: seq<int>, key: int, value: int): (r: (seq<int>, seq<int>))
    requires |ks| == |vs| && Increasing(ks) && |ks| > 0 && ks[0] < key
    ensures |r.0| == |r.1| && Increasing(r.0)
    ensures forall x :: x in r.0 <==> x in ks || x == key
    ensures Find(r.0, r.1, key) == Some(value)
    ensures forall k :: k != key ==> Find(r.0, r.1, k) == Find(ks, vs, k)
    decreases |ks|, 0
  {
    assert Increasing(ks[1..]);
    var t := Insert(ks[1..], vs[1..], key, value);
    assert forall j :: 0 <= j < |t.0| ==> ks[0] < t.0[j] by {
      forall j | 0 <= j < |t.0| ensures ks[0] < t.0[j] {
        assert t.0[j] in t.0;
        if t.0[j] != key {
          var i :| 0 <= i < |ks[1..]| && ks[1..][i] == t.0[j];
          assert ks[0] < ks[i + 1];
        }
      }
    }
    IncreasingCons(ks[0], t.0);
    assert ks == [ks[0]] + ks[1..] && vs == [vs[0]] + vs[1..];
    assert forall k :: Find([ks[0]] + t.0, [vs[0]] + t.1, k) == if ks[0] == k then Some(vs[0]) else Find(t.0, t.1, k) by {
      forall k ensures Find([ks[0]] + t.0, [vs[0]] + t.1, k) == if ks[0] == k then Some(vs[0]) else Find(t.0, t.1, k) {
        FindCons(ks[0], vs[0], t.0, t.1, k);
      }
    }
    assert forall k :: Find(ks, vs, k) == if ks[0] == k then Some(vs[0]) else Find(ks[1..], vs[1..], k) by {
      forall k ensures Find(ks, vs, k) == if ks[0] == k then Some(vs[0]) else Find(ks[1..], vs[1..], k) {
        FindCons(ks[0], vs[0], ks[1..], vs[1..], k);
      }
    }
    ([ks[0]] + t.0, [vs[0]] + t.1)
  }

  /** android.util.SparseIntArray: `keys` ascending, `values[i]` belongs to `keys[i]`. */
  datatype SparseIntArray = SparseIntArray(keys: seq<int>, values: seq<int>) {

    predicate Valid() {
      |keys| == |values| && Increasing(keys)
    }

    /** `size()`: the number of stored keys. */
    function Size(): nat {
      |keys|
    }

    /** The set of keys currently mapped. */
    function Keys(): set<int> {
      set k | k in keys
    }

    /** `keyAt(index)`: the index-th smallest key. */
    function KeyAt(index: nat): (k: int)
      requires Valid() && index < Size()
      ensures k in Keys()
      ensures forall j :: 0 <= j < index ==> keys[j] < k
      ensures forall j :: index < j < Size() ==> k < keys[j]
    {
      keys[index]
    }

    /** The value mapped to `key`, or None when the key is absent. */
    function Lookup(key: int): (r: Option<int>)
      requires Valid()
      ensures r.Some? <==> key in Keys()
    {
      Find(keys, values, key)
    }

    /** `get(key)`: the mapped value, 0 when the key is absent. */
    function Get(key: int): (v: int)
      requires Valid()
      ensures key in Keys() ==> Lookup(key) == Some(v)
      ensures key !in Keys() ==> v == 0
    {
      match Lookup(key)
      case Some(v) => v
      case None => 0
    }

    /**
     `put(key, value)`: afterwards `key` maps to `value`, every other key
     keeps its value, and the key set grows by exactly `key`.
     */
    function Put(key: int, value: int): (r: SparseIntArray)
      requires Valid()
      ensures r.Valid()
      ensures r.Keys() == Keys() + {key}
      ensures r.Lookup(key) == Some(value)
      ensures forall k :: k != key ==> r.Lookup(k) == Lookup(k)
    {
      var t := Insert(keys, values, key, value);
      SparseIntArray(t.0, t.1)
    }
  }

  /** A fresh or `clear()`ed array. */
  const Empty := SparseIntArray([], [])

  /** `put` at a key already present keeps the size; at a new key it grows it by one. */
  lemma PutSize(a: SparseIntArray, key: int, value: int)
    requires a.Valid()
    ensures key in a.Keys() ==> a.Put(key, value).Size() == a.Size()
    ensures key !in a.Keys() ==> a.Put(key, value).Size() == a.Size() + 1
  {
    SizeIsCard(a);
    SizeIsCard(a.Put(key, value));
    if key in a.Keys() {
      assert a.Keys() + {key} == a.Keys();
    } else {
      assert |a.Keys() + {key}| == |a.Keys()| + 1;
    }
  }

  /** Keys are distinct, so the size of the array is the size of its key set. */
  lemma SizeIsCard(a: SparseIntArray)
    requires a.Valid()
    ensures |a.Keys()| == a.Size()
  {
    DistinctCard(a.keys);
  }

  /** A strictly ascending sequence has as many members as elements. */
  lemma {:induction false} DistinctCard(ks: seq<int>)
    requires Increasing(ks)
    ensures |set k | k in ks| == |ks|
  {
    if |ks| > 0 {
      var rest := ks[1..];
      assert Increasing(rest);
      DistinctCard(rest);
      assert ks[0] !in rest by {
        forall j | 0 <= j < |rest| ensures rest[j] != ks[0] {
          assert ks[0] < ks[j + 1];
        }
      }
      assert (set k | k in ks) == (set k | k in rest) + {ks[0]} by {
        assert ks == [ks[0]] + rest;
      }
    }
  }
}
