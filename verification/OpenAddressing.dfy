/** A table with open addressing as a sequence of buckets: which keys it holds and why probing finds them. */
module OpenAddressing {
  import opened Powers
  import opened Sequences
  import opened Bits
  import opened Probing

  /** Two values of the key type are reserved: one for buckets that have never been used and one for those whose key was removed. */
  datatype Bucket<+K> = Empty | Deleted | Full(key: K)

  /** The slot that probe number j for key x looks at. */
  function At<K>(hash: K -> Word, x: K, j: nat, size: nat): (i: nat)
    requires size > 0
    ensures i < size
  {
    Probe(ToNat(hash(x)), Stride(hash(x)), j, size)
  }

  ghost predicate NoneEmptyBefore<K>(hash: K -> Word, t: seq<Bucket<K>>, x: K, j: nat)
    requires |t| > 0
  {
    forall i :: 0 <= i < j ==> t[At(hash, x, i, |t|)] != Empty
  }

  ghost predicate Reached<K>(hash: K -> Word, t: seq<Bucket<K>>, x: K, j: nat, s: nat)
    requires |t| > 0
  {
    At(hash, x, j, |t|) == s && NoneEmptyBefore(hash, t, x, j)
  }

  /** The key in slot s is found by probing for it. */
  ghost predicate Findable<K>(hash: K -> Word, t: seq<Bucket<K>>, s: nat)
    requires s < |t| && t[s].Full?
  {
    exists j: nat :: Reached(hash, t, t[s].key, j, s)
  }

  ghost predicate Table<K>(hash: K -> Word, t: seq<Bucket<K>>, e: nat) {
    && |t| == Pow2(e)
    && (forall s :: 0 <= s < |t| && t[s].Full? ==> Findable(hash, t, s))
    && (forall a, b :: 0 <= a < b < |t| && t[a].Full? && t[b].Full? ==> t[a].key != t[b].key)
  }

  ghost function FullSlots<K>(t: seq<Bucket<K>>): set<nat> {
    set s: nat | s < |t| && t[s].Full?
  }

  ghost function DeletedSlots<K>(t: seq<Bucket<K>>): set<nat> {
    set s: nat | s < |t| && t[s].Deleted?
  }

  ghost function KeysOf<K(!new)>(t: seq<Bucket<K>>): set<K> {
    set s: nat | s < |t| && t[s].Full? :: t[s].key
  }

  // ----- Looking up -----

  /** A key in the table is met before any empty bucket on its way. */
  lemma PresentIsMet<K(!new)>(hash: K -> Word, t: seq<Bucket<K>>, e: nat, x: K, j: nat) returns (i: nat)
    requires Table(hash, t, e) && |t| > 0 && t[At(hash, x, j, |t|)] == Empty && x in KeysOf(t)
    ensures i < j && t[At(hash, x, i, |t|)] == Full(x)
  {
    hide At;
    var s: nat :| s < |t| && t[s].Full? && t[s].key == x;
    assert Findable(hash, t, s);
    i :| Reached(hash, t, x, i, s);
  }

  /** An empty bucket on the way means that the key is nowhere in the table. */
  lemma EmptyMeansAbsent<K(!new)>(hash: K -> Word, t: seq<Bucket<K>>, e: nat, x: K, j: nat)
    requires Table(hash, t, e) && |t| > 0 && t[At(hash, x, j, |t|)] == Empty
    requires forall i :: 0 <= i < j ==> t[At(hash, x, i, |t|)] != Full(x)
    ensures x !in KeysOf(t)
  {
    hide At, Table, KeysOf;
    if x in KeysOf(t) { var i := PresentIsMet(hash, t, e, x, j); }
  }

  /** While there is an empty bucket, probing ends in fewer steps than the table has slots. */
  lemma ProbingEnds<K>(hash: K -> Word, t: seq<Bucket<K>>, e: nat, x: K, j: nat, s: nat)
    requires |t| == Pow2(e) && s < |t| && t[s] == Empty && NoneEmptyBefore(hash, t, x, j)
    ensures j < |t|
  {
    hide Stride, Probe, ToNat, Pow2;
    var i := ProbesCover(e, ToNat(hash(x)), Stride(hash(x)), s);
    assert At(hash, x, i, |t|) == s;
  }

  lemma NoneEmpty<K>(t: seq<Bucket<K>>)
    requires forall s :: 0 <= s < |t| ==> t[s] != Empty
    ensures |FullSlots(t)| + |DeletedSlots(t)| == |t|
  {
    var full, deleted := FullSlots(t), DeletedSlots(t);
    assert full + deleted == Below(|t|) && full * deleted == {};
    assert |full + deleted| == |full| + |deleted| - |full * deleted|;
  }

  /** A table that is not full up has an empty bucket. */
  lemma SomeEmpty<K>(t: seq<Bucket<K>>) returns (s: nat)
    requires |FullSlots(t)| + |DeletedSlots(t)| < |t|
    ensures s < |t| && t[s] == Empty
  {
    if forall s :: 0 <= s < |t| ==> t[s] != Empty { NoneEmpty(t); }
    s :| 0 <= s < |t| && t[s] == Empty;
  }

  // ----- Changing one bucket -----

  /** No bucket that was in use becomes empty, so everything stays findable. */
  lemma StaysFindable<K>(hash: K -> Word, t: seq<Bucket<K>>, s: nat, b: Bucket<K>, i: nat)
    requires s < |t| && b != Empty && i < |t| && i != s && t[i].Full? && Findable(hash, t, i)
    ensures Findable(hash, t[s := b], i)
  {
    hide At;
    var j: nat :| Reached(hash, t, t[i].key, j, i);
    var after := t[s := b];
    assert NoneEmptyBefore(hash, after, t[i].key, j);
    assert Reached(hash, after, after[i].key, j, i);
  }

  /** Put a key that is not in the table into a free bucket on its way. */
  lemma PutKey<K(!new)>(hash: K -> Word, t: seq<Bucket<K>>, e: nat, x: K, j: nat)
    requires Table(hash, t, e) && |t| > 0 && x !in KeysOf(t) && NoneEmptyBefore(hash, t, x, j) && !t[At(hash, x, j, |t|)].Full?
    ensures var s := At(hash, x, j, |t|);
            && Table(hash, t[s := Full(x)], e)
            && KeysOf(t[s := Full(x)]) == KeysOf(t) + {x}
            && FullSlots(t[s := Full(x)]) == FullSlots(t) + {s} && s !in FullSlots(t)
            && DeletedSlots(t[s := Full(x)]) == DeletedSlots(t) - {s} && (s in DeletedSlots(t) <==> t[s].Deleted?)
  {
    hide At, Findable, NoneEmptyBefore;
    var s := At(hash, x, j, |t|);
    var after := t[s := Full(x)];
    forall i | 0 <= i < |t| && after[i].Full? ensures Findable(hash, after, i) {
      if i == s { PutIsFindable(hash, t, x, j); } else { StaysFindable(hash, t, s, Full(x), i); }
    }
    forall a, b | 0 <= a < b < |t| && after[a].Full? && after[b].Full? ensures after[a].key != after[b].key {
      if a == s { assert t[b].key in KeysOf(t); }
      if b == s { assert t[a].key in KeysOf(t); }
    }
    assert after[s].key == x;
    forall k | k in KeysOf(t) ensures k in KeysOf(after) {
      var i: nat :| i < |t| && t[i].Full? && t[i].key == k;
      assert after[i] == t[i];
    }
  }

  lemma PutIsFindable<K>(hash: K -> Word, t: seq<Bucket<K>>, x: K, j: nat)
    requires |t| > 0 && NoneEmptyBefore(hash, t, x, j)
    ensures Findable(hash, t[At(hash, x, j, |t|) := Full(x)], At(hash, x, j, |t|))
  {
    hide At;
    var s := At(hash, x, j, |t|);
    var after := t[s := Full(x)];
    assert NoneEmptyBefore(hash, after, x, j);
    assert Reached(hash, after, after[s].key, j, s);
  }

  /** Delete the key in a bucket. */
  lemma DeleteKey<K(!new)>(hash: K -> Word, t: seq<Bucket<K>>, e: nat, s: nat)
    requires Table(hash, t, e) && s < |t| && t[s].Full?
    ensures Table(hash, t[s := Deleted], e)
    ensures KeysOf(t[s := Deleted]) == KeysOf(t) - {t[s].key} && t[s].key in KeysOf(t)
    ensures FullSlots(t[s := Deleted]) == FullSlots(t) - {s} && s in FullSlots(t)
    ensures DeletedSlots(t[s := Deleted]) == DeletedSlots(t) + {s} && s !in DeletedSlots(t)
  {
    hide At, Findable;
    var after := t[s := Deleted];
    forall i | 0 <= i < |t| && after[i].Full? ensures Findable(hash, after, i) {
      StaysFindable(hash, t, s, Deleted, i);
    }
    forall k | k in KeysOf(t) && k != t[s].key ensures k in KeysOf(after) {
      var i: nat :| i < |t| && t[i].Full? && t[i].key == k;
      assert after[i] == t[i];
    }
    forall k | k in KeysOf(after) ensures k in KeysOf(t) && k != t[s].key {
      var i: nat :| i < |t| && after[i].Full? && after[i].key == k;
      assert i != s && t[i] == after[i];
    }
  }

  /** There are as many keys as full buckets. */
  lemma {:induction false} KeysCounted<K(!new)>(t: seq<Bucket<K>>)
    requires forall a, b :: 0 <= a < b < |t| && t[a].Full? && t[b].Full? ==> t[a].key != t[b].key
    ensures |KeysOf(t)| == |FullSlots(t)|
  {
    if t != [] {
      var n := |t| - 1;
      KeysCounted(t[..n]);
      if t[n].Full? {
        assert FullSlots(t) == FullSlots(t[..n]) + {n};
        OneMoreKey(t);
      } else {
        assert FullSlots(t) == FullSlots(t[..n]);
        SameKeys(t);
      }
    }
  }

  lemma OneMoreKey<K(!new)>(t: seq<Bucket<K>>)
    requires t != [] && t[|t| - 1].Full?
    requires forall a :: 0 <= a < |t| - 1 && t[a].Full? ==> t[a].key != t[|t| - 1].key
    ensures KeysOf(t) == KeysOf(t[..|t| - 1]) + {t[|t| - 1].key} && t[|t| - 1].key !in KeysOf(t[..|t| - 1])
  {
    var n := |t| - 1;
    forall k | k in KeysOf(t) && k != t[n].key ensures k in KeysOf(t[..n]) {
      var i: nat :| i < |t| && t[i].Full? && t[i].key == k;
      assert t[..n][i] == t[i];
    }
    forall k | k in KeysOf(t[..n]) ensures k in KeysOf(t) {
      var i: nat :| i < n && t[..n][i].Full? && t[..n][i].key == k;
      assert t[i] == t[..n][i];
    }
  }

  lemma SameKeys<K(!new)>(t: seq<Bucket<K>>)
    requires t != [] && !t[|t| - 1].Full?
    ensures KeysOf(t) == KeysOf(t[..|t| - 1])
  {
    var n := |t| - 1;
    forall k | k in KeysOf(t) ensures k in KeysOf(t[..n]) {
      var i: nat :| i < |t| && t[i].Full? && t[i].key == k;
      assert t[..n][i] == t[i];
    }
    forall k | k in KeysOf(t[..n]) ensures k in KeysOf(t) {
      var i: nat :| i < n && t[..n][i].Full? && t[..n][i].key == k;
      assert t[i] == t[..n][i];
    }
  }

  /** A new table. */
  lemma AllEmpty<K(!new)>(hash: K -> Word, t: seq<Bucket<K>>, e: nat)
    requires |t| == Pow2(e) && forall s :: 0 <= s < |t| ==> t[s] == Empty
    ensures Table(hash, t, e) && KeysOf(t) == {} && FullSlots(t) == {} && DeletedSlots(t) == {}
  {
  }
}
