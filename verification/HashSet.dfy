/** WTF::HashTable used as a set: open addressing, deleted buckets, growing, shrinking, rehashing and copying. */
module HashTables {
  import opened Powers
  import opened Sequences
  import opened Bits
  import opened Probing
  import opened OpenAddressing

  const MAX_LOAD := 2
  const MIN_LOAD := 6
  const MINIMUM_TABLE_SIZE := 8
  // the largest power of two in 32 bits, and the most keys whose number times MIN_LOAD is held in 32 bits
  const MAXIMUM_TABLE_SIZE := 0x8000_0000
  const MAXIMUM_KEYS := 715_827_882

  /** A product of unsigned numbers. */
  function Product(x: nat, y: nat): (p: nat)
    ensures p == x * y % M32
    ensures x * y < M32 ==> p == x * y
  {
    x * y % M32
  }

  /** A table of 2^e buckets that counts its keys and deleted buckets. */
  ghost predicate Counted<K(!new)>(hash: K -> Word, t: seq<Bucket<K>>, e: nat, keyCount: nat, deletedCount: nat) {
    && Table(hash, t, e) && |t| > 0
    && keyCount == |FullSlots(t)| && deletedCount == |DeletedSlots(t)|
  }

  /** Probing for x has met no empty bucket and not x itself. */
  ghost predicate Sought<K>(hash: K -> Word, t: seq<Bucket<K>>, x: K, j: nat)
    requires |t| > 0
  {
    NoneEmptyBefore(hash, t, x, j) && forall i :: 0 <= i < j ==> t[At(hash, x, i, |t|)] != Full(x)
  }

  lemma SoughtMore<K>(hash: K -> Word, t: seq<Bucket<K>>, x: K, j: nat)
    requires |t| > 0 && Sought(hash, t, x, j) && t[At(hash, x, j, |t|)] != Empty && t[At(hash, x, j, |t|)] != Full(x)
    ensures Sought(hash, t, x, j + 1)
  {
    hide At;
  }

  /** The next slot is one step on, as the source computes it with the mask. */
  lemma NextAt<K>(hash: K -> Word, x: K, j: nat, size: nat)
    requires size > 0
    ensures At(hash, x, j + 1, size) == (At(hash, x, j, size) + Stride(hash(x))) % size
    ensures At(hash, x, 0, size) == ToNat(hash(x)) % size
  {
    hide Stride, ToNat, Probe;
    NextProbe(ToNat(hash(x)), Stride(hash(x)), j, size);
    FirstProbe(ToNat(hash(x)), Stride(hash(x)), size);
  }

  lemma SeekEnds<K(!new)>(hash: K -> Word, t: seq<Bucket<K>>, e: nat, keyCount: nat, deletedCount: nat, x: K, j: nat)
    requires Counted(hash, t, e, keyCount, deletedCount) && keyCount + deletedCount < |t| && Sought(hash, t, x, j)
    ensures j < |t|
  {
    hide At;
    var s := SomeEmpty(t);
    ProbingEnds(hash, t, e, x, j, s);
  }

  /** A key that is sought and not there goes into the last deleted bucket on the way, or else into the empty one at its end. */
  ghost predicate Free<K>(hash: K -> Word, t: seq<Bucket<K>>, x: K, j: nat, slot: nat)
    requires |t| > 0
  {
    At(hash, x, j, |t|) == slot && NoneEmptyBefore(hash, t, x, j) && !t[slot].Full?
  }

  /** The probe that ends at an empty bucket puts the key into the last deleted bucket on the way, if there is one. */
  ghost predicate LastFree<K>(hash: K -> Word, t: seq<Bucket<K>>, x: K, at: nat, end: nat)
    requires |t| > 0
  {
    && at <= end && NoneEmptyBefore(hash, t, x, end) && t[At(hash, x, end, |t|)] == Empty
    && (at < end ==> t[At(hash, x, at, |t|)] == Deleted)
    && forall i :: at < i < end ==> t[At(hash, x, i, |t|)] != Deleted
  }

  /** lookupForWriting. */
  method LookupForWriting<K(==,!new)>(hash: K -> Word, table: array<Bucket<K>>, tableSize: nat, key: K,
                                      ghost e: nat, ghost keyCount: nat, ghost deletedCount: nat)
    returns (slot: nat, found: bool, ghost at: nat, ghost end: nat)
    requires tableSize == table.Length && Counted(hash, table[..], e, keyCount, deletedCount) && keyCount + deletedCount < tableSize
    ensures slot < table.Length && found == (key in KeysOf(table[..]))
    ensures found ==> table[slot] == Full(key)
    ensures !found ==> Free(hash, table[..], key, at, slot) && LastFree(hash, table[..], key, at, end)
  {
    hide At, Stride, ToNat, Table, Findable;
    ghost var t := table[..];
    var k, h := 0, ToNat(hash(key));
    var i := h % tableSize;
    var deletedEntry: Option<nat> := None;
    ghost var j := 0;
    at, end := 0, 0;
    NextAt(hash, key, 0, tableSize);
    while true
      invariant i == At(hash, key, j, tableSize) && Sought(hash, t, key, j) && (k == 0 || k == Stride(hash(key)))
      invariant deletedEntry.Some? ==> deletedEntry.value < tableSize && Free(hash, t, key, at, deletedEntry.value) && at < j
                                       && t[deletedEntry.value] == Deleted
      invariant forall a :: (if deletedEntry.Some? then at < a else 0 <= a) && a < j ==> t[At(hash, key, a, tableSize)] != Deleted
      decreases tableSize - j
    {
      SeekEnds(hash, t, e, keyCount, deletedCount, key, j);
      assert table[i] == t[i];
      if table[i] == Empty {
        EmptyMeansAbsent(hash, t, e, key, j);
        if deletedEntry.Some? { return deletedEntry.value, false, at, j; }
        return i, false, j, j;
      }
      if table[i] == Full(key) {
        assert t[i].Full? && t[i].key == key;
        return i, true, j, j;
      }
      if table[i] == Deleted { deletedEntry, at := Some(i), j; }
      if k == 0 { k := Stride(hash(key)); }
      SoughtMore(hash, t, key, j);
      NextAt(hash, key, j, tableSize);
      i := (i + k) % tableSize;
      j := j + 1;
    }
  }

  /** With the first i buckets of the table t0 moved, t holds their keys and no deleted bucket. */
  ghost predicate Moving<K(!new)>(hash: K -> Word, t0: seq<Bucket<K>>, i: nat, t: seq<Bucket<K>>, e: nat)
    requires i <= |t0|
  {
    && Table(hash, t, e) && |t| > 0 && DeletedSlots(t) == {}
    && KeysOf(t) == KeysOf(t0[..i]) && |FullSlots(t)| == |FullSlots(t0[..i])|
  }

  lemma MoveNone<K(!new)>(hash: K -> Word, t0: seq<Bucket<K>>, i: nat, t: seq<Bucket<K>>, e: nat)
    requires i < |t0| && Moving(hash, t0, i, t, e) && !t0[i].Full?
    ensures Moving(hash, t0, i + 1, t, e)
  {
    hide Table;
    assert t0[..i + 1][..i] == t0[..i];
    SameKeys(t0[..i + 1]);
    assert FullSlots(t0[..i + 1]) == FullSlots(t0[..i]);
  }

  lemma MoveOne<K(!new)>(hash: K -> Word, t0: seq<Bucket<K>>, e0: nat, i: nat, t: seq<Bucket<K>>, e: nat)
    requires Table(hash, t0, e0) && i < |t0| && Moving(hash, t0, i, t, e) && t0[i].Full?
    ensures t0[i].key !in KeysOf(t) && |FullSlots(t)| < |FullSlots(t0)|
    ensures forall j, slot: nat :: slot < |t| && Free(hash, t, t0[i].key, j, slot) ==> Moving(hash, t0, i + 1, t[slot := t0[i]], e)
  {
    hide Table, At, NoneEmptyBefore;
    var p := t0[..i + 1];
    assert p[..i] == t0[..i] && p[i] == t0[i];
    DifferentKeys(hash, t0, e0, i);
    OneMoreKey(p);
    assert FullSlots(p) == FullSlots(t0[..i]) + {i};
    SubsetCardinality(FullSlots(p), FullSlots(t0));
    forall j, slot: nat | slot < |t| && Free(hash, t, t0[i].key, j, slot) ensures Moving(hash, t0, i + 1, t[slot := t0[i]], e) {
      PutKey(hash, t, e, t0[i].key, j);
    }
  }

  lemma DifferentKeys<K>(hash: K -> Word, t0: seq<Bucket<K>>, e0: nat, i: nat)
    requires Table(hash, t0, e0) && i < |t0| && t0[i].Full?
    ensures forall a :: 0 <= a < i && t0[a].Full? ==> t0[a].key != t0[i].key
  {
  }

  class HashTable<K(==,!new)> {
    const hash: K -> Word
    var table: array<Bucket<K>>
    var tableSize: nat
    var keyCount: nat
    var deletedCount: nat
    ghost var e: nat

    /** Between operations more than half of the buckets are empty, so that probing always ends. */
    ghost predicate Valid()
      reads this, table
    {
      && tableSize == table.Length <= MAXIMUM_TABLE_SIZE
      && if tableSize == 0 then keyCount == deletedCount == 0
         else e >= 3 && Counted(hash, table[..], e, keyCount, deletedCount) && 2 * (keyCount + deletedCount) < tableSize
    }

    /** The set that the table stands for. */
    ghost function Keys(): set<K>
      reads this, table
    {
      KeysOf(table[..])
    }

    constructor (hash: K -> Word)
      ensures Valid() && Keys() == {} && this.hash == hash && fresh(table)
    {
      this.hash := hash;
      table := new Bucket<K>[0];
      tableSize, keyCount, deletedCount, e := 0, 0, 0, 0;
    }

    /** The counters are exact. */
    lemma CountsAreExact()
      requires Valid()
      ensures keyCount == |Keys()|
    {
      hide At, Findable;
      KeysCounted(table[..]);
    }

    /** inlineLookup: the bucket of key, if it is there. */
    method Lookup(key: K) returns (found: bool, slot: nat)
      requires Valid()
      ensures found == (key in Keys())
      ensures found ==> slot < table.Length && table[slot] == Full(key)
    {
      hide At, Stride, ToNat, Table, Findable;
      found, slot := false, 0;
      if tableSize == 0 { return; }
      ghost var t := table[..];
      var k, h := 0, ToNat(hash(key));
      var i := h % tableSize;
      ghost var j := 0;
      NextAt(hash, key, 0, tableSize);
      while true
        invariant i == At(hash, key, j, tableSize) && Sought(hash, t, key, j) && (k == 0 || k == Stride(hash(key)))
        decreases tableSize - j
      {
        SeekEnds(hash, t, e, keyCount, deletedCount, key, j);
        assert table[i] == t[i];
        if table[i] == Full(key) {
          assert key in Keys();
          return true, i;
        }
        if table[i] == Empty {
          EmptyMeansAbsent(hash, t, e, key, j);
          return;
        }
        if k == 0 { k := Stride(hash(key)); }
        SoughtMore(hash, t, key, j);
        NextAt(hash, key, j, tableSize);
        i := (i + k) % tableSize;
        j := j + 1;
      }
    }

    method Contains(key: K) returns (found: bool)
      requires Valid()
      ensures found == (key in Keys())
    {
      var slot;
      found, slot := Lookup(key);
    }

    /** shouldExpand. */
    predicate ShouldExpand()
      reads this
    {
      Product(keyCount + deletedCount, MAX_LOAD) >= tableSize
    }

    /** shouldShrink. */
    predicate ShouldShrink()
      reads this
    {
      Product(keyCount, MIN_LOAD) < tableSize && tableSize > MINIMUM_TABLE_SIZE
    }

    /** At least a sixth of the buckets are in use, unless the table is as small as it gets. */
    ghost predicate Dense()
      reads this
    {
      keyCount * MIN_LOAD >= tableSize || tableSize <= MINIMUM_TABLE_SIZE
    }

    /** The counters are right, whatever the load. */
    ghost predicate Consistent()
      reads this, table
    {
      && tableSize == table.Length <= MAXIMUM_TABLE_SIZE
      && if tableSize == 0 then keyCount == deletedCount == 0 else e >= 3 && Counted(hash, table[..], e, keyCount, deletedCount)
    }

    /** rehash: move every key to a new table. The entry that is asked for is followed to its new place. */
    method Rehash(newTableSize: nat, entry: Option<nat>, ghost newE: nat) returns (newEntry: Option<nat>)
      requires Consistent() && newTableSize == Pow2(newE) <= MAXIMUM_TABLE_SIZE && newE >= 3 && keyCount < newTableSize
      requires entry.Some? ==> entry.value < table.Length && table[entry.value].Full?
      modifies this
      ensures Consistent() && fresh(table) && tableSize == newTableSize && e == newE
      ensures Keys() == old(Keys()) && keyCount == old(keyCount) && deletedCount == 0
      ensures entry.None? ==> newEntry.None?
      ensures entry.Some? ==> newEntry.Some? && newEntry.value < table.Length && table[newEntry.value] == old(table[entry.value])
    {
      hide At, Table, Findable, Moving, Free;
      var oldTable, oldTableSize := table, tableSize;
      ghost var t0, e0, k0 := table[..], e, keyCount;
      var newTable := new Bucket<K>[newTableSize](_ => Empty);
      newEntry := None;
      MovingStarts(hash, t0, newTable[..], newE);
      for i := 0 to oldTableSize
        invariant keyCount == k0 && oldTable[..] == t0 && Moving(hash, t0, i, newTable[..], newE)
        invariant newEntry.Some? == (entry.Some? && entry.value < i)
        invariant newEntry.Some? ==> newEntry.value < newTable.Length && newTable[newEntry.value] == t0[entry.value]
      {
        ghost var t := newTable[..];
        MovingIs(hash, t0, i, t, newE);
        if oldTable[i].Full? {
          MoveOne(hash, t0, e0, i, t, newE);
          // reinsert
          var slot, found;
          ghost var at, end;
          slot, found, at, end := LookupForWriting(hash, newTable, newTableSize, oldTable[i].key, newE, |FullSlots(t)|, 0);
          FreeIsFree(hash, t, oldTable[i].key, at, slot);
          newTable[slot] := oldTable[i];
          assert newTable[..] == t[slot := t0[i]];
          if entry == Some(i) { newEntry := Some(slot); }
        } else {
          MoveNone(hash, t0, i, t, newE);
        }
      }
      MovingIs(hash, t0, oldTableSize, newTable[..], newE);
      assert t0[..oldTableSize] == t0;
      if oldTableSize == 0 { NothingThere(t0); }
      table, tableSize, deletedCount, e := newTable, newTableSize, 0, newE;
    }

    /** expand. */
    method Expand(entry: Option<nat>) returns (newEntry: Option<nat>)
      requires Consistent() && 2 * keyCount <= tableSize + 1 && tableSize < MAXIMUM_TABLE_SIZE
      requires entry.Some? ==> entry.value < table.Length && table[entry.value].Full?
      modifies this
      ensures Valid() && fresh(table) && Keys() == old(Keys()) && keyCount == old(keyCount) && tableSize > 0
      ensures tableSize == if old(tableSize) == 0 then MINIMUM_TABLE_SIZE
                           else if keyCount * MIN_LOAD < old(tableSize) * 2 then old(tableSize) else 2 * old(tableSize)
      ensures deletedCount == 0
      ensures entry.Some? ==> newEntry.Some? && newEntry.value < table.Length && table[newEntry.value] == old(table[entry.value])
    {
      hide Counted, Product;
      PowersHere(e);
      SizeIs();
      if tableSize > 0 {
        ExponentFits(e);
        ExpandedSizeIs(e, keyCount);
      }
      var newSize := if tableSize == 0 then MINIMUM_TABLE_SIZE else ExpandedSize(tableSize, keyCount);
      newEntry := Rehash(newSize, entry, if newSize == MINIMUM_TABLE_SIZE then 3 else if newSize == tableSize then e else e + 1);
    }

    /** add. The loop is that of lookupForWriting. */
    method Add(key: K) returns (entry: nat, isNew: bool)
      requires Valid() && (tableSize < MAXIMUM_TABLE_SIZE || 2 * (keyCount + deletedCount + 1) < tableSize)
      modifies this, table
      ensures Valid() && Keys() == old(Keys()) + {key} && isNew == (key !in old(Keys()))
      ensures entry < table.Length && table[entry] == Full(key)
      ensures table == old(table) || fresh(table)
      ensures keyCount == old(keyCount) + (if isNew then 1 else 0)
      ensures old(Dense()) ==> Dense()
    {
      hide At, Table, Findable, Counted, Free, Stride, ToNat;
      if tableSize == 0 {
        NoKeys();
        var _ := Expand(None);
      }
      ghost var t, k0, d0 := table[..], keyCount, deletedCount;
      var found;
      ghost var at, end;
      entry, found, at, end := LookupForWriting(hash, table, tableSize, key, e, keyCount, deletedCount);
      if found { return entry, false; }
      PutCounted(hash, t, e, keyCount, deletedCount, key, at, entry);
      if table[entry].Deleted? {
        table[entry] := Empty;
        deletedCount := deletedCount - 1;
      }
      table[entry] := Full(key);
      assert table[..] == t[entry := Full(key)];
      keyCount := keyCount + 1;
      isNew := true;
      if ShouldExpand() {
        var moved := Expand(Some(entry));
        entry := moved.value;
      }
    }

    lemma NoKeys()
      requires Valid() && tableSize == 0
      ensures Keys() == {}
    {
    }

    lemma NoKeysAtAll()
      requires Valid() && keyCount == 0
      ensures Keys() == {} && CopySize(0) == 0
    {
      hide At, Findable;
      CountsAreExact();
    }

    /** remove of the key in a bucket. */
    method RemoveAt(pos: nat)
      requires Valid() && pos < table.Length && table[pos].Full? && keyCount <= MAXIMUM_KEYS
      modifies this, table
      ensures Valid() && Keys() == old(Keys()) - {old(table[pos].key)} && keyCount == old(keyCount) - 1
      ensures table == old(table) || fresh(table)
      ensures old(Dense()) ==> Dense()
    {
      hide At, Table, Findable, Counted;
      ghost var t := table[..];
      assert table[pos] == t[pos];
      DeleteCounted(hash, t, e, keyCount, deletedCount, pos);
      table[pos] := Deleted;
      assert table[..] == t[pos := Deleted];
      deletedCount := deletedCount + 1;
      keyCount := keyCount - 1;
      if ShouldShrink() { Shrink(); }
    }

    /** shrink. */
    method Shrink()
      requires Consistent() && ShouldShrink() && keyCount <= MAXIMUM_KEYS
      modifies this
      ensures Valid() && fresh(table) && tableSize == old(tableSize) / 2
      ensures Keys() == old(Keys()) && keyCount == old(keyCount) && deletedCount == 0
    {
      hide Counted;
      SizeIs();
      HalfPower(e);
      var _ := Rehash(tableSize / 2, None, e - 1);
    }

    lemma HalfPower(e: nat)
      requires Pow2(e) > MINIMUM_TABLE_SIZE
      ensures e >= 4 && Pow2(e) / 2 == Pow2(e - 1) && Pow2(e) >= 16
    {
      if e < 4 { Pow2Grows(e, 3); }
      Pow2Grows(4, e);
    }

    /** remove. */
    method Remove(key: K)
      requires Valid() && keyCount <= MAXIMUM_KEYS
      modifies this, table
      ensures Valid() && Keys() == old(Keys()) - {key}
      ensures table == old(table) || fresh(table)
      ensures old(Dense()) ==> Dense()
    {
      var found, slot := Lookup(key);
      if found { RemoveAt(slot); }
    }

    /** removeIf: remove every key that the functor takes. It shrinks at most once, however few keys are left. */
    method RemoveIf(functor: K -> bool)
      requires Valid() && keyCount <= MAXIMUM_KEYS
      modifies this, table
      ensures Valid() && Keys() == set k | k in old(Keys()) && !functor(k)
      ensures table == old(table) || fresh(table)
    {
      hide At, Table, Findable, Counted, Removing;
      var removedBucketCount := 0;
      ghost var t0, k0, d0 := table[..], keyCount, deletedCount;
      if tableSize == 0 {
        NoKeys();
        return;
      }
      RemovingStarts(hash, t0, e, k0, d0, functor);
      var i: nat := tableSize;
      while i > 0
        invariant table == old(table) && tableSize == old(tableSize) && e == old(e) && keyCount == k0 && deletedCount == d0
        invariant i <= tableSize
        invariant removedBucketCount <= k0
        invariant Removing(hash, t0, table[..], e, k0 - removedBucketCount, d0 + removedBucketCount, functor, i)
      {
        i := i - 1;
        ghost var t := table[..];
        RemoveNext(hash, t0, t, e, k0 - removedBucketCount, d0 + removedBucketCount, functor, i);
        if table[i].Full? && functor(table[i].key) {
          table[i] := Deleted;
          assert table[..] == t[i := Deleted];
          removedBucketCount := removedBucketCount + 1;
        }
      }
      RemovingEnds(hash, t0, table[..], e, k0 - removedBucketCount, d0 + removedBucketCount, functor);
      deletedCount := deletedCount + removedBucketCount;
      keyCount := keyCount - removedBucketCount;
      if ShouldShrink() { Shrink(); }
    }

    /** The copy constructor. */
    constructor Copy(other: HashTable<K>)
      requires other.Valid() && CopyFits(other.keyCount)
      ensures Valid() && fresh(table) && hash == other.hash && Keys() == other.Keys()
      ensures keyCount == other.keyCount && deletedCount == 0 && tableSize == CopySize(other.keyCount)
      ensures Dense() <==> CopyInBounds(other.keyCount)
    {
      hide At, Table, Findable, Moving, Free, Counted, Pow2, CopySize, CopyInBounds, CopyFits;
      var otherKeyCount := other.keyCount;
      var size := CopySize(otherKeyCount);
      hash := other.hash;
      tableSize, keyCount, deletedCount := size, otherKeyCount, 0;
      table := new Bucket<K>[size](_ => Empty);
      e := 0;
      new;
      ghost var t0, newE := other.table[..], CopyExponent(otherKeyCount);
      CopyIsDense(otherKeyCount);
      if otherKeyCount == 0 {
        other.NoKeysAtAll();
        NoKeys();
        return;
      }
      e := newE;
      MovingStarts(hash, t0, table[..], newE);
      for i := 0 to other.tableSize
        invariant hash == other.hash && tableSize == size == table.Length && keyCount == otherKeyCount && deletedCount == 0 && e == newE
        invariant fresh(table) && other.Valid() && other.table[..] == t0 && other.keyCount == otherKeyCount && other.tableSize == |t0|
        invariant Moving(hash, t0, i, table[..], newE)
      {
        ghost var t := table[..];
        MovingIs(hash, t0, i, t, newE);
        if other.table[i].Full? {
          other.IsTable();
          MoveOne(hash, t0, other.e, i, t, newE);
          var slot;
          ghost var at;
          slot, at := SeekEmpty(hash, table, size, other.table[i].key, newE, |FullSlots(t)|);
          FreeIsFree(hash, t, other.table[i].key, at, slot);
          table[slot] := other.table[i];
          assert table[..] == t[slot := t0[i]];
        } else {
          MoveNone(hash, t0, i, t, newE);
        }
      }
      MovingIs(hash, t0, other.tableSize, table[..], newE);
      assert t0[..other.tableSize] == t0;
      other.IsTable();
      assert Counted(hash, table[..], e, keyCount, deletedCount);
    }

    lemma IsTable()
      requires Valid()
      ensures tableSize != 0 ==> Table(hash, table[..], e) && keyCount == |FullSlots(table[..])|
    {
      hide Table;
    }

    /** clear. */
    method Clear()
      requires Valid()
      modifies this
      ensures Valid() && Keys() == {} && tableSize == 0 && fresh(table)
    {
      table := new Bucket<K>[0];
      tableSize, keyCount, deletedCount := 0, 0, 0;
    }

    lemma SizeIs()
      requires Consistent()
      ensures tableSize != 0 ==> tableSize == Pow2(e)
    {
      hide Findable, Pow2;
    }

    lemma PowersHere(e: nat)
      ensures Pow2(3) == MINIMUM_TABLE_SIZE && Pow2(e + 1) == 2 * Pow2(e)
    {
    }
  }

  /** The probing loop of addUniqueForInitialization: it stops at the first empty bucket. */
  method SeekEmpty<K(==,!new)>(hash: K -> Word, table: array<Bucket<K>>, tableSize: nat, key: K, ghost e: nat, ghost keyCount: nat)
    returns (slot: nat, ghost j: nat)
    requires tableSize == table.Length && Counted(hash, table[..], e, keyCount, 0) && keyCount < tableSize
    requires key !in KeysOf(table[..])
    ensures slot < table.Length && Free(hash, table[..], key, j, slot)
  {
    hide At, Stride, ToNat, Table, Findable;
    ghost var t := table[..];
    var k, h := 0, ToNat(hash(key));
    slot, j := h % tableSize, 0;
    NextAt(hash, key, 0, tableSize);
    while table[slot] != Empty
      invariant slot == At(hash, key, j, tableSize) && Sought(hash, t, key, j) && (k == 0 || k == Stride(hash(key)))
      decreases tableSize - j
    {
      SeekEnds(hash, t, e, keyCount, 0, key, j);
      assert table[slot] == t[slot];
      assert t[slot] != Full(key) by { if t[slot] == Full(key) { HasKey(t, slot); } }
      if k == 0 { k := Stride(hash(key)); }
      SoughtMore(hash, t, key, j);
      NextAt(hash, key, j, tableSize);
      slot := (slot + k) % tableSize;
      j := j + 1;
    }
  }

  lemma HasKey<K(!new)>(t: seq<Bucket<K>>, s: nat)
    requires s < |t| && t[s].Full?
    ensures t[s].key in KeysOf(t)
  {
  }

  // ----- Sizes in 32 bits -----

  /** The size that expand chooses for a table that is not empty. */
  function ExpandedSize(tableSize: nat, keyCount: nat): nat {
    // mustRehashInPlace
    if Product(keyCount, MIN_LOAD) < Product(tableSize, 2) then tableSize else Product(tableSize, 2)
  }

  /** The size stays or doubles as it should if and only if the table is not the largest one, for which it would become 0. */
  lemma ExpandedSizeIs(e: nat, keyCount: nat)
    requires 3 <= e <= 31 && 2 * keyCount <= Pow2(e) + 1
    ensures 8 <= Pow2(e) <= MAXIMUM_TABLE_SIZE && (e < 31 ==> 2 * Pow2(e) == Pow2(e + 1) <= MAXIMUM_TABLE_SIZE)
    ensures ExpandedSize(Pow2(e), keyCount) == (if keyCount * MIN_LOAD < 2 * Pow2(e) then Pow2(e) else 2 * Pow2(e)) <==> e < 31
    ensures e == 31 ==> ExpandedSize(Pow2(e), keyCount) == 0
  {
    hide Pow2, Product;
    Sizes(e);
    if e < 31 { Double(e); }
  }

  lemma SmallPowers()
    ensures Pow2(0) == 1 && Pow2(1) == 2 && Pow2(2) == 4 && Pow2(3) == MINIMUM_TABLE_SIZE
  {
  }

  /** A table of at most 2^31 buckets. */
  lemma ExponentFits(e: nat)
    requires Pow2(e) <= MAXIMUM_TABLE_SIZE
    ensures e <= 31
  {
    hide Pow2;
    Pow2Values();
    if e > 31 { Pow2Grows(32, e); }
  }

  lemma Sizes(e: nat)
    requires 3 <= e <= 31
    ensures 8 <= Pow2(e) <= MAXIMUM_TABLE_SIZE && (e < 31 ==> Pow2(e) <= 0x4000_0000) && (e == 31 ==> Pow2(e) == MAXIMUM_TABLE_SIZE)
  {
    hide Pow2;
    Pow2Values();
    Double(31);
    Double(30);
    Pow2Grows(3, e);
    SmallPowers();
    if e < 31 { Pow2Grows(e, 30); }
  }

  /** shouldShrink compares the right product as long as there are no more than MAXIMUM_KEYS keys. */
  lemma SixfoldFits(n: nat)
    ensures Product(n, MIN_LOAD) == MIN_LOAD * n <==> n <= MAXIMUM_KEYS
  {
  }

  // ----- The size of a copy -----

  /** The size of the table of a copy with n keys, all of it computed in 32 bits. */
  function CopySize(n: nat): nat
    requires n < M32
  {
    if n == 0 then 0
    else
      var best := Product(RoundUpToPowerOfTwo(n), 2);
      var doubled := if Product(n, 12) >= Product(best, 5) then Product(best, 2) else best;
      if doubled > MINIMUM_TABLE_SIZE then doubled else MINIMUM_TABLE_SIZE
  }

  /** The numbers of keys for which no product that matters wraps around. */
  predicate CopyInBounds(n: nat) {
    n <= 0x1000_0000 || 357_913_942 <= n <= 0x2000_0000 || 715_827_883 <= n <= 894_784_853
  }

  /** The numbers of keys for which a copy has enough room, though it may be more than it should be. */
  predicate CopyFits(n: nat) {
    n <= 0x2000_0000 || 715_827_883 <= n <= 894_784_853
  }

  /** Case by case: the products wrap around above 2^28 keys. */
  lemma CopySizeIs(n: nat) returns (e: nat)
    requires 1 <= n < 0x4000_0000
    ensures e <= 30 && RoundUpToPowerOfTwo(n) == Pow2(e) && n <= Pow2(e) && (e > 0 ==> Pow2(e - 1) < n && Pow2(e) == 2 * Pow2(e - 1))
    ensures n <= 0x1000_0000 ==> e <= 28 && Pow2(e) <= 0x1000_0000
    ensures n > 0x1000_0000 ==> Pow2(e) == if n <= 0x2000_0000 then 0x2000_0000 else 0x4000_0000
    ensures n <= 0x1000_0000 ==> CopySize(n) == var s := (if 6 * n >= 5 * Pow2(e) then 4 * Pow2(e) else 2 * Pow2(e)); if s > MINIMUM_TABLE_SIZE then s else MINIMUM_TABLE_SIZE
    ensures 0x1000_0000 < n <= 0x2000_0000 ==> CopySize(n) == if 357_913_942 <= n < 447_392_427 then 0x4000_0000 else 0x8000_0000
    ensures 0x2000_0000 < n ==> CopySize(n) == if 715_827_883 <= n <= 894_784_853 then 0x8000_0000 else MINIMUM_TABLE_SIZE
  {
    hide RoundUpToPowerOfTwo, Pow2;
    e := RoundsUp(n);
    Pow2Values();
    Double(29);
    if e > 0 { Double(e - 1); }
    if e > 30 { Pow2Grows(30, e - 1); }
    if e <= 28 { Pow2Grows(e, 28); } else { Pow2Grows(28, e - 1); }
    assert Pow2(28) == 0x1000_0000 by { Double(28); }
    Double(30);
  }

  ghost function CopyExponent(n: nat): (e: nat)
    requires n < 0x4000_0000
    ensures n > 0 ==> 3 <= e <= 31 && CopySize(n) == Pow2(e)
  {
    if n == 0 then 0
    else
      CopyIsPower(n);
      var e: nat :| 3 <= e <= 31 && CopySize(n) == Pow2(e);
      e
  }

  lemma CopyIsPower(n: nat)
    requires 1 <= n < 0x4000_0000
    ensures exists e: nat :: 3 <= e <= 31 && CopySize(n) == Pow2(e)
  {
    hide RoundUpToPowerOfTwo, CopySize, Pow2;
    var e := CopySizeIs(n);
    Double(e);
    Double(e + 1);
    Pow2Values();
    Double(29);
    Double(30);
    SmallPowers();
    if e == 1 || e == 2 { Double(e); }
    if n <= 0x1000_0000 {
      var f := if 6 * n >= 5 * Pow2(e) then e + 2 else e + 1;
      assert CopySize(n) == if Pow2(f) > 8 then Pow2(f) else Pow2(3);
    }
  }

  /** The load of a copy is less than 5/12, and at least 5/24 unless the table is as small as it gets,
      if and only if no product that matters wraps around. */
  lemma CopyLoad(n: nat)
    requires 1 <= n < 0x4000_0000
    ensures 12 * n < 5 * CopySize(n) && (CopySize(n) == MINIMUM_TABLE_SIZE || 24 * n >= 5 * CopySize(n)) <==> CopyInBounds(n)
  {
    hide RoundUpToPowerOfTwo, CopySize, Pow2;
    var e := CopySizeIs(n);
    SmallPowers();
  }

  /** The bounds 3/12 and 5/12 that the source promises in a comment are met exactly when no product that matters wraps around,
      and the table is not doubled or the number of keys is a power of two, more than one of them being there. */
  lemma CopyLoadAsPromised(n: nat)
    requires 1 <= n < 0x4000_0000
    ensures 3 * CopySize(n) <= 12 * n < 5 * CopySize(n)
       <==> CopyInBounds(n) && n > 1 && (6 * n < 5 * RoundUpToPowerOfTwo(n) || n == RoundUpToPowerOfTwo(n))
  {
    hide RoundUpToPowerOfTwo, CopySize, Pow2;
    var e := CopySizeIs(n);
    SmallPowers();
  }

  /** A copy has more than twice as many buckets as keys, so that probing ends, if and only if it fits. */
  lemma CopyHasRoom(n: nat)
    requires 1 <= n < 0x4000_0000
    ensures 2 * n < CopySize(n) <==> CopyFits(n)
    ensures CopySize(n) <= MAXIMUM_TABLE_SIZE
  {
    hide RoundUpToPowerOfTwo, CopySize, Pow2;
    var e := CopySizeIs(n);
  }

  lemma CopyIsDense(n: nat)
    requires n < 0x4000_0000 && CopyFits(n)
    ensures n > 0 ==> 2 * n < CopySize(n) <= MAXIMUM_TABLE_SIZE
    ensures n * MIN_LOAD >= CopySize(n) || CopySize(n) <= MINIMUM_TABLE_SIZE <==> CopyInBounds(n)
  {
    hide RoundUpToPowerOfTwo, CopySize, Pow2;
    if n > 0 {
      var e := CopySizeIs(n);
      SmallPowers();
      CopyHasRoom(n);
    } else {
      CopySizeOfNone();
    }
  }

  lemma CopySizeOfNone()
    ensures CopySize(0) == 0
  {
  }

  /** With one key more than 2^28 the copy is doubled though it should not be, and its load is an eighth. */
  lemma CopyLoadWraps()
    ensures CopySize(0x1000_0001) == 0x8000_0000 && MIN_LOAD * 0x1000_0001 < 0x8000_0000
    ensures 6 * 0x1000_0001 < 5 * RoundUpToPowerOfTwo(0x1000_0001)
  {
    hide RoundUpToPowerOfTwo, CopySize, Pow2;
    var e := CopySizeIs(0x1000_0001);
  }

  /** With one key more than 2^29 the size wraps around to 0, and the copy gets the smallest table. */
  lemma CopySizeWraps()
    ensures CopySize(0x2000_0001) == MINIMUM_TABLE_SIZE && !CopyFits(0x2000_0001)
  {
    hide RoundUpToPowerOfTwo, CopySize, Pow2;
    var e := CopySizeIs(0x2000_0001);
  }

  /** 5/24 cannot be improved on: for every power of two there is a number of keys with one key less than which the load would be below it. */
  lemma CopyLoadIsSharp(e: nat) returns (n: nat)
    requires 3 <= e <= 28
    ensures 1 <= n <= 0x1000_0000 && CopySize(n) == 4 * Pow2(e) && 24 * (n - 1) < 5 * CopySize(n) <= 24 * n
    ensures e == 6 ==> n == 54 && 12 * n < 3 * CopySize(n)
  {
    hide RoundUpToPowerOfTwo, CopySize;
    var p := Pow2(e);
    n := (5 * p + 5) / 6;
    Pow2Values();
    Double(28);
    Pow2Grows(3, e);
    Pow2Grows(e, 28);
    SmallPowers();
    Double(e - 1);
    var f := CopySizeIs(n);
    SamePower(e, f, n);
    assert e == 6 ==> p == 64;
  }

  lemma SamePower(e: nat, f: nat, n: nat)
    requires e > 0 && Pow2(e - 1) < n <= Pow2(e) && n <= Pow2(f) && (f > 0 ==> Pow2(f - 1) < n)
    ensures Pow2(e) == Pow2(f)
  {
    if e < f { Pow2Grows(e, f - 1); }
    if f < e { Pow2Grows(f, e - 1); }
  }

  lemma PutCounted<K(!new)>(hash: K -> Word, t: seq<Bucket<K>>, e: nat, keyCount: nat, deletedCount: nat, x: K, j: nat, slot: nat)
    requires Counted(hash, t, e, keyCount, deletedCount) && x !in KeysOf(t) && slot < |t| && Free(hash, t, x, j, slot)
    ensures t[slot].Deleted? ==> deletedCount > 0
    ensures Counted(hash, t[slot := Full(x)], e, keyCount + 1, if t[slot].Deleted? then deletedCount - 1 else deletedCount)
    ensures KeysOf(t[slot := Full(x)]) == KeysOf(t) + {x}
  {
    hide Table, At, NoneEmptyBefore;
    PutKey(hash, t, e, x, j);
  }

  lemma DeleteCounted<K(!new)>(hash: K -> Word, t: seq<Bucket<K>>, e: nat, keyCount: nat, deletedCount: nat, s: nat)
    requires Counted(hash, t, e, keyCount, deletedCount) && s < |t| && t[s].Full?
    ensures keyCount > 0 && Counted(hash, t[s := Deleted], e, keyCount - 1, deletedCount + 1)
    ensures KeysOf(t[s := Deleted]) == KeysOf(t) - {t[s].key}
  {
    hide Table;
    DeleteKey(hash, t, e, s);
  }

  /** From the last bucket down to bucket i the keys that the functor takes have been deleted. */
  ghost predicate Removing<K(!new)>(hash: K -> Word, t0: seq<Bucket<K>>, t: seq<Bucket<K>>, e: nat, keyCount: nat, deletedCount: nat,
                                    functor: K -> bool, i: nat) {
    && Counted(hash, t, e, keyCount, deletedCount) && |t| == |t0| && i <= |t|
    && (forall s :: 0 <= s < i ==> t[s] == t0[s])
    && (forall s :: i <= s < |t| ==> t[s] == if t0[s].Full? && functor(t0[s].key) then Deleted else t0[s])
  }

  lemma RemovingStarts<K(!new)>(hash: K -> Word, t0: seq<Bucket<K>>, e: nat, keyCount: nat, deletedCount: nat, functor: K -> bool)
    requires Counted(hash, t0, e, keyCount, deletedCount)
    ensures Removing(hash, t0, t0, e, keyCount, deletedCount, functor, |t0|)
  {
    hide Table;
  }

  lemma RemoveNext<K(!new)>(hash: K -> Word, t0: seq<Bucket<K>>, t: seq<Bucket<K>>, e: nat, keyCount: nat, deletedCount: nat,
                            functor: K -> bool, i: nat)
    requires i < |t0| && Removing(hash, t0, t, e, keyCount, deletedCount, functor, i + 1)
    ensures |t| == |t0|
    ensures if t[i].Full? && functor(t[i].key)
            then keyCount > 0 && Removing(hash, t0, t[i := Deleted], e, keyCount - 1, deletedCount + 1, functor, i)
            else Removing(hash, t0, t, e, keyCount, deletedCount, functor, i)
  {
    hide Counted;
    if t[i].Full? && functor(t[i].key) { DeleteCounted(hash, t, e, keyCount, deletedCount, i); }
  }

  lemma RemovingEnds<K(!new)>(hash: K -> Word, t0: seq<Bucket<K>>, t: seq<Bucket<K>>, e: nat, keyCount: nat, deletedCount: nat,
                              functor: K -> bool)
    requires Removing(hash, t0, t, e, keyCount, deletedCount, functor, 0)
    ensures Counted(hash, t, e, keyCount, deletedCount) && KeysOf(t) == set k | k in KeysOf(t0) && !functor(k)
  {
    hide Counted;
    forall k | k in KeysOf(t) ensures k in KeysOf(t0) && !functor(k) {
      var s: nat :| s < |t| && t[s].Full? && t[s].key == k;
      assert t0[s] == t[s];
    }
    forall k | k in KeysOf(t0) && !functor(k) ensures k in KeysOf(t) {
      var s: nat :| s < |t0| && t0[s].Full? && t0[s].key == k;
      assert t[s] == t0[s];
    }
  }

  lemma MovingStarts<K(!new)>(hash: K -> Word, t0: seq<Bucket<K>>, t: seq<Bucket<K>>, e: nat)
    requires |t| == Pow2(e) && forall s :: 0 <= s < |t| ==> t[s] == Empty
    ensures Moving(hash, t0, 0, t, e)
  {
    hide Table;
    AllEmpty(hash, t, e);
    assert t0[..0] == [];
    NothingThere(t0[..0]);
  }

  lemma NothingThere<K(!new)>(t: seq<Bucket<K>>)
    requires t == []
    ensures KeysOf(t) == {} && FullSlots(t) == {}
  {
  }

  lemma MovingIs<K(!new)>(hash: K -> Word, t0: seq<Bucket<K>>, i: nat, t: seq<Bucket<K>>, e: nat)
    requires i <= |t0| && Moving(hash, t0, i, t, e)
    ensures Counted(hash, t, e, |FullSlots(t)|, 0) && |t| == Pow2(e)
    ensures KeysOf(t) == KeysOf(t0[..i]) && |FullSlots(t)| == |FullSlots(t0[..i])|
  {
    hide Findable;
  }

  lemma FreeIsFree<K>(hash: K -> Word, t: seq<Bucket<K>>, x: K, j: nat, slot: nat)
    requires |t| > 0 && slot < |t| && Free(hash, t, x, j, slot)
    ensures !t[slot].Full?
  {
  }
}