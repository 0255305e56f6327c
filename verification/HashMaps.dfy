/** The hash map of stb_ds.h: an open-addressing index over a dense array of entries. */
module HashMaps {
  import opened HashProbe
  import opened HashTable
  import opened HashIndexes
  import opened HashSearch

  ghost function Max0(x: int): nat { if x < 0 then 0 else x }

  /** Work saved up for the next change of size or rebuild. */
  ghost function Savings(n: nat, used: nat, tombstones: nat): nat {
    12 * Max0(used - n / 2) + 12 * Max0(3 * n / 8 - used) + 11 * tombstones
  }

  ghost predicate DistinctKeys<K(!new), V>(entries: seq<Entry<K, V>>) {
    forall i, j :: 0 <= i < j < |entries| ==> entries[i].key != entries[j].key
  }

  /** Each key with its entry's value. */
  ghost function ToMap<K(!new), V>(entries: seq<Entry<K, V>>): map<K, V>
    requires DistinctKeys(entries)
  {
    map i | 0 <= i < |entries| :: entries[i].key := entries[i].value
  }

  /** A key is in the map exactly when an entry has it, and its value is that entry's. */
  lemma ToMapMeaning<K(!new), V>(entries: seq<Entry<K, V>>, key: K)
    requires DistinctKeys(entries)
    ensures key in ToMap(entries) <==> exists i :: 0 <= i < |entries| && entries[i].key == key
    ensures forall i :: 0 <= i < |entries| && entries[i].key == key ==>
              key in ToMap(entries) && ToMap(entries)[key] == entries[i].value
  {
    forall i | 0 <= i < |entries| && entries[i].key == key
      ensures key in ToMap(entries) && ToMap(entries)[key] == entries[i].value
    {
      var m := ToMap(entries);
      var j :| 0 <= j < |entries| && entries[j].key == key && m[key] == entries[j].value;
    }
  }

  lemma AppendToMap<K(!new), V>(entries: seq<Entry<K, V>>, e: Entry<K, V>)
    requires DistinctKeys(entries) && forall i :: 0 <= i < |entries| ==> entries[i].key != e.key
    ensures DistinctKeys(entries + [e]) && ToMap(entries + [e]) == ToMap(entries)[e.key := e.value]
  {
    var r := entries + [e];
    assert forall i :: 0 <= i < |entries| ==> r[i] == entries[i];
    assert r[|entries|] == e;
    forall k ensures k in ToMap(r) <==> k in ToMap(entries)[e.key := e.value] {
      if k in ToMap(entries) {
        var i :| 0 <= i < |entries| && entries[i].key == k;
        assert r[i].key == k;
      }
    }
  }

  lemma OverwriteInMap<K(!new), V>(entries: seq<Entry<K, V>>, i: nat, e: Entry<K, V>)
    requires DistinctKeys(entries) && i < |entries| && entries[i].key == e.key
    ensures DistinctKeys(entries[i := e]) && ToMap(entries[i := e]) == ToMap(entries)[e.key := e.value]
  {
    var r := entries[i := e];
    assert forall j :: 0 <= j < |r| ==> r[j].key == entries[j].key;
    assert r[i] == e;
    forall k ensures k in ToMap(r) <==> k in ToMap(entries)[e.key := e.value] {
      if k in ToMap(entries) {
        var j :| 0 <= j < |entries| && entries[j].key == k;
        assert r[j].key == k;
      }
    }
  }

  /** Deletion by moving the last entry into the hole. */
  ghost function SwapDeleted<K, V>(entries: seq<Entry<K, V>>, i: nat): seq<Entry<K, V>>
    requires i < |entries|
  {
    entries[i := entries[|entries| - 1]][..|entries| - 1]
  }

  lemma SwapDeletedAt<K, V>(entries: seq<Entry<K, V>>, i: nat)
    requires i < |entries|
    ensures |SwapDeleted(entries, i)| == |entries| - 1
    ensures forall j :: 0 <= j < |entries| - 1 ==>
              SwapDeleted(entries, i)[j] == if j == i then entries[|entries| - 1] else entries[j]
  {}

  lemma SwapDeleteFromMap<K(!new), V>(entries: seq<Entry<K, V>>, i: nat)
    requires DistinctKeys(entries) && i < |entries|
    ensures DistinctKeys(SwapDeleted(entries, i)) && ToMap(SwapDeleted(entries, i)) == ToMap(entries) - {entries[i].key}
  {
    var r, last := SwapDeleted(entries, i), |entries| - 1;
    SwapDeletedAt(entries, i);
    hide SwapDeleted;
    forall k ensures k in ToMap(r) <==> k in ToMap(entries) - {entries[i].key} {
      if k in ToMap(entries) && k != entries[i].key {
        var j :| 0 <= j < |entries| && entries[j].key == k;
        assert r[if j == last then i else j].key == k;
      }
    }
  }

  class HashMap<K(!new, ==), V> {
    /** stbds_hash_bytes or stbds_hash_string: any function of the key and the table's seed. */
    const hashOf: (K, nat) -> nat
    /** The value of stbds_hash_seed when the first table is made. */
    const firstSeed: nat
    var entries: seq<Entry<K, V>>
    var table: HashIndex?
    /**
     Slots initialised plus slots scanned by rehashing, over the life of the map;
     the probes for a new slot do not count.
     */
    ghost var work: nat

    /** Stored hashes are at least 2, leaving 0 and 1 for empty and deleted slots. */
    function StoredHash(key: K, seed: nat): (s: nat)
      ensures s >= 2 && (hashOf(key, seed) >= 2 ==> s == hashOf(key, seed))
      ensures hashOf(key, seed) < 2 ==> s == hashOf(key, seed) + 2
    {
      var h := hashOf(key, seed);
      if h < 2 then h + 2 else h
    }

    /** The indices in the table are hashed by the keys of the entries they name, and those keys differ. */
    ghost predicate Keyed(t: HashIndex)
      reads this, t
    {
      && IndexesBelow(t, |entries|)
      && (forall i :: i in t.own ==> t.own[i].hash == StoredHash(entries[i].key, t.seed))
      && (forall i, j :: i in t.own && j in t.own && i != j ==> entries[i].key != entries[j].key)
    }

    /** A sound table that holds every entry once. */
    ghost predicate Indexed(t: HashIndex)
      reads this, t, t.hash, t.index
    {
      && t.Valid() && Keyed(t)
      && (forall i :: 0 <= i < |entries| ==> i in t.own)
      && t.usedCount == |entries|
    }

    ghost predicate Valid()
      reads this, if table == null then {} else table.Parts()
    {
      if table == null then entries == [] else Indexed(table) && table.Steady()
    }

    ghost function Balance(): nat
      reads this, table
    {
      if table == null then 44 else Savings(table.slotCount, table.usedCount, table.tombstoneCount)
    }

    /** The abstract map: each key with its entry's value. */
    ghost function Contents(): map<K, V>
      requires Valid()
      reads this, if table == null then {} else table.Parts()
    {
      assert DistinctKeys(entries);
      ToMap(entries)
    }

    constructor (hashOf: (K, nat) -> nat, firstSeed: nat)
      ensures Valid() && Contents() == map[] && work == 0 && table == null
      ensures this.hashOf == hashOf && this.firstSeed == firstSeed
    {
      this.hashOf, this.firstSeed := hashOf, firstSeed;
      entries, table, work := [], null, 0;
    }

    /** The slot of key, or -1 if no entry in the table has it. */
    method FindSlot(t: HashIndex, key: K) returns (slot: int)
      requires t.Valid() && Keyed(t)
      ensures slot >= 0 ==> slot < t.slotCount && t.index[slot] in t.own && t.own[t.index[slot]].slot == slot
                            && entries[t.index[slot]].key == key
      ensures slot < 0 ==> slot == -1 && forall i :: i in t.own ==> entries[i].key != key
    {
      var h := StoredHash(key, t.seed);
      var o, tombstone;
      ghost var td, dist;
      o, tombstone, td, dist := Search(t, entries, key, h);
      if o.Match? {
        MatchOwned(t, entries, key, h, o.slot);
        return o.slot;
      }
      forall i | i in t.own ensures entries[i].key != key {
        if entries[i].key == key { VacantMeansAbsent(t, entries, key, h, dist, i); }
      }
      return -1;
    }

    /** The position of key's entry, or -1. */
    method GetIndex(key: K) returns (i: int)
      requires Valid()
      ensures if key in Contents()
              then 0 <= i < |entries| && entries[i].key == key && Contents()[key] == entries[i].value
              else i == -1
      ensures i == -1 ==> forall j :: 0 <= j < |entries| ==> entries[j].key != key
    {
      if table == null {
        return -1;
      }
      var slot := FindSlot(table, key);
      if slot < 0 {
        return -1;
      }
      i := table.index[slot];
    }

    method FirstTable()
      requires Valid() && table == null
      modifies this`table, this`work
      ensures Valid() && table != null && fresh(table.Parts()) && table.usedCount < table.usedCountThreshold
      ensures table.slotCount == 8 && table.seed == firstSeed && work == old(work) + 8
      ensures work + Balance() <= old(work + Balance())
    {
      var t := new HashIndex.Empty(BUCKET, firstSeed);
      assert TableSize(BUCKET);
      EmptyTable(t.hash[..], t.index[..]);
      AllEmptyCounts(t.hash[..]);
      table := t;
      work := work + BUCKET;
    }

    method DoubleTable()
      requires Valid() && table != null && table.usedCount >= table.usedCountThreshold
      modifies this`table, this`work
      ensures Valid() && table != null && fresh(table.Parts()) && table.usedCount < table.usedCountThreshold
      ensures table.slotCount == 2 * old(table.slotCount) && table.seed == old(table.seed)
      ensures work == old(work) + table.slotCount + old(table.slotCount)
      ensures work + Balance() <= old(work + Balance())
    {
      hide TableOk, Live, Dead, Savings;
      TableSizes(table.slotCount);
      SavedForDoubling(table.slotCount, table.usedCount, table.tombstoneCount);
      var t;
      ghost var slots;
      t, slots := Rehash(table.slotCount * 2, table);
      work := work + slots;
      table := t;
    }

    /** stbds_hmput_key's first step: make the table, or double it once it is three quarters full. */
    method Grow()
      requires Valid()
      modifies this`table, this`work
      ensures Valid() && table != null && table.usedCount < table.usedCountThreshold
      ensures table == old(table) || fresh(table.Parts())
      ensures old(table) == null ==> table.slotCount == 8 && table.seed == firstSeed
      ensures old(table) != null ==>
                var n := old(table.slotCount);
                && table.slotCount == (if old(table.usedCount) >= n - n / 4 then 2 * n else n)
                && table.seed == old(table.seed)
      ensures work == old(work) + (if table == old(table) then 0
                                   else table.slotCount + (if old(table) == null then 0 else old(table.slotCount)))
      ensures work + Balance() <= old(work + Balance())
    {
      hide Savings;
      if table == null {
        FirstTable();
      } else if table.usedCount >= table.usedCountThreshold {
        DoubleTable();
      }
    }

    /** Appends an entry and stores its index at the position the search ended at. */
    method StoreNew(t: HashIndex, slot: nat, tombstone: int, ghost td: nat, ghost dist: nat, key: K, value: V)
      requires Valid() && table == t && t.usedCount < t.usedCountThreshold
      requires var h := StoredHash(key, t.seed);
               && slot < t.slotCount && t.hash[slot] == HASH_EMPTY && dist < t.slotCount
                   && Probe(h, t.slotCount, dist) == slot
               && Busy(t.hash[..], h, dist) && TombstoneOk(t.hash[..], h, tombstone, td, dist)
      requires forall i :: 0 <= i < |entries| ==> entries[i].key != key
      modifies this`entries, t, t.hash, t.index
      ensures Valid() && entries == old(entries) + [Entry(key, value)]
      ensures var p := if tombstone >= 0 then tombstone else slot;
              t.hash[p] == StoredHash(key, t.seed) && t.index[p] == |old(entries)|
      ensures Balance() <= old(Balance()) + 12
    {
      hide TableOk, Live, Dead, Probe;
      var h := StoredHash(key, t.seed);
      var pos := slot;
      ghost var d := dist;
      if tombstone >= 0 {
        pos, d := tombstone, td;
      }
      var i := |entries|;
      Occupy(t, pos, h, i, d);
      entries := entries + [Entry(key, value)];
    }

    /** Sets key's value, appending an entry if there is none. */
    method Put(key: K, value: V)
      requires Valid()
      modifies this, if table == null then {} else table.Parts()
      ensures Valid() && Contents() == old(Contents())[key := value]
      ensures if key in old(Contents())
              then
                exists i ::
                  && 0 <= i < |old(entries)| && old(entries)[i].key == key
                  && entries == old(entries)[i := Entry(key, value)]
              else entries == old(entries) + [Entry(key, value)]
      ensures table != null && (table == old(table) || fresh(table.Parts()))
      ensures table.slotCount == if old(table) == null then 8
                                 else
                                   var n := old(table.slotCount);
                                   if old(table.usedCount) >= n - n / 4 then 2 * n else n
      ensures work == old(work) + (if table == old(table) then 0
                                   else table.slotCount + (if old(table) == null then 0 else old(table.slotCount)))
      ensures work + Balance() <= old(work + Balance()) + 12
    {
      hide TableOk, Live, Dead, Savings, Probe, Busy, ToMap;
      ghost var before := entries;
      assert DistinctKeys(before);
      Grow();
      var t := table;
      var h := StoredHash(key, t.seed);
      var o, tombstone;
      ghost var td, dist;
      o, tombstone, td, dist := Search(t, entries, key, h);
      if o.Match? {
        MatchOwned(t, entries, key, h, o.slot);
        var i := t.index[o.slot];
        There(before, i);
        Overwrite(i, key, value);
        return;
      }
      forall i | 0 <= i < |entries| ensures entries[i].key != key {
        if entries[i].key == key { VacantMeansAbsent(t, entries, key, h, dist, i); }
      }
      NotThere(before, key);
      AppendToMap(before, Entry(key, value));
      StoreNew(t, o.slot, tombstone, td, dist, key, value);
    }

    /** Replaces the value of an entry; the table does not change. */
    method Overwrite(i: nat, key: K, value: V)
      requires Valid() && i < |entries| && entries[i].key == key
      modifies this`entries
      ensures Valid() && entries == old(entries)[i := Entry(key, value)]
      ensures Contents() == old(Contents())[key := value]
    {
      hide TableOk, Live, Dead, ToMap;
      ghost var before := entries;
      assert DistinctKeys(before);
      OverwriteInMap(entries, i, Entry(key, value));
      entries := entries[i := Entry(key, value)];
    }

    /** Moves the last entry into the hole at gone, which the table does not list, and shortens the array. */
    method MoveLast(t: HashIndex, gone: int)
      requires t.Valid() && Keyed(t) && table == t && t.usedCount == |entries| - 1
      requires 0 <= gone < |entries| - 1 && gone !in t.own
      requires forall i :: 0 <= i < |entries| && i != gone ==> i in t.own
      modifies this`entries, t, t.hash, t.index
      ensures Indexed(t)
      ensures |entries| == |old(entries)| - 1
      ensures forall j :: 0 <= j < |entries| ==>
                entries[j] == if j == gone then old(entries)[|old(entries)| - 1] else old(entries)[j]
      ensures t.usedCount == old(t.usedCount) && t.tombstoneCount == old(t.tombstoneCount)
    {
      hide TableOk, Live, Dead;
      var last := |entries| - 1;
      assert last in t.own;
      entries := entries[gone := entries[last]];
      var moved := FindSlot(t, entries[gone].key);
      assert moved >= 0 && t.index[moved] == last;
      Rename(t, moved, last, gone);
      entries := entries[..last];
    }

    /**
     Takes index `gone` out of the table and the array: the last entry moves into
     the hole, and the slot found for its key is the one that named the last index.
     */
    method RemoveAt(t: HashIndex, slot: nat, gone: int)
      requires Indexed(t) && table == t && slot < t.slotCount && gone in t.own && t.own[gone].slot == slot
      modifies this`entries, t, t.hash, t.index
      ensures Indexed(t) && 0 <= gone < |old(entries)|
      ensures |entries| == |old(entries)| - 1
      ensures forall j :: 0 <= j < |entries| ==>
                entries[j] == if j == gone then old(entries)[|old(entries)| - 1] else old(entries)[j]
      ensures t.usedCount == old(t.usedCount) - 1 && t.tombstoneCount == old(t.tombstoneCount) + 1
    {
      hide TableOk, Live, Dead;
      var last := |entries| - 1;
      Vacate(t, slot, gone);
      if gone != last {
        MoveLast(t, gone);
      } else {
        entries := entries[..last];
      }
    }

    method HalveTable()
      requires table != null && Indexed(table) && table.slotCount > BUCKET
      requires table.usedCount == table.usedCountShrinkThreshold - 1
      modifies this`table, this`work
      ensures Valid() && table != null && fresh(table.Parts())
      ensures table.slotCount == old(table.slotCount) / 2 && table.tombstoneCount == 0 && table.seed == old(table.seed)
      ensures work == old(work) + table.slotCount + old(table.slotCount)
      ensures work + Balance() <= old(work + Balance())
    {
      hide TableOk, Live, Dead, Savings;
      TableSizes(table.slotCount);
      SavedForHalving(table.slotCount, table.usedCount, table.tombstoneCount);
      var t;
      ghost var slots;
      t, slots := Rehash(table.slotCount / 2, table);
      work := work + slots;
      table := t;
    }

    method RebuildTable()
      requires table != null && Indexed(table) && table.tombstoneCount > table.tombstoneCountThreshold
      requires table.usedCountShrinkThreshold <= table.usedCount <= table.usedCountThreshold
      modifies this`table, this`work
      ensures Valid() && table != null && fresh(table.Parts())
      ensures table.slotCount == old(table.slotCount) && table.tombstoneCount == 0 && table.seed == old(table.seed)
      ensures work == old(work) + table.slotCount + old(table.slotCount)
      ensures work + Balance() <= old(work + Balance())
    {
      hide TableOk, Live, Dead, Savings;
      SavedForRebuild(table.slotCount, table.usedCount, table.tombstoneCount);
      var t;
      ghost var slots;
      t, slots := Rehash(table.slotCount, table);
      work := work + slots;
      table := t;
    }

    /** Halves the table below a quarter, rebuilds it when tombstones pile up. */
    method Settle()
      requires table != null && Indexed(table)
      requires table.usedCountShrinkThreshold <= table.usedCount + 1 && table.usedCount <= table.usedCountThreshold
      requires table.tombstoneCount <= table.tombstoneCountThreshold + 1
      modifies this`table, this`work
      ensures Valid() && table != null && (table == old(table) || fresh(table.Parts()))
      ensures var n := old(table.slotCount);
              if n > 8 && old(table.usedCount) < n / 4
              then table.slotCount == n / 2 && table.tombstoneCount == 0
              else if old(table.tombstoneCount) > n / 8 + n / 16
              then table.slotCount == n && table.tombstoneCount == 0
              else table == old(table)
      ensures table.seed == old(table.seed)
      ensures work == old(work) + (if table == old(table) then 0 else table.slotCount + old(table.slotCount))
      ensures work + Balance() <= old(work + Balance())
    {
      hide TableOk, Live, Dead, Savings;
      if table.usedCount < table.usedCountShrinkThreshold && table.slotCount > BUCKET {
        HalveTable();
      } else if table.tombstoneCount > table.tombstoneCountThreshold {
        RebuildTable();
      }
    }

    /** Deletes the entry the slot names. */
    method DeleteAt(slot: nat, key: K)
      requires Valid() && table != null && slot < table.slotCount && table.index[slot] in table.own
      requires var gone := table.index[slot];
               table.own[gone].slot == slot && 0 <= gone < |entries| && entries[gone].key == key
      modifies this, table.Parts()
      ensures Valid() && table != null && Contents() == old(Contents()) - {key}
      ensures key in old(Contents())
      ensures var gone := old(table.index[slot]);
              && |entries| == |old(entries)| - 1
              && forall j :: 0 <= j < |entries| ==>
                   entries[j] == if j == gone then old(entries)[|old(entries)| - 1] else old(entries)[j]
      ensures var n := old(table.slotCount);
              table.slotCount == if n > 8 && old(table.usedCount) - 1 < n / 4 then n / 2 else n
      ensures table == old(table) || fresh(table.Parts())
      ensures work == old(work) + (if table == old(table) then 0 else table.slotCount + old(table.slotCount))
      ensures work + Balance() <= old(work + Balance()) + 24
    {
      hide TableOk, Live, Dead, ToMap, Savings, SwapDeleted;
      ghost var before := entries;
      var gone := table.index[slot];
      assert DistinctKeys(before);
      There(before, gone);
      SwapDeleteFromMap(before, gone);
      SwapDeletedAt(before, gone);
      SavedByDelete(table.slotCount, table.usedCount, table.tombstoneCount);
      RemoveAt(table, slot, gone);
      assert entries == SwapDeleted(before, gone);
      Settle();
    }

    /** Deletes key's entry if there is one; the table shrinks by half below a quarter. */
    method Delete(key: K) returns (deleted: bool)
      requires Valid()
      modifies this, if table == null then {} else table.Parts()
      ensures Valid() && Contents() == old(Contents()) - {key}
      ensures deleted <==> key in old(Contents())
      ensures if deleted
              then
                exists i ::
                  && 0 <= i < |old(entries)| && old(entries)[i].key == key && |entries| == |old(entries)| - 1
                  && forall j :: 0 <= j < |entries| ==>
                       entries[j] == if j == i then old(entries)[|old(entries)| - 1] else old(entries)[j]
              else entries == old(entries)
      ensures deleted ==>
                && old(table) != null && table != null
                && var n := old(table.slotCount);
                   table.slotCount == if n > 8 && old(table.usedCount) - 1 < n / 4 then n / 2 else n
      ensures !deleted ==> table == old(table) && work == old(work)
      ensures deleted && table != old(table) ==> work == old(work) + table.slotCount + old(table.slotCount)
      ensures table == old(table) || (table != null && fresh(table.Parts()))
      ensures work + Balance() <= old(work + Balance()) + 24
    {
      hide TableOk, Live, Dead, ToMap, Savings;
      ghost var before := entries;
      assert DistinctKeys(before);
      if table == null {
        NotThere(before, key);
        return false;
      }
      var slot := FindSlot(table, key);
      if slot < 0 {
        NotThere(before, key);
        return false;
      }
      DeleteAt(slot, key);
      return true;
    }
  }

  lemma NotThere<K(!new), V>(entries: seq<Entry<K, V>>, key: K)
    requires DistinctKeys(entries) && forall i :: 0 <= i < |entries| ==> entries[i].key != key
    ensures key !in ToMap(entries) && ToMap(entries) - {key} == ToMap(entries)
  {}

  lemma There<K(!new), V>(entries: seq<Entry<K, V>>, i: int)
    requires DistinctKeys(entries) && 0 <= i < |entries|
    ensures entries[i].key in ToMap(entries)
  {}

  lemma SavedByDelete(n: nat, used: nat, tombstones: nat)
    requires used > 0
    ensures Savings(n, used - 1, tombstones + 1) <= Savings(n, used, tombstones) + 24
  {}

  lemma SavedForHalving(n: nat, used: nat, tombstones: nat)
    requires n % 16 == 0 && n >= 16 && used == n / 4 - 1
    ensures n / 2 + n + Savings(n / 2, used, 0) <= Savings(n, used, tombstones)
  {}

  lemma SavedForRebuild(n: nat, used: nat, tombstones: nat)
    requires n % 8 == 0 && n >= 8 && tombstones > n / 8 + n / 16
    ensures 2 * n + Savings(n, used, 0) <= Savings(n, used, tombstones)
  {}

  lemma SavedForDoubling(n: nat, used: nat, tombstones: nat)
    requires n % 8 == 0 && used == n - n / 4
    ensures 3 * n + Savings(2 * n, used, 0) <= Savings(n, used, tombstones)
  {}

  lemma MatchOwned<K, V>(t: HashIndex, entries: seq<Entry<K, V>>, key: K, h: nat, slot: nat)
    requires t.Valid() && h >= 2 && slot < t.slotCount && MatchAt(t.hash[..], t.index[..], entries, key, h, slot)
    ensures t.index[slot] in t.own && t.own[t.index[slot]].slot == slot && 0 <= t.index[slot] < |entries|
            && entries[t.index[slot]].key == key
  {
    assert SlotOk(t.hash[..], t.index[..], t.own, slot);
  }

  /** One call of the public interface. */
  datatype Op<K, V> = PutOp(key: K, value: V) | DeleteOp(key: K)

  /** What a run means for the abstract map. */
  ghost function MapAfter<K, V>(m: map<K, V>, ops: seq<Op<K, V>>): map<K, V> {
    if ops == [] then m
    else
      var m' := MapAfter(m, ops[..|ops| - 1]);
      match ops[|ops| - 1]
      case PutOp(k, v) => m'[k := v]
      case DeleteOp(k) => m' - {k}
  }

  /** What a run leaves under a key: what its last operation on that key says, else what was there before. */
  lemma LastOnKey<K, V>(m: map<K, V>, ops: seq<Op<K, V>>, key: K)
    ensures forall j :: 0 <= j < |ops| && ops[j].key == key && (forall i :: j < i < |ops| ==> ops[i].key != key) ==>
              (ops[j].PutOp? <==> key in MapAfter(m, ops))
              && (ops[j].PutOp? ==> MapAfter(m, ops)[key] == ops[j].value)
    ensures (forall i :: 0 <= i < |ops| ==> ops[i].key != key) ==>
              && (key in MapAfter(m, ops) <==> key in m)
              && (key in m ==> MapAfter(m, ops)[key] == m[key])
  {
    hide MapAfter;
    forall j | 0 <= j < |ops| && ops[j].key == key && (forall i :: j < i < |ops| ==> ops[i].key != key)
      ensures (ops[j].PutOp? <==> key in MapAfter(m, ops)) && (ops[j].PutOp? ==> MapAfter(m, ops)[key] == ops[j].value)
    {
      NotNamed(m, ops, j + 1, key);
      OperationAt(m, ops, j);
    }
    if forall i :: 0 <= i < |ops| ==> ops[i].key != key {
      NotNamed(m, ops, 0, key);
      NoOperation(m, ops);
    }
  }

  /** Operations on other keys leave a key alone. */
  lemma {:induction false} NotNamed<K, V>(m: map<K, V>, ops: seq<Op<K, V>>, n: nat, key: K)
    requires n <= |ops| && forall i :: n <= i < |ops| ==> ops[i].key != key
    ensures key in MapAfter(m, ops) <==> key in MapAfter(m, ops[..n])
    ensures key in MapAfter(m, ops) ==> MapAfter(m, ops)[key] == MapAfter(m, ops[..n])[key]
  {
    if n == |ops| {
      assert ops[..n] == ops;
    } else {
      var before := ops[..|ops| - 1];
      NotNamed(m, before, n, key);
      assert before[..n] == ops[..n];
    }
  }

  lemma OperationAt<K, V>(m: map<K, V>, ops: seq<Op<K, V>>, j: nat)
    requires j < |ops|
    ensures ops[j].PutOp? <==> ops[j].key in MapAfter(m, ops[..j + 1])
    ensures ops[j].PutOp? ==> MapAfter(m, ops[..j + 1])[ops[j].key] == ops[j].value
  {}

  lemma NoOperation<K, V>(m: map<K, V>, ops: seq<Op<K, V>>)
    ensures MapAfter(m, ops[..0]) == m
  {}

  /** Any run refines the abstract map; the slots initialised and scanned are linear in the number of calls. */
  method Run<K(!new, ==), V>(hashOf: (K, nat) -> nat, seed: nat, ops: seq<Op<K, V>>) returns (m: HashMap<K, V>)
    ensures m.Valid() && m.Contents() == MapAfter(map[], ops)
    ensures m.work <= 24 * |ops| + 48
  {
    hide TableOk, Live, Dead, Savings, ToMap;
    m := new HashMap(hashOf, seed);
    for n := 0 to |ops|
      invariant fresh(m) && (m.table == null || fresh(m.table.Parts()))
      invariant m.Valid() && m.Contents() == MapAfter(map[], ops[..n])
      invariant m.work + m.Balance() <= 24 * n + 44
    {
      assert ops[..n + 1][..n] == ops[..n];
      match ops[n]
      case PutOp(k, v) => m.Put(k, v);
      case DeleteOp(k) => var deleted := m.Delete(k);
    }
    assert ops[..|ops|] == ops;
  }
}
