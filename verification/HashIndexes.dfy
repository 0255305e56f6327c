/** The hash index of stb_ds.h and stbds_make_hash_index. */
module HashIndexes {
  import opened HashProbe
  import opened HashTable

  class HashIndex {
    const slotCount: nat
    const usedCountThreshold: nat
    const usedCountShrinkThreshold: nat
    const tombstoneCountThreshold: nat
    const seed: nat
    const hash: array<nat>
    const index: array<int>
    var usedCount: nat
    var tombstoneCount: nat
    /** Where each index in the table is. */
    ghost var own: map<int, Place>

    ghost function Parts(): set<object> { {this, hash, index} }

    ghost predicate Shape() {
      && TableSize(slotCount) && hash.Length == slotCount && index.Length == slotCount
      && usedCountThreshold == slotCount - slotCount / 4
      && tombstoneCountThreshold == slotCount / 8 + slotCount / 16
      && usedCountShrinkThreshold == (if slotCount <= BUCKET then 0 else slotCount / 4)
    }

    /** Exact counts, a sound table, and at least one empty slot to stop every search. */
    ghost predicate Valid()
      reads this, hash, index
    {
      && Shape()
      && TableOk(hash[..], index[..], own)
      && usedCount == Live(hash[..]) && tombstoneCount == Dead(hash[..])
      && usedCount + tombstoneCount < slotCount
    }

    /** What the thresholds guarantee between two operations. */
    ghost predicate Steady()
      reads this
    {
      && usedCountShrinkThreshold <= usedCount <= usedCountThreshold
      && tombstoneCount <= tombstoneCountThreshold
    }

    constructor Empty(slotCount: nat, seed: nat)
      requires TableSize(slotCount)
      ensures Shape() && this.slotCount == slotCount && this.seed == seed
      ensures usedCountThreshold == slotCount - slotCount / 4
      ensures tombstoneCountThreshold == slotCount / 8 + slotCount / 16
      ensures usedCountShrinkThreshold == if slotCount <= 8 then 0 else slotCount / 4
      ensures fresh(hash) && fresh(index)
      ensures usedCount == 0 && tombstoneCount == 0 && own == map[]
      ensures forall s :: 0 <= s < slotCount ==> hash[s] == HASH_EMPTY && index[s] == INDEX_EMPTY
    {
      this.slotCount := slotCount;
      tombstoneCount := 0;
      usedCount := 0;
      usedCountThreshold := slotCount - slotCount / 4;
      tombstoneCountThreshold := slotCount / 8 + slotCount / 16;
      usedCountShrinkThreshold := if slotCount <= BUCKET then 0 else slotCount / 4;
      this.seed := seed;
      hash := new nat[slotCount](_ => HASH_EMPTY);
      index := new int[slotCount](_ => INDEX_EMPTY);
      own := map[];
    }
  }

  /** The guard stbds_make_hash_index asserts: the thresholds leave a slot empty. */
  lemma ThresholdsLeaveRoom(t: HashIndex)
    requires t.Shape()
    ensures t.usedCountThreshold + t.tombstoneCountThreshold < t.slotCount
  {}

  lemma BusyNone(hs: seq<nat>, h: nat)
    requires TableSize(|hs|)
    ensures Busy(hs, h, 0)
  {}

  lemma SlotAtPosition(pos: nat, i: nat, z: nat)
    requires i < BUCKET && z < BUCKET && (z == pos % BUCKET + i || z + BUCKET == pos % BUCKET + i)
    ensures SlotAt(pos, i) == pos - pos % BUCKET + z
  {}

  /** Offset i into round r, found at position z of its bucket. */
  lemma SlotInRound(hs: seq<nat>, h: nat, r: nat, pos: nat, i: nat, z: nat)
    requires TableSize(|hs|) && pos == PosAt(h, |hs|, r) && i < BUCKET && z < BUCKET
    requires z == pos % BUCKET + i || z + BUCKET == pos % BUCKET + i
    requires Busy(hs, h, BUCKET * r + i) && Live(hs) + Dead(hs) < |hs|
    ensures pos - pos % BUCKET + z < |hs| && BUCKET * r + i < |hs|
    ensures Probe(h, |hs|, BUCKET * r + i) == pos - pos % BUCKET + z
    ensures ProbedHash(hs, h, BUCKET * r + i) == hs[pos - pos % BUCKET + z]
    ensures hs[pos - pos % BUCKET + z] != HASH_EMPTY ==> Busy(hs, h, BUCKET * r + i + 1)
  {
    hide SlotAt, Probe, PosAt, Live, Dead;
    SlotAtPosition(pos, i, z);
    RoundSlot(h, |hs|, r, i);
    SearchEnds(hs, h, BUCKET * r + i);
  }

  /** One round of the search for an empty slot. */
  method ScanForEmpty(hash: array<nat>, h: nat, pos: nat, ghost r: nat) returns (found: bool, s: nat, ghost dist: nat)
    requires TableSize(hash.Length) && Live(hash[..]) + Dead(hash[..]) < hash.Length
    requires pos == PosAt(h, hash.Length, r) && Busy(hash[..], h, BUCKET * r)
    ensures found ==> s < hash.Length && dist < hash.Length && hash[s] == HASH_EMPTY
                      && Probe(h, hash.Length, dist) == s && Busy(hash[..], h, dist)
    ensures !found ==> Busy(hash[..], h, BUCKET * r + BUCKET)
  {
    hide Busy, Probe, SlotAt, PosAt, TableSize, Live, Dead;
    var base, start := pos - pos % BUCKET, pos % BUCKET;
    for z := start to BUCKET
      invariant Busy(hash[..], h, BUCKET * r + (z - start))
    {
      SlotInRound(hash[..], h, r, pos, z - start, z);
      if hash[base + z] == HASH_EMPTY {
        return true, base + z, BUCKET * r + (z - start);
      }
    }
    for z := 0 to start
      invariant Busy(hash[..], h, BUCKET * r + (BUCKET - start + z))
    {
      SlotInRound(hash[..], h, r, pos, BUCKET - start + z, z);
      if hash[base + z] == HASH_EMPTY {
        return true, base + z, BUCKET * r + (BUCKET - start + z);
      }
    }
    return false, 0, 0;
  }

  /** The slot at which a search for hash h first finds nothing stored. */
  method FindEmpty(hash: array<nat>, h: nat) returns (s: nat, ghost dist: nat)
    requires TableSize(hash.Length) && Live(hash[..]) + Dead(hash[..]) < hash.Length
    ensures s < hash.Length && dist < hash.Length && hash[s] == HASH_EMPTY
    ensures Probe(h, hash.Length, dist) == s && Busy(hash[..], h, dist)
  {
    hide Busy, Probe, SlotAt, Live, Dead;
    var n := hash.Length;
    var pos := h % n;
    var step := BUCKET;
    ghost var r := 0;
    BusyNone(hash[..], h);
    while true
      invariant pos == PosAt(h, n, r) && step == BUCKET * (r + 1)
      invariant Busy(hash[..], h, BUCKET * r) && BUCKET * r < n
      decreases n - BUCKET * r
    {
      var found;
      found, s, dist := ScanForEmpty(hash, h, pos, r);
      if found {
        return;
      }
      pos := (pos + step) % n;
      step := step + BUCKET;
      r := r + 1;
      SearchEnds(hash[..], h, BUCKET * r);
    }
  }

  /** Stores (h, i) in t at the first empty slot of its probe path. */
  method StoreRehashed(t: HashIndex, h: nat, i: int)
    requires t.Shape() && TableOk(t.hash[..], t.index[..], t.own) && Live(t.hash[..]) + Dead(t.hash[..]) < t.slotCount
    requires h >= 2 && i >= 0 && i !in t.own
    modifies t`own, t.hash, t.index
    ensures TableOk(t.hash[..], t.index[..], t.own)
    ensures Live(t.hash[..]) == old(Live(t.hash[..])) + 1 && Dead(t.hash[..]) == old(Dead(t.hash[..]))
    ensures t.own.Keys == old(t.own.Keys) + {i} && t.own[i].hash == h
    ensures forall j :: j in old(t.own) ==> t.own[j] == old(t.own)[j]
  {
    hide TableOk, Live, Dead, Busy, Probe;
    ghost var hs, ix := t.hash[..], t.index[..];
    var s;
    ghost var dist;
    s, dist := FindEmpty(t.hash, h);
    StoreIndex(hs, ix, t.own, i, Place(h, s, dist));
    CountUpdate(hs, s, h);
    t.hash[s] := h;
    t.index[s] := i;
    t.own := t.own[i := Place(h, s, dist)];
    assert t.hash[..] == hs[s := h] && t.index[..] == ix[s := i];
  }

  /** The indices of ot found in its first s slots have been copied to t. */
  ghost predicate Copied(t: HashIndex, ot: HashIndex, s: nat)
    reads t, t.hash, t.index, ot, ot.hash
  {
    && t.Shape() && TableOk(t.hash[..], t.index[..], t.own)
    && s <= ot.hash.Length && Live(t.hash[..]) == Live(ot.hash[..s]) && Dead(t.hash[..]) == 0
    && (forall i :: i in t.own <==> i in ot.own && ot.own[i].slot < s)
    && (forall i :: i in t.own ==> t.own[i].hash == ot.own[i].hash)
  }

  lemma {:induction false} LiveMonotone(hs: seq<nat>, s: nat)
    requires s <= |hs|
    ensures Live(hs[..s]) <= Live(hs)
    ensures s < |hs| ==> Live(hs[..s + 1]) == Live(hs[..s]) + (if hs[s] >= 2 then 1 else 0)
  {
    if s < |hs| {
      assert hs[..s + 1][..s] == hs[..s];
      LiveMonotone(hs[..|hs| - 1], s);
      assert hs[..|hs| - 1][..s] == hs[..s];
    } else {
      assert hs[..s] == hs;
    }
  }

  lemma SlotAtCopy(ot: HashIndex, s: nat)
    requires ot.Valid() && s < ot.slotCount
    ensures ot.index[s] >= 0 <==> ot.hash[s] >= 2
    ensures ot.index[s] >= 0 ==>
              ot.index[s] in ot.own && ot.own[ot.index[s]].slot == s && ot.own[ot.index[s]].hash == ot.hash[s]
    ensures forall i :: i in ot.own && ot.own[i].slot == s ==> ot.index[s] == i >= 0
  {
    var hs, ix := ot.hash[..], ot.index[..];
    assert SlotOk(hs, ix, ot.own, s);
    if ot.hash[s] >= 2 { assert PlaceOk(hs, ix, ix[s], ot.own[ix[s]]); }
    forall i | i in ot.own && ot.own[i].slot == s ensures ot.index[s] == i >= 0 {
      assert PlaceOk(hs, ix, i, ot.own[i]);
    }
  }

  method CopySlot(t: HashIndex, ot: HashIndex, s: nat)
    requires ot.Valid() && s < ot.slotCount && Copied(t, ot, s) && ot.usedCount < t.slotCount
    requires t != ot && t.hash != ot.hash && t.index != ot.index
    modifies t`own, t.hash, t.index
    ensures Copied(t, ot, s + 1)
  {
    hide Live, Dead, TableOk;
    SlotAtCopy(ot, s);
    LiveMonotone(ot.hash[..], s);
    LiveMonotone(ot.hash[..], s + 1);
    assert ot.hash[..][..s] == ot.hash[..s] && ot.hash[..][..s + 1] == ot.hash[..s + 1];
    ghost var before := ot.hash[..];
    if ot.index[s] >= 0 {
      StoreRehashed(t, ot.hash[s], ot.index[s]);
      assert ot.hash[..] == before;
      assert ot.hash[..s + 1] == before[..s + 1];
    }
  }

  lemma StartCopy(t: HashIndex, ot: HashIndex)
    requires t.Shape() && ot.Valid() && t.own == map[]
    requires forall s :: 0 <= s < t.slotCount ==> t.hash[s] == HASH_EMPTY && t.index[s] == INDEX_EMPTY
    ensures Copied(t, ot, 0)
  {
    EmptyTable(t.hash[..], t.index[..]);
    AllEmptyCounts(t.hash[..]);
    assert ot.hash[..0] == [];
  }

  /** Some slot of t holds the pair (h, i). */
  ghost predicate Holds(t: HashIndex, h: nat, i: int)
    requires t.Shape()
    reads t.hash, t.index
  {
    exists s :: 0 <= s < t.slotCount && t.hash[s] == h && t.index[s] == i >= 0
  }

  /** A pair is held by one slot only, the one its index owns. */
  lemma HoldsMeansOwns(t: HashIndex, h: nat, i: int)
    requires t.Valid()
    ensures Holds(t, h, i) <==> i in t.own && t.own[i].hash == h
    ensures forall s :: 0 <= s < t.slotCount && t.index[s] == i >= 0 ==> i in t.own && t.own[i].slot == s
  {
    var hs, ix := t.hash[..], t.index[..];
    if i in t.own { assert PlaceOk(hs, ix, i, t.own[i]); }
    forall s | 0 <= s < t.slotCount && t.index[s] == i >= 0 ensures i in t.own && t.own[i].slot == s {
      assert SlotOk(hs, ix, t.own, s);
    }
  }

  lemma SamePairs(t: HashIndex, t': HashIndex)
    requires t.Valid() && t'.Valid() && SamePlaces(t.own, t'.own)
    ensures forall h, i :: Holds(t, h, i) <==> Holds(t', h, i)
  {
    hide Holds, TableOk;
    forall h, i ensures Holds(t, h, i) <==> Holds(t', h, i) {
      HoldsMeansOwns(t, h, i);
      HoldsMeansOwns(t', h, i);
    }
  }

  /** The same indices under the same hashes. */
  ghost predicate SamePlaces(own: map<int, Place>, own': map<int, Place>) {
    own'.Keys == own.Keys && forall i :: i in own ==> own'[i].hash == own[i].hash
  }

  lemma EndCopy(t: HashIndex, ot: HashIndex)
    requires ot.Valid() && Copied(t, ot, ot.slotCount) && ot.usedCount < t.slotCount
    ensures SamePlaces(ot.own, t.own) && Live(t.hash[..]) == ot.usedCount && Dead(t.hash[..]) == 0
  {
    assert ot.hash[..ot.slotCount] == ot.hash[..];
    forall i ensures i in t.own.Keys <==> i in ot.own.Keys {
      if i in ot.own { assert PlaceOk(ot.hash[..], ot.index[..], i, ot.own[i]); }
      assert i in t.own <==> i in ot.own && ot.own[i].slot < ot.slotCount;
    }
    assert t.own.Keys == ot.own.Keys;
  }

  /**
   A table of the given size holding exactly the old table's (hash, index) pairs
   and no tombstone; `slots` counts the slots initialised and the slots scanned.
   */
  method Rehash(slotCount: nat, ot: HashIndex) returns (t: HashIndex, ghost slots: nat)
    requires TableSize(slotCount) && ot.Valid() && ot.usedCount < slotCount
    ensures fresh(t) && fresh(t.hash) && fresh(t.index)
    ensures t.Valid() && t.slotCount == slotCount && t.seed == ot.seed
    ensures t.usedCount == ot.usedCount && t.tombstoneCount == 0 && SamePlaces(ot.own, t.own)
    ensures forall h, i :: Holds(ot, h, i) <==> Holds(t, h, i)
    ensures slots == slotCount + ot.slotCount
  {
    hide TableOk, Live, Dead;
    t := new HashIndex.Empty(slotCount, ot.seed);
    slots := slotCount;
    StartCopy(t, ot);
    t.usedCount := ot.usedCount;
    for s := 0 to ot.slotCount
      invariant ot.Valid() && Copied(t, ot, s) && t.usedCount == ot.usedCount && t.tombstoneCount == 0
      invariant slots == slotCount + s
    {
      CopySlot(t, ot, s);
      slots := slots + 1;
    }
    EndCopy(t, ot);
    SamePairs(ot, t);
  }

  lemma {:induction false} DeadSlot(hs: seq<nat>, s: nat)
    requires s < |hs| && hs[s] == HASH_DELETED
    ensures Dead(hs) > 0
  {
    if s < |hs| - 1 { DeadSlot(hs[..|hs| - 1], s); }
  }

  /** Puts index i with hash h into a vacant or deleted slot on its probe path. */
  method Occupy(t: HashIndex, slot: nat, h: nat, i: int, ghost dist: nat)
    requires t.Valid() && t.Steady() && t.usedCount < t.usedCountThreshold && h >= 2 && i >= 0 && i !in t.own
    requires slot < t.slotCount && t.hash[slot] < 2 && dist < t.slotCount && Probe(h, t.slotCount, dist) == slot
             && Busy(t.hash[..], h, dist)
    modifies t, t.hash, t.index
    ensures t.Valid() && t.Steady() && t.usedCount == old(t.usedCount) + 1
    ensures t.tombstoneCount == old(t.tombstoneCount) - (if old(t.hash[slot]) == HASH_DELETED then 1 else 0)
    ensures t.own == old(t.own)[i := Place(h, slot, dist)] && t.hash[slot] == h && t.index[slot] == i
    ensures forall s :: 0 <= s < t.slotCount && s != slot ==>
              t.hash[s] == old(t.hash[s]) && t.index[s] == old(t.index[s])
  {
    hide TableOk, Live, Dead, Busy, Probe;
    ghost var hs, ix, own := t.hash[..], t.index[..], t.own;
    StoreIndex(hs, ix, own, i, Place(h, slot, dist));
    CountUpdate(hs, slot, h);
    if t.hash[slot] == HASH_DELETED {
      DeadSlot(hs, slot);
      t.tombstoneCount := t.tombstoneCount - 1;
    }
    t.usedCount := t.usedCount + 1;
    t.hash[slot] := h;
    t.index[slot] := i;
    t.own := own[i := Place(h, slot, dist)];
    assert t.hash[..] == hs[slot := h] && t.index[..] == ix[slot := i];
  }

  /** Turns the slot of index i into a tombstone; the table may then be past its tombstone threshold. */
  method Vacate(t: HashIndex, slot: nat, ghost i: int)
    requires t.Valid() && i in t.own && t.own[i].slot == slot && slot < t.slotCount
    modifies t, t.hash, t.index
    ensures t.Valid() && t.usedCount == old(t.usedCount) - 1 && t.tombstoneCount == old(t.tombstoneCount) + 1
    ensures t.own == old(t.own) - {i}
  {
    hide Live, Dead, Probe;
    ghost var hs, ix, own := t.hash[..], t.index[..], t.own;
    DropIndex(hs, ix, own, i);
    assert PlaceOk(hs, ix, i, own[i]);
    hide TableOk;
    CountUpdate(hs, slot, HASH_DELETED);
    t.usedCount := t.usedCount - 1;
    t.tombstoneCount := t.tombstoneCount + 1;
    t.hash[slot] := HASH_DELETED;
    t.index[slot] := INDEX_DELETED;
    t.own := own - {i};
    assert t.hash[..] == hs[slot := HASH_DELETED] && t.index[..] == ix[slot := INDEX_DELETED];
  }

  /** Lets the slot of index i name index j instead. */
  method Rename(t: HashIndex, slot: nat, ghost i: int, j: int)
    requires t.Valid() && i in t.own && t.own[i].slot == slot && slot < t.slotCount && j >= 0 && j !in t.own
    modifies t, t.index
    ensures t.Valid() && t.usedCount == old(t.usedCount) && t.tombstoneCount == old(t.tombstoneCount)
    ensures t.own == (old(t.own) - {i})[j := old(t.own)[i]]
  {
    hide TableOk, Live, Dead;
    ghost var hs, ix, own := t.hash[..], t.index[..], t.own;
    RenameIndex(hs, ix, own, i, j);
    t.index[slot] := j;
    t.own := (own - {i})[j := own[i]];
    assert t.hash[..] == hs && t.index[..] == ix[slot := j];
  }
}
