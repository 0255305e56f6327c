/** Searching the table for a key: stbds_hm_find_slot and the first half of stbds_hmput_key. */
module HashSearch {
  import opened HashProbe
  import opened HashTable
  import opened HashIndexes

  datatype Entry<K, V> = Entry(key: K, value: V)

  /** Every live slot names an entry. */
  ghost predicate IndexesBelow(t: HashIndex, size: nat)
    reads t
  {
    forall i :: i in t.own ==> 0 <= i < size
  }

  /** Slot s holds the key that is looked for. */
  ghost predicate MatchAt<K, V>(hs: seq<nat>, ix: seq<int>, entries: seq<Entry<K, V>>, key: K, h: nat, s: nat)
    requires s < |hs| && |ix| == |hs|
  {
    hs[s] == h && 0 <= ix[s] < |entries| && entries[ix[s]].key == key
  }

  ghost predicate ProbeMatches<K, V>(hs: seq<nat>, ix: seq<int>, entries: seq<Entry<K, V>>, key: K, h: nat, t: nat)
    requires TableSize(|hs|) && |ix| == |hs|
  {
    ProbeInRange(h, |hs|, t);
    MatchAt(hs, ix, entries, key, h, Probe(h, |hs|, t))
  }

  /** The first t slots of the search are neither empty nor the key's. */
  ghost predicate Missed<K, V>(hs: seq<nat>, ix: seq<int>, entries: seq<Entry<K, V>>, key: K, h: nat, t: nat)
    requires TableSize(|hs|) && |ix| == |hs|
  {
    && Busy(hs, h, t)
    && forall t' {:trigger ProbeMatches(hs, ix, entries, key, h, t')} :: 0 <= t' < t ==>
        !ProbeMatches(hs, ix, entries, key, h, t')
  }

  /** No slot among the first t a search for hash h looks at is deleted. */
  ghost predicate NoTombstone(hs: seq<nat>, h: nat, t: nat)
    requires TableSize(|hs|)
  {
    forall t' {:trigger ProbedHash(hs, h, t')} :: 0 <= t' < t ==> ProbedHash(hs, h, t') != HASH_DELETED
  }

  /** tombstone is the first deleted slot among the first t, or negative if there is none. */
  ghost predicate TombstoneOk(hs: seq<nat>, h: nat, tombstone: int, td: nat, t: nat)
    requires TableSize(|hs|)
  {
    if tombstone < 0 then NoTombstone(hs, h, t)
    else
      && tombstone < |hs| && td < t && td < |hs| && hs[tombstone] == HASH_DELETED
      && Probe(h, |hs|, td) == tombstone && NoTombstone(hs, h, td)
  }

  /** A tombstone remembered is one no earlier slot of the search could replace; without one there was none. */
  lemma TombstoneMeaning(hs: seq<nat>, h: nat, tombstone: int, td: nat, t: nat, t': nat)
    requires TableSize(|hs|) && TombstoneOk(hs, h, tombstone, td, t) && t' < t
    ensures 0 <= Probe(h, |hs|, t') < |hs|
    ensures tombstone < 0 ==> hs[Probe(h, |hs|, t')] != 1
    ensures tombstone >= 0 ==> tombstone < |hs| && hs[tombstone] == 1 && Probe(h, |hs|, td) == tombstone && td < t
    ensures tombstone >= 0 && t' < td ==> hs[Probe(h, |hs|, t')] != 1
  {
    hide Probe;
    ProbeInRange(h, |hs|, t');
    assert ProbedHash(hs, h, t') == hs[Probe(h, |hs|, t')];
  }

  datatype Outcome = Match(slot: nat) | Vacant(slot: nat) | NextRound

  /** One slot further the tombstone is the one remembered, or this slot if it is the first that is deleted. */
  lemma NextTombstone(hs: seq<nat>, h: nat, tombstone: int, td: nat, d: nat, s: nat)
    requires TableSize(|hs|) && TombstoneOk(hs, h, tombstone, td, d)
    requires d < |hs| && s < |hs| && Probe(h, |hs|, d) == s
    ensures tombstone >= 0 || hs[s] != HASH_DELETED ==> TombstoneOk(hs, h, tombstone, td, d + 1)
    ensures tombstone < 0 && hs[s] == HASH_DELETED ==> TombstoneOk(hs, h, s, d, d + 1)
  {
    hide Probe;
    assert ProbedHash(hs, h, d) == hs[s];
  }

  lemma MissedSlot<K, V>(t: HashIndex, entries: seq<Entry<K, V>>, key: K, h: nat, r: nat, pos: nat, i: nat, z: nat,
                         tombstone: int, td: nat)
    requires t.Valid() && IndexesBelow(t, |entries|) && h >= 2
    requires pos == PosAt(h, t.slotCount, r) && i < BUCKET && z < BUCKET
    requires z == pos % BUCKET + i || z + BUCKET == pos % BUCKET + i
    requires Missed(t.hash[..], t.index[..], entries, key, h, BUCKET * r + i)
    requires TombstoneOk(t.hash[..], h, tombstone, td, BUCKET * r + i)
    ensures pos - pos % BUCKET + z < t.slotCount && BUCKET * r + i < t.slotCount
    ensures Probe(h, t.slotCount, BUCKET * r + i) == pos - pos % BUCKET + z
    ensures var s, d := pos - pos % BUCKET + z, BUCKET * r + i;
            && (t.hash[s] == h ==> 0 <= t.index[s] < |entries|)
            && (t.hash[s] != HASH_EMPTY && (t.hash[s] != h || entries[t.index[s]].key != key) ==>
                  && Missed(t.hash[..], t.index[..], entries, key, h, d + 1)
                  && (tombstone >= 0 || t.index[s] != INDEX_DELETED ==>
                        TombstoneOk(t.hash[..], h, tombstone, td, d + 1))
                  && (tombstone < 0 && t.index[s] == INDEX_DELETED ==> TombstoneOk(t.hash[..], h, s, d, d + 1)))
  {
    var hs, ix := t.hash[..], t.index[..];
    hide Probe, PosAt, Live, Dead, Busy, TombstoneOk;
    var s, d := pos - pos % BUCKET + z, BUCKET * r + i;
    SlotInRound(hs, h, r, pos, i, z);
    NextTombstone(hs, h, tombstone, td, d, s);
    assert SlotOk(hs, ix, t.own, s);
    assert ProbeMatches(hs, ix, entries, key, h, d) <==> MatchAt(hs, ix, entries, key, h, s);
  }

  /** One round of a search: up to eight slots of one bucket. */
  method ScanBucket<K(==),
    V>(t: HashIndex, entries: seq<Entry<K, V>>, key: K, h: nat, pos: nat, ghost r: nat, tombstone0: int, ghost td0: nat)
    returns (o: Outcome, tombstone: int, ghost td: nat, ghost dist: nat)
    requires t.Valid() && IndexesBelow(t, |entries|) && h >= 2 && pos == PosAt(h, t.slotCount, r)
    requires Missed(t.hash[..], t.index[..], entries, key, h, BUCKET * r)
    requires TombstoneOk(t.hash[..], h, tombstone0, td0, BUCKET * r)
    ensures o.Match? ==> o.slot < t.slotCount && MatchAt(t.hash[..], t.index[..], entries, key, h, o.slot)
    ensures o.Vacant? ==>
              && o.slot < t.slotCount && t.hash[o.slot] == HASH_EMPTY
              && dist < t.slotCount && Probe(h, t.slotCount, dist) == o.slot
              && Missed(t.hash[..], t.index[..], entries, key, h, dist)
              && TombstoneOk(t.hash[..], h, tombstone, td, dist)
    ensures o.NextRound? ==>
              && Missed(t.hash[..], t.index[..], entries, key, h, BUCKET * r + BUCKET)
              && TombstoneOk(t.hash[..], h, tombstone, td, BUCKET * r + BUCKET)
  {
    hide Missed, TombstoneOk, Probe, PosAt, TableOk, Live, Dead;
    tombstone, td, dist := tombstone0, td0, 0;
    var base, start := pos - pos % BUCKET, pos % BUCKET;
    // from pos to the end of the bucket
    for z := start to BUCKET
      invariant Missed(t.hash[..], t.index[..], entries, key, h, BUCKET * r + (z - start))
      invariant TombstoneOk(t.hash[..], h, tombstone, td, BUCKET * r + (z - start))
    {
      MissedSlot(t, entries, key, h, r, pos, z - start, z, tombstone, td);
      var s := base + z;
      dist := BUCKET * r + (z - start);
      if t.hash[s] == h {
        if entries[t.index[s]].key == key {
          return Match(s), tombstone, td, dist;
        }
      } else if t.hash[s] == HASH_EMPTY {
        return Vacant(s), tombstone, td, dist;
      } else if tombstone < 0 {
        if t.index[s] == INDEX_DELETED {
          tombstone, td := s, dist;
        }
      }
    }
    // from the beginning of the bucket to pos
    for z := 0 to start
      invariant Missed(t.hash[..], t.index[..], entries, key, h, BUCKET * r + (BUCKET - start + z))
      invariant TombstoneOk(t.hash[..], h, tombstone, td, BUCKET * r + (BUCKET - start + z))
    {
      MissedSlot(t, entries, key, h, r, pos, BUCKET - start + z, z, tombstone, td);
      var s := base + z;
      dist := BUCKET * r + (BUCKET - start + z);
      if t.hash[s] == h {
        if entries[t.index[s]].key == key {
          return Match(s), tombstone, td, dist;
        }
      } else if t.hash[s] == HASH_EMPTY {
        return Vacant(s), tombstone, td, dist;
      } else if tombstone < 0 {
        if t.index[s] == INDEX_DELETED {
          tombstone, td := s, dist;
        }
      }
    }
    return NextRound, tombstone, td, dist;
  }

  lemma StartSearch<K, V>(t: HashIndex, entries: seq<Entry<K, V>>, key: K, h: nat)
    requires t.Valid()
    ensures Missed(t.hash[..], t.index[..], entries, key, h, 0) && TombstoneOk(t.hash[..], h, -1, 0, 0)
  {}

  lemma RoundEnds<K, V>(t: HashIndex, entries: seq<Entry<K, V>>, key: K, h: nat, d: nat)
    requires t.Valid() && Missed(t.hash[..], t.index[..], entries, key, h, d)
    ensures d < t.slotCount
  {
    SearchEnds(t.hash[..], h, d);
  }

  /** Searches until the key or an empty slot turns up, remembering the first tombstone on the way. */
  method Search<K(==), V>(t: HashIndex, entries: seq<Entry<K, V>>, key: K, h: nat)
    returns (o: Outcome, tombstone: int, ghost td: nat, ghost dist: nat)
    requires t.Valid() && IndexesBelow(t, |entries|) && h >= 2
    ensures !o.NextRound? && o.slot < t.slotCount
    ensures o.Match? ==> MatchAt(t.hash[..], t.index[..], entries, key, h, o.slot)
    ensures o.Vacant? ==>
              && t.hash[o.slot] == HASH_EMPTY && dist < t.slotCount && Probe(h, t.slotCount, dist) == o.slot
              && Missed(t.hash[..], t.index[..], entries, key, h, dist)
              && TombstoneOk(t.hash[..], h, tombstone, td, dist)
  {
    hide Missed, TombstoneOk, Probe, TableOk, Live, Dead, MatchAt;
    var n := t.slotCount;
    var pos := h % n;
    var step := BUCKET;
    ghost var r := 0;
    tombstone, td := -1, 0;
    StartSearch(t, entries, key, h);
    while true
      invariant pos == PosAt(h, n, r) && step == BUCKET * (r + 1)
      invariant Missed(t.hash[..], t.index[..], entries, key, h, BUCKET * r) && BUCKET * r < n
      invariant TombstoneOk(t.hash[..], h, tombstone, td, BUCKET * r)
      decreases n - BUCKET * r
    {
      o, tombstone, td, dist := ScanBucket(t, entries, key, h, pos, r, tombstone, td);
      if !o.NextRound? {
        return;
      }
      pos := (pos + step) % n;
      step := step + BUCKET;
      r := r + 1;
      RoundEnds(t, entries, key, h, BUCKET * r);
    }
  }

  /** An empty slot on its probe path means the key is in no entry of the table. */
  lemma VacantMeansAbsent<K, V>(t: HashIndex, entries: seq<Entry<K, V>>, key: K, h: nat, dist: nat, i: int)
    requires t.Valid() && IndexesBelow(t, |entries|) && i in t.own && t.own[i].hash == h
    requires Missed(t.hash[..], t.index[..], entries, key, h, dist) && dist < t.slotCount
    requires ProbedHash(t.hash[..], h, dist) == HASH_EMPTY
    ensures entries[i].key != key
  {
    var hs, ix := t.hash[..], t.index[..];
    assert PlaceOk(hs, ix, i, t.own[i]);
    var d := t.own[i].dist;
    assert ProbedHash(hs, h, d) == h;
    if d < dist {
      assert !ProbeMatches(hs, ix, entries, key, h, d);
    }
  }
}
