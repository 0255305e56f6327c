/** The slots of a hash index as values: what every table state satisfies and what each change keeps. */
module HashTable {
  import opened HashProbe

  const INDEX_EMPTY := -1
  const INDEX_DELETED := -2
  const HASH_EMPTY: nat := 0
  const HASH_DELETED: nat := 1

  /** Where an index lives: its stored hash, its slot, and how many slots a search passes before it. */
  datatype Place = Place(hash: nat, slot: nat, dist: nat)

  /** No slot among the first t a search for hash h looks at is empty. */
  ghost predicate Busy(hs: seq<nat>, h: nat, t: nat)
    requires TableSize(|hs|)
  {
    forall t' {:trigger ProbedHash(hs, h, t')} :: 0 <= t' < t ==> ProbedHash(hs, h, t') != HASH_EMPTY
  }

  ghost function ProbedHash(hs: seq<nat>, h: nat, t: nat): nat
    requires TableSize(|hs|)
  {
    ProbeInRange(h, |hs|, t);
    hs[Probe(h, |hs|, t)]
  }

  ghost predicate PlaceOk(hs: seq<nat>, ix: seq<int>, i: int, p: Place)
    requires TableSize(|hs|) && |ix| == |hs|
  {
    && i >= 0 && p.slot < |hs| && p.dist < |hs|
    && hs[p.slot] == p.hash >= 2 && ix[p.slot] == i
    && Probe(p.hash, |hs|, p.dist) == p.slot
    && Busy(hs, p.hash, p.dist)
  }

  /** A slot is empty, a tombstone, or the home of exactly one index. */
  ghost predicate SlotOk(hs: seq<nat>, ix: seq<int>, own: map<int, Place>, s: nat)
    requires |ix| == |hs| && s < |hs|
  {
    || (hs[s] == HASH_EMPTY && ix[s] == INDEX_EMPTY)
    || (hs[s] == HASH_DELETED && ix[s] == INDEX_DELETED)
    || (hs[s] >= 2 && ix[s] in own && own[ix[s]].slot == s)
  }

  /** The table holds exactly the indices of `own`, each reachable by its probe sequence. */
  ghost predicate TableOk(hs: seq<nat>, ix: seq<int>, own: map<int, Place>) {
    && TableSize(|hs|) && |ix| == |hs|
    && (forall i {:trigger PlaceOk(hs, ix, i, own[i])} :: i in own ==> PlaceOk(hs, ix, i, own[i]))
    && (forall s {:trigger SlotOk(hs, ix, own, s)} :: 0 <= s < |hs| ==> SlotOk(hs, ix, own, s))
  }

  ghost function Live(hs: seq<nat>): nat {
    if hs == [] then 0 else Live(hs[..|hs| - 1]) + (if hs[|hs| - 1] >= 2 then 1 else 0)
  }

  ghost function Dead(hs: seq<nat>): nat {
    if hs == [] then 0 else Dead(hs[..|hs| - 1]) + (if hs[|hs| - 1] == HASH_DELETED then 1 else 0)
  }

  lemma {:induction false} CountUpdate(hs: seq<nat>, s: nat, h: nat)
    requires s < |hs|
    ensures Live(hs[s := h]) == Live(hs) - (if hs[s] >= 2 then 1 else 0) + (if h >= 2 then 1 else 0)
    ensures Dead(hs[s := h]) == Dead(hs) - (if hs[s] == HASH_DELETED then 1 else 0)
            + (if h == HASH_DELETED then 1 else 0)
  {
    var last := |hs| - 1;
    if s == last {
      assert hs[s := h][..last] == hs[..last];
    } else {
      CountUpdate(hs[..last], s, h);
      assert hs[s := h][..last] == hs[..last][s := h];
    }
  }

  /** A table with fewer live and deleted slots than slots has an empty one. */
  lemma {:induction false} EmptyExists(hs: seq<nat>)
    requires Live(hs) + Dead(hs) < |hs|
    ensures exists s :: 0 <= s < |hs| && hs[s] == HASH_EMPTY
  {
    var last := |hs| - 1;
    if hs[last] != HASH_EMPTY {
      EmptyExists(hs[..last]);
      var s :| 0 <= s < |hs[..last]| && hs[..last][s] == HASH_EMPTY;
      assert hs[s] == HASH_EMPTY;
    }
  }

  lemma {:induction false} AllEmptyCounts(hs: seq<nat>)
    requires forall s :: 0 <= s < |hs| ==> hs[s] == HASH_EMPTY
    ensures Live(hs) == 0 && Dead(hs) == 0
  {
    if hs != [] { AllEmptyCounts(hs[..|hs| - 1]); }
  }

  /** Every search runs into an empty slot before it has looked at all slots. */
  lemma SearchEnds(hs: seq<nat>, h: nat, t: nat)
    requires TableSize(|hs|) && Live(hs) + Dead(hs) < |hs| && Busy(hs, h, t)
    ensures t < |hs|
  {
    EmptyExists(hs);
    var s :| 0 <= s < |hs| && hs[s] == HASH_EMPTY;
    var t0 := ProbeReachesAll(h, |hs|, s);
    assert ProbedHash(hs, h, t0) == HASH_EMPTY;
  }

  /** The i-th slot of round r, as the scanning loops address it. */
  lemma RoundSlot(h: nat, n: nat, r: nat, i: nat)
    requires TableSize(n) && i < BUCKET
    ensures Probe(h, n, BUCKET * r + i) == SlotAt(PosAt(h, n, r), i) < n
  {
    hide PosAt, SlotAt;
    ProbeInRange(h, n, BUCKET * r + i);
    assert (BUCKET * r + i) / BUCKET == r && (BUCKET * r + i) % BUCKET == i;
  }

  /** Filling a slot empties no other. */
  lemma BusyKept(hs: seq<nat>, s: nat, v: nat, h: nat, t: nat)
    requires TableSize(|hs|) && s < |hs| && v != HASH_EMPTY && Busy(hs, h, t)
    ensures Busy(hs[s := v], h, t)
  {
    var hs' := hs[s := v];
    forall t' {:trigger ProbedHash(hs', h, t')} | 0 <= t' < t ensures ProbedHash(hs', h, t') != HASH_EMPTY {
      assert ProbedHash(hs, h, t') != HASH_EMPTY;
      ProbeInRange(h, |hs|, t');
    }
  }

  /** Storing index i at the end of its probe path, in an empty slot or on a tombstone. */
  lemma StoreIndex(hs: seq<nat>, ix: seq<int>, own: map<int, Place>, i: int, p: Place)
    requires TableOk(hs, ix, own) && i >= 0 && i !in own
    requires p.slot < |hs| && p.dist < |hs| && p.hash >= 2 && Probe(p.hash, |hs|, p.dist) == p.slot
    requires hs[p.slot] < 2 && Busy(hs, p.hash, p.dist)
    ensures TableOk(hs[p.slot := p.hash], ix[p.slot := i], own[i := p])
  {
    var hs', ix', own' := hs[p.slot := p.hash], ix[p.slot := i], own[i := p];
    forall j | j in own' ensures PlaceOk(hs', ix', j, own'[j]) {
      if j == i {
        BusyKept(hs, p.slot, p.hash, p.hash, p.dist);
      } else {
        assert PlaceOk(hs, ix, j, own[j]);
        BusyKept(hs, p.slot, p.hash, own[j].hash, own[j].dist);
      }
    }
    forall s | 0 <= s < |hs'| ensures SlotOk(hs', ix', own', s) {
      assert SlotOk(hs, ix, own, s);
      if s != p.slot && hs[s] >= 2 { assert PlaceOk(hs, ix, ix[s], own[ix[s]]); }
    }
  }

  /** Turning the slot of index i into a tombstone. */
  lemma DropIndex(hs: seq<nat>, ix: seq<int>, own: map<int, Place>, i: int)
    requires TableOk(hs, ix, own) && i in own
    ensures own[i].slot < |hs|
    ensures TableOk(hs[own[i].slot := HASH_DELETED], ix[own[i].slot := INDEX_DELETED], own - {i})
  {
    assert PlaceOk(hs, ix, i, own[i]);
    var s0 := own[i].slot;
    var hs', ix', own' := hs[s0 := HASH_DELETED], ix[s0 := INDEX_DELETED], own - {i};
    forall j | j in own' ensures PlaceOk(hs', ix', j, own'[j]) {
      assert PlaceOk(hs, ix, j, own[j]);
      BusyKept(hs, s0, HASH_DELETED, own[j].hash, own[j].dist);
    }
    forall s | 0 <= s < |hs'| ensures SlotOk(hs', ix', own', s) {
      assert SlotOk(hs, ix, own, s);
    }
  }

  /** Renaming index i to a free index j: only its own slot changes. */
  lemma RenameIndex(hs: seq<nat>, ix: seq<int>, own: map<int, Place>, i: int, j: int)
    requires TableOk(hs, ix, own) && i in own && j >= 0 && j !in own
    ensures own[i].slot < |hs|
    ensures TableOk(hs, ix[own[i].slot := j], (own - {i})[j := own[i]])
  {
    assert PlaceOk(hs, ix, i, own[i]);
    var s0 := own[i].slot;
    var ix', own' := ix[s0 := j], (own - {i})[j := own[i]];
    forall k | k in own' ensures PlaceOk(hs, ix', k, own'[k]) {
      if k != j { assert PlaceOk(hs, ix, k, own[k]); }
    }
    forall s | 0 <= s < |hs| ensures SlotOk(hs, ix', own', s) {
      assert SlotOk(hs, ix, own, s);
    }
  }

  lemma EmptyTable(hs: seq<nat>, ix: seq<int>)
    requires TableSize(|hs|) && |ix| == |hs|
    requires forall s :: 0 <= s < |hs| ==> hs[s] == HASH_EMPTY && ix[s] == INDEX_EMPTY
    ensures TableOk(hs, ix, map[])
  {}
}
