/**
 The symbol table: asCSymbolTable, a packed array of entries and a map from each key
 to the positions that have it.
 */
module SymbolTables {
  import opened Sequences
  import opened SymbolLists

  /** The positions in `age` whose entry has key k, in the order of `age`. */
  ghost function OfKey(age: seq<nat>, entries: seq<Symbol>, keyOf: Symbol -> Name, k: Name): seq<nat> {
    if age == [] then []
    else
      (if age[0] < |entries| && keyOf(entries[age[0]]) == k then [age[0]] else [])
      + OfKey(age[1..], entries, keyOf, k)
  }

  /** `age` lists the positions 0 .. n - 1, each once. */
  ghost predicate Ages(age: seq<nat>, n: nat) {
    Distinct(age) && |age| == n && forall i: nat :: i in age <==> i < n
  }

  ghost predicate Bounded(age: seq<nat>, n: nat) { forall j :: 0 <= j < |age| ==> age[j] < n }

  lemma AgesBounded(age: seq<nat>, n: nat)
    requires Ages(age, n)
    ensures Bounded(age, n)
  {
    forall j | 0 <= j < |age| ensures age[j] < n { assert age[j] in age; }
  }

  lemma AgesAppend(age: seq<nat>, n: nat)
    requires Ages(age, n)
    ensures Ages(age + [n], n + 1)
  {
    AgesBounded(age, n);
    forall i: nat ensures i in age + [n] <==> i < n + 1 { assert i in age <==> i < n; }
  }

  lemma AgesMoved(age: seq<nat>, n: nat, idx: nat)
    requires Ages(age, n) && idx < n
    ensures Ages(Moved(age, idx, n - 1), n - 1)
  {
    assert idx in age;
    MovedElements(age, idx, n - 1, idx);
    var m := Moved(age, idx, n - 1);
    forall i: nat ensures i in m <==> i < n - 1 { AgesMovedAt(age, n, idx, i); }
    hide Moved;
  }

  lemma AgesMovedAt(age: seq<nat>, n: nat, idx: nat, i: nat)
    requires Ages(age, n) && idx < n
    ensures i in Moved(age, idx, n - 1) <==> i < n - 1
  {
    assert i in age <==> i < n;
    assert n - 1 in age;
    if i <= n - 1 { MovedElements(age, idx, n - 1, i); } else { MovedBounds(age, idx, n - 1, i); }
    hide Moved, Distinct;
  }

  lemma {:induction false} OfKeyElements(age: seq<nat>, entries: seq<Symbol>, keyOf: Symbol -> Name, k: Name, i: nat)
    ensures i in OfKey(age, entries, keyOf, k) <==> i in age && i < |entries| && keyOf(entries[i]) == k
  {
    if age != [] { OfKeyElements(age[1..], entries, keyOf, k, i); }
  }

  lemma {:induction false} OfKeyDistinct(age: seq<nat>, entries: seq<Symbol>, keyOf: Symbol -> Name, k: Name)
    requires Distinct(age)
    ensures Distinct(OfKey(age, entries, keyOf, k))
  {
    if age != [] {
      DistinctTail(age);
      OfKeyDistinct(age[1..], entries, keyOf, k);
      OfKeyElements(age[1..], entries, keyOf, k, age[0]);
    }
  }

  lemma {:induction false} OfKeyAppend(age: seq<nat>, entries: seq<Symbol>, keyOf: Symbol -> Name, k: Name, x: Symbol)
    requires Bounded(age, |entries|)
    ensures OfKey(age + [|entries|], entries + [x], keyOf, k)
            == OfKey(age, entries, keyOf, k) + (if keyOf(x) == k then [|entries|] else [])
  {
    var n := |entries|;
    if age == [] {
      assert age + [n] == [n];
    } else {
      var t := age[1..];
      OfKeyAppend(t, entries, keyOf, k, x);
      assert age[0] < n && (entries + [x])[age[0]] == entries[age[0]];
      assert (age + [n])[0] == age[0] && (age + [n])[1..] == t + [n];
      var head := if keyOf(entries[age[0]]) == k then [age[0]] else [];
      assert OfKey(age, entries, keyOf, k) == head + OfKey(t, entries, keyOf, k);
      assert OfKey(age + [n], entries + [x], keyOf, k) == head + OfKey(t + [n], entries + [x], keyOf, k);
      hide OfKey;
    }
  }

  /** The list of a key goes through `age` from the front: p are the places from n on it takes its positions from. */
  lemma {:induction false} OfKeyPlaces(age: seq<nat>, entries: seq<Symbol>, keyOf: Symbol -> Name, k: Name, n: nat)
    returns (p: seq<nat>)
    requires n <= |age|
    ensures Places(p, age, OfKey(age[n..], entries, keyOf, k), n)
    decreases |age| - n
  {
    if n == |age| {
      p := [];
    } else {
      p := OfKeyPlaces(age, entries, keyOf, k, n + 1);
      assert age[n..][1..] == age[n + 1..];
      var r := OfKey(age[n + 1..], entries, keyOf, k);
      if age[n] < |entries| && keyOf(entries[age[n]]) == k {
        hide OfKey;
        PlacesStep(p, age, r, n);
        p := [n] + p;
      } else {
        assert [] + r == r;
      }
    }
  }

  lemma PlacesStep(p: seq<nat>, age: seq<nat>, r: seq<nat>, n: nat)
    requires n < |age| && Places(p, age, r, n + 1)
    ensures Places([n] + p, age, [age[n]] + r, n)
  {}

  /** r is age[p[0]], age[p[1]], ..., and p is increasing from n on. */
  ghost predicate Places(p: seq<nat>, age: seq<nat>, r: seq<nat>, n: nat) {
    && |p| == |r|
    && (forall i :: 0 <= i < |p| ==> n <= p[i] < |age| && r[i] == age[p[i]])
    && forall i, j :: 0 <= i < j < |p| ==> p[i] < p[j]
  }

  /** The packed array after an erasure: the last entry fills the hole. */
  ghost function Packed(entries: seq<Symbol>, idx: nat): seq<Symbol>
    requires idx < |entries|
  {
    if idx == |entries| - 1 then entries[..idx] else entries[idx := entries[|entries| - 1]][..|entries| - 1]
  }

  /** Each key's list moves as the list of all positions does. */
  lemma {:induction false} OfKeyMoved(age: seq<nat>, entries: seq<Symbol>, keyOf: Symbol -> Name, k: Name, idx: nat)
    requires idx < |entries| && Bounded(age, |entries|)
    ensures OfKey(Moved(age, idx, |entries| - 1), Packed(entries, idx), keyOf, k)
            == Moved(OfKey(age, entries, keyOf, k), idx, |entries| - 1)
  {
    var last := |entries| - 1;
    if age != [] {
      OfKeyMoved(age[1..], entries, keyOf, k, idx);
      if age[0] != idx {
        var y := if age[0] == last then idx else age[0];
        assert Packed(entries, idx)[y] == entries[age[0]];
        assert Moved(age, idx, last)[1..] == Moved(age[1..], idx, last);
      }
      var s := OfKey(age[1..], entries, keyOf, k);
      assert ([age[0]] + s)[1..] == s;
      assert [] + s == s;
    }
  }

  /** The entries in the order of `age`. */
  ghost function InAge(age: seq<nat>, entries: seq<Symbol>): (r: seq<Symbol>)
    requires Bounded(age, |entries|)
    ensures |r| == |age|
  {
    if age == [] then [] else [entries[age[0]]] + InAge(age[1..], entries)
  }

  lemma {:induction false} InAgeAt(age: seq<nat>, entries: seq<Symbol>, j: nat)
    requires Bounded(age, |entries|) && j < |age|
    ensures InAge(age, entries)[j] == entries[age[j]]
  {
    if j > 0 { InAgeAt(age[1..], entries, j - 1); }
  }

  lemma InAgeAll(age: seq<nat>, entries: seq<Symbol>)
    requires Bounded(age, |entries|)
    ensures forall j :: 0 <= j < |age| ==> InAge(age, entries)[j] == entries[age[j]]
  {
    forall j | 0 <= j < |age| ensures InAge(age, entries)[j] == entries[age[j]] { InAgeAt(age, entries, j); }
  }

  lemma {:induction false} InAgeAppend(age: seq<nat>, entries: seq<Symbol>, x: Symbol)
    requires Bounded(age, |entries|)
    ensures Bounded(age + [|entries|], |entries| + 1)
    ensures InAge(age + [|entries|], entries + [x]) == InAge(age, entries) + [x]
  {
    if age != [] {
      InAgeAppend(age[1..], entries, x);
      assert (age + [|entries|])[1..] == age[1..] + [|entries|];
    } else {
      assert age + [|entries|] == [|entries|];
    }
  }

  /** A history without its j-th symbol. */
  ghost function Forgotten(history: seq<Symbol>, j: nat): seq<Symbol>
    requires j < |history|
  {
    history[..j] + history[j + 1..]
  }

  /** Where position idx stands in `age`. */
  ghost function AgeOf(age: seq<nat>, idx: nat): (j: nat)
    requires idx in age
    ensures j < |age| && age[j] == idx
  {
    if age[0] == idx then 0 else 1 + AgeOf(age[1..], idx)
  }

  lemma {:induction false} MovedBounded(age: seq<nat>, n: nat, idx: nat)
    requires idx < n && Bounded(age, n) && Distinct(age)
    ensures Bounded(Moved(age, idx, n - 1), n - 1)
  {
    var m := Moved(age, idx, n - 1);
    MovedElements(age, idx, n - 1, n - 1);
    forall j | 0 <= j < |m| ensures m[j] < n - 1 {
      assert m[j] in m;
      if m[j] >= n { assert m[j] !in age; MovedBounds(age, idx, n - 1, m[j]); }
    }
  }

  lemma InAgeStep(age: seq<nat>, entries: seq<Symbol>)
    requires age != [] && Bounded(age, |entries|)
    ensures Bounded(age[1..], |entries|) && InAge(age, entries) == [entries[age[0]]] + InAge(age[1..], entries)
  {}

  lemma {:induction false} AgeOfAt(s: seq<nat>, n: nat)
    requires Distinct(s) && n < |s|
    ensures s[n] in s && AgeOf(s, s[n]) == n
  {
    if n > 0 {
      DistinctTail(s);
      AgeOfAt(s[1..], n - 1);
      assert s[1..][n - 1] == s[n] && s[0] != s[n];
    }
  }

  /** Older positions with the same key come first in the key's list. */
  lemma {:induction false} OlderInList(age: seq<nat>, entries: seq<Symbol>, keyOf: Symbol -> Name, k: Name, r: nat,
          j: nat)
    requires Distinct(age) && Bounded(age, |entries|) && r in age && r < |entries| && keyOf(entries[r]) == k
    requires j < AgeOf(age, r) && keyOf(entries[age[j]]) == k
    ensures r in OfKey(age, entries, keyOf, k)
    ensures age[j] in OfKey(age, entries, keyOf, k)[..AgeOf(OfKey(age, entries, keyOf, k), r)]
  {
    var t, arr := age[1..], OfKey(age, entries, keyOf, k);
    var rest := OfKey(t, entries, keyOf, k);
    DistinctTail(age);
    AgeOfStep(age, r);
    OfKeyElements(age, entries, keyOf, k, r);
    OfKeyElements(t, entries, keyOf, k, r);
    hide Distinct, AgeOf;
    if j > 0 { OlderInList(t, entries, keyOf, k, r, j - 1); }
    if keyOf(entries[age[0]]) == k {
      assert arr == [age[0]] + rest;
      FrontStep(age[0], rest, r);
    } else {
      assert arr == rest;
    }
  }

  lemma FrontStep(x: nat, rest: seq<nat>, r: nat)
    requires r in rest && r != x
    ensures r in [x] + rest && ([x] + rest)[..AgeOf([x] + rest, r)] == [x] + rest[..AgeOf(rest, r)]
  {
    var arr := [x] + rest;
    assert arr[1..] == rest;
    AgeOfStep(arr, r);
    hide AgeOf;
    assert arr[..1 + AgeOf(rest, r)] == [x] + rest[..AgeOf(rest, r)];
  }

  /** Erasing a position forgets that one symbol; the ages of the others keep their order. */
  lemma {:induction false} HistoryMoved(age: seq<nat>, entries: seq<Symbol>, idx: nat)
    requires idx < |entries| && Bounded(age, |entries|) && Distinct(age)
    ensures Bounded(Moved(age, idx, |entries| - 1), |entries| - 1)
    ensures InAge(Moved(age, idx, |entries| - 1), Packed(entries, idx))
            == if idx in age then Forgotten(InAge(age, entries), AgeOf(age, idx)) else InAge(age, entries)
  {
    var last := |entries| - 1;
    MovedBounded(age, |entries|, idx);
    if age != [] {
      DistinctTail(age);
      InAgeStep(age, entries);
      HistoryMoved(age[1..], entries, idx);
      if age[0] == idx { assert idx !in age[1..]; }
      hide InAge, Moved, Packed, Distinct, Forgotten;
      if age[0] == idx { HistoryMovedHere(age, entries, idx); } else { HistoryMovedLater(age, entries, idx); }
    }
  }

  lemma HistoryMovedHere(age: seq<nat>, entries: seq<Symbol>, idx: nat)
    requires idx < |entries| && Bounded(age, |entries|) && Distinct(age) && age != [] && age[0] == idx
    requires Bounded(age[1..], |entries|) && Bounded(Moved(age, idx, |entries| - 1), |entries| - 1)
    requires InAge(age, entries) == [entries[age[0]]] + InAge(age[1..], entries)
    requires InAge(Moved(age[1..], idx, |entries| - 1), Packed(entries, idx)) == InAge(age[1..], entries)
    ensures InAge(Moved(age, idx, |entries| - 1), Packed(entries, idx))
            == Forgotten(InAge(age, entries), AgeOf(age, idx))
  {
    assert Moved(age, idx, |entries| - 1) == Moved(age[1..], idx, |entries| - 1) && AgeOf(age, idx) == 0;
    hide InAge, Moved, Packed, AgeOf, Distinct, Bounded;
    assert Forgotten([entries[idx]] + InAge(age[1..], entries), 0) == InAge(age[1..], entries);
  }

  lemma HistoryMovedLater(age: seq<nat>, entries: seq<Symbol>, idx: nat)
    requires idx < |entries| && Bounded(age, |entries|) && age != [] && age[0] != idx
    requires Bounded(age[1..], |entries|) && Bounded(Moved(age, idx, |entries| - 1), |entries| - 1)
    requires Bounded(Moved(age[1..], idx, |entries| - 1), |entries| - 1)
    requires InAge(age, entries) == [entries[age[0]]] + InAge(age[1..], entries)
    requires InAge(Moved(age[1..], idx, |entries| - 1), Packed(entries, idx))
             == if idx in age[1..] then Forgotten(InAge(age[1..], entries), AgeOf(age[1..], idx))
                 else InAge(age[1..], entries)
    ensures InAge(Moved(age, idx, |entries| - 1), Packed(entries, idx))
            == if idx in age then Forgotten(InAge(age, entries), AgeOf(age, idx)) else InAge(age, entries)
  {
    var last, t := |entries| - 1, age[1..];
    var m, packed := Moved(age, idx, last), Packed(entries, idx);
    MovedStep(age, idx, last);
    assert packed[m[0]] == entries[age[0]];
    hide Moved, Packed;
    InAgeStep(m, packed);
    hide InAge, Bounded;
    assert idx in age <==> idx in t;
    if idx in age {
      AgeOfStep(age, idx);
      hide AgeOf;
      ForgottenTail(entries[age[0]], InAge(t, entries), AgeOf(t, idx));
    }
  }

  lemma MovedStep(age: seq<nat>, idx: nat, last: nat)
    requires age != [] && age[0] != idx
    ensures var m := Moved(age, idx, last);
            m != [] && m[0] == (if age[0] == last then idx else age[0]) && m[1..] == Moved(age[1..], idx, last)
  {}

  lemma AgeOfStep(age: seq<nat>, idx: nat)
    requires age != [] && age[0] != idx && idx in age
    ensures idx in age[1..] && AgeOf(age, idx) == AgeOf(age[1..], idx) + 1
  {}

  lemma ForgottenTail(x: Symbol, history: seq<Symbol>, j: nat)
    requires j < |history|
    ensures Forgotten([x] + history, j + 1) == [x] + Forgotten(history, j)
  {}

  /** The map holds list s for key k; an empty list is not stored. */
  ghost predicate Stored(lookup: map<Name, seq<nat>>, k: Name, s: seq<nat>) {
    if k in lookup then lookup[k] == s && s != [] else s == []
  }

  /** The list of key k agrees with the entries. */
  ghost predicate Listed(age: seq<nat>, entries: seq<Symbol>, keyOf: Symbol -> Name, lookup: map<Name, seq<nat>>,
                         k: Name) {
    Stored(lookup, k, OfKey(age, entries, keyOf, k))
  }

  /** What an erasure does to the ages and the history. */
  lemma EraseFacts(age: seq<nat>, entries: seq<Symbol>, idx: nat)
    requires idx < |entries| && Ages(age, |entries|)
    ensures idx in age && Bounded(age, |entries|) && |Packed(entries, idx)| == |entries| - 1
    ensures Ages(Moved(age, idx, |entries| - 1), |entries| - 1)
            && Bounded(Moved(age, idx, |entries| - 1), |entries| - 1)
    ensures InAge(Moved(age, idx, |entries| - 1), Packed(entries, idx))
            == Forgotten(InAge(age, entries), AgeOf(age, idx))
  {
    assert idx in age;
    hide OfKey, Moved, InAge, AgeOf, Forgotten, Distinct;
    AgesBounded(age, |entries|);
    AgesMoved(age, |entries|, idx);
    HistoryMoved(age, entries, idx);
  }

  /** age' is age without its j-th position, which the position `last` is called from then on. */
  ghost predicate Renamed(age: seq<nat>, age': seq<nat>, j: nat, last: int)
    requires j < |age|
  {
    && |age'| == |age| - 1
    && forall i :: 0 <= i < |age'| ==>
         var x := age[if i < j then i else i + 1]; age'[i] == if x == last then age[j] else x
  }

  lemma AgesRenamed(age: seq<nat>, idx: nat, last: nat)
    requires Ages(age, last + 1) && idx in age
    ensures Renamed(age, Moved(age, idx, last), AgeOf(age, idx), last)
  {
    MovedAt(age, idx, last, AgeOf(age, idx));
  }

  lemma MovedListed(age: seq<nat>, entries: seq<Symbol>, keyOf: Symbol -> Name, lookup: map<Name, seq<nat>>, idx: nat,
                    k: Name)
    requires idx < |entries| && Ages(age, |entries|)
    requires Stored(lookup, k, Moved(OfKey(age, entries, keyOf, k), idx, |entries| - 1))
    ensures Listed(Moved(age, idx, |entries| - 1), Packed(entries, idx), keyOf, lookup, k)
  {
    hide OfKey, Moved, Packed, Stored, Distinct;
    AgesBounded(age, |entries|);
    OfKeyMoved(age, entries, keyOf, k, idx);
  }

  /** The first v in s is dropped, the others close up. */
  method RemoveValue(s: seq<nat>, v: nat) returns (r: seq<nat>)
    ensures r == Dropped(s, v)
  {
    r := s;
    var n := 0;
    while n < |s|
      invariant n <= |s| && r == s && v !in s[..n]
    {
      if s[n] == v {
        r := s[..n] + s[n + 1..];
        DroppedAt(s, n);
        return;
      }
      assert s[..n + 1] == s[..n] + [s[n]];
      n := n + 1;
    }
    assert s[..n] == s;
    NotThere(s, v, 0);
  }

  method IndexOf(s: seq<nat>, v: nat) returns (n: int)
    ensures if v in s then 0 <= n < |s| && s[n] == v && v !in s[..n] else n == -1
  {
    n := 0;
    while n < |s|
      invariant 0 <= n <= |s| && v !in s[..n]
    {
      if s[n] == v { return; }
      assert s[..n + 1] == s[..n] + [s[n]];
      n := n + 1;
    }
    assert s[..n] == s;
    n := -1;
  }

  class SymbolTable {
    const keyOf: Symbol -> Name
    var entries: seq<Symbol>
    var lookup: map<Name, seq<nat>>
    var size: int
    /** The positions of the entries, oldest entry first. */
    ghost var age: seq<nat>

    ghost predicate Valid()
      reads this
    {
      && size == |entries| && Ages(age, |entries|)
      && forall k {:trigger Listed(age, entries, keyOf, lookup, k)} :: Listed(age, entries, keyOf, lookup, k)
    }

    /** The entries, oldest first. */
    ghost function History(): (r: seq<Symbol>)
      reads this
      requires Valid()
      ensures |r| == |age| == |entries|
      ensures forall j :: 0 <= j < |r| ==> age[j] < |entries| && r[j] == entries[age[j]]
    {
      AgesBounded(age, |entries|);
      InAgeAll(age, entries);
      InAge(age, entries)
    }

    constructor (keyOf: Symbol -> Name)
      ensures Valid() && entries == [] && this.keyOf == keyOf
    {
      this.keyOf := keyOf;
      entries, lookup, size, age := [], map[], 0, [];
    }

    method Put(entry: Symbol) returns (idx: nat)
      requires Valid()
      modifies this
      ensures Valid() && idx == |old(entries)|
      ensures entries == old(entries) + [entry] && age == old(age) + [idx]
      ensures History() == old(History()) + [entry]
    {
      ghost var entries0, age0, lookup0 := entries, age, lookup;
      AgesBounded(age, |entries|);
      AgesAppend(age, |entries|);
      idx := |entries|;
      var key := keyOf(entry);
      assert Listed(age, entries, keyOf, lookup, key);
      if key in lookup {
        lookup := lookup[key := lookup[key] + [idx]];
      } else {
        lookup := lookup[key := [idx]];
      }
      entries := entries + [entry];
      size := size + 1;
      age := age + [idx];
      forall k ensures Listed(age, entries, keyOf, lookup, k) {
        assert Listed(age0, entries0, keyOf, lookup0, k);
        OfKeyAppend(age0, entries0, keyOf, k, entry);
      }
      AgesBounded(age, |entries|);
      InAgeAppend(age0, entries0, entry);
    }

    /** First update of the lookup map in Erase: position idx leaves its key's list, and an empty list goes. */
    method DropPosition(idx: nat)
      requires Valid() && idx < |entries|
      modifies this`lookup
      ensures forall k {:trigger Stored(lookup, k, Dropped(OfKey(age, entries, keyOf, k), idx))} ::
                Stored(lookup, k, Dropped(OfKey(age, entries, keyOf, k), idx))
    {
      ghost var lookup0 := lookup;
      var key := keyOf(entries[idx]);
      Present(idx);
      var arr := RemoveValue(lookup[key], idx);
      if arr == [] { lookup := map k | k in lookup && k != key :: lookup[k]; } else { lookup := lookup[key := arr]; }
      forall k ensures Stored(lookup, k, Dropped(OfKey(age, entries, keyOf, k), idx)) {
        assert Listed(age, entries, keyOf, lookup0, k);
        OfKeyElements(age, entries, keyOf, k, idx);
        if k != key { NotThere(OfKey(age, entries, keyOf, k), idx, 0); }
      }
    }

    /** Second update: the entry that has filled the hole is found at idx from now on. */
    method RenameLast(idx: nat, ghost entries0: seq<Symbol>)
      requires Ages(age, |entries0|) && idx < |entries0| - 1 && entries == Packed(entries0, idx)
      requires forall k {:trigger Stored(lookup, k, Dropped(OfKey(age, entries0, keyOf, k), idx))} ::
                 Stored(lookup, k, Dropped(OfKey(age, entries0, keyOf, k), idx))
      modifies this`lookup
      ensures forall k {:trigger Stored(lookup, k, Moved(OfKey(age, entries0, keyOf, k), idx, |entries0| - 1))} ::
                Stored(lookup, k, Moved(OfKey(age, entries0, keyOf, k), idx, |entries0| - 1))
    {
      var prevIdx := |entries|;
      var key := keyOf(entries[idx]);
      ghost var lookup0 := lookup;
      ghost var s := OfKey(age, entries0, keyOf, key);
      assert Stored(lookup, key, Dropped(s, idx));
      assert prevIdx in age;
      OfKeyElements(age, entries0, keyOf, key, prevIdx);
      OfKeyDistinct(age, entries0, keyOf, key);
      DroppedElements(s, idx);
      var arr := lookup[key];
      var n := IndexOf(arr, prevIdx);
      ChangedAt(arr, n, idx);
      lookup := lookup[key := arr[n := idx]];
      forall k ensures Stored(lookup, k, Moved(OfKey(age, entries0, keyOf, k), idx, prevIdx)) {
        assert Stored(lookup0, k, Dropped(OfKey(age, entries0, keyOf, k), idx));
        MovedOfKey(age, entries0, keyOf, k, idx);
      }
    }

    /** Erase: the last entry fills the hole, so that the array stays packed. */
    method Erase(idx: nat) returns (ok: bool)
      requires Valid()
      modifies this
      ensures Valid() && (ok <==> idx < |old(entries)|)
      ensures !ok ==> entries == old(entries) && lookup == old(lookup) && age == old(age)
      ensures ok ==> entries == Packed(old(entries), idx) && |entries| == |old(entries)| - 1
      ensures ok ==> forall j :: 0 <= j < |entries| ==>
                       entries[j] == if j == idx then old(entries)[|old(entries)| - 1] else old(entries)[j]
      ensures ok ==> exists j ::
                       && 0 <= j < |old(age)| == |old(History())| && old(age)[j] == idx
                       && History() == old(History())[..j] + old(History())[j + 1..]
                       && |age| == |old(age)| - 1
                       && forall i :: 0 <= i < |age| ==>
                            var x := old(age)[if i < j then i else i + 1];
                            age[i] == if x == |old(entries)| - 1 then idx else x
    {
      hide SymbolTable.Valid, AgeOf, InAge;
      if idx >= |entries| { return false; }
      Pack(idx);
      return true;
    }

    /** Erase, of a position in the table. */
    method Pack(idx: nat)
      requires Valid() && idx < |entries|
      modifies this
      ensures Valid() && entries == Packed(old(entries), idx) && idx in old(age) && |old(History())| == |old(age)|
      ensures History() == Forgotten(old(History()), AgeOf(old(age), idx))
      ensures Renamed(old(age), age, AgeOf(old(age), idx), |old(entries)| - 1)
    {
      ghost var entries0, age0 := entries, age;
      DropPosition(idx);
      if idx == |entries| - 1 {
        entries := entries[..|entries| - 1];
        forall k ensures Stored(lookup, k, Moved(OfKey(age, entries0, keyOf, k), idx, |entries0| - 1)) {
          assert Stored(lookup, k, Dropped(OfKey(age, entries0, keyOf, k), idx));
          OfKeyDistinct(age, entries0, keyOf, k);
          MovedSteps(OfKey(age, entries0, keyOf, k), idx, idx);
        }
      } else {
        entries := entries[idx := entries[|entries| - 1]][..|entries| - 1];
        RenameLast(idx, entries0);
      }
      size := size - 1;
      age := Moved(age, idx, |entries0| - 1);
      Settle(idx, entries0, age0);
    }

    /** What the two updates have made of the table. */
    lemma Settle(idx: nat, entries0: seq<Symbol>, age0: seq<nat>)
      requires idx < |entries0| && Ages(age0, |entries0|)
      requires entries == Packed(entries0, idx) && age == Moved(age0, idx, |entries0| - 1) && size == |entries|
      requires forall k {:trigger Stored(lookup, k, Moved(OfKey(age0, entries0, keyOf, k), idx, |entries0| - 1))} ::
                 Stored(lookup, k, Moved(OfKey(age0, entries0, keyOf, k), idx, |entries0| - 1))
      ensures Valid() && idx in age0 && Bounded(age0, |entries0|)
      ensures History() == Forgotten(InAge(age0, entries0), AgeOf(age0, idx))
      ensures Renamed(age0, age, AgeOf(age0, idx), |entries0| - 1)
    {
      hide OfKey, Moved, Packed, InAge, AgeOf, Forgotten, Ages, Bounded, Stored, Listed;
      EraseFacts(age0, entries0, idx);
      AgesRenamed(age0, idx, |entries0| - 1);
      forall k ensures Listed(age, entries, keyOf, lookup, k) {
        assert Stored(lookup, k, Moved(OfKey(age0, entries0, keyOf, k), idx, |entries0| - 1));
        MovedListed(age0, entries0, keyOf, lookup, idx, k);
      }
    }

    method Clear()
      requires Valid()
      modifies this
      ensures Valid() && entries == [] && lookup == map[] && History() == []
    {
      entries, lookup, size, age := [], map[], 0, [];
    }

    function GetSize(): (r: int)
      reads this
      requires Valid()
      ensures r == |entries|
    {
      size
    }

    /** The positions of all entries with key k, each once, oldest entry first. */
    method GetIndexes(k: Name) returns (r: seq<nat>)
      requires Valid()
      ensures Distinct(r) && forall i: nat :: i in r <==> i < |entries| && keyOf(entries[i]) == k
      ensures r == OfKey(age, entries, keyOf, k)
      ensures exists p: seq<nat> ::
                && |p| == |r|
                && (forall i :: 0 <= i < |p| ==> p[i] < |age| && age[p[i]] == r[i])
                && forall i, j :: 0 <= i < j < |p| ==> p[i] < p[j]
    {
      ghost var p := OfKeyPlaces(age, entries, keyOf, k, 0);
      assert age[0..] == age;
      assert Listed(age, entries, keyOf, lookup, k);
      OfKeyDistinct(age, entries, keyOf, k);
      forall i: nat ensures i in OfKey(age, entries, keyOf, k) <==> i < |entries| && keyOf(entries[i]) == k {
        OfKeyElements(age, entries, keyOf, k, i);
        assert i in age <==> i < |entries|;
      }
      r := if k in lookup then lookup[k] else [];
    }

    /** The oldest entry with key k that the filter lets through; -1 if there is none. */
    method GetFirstIndexBy(k: Name, filter: Symbol -> bool) returns (r: int)
      requires Valid()
      ensures r < 0 ==> r == -1 && forall i :: 0 <= i < |entries| ==> !(keyOf(entries[i]) == k && filter(entries[i]))
      ensures r >= 0 ==>
                && r < |entries| && keyOf(entries[r]) == k && filter(entries[r])
                && exists a ::
                  && 0 <= a < |age| && age[a] == r
                  && forall j :: 0 <= j < a ==>
                       age[j] < |entries| && !(keyOf(entries[age[j]]) == k && filter(entries[age[j]]))
    {
      var arr := GetIndexes(k);
      AgesBounded(age, |entries|);
      if k !in lookup {
        assert Listed(age, entries, keyOf, lookup, k);
        return -1;
      }
      assert Listed(age, entries, keyOf, lookup, k);
      var n := 0;
      while n < |arr|
        invariant n <= |arr| && forall m :: 0 <= m < n ==> arr[m] < |entries| && !filter(entries[arr[m]])
      {
        assert arr[n] in arr;
        if filter(entries[arr[n]]) {
          ghost var a := AgeOf(age, arr[n]);
          forall j | 0 <= j < a
            ensures age[j] < |entries| && !(keyOf(entries[age[j]]) == k && filter(entries[age[j]]))
          {
            if keyOf(entries[age[j]]) == k {
              OlderInList(age, entries, keyOf, k, arr[n], j);
              AgeOfAt(arr, n);
            }
          }
          return arr[n];
        }
        n := n + 1;
      }
      forall i | 0 <= i < |entries| ensures !(keyOf(entries[i]) == k && filter(entries[i])) {
        if keyOf(entries[i]) == k { assert i in arr; }
      }
      return -1;
    }

    /** The oldest entry with key k, the first of its list; -1 if there is none. */
    method GetFirstIndex(k: Name) returns (r: int)
      requires Valid()
      ensures r < 0 ==> r == -1 && forall i :: 0 <= i < |entries| ==> keyOf(entries[i]) != k
      ensures r >= 0 ==>
                && r < |entries| && keyOf(entries[r]) == k
                && exists a ::
                  && 0 <= a < |age| && age[a] == r
                  && forall j :: 0 <= j < a ==> age[j] < |entries| && keyOf(entries[age[j]]) != k
      ensures var s := OfKey(age, entries, keyOf, k);
              if s == [] then r == -1 else r == s[0]
    {
      var arr := GetIndexes(k);
      AgesBounded(age, |entries|);
      assert Listed(age, entries, keyOf, lookup, k);
      if k in lookup {
        r := arr[0];
        assert r in arr;
        AgeOfAt(arr, 0);
        ghost var a := AgeOf(age, r);
        forall j | 0 <= j < a ensures age[j] < |entries| && keyOf(entries[age[j]]) != k {
          if keyOf(entries[age[j]]) == k { OlderInList(age, entries, keyOf, k, r, j); }
        }
      } else {
        r := -1;
        forall i | 0 <= i < |entries| ensures keyOf(entries[i]) != k {
          assert i in arr <==> keyOf(entries[i]) == k;
        }
      }
    }

    /** The first position that holds the entry. */
    method GetIndex(entry: Symbol) returns (r: int)
      ensures if entry in entries then 0 <= r < |entries| && entries[r] == entry && entry !in entries[..r] else r == -1
    {
      var n := 0;
      while n < |entries|
        invariant n <= |entries| && entry !in entries[..n]
      {
        if entries[n] == entry { return n; }
        assert entries[..n + 1] == entries[..n] + [entries[n]];
        n := n + 1;
      }
      assert entries[..n] == entries;
      return -1;
    }

    lemma Present(i: nat)
      requires Valid() && i < |entries|
      ensures keyOf(entries[i]) in lookup && lookup[keyOf(entries[i])] == OfKey(age, entries, keyOf, keyOf(entries[i]))
      ensures i in lookup[keyOf(entries[i])] && Distinct(lookup[keyOf(entries[i])])
    {
      var k := keyOf(entries[i]);
      assert Listed(age, entries, keyOf, lookup, k);
      assert i in age;
      OfKeyElements(age, entries, keyOf, k, i);
      OfKeyDistinct(age, entries, keyOf, k);
    }
  }

  /** The rename step on the list of any key. */
  lemma MovedOfKey(age: seq<nat>, entries: seq<Symbol>, keyOf: Symbol -> Name, k: Name, idx: nat)
    requires Ages(age, |entries|) && idx < |entries| - 1
    ensures var s, last := OfKey(age, entries, keyOf, k), |entries| - 1;
            Moved(s, idx, last) == if k == keyOf(entries[last]) then Changed(Dropped(s, idx), last, idx)
                else Dropped(s, idx)
  {
    hide OfKey, Moved, Dropped, Changed;
    var s, last := OfKey(age, entries, keyOf, k), |entries| - 1;
    OfKeyDistinct(age, entries, keyOf, k);
    MovedSteps(s, idx, last);
    if k != keyOf(entries[last]) {
      OfKeyElements(age, entries, keyOf, k, last);
      DroppedWithin(s, idx);
      NotThere(Dropped(s, idx), last, idx);
    }
  }

  datatype Op = PutOp(entry: Symbol) | EraseOp(idx: nat) | ClearOp

  /** The packed array after some operations; an erasure out of range changes nothing. */
  ghost function EntriesAfter(ops: seq<Op>): seq<Symbol> {
    if ops == [] then []
    else
      var before := EntriesAfter(ops[..|ops| - 1]);
      match ops[|ops| - 1]
      case PutOp(entry) => before + [entry]
      case EraseOp(idx) => if idx < |before| then Packed(before, idx) else before
      case ClearOp => []
  }

  /**
   What the last operation means for the packed array: a put goes to the end, an
   erasure takes one entry away and moves no other but the last.
   */
  lemma LastOperation(ops: seq<Op>, op: Op)
    ensures EntriesAfter([]) == []
    ensures op.PutOp? ==> EntriesAfter(ops + [op]) == EntriesAfter(ops) + [op.entry]
    ensures op.EraseOp? && op.idx >= |EntriesAfter(ops)| ==> EntriesAfter(ops + [op]) == EntriesAfter(ops)
    ensures op.EraseOp? && op.idx < |EntriesAfter(ops)| ==>
              var before, after := EntriesAfter(ops), EntriesAfter(ops + [op]);
              && |after| == |before| - 1
              && (forall j :: 0 <= j < |after| ==> after[j] == if j == op.idx then before[|before| - 1] else before[j])
              && multiset(after) == multiset(before) - multiset{before[op.idx]}
    ensures op.ClearOp? ==> EntriesAfter(ops + [op]) == []
  {
    assert (ops + [op])[..|ops|] == ops;
    var before := EntriesAfter(ops);
    if op.EraseOp? && op.idx < |before| {
      var last := |before| - 1;
      assert before == before[..last] + [before[last]];
      if op.idx < last {
        assert Packed(before, op.idx) == before[..last][op.idx := before[last]];
      }
    }
  }

  /** After any operations, a lookup gives exactly the positions in the packed array that have the key. */
  method RunAndLookUp(keyOf: Symbol -> Name, ops: seq<Op>, k: Name) returns (r: seq<nat>, first: int, count: int)
    ensures Distinct(r) && forall i: nat :: i in r <==> i < |EntriesAfter(ops)| && keyOf(EntriesAfter(ops)[i]) == k
    ensures if r == [] then first == -1 else first == r[0]
    ensures count == |EntriesAfter(ops)|
  {
    var table := new SymbolTable(keyOf);
    for n := 0 to |ops|
      invariant table.Valid() && table.entries == EntriesAfter(ops[..n]) && fresh(table)
    {
      assert ops[..n + 1][..n] == ops[..n];
      match ops[n] {
        case PutOp(entry) => var idx := table.Put(entry);
        case EraseOp(idx) => var ok := table.Erase(idx);
        case ClearOp => table.Clear();
      }
    }
    assert ops[..|ops|] == ops;
    r := table.GetIndexes(k);
    first := table.GetFirstIndex(k);
    count := table.GetSize();
  }
}
