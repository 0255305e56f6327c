/** Lists of positions, as the symbol table's lookup map stores them. */
module SymbolLists {
  import opened Sequences

  /** Symbols, and the namespace and name that are a symbol's key. */
  type Symbol(==, !new)
  type Name(==, !new)

  /** s without the first v in it. */
  ghost function Dropped(s: seq<nat>, v: nat): seq<nat> {
    if s == [] then [] else if s[0] == v then s[1..] else [s[0]] + Dropped(s[1..], v)
  }

  /** s with its first v replaced by w. */
  ghost function Changed(s: seq<nat>, v: nat, w: nat): seq<nat> {
    if s == [] then [] else if s[0] == v then [w] + s[1..] else [s[0]] + Changed(s[1..], v, w)
  }

  /**
   What erasing position idx does to a list of positions: idx goes, and the last
   position is called idx from then on.
   */
  ghost function Moved(s: seq<nat>, idx: nat, last: nat): seq<nat> {
    if s == [] then [] else if s[0] == idx then Moved(s[1..], idx, last)
    else [if s[0] == last then idx else s[0]] + Moved(s[1..], idx, last)
  }

  lemma {:induction false} DroppedAt(s: seq<nat>, i: nat)
    requires i < |s| && s[i] !in s[..i]
    ensures Dropped(s, s[i]) == s[..i] + s[i + 1..]
  {
    if i > 0 {
      assert s[0] == s[..i][0];
      assert s[1..][..i - 1] == s[..i][1..];
      DroppedAt(s[1..], i - 1);
      assert s[..i] + s[i + 1..] == [s[0]] + (s[1..][..i - 1] + s[1..][i..]);
    }
  }

  lemma {:induction false} ChangedAt(s: seq<nat>, i: nat, w: nat)
    requires i < |s| && s[i] !in s[..i]
    ensures Changed(s, s[i], w) == s[i := w]
  {
    if i > 0 {
      assert s[0] == s[..i][0];
      assert s[1..][..i - 1] == s[..i][1..];
      ChangedAt(s[1..], i - 1, w);
      assert s[i := w] == [s[0]] + s[1..][i - 1 := w];
    } else {
      assert s[0 := w] == [w] + s[1..];
    }
  }

  lemma {:induction false} NotThere(s: seq<nat>, v: nat, w: nat)
    requires v !in s
    ensures Dropped(s, v) == s && Changed(s, v, w) == s
  {
    if s != [] { NotThere(s[1..], v, w); }
  }

  lemma DistinctTail(s: seq<nat>)
    requires s != [] && Distinct(s)
    ensures Distinct(s[1..]) && s[0] !in s[1..]
  {}

  /** The two steps of Erase on a list, drop idx and then rename the last position, are the one meant. */
  lemma {:induction false} MovedSteps(s: seq<nat>, idx: nat, last: nat)
    requires Distinct(s)
    ensures Moved(s, idx, last) == if idx == last then Dropped(s, idx) else Changed(Dropped(s, idx), last, idx)
  {
    if s != [] {
      var t := s[1..];
      DistinctTail(s);
      MovedSteps(t, idx, last);
      if s[0] == idx {
        NotThere(t, idx, 0);
      } else if s[0] == last {
        assert Changed([last] + Dropped(t, idx), last, idx) == [idx] + Dropped(t, idx);
        DroppedWithin(t, idx);
        NotThere(Dropped(t, idx), last, idx);
      }
    }
  }

  lemma {:induction false} DroppedWithin(s: seq<nat>, v: nat)
    ensures forall x :: x in Dropped(s, v) ==> x in s
  {
    if s != [] { DroppedWithin(s[1..], v); }
  }

  /** The elements after an erasure: idx stands for the old last, all others for themselves. */
  lemma {:induction false} MovedElements(s: seq<nat>, idx: nat, last: nat, x: nat)
    requires Distinct(s) && idx <= last && x <= last
    ensures x in Moved(s, idx, last) <==> (x == idx && idx != last && last in s) || (x in s && x != idx && x != last)
    ensures Distinct(Moved(s, idx, last))
    ensures |Moved(s, idx, last)| == |s| - (if idx in s then 1 else 0)
  {
    if s != [] {
      DistinctTail(s);
      MovedElements(s[1..], idx, last, x);
      if s[0] != idx {
        var y := if s[0] == last then idx else s[0];
        MovedElements(s[1..], idx, last, if y <= last then y else 0);
        if y > last { MovedBounds(s[1..], idx, last, y); }
        assert y !in Moved(s[1..], idx, last);
      }
    }
  }

  /** The list after an erasure, place by place: the place of idx is gone, and the old last position is called idx. */
  lemma {:induction false} MovedAt(s: seq<nat>, idx: nat, last: nat, j: nat)
    requires Distinct(s) && j < |s| && s[j] == idx
    ensures |Moved(s, idx, last)| == |s| - 1
    ensures forall i :: 0 <= i < |s| - 1 ==>
              var x := s[if i < j then i else i + 1];
              Moved(s, idx, last)[i] == if x == last then idx else x
  {
    var t := s[1..];
    DistinctTail(s);
    if j == 0 {
      MovedWithout(t, idx, last);
    } else {
      MovedAt(t, idx, last, j - 1);
      assert s[0] != idx;
      forall i | 0 <= i < |s| - 1
        ensures var x := s[if i < j then i else i + 1]; Moved(s, idx, last)[i] == if x == last then idx else x
      {
        if i > 0 { assert t[if i - 1 < j - 1 then i - 1 else i] == s[if i < j then i else i + 1]; }
      }
    }
  }

  lemma {:induction false} MovedWithout(s: seq<nat>, idx: nat, last: nat)
    requires idx !in s
    ensures |Moved(s, idx, last)| == |s|
    ensures forall i :: 0 <= i < |s| ==> Moved(s, idx, last)[i] == if s[i] == last then idx else s[i]
  {
    if s != [] { MovedWithout(s[1..], idx, last); }
  }

  lemma {:induction false} MovedBounds(s: seq<nat>, idx: nat, last: nat, y: nat)
    requires y > last >= idx && y !in s
    ensures y !in Moved(s, idx, last)
  {
    if s != [] { MovedBounds(s[1..], idx, last, y); }
  }

  lemma {:induction false} DroppedElements(s: seq<nat>, v: nat)
    requires Distinct(s)
    ensures forall x :: x in Dropped(s, v) <==> x in s && x != v
    ensures Distinct(Dropped(s, v))
  {
    if s != [] {
      DistinctTail(s);
      DroppedElements(s[1..], v);
    }
  }
}
