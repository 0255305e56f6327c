/** What a clump's adjacency list has to hold, and list updates inside a cluster record. */
module Adjacency {
  import opened GridModel
  import opened Sequences

  /** A direction to a neighbouring cluster. */
  datatype Dir = Dir(dx: int, dy: int)

  predicate IsDir(d: Dir) { d == Dir(1, 0) || d == Dir(-1, 0) || d == Dir(0, -1) || d == Dir(0, 1) }

  const ALL_DIRS := {Dir(-1, 0), Dir(1, 0), Dir(0, -1), Dir(0, 1)}

  function Opposite(d: Dir): Dir { Dir(-d.dx, -d.dy) }

  function Step(k: Pos, d: Dir): Pos { Pos(k.cx + d.dx, k.cy + d.dy) }

  function DirOf(r: RelativeClumpId): Dir { Dir(r.dx, r.dy) }

  /** The t-th square of a cluster's side in direction d. */
  function Side(s: int, d: Dir, t: int): Cell {
    if d.dx == 1 then Cell(s - 1, t)
    else if d.dx == -1 then Cell(0, t)
    else if d.dy == -1 then Cell(t, 0)
    else Cell(t, s - 1)
  }

  /** The open squares of the map and the clump id of each square. */
  datatype Squares = Squares(s: nat, ghost open: iset<Addr>, ghost id: imap<Addr, int>) {
    ghost function IdOf(a: Addr): int { if a in id then id[a] else 0 }

    ghost function Near(k: Pos, d: Dir, t: int): Addr { Addr(k, Side(s, d, t)) }

    ghost function Far(k: Pos, d: Dir, t: int): Addr { Addr(Step(k, d), Side(s, Opposite(d), t)) }

    /** Both squares of the t-th pair across the border are open. */
    ghost predicate OpenPair(k: Pos, d: Dir, t: int) { Near(k, d, t) in open && Far(k, d, t) in open }

    ghost function PairAt(k: Pos, d: Dir, t: int): (int, int) { (IdOf(Near(k, d, t)), IdOf(Far(k, d, t))) }

    /** The pairs of clumps that touch across the first n positions of a side. */
    ghost function Pairs(k: Pos, d: Dir, n: nat): set<(int, int)> {
      if n == 0 then {}
      else if OpenPair(k, d, n - 1) then Pairs(k, d, n - 1) + {PairAt(k, d, n - 1)}
      else Pairs(k, d, n - 1)
    }

    /** Position n - 1 is the first at which its pair of clumps touches. */
    ghost predicate IsNew(k: Pos, d: Dir, n: nat)
      requires n > 0
    {
      OpenPair(k, d, n - 1) && PairAt(k, d, n - 1) !in Pairs(k, d, n - 1)
    }

    /** How many different clumps the first n positions make clump m touch. */
    ghost function Touched(k: Pos, d: Dir, n: nat, m: int): nat {
      if n == 0 then 0
      else Touched(k, d, n - 1, m) + (if IsNew(k, d, n) && PairAt(k, d, n - 1).0 == m then 1 else 0)
    }

    /** How many different pairs the first n positions hold. */
    ghost function PairCount(k: Pos, d: Dir, n: nat): nat {
      if n == 0 then 0 else PairCount(k, d, n - 1) + (if IsNew(k, d, n) then 1 else 0)
    }
  }

  lemma {:induction false} PairsMeaning(q: Squares, k: Pos, d: Dir, n: nat, p: (int, int))
    ensures p in q.Pairs(k, d, n) <==> exists t :: 0 <= t < n && q.OpenPair(k, d, t) && q.PairAt(k, d, t) == p
  {
    if n > 0 {
      PairsMeaning(q, k, d, n - 1, p);
      assert q.OpenPair(k, d, n - 1) || !q.OpenPair(k, d, n - 1);
    }
  }

  lemma {:induction false} PairsMonotone(q: Squares, k: Pos, d: Dir, n: nat, n': nat)
    requires n <= n'
    ensures q.Pairs(k, d, n) <= q.Pairs(k, d, n')
    decreases n'
  {
    if n < n' { PairsMonotone(q, k, d, n, n' - 1); }
  }

  /** The pairs of a side depend only on the two clusters that share it. */
  lemma {:induction false} PairsLocal(q: Squares, q': Squares, k: Pos, d: Dir, n: nat)
    requires q.s == q'.s
    requires forall a: Addr :: a.k == k || a.k == Step(k, d) ==>
               (a in q.open <==> a in q'.open) && q.IdOf(a) == q'.IdOf(a)
    ensures q.Pairs(k, d, n) == q'.Pairs(k, d, n)
  {
    if n > 0 {
      PairsLocal(q, q', k, d, n - 1);
      assert q.Near(k, d, n - 1).k == k && q.Far(k, d, n - 1).k == Step(k, d);
    }
  }

  lemma {:induction false} TouchedMonotone(q: Squares, k: Pos, d: Dir, n: nat, n': nat, m: int)
    requires n <= n'
    ensures q.Touched(k, d, n, m) <= q.Touched(k, d, n', m)
    decreases n'
  {
    if n < n' { TouchedMonotone(q, k, d, n, n' - 1, m); }
  }

  lemma {:induction false} TouchedBound(q: Squares, k: Pos, d: Dir, n: nat, m: int)
    ensures q.Touched(k, d, n, m) <= q.PairCount(k, d, n)
  {
    if n > 0 { TouchedBound(q, k, d, n - 1, m); }
  }

  /** Neighbouring open squares of one cluster carry the same id. */
  ghost predicate Smooth(q: Squares, k: Pos) {
    forall a, b :: Adjacent(a, b) && Addr(k, a) in q.open && Addr(k, b) in q.open ==>
        q.IdOf(Addr(k, a)) == q.IdOf(Addr(k, b))
  }

  /** Two consecutive positions of a side hold at most one pair, so a side holds at most s / 2. */
  lemma {:induction false} PairCountBound(q: Squares, k: Pos, d: Dir, h: nat)
    requires IsDir(d) && Smooth(q, k) && Smooth(q, Step(k, d))
    ensures q.PairCount(k, d, 2 * h) <= h
  {
    if h > 0 {
      PairCountBound(q, k, d, h - 1);
      var n := 2 * h - 1;
      assert q.PairCount(k, d, 2 * h) == q.PairCount(k, d, n) + (if q.IsNew(k, d, 2 * h) then 1 else 0);
      assert q.PairCount(k, d, n) == q.PairCount(k, d, n - 1) + (if q.IsNew(k, d, n) then 1 else 0);
      if q.OpenPair(k, d, n - 1) && q.OpenPair(k, d, n) {
        assert Adjacent(Side(q.s, d, n - 1), Side(q.s, d, n));
        assert Adjacent(Side(q.s, Opposite(d), n - 1), Side(q.s, Opposite(d), n));
        assert q.PairAt(k, d, n - 1) == q.PairAt(k, d, n);
        assert q.PairAt(k, d, n - 1) in q.Pairs(k, d, n);
      }
    }
  }

  /** The adjacency list of clump m. */
  ghost function Entries(c: Cluster, m: int): seq<RelativeClumpId>
    requires SliceOk(c, m)
  {
    c.storage[c.clump[m].listIndex .. c.clump[m].listIndex + c.clump[m].numAdjacent]
  }

  ghost predicate SliceOk(c: Cluster, m: int) {
    && 0 <= m < |c.clump|
    && 0 <= c.clump[m].listIndex
    && 0 <= c.clump[m].numAdjacent <= c.clump[m].maxAdjacent
    && c.clump[m].listIndex + c.clump[m].maxAdjacent <= |c.storage|
  }

  /** Every edge clump has slots, at most half of the pool; they are inside the pool and do not overlap. */
  ghost predicate Slices(c: Cluster) {
    && 0 <= c.numEdgeClumps <= |c.clump|
    && (forall m {:trigger SliceOk(c, m)} :: 0 <= m < c.numEdgeClumps ==> SliceOk(c, m))
    && (forall m {:trigger c.clump[m].maxAdjacent} :: 0 <= m < c.numEdgeClumps ==>
          1 <= c.clump[m].maxAdjacent && 2 * c.clump[m].maxAdjacent <= |c.storage|)
    && (forall m, m' {:trigger c.clump[m].listIndex, c.clump[m'].listIndex} :: 0 <= m < m' < c.numEdgeClumps ==>
          c.clump[m].listIndex + c.clump[m].maxAdjacent <= c.clump[m'].listIndex)
  }

  /** Every edge clump's list holds each wanted neighbour exactly once and nothing else. */
  ghost predicate Lists(c: Cluster, want: iset<(int, RelativeClumpId)>) {
    && Slices(c)
    && forall m {:trigger ListOk(c, want, m)} :: 0 <= m < c.numEdgeClumps ==> ListOk(c, want, m)
  }

  ghost predicate ListOk(c: Cluster, want: iset<(int, RelativeClumpId)>, m: int) {
    && SliceOk(c, m)
    && Distinct(Entries(c, m))
    && forall r :: r in Entries(c, m) <==> (m, r) in want
  }

  function AddEntry(c: Cluster, m: int, r: RelativeClumpId): Cluster
    requires 0 <= m < |c.clump| && 0 <= c.clump[m].listIndex + c.clump[m].numAdjacent < |c.storage|
  {
    var e := c.clump[m];
    c.(storage := c.storage[e.listIndex + e.numAdjacent := r],
       clump := c.clump[m := e.(numAdjacent := e.numAdjacent + 1)])
  }

  lemma AddEntryLists(c: Cluster, want: iset<(int, RelativeClumpId)>, m: int, r: RelativeClumpId)
    requires Lists(c, want) && 0 <= m < c.numEdgeClumps && (m, r) !in want
    requires c.clump[m].numAdjacent < c.clump[m].maxAdjacent
    ensures SliceOk(c, m)
    ensures Lists(AddEntry(c, m, r), want + iset{(m, r)})
  {
    assert SliceOk(c, m) && ListOk(c, want, m);
    var c', want' := AddEntry(c, m, r), want + iset{(m, r)};
    forall m' | 0 <= m' < c.numEdgeClumps
      ensures SliceOk(c', m') && ListOk(c', want', m')
    {
      assert SliceOk(c, m') && ListOk(c, want, m');
      if m' == m {
        assert Entries(c', m) == Entries(c, m) + [r];
      } else {
        assert Entries(c', m') == Entries(c, m');
      }
    }
  }

  function RemoveEntry(c: Cluster, m: int, i: int): Cluster
    requires 0 <= m < |c.clump| && 0 <= c.clump[m].listIndex && 0 <= i < c.clump[m].numAdjacent
    requires c.clump[m].listIndex + c.clump[m].numAdjacent <= |c.storage|
  {
    var e := c.clump[m];
    c.(storage := c.storage[e.listIndex + i := c.storage[e.listIndex + e.numAdjacent - 1]],
       clump := c.clump[m := e.(numAdjacent := e.numAdjacent - 1)])
  }

  lemma RemovedFromSeq<T(!new)>(e: seq<T>, e': seq<T>, i: int)
    requires Distinct(e) && 0 <= i < |e| && e' == e[i := e[|e| - 1]][..|e| - 1]
    ensures Distinct(e')
    ensures forall r :: r in e' <==> r in e && r != e[i]
  {
    forall r | r in e && r != e[i] ensures r in e' {
      var j :| 0 <= j < |e| && e[j] == r;
      if j == |e| - 1 { assert e'[i] == r; } else { assert e'[j] == r; }
    }
  }

  lemma RemoveEntryLists(c: Cluster, want: iset<(int, RelativeClumpId)>, m: int, i: int)
    requires Lists(c, want) && 0 <= m < c.numEdgeClumps && SliceOk(c, m) && 0 <= i < c.clump[m].numAdjacent
    ensures Lists(RemoveEntry(c, m, i), want - iset{(m, Entries(c, m)[i])})
  {
    var c', want' := RemoveEntry(c, m, i), want - iset{(m, Entries(c, m)[i])};
    assert ListOk(c, want, m);
    forall m' | 0 <= m' < c.numEdgeClumps
      ensures SliceOk(c', m') && ListOk(c', want', m')
    {
      assert SliceOk(c, m') && ListOk(c, want, m');
      if m' == m {
        RemoveFromList(c, want, m, i);
      } else {
        assert Entries(c', m') == Entries(c, m');
      }
    }
  }

  lemma RemoveFromList(c: Cluster, want: iset<(int, RelativeClumpId)>, m: int, i: int)
    requires 0 <= m < |c.clump| && SliceOk(c, m) && ListOk(c, want, m) && 0 <= i < c.clump[m].numAdjacent
    ensures SliceOk(RemoveEntry(c, m, i), m)
    ensures ListOk(RemoveEntry(c, m, i), want - iset{(m, Entries(c, m)[i])}, m)
  {
    var c', e := RemoveEntry(c, m, i), Entries(c, m);
    assert Entries(c', m) == e[i := e[|e| - 1]][..|e| - 1];
    RemovedFromSeq(e, Entries(c', m), i);
  }

  /** The neighbours the clumps of cluster k touch in the directions D. */
  ghost function Wanted(q: Squares, k: Pos, D: set<Dir>): iset<(int, RelativeClumpId)> {
    iset p: (int, RelativeClumpId) | DirOf(p.1) in D && (p.0, p.1.index) in q.Pairs(k, DirOf(p.1), q.s)
  }

  /** The same, with direction d only as far as position n. */
  ghost function WantedPart(q: Squares, k: Pos, D: set<Dir>, d: Dir, n: nat): iset<(int, RelativeClumpId)> {
    iset p: (int, RelativeClumpId) | p in Wanted(q, k, D - {d})
        || (DirOf(p.1) == d && (p.0, p.1.index) in q.Pairs(k, d, n))
  }

  lemma WantedPartEnds(q: Squares, k: Pos, D: set<Dir>, d: Dir)
    ensures WantedPart(q, k, D, d, 0) == Wanted(q, k, D - {d})
    ensures WantedPart(q, k, D, d, q.s) == Wanted(q, k, D + {d})
  {}

  lemma WantedPartStep(q: Squares, k: Pos, D: set<Dir>, d: Dir, n: nat)
    ensures var p := q.PairAt(k, d, n);
            if q.IsNew(k, d, n + 1)
            then (p.0, Rel(p.1, d.dx, d.dy)) !in WantedPart(q, k, D, d, n)
                 && WantedPart(q, k, D, d, n + 1) == WantedPart(q, k, D, d, n) + iset{(p.0, Rel(p.1, d.dx, d.dy))}
            else WantedPart(q, k, D, d, n + 1) == WantedPart(q, k, D, d, n)
  {
    var p := q.PairAt(k, d, n);
    if q.IsNew(k, d, n + 1) {
      forall e: (int, RelativeClumpId) | e in WantedPart(q, k, D, d, n + 1)
        ensures e in WantedPart(q, k, D, d, n) + iset{(p.0, Rel(p.1, d.dx, d.dy))}
      {
        if e !in WantedPart(q, k, D, d, n) {
          assert DirOf(e.1) == d && (e.0, e.1.index) == p;
        }
      }
    }
  }

  /** No square outside the grid is open, so nothing is wanted across the map's edge. */
  lemma {:induction false} NoPairsOutside(q: Squares, k: Pos, d: Dir, n: nat)
    requires forall a: Addr :: a.k == Step(k, d) ==> a !in q.open
    ensures q.Pairs(k, d, n) == {} && q.PairCount(k, d, n) == 0 && forall m :: q.Touched(k, d, n, m) == 0
  {
    if n > 0 {
      NoPairsOutside(q, k, d, n - 1);
      assert q.Far(k, d, n - 1).k == Step(k, d);
    }
  }

  /** Everything but the list contents and the rebuild flag. */
  ghost predicate SameShape(c: Cluster, c': Cluster) {
    && c.numClumps == c'.numClumps && c.numEdgeClumps == c'.numEdgeClumps
    && |c.clump| == |c'.clump| && |c.storage| == |c'.storage|
    && forall m {:trigger c'.clump[m]} :: 0 <= m < |c.clump| ==>
         && c.clump[m].globalLabel == c'.clump[m].globalLabel
         && c.clump[m].listIndex == c'.clump[m].listIndex
         && c.clump[m].maxAdjacent == c'.clump[m].maxAdjacent
  }

  /** The border squares of a cluster lie in clumps that have adjacency slots. */
  ghost predicate Numbered(q: Squares, k: Pos, numEdge: int) {
    && numEdge <= MaxExits(q.s)
    && forall l {:trigger Addr(k, l)} :: InBox(q.s, l) && OnBorder(q.s, l) && Addr(k, l) in q.open ==>
        0 <= q.IdOf(Addr(k, l)) < numEdge
  }

  /** Clump m of c0 has no slot left for all the clumps it touches in direction d. */
  ghost predicate Overflows(q: Squares, k: Pos, d: Dir, c0: Cluster, m: int) {
    0 <= m < c0.numEdgeClumps <= |c0.clump|
        && c0.clump[m].numAdjacent + q.Touched(k, d, q.s, m) > c0.clump[m].maxAdjacent
  }

  /** What stbcc__add_clump_connection does to the record of the near cluster. */
  ghost function WithConnection(c: Cluster, m: int, r: RelativeClumpId): Cluster
    requires SliceOk(c, m)
  {
    if c.clump[m].numAdjacent == c.clump[m].maxAdjacent then c.(rebuildAdjacency := true) else AddEntry(c, m, r)
  }

  /** The first n positions have been added to what c0 held. */
  ghost predicate AddState(q: Squares, k: Pos, D: set<Dir>, d: Dir, n: nat, c0: Cluster, c: Cluster) {
    && SameShape(c0, c) && !c.rebuildAdjacency
    && Lists(c, WantedPart(q, k, D, d, n))
    && forall m {:trigger c.clump[m]} :: 0 <= m < c.numEdgeClumps ==>
        c.clump[m].numAdjacent == c0.clump[m].numAdjacent + q.Touched(k, d, n, m)
  }

  lemma AddNew(q: Squares, k: Pos, D: set<Dir>, d: Dir, n: nat, c0: Cluster, c: Cluster)
    requires AddState(q, k, D, d, n, c0, c) && q.IsNew(k, d, n + 1) && n < q.s
    requires 0 <= q.PairAt(k, d, n).0 < c0.numEdgeClumps
    ensures SliceOk(c, q.PairAt(k, d, n).0)
    ensures q.Pairs(k, d, n + 1) == q.Pairs(k, d, n) + {q.PairAt(k, d, n)}
    ensures var p := q.PairAt(k, d, n);
            var c' := WithConnection(c, p.0, Rel(p.1, d.dx, d.dy));
            if c'.rebuildAdjacency then SameShape(c0, c') && Overflows(q, k, d, c0, p.0)
                else AddState(q, k, D, d, n + 1, c0, c')
  {
    var p := q.PairAt(k, d, n);
    assert SliceOk(c, p.0);
    if c.clump[p.0].numAdjacent == c.clump[p.0].maxAdjacent {
      AddOverflows(q, k, D, d, n, c0, c);
    } else {
      AddFits(q, k, D, d, n, c0, c);
    }
  }

  lemma TouchedNew(q: Squares, k: Pos, d: Dir, n: nat)
    requires q.IsNew(k, d, n + 1)
    ensures q.Touched(k, d, n + 1, q.PairAt(k, d, n).0) == q.Touched(k, d, n, q.PairAt(k, d, n).0) + 1
  {}

  lemma AddOverflows(q: Squares, k: Pos, D: set<Dir>, d: Dir, n: nat, c0: Cluster, c: Cluster)
    requires AddState(q, k, D, d, n, c0, c) && q.IsNew(k, d, n + 1) && n < q.s
    requires var m := q.PairAt(k, d, n).0;
             0 <= m < c0.numEdgeClumps && SliceOk(c, m) && c.clump[m].numAdjacent == c.clump[m].maxAdjacent
    ensures Overflows(q, k, d, c0, q.PairAt(k, d, n).0) && SameShape(c0, c)
  {
    hide WantedPart, Squares.Touched, Squares.IsNew, ListOk;
    var p := q.PairAt(k, d, n);
    TouchedNew(q, k, d, n);
    TouchedMonotone(q, k, d, n + 1, q.s, p.0);
  }

  lemma AddFits(q: Squares, k: Pos, D: set<Dir>, d: Dir, n: nat, c0: Cluster, c: Cluster)
    requires AddState(q, k, D, d, n, c0, c) && q.IsNew(k, d, n + 1) && n < q.s
    requires var m := q.PairAt(k, d, n).0;
             0 <= m < c0.numEdgeClumps && SliceOk(c, m) && c.clump[m].numAdjacent != c.clump[m].maxAdjacent
    ensures var p := q.PairAt(k, d, n);
            AddState(q, k, D, d, n + 1, c0, WithConnection(c, p.0, Rel(p.1, d.dx, d.dy)))
  {
    var p := q.PairAt(k, d, n);
    WantedPartStep(q, k, D, d, n);
    AddEntryLists(c, WantedPart(q, k, D, d, n), p.0, Rel(p.1, d.dx, d.dy));
    hide Lists, WantedPart;
  }

  lemma AddOld(q: Squares, k: Pos, D: set<Dir>, d: Dir, n: nat, c0: Cluster, c: Cluster)
    requires AddState(q, k, D, d, n, c0, c) && !q.IsNew(k, d, n + 1)
    ensures AddState(q, k, D, d, n + 1, c0, c) && !c.rebuildAdjacency
    ensures q.Pairs(k, d, n + 1) == q.Pairs(k, d, n)
  {
    WantedPartStep(q, k, D, d, n);
  }

  lemma StartAdd(q: Squares, k: Pos, D: set<Dir>, d: Dir, c: Cluster)
    requires Lists(c, Wanted(q, k, D)) && d !in D && !c.rebuildAdjacency
    ensures AddState(q, k, D, d, 0, c, c)
  {
    assert D - {d} == D;
    WantedPartEnds(q, k, D, d);
    assert forall m :: q.Touched(k, d, 0, m) == 0;
  }

  lemma AddOutside(q: Squares, k: Pos, D: set<Dir>, d: Dir, c: Cluster)
    requires Lists(c, Wanted(q, k, D)) && d !in D && !c.rebuildAdjacency
    requires forall a: Addr :: a.k == Step(k, d) ==> a !in q.open
    ensures AddState(q, k, D, d, q.s, c, c)
  {
    StartAdd(q, k, D, d, c);
    NoPairsOutside(q, k, d, q.s);
    assert WantedPart(q, k, D, d, 0) == WantedPart(q, k, D, d, q.s);
  }

  lemma Added(q: Squares, k: Pos, D: set<Dir>, d: Dir, c0: Cluster, c: Cluster)
    requires AddState(q, k, D, d, q.s, c0, c)
    ensures SameShape(c0, c) && !c.rebuildAdjacency && Lists(c, Wanted(q, k, D + {d}))
  {
    WantedPartEnds(q, k, D, d);
  }

  /** What is left of the wanted entries once direction d is dropped up to position n. */
  ghost function WantedLess(q: Squares, k: Pos, D: set<Dir>, d: Dir, n: nat): iset<(int, RelativeClumpId)> {
    iset p: (int, RelativeClumpId) | p in Wanted(q, k, D) && !(DirOf(p.1) == d && (p.0, p.1.index) in q.Pairs(k, d, n))
  }

  ghost predicate RemoveState(q: Squares, k: Pos, D: set<Dir>, d: Dir, n: nat, c0: Cluster, c: Cluster) {
    SameShape(c0, c) && c.rebuildAdjacency == c0.rebuildAdjacency && Lists(c, WantedLess(q, k, D, d, n))
  }

  lemma StartRemove(q: Squares, k: Pos, D: set<Dir>, d: Dir, c: Cluster)
    requires Lists(c, Wanted(q, k, D))
    ensures RemoveState(q, k, D, d, 0, c, c)
  {
    assert WantedLess(q, k, D, d, 0) == Wanted(q, k, D);
  }

  lemma RemoveOld(q: Squares, k: Pos, D: set<Dir>, d: Dir, n: nat, c0: Cluster, c: Cluster)
    requires RemoveState(q, k, D, d, n, c0, c) && !q.IsNew(k, d, n + 1)
    ensures RemoveState(q, k, D, d, n + 1, c0, c)
    ensures q.Pairs(k, d, n + 1) == q.Pairs(k, d, n)
  {
    assert WantedLess(q, k, D, d, n + 1) == WantedLess(q, k, D, d, n);
  }

  /** The entry of a pair met for the first time is in the list, and removing it leaves the rest. */
  lemma RemoveNew(q: Squares, k: Pos, D: set<Dir>, d: Dir, n: nat, c0: Cluster, c: Cluster)
    requires RemoveState(q, k, D, d, n, c0, c) && q.IsNew(k, d, n + 1) && n < q.s && d in D
    requires 0 <= q.PairAt(k, d, n).0 < c0.numEdgeClumps
    ensures SliceOk(c, q.PairAt(k, d, n).0)
    ensures q.Pairs(k, d, n + 1) == q.Pairs(k, d, n) + {q.PairAt(k, d, n)}
    ensures var p := q.PairAt(k, d, n);
            && Rel(p.1, d.dx, d.dy) in Entries(c, p.0)
            && forall i :: 0 <= i < c.clump[p.0].numAdjacent && Entries(c, p.0)[i] == Rel(p.1, d.dx, d.dy) ==>
                 RemoveState(q, k, D, d, n + 1, c0, RemoveEntry(c, p.0, i))
  {
    var p := q.PairAt(k, d, n);
    var r := Rel(p.1, d.dx, d.dy);
    var want := WantedLess(q, k, D, d, n);
    assert ListOk(c, want, p.0);
    PairsMonotone(q, k, d, n + 1, q.s);
    assert p in q.Pairs(k, d, n + 1);
    assert (p.0, r) in want;
    forall i | 0 <= i < c.clump[p.0].numAdjacent && Entries(c, p.0)[i] == r
      ensures RemoveState(q, k, D, d, n + 1, c0, RemoveEntry(c, p.0, i))
    {
      RemoveEntryLists(c, want, p.0, i);
      assert WantedLess(q, k, D, d, n + 1) == want - iset{(p.0, r)};
    }
  }

  lemma Removed(q: Squares, k: Pos, D: set<Dir>, d: Dir, c0: Cluster, c: Cluster)
    requires RemoveState(q, k, D, d, q.s, c0, c)
    ensures Lists(c, Wanted(q, k, D - {d}))
  {
    assert WantedLess(q, k, D, d, q.s) == Wanted(q, k, D - {d});
  }

  lemma RemoveOutside(q: Squares, k: Pos, D: set<Dir>, d: Dir, c: Cluster)
    requires Lists(c, Wanted(q, k, D))
    requires forall a: Addr :: a.k == Step(k, d) ==> a !in q.open
    ensures RemoveState(q, k, D, d, q.s, c, c)
  {
    NoPairsOutside(q, k, d, q.s);
    assert WantedLess(q, k, D, d, q.s) == Wanted(q, k, D);
  }
}
