/** stbcc__build_all_connections_for_cluster: sizing a cluster's adjacency lists and filling them. */
module Rebuild {
  import opened GridModel
  import opened GridState
  import opened ClusterStore
  import opened Adjacency
  import opened Connections

  ghost function Sum(v: seq<int>): int {
    if v == [] then 0 else Sum(v[..|v| - 1]) + v[|v| - 1]
  }

  lemma {:induction false} SumUpdate(v: seq<int>, i: int, e: int)
    requires 0 <= i < |v|
    ensures Sum(v[i := v[i] + e]) == Sum(v) + e
  {
    var v' := v[i := v[i] + e];
    if i == |v| - 1 {
      assert v'[..|v| - 1] == v[..|v| - 1];
    } else {
      SumUpdate(v[..|v| - 1], i, e);
      assert v'[..|v| - 1] == v[..|v| - 1][i := v[i] + e];
    }
  }

  lemma {:induction false} SumPrefix(v: seq<int>, i: int)
    requires 0 <= i <= |v| && forall m :: 0 <= m < |v| ==> v[m] >= 0
    ensures 0 <= Sum(v[..i]) <= Sum(v)
    ensures i < |v| ==> Sum(v[..i + 1]) == Sum(v[..i]) + v[i]
    ensures forall m :: 0 <= m < |v| ==> v[m] <= Sum(v)
  {
    if v == [] {
    } else if i == |v| {
      assert v[..i] == v;
      SumPrefix(v[..|v| - 1], i - 1);
      assert v[..|v| - 1][..i - 1] == v[..|v| - 1];
    } else {
      assert v[..i + 1][..i] == v[..i];
      SumPrefix(v[..|v| - 1], i);
      assert v[..|v| - 1][..i] == v[..i];
    }
  }

  lemma {:induction false} SumZeros(v: seq<int>)
    requires forall m :: 0 <= m < |v| ==> v[m] == 0
    ensures Sum(v) == 0
  {
    if v != [] { SumZeros(v[..|v| - 1]); }
  }

  /** The number of slots clump m needs. */
  ghost function Exits(q: Squares, k: Pos, m: int): nat {
    q.Touched(k, Dir(1, 0), q.s, m) + q.Touched(k, Dir(-1, 0), q.s, m) + q.Touched(k, Dir(0, -1), q.s, m)
        + q.Touched(k, Dir(0, 1), q.s, m)
  }

  ghost function ExitTotal(q: Squares, k: Pos): nat {
    q.PairCount(k, Dir(1, 0), q.s) + q.PairCount(k, Dir(-1, 0), q.s) + q.PairCount(k, Dir(0, -1), q.s)
        + q.PairCount(k, Dir(0, 1), q.s)
  }

  /** counts is base plus what the first n positions of a side add. */
  ghost predicate Counted(q: Squares, k: Pos, d: Dir, n: nat, base: seq<int>, counts: seq<int>, baseTotal: int,
                          total: int) {
    && |base| == |counts|
    && (forall m {:trigger counts[m]} :: 0 <= m < |counts| ==> counts[m] == base[m] + q.Touched(k, d, n, m))
    && total == baseTotal + q.PairCount(k, d, n)
    && (baseTotal == Sum(base) ==> total == Sum(counts))
  }

  lemma CountNew(q: Squares, k: Pos, d: Dir, n: nat, base: seq<int>, counts: seq<int>, baseTotal: int, total: int)
    requires Counted(q, k, d, n, base, counts, baseTotal, total) && q.IsNew(k, d, n + 1)
    requires 0 <= q.PairAt(k, d, n).0 < |counts|
    ensures var p := q.PairAt(k, d, n).0;
            Counted(q, k, d, n + 1, base, counts[p := counts[p] + 1], baseTotal, total + 1)
    ensures q.Pairs(k, d, n + 1) == q.Pairs(k, d, n) + {q.PairAt(k, d, n)}
  {
    SumUpdate(counts, q.PairAt(k, d, n).0, 1);
  }

  lemma CountOld(q: Squares, k: Pos, d: Dir, n: nat, base: seq<int>, counts: seq<int>, baseTotal: int, total: int)
    requires Counted(q, k, d, n, base, counts, baseTotal, total) && !q.IsNew(k, d, n + 1)
    ensures Counted(q, k, d, n + 1, base, counts, baseTotal, total)
    ensures q.Pairs(k, d, n + 1) == q.Pairs(k, d, n)
  {}

  lemma CountOutside(q: Squares, k: Pos, d: Dir, base: seq<int>, total: int)
    requires forall a: Addr :: a.k == Step(k, d) ==> a !in q.open
    ensures Counted(q, k, d, q.s, base, base, total, total)
  {
    NoPairsOutside(q, k, d, q.s);
  }

  method CountPosition(g: Grid, ghost k: Pos, ghost q: Squares, ghost d: Dir, ghost t: nat, x: int, y: int, dx: int,
                       dy: int,
                       marks: array3<bool>, numAdj: array<int>, ghost base: seq<int>, ghost baseTotal: int, total: int)
    returns (total': int)
    requires g.Dims() && g.HasPos(k) && g.HasPos(Step(k, d)) && IsDir(d) && d == Dir(dx, dy) && t < g.size
             && q == SquaresOf(g)
    requires Locates(g, Addr(k, Side(g.size, d, t)), x, y)
    requires exists e :: e <= numAdj.Length && BothNumbered(q, k, d, e)
    requires Marks(marks, MaxExits(g.size), q.Pairs(k, d, t))
    requires Counted(q, k, d, t, base, numAdj[..], baseTotal, total)
    modifies marks, numAdj
    ensures Marks(marks, MaxExits(g.size), q.Pairs(k, d, t + 1))
    ensures Counted(q, k, d, t + 1, base, numAdj[..], baseTotal, total')
  {
    hide Grid.Ids, Grid.Open, Marks, Counted, BothNumbered, Squares.Pairs;
    total' := total;
    var both, src, dest := ReadPair(g, k, d, t, x, y, dx, dy);
    if both {
      ghost var e :| e <= numAdj.Length && BothNumbered(q, k, d, e);
      PairInRange(q, k, d, t, e);
      var seen := Marked(marks, MaxExits(g.size), q.Pairs(k, d, t), src, dest);
      if !seen {
        CountNew(q, k, d, t, base, numAdj[..], baseTotal, total);
        Mark(marks, MaxExits(g.size), q.Pairs(k, d, t), src, dest);
        ghost var before := numAdj[..];
        numAdj[src] := numAdj[src] + 1;
        assert numAdj[..] == before[src := before[src] + 1];
        total' := total + 1;
        return;
      }
    }
    CountOld(q, k, d, t, base, numAdj[..], baseTotal, total);
  }

  /** Counts the clumps each clump of cluster (cx, cy) touches in direction (dx, dy). */
  method CountSide(g: Grid, cx: int, cy: int, dx: int, dy: int, ghost q: Squares, ghost numEdge: int,
                   numAdj: array<int>, total0: int)
    returns (total: int)
    requires g.Dims() && IsDir(Dir(dx, dy)) && q == SquaresOf(g) && g.HasPos(Pos(cx, cy))
    requires numEdge <= numAdj.Length && BothNumbered(q, Pos(cx, cy), Dir(dx, dy), numEdge)
    modifies numAdj
    ensures Counted(q, Pos(cx, cy), Dir(dx, dy), q.s, old(numAdj[..]), numAdj[..], total0, total)
  {
    hide Grid.Ids, Marks, Counted, BothNumbered, Squares.Pairs;
    ghost var k, d := Pos(cx, cy), Dir(dx, dy);
    ghost var base := numAdj[..];
    total := total0;
    if cx + dx < 0 || cx + dx >= g.cw || cy + dy < 0 || cy + dy >= g.ch {
      CountOutside(q, k, d, base, total0);
      return;
    }
    total := CountAlongSide(g, cx, cy, dx, dy, q, numEdge, numAdj, total0);
  }

  lemma NothingCounted(q: Squares, k: Pos, d: Dir, base: seq<int>, total: int)
    ensures Counted(q, k, d, 0, base, base, total, total)
  {
    assert forall m :: q.Touched(k, d, 0, m) == 0;
  }

  method CountAlongSide(g: Grid, cx: int, cy: int, dx: int, dy: int, ghost q: Squares, ghost numEdge: int,
                        numAdj: array<int>, total0: int)
    returns (total: int)
    requires g.Dims() && IsDir(Dir(dx, dy)) && q == SquaresOf(g) && g.HasPos(Pos(cx, cy))
             && g.HasPos(Step(Pos(cx, cy), Dir(dx, dy)))
    requires numEdge <= numAdj.Length && BothNumbered(q, Pos(cx, cy), Dir(dx, dy), numEdge)
    modifies numAdj
    ensures Counted(q, Pos(cx, cy), Dir(dx, dy), q.s, old(numAdj[..]), numAdj[..], total0, total)
  {
    hide Grid.Ids, Grid.Open, Marks, Counted, BothNumbered, Squares.Pairs;
    ghost var k, d := Pos(cx, cy), Dir(dx, dy);
    ghost var base := numAdj[..];
    total := total0;
    var x, y := cx * g.size, cy * g.size;
    var i, j, stepX, stepY := SideScan(g.size, dx, dy);
    var marks := NoMarks(MaxExits(g.size));
    NothingCounted(q, k, d, base, total0);
    NoPairsYet(q, k, d);
    for t := 0 to g.size
      invariant Cell(i, j) == Side(g.size, d, t)
      invariant q == SquaresOf(g)
      invariant Marks(marks, MaxExits(g.size), q.Pairs(k, d, t)) && Counted(q, k, d, t, base, numAdj[..], total0, total)
    {
      SideInBox(g.size, d, t);
      total := CountPosition(g, k, q, d, t, x + i, y + j, dx, dy, marks, numAdj, base, total0, total);
      i, j := i + stepX, j + stepY;
    }
  }

  /** All that adding and removing connections around cluster k rely on. */
  ghost predicate Surroundings(q: Squares, k: Pos, numEdge: int) {
    && Smooth(q, k)
    && forall d {:trigger Step(k, d)} :: IsDir(d) ==> Smooth(q, Step(k, d)) && BothNumbered(q, k, d, numEdge)
  }

  /** Both the exits of one clump and those of the whole cluster fit the compile-time bound. */
  lemma ExitsBound(q: Squares, k: Pos, numEdge: int, m: int)
    requires Surroundings(q, k, numEdge) && q.s % 2 == 0
    ensures Exits(q, k, m) <= ExitTotal(q, k) <= MaxExits(q.s) == 2 * q.s
  {
    var h := q.s / 2;
    forall d | IsDir(d) ensures q.PairCount(k, d, q.s) <= h && q.Touched(k, d, q.s, m) <= q.PairCount(k, d, q.s) {
      assert Step(k, d) == Step(k, d);
      PairCountBound(q, k, d, h);
      TouchedBound(q, k, d, q.s, m);
    }
  }

  /** The counts of all four sides together. */
  ghost predicate AllCounted(q: Squares, k: Pos, counts: seq<int>, total: int) {
    && (forall m {:trigger counts[m]} :: 0 <= m < |counts| ==> counts[m] == Exits(q, k, m))
    && total == ExitTotal(q, k) == Sum(counts)
  }

  method CountAll(g: Grid, cx: int, cy: int, ghost q: Squares, ghost numEdge: int)
    returns (numAdj: array<int>, total: int)
    requires g.Dims() && q == SquaresOf(g) && g.HasPos(Pos(cx, cy)) && numEdge <= MaxClumps(g.size)
    requires Surroundings(q, Pos(cx, cy), numEdge)
    ensures fresh(numAdj) && numAdj.Length == MaxClumps(g.size)
    ensures AllCounted(q, Pos(cx, cy), numAdj[..], total)
  {
    hide Grid.Ids, Grid.Open, BothNumbered, Smooth;
    ghost var k := Pos(cx, cy);
    assert g.size * g.size >= 0;
    numAdj := new int[MaxClumps(g.size)](_ => 0);
    SumZeros(numAdj[..]);
    assert Step(k, Dir(1, 0)) == Step(k, Dir(1, 0)) && Step(k, Dir(-1, 0)) == Step(k, Dir(-1, 0));
    assert Step(k, Dir(0, 1)) == Step(k, Dir(0, 1)) && Step(k, Dir(0, -1)) == Step(k, Dir(0, -1));
    total := CountSide(g, cx, cy, 1, 0, q, numEdge, numAdj, 0);
    total := CountSide(g, cx, cy, -1, 0, q, numEdge, numAdj, total);
    total := CountSide(g, cx, cy, 0, -1, q, numEdge, numAdj, total);
    total := CountSide(g, cx, cy, 0, 1, q, numEdge, numAdj, total);
  }

  /** Lists, labels and counts of a cluster may change, its clumps stay. */
  ghost predicate ClumpsKept(c: Cluster, c': Cluster) {
    && c.numClumps == c'.numClumps && c.numEdgeClumps == c'.numEdgeClumps
    && |c.clump| == |c'.clump| && |c.storage| == |c'.storage|
    && forall m {:trigger c'.clump[m]} :: 0 <= m < |c.clump| ==> c.clump[m].globalLabel == c'.clump[m].globalLabel
  }

  /** Empty lists, each with room for every clump its owner touches. */
  ghost predicate Roomy(q: Squares, k: Pos, c: Cluster) {
    && Slices(c)
    && forall m {:trigger c.clump[m]} :: 0 <= m < c.numEdgeClumps ==>
         && c.clump[m].numAdjacent == 0
         && Exits(q, k, m) <= c.clump[m].maxAdjacent && 1 <= c.clump[m].maxAdjacent <= MaxExits(q.s)
  }

  /** Where a slice starts and how long it is fits the byte kept for it. */
  ghost predicate FitsBytes(c: Cluster, m: int)
    requires 0 <= m < |c.clump|
  {
    0 <= c.clump[m].listIndex < 256 && 0 <= c.clump[m].maxAdjacent < 256
  }

  /** Slices that own a slot of a pool of 256 start below 256. */
  lemma SlicesFitBytes(s: int, c: Cluster)
    requires Slices(c) && Sized(s, c) && s <= 64
    ensures forall m {:trigger FitsBytes(c, m)} :: 0 <= m < c.numEdgeClumps <= |c.clump| ==> FitsBytes(c, m)
  {
    forall m | 0 <= m < c.numEdgeClumps <= |c.clump| ensures FitsBytes(c, m) {
      assert SliceOk(c, m);
    }
  }

  /** Larger sides: s clumps at the border and no exits, four spare slots each, and the last slice starts too high. */
  lemma StartsNeedSide64(s: int)
    requires s > 64
    ensures s <= 2 * s - 2 && Extra(s, 0, s) == 4 && (s - 1) * Extra(s, 0, s) >= 256
  {}

  /** The counters of the rebuild fit their bytes as well. */
  lemma CountersFitBytes(q: Squares, k: Pos, numEdge: int, counts: seq<int>, total: int)
    requires Surroundings(q, k, numEdge) && q.s % 4 == 0 && q.s <= 64 && AllCounted(q, k, counts, total)
    ensures forall m {:trigger counts[m]} :: 0 <= m < |counts| ==> 0 <= counts[m] < 256
  {
    assert q.s % 2 == 0;
    forall m | 0 <= m < |counts| ensures 0 <= counts[m] < 256 { ExitsBound(q, k, numEdge, m); }
  }

  function Extra(s: int, total: int, numEdge: int): int {
    if total + numEdge * 4 <= AdjacencyCount(s) then 4
    else if total + numEdge * 2 <= AdjacencyCount(s) then 2
    else if total + numEdge <= AdjacencyCount(s) then 1
    else 0
  }

  /** After i clumps there is room left for clump i's exits and its spare slots. */
  lemma SlotsFit(s: int, v: seq<int>, total: int, numEdge: int, i: int)
    requires total == Sum(v) <= MaxExits(s) && 0 <= i < numEdge <= |v| && numEdge <= MaxExits(s)
    requires forall m :: 0 <= m < |v| ==> v[m] >= 0
    ensures var extra := Extra(s, total, numEdge);
            && extra >= 1
            && Sum(v[..i + 1]) + (i + 1) * extra == (Sum(v[..i]) + i * extra) + (v[i] + extra) <= AdjacencyCount(s)
  {
    SumPrefix(v, i);
    SumPrefix(v, i + 1);
  }

  /** Hands out the adjacency pool, giving every edge clump the same number of spare slots. */
  method Apportion(ghost q: Squares, ghost k: Pos, c0: Cluster, s: int, numAdj: array<int>, total: int)
    returns (c: Cluster)
    requires s == q.s && Sized(s, c0) && 0 <= c0.numEdgeClumps <= |c0.clump| && c0.numEdgeClumps <= MaxExits(s)
    requires numAdj.Length == |c0.clump| && AllCounted(q, k, numAdj[..], total) && total <= MaxExits(s)
    ensures ClumpsKept(c0, c) && c.rebuildAdjacency == c0.rebuildAdjacency && Roomy(q, k, c)
    ensures s <= 64 ==> forall m {:trigger FitsBytes(c, m)} :: 0 <= m < c.numEdgeClumps <= |c.clump| ==> FitsBytes(c, m)
    ensures var n := c0.numEdgeClumps;
            var extra := if total + n * 4 <= 4 * s then 4
                         else if total + n * 2 <= 4 * s then 2
                         else if total + n <= 4 * s then 1
                         else 0;
            && n <= |c.clump|
            && (forall i {:trigger c.clump[i].maxAdjacent} :: 0 <= i < n ==>
                  c.clump[i].maxAdjacent == if numAdj[i] + extra > 2 * s then 2 * s else numAdj[i] + extra)
            && (n > 0 ==> c.clump[0].listIndex == 0)
            && forall i, j {:trigger c.clump[i].listIndex, c.clump[j].listIndex} :: 0 <= i < j < n && j == i + 1 ==>
                 c.clump[j].listIndex == c.clump[i].listIndex + c.clump[i].maxAdjacent
  {
    hide Extra, ClumpsKept, Handed, Exits, Roomy, HandedInTurn;
    var extra := Extra(s, total, c0.numEdgeClumps);
    ghost var v := numAdj[..];
    var used := 0;
    c := c0;
    assert v[..0] == [];
    NothingHanded(q, k, c0);
    NoneInTurn(c0, v, extra, s);
    for i := 0 to c0.numEdgeClumps
      invariant ClumpsKept(c0, c) && c.rebuildAdjacency == c0.rebuildAdjacency
      invariant 0 <= used <= Sum(v[..i]) + i * extra
      invariant Handed(q, k, c, i, used)
      invariant HandedInTurn(c, v, extra, s, i, used)
    {
      assert v[i] == Exits(q, k, i);
      SlotsFit(s, v, total, c0.numEdgeClumps, i);
      var alloc := numAdj[i] + extra;
      if alloc > MaxExits(s) {
        alloc := MaxExits(s);
      }
      assert used < AdjacencyCount(s);
      KeptSizes(c0, c);
      ExitsAtMost(v, i);
      HandOut(q, k, c, i, used, alloc);
      NextInTurn(c, v, extra, s, i, used, alloc);
      ghost var previous := c;
      c := c.(clump := c.clump[i := c.clump[i].(listIndex := used, maxAdjacent := alloc, numAdjacent := 0)]);
      ClumpsKeptTrans(c0, previous, c);
      used := used + alloc;
    }
    HandedOut(q, k, c0, c, used);
    KeptSizes(c0, c);
    RoomySlices(q, k, c);
    if s <= 64 { SlicesFitBytes(s, c); }
    AllInTurn(c, v, total, s, used);
  }

  /** The first i clumps have their exits and the spare slots, cut to 2 s, one slice behind the other up to `used`. */
  ghost predicate HandedInTurn(c: Cluster, v: seq<int>, extra: int, s: int, i: int, used: int) {
    && 0 <= i <= |c.clump| <= |v|
    && used == (if i == 0 then 0 else c.clump[i - 1].listIndex + c.clump[i - 1].maxAdjacent)
    && (forall m {:trigger c.clump[m].maxAdjacent} :: 0 <= m < i ==>
          c.clump[m].maxAdjacent == if v[m] + extra > 2 * s then 2 * s else v[m] + extra)
    && (i > 0 ==> c.clump[0].listIndex == 0)
    && forall m, m' {:trigger c.clump[m].listIndex, c.clump[m'].listIndex} :: 0 <= m < m' < i && m' == m + 1 ==>
         c.clump[m'].listIndex == c.clump[m].listIndex + c.clump[m].maxAdjacent
  }

  lemma NoneInTurn(c: Cluster, v: seq<int>, extra: int, s: int)
    requires |c.clump| <= |v|
    ensures HandedInTurn(c, v, extra, s, 0, 0)
  {}

  lemma NextInTurn(c: Cluster, v: seq<int>, extra: int, s: int, i: int, used: int, alloc: int)
    requires HandedInTurn(c, v, extra, s, i, used) && i < |c.clump|
    requires alloc == if v[i] + extra > 2 * s then 2 * s else v[i] + extra
    ensures var c' := c.(clump := c.clump[i := c.clump[i].(listIndex := used, maxAdjacent := alloc, numAdjacent := 0)]);
            HandedInTurn(c', v, extra, s, i + 1, used + alloc)
  {}

  lemma AllInTurn(c: Cluster, v: seq<int>, total: int, s: int, used: int)
    requires HandedInTurn(c, v, Extra(s, total, c.numEdgeClumps), s, c.numEdgeClumps, used)
    ensures var n := c.numEdgeClumps;
            var extra := if total + n * 4 <= 4 * s then 4
                         else if total + n * 2 <= 4 * s then 2
                         else if total + n <= 4 * s then 1
                         else 0;
            && 0 <= n <= |c.clump| <= |v|
            && (forall i {:trigger c.clump[i].maxAdjacent} :: 0 <= i < n ==>
                  c.clump[i].maxAdjacent == if v[i] + extra > 2 * s then 2 * s else v[i] + extra)
            && (n > 0 ==> c.clump[0].listIndex == 0)
            && forall i, j {:trigger c.clump[i].listIndex, c.clump[j].listIndex} :: 0 <= i < j < n && j == i + 1 ==>
                 c.clump[j].listIndex == c.clump[i].listIndex + c.clump[i].maxAdjacent
  {}

  lemma RoomySlices(q: Squares, k: Pos, c: Cluster)
    requires Roomy(q, k, c)
    ensures Slices(c)
  {}

  lemma ExitsAtMost(v: seq<int>, i: int)
    requires 0 <= i < |v| && forall m :: 0 <= m < |v| ==> v[m] >= 0
    ensures 0 <= v[i] <= Sum(v)
  {
    SumPrefix(v, i);
  }

  /** The first i clumps own disjoint slots below `used`. */
  ghost predicate Handed(q: Squares, k: Pos, c: Cluster, i: int, used: int) {
    && 0 <= i <= c.numEdgeClumps <= |c.clump|
    && (forall m {:trigger c.clump[m]} :: 0 <= m < i ==>
          && SliceOk(c, m) && c.clump[m].numAdjacent == 0
          && Exits(q, k, m) <= c.clump[m].maxAdjacent && 1 <= c.clump[m].maxAdjacent <= MaxExits(q.s)
          && 2 * c.clump[m].maxAdjacent <= |c.storage|
          && c.clump[m].listIndex + c.clump[m].maxAdjacent <= used)
    && forall m, m' {:trigger c.clump[m].listIndex, c.clump[m'].listIndex} :: 0 <= m < m' < i ==>
         c.clump[m].listIndex + c.clump[m].maxAdjacent <= c.clump[m'].listIndex
  }

  lemma HandOut(q: Squares, k: Pos, c: Cluster, i: int, used: int, alloc: int)
    requires Handed(q, k, c, i, used) && i < c.numEdgeClumps && 0 <= used
    requires Exits(q, k, i) <= alloc && 1 <= alloc <= MaxExits(q.s) && 2 * alloc <= |c.storage|
             && used + alloc <= |c.storage|
    ensures var c' := c.(clump := c.clump[i := c.clump[i].(listIndex := used, maxAdjacent := alloc, numAdjacent := 0)]);
            Handed(q, k, c', i + 1, used + alloc) && ClumpsKept(c, c')
  {}

  lemma ClumpsKeptTrans(c: Cluster, c': Cluster, c'': Cluster)
    requires ClumpsKept(c, c') && ClumpsKept(c', c'')
    ensures ClumpsKept(c, c'')
  {}

  lemma HandedOut(q: Squares, k: Pos, c0: Cluster, c: Cluster, used: int)
    requires ClumpsKept(c0, c) && Handed(q, k, c, c0.numEdgeClumps, used)
    ensures Roomy(q, k, c)
  {}

  lemma NothingHanded(q: Squares, k: Pos, c: Cluster)
    requires 0 <= c.numEdgeClumps <= |c.clump|
    ensures Handed(q, k, c, 0, 0) && ClumpsKept(c, c)
  {}

  lemma KeptSizes(c0: Cluster, c: Cluster)
    requires ClumpsKept(c0, c)
    ensures c0.numEdgeClumps == c.numEdgeClumps && |c.clump| == |c0.clump| && |c.storage| == |c0.storage|
  {}

  /** The entries clump m has once the directions D have been added to empty lists. */
  ghost function Used(q: Squares, k: Pos, D: set<Dir>, m: int): nat {
    (if Dir(-1, 0) in D then q.Touched(k, Dir(-1, 0), q.s, m) else 0)
    + (if Dir(1, 0) in D then q.Touched(k, Dir(1, 0), q.s, m) else 0)
    + (if Dir(0, -1) in D then q.Touched(k, Dir(0, -1), q.s, m) else 0)
    + (if Dir(0, 1) in D then q.Touched(k, Dir(0, 1), q.s, m) else 0)
  }

  /** The lists hold exactly the directions D, in the slots c0 handed out. */
  ghost predicate Filling(q: Squares, k: Pos, D: set<Dir>, c0: Cluster, c: Cluster) {
    && Roomy(q, k, c0) && SameShape(c0, c) && !c.rebuildAdjacency
    && Lists(c, Wanted(q, k, D))
    && forall m {:trigger c.clump[m]} :: 0 <= m < c.numEdgeClumps ==> c.clump[m].numAdjacent == Used(q, k, D, m)
  }

  lemma StartFilling(q: Squares, k: Pos, c: Cluster)
    requires Roomy(q, k, c) && !c.rebuildAdjacency
    ensures Filling(q, k, {}, c, c)
  {
    assert Wanted(q, k, {}) == iset{};
    forall m | 0 <= m < c.numEdgeClumps ensures ListOk(c, iset{}, m) {
      assert SliceOk(c, m);
    }
  }

  /** Lists sized for all exits never overflow while they are filled. */
  lemma NoOverflow(q: Squares, k: Pos, D: set<Dir>, d: Dir, c0: Cluster, c: Cluster, m: int)
    requires Filling(q, k, D, c0, c) && IsDir(d) && d !in D
    ensures !Overflows(q, k, d, c, m)
  {
    if 0 <= m < c.numEdgeClumps {
      assert c.clump[m].maxAdjacent == c0.clump[m].maxAdjacent;
    }
  }

  lemma UsedStep(q: Squares, k: Pos, D: set<Dir>, d: Dir, m: int)
    requires IsDir(d) && d !in D
    ensures Used(q, k, D + {d}, m) == Used(q, k, D, m) + q.Touched(k, d, q.s, m)
  {}

  lemma FillDirection(q: Squares, k: Pos, D: set<Dir>, d: Dir, c0: Cluster, c: Cluster, c': Cluster)
    requires Filling(q, k, D, c0, c) && IsDir(d) && d !in D && AddOutcome(q, k, D, d, c, c')
    ensures Filling(q, k, D + {d}, c0, c')
  {
    assert 0 <= c.numEdgeClumps <= |c.clump|;
    hide Lists, Wanted, WantedPart, Squares.Touched, Used, Roomy;
    if c'.rebuildAdjacency {
      var m :| Overflows(q, k, d, c, m);
      NoOverflow(q, k, D, d, c0, c, m);
    } else {
      Added(q, k, D, d, c, c');
      forall m | 0 <= m < c'.numEdgeClumps ensures c'.clump[m].numAdjacent == Used(q, k, D + {d}, m) {
        UsedStep(q, k, D, d, m);
        assert c.clump[m].numAdjacent == Used(q, k, D, m);
      }
    }
  }

  method FillSide(g: Grid, cx: int, cy: int, dx: int, dy: int, ghost q: Squares, ghost D: set<Dir>, ghost c0: Cluster)
    requires g.Dims() && IsDir(Dir(dx, dy)) && q == SquaresOf(g) && Dir(dx, dy) !in D && g.HasPos(Pos(cx, cy))
    requires Surroundings(q, Pos(cx, cy), c0.numEdgeClumps)
    requires Filling(q, Pos(cx, cy), D, c0, g.Clusters()[Pos(cx, cy)])
    modifies g.cluster
    ensures g.Clusters() == old(g.Clusters())[Pos(cx, cy) := g.Clusters()[Pos(cx, cy)]]
    ensures Filling(q, Pos(cx, cy), D + {Dir(dx, dy)}, c0, g.Clusters()[Pos(cx, cy)])
  {
    hide Grid.Clusters, Lists, AddOutcome, BothNumbered, Roomy, SquaresOf;
    ghost var k, d := Pos(cx, cy), Dir(dx, dy);
    ghost var c := g.Clusters()[k];
    assert Step(k, d) == Step(k, d);
    AddConnectionsToAdjacentCluster(g, cx, cy, dx, dy, q, D);
    FillDirection(q, k, D, d, c0, c, g.Clusters()[k]);
  }

  /** Cluster record c has an up-to-date list for every edge clump. */
  ghost predicate Complete(q: Squares, k: Pos, c: Cluster) {
    !c.rebuildAdjacency && Lists(c, Wanted(q, k, ALL_DIRS))
  }

  lemma Filled(q: Squares, k: Pos, c0: Cluster, c: Cluster)
    requires Filling(q, k, {} + {Dir(-1, 0)} + {Dir(1, 0)} + {Dir(0, -1)} + {Dir(0, 1)}, c0, c)
    ensures Complete(q, k, c) && ClumpsKept(c0, c)
  {
    assert {} + {Dir(-1, 0)} + {Dir(1, 0)} + {Dir(0, -1)} + {Dir(0, 1)} == ALL_DIRS;
  }

  /** Rebuilds cluster (cx, cy)'s lists from the map; the result always fits the pool. */
  method BuildAllConnectionsForCluster(g: Grid, cx: int, cy: int, ghost q: Squares)
    requires g.Dims() && q == SquaresOf(g) && g.HasPos(Pos(cx, cy))
    requires var c := g.Clusters()[Pos(cx, cy)];
             Sized(g.size, c) && 0 <= c.numEdgeClumps <= MaxClumps(g.size)
                 && Surroundings(q, Pos(cx, cy), c.numEdgeClumps)
             && c.numEdgeClumps <= MaxExits(g.size)
    modifies g.cluster
    ensures g.Clusters() == old(g.Clusters())[Pos(cx, cy) := g.Clusters()[Pos(cx, cy)]]
    ensures Complete(q, Pos(cx, cy), g.Clusters()[Pos(cx, cy)])
    ensures ClumpsKept(old(g.Clusters())[Pos(cx, cy)], g.Clusters()[Pos(cx, cy)])
  {
    hide Lists, Surroundings, Complete, SquaresOf, ClumpsKept;
    ghost var k := Pos(cx, cy);
    var c0 := g.cluster[cy, cx];
    assert g.Clusters()[k] == c0;
    var c := EmptyLists(g, cx, cy, q, c0);
    FillLists(g, cx, cy, q, c);
    KeptThrough(c0, c, g.Clusters()[k]);
  }

  /** First half of the rebuild: the lists are empty and have room for all exits. */
  method EmptyLists(g: Grid, cx: int, cy: int, ghost q: Squares, c0: Cluster) returns (c: Cluster)
    requires g.Dims() && q == SquaresOf(g) && g.HasPos(Pos(cx, cy)) && c0 == g.Clusters()[Pos(cx, cy)]
    requires Sized(g.size, c0) && 0 <= c0.numEdgeClumps <= MaxClumps(g.size)
             && Surroundings(q, Pos(cx, cy), c0.numEdgeClumps)
    requires c0.numEdgeClumps <= MaxExits(g.size)
    modifies g.cluster
    ensures g.Clusters() == old(g.Clusters())[Pos(cx, cy) := c]
    ensures Filling(q, Pos(cx, cy), {}, c, c) && c.numEdgeClumps == c0.numEdgeClumps
    ensures ClumpsKept(c0.(rebuildAdjacency := false), c)
  {
    hide Lists, Surroundings, AllCounted, Filling, Roomy, SquaresOf, ClumpsKept;
    ghost var k := Pos(cx, cy);
    var numAdj, total := CountAll(g, cx, cy, q, c0.numEdgeClumps);
    ExitsBound'(q, k, c0.numEdgeClumps, numAdj[..], total);
    c := Apportion(q, k, c0.(rebuildAdjacency := false), g.size, numAdj, total);
    KeptSizes(c0.(rebuildAdjacency := false), c);
    StoreCluster(g, cx, cy, c);
    StartFilling(q, k, c);
  }

  /** Second half: the four sides are scanned. */
  method FillLists(g: Grid, cx: int, cy: int, ghost q: Squares, ghost c: Cluster)
    requires g.Dims() && q == SquaresOf(g) && g.HasPos(Pos(cx, cy)) && c == g.Clusters()[Pos(cx, cy)]
    requires Filling(q, Pos(cx, cy), {}, c, c) && Surroundings(q, Pos(cx, cy), c.numEdgeClumps)
    modifies g.cluster
    ensures g.Clusters() == old(g.Clusters())[Pos(cx, cy) := g.Clusters()[Pos(cx, cy)]]
    ensures Complete(q, Pos(cx, cy), g.Clusters()[Pos(cx, cy)]) && ClumpsKept(c, g.Clusters()[Pos(cx, cy)])
  {
    hide Lists, Surroundings, Filling, Complete, SquaresOf, ClumpsKept;
    ghost var k := Pos(cx, cy);
    FillSide(g, cx, cy, -1, 0, q, {}, c);
    FillSide(g, cx, cy, 1, 0, q, {} + {Dir(-1, 0)}, c);
    FillSide(g, cx, cy, 0, -1, q, {} + {Dir(-1, 0)} + {Dir(1, 0)}, c);
    FillSide(g, cx, cy, 0, 1, q, {} + {Dir(-1, 0)} + {Dir(1, 0)} + {Dir(0, -1)}, c);
    Filled(q, k, c, g.Clusters()[k]);
  }

  lemma ExitsBound'(q: Squares, k: Pos, numEdge: int, counts: seq<int>, total: int)
    requires Surroundings(q, k, numEdge) && q.s % 4 == 0 && AllCounted(q, k, counts, total)
    ensures total <= MaxExits(q.s)
  {
    ExitsBound(q, k, numEdge, 0);
  }

  lemma KeptThrough(c0: Cluster, c: Cluster, c': Cluster)
    requires ClumpsKept(c0.(rebuildAdjacency := false), c) && ClumpsKept(c, c')
    ensures ClumpsKept(c0, c')
  {}
}
