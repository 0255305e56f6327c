/** Initialising a grid again with a smaller map: when it is safe, and what goes wrong when it is not. */
module Reinit {
  import opened Paths
  import opened Partitions
  import opened GridModel
  import opened GridState
  import opened LabelSpec
  import opened ClusterStore
  import opened Adjacency
  import opened Connections
  import opened ClumpForest
  import opened GlobalPasses
  import opened Reachability
  import opened Leftovers
  import opened Scattered
  import opened LabelBits
  import opened GridMap
  import opened GridInit

  ghost predicate Inside(w: int, h: int, c: Cell) { 0 <= c.x < w && 0 <= c.y < h }

  /** No step over open squares leads out of the first w x h squares. */
  ghost predicate CutClosed(open: iset<Cell>, w: int, h: int) {
    forall a, b {:trigger Adjacent(a, b)} :: a in open && b in open && Adjacent(a, b) && Inside(w, h, a) ==>
        Inside(w, h, b)
  }

  lemma InsideIsInGrid(s: int, cw: int, ch: int, c: Cell)
    requires s > 0
    ensures Inside(cw * s, ch * s, c) <==> InGrid(cw, ch, AddrOf(s, c).k)
  {
    QuotientBelow(s, cw, c.x);
    QuotientBelow(s, ch, c.y);
  }

  lemma QuotientBelow(s: int, n: int, x: int)
    requires s > 0
    ensures 0 <= x < n * s <==> 0 <= x / s < n
  {
    assert x == x / s * s + x % s;
    if 0 <= x < n * s { OffsetOfDivision(s, n, x); }
    if 0 <= x / s < n {
      MulMono(x / s + 1, n, s);
      MulMono(0, x / s, s);
    }
  }

  /**
   The records a smaller map leaves over name no clump of it exactly if no two
   neighbouring open squares of the larger map lay on both sides of the cut.
   */
  lemma ShrinkApartIff(q: Squares, cw: int, ch: int, cl: imap<Pos, Cluster>, cw': int, ch': int)
    requires Listing(q, cw, ch, cl) && Apart(q.s, cw, ch, cl) && cw' <= cw && ch' <= ch
    ensures Apart(q.s, cw', ch', cl) <==> CutClosed(OpenCells(q), cw' * q.s, ch' * q.s)
  {
    hide Listing, Apart, OpenCells, CutClosed;
    if CutClosed(OpenCells(q), cw' * q.s, ch' * q.s) { CutApart(q, cw, ch, cl, cw', ch'); }
    if Apart(q.s, cw', ch', cl) { ApartCut(q, cw, ch, cl, cw', ch'); }
  }

  lemma ShrinkStaleLists(q: Squares, cw: int, ch: int, cl: imap<Pos, Cluster>, cw': int, ch': int)
    requires Listing(q, cw, ch, cl) && StaleLists(q.s, cw, ch, cl)
    ensures StaleLists(q.s, cw', ch', cl)
  {
    ListingClumped(q, cw, ch, cl);
    hide Clumped, Listing, SliceOk;
    forall k | k in cl ensures Sized(q.s, cl[k]) && 0 <= cl[k].numEdgeClumps <= MaxClumps(q.s) {
      if InGrid(cw, ch, k) { ClumpedBounded(q, cw, ch, cl, k); }
    }
    forall n | IsEdgeClump(cl, n) ensures SliceOk(cl[Home(n)], n.index) {
      if InGrid(cw, ch, Home(n)) { ListedSlice(q, cw, ch, cl, n); }
    }
  }

  lemma CutApart(q: Squares, cw: int, ch: int, cl: imap<Pos, Cluster>, cw': int, ch': int)
    requires Listing(q, cw, ch, cl) && Apart(q.s, cw, ch, cl) && cw' <= cw && ch' <= ch
    requires CutClosed(OpenCells(q), cw' * q.s, ch' * q.s)
    ensures Apart(q.s, cw', ch', cl)
  {
    ShrinkStaleLists(q, cw, ch, cl, cw', ch');
    hide Listing, StaleLists, CutClosed, HasEntry, Target, IsEdgeClump;
    forall n, h | HasEntry(cl, n, h) && !InGrid(cw', ch', Home(n))
      ensures IsEdgeClump(cl, Target(cl, n, h)) && !InGrid(cw', ch', Home(Target(cl, n, h)))
    {
      if InGrid(cw, ch, Home(n)) { EntryStaysOutside(q, cw, ch, cl, cw', ch', n, h); }
    }
  }

  lemma EntryStaysOutside(q: Squares, cw: int, ch: int, cl: imap<Pos, Cluster>, cw': int, ch': int, n: GlobalClumpId,
                          h: int)
    requires Listing(q, cw, ch, cl) && HasEntry(cl, n, h) && InGrid(cw, ch, Home(n)) && !InGrid(cw', ch', Home(n))
    requires CutClosed(OpenCells(q), cw' * q.s, ch' * q.s)
    ensures IsEdgeClump(cl, Target(cl, n, h)) && !InGrid(cw', ch', Home(Target(cl, n, h)))
  {
    ListingClumped(q, cw, ch, cl);
    var d, t := EntryMeaning(q, cw, ch, cl, n, h);
    hide Listing, HasEntry, Target, Clumped, OpenCells;
    var a, b := q.Near(Home(n), d, t), q.Far(Home(n), d, t);
    assert Facing(q.s, a, b, d, t);
    FacingAreNeighbours(q.s, a, b, d, t);
    InSquares(q, cw, ch, cl, a);
    InSquares(q, cw, ch, cl, b);
    SidePositive(q, cw, ch, cl);
    InsideIsInGrid(q.s, cw', ch', Square(q.s, a));
    InsideIsInGrid(q.s, cw', ch', Square(q.s, b));
    assert Adjacent(Square(q.s, b), Square(q.s, a));
  }

  lemma SidePositive(q: Squares, cw: int, ch: int, cl: imap<Pos, Cluster>)
    requires Clumped(q, cw, ch, cl)
    ensures q.s > 0
  {}

  lemma ApartCut(q: Squares, cw: int, ch: int, cl: imap<Pos, Cluster>, cw': int, ch': int)
    requires Listing(q, cw, ch, cl) && Apart(q.s, cw', ch', cl)
    ensures CutClosed(OpenCells(q), cw' * q.s, ch' * q.s)
  {
    ListingClumped(q, cw, ch, cl);
    SidePositive(q, cw, ch, cl);
    var s := q.s;
    hide Listing, Clumped, Apart;
    forall c, c' | c in OpenCells(q) && c' in OpenCells(q) && Adjacent(c, c') && Inside(cw' * s, ch' * s, c)
      ensures Inside(cw' * s, ch' * s, c')
    {
      InsideIsInGrid(s, cw', ch', c);
      InsideIsInGrid(s, cw', ch', c');
      var a, b := AddrOf(s, c), AddrOf(s, c');
      if a.k != b.k && !InGrid(cw', ch', b.k) {
        NeighboursTouch(s, c', c);
        var d, t :| Facing(s, b, a, d, t);
        PairListed(q, cw, ch, cl, b, a, d, t);
        NoLinkInside(s, cw', ch', cl, ClumpOf(q, b), ClumpOf(q, a));
      }
    }
  }

  lemma NoLinkInside(s: int, cw: int, ch: int, cl: imap<Pos, Cluster>, n: GlobalClumpId, n': GlobalClumpId)
    requires Apart(s, cw, ch, cl) && Listed(cl, n, n') && !InGrid(cw, ch, Home(n))
    ensures !InGrid(cw, ch, Home(n'))
  {
    var h :| HasEntry(cl, n, h) && Target(cl, n, h) == n';
  }

  /** After a valid state a smaller map may follow, and be updated, exactly if the cut is closed. */
  lemma ShrinkSafeIff(g: Grid, w: int, h: int)
    requires Valid(g) && 0 <= w <= g.w && 0 <= h <= g.h && w % g.size == 0 && h % g.size == 0
    ensures Apart(g.size, w / g.size, h / g.size, g.Clusters()) <==> CutClosed(g.OpenSquares(), w, h)
  {
    hide Listing, Apart, CutClosed, OpenCells, Grid.OpenSquares;
    WholeClusters(g.size, g.cw, w);
    WholeClusters(g.size, g.ch, h);
    OpenSquaresAreOpenCells(g);
    ShrinkApartIff(SquaresOf(g), g.cw, g.ch, g.Clusters(), w / g.size, h / g.size);
  }

  /** A map cut down, its squares left as they were, finds the left-over lists in bounds. */
  lemma CutInBounds(q: Squares, cw: int, ch: int, cl: imap<Pos, Cluster>, cw': int, ch': int, open: iset<Cell>)
    requires Listing(q, cw, ch, cl) && Apart(q.s, cw, ch, cl) && cw' <= cw && ch' <= ch
    requires forall k {:trigger LocalOf(q, k)} :: InGrid(cw', ch', k) ==> LocalOf(q, k) == LocalMap(open, q.s, k)
    ensures InBounds(q.s, cw', ch', cl, open)
  {
    ListingClumped(q, cw, ch, cl);
    ShrinkStaleLists(q, cw, ch, cl, cw', ch');
    hide Listing, StaleLists, Clumped, HasEntry, Target, IsEdgeClump, TouchesMoreThan, LocalOf, LocalMap;
    forall n, h | HasEntry(cl, n, h) && !InGrid(cw', ch', Home(n))
      ensures var n' := Target(cl, n, h);
              if InGrid(cw', ch', Home(n')) then TouchesMoreThan(q.s, LocalMap(open, q.s, Home(n')), n'.index)
              else IsEdgeClump(cl, n')
    {
      var n' := Target(cl, n, h);
      if InGrid(cw, ch, Home(n)) {
        var d, t := EntryMeaning(q, cw, ch, cl, n, h);
        EdgeClumpThere(q, cw, ch, cl, n');
      }
    }
  }

  /** Square i of a map of w squares a row, in the caller's array. */
  function TileCell(w: int, i: int): Cell
    requires w > 0
  {
    Cell(i % w, i / w)
  }

  lemma TileCellAt(w: int, h: int, x: int, y: int)
    requires 0 <= x < w && 0 <= y < h
    ensures 0 <= y * w + x < w * h && TileCell(w, y * w + x) == Cell(x, y)
  {
    BaseInRange(w, h, y);
    DivisionOfOffset(w, y, x);
  }

  /** A map of s squares a column: open in the first and the last row, and everywhere right of its first s columns. */
  predicate RowsTile(s: int, c: Cell) { c.x >= s || c.y == 0 || c.y == s - 1 }

  ghost function Rows(s: int, w: int): iset<Cell> {
    iset c: Cell | 0 <= c.x < w && 0 <= c.y < s && RowsTile(s, c)
  }

  method RowsMap(s: int, w: int) returns (tiles: seq<int>)
    requires s > 0 && w > 0
    ensures |tiles| == w * s && OpenIn(tiles, w, s) == Rows(s, w)
  {
    MulMono(0, w, s);
    tiles := seq(w * s, i requires 0 <= i < w * s => if RowsTile(s, TileCell(w, i)) then 0 else 1);
    forall c: Cell ensures c in OpenIn(tiles, w, s) <==> c in Rows(s, w) {
      if 0 <= c.x < w && 0 <= c.y < s { TileCellAt(w, s, c.x, c.y); }
    }
  }

  /** The first and the last row of a cluster. */
  ghost function TwoRows(s: int): iset<Cell> { iset l: Cell | InBox(s, l) && (l.y == 0 || l.y == s - 1) }

  /** A walk over them stays in its row. */
  lemma RowsApart(L: iset<Cell>, s: int, a: Cell, b: Cell)
    requires s >= 3 && (forall l :: l in L ==> l.y == 0 || l.y == s - 1) && a in L
    requires Connected(Edges(L), a, b)
    ensures a.y == b.y
  {
    var row := imap l: Cell | true :: l.y;
    ConstantOnConnected(Edges(L), row, a, b);
  }

  lemma {:induction false} RowConnected(L: iset<Cell>, x: int, y: int, n: nat)
    requires forall i :: x <= i <= x + n ==> Cell(i, y) in L
    ensures Connected(Edges(L), Cell(x, y), Cell(x + n, y))
  {
    if n == 0 {
      ConnectedRefl(Edges(L), Cell(x, y));
    } else {
      RowConnected(L, x, y, n - 1);
      ConnectedEdge(Edges(L), Cell(x + n - 1, y), Cell(x + n, y));
      ConnectedTrans(Edges(L), Cell(x, y), Cell(x + n - 1, y), Cell(x + n, y));
    }
  }

  lemma {:induction false} ColumnConnected(L: iset<Cell>, x: int, y: int, n: nat)
    requires forall i :: y <= i <= y + n ==> Cell(x, i) in L
    ensures Connected(Edges(L), Cell(x, y), Cell(x, y + n))
  {
    if n == 0 {
      ConnectedRefl(Edges(L), Cell(x, y));
    } else {
      ColumnConnected(L, x, y, n - 1);
      ConnectedEdge(Edges(L), Cell(x, y + n - 1), Cell(x, y + n));
      ConnectedTrans(Edges(L), Cell(x, y), Cell(x, y + n - 1), Cell(x, y + n));
    }
  }

  lemma RowId(s: int, id: imap<Cell, int>, numEdge: int, numClumps: int, x: int, l: Cell)
    requires s >= 3 && LabelsOk(s, TwoRows(s), id, numEdge, numClumps) && 0 <= x < s && l in TwoRows(s)
    ensures id[l] == id[Cell(x, l.y)]
  {
    var L := TwoRows(s);
    if l.x <= x {
      RowConnected(L, l.x, l.y, x - l.x);
    } else {
      RowConnected(L, x, l.y, l.x - x);
    }
  }

  lemma OneOfTwo(s: int, id: imap<Cell, int>, numEdge: int, numClumps: int, x: int, c: int)
    requires s >= 3 && LabelsOk(s, TwoRows(s), id, numEdge, numClumps) && 0 <= x < s && 0 <= c < numEdge
    ensures c == id[Cell(x, 0)] || c == id[Cell(x, s - 1)]
  {
    assert HasEdgeClump(s, TwoRows(s), id, c);
    var l := EdgeMember(s, TwoRows(s), id, c);
    RowId(s, id, numEdge, numClumps, x, l);
  }

  /** Two rows are two clumps, numbered 0 and 1. */
  lemma TwoRowsIds(s: int, id: imap<Cell, int>, numEdge: int, numClumps: int, x: int)
    requires s >= 3 && LabelsOk(s, TwoRows(s), id, numEdge, numClumps) && 0 <= x < s
    ensures numEdge == 2 && id[Cell(x, 0)] != id[Cell(x, s - 1)]
    ensures 0 <= id[Cell(x, 0)] < 2 && 0 <= id[Cell(x, s - 1)] < 2
  {
    var L, a, b := TwoRows(s), Cell(x, 0), Cell(x, s - 1);
    assert a in L && b in L && OnBorder(s, a) && OnBorder(s, b);
    assert 0 <= id[a] < numEdge && 0 <= id[b] < numEdge;
    if id[a] == id[b] { RowsApart(L, s, a, b); }
    if numEdge > 2 {
      OneOfTwo(s, id, numEdge, numClumps, x, 0);
      OneOfTwo(s, id, numEdge, numClumps, x, 1);
      OneOfTwo(s, id, numEdge, numClumps, x, 2);
    }
  }

  /** Where the rows are in the clusters of the two maps. */
  lemma RowsInClusters(s: int, w: int)
    requires s >= 1
    ensures w >= s ==> LocalMap(Rows(s, w), s, Pos(0, 0)) == TwoRows(s)
    ensures w == 2 * s ==> forall l :: InBox(s, l) ==> l in LocalMap(Rows(s, w), s, Pos(1, 0))
  {}

  lemma FirstClusterIds(q: Squares, cw: int, ch: int, cl: imap<Pos, Cluster>, x: int)
    requires Clumped(q, cw, ch, cl) && InGrid(cw, ch, Pos(0, 0)) && q.s >= 3 && 0 <= x < q.s
    requires LocalOf(q, Pos(0, 0)) == TwoRows(q.s)
    ensures var k := Pos(0, 0);
            var a, b := Addr(k, Cell(x, 0)), Addr(k, Cell(x, q.s - 1));
            && a in q.open && b in q.open && q.IdOf(a) != q.IdOf(b) && 0 <= q.IdOf(a) < 2 && 0 <= q.IdOf(b) < 2
            && IsEdgeClump(cl, ClumpId(0, 0, 0)) && IsEdgeClump(cl, ClumpId(1, 0, 0))
  {
    var k := Pos(0, 0);
    var a, b := Addr(k, Cell(x, 0)), Addr(k, Cell(x, q.s - 1));
    ClumpedBounded(q, cw, ch, cl, k);
    assert ClusterOk(q, k, cl[k]);
    assert a.l in TwoRows(q.s) && b.l in TwoRows(q.s);
    assert LocalIdsOf(q, k)[a.l] == q.IdOf(a) && LocalIdsOf(q, k)[b.l] == q.IdOf(b);
    hide LabelsOk, TwoRows;
    TwoRowsIds(q.s, LocalIdsOf(q, k), cl[k].numEdgeClumps, cl[k].numClumps, x);
  }

  lemma ColumnIds(q: Squares, cw: int, ch: int, cl: imap<Pos, Cluster>, k: Pos)
    requires Clumped(q, cw, ch, cl) && InGrid(cw, ch, k) && forall l :: InBox(q.s, l) ==> l in LocalOf(q, k)
    ensures var a, b := Addr(k, Cell(0, 0)), Addr(k, Cell(0, q.s - 1));
            a in q.open && b in q.open && q.IdOf(a) == q.IdOf(b)
  {
    var a, b := Addr(k, Cell(0, 0)), Addr(k, Cell(0, q.s - 1));
    assert a.l in LocalOf(q, k) && b.l in LocalOf(q, k);
    ColumnConnected(LocalOf(q, k), 0, 0, q.s - 1);
    LocalConnected(q, cw, ch, cl, a, b);
  }

  /** The squares in row t of the two columns along a border face each other. */
  lemma AcrossLeft(s: int, k: Pos, d: Dir, t: int)
    requires 0 <= t < s && d.dx == -1 && d.dy == 0
    ensures Facing(s, Addr(k, Cell(0, t)), Addr(Pos(k.cx - 1, k.cy), Cell(s - 1, t)), d, t)
  {
    assert Step(k, d) == Pos(k.cx - 1, k.cy) && Opposite(d).dx == 1;
  }

  /** The record of the second cluster lists both rows of the first one. */
  lemma BothRowsListed(q: Squares, cl: imap<Pos, Cluster>) returns (stale: GlobalClumpId)
    requires Listing(q, 2, 1, cl) && LocalOf(q, Pos(0, 0)) == TwoRows(q.s)
    requires forall l :: InBox(q.s, l) ==> l in LocalOf(q, Pos(1, 0))
    requires q.s >= 3
    ensures Home(stale) == Pos(1, 0)
    ensures Listed(cl, stale, ClumpId(0, 0, 0)) && Listed(cl, stale, ClumpId(1, 0, 0))
  {
    var s, k0, k1 := q.s, Pos(0, 0), Pos(1, 0);
    ListingClumped(q, 2, 1, cl);
    hide Listing, Clumped, Listed, LocalOf, TwoRows, Facing, IsEdgeClump;
    FirstClusterIds(q, 2, 1, cl, s - 1);
    ColumnIds(q, 2, 1, cl, k1);
    var a, b := Addr(k1, Cell(0, 0)), Addr(k1, Cell(0, s - 1));
    stale := ClumpOf(q, a);
    ListedAcross(q, 2, 1, cl, k1, 0);
    ListedAcross(q, 2, 1, cl, k1, s - 1);
  }

  lemma ListedAcross(q: Squares, cw: int, ch: int, cl: imap<Pos, Cluster>, k: Pos, t: int)
    requires Listing(q, cw, ch, cl) && 0 <= t < q.s
    requires Addr(k, Cell(0, t)) in q.open && Addr(Pos(k.cx - 1, k.cy), Cell(q.s - 1, t)) in q.open
    ensures Listed(cl, ClumpOf(q, Addr(k, Cell(0, t))), ClumpOf(q, Addr(Pos(k.cx - 1, k.cy), Cell(q.s - 1, t))))
  {
    var d := Dir(-1, 0);
    hide Listing, Facing, Listed;
    AcrossLeft(q.s, k, d, t);
    PairListed(q, cw, ch, cl, Addr(k, Cell(0, t)), Addr(Pos(k.cx - 1, k.cy), Cell(q.s - 1, t)), d, t);
  }

  /** With such a record left over, the two rows have one label in the smaller map. */
  lemma RowsAlike(q: Squares, cl: imap<Pos, Cluster>, stale: GlobalClumpId)
    requires Listing(q, 1, 1, cl) && LocalOf(q, Pos(0, 0)) == TwoRows(q.s) && GloballyLabelled(cl) && q.s >= 3
    requires Listed(cl, stale, ClumpId(0, 0, 0)) && Listed(cl, stale, ClumpId(1, 0, 0))
    ensures var a, b := Addr(Pos(0, 0), Cell(0, 0)), Addr(Pos(0, 0), Cell(0, q.s - 1));
            SameLabel(q, cl, a, b)
  {
    var a, b := Addr(Pos(0, 0), Cell(0, 0)), Addr(Pos(0, 0), Cell(0, q.s - 1));
    ListingClumped(q, 1, 1, cl);
    hide Listing, Clumped, Listed, LocalOf, TwoRows, IsEdgeClump, GloballyLabelled;
    FirstClusterIds(q, 1, 1, cl, 0);
    SameLabelThroughList(cl, stale, ClumpId(0, 0, 0), ClumpId(1, 0, 0));
    LabelDefined(q, 1, 1, cl, a);
    LabelDefined(q, 1, 1, cl, b);
  }

  /** The stored bits agree if the labels do. */
  lemma AlikeStored(g: Grid, c1: Cell, c2: Cell)
    requires Mapped(g) && 0 <= c1.x < g.w && 0 <= c1.y < g.h && 0 <= c2.x < g.w && 0 <= c2.y < g.h
    requires c1 in g.OpenSquares() && c2 in g.OpenSquares()
    requires SameLabel(SquaresOf(g), g.Clusters(), AddrOf(g.size, c1), AddrOf(g.size, c2))
    ensures SameStoredLabel(g, c1, c2)
  {
    hide Mapped, SquaresOf, Grid.Clusters, Grid.OpenSquares, StoredUniqueId, Packed, AddrOf;
    StoredBits(g, c1);
    StoredBits(g, c2);
  }

  /** Clumps named by one list get one label. */
  lemma SameLabelThroughList(cl: imap<Pos, Cluster>, m: GlobalClumpId, n: GlobalClumpId, n': GlobalClumpId)
    requires GloballyLabelled(cl) && Listed(cl, m, n) && Listed(cl, m, n') && IsEdgeClump(cl, n) && IsEdgeClump(cl, n')
    ensures GlobalLabels(cl)[n] == GlobalLabels(cl)[n']
  {
    var E := ClumpEdges(cl);
    assert (n, m) in E && (m, n') in E;
    hide Listed, ClumpEdges;
    ConnectedEdge(E, n, m);
    ConnectedEdge(E, m, n');
    ConnectedTrans(E, n, m, n');
    assert ExactAt(E, GlobalLabels(cl), n, n');
  }

  /** The larger map of the example, and the record its second cluster leaves. */
  method InitLarger(g: Grid) returns (ghost stale: GlobalClumpId)
    requires g.Memory() && SizesFit(g.size, g.countX, g.countY) && g.countX >= 2 && g.countY >= 1
    requires MapSized(g, 2, 1) && Apart(g.size, 2, 1, g.Clusters())
    modifies g, g.open, g.clumpForNode, g.cluster
    ensures Home(stale) == Pos(1, 0)
    ensures Listed(g.Clusters(), stale, ClumpId(0, 0, 0)) && Listed(g.Clusters(), stale, ClumpId(1, 0, 0))
    ensures MapSized(g, 1, 1) && InBounds(g.size, 1, 1, g.Clusters(), Rows(g.size, g.size))
  {
    var s := g.size;
    SizesOfMaps(g);
    hide Mapped, Valid, Grid.OpenSquares, Grid.Clusters, MapSized, Apart, InBounds, Rows, OpenIn, SizesFit, BeyondKept,
      GloballyLabelled, Closed, Separate, Answering, LocalOf, TwoRows, Listed;
    var larger := RowsMap(s, 2 * s);
    ApartInBounds(s, 2, 1, g.Clusters(), OpenIn(larger, 2 * s, s));
    InitGrid(g, larger, 2 * s, s);
    LargerViews(g);
    stale := BothRowsListed(SquaresOf(g), g.Clusters());
    ReadyForSmaller(g);
  }

  lemma LargerViews(g: Grid)
    requires Valid(g) && g.cw == 2 && g.ch == 1 && g.OpenSquares() == Rows(g.size, 2 * g.size)
    ensures Listing(SquaresOf(g), 2, 1, g.Clusters()) && LocalOf(SquaresOf(g), Pos(0, 0)) == TwoRows(g.size)
    ensures forall l :: InBox(g.size, l) ==> l in LocalOf(SquaresOf(g), Pos(1, 0))
  {
    RowsInClusters(g.size, 2 * g.size);
    MapViews(g, Pos(0, 0));
    MapViews(g, Pos(1, 0));
    hide Listing, LocalMap, Rows, LocalOf, Apart, TwoRows;
  }

  lemma SmallerViews(g: Grid)
    requires Mapped(g) && g.cw == 1 && g.ch == 1 && g.OpenSquares() == Rows(g.size, g.size)
    ensures Listing(SquaresOf(g), 1, 1, g.Clusters()) && LocalOf(SquaresOf(g), Pos(0, 0)) == TwoRows(g.size)
    ensures Cell(0, 0) in g.OpenSquares() && Cell(0, g.size - 1) in g.OpenSquares()
    ensures AddrOf(g.size, Cell(0, 0)) == Addr(Pos(0, 0), Cell(0, 0))
    ensures AddrOf(g.size, Cell(0, g.size - 1)) == Addr(Pos(0, 0), Cell(0, g.size - 1))
  {
    RowsInClusters(g.size, g.size);
    MapViews(g, Pos(0, 0));
    DivisionOfOffset(g.size, 0, 0);
    DivisionOfOffset(g.size, 0, g.size - 1);
    hide Listing, LocalMap, LocalOf, TwoRows;
  }

  /** The smaller map of the example. */
  method InitSmaller(g: Grid, ghost stale: GlobalClumpId)
    requires g.Memory() && SizesFit(g.size, g.countX, g.countY) && g.countX >= 2 && g.countY >= 1
    requires MapSized(g, 1, 1) && InBounds(g.size, 1, 1, g.Clusters(), Rows(g.size, g.size))
    requires Home(stale) == Pos(1, 0)
    requires Listed(g.Clusters(), stale, ClumpId(0, 0, 0)) && Listed(g.Clusters(), stale, ClumpId(1, 0, 0))
    modifies g, g.open, g.clumpForNode, g.cluster
    ensures Mapped(g) && !g.inBatchedUpdate && g.w == g.size && g.h == g.size
    ensures g.OpenSquares() == Rows(g.size, g.size)
    ensures g.cw == 1 && g.ch == 1 && GloballyLabelled(g.Clusters())
    ensures Listed(g.Clusters(), stale, ClumpId(0, 0, 0)) && Listed(g.Clusters(), stale, ClumpId(1, 0, 0))
  {
    var s := g.size;
    SizesOfMaps(g);
    hide *;
    ghost var cl := g.Clusters();
    var smaller := RowsMap(s, s);
    WholeMapFits(g, smaller, s, s);
    InitGrid(g, smaller, s, s);
    StaleListKept(cl, g.Clusters(), stale);
  }

  lemma StaleListKept(cl: imap<Pos, Cluster>, cl': imap<Pos, Cluster>, stale: GlobalClumpId)
    requires BeyondKept(1, 1, cl, cl') && Home(stale) == Pos(1, 0)
    ensures forall n :: Listed(cl, stale, n) ==> Listed(cl', stale, n)
  {
    BeyondNode(1, 1, cl, cl', stale);
  }

  lemma RowsAlikeStored(g: Grid, stale: GlobalClumpId)
    requires Mapped(g) && g.cw == 1 && g.ch == 1 && g.w == g.size && g.h == g.size && g.size >= 4
    requires g.OpenSquares() == Rows(g.size, g.size) && GloballyLabelled(g.Clusters())
    requires Listed(g.Clusters(), stale, ClumpId(0, 0, 0)) && Listed(g.Clusters(), stale, ClumpId(1, 0, 0))
    ensures SameStoredLabel(g, Cell(0, 0), Cell(0, g.size - 1))
  {
    SmallerViews(g);
    hide Mapped, GloballyLabelled, Listed, Rows, TwoRows, LocalOf, SameLabel, Grid.OpenSquares;
    RowsAlike(SquaresOf(g), g.Clusters(), stale);
    AlikeStored(g, Cell(0, 0), Cell(0, g.size - 1));
  }

  /** The query about the two rows, once their labels agree. */
  method AskRows(g: Grid) returns (r: int)
    requires Mapped(g) && !g.inBatchedUpdate && g.w == g.size && g.h == g.size && g.size >= 4
    requires SameStoredLabel(g, Cell(0, 0), Cell(0, g.size - 1))
    ensures r == 1
  {
    hide *;
    r := QueryGridNodeConnection(g, 0, 0, 0, g.size - 1);
  }

  /** The query after both maps. */
  method QueryAfterBoth(g: Grid) returns (r: int)
    requires g.Memory() && SizesFit(g.size, g.countX, g.countY) && g.countX >= 2 && g.countY >= 1
    requires MapSized(g, 2, 1) && Apart(g.size, 2, 1, g.Clusters())
    modifies g, g.open, g.clumpForNode, g.cluster
    ensures g.Dims() && g.OpenSquares() == Rows(g.size, g.size) && r == 1
  {
    assert g.size >= 4;
    hide *;
    ghost var stale := InitLarger(g);
    InitSmaller(g, stale);
    MappedDims(g);
    RowsAlikeStored(g, stale);
    r := AskRows(g);
  }

  /**
   A grid in zeroed memory is initialised with a map of two clusters and then with
   the first of them alone, its squares as they were: two rows that nothing joins.
   The query says that a walk leads from one to the other.
   */
  method ReinitFails(g: Grid) returns (r: int)
    requires g.Memory() && SizesFit(g.size, g.countX, g.countY) && g.countX >= 2 && g.countY >= 1
    requires MapSized(g, 2, 1) && Apart(g.size, 2, 1, g.Clusters())
    modifies g, g.open, g.clumpForNode, g.cluster
    ensures g.Dims() && g.OpenSquares() == Rows(g.size, g.size)
    ensures r == 1 && !Reachable(g.OpenSquares(), Cell(0, 0), Cell(0, g.size - 1))
  {
    assert g.size >= 4;
    hide *;
    RowsNotJoined(g.size);
    r := QueryAfterBoth(g);
  }

  lemma WholeMapFits(g: Grid, tiles: seq<int>, w: int, h: int)
    requires g.Memory() && |tiles| == w * h && 0 <= w <= g.countX * g.size && 0 <= h <= g.countY * g.size
    requires w % g.size == 0 && h % g.size == 0
    ensures MapFits(g, tiles, w, h)
  {}

  lemma SizesOfMaps(g: Grid)
    requires g.Memory()
    ensures g.size >= 4 && g.size / g.size == 1 && (2 * g.size) / g.size == 2
    ensures g.size % g.size == 0 && (2 * g.size) % g.size == 0
    ensures g.countX >= 2 ==> 2 * g.size <= g.countX * g.size
    ensures g.countY >= 1 ==> g.size <= g.countY * g.size
  {
    DivisionOfOffset(g.size, 1, 0);
    DivisionOfOffset(g.size, 2, 0);
    if g.countX >= 2 { MulMono(2, g.countX, g.size); }
    if g.countY >= 1 { MulMono(1, g.countY, g.size); }
  }

  lemma ReadyForSmaller(g: Grid)
    requires Valid(g) && g.cw == 2 && g.ch == 1 && g.OpenSquares() == Rows(g.size, 2 * g.size)
    ensures MapSized(g, 1, 1) && InBounds(g.size, 1, 1, g.Clusters(), Rows(g.size, g.size))
  {
    var s, q, cl, k := g.size, SquaresOf(g), g.Clusters(), Pos(0, 0);
    RowsInClusters(s, 2 * s);
    RowsInClusters(s, s);
    MapViews(g, k);
    ListingClumped(q, 2, 1, cl);
    ClumpedBounded(q, 2, 1, cl, k);
    forall k' | InGrid(1, 1, k') ensures k' == k {}
    hide Listing, Apart, LocalMap, LocalOf, InBounds, Clumped;
    CutInBounds(q, 2, 1, cl, 1, 1, Rows(s, s));
  }

  lemma RowsNotJoined(s: int)
    requires s >= 3
    ensures !Reachable(Rows(s, s), Cell(0, 0), Cell(0, s - 1))
  {
    if Reachable(Rows(s, s), Cell(0, 0), Cell(0, s - 1)) {
      RowsApart(Rows(s, s), s, Cell(0, 0), Cell(0, s - 1));
    }
  }
}
