/** Where answers go wrong: left-over lists that join clumps of the map, and labels too long for their bit fields. */
module Converse {
  import opened Paths
  import opened GridModel
  import opened GridState
  import opened LabelSpec
  import opened Adjacency
  import opened Connections
  import opened ClumpForest
  import opened GlobalPasses
  import opened Reachability
  import opened Leftovers
  import opened Scattered
  import opened LabelBits
  import opened GridMap
  import opened GridInit
  import opened Reinit

  method CheckerboardMap(w: int, h: int) returns (tiles: seq<int>)
    requires w >= 0 && h >= 0
    ensures |tiles| == w * h && OpenIn(tiles, w, h) == Checkerboard(w, h)
  {
    MulMono(0, w, h);
    tiles := seq(w * h, i requires 0 <= i < w * h =>
               if w > 0 && (TileCell(w, i).x + TileCell(w, i).y) % 2 == 0 then 0 else 1);
    forall c: Cell ensures c in OpenIn(tiles, w, h) <==> c in Checkerboard(w, h) {
      if 0 <= c.x < w && 0 <= c.y < h { TileCellAt(w, h, c.x, c.y); }
    }
  }

  /** If the stored bits answer rightly so do the labels they stand for. */
  lemma RightLabels(g: Grid)
    requires Mapped(g) && SizesFit(g.size, g.countX, g.countY) && GloballyLabelled(g.Clusters())
    requires StaleLists(g.size, g.cw, g.ch, g.Clusters()) && AnswersRight(g)
    ensures LabelsRight(SquaresOf(g), g.Clusters())
  {
    var q, cl := SquaresOf(g), g.Clusters();
    hide Listing, AnswersRight, GloballyLabelled, StaleLists, SquaresOf, Grid.Clusters, Grid.OpenSquares, SameLabel,
        SizesFit;
    forall a, b | a in q.open && b in q.open
      ensures SameLabel(q, cl, a, b) <==> Connected(Edges(OpenCells(q)), Square(q.s, a), Square(q.s, b))
    {
      RightLabel(g, a, b);
    }
  }

  lemma SquareOnMap(g: Grid, a: Addr)
    requires Mapped(g) && a in SquaresOf(g).open
    ensures AddrOf(g.size, Square(g.size, a)) == a && Square(g.size, a) in g.OpenSquares()
  {
    ListingClumped(SquaresOf(g), g.cw, g.ch, g.Clusters());
    OpenSquaresAreOpenCells(g);
    hide Listing, Clumped, Grid.OpenSquares, OpenCells, SquaresOf;
    InSquares(SquaresOf(g), g.cw, g.ch, g.Clusters(), a);
  }

  lemma OnTheMap(g: Grid, c: Cell)
    requires g.Dims() && c in g.OpenSquares()
    ensures 0 <= c.x < g.w && 0 <= c.y < g.h
  {}

  lemma RightLabel(g: Grid, a: Addr, b: Addr)
    requires Mapped(g) && SizesFit(g.size, g.countX, g.countY) && GloballyLabelled(g.Clusters())
    requires StaleLists(g.size, g.cw, g.ch, g.Clusters()) && AnswersRight(g)
    requires a in SquaresOf(g).open && b in SquaresOf(g).open
    ensures SameLabel(SquaresOf(g), g.Clusters(), a, b) <==>
            Connected(Edges(OpenCells(SquaresOf(g))), Square(g.size, a), Square(g.size, b))
  {
    var q, cl, c1, c2 := SquaresOf(g), g.Clusters(), Square(g.size, a), Square(g.size, b);
    ListingClumped(q, g.cw, g.ch, cl);
    SquareOnMap(g, a);
    SquareOnMap(g, b);
    OnTheMap(g, c1);
    OnTheMap(g, c2);
    OpenSquaresAreOpenCells(g);
    assert SameStoredLabel(g, c1, c2) <==> Reachable(g.OpenSquares(), c1, c2);
    hide Listing, Clumped, AnswersRight, GloballyLabelled, StaleLists, SquaresOf, Grid.Clusters, Grid.OpenSquares,
        OpenCells,
      Square, AddrOf, StoredUniqueId, Packed, LabelOf, FitsFields, IsLabel, SizesFit, Edges;
    StoredBits(g, c1);
    StoredBits(g, c2);
    StoredLabel(g, q, cl, a);
    StoredLabel(g, q, cl, b);
    PackedSame(LabelOf(q, cl, a), LabelOf(q, cl, b));
  }

  /**
   Initialising with the checkerboard answers rightly exactly if no chain of
   left-over lists joins two clumps of the map. So what `InitGrid` asks for to be
   right is also needed for being right on every map of the size.
   */
  method CheckerboardDecides(g: Grid, w: int, h: int)
    requires g.Memory() && SizesFit(g.size, g.countX, g.countY)
    requires 0 <= w <= g.countX * g.size && 0 <= h <= g.countY * g.size && w % g.size == 0 && h % g.size == 0
    requires MapSized(g, w / g.size, h / g.size)
    requires InBounds(g.size, w / g.size, h / g.size, g.Clusters(), Checkerboard(w, h))
    modifies g, g.open, g.clumpForNode, g.cluster
    ensures g.Dims() && g.OpenSquares() == Checkerboard(w, h)
    ensures AnswersRight(g) <==> old(Separate(w / g.size, h / g.size, g.Clusters()))
  {
    assert g.size > 0;
    hide *;
    ghost var cw, ch, cl := w / g.size, h / g.size, g.Clusters();
    var tiles := CheckerboardMap(w, h);
    WholeMapFits(g, tiles, w, h);
    InitGrid(g, tiles, w, h);
    MappedDims(g);
    StaleEdgesKept(cw, ch, cl, g.Clusters());
    CheckerboardAnswers(g);
  }

  lemma CheckerboardAnswers(g: Grid)
    requires Mapped(g) && SizesFit(g.size, g.countX, g.countY) && GloballyLabelled(g.Clusters()) && Closed(g.Clusters())
    requires InBounds(g.size, g.cw, g.ch, g.Clusters(), g.OpenSquares())
    requires g.OpenSquares() == Checkerboard(g.w, g.h)
    ensures AnswersRight(g) <==> Separate(g.cw, g.ch, g.Clusters())
  {
    var q, cl := SquaresOf(g), g.Clusters();
    InBoundsStale(g.size, g.cw, g.ch, cl, g.OpenSquares());
    CheckerboardLonely(g.w, g.h);
    OpenSquaresAreOpenCells(g);
    hide Listing, GloballyLabelled, Closed, InBounds, Checkerboard, Lonely, Separate, StaleLists, AnswersRight,
        LabelsRight,
      SquaresOf, Grid.Clusters, Grid.OpenSquares, OpenCells, SizesFit;
    RightIffSeparate(q, g.cw, g.ch, cl);
    if Separate(g.cw, g.ch, cl) {
      AnsweringIsRight(g);
    } else if AnswersRight(g) {
      RightLabels(g);
    }
  }

  method InnerCheckerMap(s: int) returns (tiles: seq<int>)
    requires s > 0
    ensures |tiles| == s * s && OpenIn(tiles, s, s) == InnerChecker(s)
  {
    MulMono(0, s, s);
    tiles := seq(s * s, i requires 0 <= i < s * s =>
               var c := TileCell(s, i); if !OnBorder(s, c) && (c.x + c.y) % 2 == 0 then 0 else 1);
    forall c: Cell ensures c in OpenIn(tiles, s, s) <==> c in InnerChecker(s) {
      if 0 <= c.x < s && 0 <= c.y < s { TileCellAt(s, s, c.x, c.y); }
    }
  }

  /** A map of one cluster with a closed border, in memory that was zeroed, has no edge clump at all. */
  lemma NoEdgeClumps(q: Squares, cl: imap<Pos, Cluster>, cl0: imap<Pos, Cluster>)
    requires Clumped(q, 1, 1, cl) && BeyondKept(1, 1, cl0, cl) && q.s >= 94
             && LocalOf(q, Pos(0, 0)) == InnerChecker(q.s)
    requires forall k :: k in cl0 ==> cl0[k].numEdgeClumps == 0
    ensures forall n :: !IsEdgeClump(cl, n)
    ensures cl[Pos(0, 0)].numEdgeClumps == 0 && cl[Pos(0, 0)].numClumps > 4096
  {
    var k := Pos(0, 0);
    assert ClusterOk(q, k, cl[k]);
    hide LabelsOk, InnerChecker;
    InnerCheckerCrowds(q.s, LocalIdsOf(q, k), cl[k].numEdgeClumps, cl[k].numClumps);
    forall n ensures !IsEdgeClump(cl, n) {
      if Home(n) in cl && Home(n) != k { assert SameButLabels(cl0[Home(n)], cl[Home(n)]); }
    }
  }

  /** With no edge clumps about, the global passes have nothing to do. */
  lemma NothingToLabel(q: Squares, cl: imap<Pos, Cluster>, cl0: imap<Pos, Cluster>)
    requires Clumped(q, 1, 1, cl) && BeyondKept(1, 1, cl0, cl) && (forall n :: !IsEdgeClump(cl, n))
    requires forall k :: k in cl0 ==> cl0[k].numEdgeClumps == 0
    ensures Closed(cl) && Bounded(cl) && LabelsFit(cl) && Separate(1, 1, cl)
  {
    ClumpedBounded(q, 1, 1, cl, Pos(0, 0));
    forall k | k in cl ensures 0 <= cl[k].numEdgeClumps <= |cl[k].clump| {
      if k != Pos(0, 0) { assert SameButLabels(cl0[k], cl[k]); }
    }
    forall n, n' | Connected(StaleEdges(1, 1, cl), n, n') ensures n == n' {
      if n != n' { FirstEdge(StaleEdges(1, 1, cl), n, n'); }
    }
  }

  /** The example's initialisation up to the global passes. */
  method FillWide(g: Grid) returns (ghost cl: imap<Pos, Cluster>)
    requires g.Memory() && g.size >= 94 && g.countX >= 1 && g.countY >= 1 && Zeroed(g)
    modifies g, g.open, g.clumpForNode, g.cluster
    ensures Mapped(g) && !g.inBatchedUpdate && g.w == g.size && g.h == g.size && g.cw == 1 && g.ch == 1
    ensures g.OpenSquares() == InnerChecker(g.size)
    ensures BeyondKept(1, 1, cl, g.Clusters()) && forall k :: k in cl ==> cl[k].numEdgeClumps == 0
  {
    var s := g.size;
    SizesOfMaps(g);
    ZeroedClusters(g);
    hide *;
    ZeroedRecords(g, 1, 1);
    cl := g.Clusters();
    var tiles := InnerCheckerMap(s);
    WholeMapFits(g, tiles, s, s);
    FillRecords(g, tiles, s, s);
  }

  /** The example's initialisation. */
  method InitWide(g: Grid) returns (ghost cl: imap<Pos, Cluster>)
    requires g.Memory() && g.size >= 94 && g.countX >= 1 && g.countY >= 1 && Zeroed(g)
    modifies g, g.open, g.clumpForNode, g.cluster
    ensures Mapped(g) && !g.inBatchedUpdate && g.w == g.size && g.h == g.size && g.cw == 1 && g.ch == 1
    ensures g.OpenSquares() == InnerChecker(g.size) && GloballyLabelled(g.Clusters())
    ensures BeyondKept(1, 1, cl, g.Clusters()) && forall k :: k in cl ==> cl[k].numEdgeClumps == 0
  {
    hide *;
    cl := FillWide(g);
    MappedDims(g);
    ghost var filled, squares := g.Clusters(), g.OpenSquares();
    WideFilled(g, cl);
    RelabelGrid(g);
    assert g.OpenSquares() == squares;
    BeyondTrans(1, 1, cl, filled, g.Clusters());
  }

  /**
   Clusters of side 94 and more, and so of 128: initialising zeroed memory with one
   cluster whose inside is a checkerboard. Two squares that no walk joins have
   labels with the same 32 bits, so the query says 1 about them.
   */
  method WideClusterFails(g: Grid) returns (ghost a: Cell, ghost b: Cell)
    requires g.Memory() && g.size >= 94 && g.countX >= 1 && g.countY >= 1 && Zeroed(g)
    modifies g, g.open, g.clumpForNode, g.cluster
    ensures Mapped(g) && !g.inBatchedUpdate && g.w == g.size && g.h == g.size
    ensures g.OpenSquares() == InnerChecker(g.size)
    ensures a in g.OpenSquares() && b in g.OpenSquares() && !Reachable(g.OpenSquares(), a, b)
    ensures Inside(g.w, g.h, a) && Inside(g.w, g.h, b) && SameStoredLabel(g, a, b)
  {
    assert g.size > 0;
    hide *;
    ghost var cl := InitWide(g);
    a, b := WidePair(g, cl);
  }

  lemma ZeroedClusters(g: Grid)
    requires g.Memory() && Zeroed(g)
    ensures forall k :: k in g.Clusters() ==> g.Clusters()[k].numEdgeClumps == 0
  {
    forall k | k in g.Clusters() ensures g.Clusters()[k].numEdgeClumps == 0 {
      assert g.Clusters()[k] == g.cluster[k.cy, k.cx];
    }
  }

  lemma WideFilled(g: Grid, cl0: imap<Pos, Cluster>)
    requires Mapped(g) && g.cw == 1 && g.ch == 1 && g.size >= 94 && g.OpenSquares() == InnerChecker(g.size)
    requires BeyondKept(1, 1, cl0, g.Clusters()) && forall k :: k in cl0 ==> cl0[k].numEdgeClumps == 0
    ensures Closed(g.Clusters()) && Bounded(g.Clusters()) && LabelsFit(g.Clusters()) && Separate(1, 1, g.Clusters())
    ensures Listing(SquaresOf(g), 1, 1, g.Clusters())
    ensures Pos(0, 0) in g.Clusters() && g.Clusters()[Pos(0, 0)].numEdgeClumps == 0
    ensures g.Clusters()[Pos(0, 0)].numClumps > 4096
  {
    var q, cl := SquaresOf(g), g.Clusters();
    ListingClumped(q, 1, 1, cl);
    MapViews(g, Pos(0, 0));
    InnerLocal(g.size);
    hide Listing, Clumped, BeyondKept, LocalOf, LocalMap, InnerChecker, IsEdgeClump, Closed, Bounded, LabelsFit,
        Separate,
      Grid.Clusters, Grid.OpenSquares, SquaresOf;
    NoEdgeClumps(q, cl, cl0);
    NothingToLabel(q, cl, cl0);
  }

  lemma InnerLocal(s: int)
    ensures LocalMap(InnerChecker(s), s, Pos(0, 0)) == InnerChecker(s)
  {}

  lemma WidePair(g: Grid, cl0: imap<Pos, Cluster>) returns (a: Cell, b: Cell)
    requires Mapped(g) && g.cw == 1 && g.ch == 1 && g.size >= 94 && g.OpenSquares() == InnerChecker(g.size)
    requires BeyondKept(1, 1, cl0, g.Clusters()) && forall k :: k in cl0 ==> cl0[k].numEdgeClumps == 0
    requires GloballyLabelled(g.Clusters())
    ensures a in g.OpenSquares() && b in g.OpenSquares() && !Reachable(g.OpenSquares(), a, b)
    ensures Inside(g.w, g.h, a) && Inside(g.w, g.h, b) && SameStoredLabel(g, a, b)
  {
    var q, cl := SquaresOf(g), g.Clusters();
    WideFilled(g, cl0);
    OpenSquaresAreOpenCells(g);
    hide Listing, Clumped, BeyondKept, Closed, Bounded, LabelsFit, Separate, GloballyLabelled, InnerChecker,
        Grid.Clusters,
      Grid.OpenSquares, SquaresOf, OpenCells, Packed, Square, AddrOf, StoredUniqueId, LabelOf, Edges;
    var x, y := CrowdedCluster(q, 1, 1, cl, Pos(0, 0));
    SquareOnMap(g, x);
    SquareOnMap(g, y);
    a, b := Square(g.size, x), Square(g.size, y);
    OnTheMap(g, a);
    OnTheMap(g, b);
    StoredBits(g, a);
    StoredBits(g, b);
  }
}
