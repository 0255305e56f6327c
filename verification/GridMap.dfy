/** The public interface of stb_connected_components.h. */
module GridMap {
  import opened Paths
  import opened GridModel
  import opened GridState
  import opened LabelSpec
  import opened ClusterStore
  import opened Adjacency
  import opened Connections
  import opened Rebuild
  import opened ClumpForest
  import opened GlobalPasses
  import opened Reachability
  import opened Leftovers
  import opened LabelBits
  import opened GridUpdate

  /** The map's clumps are exact and its adjacency lists complete. */
  ghost predicate Mapped(g: Grid)
    reads g, g.open, g.clumpForNode, g.cluster
  {
    g.Dims() && Listing(SquaresOf(g), g.cw, g.ch, g.Clusters())
  }

  /**
   Between public calls: all fields are wide enough, clumps are exact and lists
   complete, left-over records keep to themselves, and outside a batch the global
   labels are exact.
   */
  ghost predicate Valid(g: Grid)
    reads g, g.open, g.clumpForNode, g.cluster
  {
    && Mapped(g) && SizesFit(g.size, g.countX, g.countY)
    && Apart(g.size, g.cw, g.ch, g.Clusters())
    && (!g.inBatchedUpdate ==> GloballyLabelled(g.Clusters()))
  }

  /** The specification of a connection query: a walk over open squares of the current map. */
  ghost predicate Reachable(open: iset<Cell>, a: Cell, b: Cell) {
    a in open && b in open && Connected(Edges(open), a, b)
  }

  /** Reachability written out: there is a walk over open squares that moves one square along one axis at a time. */
  lemma ReachableByWalk(open: iset<Cell>, a: Cell, b: Cell)
    ensures Reachable(open, a, b) <==>
            exists p: seq<Cell> ::
              && |p| > 0 && p[0] == a && p[|p| - 1] == b
              && (forall i :: 0 <= i < |p| ==> p[i] in open)
              && forall i :: 0 <= i < |p| - 1 ==>
                   || (p[i].x == p[i + 1].x && (p[i].y - p[i + 1].y == 1 || p[i + 1].y - p[i].y == 1))
                   || (p[i].y == p[i + 1].y && (p[i].x - p[i + 1].x == 1 || p[i + 1].x - p[i].x == 1))
  {
    if Reachable(open, a, b) {
      var p :| PathFromTo(Edges(open), p, a, b);
      forall i | 0 <= i < |p| ensures p[i] in open {
        if i < |p| - 1 { assert (p[i], p[i + 1]) in Edges(open); }
      }
      forall i | 0 <= i < |p| - 1 ensures Adjacent(p[i], p[i + 1]) { assert (p[i], p[i + 1]) in Edges(open); }
    }
    if p: seq<Cell> :|
      && |p| > 0 && p[0] == a && p[|p| - 1] == b
      && (forall i :: 0 <= i < |p| ==> p[i] in open)
      && forall i :: 0 <= i < |p| - 1 ==>
           || (p[i].x == p[i + 1].x && (p[i].y - p[i + 1].y == 1 || p[i + 1].y - p[i].y == 1))
           || (p[i].y == p[i + 1].y && (p[i].x - p[i + 1].x == 1 || p[i + 1].x - p[i].x == 1))
    {
      assert PathFromTo(Edges(open), p, a, b);
    }
  }

  lemma OpenSquaresAreOpenCells(g: Grid)
    requires g.Dims()
    ensures OpenCells(SquaresOf(g)) == g.OpenSquares()
  {
    var q := SquaresOf(g);
    forall c: Cell ensures c in OpenCells(q) <==> c in g.OpenSquares() {
      OpenSquare(g, c);
    }
  }

  lemma OpenSquare(g: Grid, c: Cell)
    requires g.Dims()
    ensures AddrOf(g.size, c) in SquaresOf(g).open <==> c in g.OpenSquares()
  {
    var a := AddrOf(g.size, c);
    SquareOfAddr(g.size, c);
    if 0 <= c.x < g.w && 0 <= c.y < g.h {
      OffsetOfDivision(g.size, g.cw, c.x);
      OffsetOfDivision(g.size, g.ch, c.y);
    } else if g.HasAddr(a) {
      g.Bases(a.k);
      assert false;
    }
  }

  /** What a square's stored clump id says, and where its label is. */
  lemma StoredId(g: Grid, x: int, y: int)
    requires Mapped(g) && 0 <= x < g.w && 0 <= y < g.h
    ensures var q, a := SquaresOf(g), AddrOf(g.size, Cell(x, y));
            && g.HasPos(a.k) && g.HasSlot(a.k) && Locates(g, a, x, y) && Square(g.size, a) == Cell(x, y)
            && x < g.clumpForNode.Length1 && y < g.clumpForNode.Length0 && a in g.Ids() && a.k in g.Clusters()
            && g.clumpForNode[y, x] == q.IdOf(a)
            && (a in q.open <==> Cell(x, y) in g.OpenSquares())
            && (a in q.open <==> g.clumpForNode[y, x] != MaxClumps(g.size))
            && (a in q.open ==> 0 <= q.IdOf(a) < |g.cluster[a.k.cy, a.k.cx].clump|
                                && LabelOf(q, g.Clusters(), a)
                                    == g.cluster[a.k.cy, a.k.cx].clump[q.IdOf(a)].globalLabel)
  {
    hide LabelsOk, Lists, GloballyLabelled;
    var q, cl, c := SquaresOf(g), g.Clusters(), Cell(x, y);
    var a := AddrOf(g.size, c);
    SquareOfAddr(g.size, c);
    OffsetOfDivision(g.size, g.cw, x);
    OffsetOfDivision(g.size, g.ch, y);
    OpenSquare(g, c);
    ClusterOf(g, a, x, y);
    ClosedId(q, g.cw, g.ch, cl, a);
    if a in q.open { LabelDefined(q, g.cw, g.ch, cl, a); }
  }

  lemma ClosedId(q: Squares, cw: int, ch: int, cl: imap<Pos, Cluster>, a: Addr)
    requires Clumped(q, cw, ch, cl) && InGrid(cw, ch, a.k) && InBox(q.s, a.l)
    ensures a in q.open <==> q.IdOf(a) != MaxClumps(q.s)
  {
    assert ClusterOk(q, a.k, cl[a.k]);
    assert LocalIdsOf(q, a.k)[a.l] == q.IdOf(a);
    assert a in q.open <==> a.l in LocalOf(q, a.k);
  }

  /** Where a square is in the buffers. */
  lemma Lookup(g: Grid, x: int, y: int)
    requires Mapped(g) && 0 <= x < g.w && 0 <= y < g.h
    ensures var q, a := SquaresOf(g), AddrOf(g.size, Cell(x, y));
            && x < g.clumpForNode.Length1 && y < g.clumpForNode.Length0 && g.clumpForNode[y, x] == q.IdOf(a)
            && a.k == Pos(x / g.size, y / g.size) && a.k in g.Clusters()
            && 0 <= a.k.cx < g.cluster.Length1 && 0 <= a.k.cy < g.cluster.Length0
            && g.cluster[a.k.cy, a.k.cx] == g.Clusters()[a.k]
            && (q.IdOf(a) != MaxClumps(g.size) ==> 0 <= q.IdOf(a) < |g.Clusters()[a.k].clump|)
  {
    hide Listing, GloballyLabelled, LabelOf, SquaresOf, Grid.OpenSquares, OpenCells;
    StoredId(g, x, y);
    ClusterOf(g, AddrOf(g.size, Cell(x, y)), x, y);
  }

  /** The 32 bits stored for square c: those of its clump's label, or the null id if it has no clump. */
  ghost function StoredUniqueId(g: Grid, c: Cell): int
    requires g.Dims() && 0 <= c.x < g.w && 0 <= c.y < g.h
    reads g.clumpForNode, g.cluster, g`cw, g`ch, g`w, g`h
  {
    OffsetOfDivision(g.size, g.cw, c.x);
    OffsetOfDivision(g.size, g.ch, c.y);
    g.Bases(Pos(c.x / g.size, c.y / g.size));
    var id := g.clumpForNode[c.y, c.x];
    var clump := g.cluster[c.y / g.size, c.x / g.size].clump;
    if id == MaxClumps(g.size) || id < 0 || id >= |clump| then NULL_UNIQUE_ID else Packed(clump[id].globalLabel)
  }

  /** Both squares have clumps, and the bits of the clumps' labels agree. */
  ghost predicate SameStoredLabel(g: Grid, a: Cell, b: Cell)
    requires g.Dims() && 0 <= a.x < g.w && 0 <= a.y < g.h && 0 <= b.x < g.w && 0 <= b.y < g.h
    reads g.open, g.clumpForNode, g.cluster, g`cw, g`ch, g`w, g`h
  {
    a in g.OpenSquares() && b in g.OpenSquares() && StoredUniqueId(g, a) == StoredUniqueId(g, b)
  }

  /** What is stored for a square. */
  lemma StoredBits(g: Grid, c: Cell)
    requires Mapped(g) && 0 <= c.x < g.w && 0 <= c.y < g.h
    ensures var q, a := SquaresOf(g), AddrOf(g.size, c);
            && (c in g.OpenSquares() <==> q.IdOf(a) != MaxClumps(g.size)) && (c in g.OpenSquares() <==> a in q.open)
            && (c in g.OpenSquares() ==> a.k in g.Clusters() && 0 <= q.IdOf(a) < |g.Clusters()[a.k].clump|
                                         && StoredUniqueId(g, c) == Packed(LabelOf(q, g.Clusters(), a)))
            && (c !in g.OpenSquares() ==> StoredUniqueId(g, c) == NULL_UNIQUE_ID)
  {
    hide Listing, GloballyLabelled, SquaresOf, Grid.OpenSquares, Grid.Clusters, Packed, AddrOf;
    StoredId(g, c.x, c.y);
    Lookup(g, c.x, c.y);
  }

  /** The label stored for an open square is short enough for its bit fields. */
  lemma StoredLabel(g: Grid, q: Squares, cl: imap<Pos, Cluster>, a: Addr)
    requires g.Memory() && SizesFit(g.size, g.countX, g.countY) && q.s == g.size && g.cw <= g.countX && g.ch <= g.countY
    requires forall k :: k in cl <==> g.HasSlot(k)
    requires Clumped(q, g.cw, g.ch, cl) && GloballyLabelled(cl) && StaleLists(q.s, g.cw, g.ch, cl) && a in q.open
    ensures a.k in cl && 0 <= q.IdOf(a) < |cl[a.k].clump|
    ensures IsLabel(q.s, g.countX, g.countY, LabelOf(q, cl, a)) && FitsFields(LabelOf(q, cl, a))
  {
    LabelDefined(q, g.cw, g.ch, cl, a);
    OpenId(q, g.cw, g.ch, cl, a);
    SizesFitFields(g.size, g.countX, g.countY);
    var n := LabelOf(q, cl, a);
    ClumpedBounded(q, g.cw, g.ch, cl, a.k);
    if IsEdgeClump(cl, ClumpOf(q, a)) {
      assert GlobalLabels(cl)[ClumpOf(q, a)] in GlobalLabels(cl);
      EdgeClumpIsLabel(g, q, cl, n);
    }
  }

  lemma EdgeClumpIsLabel(g: Grid, q: Squares, cl: imap<Pos, Cluster>, n: GlobalClumpId)
    requires forall k :: k in cl <==> g.HasSlot(k)
    requires Clumped(q, g.cw, g.ch, cl) && StaleLists(q.s, g.cw, g.ch, cl) && IsEdgeClump(cl, n)
    ensures IsLabel(q.s, g.countX, g.countY, n)
  {
    if InGrid(g.cw, g.ch, Home(n)) { ClumpedBounded(q, g.cw, g.ch, cl, Home(n)); }
  }

  /** What makes the stored labels right: exact labels, no harm from left-over lists, fields that are wide enough. */
  ghost predicate Answering(g: Grid)
    reads g, g.open, g.clumpForNode, g.cluster
  {
    && Mapped(g) && SizesFit(g.size, g.countX, g.countY)
    && StaleLists(g.size, g.cw, g.ch, g.Clusters()) && Separate(g.cw, g.ch, g.Clusters())
    && GloballyLabelled(g.Clusters())
  }

  lemma ValidAnswers(g: Grid)
    requires Valid(g) && !g.inBatchedUpdate
    ensures Answering(g)
  {
    hide Listing, GloballyLabelled;
    ApartSeparate(g.size, g.cw, g.ch, g.Clusters());
  }

  /** Two squares are joined by a walk if and only if both have clumps, and the clumps' labels the same bits. */
  lemma ReachableMeaning(g: Grid, c1: Cell, c2: Cell)
    requires Answering(g)
    requires 0 <= c1.x < g.w && 0 <= c1.y < g.h && 0 <= c2.x < g.w && 0 <= c2.y < g.h
    ensures SameStoredLabel(g, c1, c2) <==> Reachable(g.OpenSquares(), c1, c2)
  {
    var q, cl, a, b := SquaresOf(g), g.Clusters(), AddrOf(g.size, c1), AddrOf(g.size, c2);
    StoredBits(g, c1);
    StoredBits(g, c2);
    OpenSquaresAreOpenCells(g);
    SquareOfAddr(g.size, c1);
    SquareOfAddr(g.size, c2);
    hide Clumped, GloballyLabelled, LabelOf, Grid.Clusters, Grid.OpenSquares, OpenCells, AddrOf, SquaresOf, Separate,
      StaleLists, StoredUniqueId, Packed, FitsFields, IsLabel, Square, SizesFit;
    if c1 in g.OpenSquares() && c2 in g.OpenSquares() {
      StoredLabel(g, q, cl, a);
      StoredLabel(g, q, cl, b);
      PackedSame(LabelOf(q, cl, a), LabelOf(q, cl, b));
      LabelsAreComponents(q, g.cw, g.ch, cl, a, b);
    }
  }

  /** The stored labels answer every question about two squares of the map rightly. */
  ghost predicate AnswersRight(g: Grid)
    requires g.Dims()
    reads g.open, g.clumpForNode, g.cluster, g`cw, g`ch, g`w, g`h
  {
    forall a: Cell, b: Cell {:trigger SameStoredLabel(g, a, b)} ::
      0 <= a.x < g.w && 0 <= a.y < g.h && 0 <= b.x < g.w && 0 <= b.y < g.h ==>
        (SameStoredLabel(g, a, b) <==> Reachable(g.OpenSquares(), a, b))
  }

  lemma AnsweringIsRight(g: Grid)
    requires Answering(g)
    ensures g.Dims() && AnswersRight(g)
  {
    hide SameStoredLabel, Reachable, Listing, GloballyLabelled, Separate, StaleLists;
    forall a: Cell, b: Cell | 0 <= a.x < g.w && 0 <= a.y < g.h && 0 <= b.x < g.w && 0 <= b.y < g.h
      ensures SameStoredLabel(g, a, b) <==> Reachable(g.OpenSquares(), a, b)
    {
      ReachableMeaning(g, a, b);
    }
  }

  /**
   Compares the labels' bits; in a valid state the answer is 1 if a walk over open
   squares joins the squares, else 0.
   */
  method QueryGridNodeConnection(g: Grid, x1: int, y1: int, x2: int, y2: int) returns (r: int)
    requires Mapped(g) && !g.inBatchedUpdate
    requires 0 <= x1 < g.w && 0 <= y1 < g.h && 0 <= x2 < g.w && 0 <= y2 < g.h
    ensures r == if SameStoredLabel(g, Cell(x1, y1), Cell(x2, y2)) then 1 else 0
    ensures Valid(g) ==> r == if Reachable(g.OpenSquares(), Cell(x1, y1), Cell(x2, y2)) then 1 else 0
  {
    if Valid(g) {
      ValidAnswers(g);
      ReachableMeaning(g, Cell(x1, y1), Cell(x2, y2));
    }
    assert g.size > 0;
    hide Mapped, Valid, Answering, Reachable, Grid.OpenSquares, AddrOf, SquaresOf, Squares.IdOf, MaxClumps,
        Grid.Clusters,
      StoredUniqueId, Packed;
    Lookup(g, x1, y1);
    Lookup(g, x2, y2);
    StoredBits(g, Cell(x1, y1));
    StoredBits(g, Cell(x2, y2));
    var c1, c2 := g.clumpForNode[y1, x1], g.clumpForNode[y2, x2];
    var cx1, cy1, cx2, cy2 := x1 / g.size, y1 / g.size, x2 / g.size, y2 / g.size;
    if c1 == MaxClumps(g.size) || c2 == MaxClumps(g.size) {
      return 0;
    }
    var label1, label2 := g.cluster[cy1, cx1].clump[c1].globalLabel, g.cluster[cy2, cx2].clump[c2].globalLabel;
    if Packed(label1) == Packed(label2) {
      return 1;
    }
    return 0;
  }

  method QueryGridOpen(g: Grid, x: int, y: int) returns (r: bool)
    requires g.Dims() && 0 <= x < g.w && 0 <= y < g.h
    ensures r <==> Cell(x, y) in g.OpenSquares()
  {
    r := g.open[y, x];
  }

  /** The id is never null for an open square. */
  lemma StoredIdMeaning(g: Grid, c: Cell)
    requires Valid(g) && !g.inBatchedUpdate && 0 <= c.x < g.w && 0 <= c.y < g.h
    ensures StoredUniqueId(g, c) == NULL_UNIQUE_ID <==> c !in g.OpenSquares()
  {
    StoredBits(g, c);
    hide Clumped, GloballyLabelled, LabelOf, Grid.Clusters, Grid.OpenSquares, AddrOf, SquaresOf, Apart, StoredUniqueId,
        Packed;
    if c in g.OpenSquares() {
      var q, a := SquaresOf(g), AddrOf(g.size, c);
      SizesFitFields(g.size, g.countX, g.countY);
      ApartStaleLists(g.size, g.cw, g.ch, g.Clusters());
      StoredLabel(g, q, g.Clusters(), a);
      PackedIsNotNull(g.size, g.countX, g.countY, LabelOf(q, g.Clusters(), a));
    }
  }

  lemma ApartStaleLists(s: int, cw: int, ch: int, cl: imap<Pos, Cluster>)
    requires Apart(s, cw, ch, cl)
    ensures StaleLists(s, cw, ch, cl)
  {}

  method GetUniqueId(g: Grid, x: int, y: int) returns (r: int)
    requires Valid(g) && !g.inBatchedUpdate && 0 <= x < g.w && 0 <= y < g.h
    ensures r == StoredUniqueId(g, Cell(x, y))
    ensures r == 0xffff_ffff <==> Cell(x, y) !in g.OpenSquares()
    ensures 0 <= x / g.size < g.cluster.Length1 && 0 <= y / g.size < g.cluster.Length0
    ensures x < g.clumpForNode.Length1 && y < g.clumpForNode.Length0
    ensures r != 0xffff_ffff ==>
              var id, clump := g.clumpForNode[y, x], g.cluster[y / g.size, x / g.size].clump;
              && 0 <= id < |clump|
              && var n := clump[id].globalLabel;
                 r == n.index % 4096 + 4096 * (n.cx % 1024) + 4194304 * (n.cy % 1024)
  {
    StoredIdMeaning(g, Cell(x, y));
    assert Mapped(g) && g.size > 0;
    hide Mapped, Valid, Grid.OpenSquares, AddrOf, SquaresOf, Squares.IdOf, MaxClumps, Grid.Clusters, StoredUniqueId,
        Packed;
    Lookup(g, x, y);
    StoredBits(g, Cell(x, y));
    var c := g.clumpForNode[y, x];
    var cx, cy := x / g.size, y / g.size;
    if c == MaxClumps(g.size) {
      return NULL_UNIQUE_ID;
    }
    r := Packed(g.cluster[cy, cx].clump[c].globalLabel);
  }

  /** Open squares have equal ids exactly when a walk joins them. */
  lemma UniqueIdsAreComponents(g: Grid, a: Cell, b: Cell)
    requires Valid(g) && !g.inBatchedUpdate && a in g.OpenSquares() && b in g.OpenSquares()
    ensures StoredUniqueId(g, a) == StoredUniqueId(g, b) <==> Connected(Edges(g.OpenSquares()), a, b)
  {
    ValidAnswers(g);
    ReachableMeaning(g, a, b);
  }

  /** Opens or closes one square of the map. */
  method SetMap(g: Grid, x: int, y: int, isOpen: bool)
    requires g.Dims() && 0 <= x < g.w && 0 <= y < g.h
    modifies g.open
    ensures g.Open() == if isOpen then old(g.Open()) + iset{AddrOf(g.size, Cell(x, y))}
            else old(g.Open()) - iset{AddrOf(g.size, Cell(x, y))}
    ensures g.OpenSquares() == if isOpen then old(g.OpenSquares()) + iset{Cell(x, y)}
            else old(g.OpenSquares()) - iset{Cell(x, y)}
  {
    ghost var a := AddrOf(g.size, Cell(x, y));
    ghost var before, squares := g.Open(), g.OpenSquares();
    OnMap(g, Cell(x, y));
    g.open[y, x] := isOpen;
    forall b: Addr | g.HasAddr(b)
      ensures b in g.Open() <==> if b == a then isOpen else b in before
    {
      g.Bases(b.k);
      AddrOfSquare(g.size, b);
    }
    assert g.OpenSquares() == if isOpen then squares + iset{Cell(x, y)} else squares - iset{Cell(x, y)} by {
      hide Grid.Open;
    }
    hide Grid.OpenSquares;
  }

  /** A square of the map lies in one of its clusters and in the buffers. */
  lemma OnMap(g: Grid, c: Cell)
    requires g.Dims() && 0 <= c.x < g.w && 0 <= c.y < g.h
    ensures g.HasAddr(AddrOf(g.size, c)) && Square(g.size, AddrOf(g.size, c)) == c
    ensures c.x < g.open.Length1 && c.y < g.open.Length0
  {
    OffsetOfDivision(g.size, g.cw, c.x);
    OffsetOfDivision(g.size, g.ch, c.y);
    SquareOfAddr(g.size, c);
    g.Bases(AddrOf(g.size, c).k);
  }

  method RemoveAround(g: Grid, cx: int, cy: int, ghost q: Squares)
    requires g.Dims() && q == SquaresOf(g) && g.HasPos(Pos(cx, cy)) && Listing(q, g.cw, g.ch, g.Clusters())
    modifies g.cluster
    ensures Awaiting(q, g.cw, g.ch, g.Clusters(), Pos(cx, cy), ALL_DIRS)
    ensures g.Clusters()[Pos(cx, cy)] == old(g.Clusters())[Pos(cx, cy)]
    ensures BeyondKept(g.cw, g.ch, old(g.Clusters()), g.Clusters())
  {
    hide Awaiting, Listing, SquaresOf, Grid.Clusters, BeyondKept;
    ghost var cl := g.Clusters();
    ListingAwaits(q, g.cw, g.ch, cl, Pos(cx, cy));
    RemoveFrom(g, cx, cy, 1, 0, q, {});
    ghost var cl1 := g.Clusters();
    RemoveFrom(g, cx, cy, -1, 0, q, {} + {Dir(1, 0)});
    BeyondTrans(g.cw, g.ch, cl, cl1, g.Clusters());
    ghost var cl2 := g.Clusters();
    RemoveFrom(g, cx, cy, 0, 1, q, {} + {Dir(1, 0)} + {Dir(-1, 0)});
    BeyondTrans(g.cw, g.ch, cl, cl2, g.Clusters());
    ghost var cl3 := g.Clusters();
    RemoveFrom(g, cx, cy, 0, -1, q, {} + {Dir(1, 0)} + {Dir(-1, 0)} + {Dir(0, 1)});
    BeyondTrans(g.cw, g.ch, cl, cl3, g.Clusters());
    assert {} + {Dir(1, 0)} + {Dir(-1, 0)} + {Dir(0, 1)} + {Dir(0, -1)} == ALL_DIRS;
  }

  method AddAround(g: Grid, cx: int, cy: int, ghost q: Squares)
    requires g.Dims() && q == SquaresOf(g) && g.HasPos(Pos(cx, cy))
    requires Awaiting(q, g.cw, g.ch, g.Clusters(), Pos(cx, cy), ALL_DIRS)
             && Complete(q, Pos(cx, cy), g.Clusters()[Pos(cx, cy)])
    modifies g.cluster
    ensures Listing(q, g.cw, g.ch, g.Clusters())
    ensures BeyondKept(g.cw, g.ch, old(g.Clusters()), g.Clusters())
  {
    hide Awaiting, Listing, SquaresOf, Grid.Clusters, Complete, BeyondKept;
    ghost var cl := g.Clusters();
    AddToWithRebuild(g, cx, cy, 1, 0, q, ALL_DIRS);
    ghost var cl1 := g.Clusters();
    AddToWithRebuild(g, cx, cy, -1, 0, q, ALL_DIRS - {Dir(1, 0)});
    BeyondTrans(g.cw, g.ch, cl, cl1, g.Clusters());
    ghost var cl2 := g.Clusters();
    AddToWithRebuild(g, cx, cy, 0, 1, q, ALL_DIRS - {Dir(1, 0)} - {Dir(-1, 0)});
    BeyondTrans(g.cw, g.ch, cl, cl2, g.Clusters());
    ghost var cl3 := g.Clusters();
    AddToWithRebuild(g, cx, cy, 0, -1, q, ALL_DIRS - {Dir(1, 0)} - {Dir(-1, 0)} - {Dir(0, 1)});
    BeyondTrans(g.cw, g.ch, cl, cl3, g.Clusters());
    assert ALL_DIRS - {Dir(1, 0)} - {Dir(-1, 0)} - {Dir(0, 1)} - {Dir(0, -1)} == {};
    AwaitingDone(q, g.cw, g.ch, g.Clusters(), Pos(cx, cy));
  }

  lemma FreshClusterOk(g: Grid, k: Pos, before: Cluster, c: Cluster)
    requires g.Dims() && g.HasPos(k) && Sized(g.size, before) && JustBuilt(c, before, k)
    requires LabelsOk(g.size, g.LocalOpen(k), g.LocalIds(k), c.numEdgeClumps, c.numClumps)
    ensures ClusterOk(SquaresOf(g), k, c)
  {
    LocalViews(g, k);
    hide LabelsOk, Grid.LocalOpen, Grid.LocalIds, LocalOf, LocalIdsOf;
  }

  /** The rebuilt cluster agrees with the changed map; nothing outside it has changed. */
  lemma RebuiltState(g: Grid, q: Squares, cl: imap<Pos, Cluster>, k0: Pos)
    requires g.Dims() && g.HasPos(k0) && Awaiting(q, g.cw, g.ch, cl, k0, ALL_DIRS) && q.s == g.size
    requires k0 in cl && g.Clusters() == cl[k0 := g.Clusters()[k0]] && JustBuilt(g.Clusters()[k0], cl[k0], k0)
    requires LabelsOk(g.size, g.LocalOpen(k0), g.LocalIds(k0), g.Clusters()[k0].numEdgeClumps,
             g.Clusters()[k0].numClumps)
    requires forall a: Addr :: a.k != k0 ==> (a in g.Open() <==> a in q.open)
    requires forall a: Addr :: a.k != k0 ==> SquaresOf(g).IdOf(a) == q.IdOf(a)
    ensures Awaiting(SquaresOf(g), g.cw, g.ch, g.Clusters(), k0, ALL_DIRS)
  {
    var q' := SquaresOf(g);
    assert ClusterOk(q, k0, cl[k0]);
    FreshClusterOk(g, k0, cl[k0], g.Clusters()[k0]);
    hide LabelsOk, Lists, Wanted, ClusterOk, JustBuilt, Grid.Ids;
    AwaitingRebuilt(q, q', g.cw, g.ch, cl, g.Clusters(), k0);
  }

  lemma LocalViews(g: Grid, k: Pos)
    requires g.Dims() && g.HasPos(k)
    ensures LocalOf(SquaresOf(g), k) == g.LocalOpen(k) && LocalIdsOf(SquaresOf(g), k) == g.LocalIds(k)
  {
    forall l | InBox(g.size, l) ensures LocalIdsOf(SquaresOf(g), k)[l] == g.LocalIds(k)[l] {
      assert g.Ids()[Addr(k, l)] == g.IdAt(Addr(k, l));
    }
  }

  /** Changes one square and recomputes the clumps of its cluster, which nobody lists at that moment. */
  method RebuildAt(g: Grid, x: int, y: int, isOpen: bool, ghost q: Squares)
    requires g.Dims() && 0 <= x < g.w && 0 <= y < g.h && q == SquaresOf(g)
    requires Awaiting(q, g.cw, g.ch, g.Clusters(), AddrOf(g.size, Cell(x, y)).k, ALL_DIRS)
    modifies g.open, g.clumpForNode, g.cluster
    ensures Awaiting(SquaresOf(g), g.cw, g.ch, g.Clusters(), AddrOf(g.size, Cell(x, y)).k, ALL_DIRS)
    ensures g.OpenSquares() == if isOpen then old(g.OpenSquares()) + iset{Cell(x, y)}
            else old(g.OpenSquares()) - iset{Cell(x, y)}
    ensures BeyondKept(g.cw, g.ch, old(g.Clusters()), g.Clusters())
  {
    hide Awaiting, Grid.OpenSquares, LabelsOk, Grid.Clusters, Grid.Open, Grid.Ids, JustBuilt, BeyondKept;
    OffsetOfDivision(g.size, g.cw, x);
    OffsetOfDivision(g.size, g.ch, y);
    var cx, cy := x / g.size, y / g.size;
    ghost var k0, cl := Pos(cx, cy), g.Clusters();
    SetMap(g, x, y, isOpen);
    RecordSized(g, q, cl, k0);
    ghost var squares, open := g.OpenSquares(), g.Open();
    BuildClumpsForCluster(g, cx, cy);
    assert g.OpenSquares() == squares && g.Open() == open;
    RebuiltState(g, q, cl, k0);
    BeyondUpdate(g.cw, g.ch, cl, k0, g.Clusters()[k0]);
  }

  /** Rebuilds cluster (cx, cy)'s lists and gives its neighbours their entries back. */
  method Reconnect(g: Grid, cx: int, cy: int)
    requires g.Dims() && g.HasPos(Pos(cx, cy))
             && Awaiting(SquaresOf(g), g.cw, g.ch, g.Clusters(), Pos(cx, cy), ALL_DIRS)
    modifies g.cluster
    ensures Listing(SquaresOf(g), g.cw, g.ch, g.Clusters())
    ensures BeyondKept(g.cw, g.ch, old(g.Clusters()), g.Clusters())
  {
    hide Awaiting, Listing, Grid.Clusters, Complete, SquaresOf, BeyondKept;
    ghost var k0, q, cl := Pos(cx, cy), SquaresOf(g), g.Clusters();
    ReadyToConnect(g, q, cl, k0);
    BuildAllConnectionsForCluster(g, cx, cy, q);
    AwaitingKeepsWithK0(q, g.cw, g.ch, cl, k0, g.Clusters()[k0], ALL_DIRS);
    ghost var cl1 := g.Clusters();
    BeyondUpdate(g.cw, g.ch, cl, k0, cl1[k0]);
    AddAround(g, cx, cy, q);
    BeyondTrans(g.cw, g.ch, cl, cl1, g.Clusters());
  }

  /** Changes one square and brings its cluster and the neighbouring clusters up to date. */
  method ChangeSquare(g: Grid, x: int, y: int, isOpen: bool)
    requires g.Dims() && 0 <= x < g.w && 0 <= y < g.h && Listing(SquaresOf(g), g.cw, g.ch, g.Clusters())
    modifies g.open, g.clumpForNode, g.cluster
    ensures Listing(SquaresOf(g), g.cw, g.ch, g.Clusters())
    ensures g.OpenSquares() == if isOpen then old(g.OpenSquares()) + iset{Cell(x, y)}
            else old(g.OpenSquares()) - iset{Cell(x, y)}
    ensures BeyondKept(g.cw, g.ch, old(g.Clusters()), g.Clusters())
  {
    hide Awaiting, Listing, Grid.OpenSquares, Grid.Clusters, SquaresOf, BeyondKept;
    ghost var cl := g.Clusters();
    OffsetOfDivision(g.size, g.cw, x);
    OffsetOfDivision(g.size, g.ch, y);
    var cx, cy := x / g.size, y / g.size;
    ghost var q := SquaresOf(g);
    RemoveAround(g, cx, cy, q);
    ghost var cl1 := g.Clusters();
    RebuildAt(g, x, y, isOpen, q);
    BeyondTrans(g.cw, g.ch, cl, cl1, g.Clusters());
    ghost var cl2 := g.Clusters();
    Reconnect(g, cx, cy);
    BeyondTrans(g.cw, g.ch, cl, cl2, g.Clusters());
  }

  lemma RecordSized(g: Grid, q: Squares, cl: imap<Pos, Cluster>, k: Pos)
    requires g.Dims() && g.HasPos(k) && Awaiting(q, g.cw, g.ch, cl, k, ALL_DIRS) && q.s == g.size && cl == g.Clusters()
    ensures g.cluster[k.cy, k.cx] == cl[k] && Sized(g.size, cl[k])
  {
    assert ClusterOk(q, k, cl[k]);
  }

  lemma ReadyToConnect(g: Grid, q: Squares, cl: imap<Pos, Cluster>, k: Pos)
    requires Awaiting(q, g.cw, g.ch, cl, k, ALL_DIRS) && g.HasPos(k)
    ensures k in cl && Sized(q.s, cl[k]) && 0 <= cl[k].numEdgeClumps <= MaxClumps(q.s)
            && cl[k].numEdgeClumps <= MaxExits(q.s)
    ensures Surroundings(q, k, cl[k].numEdgeClumps)
  {
    ClumpedSurroundings(q, g.cw, g.ch, cl, k);
    assert ClusterOk(q, k, cl[k]);
  }

  /** Sets square (x, y) open or closed; outside a batch the global labels are exact again on return. */
  method UpdateGrid(g: Grid, x: int, y: int, solid: bool)
    requires Valid(g) && 0 <= x < g.w && 0 <= y < g.h
    modifies g.open, g.clumpForNode, g.cluster
    ensures Valid(g) && g.inBatchedUpdate == old(g.inBatchedUpdate)
    ensures g.OpenSquares() == if solid then old(g.OpenSquares()) - iset{Cell(x, y)}
            else old(g.OpenSquares()) + iset{Cell(x, y)}
  {
    hide Listing, GloballyLabelled, Grid.Clusters, LabelsChanged, SquaresOf, Apart, BeyondKept, SizesFit,
        Grid.OpenSquares;
    ghost var cl := g.Clusters();
    OpenBit(g, Cell(x, y));
    if !solid {
      if g.open[y, x] {
        return;
      }
    } else {
      if !g.open[y, x] {
        return;
      }
    }
    ChangeSquare(g, x, y, !solid);
    ApartKept(g.size, g.cw, g.ch, cl, g.Clusters());
    if !g.inBatchedUpdate {
      RelabelApart(g);
    }
  }

  lemma OpenBit(g: Grid, c: Cell)
    requires g.Dims() && 0 <= c.x < g.w && 0 <= c.y < g.h
    ensures c.x < g.open.Length1 && c.y < g.open.Length0
    ensures g.open[c.y, c.x] <==> c in g.OpenSquares()
  {
    OnMap(g, c);
  }

  /** The map's squares, cluster by cluster. */
  lemma MapViews(g: Grid, k: Pos)
    requires g.Dims() && g.HasPos(k)
    ensures LocalOf(SquaresOf(g), k) == LocalMap(g.OpenSquares(), g.size, k)
  {
    forall l | InBox(g.size, l)
      ensures l in LocalOf(SquaresOf(g), k) <==> l in LocalMap(g.OpenSquares(), g.size, k)
    {
      AddrOfSquare(g.size, Addr(k, l));
      OpenSquare(g, Square(g.size, Addr(k, l)));
    }
  }

  /** The global passes find nothing but edge clumps, with names short enough for their bit fields. */
  lemma ReadyToRelabel(g: Grid)
    requires Mapped(g) && SizesFit(g.size, g.countX, g.countY)
    requires InBounds(g.size, g.cw, g.ch, g.Clusters(), g.OpenSquares())
    ensures Closed(g.Clusters()) && Bounded(g.Clusters()) && LabelsFit(g.Clusters())
  {
    hide Listing, Grid.Clusters, Grid.OpenSquares, LocalMap, LocalOf, SquaresOf, Closed, Bounded;
    var q, cl := SquaresOf(g), g.Clusters();
    forall k | InGrid(g.cw, g.ch, k) ensures LocalOf(q, k) == LocalMap(g.OpenSquares(), q.s, k) { MapViews(g, k); }
    ListsClosed(q, g.cw, g.ch, cl, g.OpenSquares());
    ListingClumped(q, g.cw, g.ch, cl);
    SizesFitFields(g.size, g.countX, g.countY);
    hide Clumped, MaxClumps;
    forall n | IsEdgeClump(cl, n) ensures FitsFields(n) { EdgeClumpIsLabel(g, q, cl, n); }
  }

  /** The global pass leaves map, clumps and lists as they are. */
  method RelabelGrid(g: Grid)
    requires Mapped(g) && Closed(g.Clusters()) && Bounded(g.Clusters()) && LabelsFit(g.Clusters())
    modifies g.cluster
    ensures Mapped(g) && GloballyLabelled(g.Clusters())
    ensures BeyondKept(g.cw, g.ch, old(g.Clusters()), g.Clusters())
  {
    hide Listing, GloballyLabelled, Grid.Clusters, LabelsChanged, SquaresOf, BeyondKept, Closed, Bounded, LabelsFit;
    ghost var q, cl := SquaresOf(g), g.Clusters();
    BuildConnectedComponentsForClumps(g);
    RelabelledListing(q, g.cw, g.ch, cl, g.Clusters());
    BeyondRelabelled(g.cw, g.ch, cl, g.Clusters());
  }

  /** The global pass where left-over lists are in bounds. */
  method RelabelInBounds(g: Grid)
    requires Mapped(g) && SizesFit(g.size, g.countX, g.countY)
    requires InBounds(g.size, g.cw, g.ch, g.Clusters(), g.OpenSquares())
    modifies g.cluster
    ensures Mapped(g) && GloballyLabelled(g.Clusters()) && Closed(g.Clusters())
    ensures InBounds(g.size, g.cw, g.ch, g.Clusters(), g.OpenSquares())
    ensures BeyondKept(g.cw, g.ch, old(g.Clusters()), g.Clusters())
  {
    hide Mapped, GloballyLabelled, Grid.Clusters, BeyondKept, SizesFit, Closed, Bounded, LabelsFit, InBounds,
      Grid.OpenSquares;
    MappedDims(g);
    ghost var cl, squares := g.Clusters(), g.OpenSquares();
    ReadyToRelabel(g);
    RelabelGrid(g);
    assert g.OpenSquares() == squares;
    InBoundsKept(g.size, g.cw, g.ch, cl, g.Clusters(), squares);
    ReadyToRelabel(g);
  }

  method RelabelApart(g: Grid)
    requires Mapped(g) && SizesFit(g.size, g.countX, g.countY) && Apart(g.size, g.cw, g.ch, g.Clusters())
    modifies g.cluster
    ensures Mapped(g) && GloballyLabelled(g.Clusters()) && Apart(g.size, g.cw, g.ch, g.Clusters())
  {
    hide Mapped, GloballyLabelled, Grid.Clusters, Apart, BeyondKept, SizesFit, Closed, Bounded, LabelsFit, InBounds;
    MappedDims(g);
    ghost var cl := g.Clusters();
    ApartInBounds(g.size, g.cw, g.ch, cl, g.OpenSquares());
    RelabelInBounds(g);
    ApartKept(g.size, g.cw, g.ch, cl, g.Clusters());
  }

  lemma MappedDims(g: Grid)
    requires Mapped(g)
    ensures g.Dims()
  {}

  lemma RelabelledListing(q: Squares, cw: int, ch: int, cl: imap<Pos, Cluster>, cl': imap<Pos, Cluster>)
    requires Listing(q, cw, ch, cl) && LabelsChanged(cl, cl')
    ensures Listing(q, cw, ch, cl')
  {
    hide LabelsOk, Wanted;
    forall k | InGrid(cw, ch, k) ensures ClusterOk(q, k, cl'[k]) && Complete(q, k, cl'[k]) {
      assert ClusterOk(q, k, cl[k]) && Complete(q, k, cl[k]) && SameButLabels(cl[k], cl'[k]);
      RelabelledCluster(q, k, cl[k], cl'[k]);
    }
  }

  lemma RelabelledCluster(q: Squares, k: Pos, c: Cluster, c': Cluster)
    requires ClusterOk(q, k, c) && Complete(q, k, c) && SameButLabels(c, c')
    ensures ClusterOk(q, k, c') && Complete(q, k, c')
  {
    hide LabelsOk, Wanted;
    var want := Wanted(q, k, ALL_DIRS);
    forall m | 0 <= m < c'.numEdgeClumps ensures SliceOk(c', m) && ListOk(c', want, m) {
      assert SliceOk(c, m) && ListOk(c, want, m);
      assert Entries(c', m) == Entries(c, m);
    }
  }

  method UpdateBatchBegin(g: Grid)
    requires Valid(g) && !g.inBatchedUpdate
    modifies g`inBatchedUpdate
    ensures Valid(g) && g.inBatchedUpdate && g.OpenSquares() == old(g.OpenSquares())
  {
    hide Grid.OpenSquares, Apart, Listing, GloballyLabelled, SquaresOf, Grid.Clusters, SizesFit;
    g.inBatchedUpdate := true;
  }

  method UpdateBatchEnd(g: Grid)
    requires Valid(g) && g.inBatchedUpdate
    modifies g`inBatchedUpdate, g.cluster
    ensures Valid(g) && !g.inBatchedUpdate && g.OpenSquares() == old(g.OpenSquares())
  {
    hide Listing, GloballyLabelled, Grid.Clusters, SquaresOf, Apart, SizesFit, Grid.OpenSquares;
    g.inBatchedUpdate := false;
    RelabelApart(g);
  }
}
