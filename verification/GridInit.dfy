/** stbcc_init_grid, and whole runs of the public interface. */
module GridInit {
  import opened GridModel
  import opened GridState
  import opened LabelSpec
  import opened ClusterStore
  import opened Adjacency
  import opened Connections
  import opened Rebuild
  import opened ClumpForest
  import opened GlobalPasses
  import opened Reachability
  import opened Leftovers
  import opened LabelBits
  import opened GridUpdate
  import opened GridMap

  /** Whether square (x, y) is open in a caller's map, stored row by row with 0 for open. */
  predicate TileOpen(tiles: seq<int>, w: int, x: int, y: int) {
    0 <= y * w + x < |tiles| && tiles[y * w + x] == 0
  }

  ghost function OpenIn(tiles: seq<int>, w: int, h: int): iset<Cell> {
    iset c: Cell | 0 <= c.x < w && 0 <= c.y < h && TileOpen(tiles, w, c.x, c.y)
  }

  /** The open squares of a caller's map are those whose tile is 0; any other value is solid. */
  lemma OpenInMeaning(tiles: seq<int>, w: int, h: int, c: Cell)
    requires |tiles| == w * h
    ensures 0 <= c.x < w && 0 <= c.y < h ==>
              && 0 <= c.y * w + c.x < |tiles|
              && (c in OpenIn(tiles, w, h) <==> tiles[c.y * w + c.x] == 0)
    ensures !(0 <= c.x < w && 0 <= c.y < h) ==> c !in OpenIn(tiles, w, h)
  {
    if 0 <= c.x < w && 0 <= c.y < h {
      BaseInRange(w, h, c.y);
      assert w * h == h * w;
    }
  }

  method ReadTile(tiles: seq<int>, w: int, h: int, x: int, y: int) returns (r: bool)
    requires |tiles| == w * h && 0 <= x < w && 0 <= y < h
    ensures r == TileOpen(tiles, w, x, y)
  {
    BaseInRange(w, h, y);
    r := tiles[y * w + x] == 0;
  }

  method CopyMap(g: Grid, tiles: seq<int>)
    requires g.Dims() && |tiles| == g.w * g.h
    modifies g.open
    ensures g.OpenSquares() == OpenIn(tiles, g.w, g.h)
  {
    hide TileOpen;
    MulMono(g.cw, g.countX, g.size);
    MulMono(g.ch, g.countY, g.size);
    for j := 0 to g.h
      invariant forall y, x {:trigger g.open[y, x]} :: 0 <= y < j && 0 <= x < g.w ==>
                g.open[y, x] == TileOpen(tiles, g.w, x, y)
    {
      for i := 0 to g.w
        invariant forall y, x {:trigger g.open[y, x]} :: 0 <= y < j && 0 <= x < g.w ==>
                  g.open[y, x] == TileOpen(tiles, g.w, x, y)
        invariant forall x {:trigger g.open[j, x]} :: 0 <= x < i ==> g.open[j, x] == TileOpen(tiles, g.w, x, j)
      {
        var tile := ReadTile(tiles, g.w, g.h, i, j);
        g.open[j, i] := tile;
      }
    }
  }

  predicate PosBefore(k: Pos, j: int, i: int) { k.cy < j || (k.cy == j && k.cx < i) }

  /** Every record of the map has its size; the clusters before (i, j) have exact clumps. */
  ghost predicate BuiltBefore(q: Squares, cw: int, ch: int, cl: imap<Pos, Cluster>, j: int, i: int) {
    && (forall k :: InGrid(cw, ch, k) ==> k in cl)
    && (forall k {:trigger cl[k]} :: InGrid(cw, ch, k) ==> Sized(q.s, cl[k]))
    && forall k {:trigger ClusterOk(q, k, cl[k])} :: InGrid(cw, ch, k) && PosBefore(k, j, i) ==> ClusterOk(q, k, cl[k])
  }

  lemma BuiltStep(q: Squares, q': Squares, cw: int, ch: int, cl: imap<Pos, Cluster>, cl': imap<Pos, Cluster>, j: int,
                  i: int)
    requires InGrid(cw, ch, Pos(i, j)) && BuiltBefore(q, cw, ch, cl, j, i) && SameOutside(q, q', Pos(i, j))
    requires Pos(i, j) in cl' && cl' == cl[Pos(i, j) := cl'[Pos(i, j)]] && ClusterOk(q', Pos(i, j), cl'[Pos(i, j)])
    ensures BuiltBefore(q', cw, ch, cl', j, i + 1)
  {
    var k0 := Pos(i, j);
    hide LabelsOk;
    assert Sized(q'.s, cl'[k0]);
    hide ClusterOk, Sized, SameOutside;
    forall k | InGrid(cw, ch, k) && PosBefore(k, j, i + 1) ensures ClusterOk(q', k, cl'[k]) {
      if k != k0 {
        assert ClusterOk(q, k, cl[k]);
        ClusterElsewhere(q, q', k, k0, cl[k]);
      }
    }
  }

  method BuildNext(g: Grid, i: int, j: int)
    requires g.Dims() && g.HasPos(Pos(i, j)) && BuiltBefore(SquaresOf(g), g.cw, g.ch, g.Clusters(), j, i)
    modifies g.clumpForNode, g.cluster
    ensures BuiltBefore(SquaresOf(g), g.cw, g.ch, g.Clusters(), j, i + 1)
    ensures BeyondKept(g.cw, g.ch, old(g.Clusters()), g.Clusters())
  {
    hide LabelsOk, Grid.Open, Grid.Ids, BuiltBefore, BeyondKept;
    ghost var q, cl := SquaresOf(g), g.Clusters();
    SizedBefore(g, q, cl, j, i);
    ghost var open := g.Open();
    BuildClumpsForCluster(g, i, j);
    assert g.Open() == open;
    FreshClusterOk(g, Pos(i, j), cl[Pos(i, j)], g.Clusters()[Pos(i, j)]);
    BuiltStep(q, SquaresOf(g), g.cw, g.ch, cl, g.Clusters(), j, i);
    BeyondUpdate(g.cw, g.ch, cl, Pos(i, j), g.Clusters()[Pos(i, j)]);
  }

  lemma SizedBefore(g: Grid, q: Squares, cl: imap<Pos, Cluster>, j: int, i: int)
    requires g.Dims() && g.HasPos(Pos(i, j)) && BuiltBefore(q, g.cw, g.ch, cl, j, i) && cl == g.Clusters()
             && q.s == g.size
    ensures Sized(g.size, g.cluster[j, i])
  {
    assert cl[Pos(i, j)] == g.cluster[j, i];
  }

  lemma BuiltRow(q: Squares, cw: int, ch: int, cl: imap<Pos, Cluster>, j: int)
    requires BuiltBefore(q, cw, ch, cl, j, cw)
    ensures BuiltBefore(q, cw, ch, cl, j + 1, 0)
  {}

  lemma AllBuilt(g: Grid)
    requires g.Dims() && BuiltBefore(SquaresOf(g), g.cw, g.ch, g.Clusters(), g.ch, 0)
    ensures Clumped(SquaresOf(g), g.cw, g.ch, g.Clusters())
  {
    hide ClusterOk, Sized, Grid.Clusters, Grid.Ids;
  }

  /** The arrays of the map's records have their compile-time sizes. */
  ghost predicate MapSized(g: Grid, cw: int, ch: int)
    requires g.Memory()
    reads g.cluster
  {
    forall k {:trigger g.cluster[k.cy, k.cx]} :: g.HasSlot(k) && InGrid(cw, ch, k) ==>
        Sized(g.size, g.cluster[k.cy, k.cx])
  }

  /** Zeroed memory: no record has an edge clump. */
  ghost predicate Zeroed(g: Grid)
    requires g.Memory()
    reads g.cluster
  {
    forall k {:trigger g.cluster[k.cy, k.cx]} :: g.HasSlot(k) ==>
      Sized(g.size, g.cluster[k.cy, k.cx]) && g.cluster[k.cy, k.cx].numEdgeClumps == 0
  }

  lemma ZeroedRecords(g: Grid, cw: int, ch: int)
    requires g.Memory() && Zeroed(g)
    ensures MapSized(g, cw, ch) && Apart(g.size, cw, ch, g.Clusters())
  {
    var cl := g.Clusters();
    forall k | k in cl ensures Sized(g.size, cl[k]) && cl[k].numEdgeClumps == 0 {
      assert cl[k] == g.cluster[k.cy, k.cx];
    }
    hide Zeroed;
    ZeroedApart(g.size, cw, ch, cl);
  }

  lemma NothingBuilt(g: Grid)
    requires g.Dims() && MapSized(g, g.cw, g.ch)
    ensures BuiltBefore(SquaresOf(g), g.cw, g.ch, g.Clusters(), 0, 0)
  {}

  /** The clumps of every cluster, from the map alone. */
  method BuildAllClumps(g: Grid)
    requires g.Dims() && MapSized(g, g.cw, g.ch)
    modifies g.clumpForNode, g.cluster
    ensures Clumped(SquaresOf(g), g.cw, g.ch, g.Clusters())
    ensures BeyondKept(g.cw, g.ch, old(g.Clusters()), g.Clusters())
  {
    NothingBuilt(g);
    hide BuiltBefore, Clumped, Grid.Clusters, SquaresOf, MapSized, BeyondKept;
    ghost var cl := g.Clusters();
    BeyondRefl(g.cw, g.ch, cl);
    for j := 0 to g.ch
      invariant BuiltBefore(SquaresOf(g), g.cw, g.ch, g.Clusters(), j, 0)
      invariant BeyondKept(g.cw, g.ch, cl, g.Clusters())
    {
      for i := 0 to g.cw
        invariant BuiltBefore(SquaresOf(g), g.cw, g.ch, g.Clusters(), j, i)
        invariant BeyondKept(g.cw, g.ch, cl, g.Clusters())
      {
        ghost var before := g.Clusters();
        BuildNext(g, i, j);
        BeyondTrans(g.cw, g.ch, cl, before, g.Clusters());
      }
      BuiltRow(SquaresOf(g), g.cw, g.ch, g.Clusters(), j);
    }
    AllBuilt(g);
  }

  /** The clusters before (i, j) have complete lists. */
  ghost predicate ConnectedBefore(q: Squares, cw: int, ch: int, cl: imap<Pos, Cluster>, j: int, i: int) {
    && Clumped(q, cw, ch, cl)
    && forall k {:trigger Complete(q, k, cl[k])} :: InGrid(cw, ch, k) && PosBefore(k, j, i) ==> Complete(q, k, cl[k])
  }

  method ConnectNext(g: Grid, i: int, j: int, ghost q: Squares)
    requires g.Dims() && q == SquaresOf(g) && g.HasPos(Pos(i, j)) && ConnectedBefore(q, g.cw, g.ch, g.Clusters(), j, i)
    modifies g.cluster
    ensures ConnectedBefore(q, g.cw, g.ch, g.Clusters(), j, i + 1)
    ensures BeyondKept(g.cw, g.ch, old(g.Clusters()), g.Clusters())
  {
    hide Clumped, Complete, Surroundings, SquaresOf, Grid.Clusters, ClumpsKept, Sized, BeyondKept;
    ghost var cl, k0 := g.Clusters(), Pos(i, j);
    ReadyCluster(g, q, cl, k0);
    BuildAllConnectionsForCluster(g, i, j, q);
    ClumpedUpdate(q, g.cw, g.ch, cl, k0, g.Clusters()[k0]);
    BeyondUpdate(g.cw, g.ch, cl, k0, g.Clusters()[k0]);
  }

  lemma ReadyCluster(g: Grid, q: Squares, cl: imap<Pos, Cluster>, k: Pos)
    requires Clumped(q, g.cw, g.ch, cl) && g.HasPos(k)
    ensures k in cl && Sized(q.s, cl[k]) && 0 <= cl[k].numEdgeClumps <= MaxClumps(q.s)
            && cl[k].numEdgeClumps <= MaxExits(q.s)
    ensures Surroundings(q, k, cl[k].numEdgeClumps)
  {
    ClumpedSurroundings(q, g.cw, g.ch, cl, k);
    assert ClusterOk(q, k, cl[k]);
  }

  method ConnectAll(g: Grid)
    requires g.Dims() && Clumped(SquaresOf(g), g.cw, g.ch, g.Clusters())
    modifies g.cluster
    ensures Listing(SquaresOf(g), g.cw, g.ch, g.Clusters())
    ensures BeyondKept(g.cw, g.ch, old(g.Clusters()), g.Clusters())
  {
    hide Clumped, Complete, SquaresOf, Grid.Clusters, BeyondKept;
    ghost var q, cl := SquaresOf(g), g.Clusters();
    BeyondRefl(g.cw, g.ch, cl);
    for j := 0 to g.ch
      invariant q == SquaresOf(g) && BeyondKept(g.cw, g.ch, cl, g.Clusters())
      invariant ConnectedBefore(q, g.cw, g.ch, g.Clusters(), j, 0)
    {
      for i := 0 to g.cw
        invariant q == SquaresOf(g) && BeyondKept(g.cw, g.ch, cl, g.Clusters())
        invariant ConnectedBefore(q, g.cw, g.ch, g.Clusters(), j, i)
      {
        ghost var before := g.Clusters();
        ConnectNext(g, i, j, q);
        BeyondTrans(g.cw, g.ch, cl, before, g.Clusters());
      }
    }
  }

  /** A map of w x h squares, stored in tiles, that the memory of g can hold. */
  ghost predicate MapFits(g: Grid, tiles: seq<int>, w: int, h: int)
    requires g.Memory()
  {
    && 0 <= w <= g.countX * g.size && 0 <= h <= g.countY * g.size
    && w % g.size == 0 && h % g.size == 0
    && |tiles| == w * h
  }

  /** The number of clusters along an axis. */
  lemma WholeClusters(s: int, n: int, w: int)
    requires s > 0 && 0 <= w <= n * s && w % s == 0
    ensures 0 <= w / s <= n && w == (w / s) * s
  {
    if n < w / s {
      MulMono(n + 1, w / s, s);
      assert false;
    }
  }

  /** stbcc_init_grid up to the global passes: the map's records say what the map says, whatever they said before. */
  method FillRecords(g: Grid, tiles: seq<int>, w: int, h: int)
    requires g.Memory() && MapFits(g, tiles, w, h) && MapSized(g, w / g.size, h / g.size)
    modifies g, g.open, g.clumpForNode, g.cluster
    ensures Mapped(g) && !g.inBatchedUpdate && g.w == w && g.h == h && g.cw == w / g.size && g.ch == h / g.size
    ensures g.OpenSquares() == OpenIn(tiles, w, h)
    ensures BeyondKept(w / g.size, h / g.size, old(g.Clusters()), g.Clusters())
  {
    hide Listing, Grid.Clusters, SquaresOf, MapSized, Grid.OpenSquares, OpenIn, BeyondKept;
    ghost var cl := g.Clusters();
    WholeClusters(g.size, g.countX, w);
    WholeClusters(g.size, g.countY, h);
    g.w, g.h := w, h;
    g.cw, g.ch := w / g.size, h / g.size;
    g.inBatchedUpdate := false;
    CopyMap(g, tiles);
    ghost var squares := g.OpenSquares();
    BuildAllClumps(g);
    ghost var built := g.Clusters();
    ConnectAll(g);
    BeyondTrans(g.cw, g.ch, cl, built, g.Clusters());
    assert g.OpenSquares() == squares;
  }

  /**
   From the caller's map to a grid that answers queries about it. The global
   passes follow left-over lists too: those have to be in bounds once the map is
   in place. If no chain of them joins two clumps of the map the answers are right,
   and if they name no clump of the map the answers stay right under updates.
   */
  method InitGrid(g: Grid, tiles: seq<int>, w: int, h: int)
    requires g.Memory() && SizesFit(g.size, g.countX, g.countY)
    requires MapFits(g, tiles, w, h) && MapSized(g, w / g.size, h / g.size)
    requires InBounds(g.size, w / g.size, h / g.size, g.Clusters(), OpenIn(tiles, w, h))
    modifies g, g.open, g.clumpForNode, g.cluster
    ensures Mapped(g) && !g.inBatchedUpdate && g.w == w && g.h == h && g.cw == w / g.size && g.ch == h / g.size
    ensures g.OpenSquares() == OpenIn(tiles, w, h)
    ensures forall c: Cell ::
              c in g.OpenSquares() <==>
              0 <= c.x < w && 0 <= c.y < h && 0 <= c.y * w + c.x < |tiles| && tiles[c.y * w + c.x] == 0
    ensures BeyondKept(w / g.size, h / g.size, old(g.Clusters()), g.Clusters())
    ensures GloballyLabelled(g.Clusters()) && Closed(g.Clusters())
    ensures InBounds(g.size, g.cw, g.ch, g.Clusters(), g.OpenSquares())
    ensures old(Separate(w / g.size, h / g.size, g.Clusters())) ==> Answering(g)
    ensures old(Apart(g.size, w / g.size, h / g.size, g.Clusters())) ==> Valid(g)
  {
    hide Listing, GloballyLabelled, Grid.Clusters, SquaresOf, MapSized, Grid.OpenSquares, OpenIn, BeyondKept, InBounds,
      Closed, Bounded, LabelsFit, Separate, Apart, StaleLists, SizesFit, Mapped;
    ghost var cw, ch, cl := w / g.size, h / g.size, g.Clusters();
    FillRecords(g, tiles, w, h);
    MappedDims(g);
    ghost var squares, filled := g.OpenSquares(), g.Clusters();
    InBoundsKept(g.size, cw, ch, cl, filled, squares);
    RelabelInBounds(g);
    assert g.OpenSquares() == squares;
    BeyondTrans(cw, ch, cl, filled, g.Clusters());
    InBoundsStale(g.size, cw, ch, cl, squares);
    AfterInit(g, cw, ch, cl);
    forall c: Cell { OpenInMeaning(tiles, w, h, c); }
  }

  lemma InBoundsStale(s: int, cw: int, ch: int, cl: imap<Pos, Cluster>, open: iset<Cell>)
    requires InBounds(s, cw, ch, cl, open)
    ensures StaleLists(s, cw, ch, cl)
  {}

  /** What the left-over records said before still holds. */
  lemma AfterInit(g: Grid, cw: int, ch: int, cl: imap<Pos, Cluster>)
    requires Mapped(g) && g.cw == cw && g.ch == ch && SizesFit(g.size, g.countX, g.countY)
    requires GloballyLabelled(g.Clusters()) && BeyondKept(cw, ch, cl, g.Clusters()) && StaleLists(g.size, cw, ch, cl)
    ensures Separate(cw, ch, cl) ==> Answering(g)
    ensures Apart(g.size, cw, ch, cl) ==> Valid(g)
  {
    hide GloballyLabelled, Grid.Clusters, BeyondKept, Separate, Apart, StaleLists, Listing;
    StaleListsKept(g.size, cw, ch, cl, g.Clusters());
    StaleEdgesKept(cw, ch, cl, g.Clusters());
    if Apart(g.size, cw, ch, cl) { ApartKept(g.size, cw, ch, cl, g.Clusters()); }
  }

  /** One call of the public interface. */
  datatype Op = Update(x: int, y: int, solid: bool) | BatchBegin | BatchEnd

  /** The interface's rules: updates stay on the map, batches do not nest. */
  predicate Allowed(w: int, h: int, ops: seq<Op>, inBatch: bool) {
    ops == [] ||
    match ops[0]
    case Update(x, y, _) => 0 <= x < w && 0 <= y < h && Allowed(w, h, ops[1..], inBatch)
    case BatchBegin => !inBatch && Allowed(w, h, ops[1..], true)
    case BatchEnd => inBatch && Allowed(w, h, ops[1..], false)
  }

  predicate InBatchAfter(ops: seq<Op>, inBatch: bool) {
    if ops == [] then inBatch
    else InBatchAfter(ops[1..], if ops[0].BatchBegin? then true else if ops[0].BatchEnd? then false else inBatch)
  }

  /** The map a run of updates leaves behind. */
  ghost function OpenAfter(open: iset<Cell>, ops: seq<Op>): iset<Cell> {
    if ops == [] then open
    else
      match ops[0]
      case Update(x, y, solid) =>
        OpenAfter(if solid then open - iset{Cell(x, y)} else open + iset{Cell(x, y)}, ops[1..])
      case _ => OpenAfter(open, ops[1..])
  }

  /** Whether a square is open after some calls: as its last update says, or as it was if no update names it. */
  lemma {:induction false} LastUpdate(open: iset<Cell>, ops: seq<Op>, c: Cell)
    ensures forall j :: 0 <= j < |ops| && ops[j].Update? && ops[j].x == c.x && ops[j].y == c.y
                        && (forall i :: j < i < |ops| && ops[i].Update? ==> ops[i].x != c.x || ops[i].y != c.y) ==>
              (c in OpenAfter(open, ops) <==> !ops[j].solid)
    ensures (forall i :: 0 <= i < |ops| && ops[i].Update? ==> ops[i].x != c.x || ops[i].y != c.y) ==>
              (c in OpenAfter(open, ops) <==> c in open)
  {
    if ops == [] {
    } else {
      var u := ops[0];
      var open' := if !u.Update? then open
                   else if u.solid then open - iset{Cell(u.x, u.y)} else open + iset{Cell(u.x, u.y)};
      var rest := ops[1..];
      LastUpdate(open', rest, c);
      assert OpenAfter(open, ops) == OpenAfter(open', rest);
      forall j | 0 <= j < |ops| && ops[j].Update? && ops[j].x == c.x && ops[j].y == c.y
                 && (forall i :: j < i < |ops| && ops[i].Update? ==> ops[i].x != c.x || ops[i].y != c.y)
        ensures c in OpenAfter(open, ops) <==> !ops[j].solid
      {
        if j > 0 { assert rest[j - 1] == ops[j]; }
      }
    }
  }

  /** A batch is open after some calls if the last call that begins or ends one begins it, or none does and it was. */
  lemma {:induction false} LastBatchCall(ops: seq<Op>, inBatch: bool)
    ensures forall j :: 0 <= j < |ops| && !ops[j].Update? && (forall i :: j < i < |ops| ==> ops[i].Update?) ==>
              (InBatchAfter(ops, inBatch) <==> ops[j].BatchBegin?)
    ensures (forall i :: 0 <= i < |ops| ==> ops[i].Update?) ==> (InBatchAfter(ops, inBatch) <==> inBatch)
  {
    if ops == [] {
    } else {
      var rest := ops[1..];
      LastBatchCall(rest, if ops[0].BatchBegin? then true else if ops[0].BatchEnd? then false else inBatch);
      forall j | 0 <= j < |ops| && !ops[j].Update? && (forall i :: j < i < |ops| ==> ops[i].Update?)
        ensures InBatchAfter(ops, inBatch) <==> ops[j].BatchBegin?
      {
        if j > 0 { assert rest[j - 1] == ops[j]; }
      }
    }
  }

  /** Calls are allowed when updates name squares of the map, batches begin outside a batch and end inside one. */
  lemma {:induction false} AllowedMeaning(w: int, h: int, ops: seq<Op>, inBatch: bool)
    ensures Allowed(w, h, ops, inBatch) <==>
            forall j {:trigger ops[j]} :: 0 <= j < |ops| ==>
              && (ops[j].Update? ==> 0 <= ops[j].x < w && 0 <= ops[j].y < h)
              && (ops[j].BatchBegin? ==> !InBatchAfter(ops[..j], inBatch))
              && (ops[j].BatchEnd? ==> InBatchAfter(ops[..j], inBatch))
  {
    if ops == [] {
    } else {
      var rest := ops[1..];
      var inBatch' := if ops[0].BatchBegin? then true else if ops[0].BatchEnd? then false else inBatch;
      AllowedMeaning(w, h, rest, inBatch');
      forall j | 0 < j < |ops|
        ensures rest[j - 1] == ops[j] && InBatchAfter(ops[..j], inBatch) == InBatchAfter(rest[..j - 1], inBatch')
      {
        assert ops[..j][1..] == rest[..j - 1];
      }
      assert ops[..0] == [];
    }
  }

  method Perform(g: Grid, op: Op)
    requires Valid(g) && Allowed(g.w, g.h, [op], g.inBatchedUpdate)
    modifies g`inBatchedUpdate, g.open, g.clumpForNode, g.cluster
    ensures Valid(g) && g.inBatchedUpdate == InBatchAfter([op], old(g.inBatchedUpdate))
    ensures g.OpenSquares() == OpenAfter(old(g.OpenSquares()), [op])
  {
    assert g.Dims();
    hide Valid, Grid.OpenSquares;
    match op
    case Update(x, y, solid) => UpdateGrid(g, x, y, solid);
    case BatchBegin => UpdateBatchBegin(g);
    case BatchEnd => UpdateBatchEnd(g);
  }

  lemma FirstOp(w: int, h: int, open: iset<Cell>, ops: seq<Op>, inBatch: bool)
    requires ops != [] && Allowed(w, h, ops, inBatch)
    ensures Allowed(w, h, [ops[0]], inBatch) && Allowed(w, h, ops[1..], InBatchAfter([ops[0]], inBatch))
    ensures InBatchAfter(ops, inBatch) == InBatchAfter(ops[1..], InBatchAfter([ops[0]], inBatch))
    ensures OpenAfter(open, ops) == OpenAfter(OpenAfter(open, [ops[0]]), ops[1..])
  {}

  /** Performs the calls one after the other. */
  method Run(g: Grid, ops: seq<Op>)
    requires Valid(g) && Allowed(g.w, g.h, ops, g.inBatchedUpdate)
    modifies g`inBatchedUpdate, g.open, g.clumpForNode, g.cluster
    ensures Valid(g) && g.inBatchedUpdate == InBatchAfter(ops, old(g.inBatchedUpdate))
    ensures g.OpenSquares() == OpenAfter(old(g.OpenSquares()), ops)
    decreases ops
  {
    assert g.Dims();
    if ops != [] {
      FirstOp(g.w, g.h, g.OpenSquares(), ops, g.inBatchedUpdate);
      hide Valid, Grid.OpenSquares, Allowed, OpenAfter, InBatchAfter;
      Perform(g, ops[0]);
      Run(g, ops[1..]);
    }
  }

  /**
   A whole run: initialise, perform any allowed calls that end outside a batch,
   then ask. The answer is reachability on the map those calls produced.
   */
  method RunAndQuery(g: Grid, tiles: seq<int>, w: int, h: int, ops: seq<Op>, a: Cell, b: Cell) returns (r: int)
    requires g.Memory() && SizesFit(g.size, g.countX, g.countY)
    requires MapFits(g, tiles, w, h) && MapSized(g, w / g.size, h / g.size)
    requires Apart(g.size, w / g.size, h / g.size, g.Clusters())
    requires Allowed(w, h, ops, false) && !InBatchAfter(ops, false)
    requires 0 <= a.x < w && 0 <= a.y < h && 0 <= b.x < w && 0 <= b.y < h
    modifies g, g.open, g.clumpForNode, g.cluster
    ensures r == if Reachable(OpenAfter(OpenIn(tiles, w, h), ops), a, b) then 1 else 0
    ensures (r == 0 || r == 1)
            && (r == 1 <==>
                exists p: seq<Cell> ::
                  && |p| > 0 && p[0] == a && p[|p| - 1] == b
                  && (forall i :: 0 <= i < |p| ==> p[i] in OpenAfter(OpenIn(tiles, w, h), ops))
                  && forall i :: 0 <= i < |p| - 1 ==>
                       || (p[i].x == p[i + 1].x && (p[i].y - p[i + 1].y == 1 || p[i + 1].y - p[i].y == 1))
                       || (p[i].y == p[i + 1].y && (p[i].x - p[i + 1].x == 1 || p[i + 1].x - p[i].x == 1)))
  {
    hide *;
    r := RunAndAsk(g, tiles, w, h, ops, a, b);
    ReachableByWalk(OpenAfter(OpenIn(tiles, w, h), ops), a, b);
  }

  /** InitGrid where the left-over records name no clump of the map. */
  method InitApart(g: Grid, tiles: seq<int>, w: int, h: int)
    requires g.Memory() && SizesFit(g.size, g.countX, g.countY)
    requires MapFits(g, tiles, w, h) && MapSized(g, w / g.size, h / g.size)
    requires Apart(g.size, w / g.size, h / g.size, g.Clusters())
    modifies g, g.open, g.clumpForNode, g.cluster
    ensures Valid(g) && !g.inBatchedUpdate && g.w == w && g.h == h && g.OpenSquares() == OpenIn(tiles, w, h)
  {
    hide Mapped, Grid.OpenSquares, MapSized, Apart, InBounds, Valid, OpenIn;
    ApartInBounds(g.size, w / g.size, h / g.size, g.Clusters(), OpenIn(tiles, w, h));
    InitGrid(g, tiles, w, h);
    MappedDims(g);
  }

  method RunAndAsk(g: Grid, tiles: seq<int>, w: int, h: int, ops: seq<Op>, a: Cell, b: Cell) returns (r: int)
    requires g.Memory() && SizesFit(g.size, g.countX, g.countY)
    requires MapFits(g, tiles, w, h) && MapSized(g, w / g.size, h / g.size)
    requires Apart(g.size, w / g.size, h / g.size, g.Clusters())
    requires Allowed(w, h, ops, false) && !InBatchAfter(ops, false)
    requires 0 <= a.x < w && 0 <= a.y < h && 0 <= b.x < w && 0 <= b.y < h
    modifies g, g.open, g.clumpForNode, g.cluster
    ensures r == if Reachable(OpenAfter(OpenIn(tiles, w, h), ops), a, b) then 1 else 0
  {
    hide Mapped, Grid.OpenSquares, MapSized, Apart, InBounds;
    InitApart(g, tiles, w, h);
    Run(g, ops);
    ValidMapped(g);
    r := QueryGridNodeConnection(g, a.x, a.y, b.x, b.y);
  }

  lemma ValidMapped(g: Grid)
    requires Valid(g)
    ensures Mapped(g) && g.Dims()
  {}
}
