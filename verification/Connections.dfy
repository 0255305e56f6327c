/** Adding and removing the adjacency entries a cluster has for one neighbouring cluster. */
module Connections {
  import opened GridModel
  import opened GridState
  import opened ClusterStore
  import opened Adjacency

  ghost function SquaresOf(g: Grid): (q: Squares)
    requires g.Dims()
    reads g.open, g.clumpForNode, g`cw, g`ch, g`w, g`h
    ensures q.s == g.size
  {
    Squares(g.size, g.Open(), g.Ids())
  }

  /** (x, y) are the map coordinates of address a. */
  ghost predicate Locates(g: Grid, a: Addr, x: int, y: int)
    reads g`cw, g`ch
  {
    g.HasAddr(a) && x == a.k.cx * g.size + a.l.x && y == a.k.cy * g.size + a.l.y
  }

  lemma SideInBox(s: int, d: Dir, t: int)
    requires IsDir(d) && 0 <= t < s
    ensures InBox(s, Side(s, d, t)) && OnBorder(s, Side(s, d, t))
  {}

  /** Crossing the border from the t-th square of a side lands on the facing square. */
  lemma Crossing(g: Grid, k: Pos, d: Dir, t: int, x: int, y: int)
    requires g.Dims() && g.HasPos(k) && g.HasPos(Step(k, d)) && IsDir(d) && 0 <= t < g.size
    requires Locates(g, Addr(k, Side(g.size, d, t)), x, y)
    ensures Locates(g, Addr(Step(k, d), Side(g.size, Opposite(d), t)), x + d.dx, y + d.dy)
  {
    BaseInRange(g.size, g.cw, k.cx);
    BaseInRange(g.size, g.ch, k.cy);
  }

  /** Reads the map and clump ids at the t-th position of a side. */
  method ReadPair(g: Grid, ghost k: Pos, ghost d: Dir, ghost t: int, x: int, y: int, dx: int, dy: int)
    returns (both: bool, src: int, dest: int)
    requires g.Dims() && g.HasPos(k) && g.HasPos(Step(k, d)) && IsDir(d) && d == Dir(dx, dy) && 0 <= t < g.size
    requires Locates(g, Addr(k, Side(g.size, d, t)), x, y)
    ensures both <==> SquaresOf(g).OpenPair(k, d, t)
    ensures (src, dest) == SquaresOf(g).PairAt(k, d, t)
  {
    ghost var a, b := Addr(k, Side(g.size, d, t)), Addr(Step(k, d), Side(g.size, Opposite(d), t));
    Crossing(g, k, d, t, x, y);
    g.Bases(a.k);
    g.Bases(b.k);
    assert g.open[y, x] == g.OpenAt(a) && g.open[y + dy, x + dx] == g.OpenAt(b);
    assert g.clumpForNode[y, x] == g.IdAt(a) && g.clumpForNode[y + dy, x + dx] == g.IdAt(b);
    both := g.open[y, x] && g.open[y + dy, x + dx];
    src, dest := g.clumpForNode[y, x], g.clumpForNode[y + dy, x + dx];
  }

  /** The cluster of a square, found by division as the coordinates are given. */
  lemma ClusterOf(g: Grid, a: Addr, x: int, y: int)
    requires g.Dims() && Locates(g, a, x, y)
    ensures x / g.size == a.k.cx && y / g.size == a.k.cy
    ensures 0 <= x < g.w && 0 <= y < g.h
    ensures x < g.clumpForNode.Length1 && y < g.clumpForNode.Length0
    ensures g.HasSlot(a.k) && g.clumpForNode[y, x] == g.Ids()[a] && g.cluster[a.k.cy, a.k.cx] == g.Clusters()[a.k]
  {
    DivisionOfOffset(g.size, a.k.cx, a.l.x);
    DivisionOfOffset(g.size, a.k.cy, a.l.y);
    g.Bases(a.k);
    assert g.Ids()[a] == g.IdAt(a);
  }

  /** The cluster record of a square and the clump the square belongs to. */
  method FindClump(g: Grid, ghost a: Addr, x: int, y: int) returns (cluster: Cluster, c: int)
    requires g.Dims() && Locates(g, a, x, y)
    ensures a.k in g.Clusters() && cluster == g.Clusters()[a.k] && a in g.Ids() && c == g.Ids()[a]
    ensures a.k == Pos(x / g.size, y / g.size)
  {
    ClusterOf(g, a, x, y);
    hide Grid.Clusters, Grid.Ids;
    var cx, cy := x / g.size, y / g.size;
    cluster, c := g.cluster[cy, cx], g.clumpForNode[y, x];
  }

  /** Puts rc behind the entries of clump c1 unless its slice is full. */
  method AppendEntry(cluster: Cluster, c1: int, rc: RelativeClumpId) returns (r: Cluster)
    requires SliceOk(cluster, c1)
    ensures r == WithConnection(cluster, c1, rc)
  {
    var clump := cluster.clump[c1];
    if clump.numAdjacent == clump.maxAdjacent {
      r := cluster.(rebuildAdjacency := true);
    } else {
      var slot := clump.listIndex + clump.numAdjacent;
      r := cluster.(storage := cluster.storage[slot := rc],
                    clump := cluster.clump[c1 := clump.(numAdjacent := clump.numAdjacent + 1)]);
    }
  }

  method AddClumpConnection(g: Grid, ghost a: Addr, ghost b: Addr, x1: int, y1: int, x2: int, y2: int)
    requires g.Dims() && Locates(g, a, x1, y1) && Locates(g, b, x2, y2)
    requires IsDir(Dir(x2 - x1, y2 - y1)) && b.k == Step(a.k, Dir(x2 - x1, y2 - y1))
    requires SliceOk(g.Clusters()[a.k], g.Ids()[a])
    modifies g.cluster
    ensures g.Clusters() == old(g.Clusters())[a.k :=
            WithConnection(old(g.Clusters())[a.k], g.Ids()[a], Rel(g.Ids()[b], x2 - x1, y2 - y1))]
    ensures var c, m := old(g.Clusters())[a.k], g.Ids()[a];
            var e := c.clump[m];
            g.Clusters()[a.k]
            == if e.numAdjacent == e.maxAdjacent then c.(rebuildAdjacency := true)
               else
                 c.(storage := c.storage[e.listIndex + e.numAdjacent := Rel(g.Ids()[b], x2 - x1, y2 - y1)],
                    clump := c.clump[m := e.(numAdjacent := e.numAdjacent + 1)])
  {
    hide Grid.Clusters, Grid.Ids;
    var cluster, c1 := FindClump(g, a, x1, y1);
    var other, c2 := FindClump(g, b, x2, y2);
    var r := AppendEntry(cluster, c1, Rel(c2, x2 - x1, y2 - y1));
    StoreCluster(g, x1 / g.size, y1 / g.size, r);
  }

  /** The table of pairs seen so far: e rows of e / 8 bytes; pair (a, b) has bit b % 8 of byte b / 8 in row a. */
  ghost predicate Marks(marks: array3<bool>, e: int, seen: set<(int, int)>)
    reads marks
  {
    && e % 8 == 0 && marks.Length0 == e && marks.Length1 == e / 8 && marks.Length2 == 8
    && forall a, i, j {:trigger marks[a, i, j]} :: 0 <= a < e && 0 <= i < e / 8 && 0 <= j < 8 ==>
         (marks[a, i, j] <==> (a, 8 * i + j) in seen)
  }

  method NoMarks(e: int) returns (marks: array3<bool>)
    requires e >= 0 && e % 8 == 0
    ensures fresh(marks) && Marks(marks, e, {})
  {
    marks := new bool[e, e / 8, 8]((a, i, j) => false);
  }

  method Marked(marks: array3<bool>, ghost e: int, ghost seen: set<(int, int)>, a: int, b: int) returns (r: bool)
    requires Marks(marks, e, seen) && 0 <= a < e && 0 <= b < e
    ensures r <==> (a, b) in seen
  {
    r := marks[a, b / 8, b % 8];
  }

  method Mark(marks: array3<bool>, ghost e: int, ghost seen: set<(int, int)>, a: int, b: int)
    requires Marks(marks, e, seen) && 0 <= a < e && 0 <= b < e
    modifies marks
    ensures Marks(marks, e, seen + {(a, b)})
  {
    marks[a, b / 8, b % 8] := true;
  }

  /** The byte of the b-th bit. */
  lemma ByteOf(b: int, m: int)
    ensures b < 8 * m <==> b / 8 < m
  {}

  /** Rows of 2s / 8 bytes have a bit for each of 2s - 2 edge clumps exactly when the side is a multiple of 4. */
  lemma MarkRowsFitIff(s: int)
    requires s >= 2 && s % 2 == 0
    ensures (forall b :: 0 <= b < MaxEdgeClumps(s) ==> b / 8 < MaxExits(s) / 8) <==> s % 4 == 0
    ensures MaxEdgeClumps(s) == 2 * s - 2 && MaxExits(s) == 2 * s
  {
    var m := 2 * s / 8;
    BytesOfRow(s);
    forall b ensures b < 8 * m <==> b / 8 < m { ByteOf(b, m); }
    if s % 4 != 0 {
      var b := 8 * m;
      assert 0 <= b < MaxEdgeClumps(s) && !(b / 8 < m);
    }
  }

  lemma BytesOfRow(s: int)
    requires s % 2 == 0
    ensures 8 * (2 * s / 8) == if s % 4 == 0 then 2 * s else 2 * s - 4
  {
    var h := s / 2;
    if h % 2 == 0 { Quarters(h / 2, 0); } else { Quarters(h / 2, 1); }
  }

  lemma Quarters(m: int, r: int)
    requires 0 <= r < 2
    ensures (4 * m + 2 * r) % 4 == 2 * r && (8 * m + 4 * r) / 8 == m
  {}

  /** The border squares of two neighbouring clusters are numbered below their edge clump counts. */
  ghost predicate BothNumbered(q: Squares, k: Pos, d: Dir, e: int) {
    Numbered(q, k, e) && exists e' :: Numbered(q, Step(k, d), e')
  }

  lemma PairInRange(q: Squares, k: Pos, d: Dir, t: nat, e: int)
    requires IsDir(d) && t < q.s && BothNumbered(q, k, d, e) && q.OpenPair(k, d, t)
    ensures 0 <= q.PairAt(k, d, t).0 < e <= MaxExits(q.s) && 0 <= q.PairAt(k, d, t).1 < MaxExits(q.s)
  {
    SideInBox(q.s, d, t);
    SideInBox(q.s, Opposite(d), t);
    var e' :| Numbered(q, Step(k, d), e');
    assert q.Near(k, d, t) == Addr(k, Side(q.s, d, t));
    assert q.Far(k, d, t) == Addr(Step(k, d), Side(q.s, Opposite(d), t));
  }

  /** Registers the pair at position t if it is open and not yet seen; (x, y) is the near square. */
  method AddPosition(g: Grid, ghost k: Pos, ghost q: Squares, ghost D: set<Dir>, ghost d: Dir, ghost t: nat, x: int,
                     y: int, dx: int, dy: int,
                     marks: array3<bool>, ghost c0: Cluster)
    requires g.Dims() && g.HasPos(k) && g.HasPos(Step(k, d)) && IsDir(d) && d == Dir(dx, dy) && t < g.size
             && q == SquaresOf(g)
    requires Locates(g, Addr(k, Side(g.size, d, t)), x, y)
    requires BothNumbered(q, k, d, c0.numEdgeClumps)
    requires Marks(marks, MaxExits(g.size), q.Pairs(k, d, t))
    requires AddState(q, k, D, d, t, c0, g.Clusters()[k])
    modifies marks, g.cluster
    ensures g.Clusters() == old(g.Clusters())[k := g.Clusters()[k]]
    ensures if g.Clusters()[k].rebuildAdjacency
            then SameShape(c0, g.Clusters()[k]) && exists m :: Overflows(q, k, d, c0, m)
            else
              && AddState(q, k, D, d, t + 1, c0, g.Clusters()[k])
              && Marks(marks, MaxExits(g.size), q.Pairs(k, d, t + 1))
  {
    hide Grid.Clusters, Grid.Ids, Grid.Open, Marks, AddState, BothNumbered, WithConnection, SameShape, Overflows,
        Wanted, WantedPart, Squares.Pairs;
    ghost var c := g.Clusters()[k];
    var both, src, dest := ReadPair(g, k, d, t, x, y, dx, dy);
    if both {
      PairInRange(q, k, d, t, c0.numEdgeClumps);
      var seen := Marked(marks, MaxExits(g.size), q.Pairs(k, d, t), src, dest);
      if !seen {
        AddNew(q, k, D, d, t, c0, c);
        Crossing(g, k, d, t, x, y);
        Mark(marks, MaxExits(g.size), q.Pairs(k, d, t), src, dest);
        NearIds(g, k, d, t);
        AddClumpConnection(g, Addr(k, Side(g.size, d, t)), Addr(Step(k, d), Side(g.size, Opposite(d), t)), x, y, x + dx,
            y + dy);
        return;
      }
    }
    AddOld(q, k, D, d, t, c0, c);
  }

  lemma NearIds(g: Grid, k: Pos, d: Dir, t: nat)
    requires g.Dims() && g.HasPos(k) && g.HasPos(Step(k, d)) && IsDir(d) && t < g.size
    ensures SquaresOf(g).PairAt(k, d, t)
            == (g.Ids()[Addr(k, Side(g.size, d, t))], g.Ids()[Addr(Step(k, d), Side(g.size, Opposite(d), t))])
  {}

  /** Where the scan of a side starts and how it moves on. */
  method SideScan(s: int, dx: int, dy: int) returns (i: int, j: int, stepX: int, stepY: int)
    requires IsDir(Dir(dx, dy))
    ensures Cell(i, j) == Side(s, Dir(dx, dy), 0)
    ensures forall t ::
              Side(s, Dir(dx, dy), t + 1) == Cell(Side(s, Dir(dx, dy), t).x + stepX, Side(s, Dir(dx, dy), t).y + stepY)
  {
    if dx == 1 {
      i, j, stepX, stepY := s - 1, 0, 0, 1;
    } else if dx == -1 {
      i, j, stepX, stepY := 0, 0, 0, 1;
    } else if dy == -1 {
      i, j, stepX, stepY := 0, 0, 1, 0;
    } else {
      i, j, stepX, stepY := 0, s - 1, 1, 0;
    }
  }

  /** The outcome of adding the entries for direction d to cluster record c0. */
  ghost predicate AddOutcome(q: Squares, k: Pos, D: set<Dir>, d: Dir, c0: Cluster, c: Cluster) {
    if c.rebuildAdjacency then SameShape(c0, c) && exists m :: Overflows(q, k, d, c0, m)
    else AddState(q, k, D, d, q.s, c0, c)
  }

  /** Adds cluster (cx, cy)'s entries for its neighbour in direction (dx, dy), or flags the cluster for a rebuild. */
  method AddConnectionsToAdjacentCluster(g: Grid, cx: int, cy: int, dx: int, dy: int, ghost q: Squares,
          ghost D: set<Dir>)
    requires g.Dims() && IsDir(Dir(dx, dy)) && q == SquaresOf(g) && Dir(dx, dy) !in D
    requires g.HasPos(Pos(cx, cy)) ==>
               && Lists(g.Clusters()[Pos(cx, cy)], Wanted(q, Pos(cx, cy), D))
               && BothNumbered(q, Pos(cx, cy), Dir(dx, dy), g.Clusters()[Pos(cx, cy)].numEdgeClumps)
    modifies g.cluster
    ensures !g.HasPos(Pos(cx, cy)) ==> g.Clusters() == old(g.Clusters())
    ensures g.HasPos(Pos(cx, cy)) ==>
              && g.Clusters() == old(g.Clusters())[Pos(cx, cy) := g.Clusters()[Pos(cx, cy)]]
              && var c0 := old(g.Clusters())[Pos(cx, cy)];
                 if c0.rebuildAdjacency then g.Clusters()[Pos(cx, cy)] == c0
                 else AddOutcome(q, Pos(cx, cy), D, Dir(dx, dy), c0, g.Clusters()[Pos(cx, cy)])
  {
    hide Grid.Ids, Marks, AddState, BothNumbered, SameShape, Overflows, Wanted, WantedPart, Squares.Pairs;
    ghost var k, d := Pos(cx, cy), Dir(dx, dy);
    if cx < 0 || cx >= g.cw || cy < 0 || cy >= g.ch {
      return;
    }
    ghost var c0 := g.Clusters()[k];
    if cx + dx < 0 || cx + dx >= g.cw || cy + dy < 0 || cy + dy >= g.ch {
      if !c0.rebuildAdjacency { AddOutside(q, k, D, d, c0); }
      return;
    }
    if g.cluster[cy, cx].rebuildAdjacency {
      return;
    }
    AddAlongSide(g, cx, cy, dx, dy, q, D);
  }

  method AddAlongSide(g: Grid, cx: int, cy: int, dx: int, dy: int, ghost q: Squares, ghost D: set<Dir>)
    requires g.Dims() && IsDir(Dir(dx, dy)) && q == SquaresOf(g) && Dir(dx, dy) !in D
    requires g.HasPos(Pos(cx, cy)) && g.HasPos(Step(Pos(cx, cy), Dir(dx, dy)))
    requires Lists(g.Clusters()[Pos(cx, cy)], Wanted(q, Pos(cx, cy), D)) && !g.Clusters()[Pos(cx, cy)].rebuildAdjacency
    requires BothNumbered(q, Pos(cx, cy), Dir(dx, dy), g.Clusters()[Pos(cx, cy)].numEdgeClumps)
    modifies g.cluster
    ensures g.Clusters() == old(g.Clusters())[Pos(cx, cy) := g.Clusters()[Pos(cx, cy)]]
    ensures AddOutcome(q, Pos(cx, cy), D, Dir(dx, dy), old(g.Clusters())[Pos(cx, cy)], g.Clusters()[Pos(cx, cy)])
  {
    hide Grid.Ids, Grid.Open, Marks, AddState, BothNumbered, SameShape, Overflows, Wanted, WantedPart, Squares.Pairs,
        Grid.Clusters, Lists;
    ghost var k, d := Pos(cx, cy), Dir(dx, dy);
    ghost var before, c0 := g.Clusters(), g.Clusters()[k];
    var x, y := cx * g.size, cy * g.size;
    var i, j, stepX, stepY := SideScan(g.size, dx, dy);
    var marks := NoMarks(MaxExits(g.size));
    StartAdd(q, k, D, d, c0);
    NoPairsYet(q, k, d);
    for t := 0 to g.size
      invariant Cell(i, j) == Side(g.size, d, t)
      invariant q == SquaresOf(g) && g.Clusters() == before[k := g.Clusters()[k]]
      invariant Marks(marks, MaxExits(g.size), q.Pairs(k, d, t)) && AddState(q, k, D, d, t, c0, g.Clusters()[k])
    {
      SideInBox(g.size, d, t);
      AddPosition(g, k, q, D, d, t, x + i, y + j, dx, dy, marks, c0);
      var flagged := Flagged(g, cx, cy);
      if flagged {
        return;
      }
      i, j := i + stepX, j + stepY;
    }
    Added(q, k, D, d, c0, g.Clusters()[k]);
  }

  method Flagged(g: Grid, cx: int, cy: int) returns (r: bool)
    requires g.Dims() && g.HasPos(Pos(cx, cy))
    ensures r == g.Clusters()[Pos(cx, cy)].rebuildAdjacency
  {
    r := g.cluster[cy, cx].rebuildAdjacency;
  }

  lemma NoPairsYet(q: Squares, k: Pos, d: Dir)
    ensures q.Pairs(k, d, 0) == {}
  {}

  /** Where entry r stands in the list of clump m. */
  method FindEntry(c: Cluster, m: int, r: RelativeClumpId) returns (i: int)
    requires SliceOk(c, m) && r in Entries(c, m)
    ensures 0 <= i < c.clump[m].numAdjacent && Entries(c, m)[i] == r
  {
    i := 0;
    while i < c.clump[m].numAdjacent
      invariant 0 <= i <= c.clump[m].numAdjacent
      invariant forall n :: 0 <= n < i ==> Entries(c, m)[n] != r
    {
      if r == c.storage[c.clump[m].listIndex + i] {
        return;
      }
      i := i + 1;
    }
    assert false;
  }

  /** Overwrites the entry rc of clump c1 with the last one. */
  method DropEntry(cluster: Cluster, c1: int, rc: RelativeClumpId) returns (r: Cluster, ghost i: int)
    requires SliceOk(cluster, c1) && rc in Entries(cluster, c1)
    ensures 0 <= i < cluster.clump[c1].numAdjacent && Entries(cluster, c1)[i] == rc && r == RemoveEntry(cluster, c1, i)
  {
    var at := FindEntry(cluster, c1, rc);
    i := at;
    var clump := cluster.clump[c1];
    var last := clump.listIndex + clump.numAdjacent - 1;
    r := cluster.(storage := cluster.storage[clump.listIndex + at := cluster.storage[last]],
                  clump := cluster.clump[c1 := clump.(numAdjacent := clump.numAdjacent - 1)]);
  }

  method RemoveClumpConnection(g: Grid, ghost a: Addr, ghost b: Addr, x1: int, y1: int, x2: int, y2: int)
    returns (ghost i: int)
    requires g.Dims() && Locates(g, a, x1, y1) && Locates(g, b, x2, y2)
    requires IsDir(Dir(x2 - x1, y2 - y1)) && b.k == Step(a.k, Dir(x2 - x1, y2 - y1))
    requires SliceOk(g.Clusters()[a.k], g.Ids()[a])
    requires Rel(g.Ids()[b], x2 - x1, y2 - y1) in Entries(g.Clusters()[a.k], g.Ids()[a])
    modifies g.cluster
    ensures var c, m := old(g.Clusters())[a.k], g.Ids()[a];
            && 0 <= i < c.clump[m].numAdjacent && Entries(c, m)[i] == Rel(g.Ids()[b], x2 - x1, y2 - y1)
            && g.Clusters() == old(g.Clusters())[a.k := RemoveEntry(c, m, i)]
    ensures var c, m := old(g.Clusters())[a.k], g.Ids()[a];
            var e := c.clump[m];
            g.Clusters()[a.k]
            == c.(storage := c.storage[e.listIndex + i := c.storage[e.listIndex + e.numAdjacent - 1]],
                  clump := c.clump[m := e.(numAdjacent := e.numAdjacent - 1)])
  {
    hide Grid.Clusters, Grid.Ids, Entries;
    var cluster, c1 := FindClump(g, a, x1, y1);
    var other, c2 := FindClump(g, b, x2, y2);
    var r, at := DropEntry(cluster, c1, Rel(c2, x2 - x1, y2 - y1));
    i := at;
    StoreCluster(g, x1 / g.size, y1 / g.size, r);
  }

  /** Drops the entry of the pair at position t if it is open and not yet seen; (x, y) is the near square. */
  method RemovePosition(g: Grid, ghost k: Pos, ghost q: Squares, ghost D: set<Dir>, ghost d: Dir, ghost t: nat, x: int,
                        y: int, dx: int, dy: int,
                        marks: array3<bool>, ghost c0: Cluster)
    requires g.Dims() && g.HasPos(k) && g.HasPos(Step(k, d)) && IsDir(d) && d == Dir(dx, dy) && d in D && t < g.size
             && q == SquaresOf(g)
    requires Locates(g, Addr(k, Side(g.size, d, t)), x, y)
    requires BothNumbered(q, k, d, c0.numEdgeClumps)
    requires Marks(marks, MaxExits(g.size), q.Pairs(k, d, t))
    requires RemoveState(q, k, D, d, t, c0, g.Clusters()[k])
    modifies marks, g.cluster
    ensures g.Clusters() == old(g.Clusters())[k := g.Clusters()[k]]
    ensures RemoveState(q, k, D, d, t + 1, c0, g.Clusters()[k]) && Marks(marks, MaxExits(g.size), q.Pairs(k, d, t + 1))
  {
    hide Grid.Clusters, Grid.Ids, Grid.Open, Marks, RemoveState, BothNumbered, SameShape, Wanted, WantedLess,
        Squares.Pairs, RemoveEntry;
    ghost var c := g.Clusters()[k];
    var both, src, dest := ReadPair(g, k, d, t, x, y, dx, dy);
    if both {
      PairInRange(q, k, d, t, c0.numEdgeClumps);
      var seen := Marked(marks, MaxExits(g.size), q.Pairs(k, d, t), src, dest);
      if !seen {
        RemoveNew(q, k, D, d, t, c0, c);
        Crossing(g, k, d, t, x, y);
        Mark(marks, MaxExits(g.size), q.Pairs(k, d, t), src, dest);
        NearIds(g, k, d, t);
        ghost var i := RemoveClumpConnection(g, Addr(k, Side(g.size, d, t)),
            Addr(Step(k, d), Side(g.size, Opposite(d), t)), x, y, x + dx, y + dy);
        return;
      }
    }
    RemoveOld(q, k, D, d, t, c0, c);
  }

  /** Removes cluster (cx, cy)'s entries for its neighbour in direction (dx, dy); each one is found. */
  method RemoveConnectionsToAdjacentCluster(g: Grid, cx: int, cy: int, dx: int, dy: int, ghost q: Squares,
          ghost D: set<Dir>)
    requires g.Dims() && IsDir(Dir(dx, dy)) && q == SquaresOf(g) && Dir(dx, dy) in D
    requires g.HasPos(Pos(cx, cy)) ==>
               && Lists(g.Clusters()[Pos(cx, cy)], Wanted(q, Pos(cx, cy), D))
               && BothNumbered(q, Pos(cx, cy), Dir(dx, dy), g.Clusters()[Pos(cx, cy)].numEdgeClumps)
    modifies g.cluster
    ensures !g.HasPos(Pos(cx, cy)) ==> g.Clusters() == old(g.Clusters())
    ensures g.HasPos(Pos(cx, cy)) ==>
              && g.Clusters() == old(g.Clusters())[Pos(cx, cy) := g.Clusters()[Pos(cx, cy)]]
              && RemoveState(q, Pos(cx, cy), D, Dir(dx, dy), q.s, old(g.Clusters())[Pos(cx, cy)],
                  g.Clusters()[Pos(cx, cy)])
  {
    hide Grid.Ids, Marks, RemoveState, BothNumbered, SameShape, Wanted, WantedLess, Squares.Pairs;
    ghost var k, d := Pos(cx, cy), Dir(dx, dy);
    if cx < 0 || cx >= g.cw || cy < 0 || cy >= g.ch {
      return;
    }
    if cx + dx < 0 || cx + dx >= g.cw || cy + dy < 0 || cy + dy >= g.ch {
      RemoveOutside(q, k, D, d, g.Clusters()[k]);
      return;
    }
    RemoveAlongSide(g, cx, cy, dx, dy, q, D);
  }

  method RemoveAlongSide(g: Grid, cx: int, cy: int, dx: int, dy: int, ghost q: Squares, ghost D: set<Dir>)
    requires g.Dims() && IsDir(Dir(dx, dy)) && q == SquaresOf(g) && Dir(dx, dy) in D
    requires g.HasPos(Pos(cx, cy)) && g.HasPos(Step(Pos(cx, cy), Dir(dx, dy)))
    requires Lists(g.Clusters()[Pos(cx, cy)], Wanted(q, Pos(cx, cy), D))
    requires BothNumbered(q, Pos(cx, cy), Dir(dx, dy), g.Clusters()[Pos(cx, cy)].numEdgeClumps)
    modifies g.cluster
    ensures g.Clusters() == old(g.Clusters())[Pos(cx, cy) := g.Clusters()[Pos(cx, cy)]]
    ensures RemoveState(q, Pos(cx, cy), D, Dir(dx, dy), q.s, old(g.Clusters())[Pos(cx, cy)], g.Clusters()[Pos(cx, cy)])
  {
    hide Grid.Ids, Grid.Open, Marks, RemoveState, BothNumbered, SameShape, Wanted, WantedLess, Squares.Pairs,
        Grid.Clusters, Lists;
    ghost var k, d := Pos(cx, cy), Dir(dx, dy);
    ghost var before, c0 := g.Clusters(), g.Clusters()[k];
    var x, y := cx * g.size, cy * g.size;
    var i, j, stepX, stepY := SideScan(g.size, dx, dy);
    var marks := NoMarks(MaxExits(g.size));
    StartRemove(q, k, D, d, c0);
    NoPairsYet(q, k, d);
    for t := 0 to g.size
      invariant Cell(i, j) == Side(g.size, d, t)
      invariant q == SquaresOf(g) && g.Clusters() == before[k := g.Clusters()[k]]
      invariant Marks(marks, MaxExits(g.size), q.Pairs(k, d, t)) && RemoveState(q, k, D, d, t, c0, g.Clusters()[k])
    {
      SideInBox(g.size, d, t);
      RemovePosition(g, k, q, D, d, t, x + i, y + j, dx, dy, marks, c0);
      i, j := i + stepX, j + stepY;
    }
  }
}
