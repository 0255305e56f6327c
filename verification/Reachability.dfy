/** From clumps, adjacency lists and global labels to reachability on the map. */
module Reachability {
  import opened Paths
  import opened Partitions
  import opened GridModel
  import opened GridState
  import opened LabelSpec
  import opened ClusterStore
  import opened Adjacency
  import opened Connections
  import opened Rebuild
  import opened ClumpForest
  import opened GlobalPasses

  /** The address of a map square. */
  function AddrOf(s: int, c: Cell): Addr
    requires s > 0
  {
    Addr(Pos(c.x / s, c.y / s), Cell(c.x % s, c.y % s))
  }

  function Square(s: int, a: Addr): Cell { Cell(a.k.cx * s + a.l.x, a.k.cy * s + a.l.y) }

  lemma AddrOfSquare(s: int, a: Addr)
    requires InBox(s, a.l)
    ensures AddrOf(s, Square(s, a)) == a
  {
    DivisionOfOffset(s, a.k.cx, a.l.x);
    DivisionOfOffset(s, a.k.cy, a.l.y);
  }

  lemma SquareOfAddr(s: int, c: Cell)
    requires s > 0
    ensures Square(s, AddrOf(s, c)) == c && InBox(s, AddrOf(s, c).l)
  {}

  /** The open squares in map coordinates. */
  ghost function OpenCells(q: Squares): iset<Cell> {
    iset c: Cell | q.s > 0 && AddrOf(q.s, c) in q.open
  }

  /** Dividing the next coordinate. */
  lemma NextOffset(s: int, x: int)
    requires s > 0
    ensures if x % s < s - 1
            then (x + 1) / s == x / s && (x + 1) % s == x % s + 1
            else (x + 1) / s == x / s + 1 && (x + 1) % s == 0
  {
    var k, i := x / s, x % s;
    assert x == k * s + i;
    if i < s - 1 {
      DivisionOfOffset(s, k, i + 1);
    } else {
      assert x + 1 == (k + 1) * s + 0;
      DivisionOfOffset(s, k + 1, 0);
    }
  }

  /** Where the right neighbour of a square is. */
  lemma RightNeighbour(s: int, c: Cell)
    requires s > 0
    ensures var a, b := AddrOf(s, c), AddrOf(s, Cell(c.x + 1, c.y));
            if a.l.x < s - 1 then b == Addr(a.k, Cell(a.l.x + 1, a.l.y))
            else b == Addr(Pos(a.k.cx + 1, a.k.cy), Cell(0, a.l.y))
  {
    NextOffset(s, c.x);
  }

  lemma LowerNeighbour(s: int, c: Cell)
    requires s > 0
    ensures var a, b := AddrOf(s, c), AddrOf(s, Cell(c.x, c.y + 1));
            if a.l.y < s - 1 then b == Addr(a.k, Cell(a.l.x, a.l.y + 1))
            else b == Addr(Pos(a.k.cx, a.k.cy + 1), Cell(a.l.x, 0))
  {
    NextOffset(s, c.y);
  }

  /** b is the square facing a across side d, t squares along. */
  ghost predicate Facing(s: int, a: Addr, b: Addr, d: Dir, t: int) {
    IsDir(d) && 0 <= t < s && b.k == Step(a.k, d) && a.l == Side(s, d, t) && b.l == Side(s, Opposite(d), t)
  }

  /** Two addresses are neighbours inside a cluster, or face each other across a border. */
  ghost predicate Touching(s: int, a: Addr, b: Addr) {
    (a.k == b.k && Adjacent(a.l, b.l)) || exists d, t :: Facing(s, a, b, d, t)
  }

  lemma Faces(s: int, a: Addr, b: Addr, d: Dir, t: int)
    requires Facing(s, a, b, d, t)
    ensures Touching(s, a, b) && Touching(s, b, a)
  {
    assert Facing(s, b, a, Opposite(d), t);
  }

  lemma NeighboursTouch(s: int, c: Cell, c': Cell)
    requires s > 0 && Adjacent(c, c')
    ensures Touching(s, AddrOf(s, c), AddrOf(s, c'))
  {
    if c'.x == c.x + 1 || c.x == c'.x + 1 {
      var left, right := if c'.x == c.x + 1 then c else c', if c'.x == c.x + 1 then c' else c;
      var a, b := AddrOf(s, left), AddrOf(s, right);
      RightNeighbour(s, left);
      if a.l.x == s - 1 { Faces(s, a, b, Dir(1, 0), a.l.y); }
    } else {
      var upper, lower := if c'.y == c.y + 1 then c else c', if c'.y == c.y + 1 then c' else c;
      var a, b := AddrOf(s, upper), AddrOf(s, lower);
      LowerNeighbour(s, upper);
      if a.l.y == s - 1 { Faces(s, a, b, Dir(0, 1), a.l.x); }
    }
  }

  /** The corner of the cluster one step on. */
  lemma NextBase(s: int, k: int, d: int)
    requires d == -1 || d == 0 || d == 1
    ensures (k + d) * s == k * s + (if d == 1 then s else if d == 0 then 0 else -s)
  {}

  lemma FacingAreNeighbours(s: int, a: Addr, b: Addr, d: Dir, t: int)
    requires Facing(s, a, b, d, t)
    ensures Adjacent(Square(s, a), Square(s, b))
  {
    NextBase(s, a.k.cx, d.dx);
    NextBase(s, a.k.cy, d.dy);
    var ox, oy := a.k.cx * s, a.k.cy * s;
    assert Square(s, a) == Cell(ox + a.l.x, oy + a.l.y);
    assert Square(s, b) == Cell(ox + (if d.dx == 1 then s else if d.dx == 0 then 0 else -s) + b.l.x,
                                oy + (if d.dy == 1 then s else if d.dy == 0 then 0 else -s) + b.l.y);
    hide Square;
  }

  lemma TouchingAreNeighbours(s: int, a: Addr, b: Addr)
    requires Touching(s, a, b)
    ensures Adjacent(Square(s, a), Square(s, b))
  {
    if a.k == b.k && Adjacent(a.l, b.l) {
      var ox, oy := a.k.cx * s, a.k.cy * s;
      assert Square(s, a) == Cell(ox + a.l.x, oy + a.l.y) && Square(s, b) == Cell(ox + b.l.x, oy + b.l.y);
      hide Square;
    } else {
      var d, t :| Facing(s, a, b, d, t);
      hide Square, Facing;
      FacingAreNeighbours(s, a, b, d, t);
    }
  }

  /** The open squares of cluster k. */
  ghost function LocalOf(q: Squares, k: Pos): iset<Cell> { iset l: Cell | InBox(q.s, l) && Addr(k, l) in q.open }

  ghost function LocalIdsOf(q: Squares, k: Pos): imap<Cell, int> { imap l: Cell | InBox(q.s, l) :: q.IdOf(Addr(k, l)) }

  /** Cluster k's record agrees with the map: exact labels, interior clumps labelled by themselves. */
  ghost predicate ClusterOk(q: Squares, k: Pos, c: Cluster) {
    && Sized(q.s, c)
    && LabelsOk(q.s, LocalOf(q, k), LocalIdsOf(q, k), c.numEdgeClumps, c.numClumps)
    && forall m {:trigger c.clump[m]} :: c.numEdgeClumps <= m < c.numClumps <= |c.clump| ==>
        c.clump[m].globalLabel == ClumpId(m, k.cx, k.cy)
  }

  /** Every cluster of a map of cw x ch clusters has exact clumps. */
  ghost predicate Clumped(q: Squares, cw: int, ch: int, cl: imap<Pos, Cluster>) {
    && q.s >= 2 && q.s % 2 == 0
    && (forall k :: InGrid(cw, ch, k) ==> k in cl)
    && (forall a: Addr {:trigger a in q.open} :: a in q.open ==> InGrid(cw, ch, a.k) && InBox(q.s, a.l))
    && forall k {:trigger ClusterOk(q, k, cl[k])} :: InGrid(cw, ch, k) ==> ClusterOk(q, k, cl[k])
  }

  lemma SmoothCluster(q: Squares, k: Pos, c: Cluster)
    requires ClusterOk(q, k, c)
    requires forall l {:trigger Addr(k, l)} :: Addr(k, l) in q.open ==> InBox(q.s, l)
    ensures Smooth(q, k) && Numbered(q, k, c.numEdgeClumps)
  {
    var L, id := LocalOf(q, k), LocalIdsOf(q, k);
    forall a, b | Adjacent(a, b) && Addr(k, a) in q.open && Addr(k, b) in q.open
      ensures q.IdOf(Addr(k, a)) == q.IdOf(Addr(k, b))
    {
      ConnectedEdge(Edges(L), a, b);
      assert id[a] == q.IdOf(Addr(k, a)) && id[b] == q.IdOf(Addr(k, b));
    }
    forall l | InBox(q.s, l) && OnBorder(q.s, l) && Addr(k, l) in q.open
      ensures 0 <= q.IdOf(Addr(k, l)) < c.numEdgeClumps
    {
      assert id[l] == q.IdOf(Addr(k, l));
    }
  }

  lemma OutsideIsEmpty(q: Squares, k: Pos)
    requires forall l :: Addr(k, l) !in q.open
    ensures Smooth(q, k) && Numbered(q, k, 0)
  {}

  /** Around every cluster the borders are numbered as the connection passes expect. */
  lemma ClumpedSurroundings(q: Squares, cw: int, ch: int, cl: imap<Pos, Cluster>, k: Pos)
    requires Clumped(q, cw, ch, cl) && InGrid(cw, ch, k)
    ensures Surroundings(q, k, cl[k].numEdgeClumps)
  {
    hide LabelsOk;
    assert ClusterOk(q, k, cl[k]);
    SmoothCluster(q, k, cl[k]);
    forall d | IsDir(d) ensures Smooth(q, Step(k, d)) && BothNumbered(q, k, d, cl[k].numEdgeClumps) {
      var k' := Step(k, d);
      if InGrid(cw, ch, k') {
        assert ClusterOk(q, k', cl[k']);
        SmoothCluster(q, k', cl[k']);
      } else {
        OutsideIsEmpty(q, k');
      }
    }
  }

  /** The id of an open square is a clump of its cluster, an edge clump if the square is on the border. */
  lemma OpenId(q: Squares, cw: int, ch: int, cl: imap<Pos, Cluster>, a: Addr)
    requires Clumped(q, cw, ch, cl) && a in q.open
    ensures InGrid(cw, ch, a.k) && InBox(q.s, a.l)
    ensures 0 <= q.IdOf(a) < cl[a.k].numClumps <= |cl[a.k].clump|
    ensures OnBorder(q.s, a.l) ==> q.IdOf(a) < cl[a.k].numEdgeClumps
  {
    assert ClusterOk(q, a.k, cl[a.k]);
    assert a.l in LocalOf(q, a.k);
    assert LocalIdsOf(q, a.k)[a.l] == q.IdOf(a);
  }

  lemma ClumpedBounded(q: Squares, cw: int, ch: int, cl: imap<Pos, Cluster>, k: Pos)
    requires Clumped(q, cw, ch, cl) && InGrid(cw, ch, k)
    ensures k in cl && Sized(q.s, cl[k]) && 0 <= cl[k].numEdgeClumps <= |cl[k].clump|
  {
    assert ClusterOk(q, k, cl[k]);
  }

  /** All adjacency lists of the map are up to date. */
  ghost predicate Listing(q: Squares, cw: int, ch: int, cl: imap<Pos, Cluster>) {
    Clumped(q, cw, ch, cl) && forall k {:trigger Complete(q, k, cl[k])} :: InGrid(cw, ch, k) ==> Complete(q, k, cl[k])
  }

  /** An adjacency entry stands for a pair of open squares facing each other. */
  lemma EntryMeaning(q: Squares, cw: int, ch: int, cl: imap<Pos, Cluster>, n: GlobalClumpId, h: int)
    returns (d: Dir, t: int)
    requires Listing(q, cw, ch, cl) && HasEntry(cl, n, h) && InGrid(cw, ch, Home(n))
    ensures IsDir(d) && 0 <= t < q.s && q.OpenPair(Home(n), d, t)
    ensures q.PairAt(Home(n), d, t) == (n.index, Target(cl, n, h).index) && Home(Target(cl, n, h)) == Step(Home(n), d)
    ensures IsEdgeClump(cl, Target(cl, n, h)) && InGrid(cw, ch, Home(Target(cl, n, h)))
  {
    hide Clumped, Complete, Lists, Wanted, LabelsOk, ClusterOk, Listing;
    var k := Home(n);
    var r := EntryWanted(q, cw, ch, cl, n, h);
    d := DirOf(r);
    t := WantedPair(q, k, n.index, r);
    FarIsEdge(q, cw, ch, cl, k, d, t);
    ListingClumped(q, cw, ch, cl);
  }

  lemma ListingClumped(q: Squares, cw: int, ch: int, cl: imap<Pos, Cluster>)
    requires Listing(q, cw, ch, cl)
    ensures Clumped(q, cw, ch, cl)
  {}

  /** An entry of a list is a wanted pair. */
  lemma EntryWanted(q: Squares, cw: int, ch: int, cl: imap<Pos, Cluster>, n: GlobalClumpId, h: int)
    returns (r: RelativeClumpId)
    requires Listing(q, cw, ch, cl) && HasEntry(cl, n, h) && InGrid(cw, ch, Home(n))
    ensures (n.index, r) in Wanted(q, Home(n), ALL_DIRS)
            && Target(cl, n, h) == ClumpId(r.index, n.cx + r.dx, n.cy + r.dy)
    ensures Clumped(q, cw, ch, cl)
  {
    hide LabelsOk, ClusterOk, Wanted;
    var k := Home(n);
    var c := cl[k];
    assert Complete(q, k, c);
    assert ListOk(c, Wanted(q, k, ALL_DIRS), n.index);
    r := Entries(c, n.index)[h];
    assert r in Entries(c, n.index);
  }

  lemma WantedPair(q: Squares, k: Pos, i: int, r: RelativeClumpId) returns (t: int)
    requires (i, r) in Wanted(q, k, ALL_DIRS)
    ensures IsDir(DirOf(r)) && 0 <= t < q.s && q.OpenPair(k, DirOf(r), t) && q.PairAt(k, DirOf(r), t) == (i, r.index)
  {
    var d := DirOf(r);
    PairsMeaning(q, k, d, q.s, (i, r.index));
    t :| 0 <= t < q.s && q.OpenPair(k, d, t) && q.PairAt(k, d, t) == (i, r.index);
  }

  lemma FarIsEdge(q: Squares, cw: int, ch: int, cl: imap<Pos, Cluster>, k: Pos, d: Dir, t: int)
    requires Clumped(q, cw, ch, cl) && IsDir(d) && 0 <= t < q.s && q.OpenPair(k, d, t)
    ensures IsEdgeClump(cl, ClumpId(q.PairAt(k, d, t).1, k.cx + d.dx, k.cy + d.dy)) && InGrid(cw, ch, Step(k, d))
  {
    SideInBox(q.s, Opposite(d), t);
    OpenId(q, cw, ch, cl, q.Far(k, d, t));
    ClumpedBounded(q, cw, ch, cl, Step(k, d));
    hide Clumped;
  }

  /** The clump of an open square. */
  ghost function ClumpOf(q: Squares, a: Addr): GlobalClumpId { ClumpId(q.IdOf(a), a.k.cx, a.k.cy) }

  /** Squares facing each other lie in edge clumps, and their pair is wanted. */
  lemma FacingIds(q: Squares, cw: int, ch: int, cl: imap<Pos, Cluster>, a: Addr, b: Addr, d: Dir, t: int)
    requires Clumped(q, cw, ch, cl) && a in q.open && b in q.open && Facing(q.s, a, b, d, t)
    ensures IsEdgeClump(cl, ClumpOf(q, a)) && IsEdgeClump(cl, ClumpOf(q, b)) && InGrid(cw, ch, a.k)
    ensures (q.IdOf(a), Rel(q.IdOf(b), d.dx, d.dy)) in Wanted(q, a.k, ALL_DIRS)
  {
    SideInBox(q.s, d, t);
    SideInBox(q.s, Opposite(d), t);
    OpenId(q, cw, ch, cl, a);
    OpenId(q, cw, ch, cl, b);
    ClumpedBounded(q, cw, ch, cl, a.k);
    ClumpedBounded(q, cw, ch, cl, b.k);
    hide Clumped;
    FacingWanted(q, a, b, d, t);
  }

  lemma FacingWanted(q: Squares, a: Addr, b: Addr, d: Dir, t: int)
    requires a in q.open && b in q.open && Facing(q.s, a, b, d, t)
    ensures (q.IdOf(a), Rel(q.IdOf(b), d.dx, d.dy)) in Wanted(q, a.k, ALL_DIRS)
  {
    assert q.OpenPair(a.k, d, t) && q.PairAt(a.k, d, t) == (q.IdOf(a), q.IdOf(b));
    PairsMeaning(q, a.k, d, q.s, (q.IdOf(a), q.IdOf(b)));
  }

  lemma WantedIsListed(q: Squares, cl: imap<Pos, Cluster>, n: GlobalClumpId, r: RelativeClumpId)
    requires IsEdgeClump(cl, n) && Complete(q, Home(n), cl[Home(n)]) && (n.index, r) in Wanted(q, Home(n), ALL_DIRS)
    ensures Listed(cl, n, ClumpId(r.index, n.cx + r.dx, n.cy + r.dy))
  {
    var c := cl[Home(n)];
    assert ListOk(c, Wanted(q, Home(n), ALL_DIRS), n.index);
    hide Wanted, Lists;
    assert r in Entries(c, n.index);
    var h :| 0 <= h < |Entries(c, n.index)| && Entries(c, n.index)[h] == r;
    assert HasEntry(cl, n, h) && Target(cl, n, h) == ClumpId(r.index, n.cx + r.dx, n.cy + r.dy);
  }

  /** Every pair of open squares facing each other is listed. */
  lemma PairListed(q: Squares, cw: int, ch: int, cl: imap<Pos, Cluster>, a: Addr, b: Addr, d: Dir, t: int)
    requires Listing(q, cw, ch, cl) && a in q.open && b in q.open && Facing(q.s, a, b, d, t)
    ensures IsEdgeClump(cl, ClumpOf(q, a)) && IsEdgeClump(cl, ClumpOf(q, b)) && Listed(cl, ClumpOf(q, a), ClumpOf(q, b))
  {
    hide Clumped, Complete, Wanted, Listed;
    FacingIds(q, cw, ch, cl, a, b, d, t);
    assert Complete(q, a.k, cl[a.k]);
    WantedIsListed(q, cl, ClumpOf(q, a), Rel(q.IdOf(b), d.dx, d.dy));
  }

  /** Same clump, same component of the map. */
  lemma SameClumpConnected(q: Squares, cw: int, ch: int, cl: imap<Pos, Cluster>, a: Addr, b: Addr)
    requires Clumped(q, cw, ch, cl) && a in q.open && b in q.open && ClumpOf(q, a) == ClumpOf(q, b)
    ensures Connected(Edges(OpenCells(q)), Square(q.s, a), Square(q.s, b))
  {
    var k, L := a.k, LocalOf(q, a.k);
    assert a.l in L && b.l in L;
    LocalConnected(q, cw, ch, cl, a, b);
    var f := imap l | l in L :: Square(q.s, Addr(k, l));
    forall l, l' | (l, l') in Edges(L) && l in f
      ensures l' in f && Connected(Edges(OpenCells(q)), f[l], f[l'])
    {
      AddrOfSquare(q.s, Addr(k, l));
      AddrOfSquare(q.s, Addr(k, l'));
      TouchingAreNeighbours(q.s, Addr(k, l), Addr(k, l'));
      ConnectedEdge(Edges(OpenCells(q)), f[l], f[l']);
    }
    ConnectedImage(Edges(L), Edges(OpenCells(q)), f, a.l, b.l);
  }

  lemma LocalConnected(q: Squares, cw: int, ch: int, cl: imap<Pos, Cluster>, a: Addr, b: Addr)
    requires Clumped(q, cw, ch, cl) && a in q.open && b in q.open && a.k == b.k
    ensures q.IdOf(a) == q.IdOf(b) <==> Connected(Edges(LocalOf(q, a.k)), a.l, b.l)
  {
    var L, id := LocalOf(q, a.k), LocalIdsOf(q, a.k);
    assert ClusterOk(q, a.k, cl[a.k]);
    assert a.l in L && b.l in L;
    assert id[a.l] == q.IdOf(a) && id[b.l] == q.IdOf(b);
  }

  /** Some square of an edge clump. */
  ghost predicate IsMember(q: Squares, n: GlobalClumpId, a: Addr) { a in q.open && ClumpOf(q, a) == n }

  lemma EdgeClumpHasMember(q: Squares, cw: int, ch: int, cl: imap<Pos, Cluster>, n: GlobalClumpId)
    requires Clumped(q, cw, ch, cl) && IsEdgeClump(cl, n) && InGrid(cw, ch, Home(n))
    ensures exists a :: IsMember(q, n, a)
  {
    var k := Home(n);
    assert ClusterOk(q, k, cl[k]);
    var L, id := LocalOf(q, k), LocalIdsOf(q, k);
    assert HasClump(q.s, L, id, n.index);
    var l :| InBox(q.s, l) && l in L && id[l] == n.index;
    assert IsMember(q, n, Addr(k, l));
  }

  ghost function Member(q: Squares, n: GlobalClumpId): Addr
    requires exists a :: IsMember(q, n, a)
    ensures IsMember(q, n, Member(q, n))
  {
    var a :| IsMember(q, n, a);
    a
  }

  /** An adjacency entry joins a square of one clump to a neighbouring square of the other. */
  lemma EntryEdge(q: Squares, cw: int, ch: int, cl: imap<Pos, Cluster>, n: GlobalClumpId, n': GlobalClumpId)
    returns (a: Addr, b: Addr)
    requires Listing(q, cw, ch, cl) && Listed(cl, n, n') && InGrid(cw, ch, Home(n))
    ensures IsEdgeClump(cl, n) && IsEdgeClump(cl, n') && InGrid(cw, ch, Home(n'))
    ensures IsMember(q, n, a) && IsMember(q, n', b)
    ensures (Square(q.s, a), Square(q.s, b)) in Edges(OpenCells(q))
  {
    var h :| HasEntry(cl, n, h) && Target(cl, n, h) == n';
    var d, t := EntryMeaning(q, cw, ch, cl, n, h);
    hide Listing, HasEntry, Target, Square, AddrOf;
    a, b := q.Near(Home(n), d, t), q.Far(Home(n), d, t);
    assert Facing(q.s, a, b, d, t);
    FacingAreNeighbours(q.s, a, b, d, t);
    SideInBox(q.s, d, t);
    SideInBox(q.s, Opposite(d), t);
    AddrOfSquare(q.s, a);
    AddrOfSquare(q.s, b);
  }

  /** Clumps linked through adjacency lists lie in one component of the map. */
  lemma LinkedClumpsConnected(q: Squares, cw: int, ch: int, cl: imap<Pos, Cluster>, n: GlobalClumpId, n': GlobalClumpId)
    requires Listing(q, cw, ch, cl) && Listed(cl, n, n') && InGrid(cw, ch, Home(n))
    ensures IsEdgeClump(cl, n) && IsEdgeClump(cl, n') && InGrid(cw, ch, Home(n'))
    ensures forall a, b :: IsMember(q, n, a) && IsMember(q, n', b) ==>
            Connected(Edges(OpenCells(q)), Square(q.s, a), Square(q.s, b))
  {
    var E := Edges(OpenCells(q));
    var a0, b0 := EntryEdge(q, cw, ch, cl, n, n');
    hide Clumped, Listed, OpenCells, Edges;
    ConnectedEdge(E, Square(q.s, a0), Square(q.s, b0));
    forall a, b | IsMember(q, n, a) && IsMember(q, n', b)
      ensures Connected(E, Square(q.s, a), Square(q.s, b))
    {
      SameClumpConnected(q, cw, ch, cl, a, a0);
      SameClumpConnected(q, cw, ch, cl, b0, b);
      ConnectedTrans(E, Square(q.s, a), Square(q.s, a0), Square(q.s, b0));
      ConnectedTrans(E, Square(q.s, a), Square(q.s, b0), Square(q.s, b));
    }
  }

  /** A list of a record beyond the map links n to n'. */
  ghost predicate StaleLink(cw: int, ch: int, cl: imap<Pos, Cluster>, n: GlobalClumpId, n': GlobalClumpId) {
    !InGrid(cw, ch, Home(n)) && Listed(cl, n, n')
  }

  /** The graph left-over lists make, those of the records beyond the map. */
  ghost function StaleEdges(cw: int, ch: int, cl: imap<Pos, Cluster>): iset<(GlobalClumpId, GlobalClumpId)> {
    iset e: (GlobalClumpId, GlobalClumpId) | StaleLink(cw, ch, cl, e.0, e.1) || StaleLink(cw, ch, cl, e.1, e.0)
  }

  /** No chain of left-over lists joins two clumps of the map. */
  ghost predicate Separate(cw: int, ch: int, cl: imap<Pos, Cluster>) {
    forall n, n' {:trigger Connected(StaleEdges(cw, ch, cl), n, n')} ::
      InGrid(cw, ch, Home(n)) && InGrid(cw, ch, Home(n')) && Connected(StaleEdges(cw, ch, cl), n, n') ==> n == n'
  }

  lemma StaleEdgesSymmetric(cw: int, ch: int, cl: imap<Pos, Cluster>)
    ensures Symmetric(StaleEdges(cw, ch, cl))
  {}

  /** A chain of left-over lists leads from m, a clump of the map, to n. */
  ghost predicate Anchors(cw: int, ch: int, cl: imap<Pos, Cluster>, m: GlobalClumpId, n: GlobalClumpId) {
    InGrid(cw, ch, Home(m)) && Connected(StaleEdges(cw, ch, cl), m, n)
  }

  lemma OneAnchor(cw: int, ch: int, cl: imap<Pos, Cluster>, m: GlobalClumpId, m': GlobalClumpId, n: GlobalClumpId)
    requires Separate(cw, ch, cl) && Anchors(cw, ch, cl, m, n) && Anchors(cw, ch, cl, m', n)
    ensures m == m'
  {
    var S := StaleEdges(cw, ch, cl);
    StaleEdgesSymmetric(cw, ch, cl);
    ConnectedSym(S, m', n);
    ConnectedTrans(S, m, n, m');
  }

  lemma OwnAnchor(cw: int, ch: int, cl: imap<Pos, Cluster>, n: GlobalClumpId)
    requires InGrid(cw, ch, Home(n))
    ensures Anchors(cw, ch, cl, n, n)
  {
    ConnectedRefl(StaleEdges(cw, ch, cl), n);
  }

  lemma SameAnchors(cw: int, ch: int, cl: imap<Pos, Cluster>, n: GlobalClumpId, n': GlobalClumpId)
    requires (n, n') in StaleEdges(cw, ch, cl)
    ensures forall m :: Anchors(cw, ch, cl, m, n) <==> Anchors(cw, ch, cl, m, n')
  {
    var S := StaleEdges(cw, ch, cl);
    StaleEdgesSymmetric(cw, ch, cl);
    ConnectedEdge(S, n, n');
    ConnectedEdge(S, n', n);
    hide StaleEdges;
    forall m ensures Anchors(cw, ch, cl, m, n) <==> Anchors(cw, ch, cl, m, n') {
      if Anchors(cw, ch, cl, m, n) { ConnectedTrans(S, m, n, n'); }
      if Anchors(cw, ch, cl, m, n') { ConnectedTrans(S, m, n', n); }
    }
  }

  /** A square of the one clump of the map that left-over lists tie n to, if there is one. */
  ghost function AnchorSquare(q: Squares, cw: int, ch: int, cl: imap<Pos, Cluster>, n: GlobalClumpId): Cell {
    if exists m :: Anchors(cw, ch, cl, m, n) && exists a :: IsMember(q, m, a) then
      var m :| Anchors(cw, ch, cl, m, n) && exists a :: IsMember(q, m, a);
      Square(q.s, Member(q, m))
    else Cell(0, 0)
  }

  lemma AnchorOfMapClump(q: Squares, cw: int, ch: int, cl: imap<Pos, Cluster>, n: GlobalClumpId)
    requires Clumped(q, cw, ch, cl) && Separate(cw, ch, cl) && IsEdgeClump(cl, n) && InGrid(cw, ch, Home(n))
    ensures exists a :: IsMember(q, n, a)
    ensures AnchorSquare(q, cw, ch, cl, n) == Square(q.s, Member(q, n))
  {
    hide Clumped, Separate, IsMember;
    EdgeClumpHasMember(q, cw, ch, cl, n);
    OwnAnchor(cw, ch, cl, n);
    forall m | Anchors(cw, ch, cl, m, n) ensures m == n { OneAnchor(cw, ch, cl, m, n, n); }
    hide Anchors;
  }

  lemma AnchorKept(q: Squares, cw: int, ch: int, cl: imap<Pos, Cluster>, n: GlobalClumpId, n': GlobalClumpId)
    requires Separate(cw, ch, cl) && (n, n') in StaleEdges(cw, ch, cl)
    ensures AnchorSquare(q, cw, ch, cl, n) == AnchorSquare(q, cw, ch, cl, n')
  {
    hide Separate, StaleEdges, IsMember;
    SameAnchors(cw, ch, cl, n, n');
    forall m, m' | Anchors(cw, ch, cl, m, n) && Anchors(cw, ch, cl, m', n) ensures m == m' {
      OneAnchor(cw, ch, cl, m, m', n);
    }
    hide Anchors;
  }

  /** The square of a clump moves along no link but over open squares. */
  lemma AnchorsAcross(q: Squares, cw: int, ch: int, cl: imap<Pos, Cluster>, n: GlobalClumpId, n': GlobalClumpId)
    requires Listing(q, cw, ch, cl) && Separate(cw, ch, cl) && Listed(cl, n, n')
    ensures var F, a, b := Edges(OpenCells(q)), AnchorSquare(q, cw, ch, cl, n), AnchorSquare(q, cw, ch, cl, n');
            Connected(F, a, b) && Connected(F, b, a)
  {
    var F, a := Edges(OpenCells(q)), AnchorSquare(q, cw, ch, cl, n);
    CellEdgesSymmetric(OpenCells(q));
    if InGrid(cw, ch, Home(n)) {
      LinkedClumpsConnected(q, cw, ch, cl, n, n');
      ListingClumped(q, cw, ch, cl);
      hide Listing, Clumped, Separate, Listed, IsMember, Edges;
      AnchorOfMapClump(q, cw, ch, cl, n);
      AnchorOfMapClump(q, cw, ch, cl, n');
      ConnectedSym(F, a, AnchorSquare(q, cw, ch, cl, n'));
    } else {
      hide Listing, Separate, Listed, Edges;
      assert (n, n') in StaleEdges(cw, ch, cl);
      AnchorKept(q, cw, ch, cl, n, n');
      ConnectedRefl(F, a);
    }
  }

  lemma ClumpGraphConnected(q: Squares, cw: int, ch: int, cl: imap<Pos, Cluster>, a: Addr, b: Addr)
    requires Listing(q, cw, ch, cl) && Separate(cw, ch, cl) && a in q.open && b in q.open
    requires IsEdgeClump(cl, ClumpOf(q, a)) && IsEdgeClump(cl, ClumpOf(q, b))
    requires Connected(ClumpEdges(cl), ClumpOf(q, a), ClumpOf(q, b))
    ensures Connected(Edges(OpenCells(q)), Square(q.s, a), Square(q.s, b))
  {
    ListingClumped(q, cw, ch, cl);
    OpenId(q, cw, ch, cl, a);
    OpenId(q, cw, ch, cl, b);
    hide Clumped, Listing, Separate, AnchorSquare, Listed, IsEdgeClump;
    var E, F := ClumpEdges(cl), Edges(OpenCells(q));
    var f := imap n: GlobalClumpId | true :: AnchorSquare(q, cw, ch, cl, n);
    forall n, n' | (n, n') in E && n in f
      ensures n' in f && Connected(F, f[n], f[n'])
    {
      if Listed(cl, n, n') {
        AnchorsAcross(q, cw, ch, cl, n, n');
      } else {
        AnchorsAcross(q, cw, ch, cl, n', n);
      }
    }
    var n, n' := ClumpOf(q, a), ClumpOf(q, b);
    ConnectedImage(E, F, f, n, n');
    AnchorOfMapClump(q, cw, ch, cl, n);
    AnchorOfMapClump(q, cw, ch, cl, n');
    SameClumpConnected(q, cw, ch, cl, a, Member(q, n));
    SameClumpConnected(q, cw, ch, cl, Member(q, n'), b);
    ConnectedTrans(F, Square(q.s, a), f[n], f[n']);
    ConnectedTrans(F, Square(q.s, a), f[n'], Square(q.s, b));
  }

  lemma CellEdgesSymmetric(L: iset<Cell>)
    ensures Symmetric(Edges(L))
  {}

  /** What makes answers right: up-to-date lists, exact labels, and no harm from left-over lists. */
  ghost predicate Consistent(q: Squares, cw: int, ch: int, cl: imap<Pos, Cluster>) {
    Listing(q, cw, ch, cl) && GloballyLabelled(cl) && Separate(cw, ch, cl)
  }

  /** The global label stored for the clump of an open square. */
  ghost function LabelOf(q: Squares, cl: imap<Pos, Cluster>, a: Addr): GlobalClumpId
    requires a.k in cl && 0 <= q.IdOf(a) < |cl[a.k].clump|
  {
    cl[a.k].clump[q.IdOf(a)].globalLabel
  }

  lemma LabelDefined(q: Squares, cw: int, ch: int, cl: imap<Pos, Cluster>, a: Addr)
    requires Clumped(q, cw, ch, cl) && a in q.open
    ensures a.k in cl && 0 <= q.IdOf(a) < |cl[a.k].clump|
    ensures IsEdgeClump(cl, ClumpOf(q, a)) ==>
              ClumpOf(q, a) in GlobalLabels(cl) && LabelOf(q, cl, a) == GlobalLabels(cl)[ClumpOf(q, a)]
    ensures !IsEdgeClump(cl, ClumpOf(q, a)) ==> LabelOf(q, cl, a) == ClumpOf(q, a)
  {
    OpenId(q, cw, ch, cl, a);
    assert ClusterOk(q, a.k, cl[a.k]);
  }

  /** Neighbouring open squares carry the same global label. */
  lemma LabelsAcrossEdge(q: Squares, cw: int, ch: int, cl: imap<Pos, Cluster>, a: Addr, b: Addr)
    requires Consistent(q, cw, ch, cl) && a in q.open && b in q.open && Touching(q.s, a, b)
    ensures a.k in cl && b.k in cl && 0 <= q.IdOf(a) < |cl[a.k].clump| && 0 <= q.IdOf(b) < |cl[b.k].clump|
    ensures LabelOf(q, cl, a) == LabelOf(q, cl, b)
  {
    hide Clumped, Listing;
    ConsistentParts(q, cw, ch, cl);
    LabelDefined(q, cw, ch, cl, a);
    LabelDefined(q, cw, ch, cl, b);
    if a.k == b.k && Adjacent(a.l, b.l) {
      LocalConnected(q, cw, ch, cl, a, b);
      InLocal(q, cw, ch, cl, a);
      InLocal(q, cw, ch, cl, b);
      ConnectedEdge(Edges(LocalOf(q, a.k)), a.l, b.l);
    } else {
      var d, t :| Facing(q.s, a, b, d, t);
      PairListed(q, cw, ch, cl, a, b, d, t);
      var n, n' := ClumpOf(q, a), ClumpOf(q, b);
      assert (n, n') in ClumpEdges(cl);
      ConnectedEdge(ClumpEdges(cl), n, n');
      assert ExactAt(ClumpEdges(cl), GlobalLabels(cl), n, n');
    }
  }

  lemma ConsistentParts(q: Squares, cw: int, ch: int, cl: imap<Pos, Cluster>)
    requires Consistent(q, cw, ch, cl)
    ensures Listing(q, cw, ch, cl) && Clumped(q, cw, ch, cl) && GloballyLabelled(cl) && Separate(cw, ch, cl) && q.s > 0
  {}

  lemma InLocal(q: Squares, cw: int, ch: int, cl: imap<Pos, Cluster>, a: Addr)
    requires Clumped(q, cw, ch, cl) && a in q.open
    ensures a.l in LocalOf(q, a.k)
  {}

  /** Open squares with equal labels are connected on the map. */
  lemma SameLabelConnected(q: Squares, cw: int, ch: int, cl: imap<Pos, Cluster>, a: Addr, b: Addr)
    requires Consistent(q, cw, ch, cl) && a in q.open && b in q.open
    requires a.k in cl && b.k in cl && 0 <= q.IdOf(a) < |cl[a.k].clump| && 0 <= q.IdOf(b) < |cl[b.k].clump|
    requires LabelOf(q, cl, a) == LabelOf(q, cl, b)
    ensures Connected(Edges(OpenCells(q)), Square(q.s, a), Square(q.s, b))
  {
    hide Clumped, Listing, OpenCells, Connected;
    ConsistentParts(q, cw, ch, cl);
    var n, n' := ClumpOf(q, a), ClumpOf(q, b);
    LabelDefined(q, cw, ch, cl, a);
    LabelDefined(q, cw, ch, cl, b);
    if IsEdgeClump(cl, n) && IsEdgeClump(cl, n') {
      assert ExactAt(ClumpEdges(cl), GlobalLabels(cl), n, n');
      ClumpGraphConnected(q, cw, ch, cl, a, b);
    } else if IsEdgeClump(cl, n) {
      assert false;
    } else if IsEdgeClump(cl, n') {
      assert false;
    } else {
      SameClumpConnected(q, cw, ch, cl, a, b);
    }
  }

  /**
   The connection query is exact: two open squares store the same global label
   if and only if a walk over open squares joins them.
   */
  lemma LabelsAreComponents(q: Squares, cw: int, ch: int, cl: imap<Pos, Cluster>, a: Addr, b: Addr)
    requires Consistent(q, cw, ch, cl) && a in q.open && b in q.open
    ensures a.k in cl && b.k in cl && 0 <= q.IdOf(a) < |cl[a.k].clump| && 0 <= q.IdOf(b) < |cl[b.k].clump|
    ensures LabelOf(q, cl, a) == LabelOf(q, cl, b) <==> Connected(Edges(OpenCells(q)), Square(q.s, a), Square(q.s, b))
  {
    hide Clumped, Listing, Consistent;
    ConsistentParts(q, cw, ch, cl);
    LabelDefined(q, cw, ch, cl, a);
    LabelDefined(q, cw, ch, cl, b);
    if LabelOf(q, cl, a) == LabelOf(q, cl, b) {
      SameLabelConnected(q, cw, ch, cl, a, b);
    }
    if Connected(Edges(OpenCells(q)), Square(q.s, a), Square(q.s, b)) {
      ConnectedSameLabel(q, cw, ch, cl, a, b);
    }
  }

  lemma ConnectedSameLabel(q: Squares, cw: int, ch: int, cl: imap<Pos, Cluster>, a: Addr, b: Addr)
    requires Consistent(q, cw, ch, cl) && a in q.open && b in q.open
    requires a.k in cl && b.k in cl && 0 <= q.IdOf(a) < |cl[a.k].clump| && 0 <= q.IdOf(b) < |cl[b.k].clump|
    requires Connected(Edges(OpenCells(q)), Square(q.s, a), Square(q.s, b))
    ensures LabelOf(q, cl, a) == LabelOf(q, cl, b)
  {
    hide Clumped, Listing, Consistent;
    ConsistentParts(q, cw, ch, cl);
    var O, E := OpenCells(q), Edges(OpenCells(q));
    forall c | c in O
      ensures AddrOf(q.s, c).k in cl && 0 <= q.IdOf(AddrOf(q.s, c)) < |cl[AddrOf(q.s, c).k].clump|
    {
      LabelDefined(q, cw, ch, cl, AddrOf(q.s, c));
    }
    var f := imap c | c in O :: LabelOf(q, cl, AddrOf(q.s, c));
    forall c, c' | (c, c') in E && c in f ensures c' in f && f[c] == f[c'] {
      NeighboursTouch(q.s, c, c');
      LabelsAcrossEdge(q, cw, ch, cl, AddrOf(q.s, c), AddrOf(q.s, c'));
    }
    InSquares(q, cw, ch, cl, a);
    InSquares(q, cw, ch, cl, b);
    ConstantOnConnected(E, f, Square(q.s, a), Square(q.s, b));
  }

  lemma InSquares(q: Squares, cw: int, ch: int, cl: imap<Pos, Cluster>, a: Addr)
    requires Clumped(q, cw, ch, cl) && a in q.open
    ensures AddrOf(q.s, Square(q.s, a)) == a && Square(q.s, a) in OpenCells(q)
  {
    AddrOfSquare(q.s, a);
  }
}
