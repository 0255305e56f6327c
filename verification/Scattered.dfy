/**
 Maps on which no two open squares are neighbours, the checkerboard above all:
 every open square is a component of its own, so whatever wrongly joins two
 clumps shows.
 */
module Scattered {
  import opened Paths
  import opened Sequences
  import opened Partitions
  import opened GridModel
  import opened GridState
  import opened Counting
  import opened LabelSpec
  import opened Adjacency
  import opened ClumpForest
  import opened GlobalPasses
  import opened Reachability
  import opened Leftovers

  ghost predicate Lonely(open: iset<Cell>) {
    forall a, b {:trigger Adjacent(a, b)} :: a in open && b in open ==> !Adjacent(a, b)
  }

  lemma LonelyConnected(open: iset<Cell>, a: Cell, b: Cell)
    requires Lonely(open) && Connected(Edges(open), a, b)
    ensures a == b
  {
    if a != b { FirstEdge(Edges(open), a, b); }
  }

  /** Two open squares have clumps with one label. */
  ghost predicate SameLabel(q: Squares, cl: imap<Pos, Cluster>, a: Addr, b: Addr) {
    && a.k in cl && 0 <= q.IdOf(a) < |cl[a.k].clump|
    && b.k in cl && 0 <= q.IdOf(b) < |cl[b.k].clump|
    && LabelOf(q, cl, a) == LabelOf(q, cl, b)
  }

  /** The labels answer every question about two open squares rightly. */
  ghost predicate LabelsRight(q: Squares, cl: imap<Pos, Cluster>) {
    forall a, b {:trigger SameLabel(q, cl, a, b)} :: a in q.open && b in q.open ==>
      (SameLabel(q, cl, a, b) <==> Connected(Edges(OpenCells(q)), Square(q.s, a), Square(q.s, b)))
  }

  /**
   On a map without neighbouring open squares the labels are right if and only if
   left-over lists join no two clumps of the map.
   */
  lemma RightIffSeparate(q: Squares, cw: int, ch: int, cl: imap<Pos, Cluster>)
    requires Listing(q, cw, ch, cl) && GloballyLabelled(cl) && Closed(cl) && Lonely(OpenCells(q))
    ensures LabelsRight(q, cl) <==> Separate(cw, ch, cl)
  {
    ListingClumped(q, cw, ch, cl);
    if Separate(cw, ch, cl) {
      SeparateRight(q, cw, ch, cl);
    } else {
      hide Listing, Clumped, GloballyLabelled, Closed, Lonely, LabelsRight;
      var n, n' :| InGrid(cw, ch, Home(n)) && InGrid(cw, ch, Home(n')) && Connected(StaleEdges(cw, ch, cl), n, n')
          && n != n';
      StaleChainWrong(q, cw, ch, cl, n, n');
    }
  }

  /** On every map. */
  lemma SeparateRight(q: Squares, cw: int, ch: int, cl: imap<Pos, Cluster>)
    requires Listing(q, cw, ch, cl) && GloballyLabelled(cl) && Separate(cw, ch, cl)
    ensures LabelsRight(q, cl)
  {
    hide Listing, GloballyLabelled, Separate, LabelOf, OpenCells, Square, Edges;
    forall a, b | a in q.open && b in q.open
      ensures SameLabel(q, cl, a, b) <==> Connected(Edges(OpenCells(q)), Square(q.s, a), Square(q.s, b))
    {
      LabelsAreComponents(q, cw, ch, cl, a, b);
    }
  }

  /** The end of a left-over link is an edge clump. */
  lemma StaleEnd(cw: int, ch: int, cl: imap<Pos, Cluster>, n: GlobalClumpId, n': GlobalClumpId)
    requires Closed(cl) && InGrid(cw, ch, Home(n)) && Connected(StaleEdges(cw, ch, cl), n, n') && n != n'
    ensures IsEdgeClump(cl, n)
  {
    FirstEdge(StaleEdges(cw, ch, cl), n, n');
    var m :| (n, m) in StaleEdges(cw, ch, cl);
    assert Listed(cl, m, n);
    var h :| HasEntry(cl, m, h) && Target(cl, m, h) == n;
  }

  /** Left-over lists that join two clumps of a map without neighbouring open squares give them one label. */
  lemma StaleChainWrong(q: Squares, cw: int, ch: int, cl: imap<Pos, Cluster>, n: GlobalClumpId, n': GlobalClumpId)
    requires Listing(q, cw, ch, cl) && GloballyLabelled(cl) && Closed(cl) && Lonely(OpenCells(q))
    requires InGrid(cw, ch, Home(n)) && InGrid(cw, ch, Home(n')) && n != n'
    requires Connected(StaleEdges(cw, ch, cl), n, n')
    ensures !LabelsRight(q, cl)
  {
    ListingClumped(q, cw, ch, cl);
    StaleEdgesSymmetric(cw, ch, cl);
    ConnectedSym(StaleEdges(cw, ch, cl), n, n');
    hide Listing, Clumped, Closed, Listed, Lonely;
    StaleEnd(cw, ch, cl, n, n');
    StaleEnd(cw, ch, cl, n', n);
    EdgeClumpHasMember(q, cw, ch, cl, n);
    EdgeClumpHasMember(q, cw, ch, cl, n');
    var a, b := Member(q, n), Member(q, n');
    assert forall e :: e in StaleEdges(cw, ch, cl) ==> e in ClumpEdges(cl);
    hide StaleEdges, ClumpEdges;
    ConnectedMore(StaleEdges(cw, ch, cl), ClumpEdges(cl), n, n');
    assert ExactAt(ClumpEdges(cl), GlobalLabels(cl), n, n');
    hide GloballyLabelled;
    LabelDefined(q, cw, ch, cl, a);
    LabelDefined(q, cw, ch, cl, b);
    assert SameLabel(q, cl, a, b);
    InSquares(q, cw, ch, cl, a);
    InSquares(q, cw, ch, cl, b);
    hide OpenCells, Square, AddrOf;
    if Connected(Edges(OpenCells(q)), Square(q.s, a), Square(q.s, b)) {
      LonelyConnected(OpenCells(q), Square(q.s, a), Square(q.s, b));
    }
  }

  /** Every second square of a map of w x h squares. */
  ghost function Checkerboard(w: int, h: int): iset<Cell> {
    iset c: Cell | 0 <= c.x < w && 0 <= c.y < h && (c.x + c.y) % 2 == 0
  }

  ghost function Checker(s: int): iset<Cell> { iset l: Cell | InBox(s, l) && (l.x + l.y) % 2 == 0 }

  lemma CheckerboardLonely(w: int, h: int)
    ensures Lonely(Checkerboard(w, h))
  {}

  lemma EvenBase(s: int, k: int)
    requires s % 2 == 0
    ensures (k * s) % 2 == 0
  {
    assert k * s == 2 * (k * (s / 2));
  }

  lemma CheckerAt(s: int, ox: int, oy: int, w: int, h: int, l: Cell)
    requires 0 <= ox && ox + s <= w && 0 <= oy && oy + s <= h && ox % 2 == 0 && oy % 2 == 0 && InBox(s, l)
    ensures Cell(ox + l.x, oy + l.y) in Checkerboard(w, h) <==> l in Checker(s)
  {}

  /** Every cluster of the checkerboard looks the same. */
  lemma LocalChecker(s: int, cw: int, ch: int, k: Pos)
    requires s > 0 && s % 2 == 0 && InGrid(cw, ch, k)
    ensures LocalMap(Checkerboard(cw * s, ch * s), s, k) == Checker(s)
  {
    BaseInRange(s, cw, k.cx);
    BaseInRange(s, ch, k.cy);
    EvenBase(s, k.cx);
    EvenBase(s, k.cy);
    hide Checkerboard;
    forall l | InBox(s, l)
      ensures Square(s, Addr(k, l)) in Checkerboard(cw * s, ch * s) <==> l in Checker(s)
    {
      CheckerAt(s, k.cx * s, k.cy * s, cw * s, ch * s, l);
    }
  }

  /** The border squares of the checkerboard in a cluster of side 2 * half: top, bottom, left and right. */
  function BorderSquare(half: int, i: int): Cell {
    if i < half then Cell(2 * i, 0)
    else if i < 2 * half then Cell(2 * (i - half) + 1, 2 * half - 1)
    else if i < 3 * half - 1 then Cell(0, 2 * (i - 2 * half) + 2)
    else Cell(2 * half - 1, 2 * (i - 3 * half + 1) + 1)
  }

  lemma BorderSquares(half: int, i: int)
    requires half >= 1 && 0 <= i < MaxEdgeClumps(2 * half)
    ensures var l := BorderSquare(half, i); l in Checker(2 * half) && OnBorder(2 * half, l)
    ensures forall j :: 0 <= j < i ==> BorderSquare(half, j) != BorderSquare(half, i)
  {}

  /** The checkerboard has as many edge clumps in a cluster as any map can have. */
  lemma CheckerTouchesIff(s: int, i: int)
    requires s >= 2 && s % 2 == 0
    ensures TouchesMoreThan(s, Checker(s), i) <==> 0 <= i < MaxEdgeClumps(s)
  {
    if 0 <= i < MaxEdgeClumps(s) {
      var half := s / 2;
      var p := seq(i + 1, j requires 0 <= j < i + 1 => BorderSquare(half, j));
      assert Lonely(Checker(s));
      hide Checker, BorderSquare;
      forall j | 0 <= j < |p| ensures p[j] in Checker(s) && InBox(s, p[j]) && OnBorder(s, p[j]) {
        BorderSquares(half, j);
        CheckerInBox(s, p[j]);
      }
      forall j, j' | 0 <= j < j' < |p| ensures p[j] != p[j'] && !Connected(Edges(Checker(s)), p[j], p[j']) {
        BorderSquares(half, j');
        if Connected(Edges(Checker(s)), p[j], p[j']) { LonelyConnected(Checker(s), p[j], p[j']); }
      }
      assert BorderRepresentatives(s, Checker(s), p);
    }
    TouchesBound(s, Checker(s), i);
  }

  lemma CheckerInBox(s: int, l: Cell)
    requires l in Checker(s)
    ensures InBox(s, l)
  {}

  lemma TouchesBound(s: int, L: iset<Cell>, i: int)
    requires s >= 2 && s % 2 == 0
    ensures TouchesMoreThan(s, L, i) ==> 0 <= i < MaxEdgeClumps(s)
  {
    if TouchesMoreThan(s, L, i) {
      var p: seq<Cell> :| |p| == i + 1 && BorderRepresentatives(s, L, p);
      BorderComponentsBound(s, L, p);
    }
  }

  /** Left-over lists in bounds for any map of a size are in bounds for its checkerboard. */
  lemma InBoundsOnCheckerboard(s: int, cw: int, ch: int, cl: imap<Pos, Cluster>, open: iset<Cell>)
    requires s >= 2 && s % 2 == 0 && InBounds(s, cw, ch, cl, open)
    ensures InBounds(s, cw, ch, cl, Checkerboard(cw * s, ch * s))
  {
    hide TouchesMoreThan, StaleLists, HasEntry, Target, IsEdgeClump, LocalMap, Checkerboard, Checker;
    forall n, h | HasEntry(cl, n, h) && !InGrid(cw, ch, Home(n)) && InGrid(cw, ch, Home(Target(cl, n, h)))
      ensures var n' := Target(cl, n, h);
              TouchesMoreThan(s, LocalMap(Checkerboard(cw * s, ch * s), s, Home(n')), n'.index)
    {
      var n' := Target(cl, n, h);
      TouchesBound(s, LocalMap(open, s, Home(n')), n'.index);
      LocalChecker(s, cw, ch, Home(n'));
      CheckerTouchesIff(s, n'.index);
    }
  }

  /** Two open squares whose labels have the same 32 bits. */
  ghost predicate SameLabelBits(q: Squares, cl: imap<Pos, Cluster>, a: Addr, b: Addr) {
    && a.k in cl && 0 <= q.IdOf(a) < |cl[a.k].clump|
    && b.k in cl && 0 <= q.IdOf(b) < |cl[b.k].clump|
    && Packed(LabelOf(q, cl, a)) == Packed(LabelOf(q, cl, b))
  }

  /** Interior clumps keep their own number as label; if the bits of two numbers agree, so do those of the labels. */
  lemma CutOffAlike(q: Squares, cw: int, ch: int, cl: imap<Pos, Cluster>, a: Addr, b: Addr)
    requires Consistent(q, cw, ch, cl) && a in q.open && b in q.open
    requires !IsEdgeClump(cl, ClumpOf(q, a)) && !IsEdgeClump(cl, ClumpOf(q, b))
    requires ClumpOf(q, a) != ClumpOf(q, b) && Packed(ClumpOf(q, a)) == Packed(ClumpOf(q, b))
    ensures SameLabelBits(q, cl, a, b) && !Connected(Edges(OpenCells(q)), Square(q.s, a), Square(q.s, b))
  {
    ConsistentParts(q, cw, ch, cl);
    hide Consistent, Clumped, Listing, IsEdgeClump, Packed, Separate, GloballyLabelled, OpenCells;
    LabelDefined(q, cw, ch, cl, a);
    LabelDefined(q, cw, ch, cl, b);
    LabelsAreComponents(q, cw, ch, cl, a, b);
  }

  /**
   A cluster with more than 4096 interior clumps has two squares that no walk joins
   and whose labels have the same bits.
   */
  lemma CrowdedCluster(q: Squares, cw: int, ch: int, cl: imap<Pos, Cluster>, k: Pos) returns (a: Addr, b: Addr)
    requires Consistent(q, cw, ch, cl) && InGrid(cw, ch, k) && k in cl
    requires cl[k].numClumps > cl[k].numEdgeClumps + 4096
    ensures a in q.open && b in q.open && a.k == b.k == k
    ensures SameLabelBits(q, cl, a, b) && !Connected(Edges(OpenCells(q)), Square(q.s, a), Square(q.s, b))
  {
    ConsistentParts(q, cw, ch, cl);
    ClumpedBounded(q, cw, ch, cl, k);
    hide Consistent, Listing, Separate, GloballyLabelled, OpenCells, Packed, Square;
    var m := cl[k].numEdgeClumps;
    a := ClumpMember(q, cw, ch, cl, k, m);
    b := ClumpMember(q, cw, ch, cl, k, m + 4096);
    SameBitsApart(m, k);
    CutOffAlike(q, cw, ch, cl, a, b);
  }

  lemma SameBitsApart(m: int, k: Pos)
    ensures Packed(ClumpId(m, k.cx, k.cy)) == Packed(ClumpId(m + 4096, k.cx, k.cy))
  {}

  lemma ClumpMember(q: Squares, cw: int, ch: int, cl: imap<Pos, Cluster>, k: Pos, m: int) returns (a: Addr)
    requires Clumped(q, cw, ch, cl) && InGrid(cw, ch, k) && 0 <= m < cl[k].numClumps
    ensures a.k == k && a in q.open && q.IdOf(a) == m
  {
    assert ClusterOk(q, k, cl[k]);
    var L, id := LocalOf(q, k), LocalIdsOf(q, k);
    assert HasClump(q.s, L, id, m);
    var l :| InBox(q.s, l) && l in L && id[l] == m;
    a := Addr(k, l);
  }

  /** The checkerboard inside a cluster, its border closed. */
  ghost function InnerChecker(s: int): iset<Cell> {
    iset l: Cell | InBox(s, l) && !OnBorder(s, l) && (l.x + l.y) % 2 == 0
  }

  /** Its squares, 46 from each of the first rows. */
  function InnerSquare(i: int): Cell {
    var y := 1 + i / 46;
    Cell(1 + 2 * (i % 46) + (1 + y) % 2, y)
  }

  lemma InnerSquares(s: int, i: int, j: int)
    requires s >= 94 && 0 <= i < 4097 && 0 <= j < 4097
    ensures InnerSquare(i) in InnerChecker(s)
    ensures InnerSquare(i) == InnerSquare(j) ==> i == j
  {
    assert i / 46 <= 89;
    if InnerSquare(i) == InnerSquare(j) { SameQuotient(46, i / 46, i % 46, j / 46, j % 46); }
  }

  lemma SomeEdgeMember(s: int, L: iset<Cell>, id: imap<Cell, int>, numEdge: int, numClumps: int)
    requires LabelsOk(s, L, id, numEdge, numClumps)
    ensures numEdge > 0 ==> exists l {:trigger OnBorder(s, l)} :: l in L && OnBorder(s, l)
  {
    if numEdge > 0 {
      assert HasEdgeClump(s, L, id, 0);
      var l := EdgeMember(s, L, id, 0);
    }
  }

  /** From a side of 94 on, and so from 128 on among powers of two, that map has more clumps than 12 bits can number. */
  lemma InnerCheckerCrowds(s: int, id: imap<Cell, int>, numEdge: int, numClumps: int)
    requires s >= 94 && LabelsOk(s, InnerChecker(s), id, numEdge, numClumps)
    ensures numEdge == 0 && numClumps > 4096
  {
    var L := InnerChecker(s);
    SomeEdgeMember(s, L, id, numEdge, numClumps);
    var ids := seq(4097, i requires 0 <= i < 4097 => id[InnerCell(s, i)]);
    assert Lonely(L);
    forall i | 0 <= i < |ids| ensures 0 <= ids[i] < numClumps { InnerSquares(s, i, i); }
    forall i, j | 0 <= i < j < |ids| ensures ids[i] != ids[j] {
      InnerSquares(s, i, j);
      InnerSquares(s, j, i);
      if ids[i] == ids[j] { LonelyConnected(L, InnerSquare(i), InnerSquare(j)); }
    }
    Pigeonhole(ids, numClumps);
  }

  ghost function InnerCell(s: int, i: int): (l: Cell)
    requires s >= 94 && 0 <= i < 4097
    ensures l == InnerSquare(i) && InBox(s, l)
  {
    InnerSquares(s, i, i);
    InnerSquare(i)
  }
}
