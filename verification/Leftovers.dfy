/**
 The cluster records beyond the current map. stbcc_init_grid does not write
 them, but the global passes read every record there is memory for.
 */
module Leftovers {
  import opened Paths
  import opened Sequences
  import opened GridModel
  import opened GridState
  import opened Counting
  import opened LabelSpec
  import opened ClusterStore
  import opened Adjacency
  import opened Rebuild
  import opened ClumpForest
  import opened GlobalPasses
  import opened Reachability

  /** The records beyond the map have their compile-time sizes, and their lists lie in their pools. */
  ghost predicate StaleLists(s: int, cw: int, ch: int, cl: imap<Pos, Cluster>) {
    && (forall k {:trigger cl[k]} :: k in cl && !InGrid(cw, ch, k) ==>
          Sized(s, cl[k]) && 0 <= cl[k].numEdgeClumps <= MaxClumps(s))
    && forall n {:trigger IsEdgeClump(cl, n)} :: IsEdgeClump(cl, n) && !InGrid(cw, ch, Home(n)) ==>
         SliceOk(cl[Home(n)], n.index)
  }

  /** Left-over lists name clumps of left-over records only. */
  ghost predicate Apart(s: int, cw: int, ch: int, cl: imap<Pos, Cluster>) {
    && StaleLists(s, cw, ch, cl)
    && forall n, h {:trigger HasEntry(cl, n, h)} :: HasEntry(cl, n, h) && !InGrid(cw, ch, Home(n)) ==>
         IsEdgeClump(cl, Target(cl, n, h)) && !InGrid(cw, ch, Home(Target(cl, n, h)))
  }

  /** Zeroed records are apart from every map. */
  lemma ZeroedApart(s: int, cw: int, ch: int, cl: imap<Pos, Cluster>)
    requires forall k {:trigger cl[k]} :: k in cl && !InGrid(cw, ch, k) ==> Sized(s, cl[k]) && cl[k].numEdgeClumps == 0
    requires s >= 0
    ensures Apart(s, cw, ch, cl)
  {
    MulMono(0, s, s);
  }

  /** More than i components of open squares touch the border of a cluster. */
  ghost predicate TouchesMoreThan(s: int, L: iset<Cell>, i: int) {
    i >= 0 && exists p: seq<Cell> :: |p| == i + 1 && BorderRepresentatives(s, L, p)
  }

  ghost predicate BorderRepresentatives(s: int, L: iset<Cell>, p: seq<Cell>) {
    Representatives(s, L, p) && forall j :: 0 <= j < |p| ==> OnBorder(s, p[j])
  }

  /** The part of a map that lies in cluster k, by offsets. */
  ghost function LocalMap(open: iset<Cell>, s: int, k: Pos): iset<Cell> {
    iset l: Cell | InBox(s, l) && Square(s, Addr(k, l)) in open
  }

  /** Once the map `open` is in place, every left-over list names edge clumps that exist. */
  ghost predicate InBounds(s: int, cw: int, ch: int, cl: imap<Pos, Cluster>, open: iset<Cell>) {
    && StaleLists(s, cw, ch, cl)
    && forall n, h {:trigger HasEntry(cl, n, h)} :: HasEntry(cl, n, h) && !InGrid(cw, ch, Home(n)) ==>
         var n' := Target(cl, n, h);
         if InGrid(cw, ch, Home(n')) then TouchesMoreThan(s, LocalMap(open, s, Home(n')), n'.index)
         else IsEdgeClump(cl, n')
  }

  lemma ApartInBounds(s: int, cw: int, ch: int, cl: imap<Pos, Cluster>, open: iset<Cell>)
    requires Apart(s, cw, ch, cl)
    ensures InBounds(s, cw, ch, cl, open)
  {}

  /** Left-over lists are in bounds for every map of a size exactly if they name no clump of it. */
  lemma InBoundsForAllIffApart(s: int, cw: int, ch: int, cl: imap<Pos, Cluster>)
    ensures (forall open {:trigger InBounds(s, cw, ch, cl, open)} :: InBounds(s, cw, ch, cl, open)) <==>
            Apart(s, cw, ch, cl)
  {
    if Apart(s, cw, ch, cl) {
      forall open ensures InBounds(s, cw, ch, cl, open) { ApartInBounds(s, cw, ch, cl, open); }
    } else if InBounds(s, cw, ch, cl, iset{}) {
      var n, h :| HasEntry(cl, n, h) && !InGrid(cw, ch, Home(n))
                  && !(IsEdgeClump(cl, Target(cl, n, h)) && !InGrid(cw, ch, Home(Target(cl, n, h))));
      var n' := Target(cl, n, h);
      assert TouchesMoreThan(s, LocalMap(iset{}, s, Home(n')), n'.index);
      NothingTouches(s, LocalMap(iset{}, s, Home(n')), n'.index);
    }
  }

  lemma NothingTouches(s: int, L: iset<Cell>, i: int)
    requires forall l :: l !in L
    ensures !TouchesMoreThan(s, L, i)
  {
    if TouchesMoreThan(s, L, i) {
      var p: seq<Cell> :| |p| == i + 1 && BorderRepresentatives(s, L, p);
      FirstOpen(s, L, p);
    }
  }

  lemma FirstOpen(s: int, L: iset<Cell>, p: seq<Cell>)
    requires BorderRepresentatives(s, L, p) && |p| > 0
    ensures p[0] in L
  {}

  /** A cluster's edge clumps are as many as the components that touch its border. */
  lemma EdgeClumpIff(s: int, L: iset<Cell>, id: imap<Cell, int>, numEdge: int, numClumps: int, i: int)
    requires LabelsOk(s, L, id, numEdge, numClumps)
    ensures 0 <= i < numEdge <==> TouchesMoreThan(s, L, i)
  {
    if 0 <= i < numEdge { MembersTouch(s, L, id, numEdge, numClumps, i); }
    if TouchesMoreThan(s, L, i) {
      var p: seq<Cell> :| |p| == i + 1 && BorderRepresentatives(s, L, p);
      var ids := seq(|p|, j requires 0 <= j < |p| => id[p[j]]);
      forall j | 0 <= j < |ids| ensures 0 <= ids[j] < numEdge { assert p[j] in L && OnBorder(s, p[j]); }
      forall j, j' | 0 <= j < j' < |ids| ensures ids[j] != ids[j'] { assert !Connected(Edges(L), p[j], p[j']); }
      Pigeonhole(ids, numEdge);
    }
  }

  ghost function EdgeMember(s: int, L: iset<Cell>, id: imap<Cell, int>, c: int): (l: Cell)
    requires id.Keys == Box(s) && HasEdgeClump(s, L, id, c)
    ensures InBox(s, l) && l in L && OnBorder(s, l) && id[l] == c
  {
    var l :| InBox(s, l) && l in L && OnBorder(s, l) && id[l] == c;
    l
  }

  lemma MembersTouch(s: int, L: iset<Cell>, id: imap<Cell, int>, numEdge: int, numClumps: int, i: int)
    requires LabelsOk(s, L, id, numEdge, numClumps) && 0 <= i < numEdge
    ensures TouchesMoreThan(s, L, i)
  {
    var p := seq(i + 1, c requires 0 <= c < i + 1 => assert HasEdgeClump(s, L, id, c); EdgeMember(s, L, id, c));
    forall j, j' | 0 <= j < j' < |p| ensures p[j] != p[j'] && !Connected(Edges(L), p[j], p[j']) {
      assert id[p[j]] == j && id[p[j']] == j';
    }
    assert BorderRepresentatives(s, L, p);
  }

  /** What happens to the map keeps the left-over records but for labels. */
  ghost predicate BeyondKept(cw: int, ch: int, cl: imap<Pos, Cluster>, cl': imap<Pos, Cluster>) {
    cl.Keys == cl'.Keys && forall k {:trigger cl'[k]} :: k in cl && !InGrid(cw, ch, k) ==> SameButLabels(cl[k], cl'[k])
  }

  lemma BeyondRefl(cw: int, ch: int, cl: imap<Pos, Cluster>)
    ensures BeyondKept(cw, ch, cl, cl)
  {}

  lemma BeyondTrans(cw: int, ch: int, cl: imap<Pos, Cluster>, cl': imap<Pos, Cluster>, cl'': imap<Pos, Cluster>)
    requires BeyondKept(cw, ch, cl, cl') && BeyondKept(cw, ch, cl', cl'')
    ensures BeyondKept(cw, ch, cl, cl'')
  {
    forall k | k in cl && !InGrid(cw, ch, k) ensures SameButLabels(cl[k], cl''[k]) {
      assert SameButLabels(cl[k], cl'[k]) && SameButLabels(cl'[k], cl''[k]);
    }
  }

  /** One record of the map is replaced. */
  lemma BeyondUpdate(cw: int, ch: int, cl: imap<Pos, Cluster>, k: Pos, c: Cluster)
    requires InGrid(cw, ch, k) && k in cl
    ensures BeyondKept(cw, ch, cl, cl[k := c])
  {}

  lemma BeyondRelabelled(cw: int, ch: int, cl: imap<Pos, Cluster>, cl': imap<Pos, Cluster>)
    requires LabelsChanged(cl, cl')
    ensures BeyondKept(cw, ch, cl, cl')
  {}

  /** Left-over records keep their links. */
  lemma BeyondNode(cw: int, ch: int, cl: imap<Pos, Cluster>, cl': imap<Pos, Cluster>, n: GlobalClumpId)
    requires BeyondKept(cw, ch, cl, cl') && !InGrid(cw, ch, Home(n))
    ensures IsEdgeClump(cl', n) <==> IsEdgeClump(cl, n)
    ensures IsEdgeClump(cl, n) ==> (SliceOk(cl'[Home(n)], n.index) <==> SliceOk(cl[Home(n)], n.index))
    ensures forall h {:trigger HasEntry(cl', n, h)} {:trigger HasEntry(cl, n, h)} ::
              && (HasEntry(cl', n, h) <==> HasEntry(cl, n, h))
              && (HasEntry(cl, n, h) ==> Target(cl', n, h) == Target(cl, n, h))
    ensures forall n' :: Listed(cl', n, n') <==> Listed(cl, n, n')
  {
    if Home(n) in cl { assert SameButLabels(cl[Home(n)], cl'[Home(n)]); }
    forall h ensures HasEntry(cl', n, h) <==> HasEntry(cl, n, h)
      ensures HasEntry(cl, n, h) ==> Target(cl', n, h) == Target(cl, n, h)
    {}
    forall n' ensures Listed(cl', n, n') <==> Listed(cl, n, n') {
      if Listed(cl, n, n') {
        var h :| HasEntry(cl, n, h) && Target(cl, n, h) == n';
        assert HasEntry(cl', n, h) && Target(cl', n, h) == n';
      }
      if Listed(cl', n, n') {
        var h :| HasEntry(cl', n, h) && Target(cl', n, h) == n';
        assert HasEntry(cl, n, h) && Target(cl, n, h) == n';
      }
    }
  }

  lemma StaleListsKept(s: int, cw: int, ch: int, cl: imap<Pos, Cluster>, cl': imap<Pos, Cluster>)
    requires BeyondKept(cw, ch, cl, cl') && StaleLists(s, cw, ch, cl)
    ensures StaleLists(s, cw, ch, cl')
  {
    forall k | k in cl' && !InGrid(cw, ch, k)
      ensures Sized(s, cl'[k]) && 0 <= cl'[k].numEdgeClumps <= MaxClumps(s)
    {
      assert SameButLabels(cl[k], cl'[k]);
    }
    hide BeyondKept, SliceOk;
    forall n | IsEdgeClump(cl', n) && !InGrid(cw, ch, Home(n)) ensures SliceOk(cl'[Home(n)], n.index) {
      BeyondNode(cw, ch, cl, cl', n);
    }
  }

  lemma ApartKept(s: int, cw: int, ch: int, cl: imap<Pos, Cluster>, cl': imap<Pos, Cluster>)
    requires BeyondKept(cw, ch, cl, cl') && Apart(s, cw, ch, cl)
    ensures Apart(s, cw, ch, cl')
  {
    StaleListsKept(s, cw, ch, cl, cl');
    hide BeyondKept, StaleLists, HasEntry, IsEdgeClump, Target;
    forall n, h | HasEntry(cl', n, h) && !InGrid(cw, ch, Home(n))
      ensures IsEdgeClump(cl', Target(cl', n, h)) && !InGrid(cw, ch, Home(Target(cl', n, h)))
    {
      BeyondNode(cw, ch, cl, cl', n);
      BeyondNode(cw, ch, cl, cl', Target(cl, n, h));
    }
  }

  lemma InBoundsKept(s: int, cw: int, ch: int, cl: imap<Pos, Cluster>, cl': imap<Pos, Cluster>, open: iset<Cell>)
    requires BeyondKept(cw, ch, cl, cl') && InBounds(s, cw, ch, cl, open)
    ensures InBounds(s, cw, ch, cl', open)
  {
    StaleListsKept(s, cw, ch, cl, cl');
    hide BeyondKept, StaleLists, HasEntry, IsEdgeClump, Target, TouchesMoreThan;
    forall n, h | HasEntry(cl', n, h) && !InGrid(cw, ch, Home(n))
      ensures var n' := Target(cl', n, h);
              if InGrid(cw, ch, Home(n')) then TouchesMoreThan(s, LocalMap(open, s, Home(n')), n'.index)
              else IsEdgeClump(cl', n')
    {
      BeyondNode(cw, ch, cl, cl', n);
      var n' := Target(cl, n, h);
      if !InGrid(cw, ch, Home(n')) { BeyondNode(cw, ch, cl, cl', n'); }
    }
  }

  lemma StaleEdgesKept(cw: int, ch: int, cl: imap<Pos, Cluster>, cl': imap<Pos, Cluster>)
    requires BeyondKept(cw, ch, cl, cl')
    ensures StaleEdges(cw, ch, cl') == StaleEdges(cw, ch, cl)
    ensures Separate(cw, ch, cl') <==> Separate(cw, ch, cl)
  {
    hide BeyondKept, Listed;
    forall n, n' ensures StaleLink(cw, ch, cl', n, n') <==> StaleLink(cw, ch, cl, n, n') {
      if !InGrid(cw, ch, Home(n)) { BeyondNode(cw, ch, cl, cl', n); }
    }
    assert StaleEdges(cw, ch, cl') == StaleEdges(cw, ch, cl);
  }

  /** Lists that name no clump of the map join none. */
  lemma ApartSeparate(s: int, cw: int, ch: int, cl: imap<Pos, Cluster>)
    requires Apart(s, cw, ch, cl)
    ensures Separate(cw, ch, cl)
  {
    var S := StaleEdges(cw, ch, cl);
    forall n, n' | (n, n') in S ensures !InGrid(cw, ch, Home(n)) {
      if StaleLink(cw, ch, cl, n', n) {
        var h :| HasEntry(cl, n', h) && Target(cl, n', h) == n;
      }
    }
    hide StaleEdges, Apart;
    forall n, n' | InGrid(cw, ch, Home(n)) && InGrid(cw, ch, Home(n')) && Connected(S, n, n') ensures n == n' {
      if n != n' { FirstEdge(S, n, n'); }
    }
  }

  /** With the map's lists up to date and the left-over ones in bounds, the global passes stay on edge clumps. */
  lemma ListsClosed(q: Squares, cw: int, ch: int, cl: imap<Pos, Cluster>, open: iset<Cell>)
    requires Listing(q, cw, ch, cl) && InBounds(q.s, cw, ch, cl, open)
    requires forall k {:trigger LocalOf(q, k)} :: InGrid(cw, ch, k) ==> LocalOf(q, k) == LocalMap(open, q.s, k)
    ensures Closed(cl) && Bounded(cl)
  {
    ListingClumped(q, cw, ch, cl);
    hide Clumped, LabelsOk, Listing, LocalMap, LocalOf, TouchesMoreThan, Target, HasEntry;
    forall k | k in cl ensures 0 <= cl[k].numEdgeClumps <= |cl[k].clump| {
      if InGrid(cw, ch, k) { ClumpedBounded(q, cw, ch, cl, k); }
    }
    forall n | IsEdgeClump(cl, n) ensures SliceOk(cl[Home(n)], n.index) {
      if InGrid(cw, ch, Home(n)) { ListedSlice(q, cw, ch, cl, n); }
    }
    forall n, h | HasEntry(cl, n, h) ensures IsEdgeClump(cl, Target(cl, n, h)) {
      if InGrid(cw, ch, Home(n)) {
        var d, t := EntryMeaning(q, cw, ch, cl, n, h);
      } else if InGrid(cw, ch, Home(Target(cl, n, h))) {
        EdgeClumpThere(q, cw, ch, cl, Target(cl, n, h));
      }
    }
  }

  lemma ListedSlice(q: Squares, cw: int, ch: int, cl: imap<Pos, Cluster>, n: GlobalClumpId)
    requires Listing(q, cw, ch, cl) && IsEdgeClump(cl, n) && InGrid(cw, ch, Home(n))
    ensures SliceOk(cl[Home(n)], n.index)
  {
    assert Complete(q, Home(n), cl[Home(n)]);
  }

  lemma EdgeClumpThere(q: Squares, cw: int, ch: int, cl: imap<Pos, Cluster>, n: GlobalClumpId)
    requires Clumped(q, cw, ch, cl) && InGrid(cw, ch, Home(n))
    ensures IsEdgeClump(cl, n) <==> TouchesMoreThan(q.s, LocalOf(q, Home(n)), n.index)
  {
    var k := Home(n);
    ClumpedBounded(q, cw, ch, cl, k);
    assert ClusterOk(q, k, cl[k]);
    hide LabelsOk, TouchesMoreThan;
    EdgeClumpIff(q.s, LocalOf(q, k), LocalIdsOf(q, k), cl[k].numEdgeClumps, cl[k].numClumps, n.index);
  }
}
