/** In every valid state each number stored in the grid fits the byte or bit field it is kept in. */
module FieldWidths {
  import opened GridModel
  import opened GridState
  import opened LabelSpec
  import opened Adjacency
  import opened Connections
  import opened Rebuild
  import opened ClumpForest
  import opened GlobalPasses
  import opened Reachability
  import opened Leftovers
  import opened LabelBits
  import opened GridMap

  /** An entry fits 12 bits and twice 2 bits with sign. */
  predicate EntryFits(r: RelativeClumpId) {
    0 <= r.index < 4096 && -2 <= r.dx <= 1 && -2 <= r.dy <= 1
  }

  /** The bytes of edge clump m and the entries of its list. */
  ghost predicate ListFits(c: Cluster, m: int) {
    && SliceOk(c, m) && FitsBytes(c, m) && c.clump[m].numAdjacent < 256
    && forall r {:trigger r in Entries(c, m)} :: r in Entries(c, m) ==> EntryFits(r)
  }

  /** The counters of a record, a short and a byte, and its lists. */
  ghost predicate RecordFits(c: Cluster) {
    && 0 <= c.numEdgeClumps < 256 && c.numEdgeClumps <= c.numClumps < 0x8000
    && forall m {:trigger ListFits(c, m)} :: 0 <= m < c.numEdgeClumps ==> ListFits(c, m)
  }

  /** The labels of all clumps of a record. */
  ghost predicate LabelsShort(c: Cluster) {
    forall m {:trigger c.clump[m]} :: 0 <= m < c.numClumps <= |c.clump| ==> FitsFields(c.clump[m].globalLabel)
  }

  lemma EntriesFit(q: Squares, cw: int, ch: int, cl: imap<Pos, Cluster>, n: GlobalClumpId, r: RelativeClumpId)
    requires Listing(q, cw, ch, cl) && IsEdgeClump(cl, n) && InGrid(cw, ch, Home(n)) && q.s <= 64
    requires SliceOk(cl[Home(n)], n.index) && r in Entries(cl[Home(n)], n.index)
    ensures EntryFits(r)
  {
    var e := Entries(cl[Home(n)], n.index);
    var h :| 0 <= h < |e| && e[h] == r;
    assert HasEntry(cl, n, h) && Target(cl, n, h) == ClumpId(r.index, n.cx + r.dx, n.cy + r.dy);
    ListingClumped(q, cw, ch, cl);
    hide Listing, HasEntry, Target, IsEdgeClump, Clumped;
    var d, t := EntryMeaning(q, cw, ch, cl, n, h);
    EdgeClumpsFew(q, cw, ch, cl, Target(cl, n, h));
  }

  lemma EdgeClumpsFew(q: Squares, cw: int, ch: int, cl: imap<Pos, Cluster>, n: GlobalClumpId)
    requires Clumped(q, cw, ch, cl) && IsEdgeClump(cl, n) && InGrid(cw, ch, Home(n)) && q.s <= 64
    ensures 0 <= n.index < cl[Home(n)].numEdgeClumps <= 126
  {
    assert ClusterOk(q, Home(n), cl[Home(n)]);
  }

  lemma RecordOk(q: Squares, cw: int, ch: int, cl: imap<Pos, Cluster>, k: Pos)
    requires Listing(q, cw, ch, cl) && InGrid(cw, ch, k) && q.s <= 64
    ensures k in cl && RecordFits(cl[k])
  {
    ListingClumped(q, cw, ch, cl);
    ClumpedBounded(q, cw, ch, cl, k);
    MulMono(q.s, 64, q.s);
    MulMono(q.s, 64, 64);
    var c := cl[k];
    assert ClusterOk(q, k, c) && Complete(q, k, c);
    SlicesFitBytes(q.s, c);
    hide LabelsOk, Wanted, Clumped, Listing, ListOk, MaxClumps, FitsBytes;
    forall m | 0 <= m < c.numEdgeClumps ensures ListFits(c, m) {
      assert SliceOk(c, m);
      assert FitsBytes(c, m);
      ByteCount(c, m);
      forall r | r in Entries(c, m) ensures EntryFits(r) { EntriesFit(q, cw, ch, cl, ClumpId(m, k.cx, k.cy), r); }
    }
  }

  lemma ByteCount(c: Cluster, m: int)
    requires SliceOk(c, m) && FitsBytes(c, m)
    ensures c.clump[m].numAdjacent < 256
  {}

  /** Clump ids are shorts without sign, counters and places bytes, entries and labels bit fields: everything fits. */
  lemma StoredFieldsFit(g: Grid, k: Pos)
    requires Valid(g) && g.HasPos(k)
    ensures k in g.Clusters() && RecordFits(g.Clusters()[k])
    ensures !g.inBatchedUpdate ==> LabelsShort(g.Clusters()[k])
    ensures forall l {:trigger g.LocalIds(k)[l]} :: InBox(g.size, l) ==> 0 <= g.LocalIds(k)[l] < 0x1_0000
    ensures var c := g.Clusters()[k];
            && 0 <= c.numEdgeClumps < 256 && c.numEdgeClumps <= c.numClumps < 0x8000
            && c.numEdgeClumps <= |c.clump|
            && forall m {:trigger c.clump[m]} :: 0 <= m < c.numEdgeClumps ==>
                 && 0 <= c.clump[m].listIndex < 256 && 0 <= c.clump[m].maxAdjacent < 256
                 && 0 <= c.clump[m].numAdjacent < 256
    ensures !g.inBatchedUpdate ==>
              var c := g.Clusters()[k];
              forall m {:trigger c.clump[m]} :: 0 <= m < c.numClumps <= |c.clump| ==>
                && 0 <= c.clump[m].globalLabel.index < 4096
                && 0 <= c.clump[m].globalLabel.cx < 1024 && 0 <= c.clump[m].globalLabel.cy < 1024
  {
    hide Listing, GloballyLabelled, Apart, Grid.Clusters, SquaresOf, RecordFits, LabelsShort;
    RecordOk(SquaresOf(g), g.cw, g.ch, g.Clusters(), k);
    if !g.inBatchedUpdate {
      LabelsFitRecord(g, k);
      LabelNumbers(g.Clusters()[k]);
    }
    IdsFit(g, k);
    RecordNumbers(g.Clusters()[k]);
  }

  lemma RecordNumbers(c: Cluster)
    requires RecordFits(c)
    ensures 0 <= c.numEdgeClumps < 256 && c.numEdgeClumps <= c.numClumps < 0x8000 && c.numEdgeClumps <= |c.clump|
    ensures forall m {:trigger c.clump[m]} :: 0 <= m < c.numEdgeClumps ==>
              && 0 <= c.clump[m].listIndex < 256 && 0 <= c.clump[m].maxAdjacent < 256
              && 0 <= c.clump[m].numAdjacent < 256
  {
    if c.numEdgeClumps > 0 { assert ListFits(c, c.numEdgeClumps - 1); }
    forall m {:trigger c.clump[m]} | 0 <= m < c.numEdgeClumps
      ensures
        && 0 <= c.clump[m].listIndex < 256 && 0 <= c.clump[m].maxAdjacent < 256
        && 0 <= c.clump[m].numAdjacent < 256
    {
      assert ListFits(c, m);
    }
  }

  lemma LabelNumbers(c: Cluster)
    requires LabelsShort(c)
    ensures forall m {:trigger c.clump[m]} :: 0 <= m < c.numClumps <= |c.clump| ==>
              && 0 <= c.clump[m].globalLabel.index < 4096
              && 0 <= c.clump[m].globalLabel.cx < 1024 && 0 <= c.clump[m].globalLabel.cy < 1024
  {}

  lemma IdsFit(g: Grid, k: Pos)
    requires Valid(g) && g.HasPos(k)
    ensures forall l {:trigger g.LocalIds(k)[l]} :: InBox(g.size, l) ==> 0 <= g.LocalIds(k)[l] < 0x1_0000
  {
    var q, cl := SquaresOf(g), g.Clusters();
    ListingClumped(q, g.cw, g.ch, cl);
    assert ClusterOk(q, k, cl[k]);
    LocalViews(g, k);
    SizesFitFields(g.size, g.countX, g.countY);
    hide Clumped, Apart, Grid.LocalIds, LocalIdsOf, LocalOf, MaxClumps;
  }

  lemma LabelsFitRecord(g: Grid, k: Pos)
    requires Valid(g) && !g.inBatchedUpdate && g.HasPos(k)
    ensures k in g.Clusters() && LabelsShort(g.Clusters()[k])
  {
    var q, cl := SquaresOf(g), g.Clusters();
    ListingClumped(q, g.cw, g.ch, cl);
    ApartStaleLists(g.size, g.cw, g.ch, cl);
    assert ClusterOk(q, k, cl[k]);
    SizesFitFields(g.size, g.countX, g.countY);
    hide Listing, Apart, LabelsOk, MaxClumps, Clumped, StaleLists;
    var c := cl[k];
    forall m | 0 <= m < c.numClumps <= |c.clump| ensures FitsFields(c.clump[m].globalLabel) {
      if m < c.numEdgeClumps {
        var n := ClumpId(m, k.cx, k.cy);
        assert IsEdgeClump(cl, n) && n in GlobalLabels(cl);
        assert GlobalLabels(cl)[n] in GlobalLabels(cl);
        EdgeClumpIsLabel(g, q, cl, c.clump[m].globalLabel);
      }
    }
  }
}
