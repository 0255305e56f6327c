/** stbcc__clump_find, stbcc__clump_union and the three passes that label the edge clumps globally. */
module ClumpForest {
  import opened Forests
  import opened GridModel
  import opened GridState
  import opened ClusterStore
  import opened Adjacency

  ghost function Home(n: GlobalClumpId): Pos { Pos(n.cx, n.cy) }

  /** n names an edge clump of the grid. */
  ghost predicate IsEdgeClump(cl: imap<Pos, Cluster>, n: GlobalClumpId) {
    Home(n) in cl && 0 <= n.index < cl[Home(n)].numEdgeClumps <= |cl[Home(n)].clump|
  }

  /** Every edge clump's name fits the bit fields of a label. */
  ghost predicate LabelsFit(cl: imap<Pos, Cluster>) {
    forall n {:trigger IsEdgeClump(cl, n)} :: IsEdgeClump(cl, n) ==> FitsFields(n)
  }

  ghost function EdgeClumps(cl: imap<Pos, Cluster>): iset<GlobalClumpId> {
    iset n: GlobalClumpId | IsEdgeClump(cl, n)
  }

  /** The global labels of the edge clumps, read as parent pointers. */
  ghost function GlobalLabels(cl: imap<Pos, Cluster>): imap<GlobalClumpId, GlobalClumpId> {
    imap n: GlobalClumpId | IsEdgeClump(cl, n) :: cl[Home(n)].clump[n.index].globalLabel
  }

  /** The clump the h-th entry of n's adjacency list names. */
  ghost function Target(cl: imap<Pos, Cluster>, n: GlobalClumpId, h: int): GlobalClumpId
    requires HasEntry(cl, n, h)
  {
    var c := cl[Home(n)];
    var r := c.storage[c.clump[n.index].listIndex + h];
    ClumpId(r.index, n.cx + r.dx, n.cy + r.dy)
  }

  ghost predicate HasEntry(cl: imap<Pos, Cluster>, n: GlobalClumpId, h: int) {
    IsEdgeClump(cl, n) && SliceOk(cl[Home(n)], n.index) && 0 <= h < cl[Home(n)].clump[n.index].numAdjacent
  }

  /** All lists are in bounds and name edge clumps only. */
  ghost predicate Closed(cl: imap<Pos, Cluster>) {
    && (forall n {:trigger IsEdgeClump(cl, n)} :: IsEdgeClump(cl, n) ==> SliceOk(cl[Home(n)], n.index))
    && forall n, h {:trigger Target(cl, n, h)} :: HasEntry(cl, n, h) ==> IsEdgeClump(cl, Target(cl, n, h))
  }

  /** The graph the adjacency lists describe. */
  ghost function ClumpEdges(cl: imap<Pos, Cluster>): iset<(GlobalClumpId, GlobalClumpId)> {
    iset e: (GlobalClumpId, GlobalClumpId) | Listed(cl, e.0, e.1) || Listed(cl, e.1, e.0)
  }

  ghost predicate Listed(cl: imap<Pos, Cluster>, n: GlobalClumpId, n': GlobalClumpId) {
    exists h {:trigger Target(cl, n, h)} :: HasEntry(cl, n, h) && Target(cl, n, h) == n'
  }

  /** c' is c with other labels on its edge clumps. */
  ghost predicate SameButLabels(c: Cluster, c': Cluster) {
    && c.numClumps == c'.numClumps && c.numEdgeClumps == c'.numEdgeClumps
    && c.rebuildAdjacency == c'.rebuildAdjacency && c.storage == c'.storage && |c.clump| == |c'.clump|
    && forall m {:trigger c'.clump[m]} :: 0 <= m < |c.clump| ==>
         if m < c.numEdgeClumps then c'.clump[m] == c.clump[m].(globalLabel := c'.clump[m].globalLabel)
             else c'.clump[m] == c.clump[m]
  }

  ghost predicate LabelsChanged(cl: imap<Pos, Cluster>, cl': imap<Pos, Cluster>) {
    cl.Keys == cl'.Keys && forall k {:trigger cl'[k]} :: k in cl ==> SameButLabels(cl[k], cl'[k])
  }

  ghost function WithLabel(cl: imap<Pos, Cluster>, n: GlobalClumpId, q: GlobalClumpId): imap<Pos, Cluster>
    requires IsEdgeClump(cl, n)
  {
    var c := cl[Home(n)];
    cl[Home(n) := c.(clump := c.clump[n.index := c.clump[n.index].(globalLabel := q)])]
  }

  lemma WithLabelEffect(cl: imap<Pos, Cluster>, n: GlobalClumpId, q: GlobalClumpId)
    requires IsEdgeClump(cl, n)
    ensures GlobalLabels(WithLabel(cl, n, q)) == GlobalLabels(cl)[n := q]
    ensures LabelsChanged(cl, WithLabel(cl, n, q))
  {
    WithLabelRead(cl, n, q);
    assert SameButLabels(cl[Home(n)], WithLabel(cl, n, q)[Home(n)]);
    hide GlobalLabels, IsEdgeClump;
  }

  lemma WithLabelRead(cl: imap<Pos, Cluster>, n: GlobalClumpId, q: GlobalClumpId)
    requires IsEdgeClump(cl, n)
    ensures GlobalLabels(WithLabel(cl, n, q)) == GlobalLabels(cl)[n := q]
  {
    forall n' ensures IsEdgeClump(WithLabel(cl, n, q), n') <==> IsEdgeClump(cl, n') {}
  }

  lemma LabelsChangedRefl(cl: imap<Pos, Cluster>)
    ensures LabelsChanged(cl, cl)
  {}

  lemma LabelsChangedTrans(cl: imap<Pos, Cluster>, cl': imap<Pos, Cluster>, cl'': imap<Pos, Cluster>)
    requires LabelsChanged(cl, cl') && LabelsChanged(cl', cl'')
    ensures LabelsChanged(cl, cl'')
  {
    forall k | k in cl ensures SameButLabels(cl[k], cl''[k]) {
      assert SameButLabels(cl[k], cl'[k]) && SameButLabels(cl'[k], cl''[k]);
    }
  }

  /** Relabelling moves no clump and no list entry. */
  lemma LabelsChangedKeeps(cl: imap<Pos, Cluster>, cl': imap<Pos, Cluster>)
    requires LabelsChanged(cl, cl')
    ensures EdgeClumps(cl') == EdgeClumps(cl)
    ensures Closed(cl) ==> Closed(cl')
    ensures forall n, h {:trigger HasEntry(cl', n, h)} :: HasEntry(cl', n, h) <==> HasEntry(cl, n, h)
    ensures forall n, h {:trigger Target(cl', n, h)} :: HasEntry(cl', n, h) ==> Target(cl', n, h) == Target(cl, n, h)
  {
    forall n ensures IsEdgeClump(cl', n) <==> IsEdgeClump(cl, n) {
      if Home(n) in cl { assert SameButLabels(cl[Home(n)], cl'[Home(n)]); }
    }
    forall n, h ensures HasEntry(cl', n, h) <==> HasEntry(cl, n, h)
      ensures HasEntry(cl', n, h) ==> Target(cl', n, h) == Target(cl, n, h)
    {
      if Home(n) in cl { assert SameButLabels(cl[Home(n)], cl'[Home(n)]); }
    }
    if Closed(cl) {
      forall n | IsEdgeClump(cl', n) ensures SliceOk(cl'[Home(n)], n.index) {
        assert IsEdgeClump(cl, n);
        assert SameButLabels(cl[Home(n)], cl'[Home(n)]);
      }
    }
  }

  /** The state of the second union-find: a forest over the edge clumps of cl0. */
  ghost predicate Labelling(cl0: imap<Pos, Cluster>, cl: imap<Pos, Cluster>, rep: imap<GlobalClumpId, GlobalClumpId>,
                            rank: imap<GlobalClumpId, nat>) {
    LabelsChanged(cl0, cl) && Forest(GlobalLabels(cl), rep, rank) && rep.Keys == EdgeClumps(cl0)
  }

  /** The comparison of two labels' bits is the comparison of the labels. */
  lemma SameBits(cl0: imap<Pos, Cluster>, cl: imap<Pos, Cluster>, rep: imap<GlobalClumpId, GlobalClumpId>,
                 rank: imap<GlobalClumpId, nat>, n: GlobalClumpId, n': GlobalClumpId)
    requires Labelling(cl0, cl, rep, rank) && LabelsFit(cl0) && n in rep && n' in rep
    ensures Packed(n) == Packed(n') <==> n == n'
  {
    assert IsEdgeClump(cl0, n) && IsEdgeClump(cl0, n');
    PackedSame(n, n');
  }

  method SetGlobalLabel(g: Grid, n: GlobalClumpId, q: GlobalClumpId)
    requires g.Memory() && IsEdgeClump(g.Clusters(), n)
    modifies g.cluster
    ensures g.Clusters() == WithLabel(old(g.Clusters()), n, q)
  {
    var c := g.cluster[n.cy, n.cx];
    assert g.Clusters()[Home(n)] == c;
    StoreCluster(g, n.cx, n.cy, c.(clump := c.clump[n.index := c.clump[n.index].(globalLabel := q)]));
  }

  method GetGlobalLabel(g: Grid, n: GlobalClumpId) returns (q: GlobalClumpId)
    requires g.Memory() && IsEdgeClump(g.Clusters(), n)
    ensures q == GlobalLabels(g.Clusters())[n]
  {
    assert g.Clusters()[Home(n)] == g.cluster[n.cy, n.cx];
    q := g.cluster[n.cy, n.cx].clump[n.index].globalLabel;
  }

  lemma LabellingNode(cl0: imap<Pos, Cluster>, cl: imap<Pos, Cluster>, rep: imap<GlobalClumpId, GlobalClumpId>,
                      rank: imap<GlobalClumpId, nat>, n: GlobalClumpId)
    requires Labelling(cl0, cl, rep, rank) && n in rep
    ensures n in GlobalLabels(cl) && IsEdgeClump(cl, n) && IsEdgeClump(cl, GlobalLabels(cl)[n])
            && GlobalLabels(cl)[n] in rep && rep[n] in rep
    ensures rank.Keys == rep.Keys
    ensures NodeOk(GlobalLabels(cl), rep, rank, n)
  {
    assert n in GlobalLabels(cl);
    assert NodeOk(GlobalLabels(cl), rep, rank, n);
    assert GlobalLabels(cl)[n] in GlobalLabels(cl);
  }

  lemma CompressLabel(cl0: imap<Pos, Cluster>, cl: imap<Pos, Cluster>, rep: imap<GlobalClumpId, GlobalClumpId>,
                      rank: imap<GlobalClumpId, nat>, n: GlobalClumpId)
    requires Labelling(cl0, cl, rep, rank) && n in rep
    ensures IsEdgeClump(cl, n)
    ensures var cl' := WithLabel(cl, n, rep[n]);
            Labelling(cl0, cl', rep, rank) && n in GlobalLabels(cl') && GlobalLabels(cl')[n] == rep[n]
  {
    LabellingNode(cl0, cl, rep, rank, n);
    Compress(GlobalLabels(cl), rep, rank, n);
    WithLabelEffect(cl, n, rep[n]);
    LabelsChangedTrans(cl0, cl, WithLabel(cl, n, rep[n]));
  }

  lemma LinkLabel(cl0: imap<Pos, Cluster>, cl: imap<Pos, Cluster>, rep: imap<GlobalClumpId, GlobalClumpId>,
                  rank: imap<GlobalClumpId, nat>, p: GlobalClumpId, q: GlobalClumpId)
    requires Labelling(cl0, cl, rep, rank) && p in rep && q in rep && p != q && rep[p] == p && rep[q] == q
    ensures IsEdgeClump(cl, p) && rank.Keys == rep.Keys
    ensures Labelling(cl0, WithLabel(cl, p, q), Redirect(rep, p, q), LiftRank(rep, rank, p, q))
  {
    LabellingNode(cl0, cl, rep, rank, p);
    LabellingNode(cl0, cl, rep, rank, q);
    Link(GlobalLabels(cl), rep, rank, p, q);
    WithLabelEffect(cl, p, q);
    LabelsChangedTrans(cl0, cl, WithLabel(cl, p, q));
  }

  /** Labels have only been moved to the root of their class. */
  ghost predicate Shortened(rep: imap<GlobalClumpId, GlobalClumpId>, lab: imap<GlobalClumpId, GlobalClumpId>,
                            lab': imap<GlobalClumpId, GlobalClumpId>) {
    && lab'.Keys == lab.Keys == rep.Keys
    && forall n {:trigger lab'[n]} :: n in rep ==> lab'[n] == lab[n] || lab'[n] == rep[n]
  }

  lemma ShortenedRefl(cl0: imap<Pos, Cluster>, cl: imap<Pos, Cluster>, rep: imap<GlobalClumpId, GlobalClumpId>,
                      rank: imap<GlobalClumpId, nat>)
    requires Labelling(cl0, cl, rep, rank)
    ensures Shortened(rep, GlobalLabels(cl), GlobalLabels(cl))
  {}

  lemma ShortenedStep(lab: imap<GlobalClumpId, GlobalClumpId>, cl': imap<Pos, Cluster>,
                      rep: imap<GlobalClumpId, GlobalClumpId>, n: GlobalClumpId)
    requires Shortened(rep, lab, GlobalLabels(cl')) && n in rep && IsEdgeClump(cl', n)
    ensures Shortened(rep, lab, GlobalLabels(WithLabel(cl', n, rep[n])))
  {
    hide GlobalLabels, WithLabel, IsEdgeClump;
    WithLabelEffect(cl', n, rep[n]);
  }

  /** The root of clump n; the labels walked over are compressed but no class changes. */
  method ClumpFind(g: Grid, ghost cl0: imap<Pos, Cluster>, ghost rep: imap<GlobalClumpId, GlobalClumpId>,
                   ghost rank: imap<GlobalClumpId, nat>, n: GlobalClumpId)
    returns (q: GlobalClumpId)
    requires g.Memory() && Labelling(cl0, g.Clusters(), rep, rank) && LabelsFit(cl0) && n in rep && n in rank
    modifies g.cluster
    ensures Labelling(cl0, g.Clusters(), rep, rank)
    ensures q == rep[n] && q in rep && rep[q] == q
    ensures n in GlobalLabels(g.Clusters()) && GlobalLabels(g.Clusters())[n] == q
    ensures Shortened(rep, GlobalLabels(old(g.Clusters())), GlobalLabels(g.Clusters()))
    decreases rank[n]
  {
    ghost var before := g.Clusters();
    ShortenedRefl(cl0, before, rep, rank);
    hide Shortened, Labelling, Grid.Clusters, GlobalLabels, IsEdgeClump, WithLabel, LabelsFit, Packed;
    LabellingNode(cl0, g.Clusters(), rep, rank, n);
    var up := GetGlobalLabel(g, n);
    SameBits(cl0, g.Clusters(), rep, rank, up, n);
    if Packed(up) == Packed(n) {
      return n;
    }
    q := ClumpFind(g, cl0, rep, rank, up);
    CompressLabel(cl0, g.Clusters(), rep, rank, n);
    ShortenedStep(GlobalLabels(before), g.Clusters(), rep, n);
    SetGlobalLabel(g, n, q);
    LabellingNode(cl0, g.Clusters(), rep, rank, n);
  }

  /** Joins the classes of two edge clumps and leaves all others as they were. */
  method ClumpUnion(g: Grid, ghost cl0: imap<Pos, Cluster>, ghost rep: imap<GlobalClumpId, GlobalClumpId>,
                    ghost rank: imap<GlobalClumpId, nat>,
                    m: GlobalClumpId, n: GlobalClumpId)
    returns (ghost rep': imap<GlobalClumpId, GlobalClumpId>, ghost rank': imap<GlobalClumpId, nat>)
    requires g.Memory() && Labelling(cl0, g.Clusters(), rep, rank) && LabelsFit(cl0) && m in rep && n in rep
    modifies g.cluster
    ensures Labelling(cl0, g.Clusters(), rep', rank')
    ensures rep' == Redirect(rep, rep[m], rep[n])
    ensures rep'.Keys == rep.Keys && forall x :: x in rep ==> rep'[x] == if rep[x] == rep[m] then rep[n] else rep[x]
  {
    hide Labelling, Grid.Clusters, GlobalLabels, IsEdgeClump, WithLabel, NodeOk, LabelsFit, Packed;
    LabellingNode(cl0, g.Clusters(), rep, rank, m);
    SameClass(cl0, g.Clusters(), rep, rank, m);
    var ml := GetGlobalLabel(g, m);
    LabellingNode(cl0, g.Clusters(), rep, rank, n);
    SameClass(cl0, g.Clusters(), rep, rank, n);
    var nl := GetGlobalLabel(g, n);
    var mp := ClumpFind(g, cl0, rep, rank, ml);
    var np := ClumpFind(g, cl0, rep, rank, nl);
    SameBits(cl0, g.Clusters(), rep, rank, mp, np);
    if Packed(mp) == Packed(np) {
      rep', rank' := rep, rank;
      RedirectSame(rep, mp);
      return;
    }
    LinkLabel(cl0, g.Clusters(), rep, rank, mp, np);
    rep', rank' := Redirect(rep, mp, np), LiftRank(rep, rank, mp, np);
    SetGlobalLabel(g, mp, np);
  }

  lemma SameClass(cl0: imap<Pos, Cluster>, cl: imap<Pos, Cluster>, rep: imap<GlobalClumpId, GlobalClumpId>,
                  rank: imap<GlobalClumpId, nat>, n: GlobalClumpId)
    requires Labelling(cl0, cl, rep, rank) && n in rep && n in GlobalLabels(cl)
    ensures GlobalLabels(cl)[n] in rep && rep[GlobalLabels(cl)[n]] == rep[n]
  {
    LabellingNode(cl0, cl, rep, rank, n);
  }
}
