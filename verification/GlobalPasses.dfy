/** stbcc__build_connected_components_for_clumps: from adjacency lists to global labels. */
module GlobalPasses {
  import opened Paths
  import opened Forests
  import opened Partitions
  import opened GridModel
  import opened GridState
  import opened Adjacency
  import opened ClumpForest

  /** n comes before clump k of cluster (i, j) in the order of the passes. */
  predicate Scanned(n: GlobalClumpId, j: int, i: int, k: int) {
    n.cy < j || (n.cy == j && (n.cx < i || (n.cx == i && n.index < k)))
  }

  ghost predicate SelfLabelled(cl0: imap<Pos, Cluster>, cl: imap<Pos, Cluster>, j: int, i: int, k: int) {
    && LabelsChanged(cl0, cl)
    && forall n {:trigger IsEdgeClump(cl, n)} :: IsEdgeClump(cl, n) && Scanned(n, j, i, k) ==> GlobalLabels(cl)[n] == n
  }

  lemma SelfLabelStep(cl0: imap<Pos, Cluster>, cl: imap<Pos, Cluster>, j: int, i: int, k: int)
    requires SelfLabelled(cl0, cl, j, i, k) && IsEdgeClump(cl, ClumpId(k, i, j))
    ensures SelfLabelled(cl0, WithLabel(cl, ClumpId(k, i, j), ClumpId(k, i, j)), j, i, k + 1)
  {
    var n := ClumpId(k, i, j);
    var cl' := WithLabel(cl, n, n);
    WithLabelEffect(cl, n, n);
    LabelsChangedTrans(cl0, cl, cl');
    forall n' | IsEdgeClump(cl', n') && Scanned(n', j, i, k + 1)
      ensures GlobalLabels(cl')[n'] == n'
    {
      assert n' in GlobalLabels(cl');
      if n' != n { assert IsEdgeClump(cl, n') && Scanned(n', j, i, k); }
    }
  }

  /** Moving on to the next cluster or the next row. */
  lemma ScanNext(g: Grid, cl: imap<Pos, Cluster>, n: GlobalClumpId, j: int, i: int)
    requires g.Memory() && (forall p :: p in cl <==> g.HasSlot(p)) && IsEdgeClump(cl, n)
    ensures g.HasSlot(Pos(i, j)) && Scanned(n, j, i + 1, 0) ==> Scanned(n, j, i, cl[Pos(i, j)].numEdgeClumps)
    ensures Scanned(n, j + 1, 0, 0) ==> Scanned(n, j, g.countX, 0)
    ensures !Scanned(n, 0, 0, 0) && Scanned(n, g.countY, 0, 0)
  {}

  method EdgeCount(g: Grid, ghost cl0: imap<Pos, Cluster>, i: int, j: int) returns (r: int)
    requires g.Memory() && g.HasSlot(Pos(i, j)) && LabelsChanged(cl0, g.Clusters())
    ensures Pos(i, j) in cl0 && r == cl0[Pos(i, j)].numEdgeClumps
  {
    assert SameButLabels(cl0[Pos(i, j)], g.Clusters()[Pos(i, j)]);
    r := g.cluster[j, i].numEdgeClumps;
  }

  /** Every cluster's edge clumps fit its record. */
  ghost predicate Bounded(cl: imap<Pos, Cluster>) {
    forall p {:trigger cl[p]} :: p in cl ==> 0 <= cl[p].numEdgeClumps <= |cl[p].clump|
  }

  lemma EdgeClumpKept(cl0: imap<Pos, Cluster>, cl: imap<Pos, Cluster>, n: GlobalClumpId)
    requires LabelsChanged(cl0, cl) && Bounded(cl0) && Home(n) in cl0
    ensures 0 <= n.index < cl0[Home(n)].numEdgeClumps ==> IsEdgeClump(cl, n) && IsEdgeClump(cl0, n)
  {
    assert SameButLabels(cl0[Home(n)], cl[Home(n)]);
  }

  /** First pass: every edge clump becomes its own label. */
  method ResetLabels(g: Grid)
    requires g.Memory() && Bounded(g.Clusters())
    modifies g.cluster
    ensures SelfLabelled(old(g.Clusters()), g.Clusters(), g.countY, 0, 0)
  {
    hide LabelsChanged, Grid.Clusters, IsEdgeClump, WithLabel, SelfLabelled, Bounded;
    ghost var cl0 := g.Clusters();
    StartSelf(g, cl0);
    for j := 0 to g.countY
      invariant SelfLabelled(cl0, g.Clusters(), j, 0, 0)
    {
      for i := 0 to g.countX
        invariant SelfLabelled(cl0, g.Clusters(), j, i, 0)
      {
        SelfChanged(cl0, g.Clusters(), j, i, 0);
        var edges := EdgeCount(g, cl0, i, j);
        BoundedAt(cl0, Pos(i, j));
        for k := 0 to edges
          invariant SelfLabelled(cl0, g.Clusters(), j, i, k)
        {
          SelfChanged(cl0, g.Clusters(), j, i, k);
          EdgeClumpKept(cl0, g.Clusters(), ClumpId(k, i, j));
          SelfLabelStep(cl0, g.Clusters(), j, i, k);
          SetGlobalLabel(g, ClumpId(k, i, j), ClumpId(k, i, j));
        }
        SelfNextCluster(g, cl0, g.Clusters(), j, i);
      }
      SelfNextRow(g, cl0, g.Clusters(), j);
    }
  }

  lemma BoundedAt(cl: imap<Pos, Cluster>, p: Pos)
    requires Bounded(cl) && p in cl
    ensures 0 <= cl[p].numEdgeClumps <= |cl[p].clump|
  {}

  lemma StartSelf(g: Grid, cl: imap<Pos, Cluster>)
    requires g.Memory() && (forall p :: p in cl <==> g.HasSlot(p))
    ensures SelfLabelled(cl, cl, 0, 0, 0)
  {
    LabelsChangedRefl(cl);
    forall n | IsEdgeClump(cl, n) ensures !Scanned(n, 0, 0, 0) { ScanNext(g, cl, n, 0, 0); }
  }

  lemma SelfChanged(cl0: imap<Pos, Cluster>, cl: imap<Pos, Cluster>, j: int, i: int, k: int)
    requires SelfLabelled(cl0, cl, j, i, k)
    ensures LabelsChanged(cl0, cl)
  {}

  lemma SelfNextCluster(g: Grid, cl0: imap<Pos, Cluster>, cl: imap<Pos, Cluster>, j: int, i: int)
    requires g.Memory() && (forall p :: p in cl <==> g.HasSlot(p)) && g.HasSlot(Pos(i, j)) && cl0.Keys == cl.Keys
    requires SelfLabelled(cl0, cl, j, i, cl0[Pos(i, j)].numEdgeClumps)
    ensures SelfLabelled(cl0, cl, j, i + 1, 0)
  {
    assert SameButLabels(cl0[Pos(i, j)], cl[Pos(i, j)]);
    forall n | IsEdgeClump(cl, n) && Scanned(n, j, i + 1, 0)
      ensures GlobalLabels(cl)[n] == n
    {
      ScanNext(g, cl, n, j, i);
    }
  }

  lemma SelfNextRow(g: Grid, cl0: imap<Pos, Cluster>, cl: imap<Pos, Cluster>, j: int)
    requires g.Memory() && (forall p :: p in cl <==> g.HasSlot(p))
    requires SelfLabelled(cl0, cl, j, g.countX, 0)
    ensures SelfLabelled(cl0, cl, j + 1, 0, 0)
  {
    forall n | IsEdgeClump(cl, n) && Scanned(n, j + 1, 0, 0)
      ensures GlobalLabels(cl)[n] == n
    {
      ScanNext(g, cl, n, j, 0);
    }
  }

  /** After the first pass the labels are a forest of single nodes. */
  lemma SelfLabelsForest(g: Grid, cl0: imap<Pos, Cluster>, cl: imap<Pos, Cluster>)
    requires g.Memory() && (forall p :: p in cl <==> g.HasSlot(p)) && SelfLabelled(cl0, cl, g.countY, 0, 0)
    ensures Labelling(cl0, cl, Identity(EdgeClumps(cl0)), Zero(EdgeClumps(cl0)))
  {
    LabelsChangedKeeps(cl0, cl);
    IdentityForest(EdgeClumps(cl0));
    forall n | n in GlobalLabels(cl) ensures GlobalLabels(cl)[n] == n {
      assert IsEdgeClump(cl, n);
      ScanNext(g, cl, n, 0, 0);
    }
    assert GlobalLabels(cl) == Identity(EdgeClumps(cl0));
  }

  /** Entry h of clump n has been joined. */
  ghost predicate LinkedAt(cl: imap<Pos, Cluster>, rep: imap<GlobalClumpId, GlobalClumpId>, n: GlobalClumpId, h: int)
    requires HasEntry(cl, n, h)
  {
    n in rep && Target(cl, n, h) in rep && rep[n] == rep[Target(cl, n, h)]
  }

  /** The entries of all clumps before (i, j, k), and the first h entries of that clump, have been joined. */
  ghost predicate LinkedUpTo(cl: imap<Pos, Cluster>, rep: imap<GlobalClumpId, GlobalClumpId>, j: int, i: int, k: int,
                             h: int) {
    forall n, h' {:trigger LinkedAt(cl, rep, n, h')} ::
      HasEntry(cl, n, h') && (Scanned(n, j, i, k) || (n == ClumpId(k, i, j) && h' < h)) ==> LinkedAt(cl, rep, n, h')
  }

  /** Between two unions of the second pass. */
  ghost predicate Linking(cl0: imap<Pos, Cluster>, cl: imap<Pos, Cluster>, st: Classes, j: int, i: int, k: int,
                          h: int) {
    && Labelling(cl0, cl, st.rep, st.rank) && Closed(cl0)
    && Sound(ClumpEdges(cl0), st.rep)
    && LinkedUpTo(cl0, st.rep, j, i, k, h)
  }

  datatype Classes = Classes(ghost rep: imap<GlobalClumpId, GlobalClumpId>, ghost rank: imap<GlobalClumpId, nat>)

  lemma ClumpEdgesSymmetric(cl: imap<Pos, Cluster>)
    ensures Symmetric(ClumpEdges(cl))
  {}

  lemma LinkSound(cl0: imap<Pos, Cluster>, rep: imap<GlobalClumpId, GlobalClumpId>, n: GlobalClumpId, h: int)
    requires Sound(ClumpEdges(cl0), rep) && HasEntry(cl0, n, h) && n in rep && Target(cl0, n, h) in rep
    ensures Sound(ClumpEdges(cl0), Redirect(rep, rep[n], rep[Target(cl0, n, h)]))
  {
    assert Listed(cl0, n, Target(cl0, n, h));
    ClumpEdgesSymmetric(cl0);
    UnionSound(ClumpEdges(cl0), rep, n, Target(cl0, n, h));
  }

  lemma LinkMore(cl0: imap<Pos, Cluster>, rep: imap<GlobalClumpId, GlobalClumpId>, j: int, i: int, k: int, h: int)
    requires LinkedUpTo(cl0, rep, j, i, k, h)
    requires var n := ClumpId(k, i, j); HasEntry(cl0, n, h) && n in rep && Target(cl0, n, h) in rep
    ensures var n := ClumpId(k, i, j);
            LinkedUpTo(cl0, Redirect(rep, rep[n], rep[Target(cl0, n, h)]), j, i, k, h + 1)
  {
    var n := ClumpId(k, i, j);
    var rep' := Redirect(rep, rep[n], rep[Target(cl0, n, h)]);
    forall m, h' | HasEntry(cl0, m, h') && (Scanned(m, j, i, k) || (m == n && h' < h + 1))
      ensures LinkedAt(cl0, rep', m, h')
    {
      if m != n || h' != h {
        assert LinkedAt(cl0, rep, m, h');
      }
    }
  }

  lemma LinkStep(cl0: imap<Pos, Cluster>, cl': imap<Pos, Cluster>, rep: imap<GlobalClumpId, GlobalClumpId>,
                 st': Classes, j: int, i: int, k: int, h: int)
    requires Sound(ClumpEdges(cl0), rep) && LinkedUpTo(cl0, rep, j, i, k, h) && Closed(cl0)
    requires HasEntry(cl0, ClumpId(k, i, j), h)
    requires var n, n' := ClumpId(k, i, j), Target(cl0, ClumpId(k, i, j), h);
             n in rep && n' in rep && st'.rep == Redirect(rep, rep[n], rep[n'])
    requires Labelling(cl0, cl', st'.rep, st'.rank)
    ensures Linking(cl0, cl', st', j, i, k, h + 1)
  {
    hide HasEntry, LinkedUpTo, Labelling, Closed, Sound;
    LinkSound(cl0, rep, ClumpId(k, i, j), h);
    LinkMore(cl0, rep, j, i, k, h);
  }

  lemma LinkNextClump(cl0: imap<Pos, Cluster>, cl: imap<Pos, Cluster>, st: Classes, j: int, i: int, k: int, h: int)
    requires Linking(cl0, cl, st, j, i, k, h) && IsEdgeClump(cl0, ClumpId(k, i, j))
    requires h == cl0[Pos(i, j)].clump[k].numAdjacent
    ensures Linking(cl0, cl, st, j, i, k + 1, 0)
  {
    forall m, h' | HasEntry(cl0, m, h') && Scanned(m, j, i, k + 1) ensures LinkedAt(cl0, st.rep, m, h') {
      if !Scanned(m, j, i, k) { assert m == ClumpId(k, i, j); }
    }
  }

  lemma LinkNextCluster(g: Grid, cl0: imap<Pos, Cluster>, cl: imap<Pos, Cluster>, st: Classes, j: int, i: int)
    requires g.Memory() && (forall p :: p in cl0 <==> g.HasSlot(p)) && g.HasSlot(Pos(i, j))
    requires Linking(cl0, cl, st, j, i, cl0[Pos(i, j)].numEdgeClumps, 0)
    ensures Linking(cl0, cl, st, j, i + 1, 0, 0)
  {
    forall m, h' | HasEntry(cl0, m, h') && (Scanned(m, j, i + 1, 0) || (m == ClumpId(0, i + 1, j) && h' < 0))
      ensures LinkedAt(cl0, st.rep, m, h')
    {
      ScanNext(g, cl0, m, j, i);
    }
  }

  lemma LinkNextRow(g: Grid, cl0: imap<Pos, Cluster>, cl: imap<Pos, Cluster>, st: Classes, j: int)
    requires g.Memory() && (forall p :: p in cl0 <==> g.HasSlot(p))
    requires Linking(cl0, cl, st, j, g.countX, 0, 0)
    ensures Linking(cl0, cl, st, j + 1, 0, 0, 0)
  {
    forall m, h' | HasEntry(cl0, m, h') && (Scanned(m, j + 1, 0, 0) || (m == ClumpId(0, 0, j + 1) && h' < 0))
      ensures LinkedAt(cl0, st.rep, m, h')
    {
      ScanNext(g, cl0, m, j, 0);
    }
  }

  lemma StartLinking(g: Grid, cl0: imap<Pos, Cluster>, cl: imap<Pos, Cluster>, st: Classes)
    requires g.Memory() && (forall p :: p in cl0 <==> g.HasSlot(p)) && Closed(cl0)
    requires st.rep == Identity(EdgeClumps(cl0)) && Labelling(cl0, cl, st.rep, st.rank)
    ensures Linking(cl0, cl, st, 0, 0, 0, 0)
  {
    forall n ensures Connected(ClumpEdges(cl0), n, n) { ConnectedRefl(ClumpEdges(cl0), n); }
    forall m, h' | HasEntry(cl0, m, h') ensures !Scanned(m, 0, 0, 0) && h' >= 0 {
      ScanNext(g, cl0, m, 0, 0);
    }
  }

  /** What the second pass reads of clump n is what it found at the start. */
  lemma ReadEntry(cl0: imap<Pos, Cluster>, cl: imap<Pos, Cluster>, st: Classes, n: GlobalClumpId)
    requires Labelling(cl0, cl, st.rep, st.rank) && Closed(cl0) && IsEdgeClump(cl0, n)
    ensures Home(n) in cl && 0 <= n.index < |cl[Home(n)].clump| && SliceOk(cl[Home(n)], n.index) && n in st.rep
    ensures cl[Home(n)].clump[n.index].numAdjacent == cl0[Home(n)].clump[n.index].numAdjacent
    ensures cl[Home(n)].clump[n.index].listIndex == cl0[Home(n)].clump[n.index].listIndex
    ensures cl[Home(n)].storage == cl0[Home(n)].storage
    ensures forall h {:trigger HasEntry(cl0, n, h)} :: 0 <= h < cl0[Home(n)].clump[n.index].numAdjacent ==>
            HasEntry(cl0, n, h) && Target(cl0, n, h) in st.rep
  {
    LabelsChangedKeeps(cl0, cl);
    assert SameButLabels(cl0[Home(n)], cl[Home(n)]);
    assert IsEdgeClump(cl, n);
  }

  /** Joins clump k of cluster (i, j) with every clump on its list. */
  method LinkClump(g: Grid, ghost cl0: imap<Pos, Cluster>, ghost st0: Classes, j: int, i: int, k: int)
    returns (ghost st: Classes)
    requires g.Memory() && IsEdgeClump(cl0, ClumpId(k, i, j)) && Linking(cl0, g.Clusters(), st0, j, i, k, 0)
    requires LabelsFit(cl0)
    modifies g.cluster
    ensures Linking(cl0, g.Clusters(), st, j, i, k + 1, 0)
  {
    hide Linking, LinkedUpTo, Labelling, Closed, Grid.Clusters, IsEdgeClump, Sound, LabelsFit;
    ghost var n := ClumpId(k, i, j);
    st := st0;
    LinkingParts(cl0, g.Clusters(), st, j, i, k, 0);
    ReadEntry(cl0, g.Clusters(), st, n);
    GridCluster(g, i, j);
    var clump := g.cluster[j, i].clump[k];
    for h := 0 to clump.numAdjacent
      invariant Linking(cl0, g.Clusters(), st, j, i, k, h)
    {
      LinkingParts(cl0, g.Clusters(), st, j, i, k, h);
      ReadEntry(cl0, g.Clusters(), st, n);
      GridCluster(g, i, j);
      var adj := g.cluster[j, i].storage[clump.listIndex + h];
      assert HasEntry(cl0, n, h);
      assert Target(cl0, n, h) == ClumpId(adj.index, adj.dx + i, adj.dy + j);
      ghost var rep := st.rep;
      ghost var rep', rank' :=
          ClumpUnion(g, cl0, st.rep, st.rank, ClumpId(k, i, j), ClumpId(adj.index, adj.dx + i, adj.dy + j));
      st := Classes(rep', rank');
      LinkStep(cl0, g.Clusters(), rep, st, j, i, k, h);
    }
    LinkNextClump(cl0, g.Clusters(), st, j, i, k, clump.numAdjacent);
  }

  lemma GridCluster(g: Grid, i: int, j: int)
    requires g.Memory() && Pos(i, j) in g.Clusters()
    ensures g.HasSlot(Pos(i, j)) && 0 <= i < g.cluster.Length1 && 0 <= j < g.cluster.Length0
            && g.Clusters()[Pos(i, j)] == g.cluster[j, i]
  {}

  lemma LinkingParts(cl0: imap<Pos, Cluster>, cl: imap<Pos, Cluster>, st: Classes, j: int, i: int, k: int, h: int)
    requires Linking(cl0, cl, st, j, i, k, h)
    ensures Labelling(cl0, cl, st.rep, st.rank) && LabelsChanged(cl0, cl) && Closed(cl0)
            && st.rep.Keys == EdgeClumps(cl0)
    ensures Sound(ClumpEdges(cl0), st.rep) && LinkedUpTo(cl0, st.rep, j, i, k, h)
  {}

  /** Second pass: joins every clump with the clumps on its list. */
  method LinkAll(g: Grid, ghost cl0: imap<Pos, Cluster>, ghost st0: Classes) returns (ghost st: Classes)
    requires g.Memory() && (forall p :: p in cl0 <==> g.HasSlot(p)) && Bounded(cl0) && LabelsFit(cl0)
             && Linking(cl0, g.Clusters(), st0, 0, 0, 0, 0)
    modifies g.cluster
    ensures Linking(cl0, g.Clusters(), st, g.countY, 0, 0, 0)
  {
    hide Linking, LabelsChanged, Grid.Clusters, IsEdgeClump, Bounded, Labelling, Closed, LinkedUpTo, Sound, LabelsFit;
    st := st0;
    for j := 0 to g.countY
      invariant Linking(cl0, g.Clusters(), st, j, 0, 0, 0)
    {
      for i := 0 to g.countX
        invariant Linking(cl0, g.Clusters(), st, j, i, 0, 0)
      {
        LinkingParts(cl0, g.Clusters(), st, j, i, 0, 0);
        var edges := EdgeCount(g, cl0, i, j);
        BoundedAt(cl0, Pos(i, j));
        for k := 0 to edges
          invariant Linking(cl0, g.Clusters(), st, j, i, k, 0)
        {
          LinkingParts(cl0, g.Clusters(), st, j, i, k, 0);
          EdgeClumpKept(cl0, g.Clusters(), ClumpId(k, i, j));
          st := LinkClump(g, cl0, st, j, i, k);
        }
        LinkNextCluster(g, cl0, g.Clusters(), st, j, i);
      }
      LinkNextRow(g, cl0, g.Clusters(), st, j);
    }
  }

  /** After the second pass two clumps share a class exactly when the lists link them. */
  lemma LinkedIsExact(g: Grid, cl0: imap<Pos, Cluster>, cl: imap<Pos, Cluster>, st: Classes)
    requires g.Memory() && (forall p :: p in cl0 <==> g.HasSlot(p)) && Linking(cl0, cl, st, g.countY, 0, 0, 0)
    ensures Exact(ClumpEdges(cl0), st.rep)
  {
    var E := ClumpEdges(cl0);
    ClumpEdgesSymmetric(cl0);
    forall c, d | (c, d) in E
      ensures c in st.rep && d in st.rep && st.rep[c] == st.rep[d]
    {
      if Listed(cl0, c, d) {
        var h :| HasEntry(cl0, c, h) && Target(cl0, c, h) == d;
        ScanNext(g, cl0, c, 0, 0);
        assert LinkedAt(cl0, st.rep, c, h);
      } else {
        var h :| HasEntry(cl0, d, h) && Target(cl0, d, h) == c;
        ScanNext(g, cl0, d, 0, 0);
        assert LinkedAt(cl0, st.rep, d, h);
      }
    }
    JoinedIsExact(E, st.rep);
  }

  /** The labels of the clumps before (i, j, k) are their roots. */
  ghost predicate Flattened(cl0: imap<Pos, Cluster>, cl: imap<Pos, Cluster>, st: Classes, j: int, i: int, k: int) {
    && Labelling(cl0, cl, st.rep, st.rank)
    && forall n {:trigger st.rep[n]} :: n in st.rep && Scanned(n, j, i, k) ==>
         n in GlobalLabels(cl) && GlobalLabels(cl)[n] == st.rep[n]
  }

  lemma FlattenStep(cl0: imap<Pos, Cluster>, cl: imap<Pos, Cluster>, cl': imap<Pos, Cluster>, st: Classes, j: int,
                    i: int, k: int)
    requires Flattened(cl0, cl, st, j, i, k) && Labelling(cl0, cl', st.rep, st.rank)
    requires Shortened(st.rep, GlobalLabels(cl), GlobalLabels(cl'))
    requires ClumpId(k, i, j) in GlobalLabels(cl') && ClumpId(k, i, j) in st.rep
             && GlobalLabels(cl')[ClumpId(k, i, j)] == st.rep[ClumpId(k, i, j)]
    ensures Flattened(cl0, cl', st, j, i, k + 1)
  {
    hide GlobalLabels, Labelling;
    forall n | n in st.rep && Scanned(n, j, i, k + 1)
      ensures n in GlobalLabels(cl') && GlobalLabels(cl')[n] == st.rep[n]
    {
      if n != ClumpId(k, i, j) { assert Scanned(n, j, i, k); }
    }
  }

  lemma FlattenNextCluster(g: Grid, cl0: imap<Pos, Cluster>, cl: imap<Pos, Cluster>, st: Classes, j: int, i: int)
    requires g.Memory() && (forall p :: p in cl0 <==> g.HasSlot(p)) && g.HasSlot(Pos(i, j))
    requires Flattened(cl0, cl, st, j, i, cl0[Pos(i, j)].numEdgeClumps)
    ensures Flattened(cl0, cl, st, j, i + 1, 0)
  {
    forall n | n in st.rep && Scanned(n, j, i + 1, 0)
      ensures n in GlobalLabels(cl) && GlobalLabels(cl)[n] == st.rep[n]
    {
      ScanNext(g, cl0, n, j, i);
    }
  }

  lemma FlattenNextRow(g: Grid, cl0: imap<Pos, Cluster>, cl: imap<Pos, Cluster>, st: Classes, j: int)
    requires g.Memory() && (forall p :: p in cl0 <==> g.HasSlot(p))
    requires Flattened(cl0, cl, st, j, g.countX, 0)
    ensures Flattened(cl0, cl, st, j + 1, 0, 0)
  {
    forall n | n in st.rep && Scanned(n, j + 1, 0, 0)
      ensures n in GlobalLabels(cl) && GlobalLabels(cl)[n] == st.rep[n]
    {
      ScanNext(g, cl0, n, j, 0);
    }
  }

  lemma StartFlatten(g: Grid, cl0: imap<Pos, Cluster>, cl: imap<Pos, Cluster>, st: Classes)
    requires g.Memory() && (forall p :: p in cl0 <==> g.HasSlot(p)) && Labelling(cl0, cl, st.rep, st.rank)
    ensures Flattened(cl0, cl, st, 0, 0, 0)
  {
    forall n | n in st.rep ensures !Scanned(n, 0, 0, 0) { ScanNext(g, cl0, n, 0, 0); }
  }

  lemma FlattenedLabels(cl0: imap<Pos, Cluster>, cl: imap<Pos, Cluster>, st: Classes, j: int, i: int, k: int)
    requires Flattened(cl0, cl, st, j, i, k)
    ensures Labelling(cl0, cl, st.rep, st.rank) && LabelsChanged(cl0, cl)
            && st.rep.Keys == st.rank.Keys == EdgeClumps(cl0)
  {}

  /** Third pass: every edge clump's stored label becomes its root. */
  method FlattenAll(g: Grid, ghost cl0: imap<Pos, Cluster>, ghost st: Classes)
    requires g.Memory() && (forall p :: p in cl0 <==> g.HasSlot(p)) && Bounded(cl0) && LabelsFit(cl0)
             && Labelling(cl0, g.Clusters(), st.rep, st.rank)
    modifies g.cluster
    ensures Flattened(cl0, g.Clusters(), st, g.countY, 0, 0)
  {
    hide Flattened, LabelsChanged, Grid.Clusters, IsEdgeClump, Bounded, Labelling, GlobalLabels, Shortened, LabelsFit;
    StartFlatten(g, cl0, g.Clusters(), st);
    for j := 0 to g.countY
      invariant Flattened(cl0, g.Clusters(), st, j, 0, 0)
    {
      for i := 0 to g.countX
        invariant Flattened(cl0, g.Clusters(), st, j, i, 0)
      {
        FlattenedLabels(cl0, g.Clusters(), st, j, i, 0);
        var edges := EdgeCount(g, cl0, i, j);
        BoundedAt(cl0, Pos(i, j));
        for k := 0 to edges
          invariant Flattened(cl0, g.Clusters(), st, j, i, k)
        {
          FlattenedLabels(cl0, g.Clusters(), st, j, i, k);
          EdgeClumpKept(cl0, g.Clusters(), ClumpId(k, i, j));
          ghost var before := g.Clusters();
          var root := ClumpFind(g, cl0, st.rep, st.rank, ClumpId(k, i, j));
          FlattenStep(cl0, before, g.Clusters(), st, j, i, k);
        }
        FlattenNextCluster(g, cl0, g.Clusters(), st, j, i);
      }
      FlattenNextRow(g, cl0, g.Clusters(), st, j);
    }
  }

  /** Every edge clump stores its root, and two edge clumps store the same one exactly when lists link them. */
  ghost predicate GloballyLabelled(cl: imap<Pos, Cluster>) {
    Exact(ClumpEdges(cl), GlobalLabels(cl)) && Rooted(GlobalLabels(cl))
  }

  lemma ClumpEdgesKept(cl0: imap<Pos, Cluster>, cl: imap<Pos, Cluster>)
    requires LabelsChanged(cl0, cl)
    ensures ClumpEdges(cl) == ClumpEdges(cl0)
  {
    LabelsChangedKeeps(cl0, cl);
    hide HasEntry, LabelsChanged;
    forall n, n' ensures Listed(cl, n, n') <==> Listed(cl0, n, n') {
      if Listed(cl0, n, n') {
        var h :| HasEntry(cl0, n, h) && Target(cl0, n, h) == n';
        assert HasEntry(cl, n, h) && Target(cl, n, h) == n';
      }
    }
  }

  lemma FlatLabels(g: Grid, cl0: imap<Pos, Cluster>, cl: imap<Pos, Cluster>, st: Classes)
    requires g.Memory() && (forall p :: p in cl0 <==> g.HasSlot(p))
    requires Flattened(cl0, cl, st, g.countY, 0, 0)
    ensures GlobalLabels(cl) == st.rep
  {
    LabelsChangedKeeps(cl0, cl);
    assert GlobalLabels(cl).Keys == EdgeClumps(cl);
    forall n | n in st.rep ensures GlobalLabels(cl)[n] == st.rep[n] { ScanNext(g, cl0, n, 0, 0); }
  }

  lemma FlatIsGlobal(g: Grid, cl0: imap<Pos, Cluster>, cl: imap<Pos, Cluster>, st: Classes)
    requires g.Memory() && (forall p :: p in cl0 <==> g.HasSlot(p))
    requires Flattened(cl0, cl, st, g.countY, 0, 0) && Exact(ClumpEdges(cl0), st.rep)
    ensures GloballyLabelled(cl)
  {
    hide GlobalLabels, ClumpEdges, Exact, LabelsChanged;
    FlattenedLabels(cl0, cl, st, g.countY, 0, 0);
    FlatLabels(g, cl0, cl, st);
    ClumpEdgesKept(cl0, cl);
    ForestRooted(GlobalLabels(cl), st.rep, st.rank);
  }

  /** The global pass: from any labels to exact ones, changing nothing else. */
  method BuildConnectedComponentsForClumps(g: Grid)
    requires g.Memory() && Bounded(g.Clusters()) && Closed(g.Clusters()) && LabelsFit(g.Clusters())
    modifies g.cluster
    ensures LabelsChanged(old(g.Clusters()), g.Clusters())
    ensures GloballyLabelled(g.Clusters())
  {
    hide SelfLabelled, Linking, Flattened, LabelsChanged, Grid.Clusters, Bounded, Closed, GloballyLabelled, Labelling,
        Exact, LabelsFit;
    ghost var cl0 := g.Clusters();
    ResetLabels(g);
    SelfChanged(cl0, g.Clusters(), g.countY, 0, 0);
    ghost var st := Classes(Identity(EdgeClumps(cl0)), Zero(EdgeClumps(cl0)));
    SelfLabelsForest(g, cl0, g.Clusters());
    StartLinking(g, cl0, g.Clusters(), st);
    st := LinkAll(g, cl0, st);
    LinkingParts(cl0, g.Clusters(), st, g.countY, 0, 0, 0);
    LinkedIsExact(g, cl0, g.Clusters(), st);
    FlattenAll(g, cl0, st);
    FlattenedLabels(cl0, g.Clusters(), st, g.countY, 0, 0);
    FlatIsGlobal(g, cl0, g.Clusters(), st);
  }
}
