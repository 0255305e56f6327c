/** stbcc_update_grid: what the removal and insertion of connections around one cluster keep. */
module GridUpdate {
  import opened GridModel
  import opened GridState
  import opened LabelSpec
  import opened ClusterStore
  import opened Adjacency
  import opened Connections
  import opened Rebuild
  import opened Reachability
  import opened Leftovers

  /** The directions of P in which cluster k borders cluster k0. */
  ghost function Missing(k: Pos, k0: Pos, P: set<Dir>): set<Dir> { set d | d in P && Step(k, d) == k0 }

  /** Every cluster but k0 is up to date except for its entries for k0 in the directions P. */
  ghost predicate Awaiting(q: Squares, cw: int, ch: int, cl: imap<Pos, Cluster>, k0: Pos, P: set<Dir>) {
    && Clumped(q, cw, ch, cl)
    && forall k {:trigger Waits(q, cl, k, k0, P)} :: InGrid(cw, ch, k) && k != k0 ==> Waits(q, cl, k, k0, P)
  }

  ghost predicate Waits(q: Squares, cl: imap<Pos, Cluster>, k: Pos, k0: Pos, P: set<Dir>) {
    k in cl && !cl[k].rebuildAdjacency && Lists(cl[k], Wanted(q, k, ALL_DIRS - Missing(k, k0, P)))
  }

  lemma MissingStep(k: Pos, k0: Pos, d: Dir)
    requires Step(k, d) == k0
    ensures forall P: set<Dir> {:trigger Missing(k, k0, P)} :: Missing(k, k0, P) == if d in P then {d} else {}
  {
    forall P: set<Dir> ensures Missing(k, k0, P) == if d in P then {d} else {} {}
  }

  /** A cluster record that keeps its clumps stays in agreement with the map. */
  lemma KeptOk(q: Squares, k: Pos, c: Cluster, c': Cluster)
    requires ClusterOk(q, k, c) && ClumpsKept(c, c')
    ensures ClusterOk(q, k, c')
  {}

  lemma ShapeKept(c: Cluster, c': Cluster)
    requires SameShape(c, c')
    ensures ClumpsKept(c, c')
  {}

  lemma ClumpedUpdate(q: Squares, cw: int, ch: int, cl: imap<Pos, Cluster>, k: Pos, c: Cluster)
    requires Clumped(q, cw, ch, cl) && InGrid(cw, ch, k) && ClumpsKept(cl[k], c)
    ensures Clumped(q, cw, ch, cl[k := c])
  {
    hide LabelsOk;
    var cl' := cl[k := c];
    forall k' | InGrid(cw, ch, k') ensures ClusterOk(q, k', cl'[k']) {
      assert ClusterOk(q, k', cl[k']);
      if k' == k { KeptOk(q, k, cl[k], c); }
    }
  }

  /** Only the cluster before k0 in direction d waits in direction d. */
  lemma WaitsElsewhere(q: Squares, cl: imap<Pos, Cluster>, cl': imap<Pos, Cluster>, k: Pos, k0: Pos, P: set<Dir>,
                       P': set<Dir>, d: Dir)
    requires Waits(q, cl, k, k0, P) && k in cl' && cl'[k] == cl[k] && Step(k, d) != k0
    requires P' == P + {d} || P' == P - {d}
    ensures Waits(q, cl', k, k0, P')
  {
    assert Missing(k, k0, P') == Missing(k, k0, P);
  }

  lemma AwaitingMove(q: Squares, cw: int, ch: int, cl: imap<Pos, Cluster>, cl': imap<Pos, Cluster>, k0: Pos,
                     P: set<Dir>, P': set<Dir>, d: Dir)
    requires Awaiting(q, cw, ch, cl, k0, P) && Clumped(q, cw, ch, cl')
    requires P' == P + {d} || P' == P - {d}
    requires forall k :: InGrid(cw, ch, k) && k != k0 && Step(k, d) != k0 ==> cl'[k] == cl[k]
    requires forall k :: InGrid(cw, ch, k) && k != k0 && Step(k, d) == k0 ==> Waits(q, cl', k, k0, P')
    ensures Awaiting(q, cw, ch, cl', k0, P')
  {
    hide Clumped, Lists, Wanted;
    ClumpedKeys(q, cw, ch, cl');
    forall k | InGrid(cw, ch, k) && k != k0 ensures Waits(q, cl', k, k0, P') {
      if Step(k, d) != k0 {
        assert Waits(q, cl, k, k0, P);
        WaitsElsewhere(q, cl, cl', k, k0, P, P', d);
      }
    }
  }

  lemma ClumpedKeys(q: Squares, cw: int, ch: int, cl: imap<Pos, Cluster>)
    requires Clumped(q, cw, ch, cl)
    ensures forall k :: InGrid(cw, ch, k) ==> k in cl
  {}

  ghost function Back(k: Pos, d: Dir): Pos { Pos(k.cx - d.dx, k.cy - d.dy) }

  /** Removes the entries for cluster (cx, cy) held by the neighbour from which (dx, dy) leads there. */
  method RemoveFrom(g: Grid, cx: int, cy: int, dx: int, dy: int, ghost q: Squares, ghost P: set<Dir>)
    requires g.Dims() && IsDir(Dir(dx, dy)) && q == SquaresOf(g) && Dir(dx, dy) !in P
    requires Awaiting(q, g.cw, g.ch, g.Clusters(), Pos(cx, cy), P) && g.HasPos(Pos(cx, cy))
    modifies g.cluster
    ensures Awaiting(q, g.cw, g.ch, g.Clusters(), Pos(cx, cy), P + {Dir(dx, dy)})
    ensures g.Clusters()[Pos(cx, cy)] == old(g.Clusters())[Pos(cx, cy)]
    ensures BeyondKept(g.cw, g.ch, old(g.Clusters()), g.Clusters())
  {
    hide Clumped, Lists, Wanted, Grid.Clusters, RemoveState, Awaiting, SquaresOf, BeyondKept;
    ghost var k0, d := Pos(cx, cy), Dir(dx, dy);
    ghost var k, cl := Back(k0, d), g.Clusters();
    BeforeRemove(g, q, cl, k0, d, P);
    RemoveConnectionsToAdjacentCluster(g, cx - dx, cy - dy, dx, dy, q, ALL_DIRS);
    AfterRemove(g, q, cl, g.Clusters(), k0, d, P);
    OneChanged(g, cl, g.Clusters(), k);
  }

  lemma OneChanged(g: Grid, cl: imap<Pos, Cluster>, cl': imap<Pos, Cluster>, k: Pos)
    requires !g.HasPos(k) ==> cl' == cl
    requires g.HasPos(k) ==> k in cl && k in cl' && cl' == cl[k := cl'[k]]
    ensures BeyondKept(g.cw, g.ch, cl, cl')
  {}

  lemma BeforeRemove(g: Grid, q: Squares, cl: imap<Pos, Cluster>, k0: Pos, d: Dir, P: set<Dir>)
    requires IsDir(d) && d !in P && g.HasPos(k0) && Awaiting(q, g.cw, g.ch, cl, k0, P)
    ensures var k := Back(k0, d);
            g.HasPos(k) ==>
              && k in cl && Lists(cl[k], Wanted(q, k, ALL_DIRS))
              && BothNumbered(q, k, d, cl[k].numEdgeClumps)
  {
    var k := Back(k0, d);
    if g.HasPos(k) {
      ClumpedSurroundings(q, g.cw, g.ch, cl, k);
      assert Waits(q, cl, k, k0, P);
      MissingStep(k, k0, d);
      assert ALL_DIRS - {} == ALL_DIRS;
      assert Step(k, d) == k0;
    }
  }

  lemma AfterRemove(g: Grid, q: Squares, cl: imap<Pos, Cluster>, cl': imap<Pos, Cluster>, k0: Pos, d: Dir, P: set<Dir>)
    requires IsDir(d) && g.HasPos(k0) && Awaiting(q, g.cw, g.ch, cl, k0, P) && Back(k0, d) != k0
    requires !g.HasPos(Back(k0, d)) ==> cl' == cl
    requires g.HasPos(Back(k0, d)) ==>
               && Back(k0, d) in cl && Back(k0, d) in cl'
               && cl' == cl[Back(k0, d) := cl'[Back(k0, d)]]
               && RemoveState(q, Back(k0, d), ALL_DIRS, d, q.s, cl[Back(k0, d)], cl'[Back(k0, d)])
    ensures Awaiting(q, g.cw, g.ch, cl', k0, P + {d})
  {
    hide Lists, Wanted;
    var k := Back(k0, d);
    if g.HasPos(k) {
      Removed(q, k, ALL_DIRS, d, cl[k], cl'[k]);
      assert Waits(q, cl, k, k0, P);
      MissingStep(k, k0, d);
      assert Missing(k, k0, P + {d}) == {d};
      ShapeKept(cl[k], cl'[k]);
      ClumpedUpdate(q, g.cw, g.ch, cl, k, cl'[k]);
      assert Waits(q, cl', k, k0, P + {d});
    }
    forall k' | InGrid(g.cw, g.ch, k') && Step(k', d) == k0 ensures k' == k {}
    AwaitingMove(q, g.cw, g.ch, cl, cl', k0, P, P + {d}, d);
  }

  /**
   stbcc__add_connections_to_adjacent_cluster_with_rebuild for the neighbour from
   which (dx, dy) leads to (cx, cy).
   */
  method AddToWithRebuild(g: Grid, cx: int, cy: int, dx: int, dy: int, ghost q: Squares, ghost P: set<Dir>)
    requires g.Dims() && IsDir(Dir(dx, dy)) && q == SquaresOf(g) && Dir(dx, dy) in P
    requires Awaiting(q, g.cw, g.ch, g.Clusters(), Pos(cx, cy), P) && g.HasPos(Pos(cx, cy))
    modifies g.cluster
    ensures Awaiting(q, g.cw, g.ch, g.Clusters(), Pos(cx, cy), P - {Dir(dx, dy)})
    ensures g.Clusters()[Pos(cx, cy)] == old(g.Clusters())[Pos(cx, cy)]
    ensures BeyondKept(g.cw, g.ch, old(g.Clusters()), g.Clusters())
  {
    hide BeyondKept, Clumped, Lists, Wanted, Grid.Clusters, AddOutcome, Awaiting, SquaresOf, Complete, Surroundings,
        BothNumbered,
        ClumpsKept, Sized;
    ghost var k0, d := Pos(cx, cy), Dir(dx, dy);
    ghost var k, cl := Back(k0, d), g.Clusters();
    var nx, ny := cx - dx, cy - dy;
    if nx >= 0 && nx < g.cw && ny >= 0 && ny < g.ch {
      BeforeAdd(g, q, cl, k0, d, P);
      AddConnectionsToAdjacentCluster(g, nx, ny, dx, dy, q, ALL_DIRS - {d});
      ghost var cl1 := g.Clusters();
      var flagged := Flagged(g, nx, ny);
      AfterAdd(g, q, cl, cl1, k0, d, P);
      OneChanged(g, cl, cl1, k);
      if flagged {
        BuildAllConnectionsForCluster(g, nx, ny, q);
        AfterRebuild(g, q, cl, cl1, g.Clusters(), k0, d, P);
        OneChanged(g, cl, g.Clusters(), k);
      }
    } else {
      NoNeighbour(g, q, cl, k0, d, P);
      OneChanged(g, cl, g.Clusters(), k);
    }
  }

  lemma BeforeAdd(g: Grid, q: Squares, cl: imap<Pos, Cluster>, k0: Pos, d: Dir, P: set<Dir>)
    requires IsDir(d) && d in P && g.HasPos(k0) && g.HasPos(Back(k0, d)) && Awaiting(q, g.cw, g.ch, cl, k0, P)
    ensures var k := Back(k0, d);
            k in cl && !cl[k].rebuildAdjacency && Lists(cl[k], Wanted(q, k, ALL_DIRS - {d}))
                && BothNumbered(q, k, d, cl[k].numEdgeClumps)
  {
    var k := Back(k0, d);
    ClumpedSurroundings(q, g.cw, g.ch, cl, k);
    assert Waits(q, cl, k, k0, P);
    MissingStep(k, k0, d);
    assert Missing(k, k0, P) == {d};
    assert Step(k, d) == k0;
  }

  /** Either the entries for k0 are all back, or the record is ready to be rebuilt. */
  lemma AfterAdd(g: Grid, q: Squares, cl: imap<Pos, Cluster>, cl': imap<Pos, Cluster>, k0: Pos, d: Dir, P: set<Dir>)
    requires IsDir(d) && d in P && g.HasPos(k0) && g.HasPos(Back(k0, d)) && Awaiting(q, g.cw, g.ch, cl, k0, P)
    requires var k := Back(k0, d);
             k in cl && k in cl' && cl' == cl[k := cl'[k]] && AddOutcome(q, k, ALL_DIRS - {d}, d, cl[k], cl'[k])
    ensures var c := cl'[Back(k0, d)];
            if c.rebuildAdjacency
            then Clumped(q, g.cw, g.ch, cl') && Sized(q.s, c) && 0 <= c.numEdgeClumps <= MaxClumps(q.s)
                && c.numEdgeClumps <= MaxExits(q.s)
                 && Surroundings(q, Back(k0, d), c.numEdgeClumps)
            else Awaiting(q, g.cw, g.ch, cl', k0, P - {d})
  {
    var k := Back(k0, d);
    if !cl'[k].rebuildAdjacency {
      Added(q, k, ALL_DIRS - {d}, d, cl[k], cl'[k]);
    }
    hide Lists, Wanted, AddState;
    ShapeKept(cl[k], cl'[k]);
    ClumpedUpdate(q, g.cw, g.ch, cl, k, cl'[k]);
    if cl'[k].rebuildAdjacency {
      ClumpedSurroundings(q, g.cw, g.ch, cl', k);
      assert ClusterOk(q, k, cl'[k]);
    } else {
      assert ALL_DIRS - {d} + {d} == ALL_DIRS;
      ListsAgain(g, q, cl, cl', k0, d, P);
    }
  }

  lemma ListsAgain(g: Grid, q: Squares, cl: imap<Pos, Cluster>, cl': imap<Pos, Cluster>, k0: Pos, d: Dir, P: set<Dir>)
    requires IsDir(d) && d in P && g.HasPos(k0) && g.HasPos(Back(k0, d)) && Awaiting(q, g.cw, g.ch, cl, k0, P)
    requires Clumped(q, g.cw, g.ch, cl')
    requires var k := Back(k0, d);
             k in cl && k in cl' && cl' == cl[k := cl'[k]] && !cl'[k].rebuildAdjacency
                 && Lists(cl'[k], Wanted(q, k, ALL_DIRS))
    ensures Awaiting(q, g.cw, g.ch, cl', k0, P - {d})
  {
    hide Lists, Wanted, Clumped;
    var k := Back(k0, d);
    MissingStep(k, k0, d);
    assert Missing(k, k0, P - {d}) == {};
    assert ALL_DIRS - {} == ALL_DIRS;
    assert Waits(q, cl', k, k0, P - {d});
    forall k' | InGrid(g.cw, g.ch, k') && Step(k', d) == k0 ensures k' == k {}
    ClumpedKeys(q, g.cw, g.ch, cl');
    AwaitingClumped(q, g.cw, g.ch, cl, k0, P);
    ClumpedKeys(q, g.cw, g.ch, cl);
    AwaitingMove(q, g.cw, g.ch, cl, cl', k0, P, P - {d}, d);
  }

  lemma AwaitingClumped(q: Squares, cw: int, ch: int, cl: imap<Pos, Cluster>, k0: Pos, P: set<Dir>)
    requires Awaiting(q, cw, ch, cl, k0, P)
    ensures Clumped(q, cw, ch, cl)
  {}

  lemma AfterRebuild(g: Grid, q: Squares, cl: imap<Pos, Cluster>, cl1: imap<Pos, Cluster>, cl': imap<Pos, Cluster>,
                     k0: Pos, d: Dir, P: set<Dir>)
    requires IsDir(d) && d in P && g.HasPos(k0) && g.HasPos(Back(k0, d)) && Awaiting(q, g.cw, g.ch, cl, k0, P)
    requires Clumped(q, g.cw, g.ch, cl1)
    requires var k := Back(k0, d);
             && k in cl && k in cl1 && k in cl' && cl1 == cl[k := cl1[k]] && cl' == cl1[k := cl'[k]]
             && ClumpsKept(cl1[k], cl'[k]) && Complete(q, k, cl'[k])
    ensures Awaiting(q, g.cw, g.ch, cl', k0, P - {d})
  {
    hide Lists, Wanted, Clumped, ClumpsKept;
    var k := Back(k0, d);
    ClumpedUpdate(q, g.cw, g.ch, cl1, k, cl'[k]);
    assert cl' == cl[k := cl'[k]];
    ListsAgain(g, q, cl, cl', k0, d, P);
  }

  lemma NoNeighbour(g: Grid, q: Squares, cl: imap<Pos, Cluster>, k0: Pos, d: Dir, P: set<Dir>)
    requires IsDir(d) && g.HasPos(k0) && !g.HasPos(Back(k0, d)) && Awaiting(q, g.cw, g.ch, cl, k0, P)
    ensures Awaiting(q, g.cw, g.ch, cl, k0, P - {d})
  {
    hide Lists, Wanted;
    forall k' | InGrid(g.cw, g.ch, k') ensures Step(k', d) != k0 {
      assert k' == Back(k0, d) || Step(k', d) != k0;
    }
    AwaitingMove(q, g.cw, g.ch, cl, cl, k0, P, P - {d}, d);
  }

  /** q' differs from q inside cluster k0 only. */
  ghost predicate SameOutside(q: Squares, q': Squares, k0: Pos) {
    && q'.s == q.s
    && forall a: Addr {:trigger q'.IdOf(a)} {:trigger a in q'.open} :: a.k != k0 ==>
         (a in q.open <==> a in q'.open) && q.IdOf(a) == q'.IdOf(a)
  }

  lemma WantedElsewhere(q: Squares, q': Squares, k: Pos, k0: Pos, D: set<Dir>)
    requires SameOutside(q, q', k0) && k != k0 && forall d :: d in D ==> Step(k, d) != k0
    ensures Wanted(q, k, D) == Wanted(q', k, D)
  {
    forall d | d in D ensures q.Pairs(k, d, q.s) == q'.Pairs(k, d, q.s) {
      PairsLocal(q, q', k, d, q.s);
    }
  }

  lemma ClusterElsewhere(q: Squares, q': Squares, k: Pos, k0: Pos, c: Cluster)
    requires SameOutside(q, q', k0) && k != k0 && ClusterOk(q, k, c)
    ensures ClusterOk(q', k, c)
  {
    assert LocalOf(q', k) == LocalOf(q, k);
    assert LocalIdsOf(q', k) == LocalIdsOf(q, k);
  }

  /** Rebuilding the clumps of k0 disturbs no other cluster, once nobody lists k0's old clumps. */
  lemma AwaitingRebuilt(q: Squares, q': Squares, cw: int, ch: int, cl: imap<Pos, Cluster>, cl': imap<Pos, Cluster>,
                        k0: Pos)
    requires Awaiting(q, cw, ch, cl, k0, ALL_DIRS) && InGrid(cw, ch, k0) && SameOutside(q, q', k0)
    requires k0 in cl' && cl' == cl[k0 := cl'[k0]] && ClusterOk(q', k0, cl'[k0])
    requires forall a: Addr {:trigger a in q'.open} :: a in q'.open ==> InGrid(cw, ch, a.k) && InBox(q'.s, a.l)
    ensures Awaiting(q', cw, ch, cl', k0, ALL_DIRS)
  {
    hide ClusterOk, Lists, Wanted;
    forall k | InGrid(cw, ch, k) ensures ClusterOk(q', k, cl'[k]) {
      assert ClusterOk(q, k, cl[k]);
      if k != k0 { ClusterElsewhere(q, q', k, k0, cl[k]); }
    }
    forall k | InGrid(cw, ch, k) && k != k0 ensures Waits(q', cl', k, k0, ALL_DIRS) {
      assert Waits(q, cl, k, k0, ALL_DIRS);
      WantedElsewhere(q, q', k, k0, ALL_DIRS - Missing(k, k0, ALL_DIRS));
    }
  }

  /** With k0 itself up to date and nothing missing, all lists are complete. */
  lemma AwaitingDone(q: Squares, cw: int, ch: int, cl: imap<Pos, Cluster>, k0: Pos)
    requires Awaiting(q, cw, ch, cl, k0, {}) && k0 in cl && Complete(q, k0, cl[k0])
    ensures Listing(q, cw, ch, cl)
  {
    hide Lists, Wanted;
    forall k | InGrid(cw, ch, k) ensures Complete(q, k, cl[k]) {
      if k != k0 {
        assert Waits(q, cl, k, k0, {});
        assert ALL_DIRS - Missing(k, k0, {}) == ALL_DIRS;
      }
    }
  }

  lemma ListingAwaits(q: Squares, cw: int, ch: int, cl: imap<Pos, Cluster>, k0: Pos)
    requires Listing(q, cw, ch, cl)
    ensures Awaiting(q, cw, ch, cl, k0, {})
  {
    hide Lists, Wanted;
    forall k | InGrid(cw, ch, k) && k != k0 ensures Waits(q, cl, k, k0, {}) {
      assert Complete(q, k, cl[k]);
      assert ALL_DIRS - Missing(k, k0, {}) == ALL_DIRS;
    }
  }

  lemma AwaitingKeepsWithK0(q: Squares, cw: int, ch: int, cl: imap<Pos, Cluster>, k0: Pos, c: Cluster, P: set<Dir>)
    requires Awaiting(q, cw, ch, cl, k0, P) && InGrid(cw, ch, k0) && ClumpsKept(cl[k0], c)
    ensures Awaiting(q, cw, ch, cl[k0 := c], k0, P)
  {
    hide Lists, Wanted, ClumpsKept;
    var cl' := cl[k0 := c];
    ClumpedUpdate(q, cw, ch, cl, k0, c);
    forall k | InGrid(cw, ch, k) && k != k0 ensures Waits(q, cl', k, k0, P) {
      assert Waits(q, cl, k, k0, P);
    }
  }
}
