/** stbcc__build_clumps_for_cluster: storing a cluster's new clumps in the grid. */
module ClusterStore {
  import opened GridModel
  import opened GridState
  import opened LabelSpec
  import opened ClusterLabels

  /** Different addresses are different squares of the map. */
  lemma AddressesDiffer(g: Grid, a: Addr, b: Addr)
    requires g.Memory() && InBox(g.size, a.l) && InBox(g.size, b.l)
    requires a.k.cx * g.size + a.l.x == b.k.cx * g.size + b.l.x
    requires a.k.cy * g.size + a.l.y == b.k.cy * g.size + b.l.y
    ensures a == b
  {
    SameQuotient(g.size, a.k.cx, a.l.x, b.k.cx, b.l.x);
    SameQuotient(g.size, a.k.cy, a.l.y, b.k.cy, b.l.y);
  }

  method SetId(g: Grid, x: int, y: int, ghost a: Addr, id: int)
    requires g.Memory() && g.HasSlot(a.k) && InBox(g.size, a.l)
    requires x == a.k.cx * g.size + a.l.x && y == a.k.cy * g.size + a.l.y
    modifies g.clumpForNode
    ensures g.Ids() == old(g.Ids())[a := id]
  {
    g.SlotBases(a.k);
    ghost var before := g.Ids();
    g.clumpForNode[y, x] := id;
    forall b: Addr | g.HasSlot(b.k) && InBox(g.size, b.l)
      ensures g.IdAt(b) == before[a := id][b]
    {
      g.SlotBases(b.k);
      if b.k.cx * g.size + b.l.x == x && b.k.cy * g.size + b.l.y == y {
        AddressesDiffer(g, b, a);
      }
    }
  }

  /** ids with the labels of cluster k's squares before (i, j) replaced. */
  ghost function Relabelled(s: int, ids: imap<Addr, int>, k: Pos, lab: imap<Cell, int>, j: int, i: int): imap<Addr, int>
    requires lab.Keys == Box(s)
  {
    imap a: Addr | a in ids :: if a.k == k && InBox(s, a.l) && Before(j, i, a.l) then lab[a.l] else ids[a]
  }

  lemma RelabelStep(s: int, ids: imap<Addr, int>, k: Pos, lab: imap<Cell, int>, j: int, i: int)
    requires lab.Keys == Box(s) && InBox(s, Cell(i, j)) && Addr(k, Cell(i, j)) in ids
    ensures Relabelled(s, ids, k, lab, j, i)[Addr(k, Cell(i, j)) := lab[Cell(i, j)]]
            == Relabelled(s, ids, k, lab, j, i + 1)
  {}

  lemma RelabelRow(s: int, ids: imap<Addr, int>, k: Pos, lab: imap<Cell, int>, j: int)
    requires lab.Keys == Box(s)
    ensures Relabelled(s, ids, k, lab, j, s) == Relabelled(s, ids, k, lab, j + 1, 0)
    ensures Relabelled(s, ids, k, lab, 0, 0) == ids
  {}

  /** Copies the labels of cluster k's squares into the grid and touches no other square. */
  method StoreLabels(g: Grid, ghost k: Pos, x: int, y: int, labels: array2<int>)
    requires g.Memory() && g.HasSlot(k) && x == k.cx * g.size && y == k.cy * g.size
    requires labels.Length0 == labels.Length1 == g.size && labels != g.clumpForNode
    modifies g.clumpForNode
    ensures g.Ids() == Relabelled(g.size, old(g.Ids()), k, Labels(labels), g.size, 0)
  {
    hide Grid.Ids, Relabelled;
    ghost var lab, before := Labels(labels), g.Ids();
    RelabelRow(g.size, before, k, lab, 0);
    for j := 0 to g.size
      invariant Labels(labels) == lab
      invariant g.Ids() == Relabelled(g.size, before, k, lab, j, 0)
    {
      for i := 0 to g.size
        invariant Labels(labels) == lab
        invariant g.Ids() == Relabelled(g.size, before, k, lab, j, i)
      {
        RelabelStep(g.size, before, k, lab, j, i);
        assert labels[j, i] == lab[Cell(i, j)];
        SetId(g, x + i, y + j, Addr(k, Cell(i, j)), labels[j, i]);
      }
      RelabelRow(g.size, before, k, lab, j);
    }
  }

  /** The record's arrays have their compile-time sizes. */
  ghost predicate Sized(s: int, c: Cluster) {
    |c.clump| == MaxClumps(s) && |c.storage| == AdjacencyCount(s)
  }

  /** Fresh clump records: no adjacency slots yet, and interior clumps are their own component. */
  method ResetClumps(clump: seq<Clump>, numEdge: int, n: int, cx: int, cy: int) returns (r: seq<Clump>)
    requires 0 <= numEdge <= n <= |clump|
    ensures |r| == |clump|
    ensures forall i :: 0 <= i < n ==> r[i].numAdjacent == 0 && r[i].maxAdjacent == 0
    ensures forall i :: numEdge <= i < n ==> r[i].globalLabel == ClumpId(i, cx, cy)
    ensures forall i :: n <= i < |r| ==> r[i] == clump[i]
  {
    r := clump;
    for i := 0 to n
      invariant |r| == |clump|
      invariant forall m :: 0 <= m < i ==> r[m].numAdjacent == 0 && r[m].maxAdjacent == 0
      invariant forall m :: n <= m < |r| ==> r[m] == clump[m]
    {
      r := r[i := r[i].(numAdjacent := 0, maxAdjacent := 0)];
    }
    for i := numEdge to n
      invariant |r| == |clump|
      invariant forall m :: 0 <= m < n ==> r[m].numAdjacent == 0 && r[m].maxAdjacent == 0
      invariant forall m :: numEdge <= m < i ==> r[m].globalLabel == ClumpId(m, cx, cy)
      invariant forall m :: n <= m < |r| ==> r[m] == clump[m]
    {
      r := r[i := r[i].(globalLabel := ClumpId(i, cx, cy))];
    }
  }

  /** A cluster whose clumps have just been rebuilt: no adjacency, interior clumps labelled by themselves. */
  ghost predicate JustBuilt(c: Cluster, before: Cluster, k: Pos)
  {
    && |c.clump| == |before.clump| && c.storage == before.storage && c.rebuildAdjacency
    && 0 <= c.numEdgeClumps <= c.numClumps <= |c.clump|
    && (forall i {:trigger c.clump[i]} :: 0 <= i < c.numClumps ==> c.clump[i].numAdjacent == 0)
    && (forall i {:trigger c.clump[i]} :: c.numEdgeClumps <= i < c.numClumps ==>
        c.clump[i].globalLabel == ClumpId(i, k.cx, k.cy))
  }

  lemma StoredIds(g: Grid, k: Pos, ids: imap<Addr, int>, lab: imap<Cell, int>)
    requires g.Memory() && g.HasSlot(k) && lab.Keys == Box(g.size)
             && (forall a :: a in ids <==> g.HasSlot(a.k) && InBox(g.size, a.l))
    requires g.Ids() == Relabelled(g.size, ids, k, lab, g.size, 0)
    ensures g.LocalIds(k) == lab
    ensures forall a {:trigger g.Ids()[a]} :: a in ids && a.k != k ==> g.Ids()[a] == ids[a]
  {
    forall l | InBox(g.size, l) ensures g.LocalIds(k)[l] == lab[l] {
      assert g.Ids()[Addr(k, l)] == g.IdAt(Addr(k, l));
    }
  }

  /** Recomputes the clumps of cluster (cx, cy); no other cluster and no other square is touched. */
  method BuildClumpsForCluster(g: Grid, cx: int, cy: int)
    requires g.Memory() && g.HasSlot(Pos(cx, cy)) && Sized(g.size, g.cluster[cy, cx])
    modifies g.clumpForNode, g.cluster
    ensures g.Clusters() == old(g.Clusters())[Pos(cx, cy) := g.cluster[cy, cx]]
    ensures JustBuilt(g.cluster[cy, cx], old(g.cluster[cy, cx]), Pos(cx, cy))
    ensures LabelsOk(g.size, g.LocalOpen(Pos(cx, cy)), g.LocalIds(Pos(cx, cy)), g.cluster[cy, cx].numEdgeClumps,
            g.cluster[cy, cx].numClumps)
    ensures forall a {:trigger g.Ids()[a]} :: a in g.Ids() && a.k != Pos(cx, cy) ==> g.Ids()[a] == old(g.Ids())[a]
  {
    hide Grid.Ids, Grid.LocalOpen, Grid.LocalIds, Relabelled, Labels;
    ghost var k := Pos(cx, cy);
    ghost var L, ids := g.LocalOpen(k), g.Ids();
    var labels, numEdge, n := ComputeLabels(g, k, cx * g.size, cy * g.size);
    ghost var lab := Labels(labels);
    StoreLabels(g, k, cx * g.size, cy * g.size, labels);
    StoredIds(g, k, ids, lab);
    var c := g.cluster[cy, cx];
    var clump := ResetClumps(c.clump, numEdge, n, cx, cy);
    StoreCluster(g, cx, cy, c.(numClumps := n, numEdgeClumps := numEdge, rebuildAdjacency := true, clump := clump));
  }

  method StoreCluster(g: Grid, cx: int, cy: int, c: Cluster)
    requires g.Memory() && g.HasSlot(Pos(cx, cy))
    modifies g.cluster
    ensures g.cluster[cy, cx] == c && g.Clusters() == old(g.Clusters())[Pos(cx, cy) := c]
  {
    ghost var before := g.Clusters();
    g.cluster[cy, cx] := c;
    assert g.Clusters() == before[Pos(cx, cy) := c];
  }
}
