/** stbcc__build_clumps_for_cluster: the labelling passes over the joined squares. */
module ClusterLabels {
  import opened Forests
  import opened Partitions
  import opened GridModel
  import opened GridState
  import opened ClusterBuild
  import opened LabelSpec

  ghost function Labels(labels: array2<int>): imap<Cell, int>
    requires labels.Length0 == labels.Length1
    reads labels
  {
    imap l: Cell | InBox(labels.Length0, l) :: labels[l.y, l.x]
  }

  /** The classes of the forest, its ranks, and the labelled roots in label order. */
  datatype Ghosts = Ghosts(ghost rep: imap<Cell, Cell>, ghost rank: imap<Cell, nat>, ghost q: seq<Cell>)

  /** The cluster under construction: its open squares, its forest and the classes of the forest. */
  ghost predicate Partitioned(s: int, L: iset<Cell>, parent: array2<Cell>, rep: imap<Cell, Cell>, rank: imap<Cell, nat>)
    requires parent.Length0 == parent.Length1
    reads parent
  {
    parent.Length0 == s && Forest(Parents(parent), rep, rank) && rep.Keys == Box(s) && Exact(Edges(L), rep)
  }

  /** Makes (x, y), a member of the tree rooted at p, the root of that tree. */
  method SwitchRoot(parent: array2<Cell>, ghost rep: imap<Cell, Cell>, ghost rank: imap<Cell, nat>, x: int, y: int,
                    p: Cell)
    returns (ghost rep': imap<Cell, Cell>, ghost rank': imap<Cell, nat>)
    requires parent.Length0 == parent.Length1 && InBox(parent.Length0, Cell(x, y))
    requires Forest(Parents(parent), rep, rank) && rep[Cell(x, y)] == p && p != Cell(x, y)
    modifies parent
    ensures Forest(Parents(parent), rep', rank') && rep' == Redirect(rep, p, Cell(x, y))
    ensures rep'.Keys == rep.Keys && forall l :: l in rep ==> rep'[l] == if rep[l] == p then Cell(x, y) else rep[l]
  {
    ghost var before, n := Parents(parent), Cell(x, y);
    Reroot(before, rep, rank, n, p);
    parent[p.y, p.x] := Cell(x, y);
    parent[y, x] := Cell(x, y);
    assert Parents(parent) == before[p := n][n := n];
    rep', rank' := Redirect(rep, p, n), RerootRank(rep, rank, p, n);
  }

  method PromoteToRoot(s: int, ghost L: iset<Cell>, i: int, j: int, parent: array2<Cell>, ghost gh: Ghosts, p: Cell)
    returns (ghost gh': Ghosts)
    requires parent.Length0 == parent.Length1 && InBox(s, Cell(i, j))
    requires Partitioned(s, L, parent, gh.rep, gh.rank) && p == gh.rep[Cell(i, j)] && p != Cell(i, j)
    modifies parent
    ensures Partitioned(s, L, parent, gh'.rep, gh'.rank) && gh'.rep == Redirect(gh.rep, p, Cell(i, j)) && gh'.q == gh.q
  {
    ForestRooted(Parents(parent), gh.rep, gh.rank);
    RenameKeepsExact(Edges(L), gh.rep, p, Cell(i, j));
    ghost var rep', rank' := SwitchRoot(parent, gh.rep, gh.rank, i, j, p);
    gh' := Ghosts(rep', rank', gh.q);
  }

  method SetLabel(labels: array2<int>, i: int, j: int, value: int)
    requires labels.Length0 == labels.Length1 && InBox(labels.Length0, Cell(i, j))
    modifies labels
    ensures Labels(labels) == old(Labels(labels))[Cell(i, j) := value]
  {
    ghost var before := Labels(labels);
    labels[j, i] := value;
    assert Labels(labels) == before[Cell(i, j) := value];
  }

  /** Between two border squares: the partition is intact and the squares seen so far are labelled. */
  ghost predicate EdgeState(s: int, L: iset<Cell>, parent: array2<Cell>, labels: array2<int>, n: int, gh: Ghosts,
                            seen: iset<Cell>)
    requires parent.Length0 == parent.Length1 && labels.Length0 == labels.Length1
    reads parent, labels
  {
    && Partitioned(s, L, parent, gh.rep, gh.rank)
    && EdgePass(s, L, gh.rep, Labels(labels), gh.q, seen)
    && n == |gh.q|
  }

  /** Labels a border square that leads its clump. */
  method LabelLeader(s: int, ghost L: iset<Cell>, i: int, j: int, parent: array2<Cell>, labels: array2<int>, n: int,
                     ghost gh: Ghosts, ghost seen: iset<Cell>)
    returns (n': int, ghost gh': Ghosts)
    requires parent.Length0 == parent.Length1 && labels.Length0 == labels.Length1
    requires InBox(s, Cell(i, j)) && OnBorder(s, Cell(i, j)) && Cell(i, j) !in seen && Cell(i, j) in L
    requires EdgeState(s, L, parent, labels, n, gh, seen) && gh.rep[Cell(i, j)] == Cell(i, j)
    modifies labels
    ensures EdgeState(s, L, parent, labels, n', gh', seen + iset{Cell(i, j)})
  {
    ghost var v, lab := Cell(i, j), Labels(labels);
    VisitLeader(s, L, gh.rep, lab, gh.q, seen, v);
    SetLabel(labels, i, j, n);
    assert Partitioned(s, L, parent, gh.rep, gh.rank);
    n', gh' := n + 1, gh.(q := gh.q + [v]);
  }

  /** Decides whether open border square (i, j) leads its clump, promoting it over an interior leader. */
  method BecomeLeader(s: int, ghost L: iset<Cell>, i: int, j: int, parent: array2<Cell>, labels: array2<int>,
                      ghost n: int,
                      ghost gh: Ghosts, ghost seen: iset<Cell>)
    returns (leads: bool, ghost gh': Ghosts)
    requires parent.Length0 == parent.Length1 && labels.Length0 == labels.Length1
    requires InBox(s, Cell(i, j)) && OnBorder(s, Cell(i, j)) && Cell(i, j) !in seen && Cell(i, j) in L
    requires EdgeState(s, L, parent, labels, n, gh, seen)
    modifies parent
    ensures EdgeState(s, L, parent, labels, n, gh', seen)
    ensures leads <==> gh'.rep[Cell(i, j)] == Cell(i, j)
    ensures OnBorder(s, gh'.rep[Cell(i, j)])
  {
    hide Labels;
    ghost var lab := Labels(labels);
    gh' := gh;
    var p := InclusterFind(parent, gh.rep, gh.rank, i, j);
    leads := p.x == i && p.y == j;
    if !leads && !(p.x == 0 || p.x == s - 1 || p.y == 0 || p.y == s - 1) {
      // the leader is in the interior: promote this border square
      VisitPromote(s, L, gh.rep, lab, gh.q, seen, Cell(i, j));
      gh' := PromoteToRoot(s, L, i, j, parent, gh, p);
      leads := true;
    }
    assert Labels(labels) == lab;
  }

  /** Whether square (i, j) of the cluster with corner (x, y) is open. */
  method MapOpen(g: Grid, ghost k: Pos, ghost L: iset<Cell>, x: int, y: int, i: int, j: int) returns (isOpen: bool)
    requires g.Memory() && g.HasSlot(k) && L == g.LocalOpen(k) && x == k.cx * g.size && y == k.cy * g.size
             && InBox(g.size, Cell(i, j))
    ensures isOpen <==> Cell(i, j) in L
  {
    g.SlotBases(k);
    isOpen := g.open[y + j, x + i];
    assert g.OpenAt(Addr(k, Cell(i, j))) == isOpen;
  }

  /** Gives border square (i, j) the next label if it is, or can be made, the leader of its clump. */
  method VisitEdgeSquare(g: Grid, ghost k: Pos, ghost L: iset<Cell>, x: int, y: int, i: int, j: int,
                         parent: array2<Cell>, labels: array2<int>, n: int, ghost gh: Ghosts, ghost seen: iset<Cell>)
    returns (n': int, ghost gh': Ghosts)
    requires g.Memory() && g.HasSlot(k) && L == g.LocalOpen(k) && x == k.cx * g.size && y == k.cy * g.size
    requires parent.Length0 == parent.Length1 && labels.Length0 == labels.Length1
    requires InBox(g.size, Cell(i, j)) && OnBorder(g.size, Cell(i, j)) && Cell(i, j) !in seen
    requires EdgeState(g.size, L, parent, labels, n, gh, seen)
    modifies parent, labels
    ensures EdgeState(g.size, L, parent, labels, n', gh', seen + iset{Cell(i, j)})
  {
    var s := g.size;
    var isOpen := MapOpen(g, k, L, x, y, i, j);
    n', gh' := n, gh;
    if isOpen {
      var leads;
      leads, gh' := BecomeLeader(s, L, i, j, parent, labels, n, gh, seen);
      if leads {
        n', gh' := LabelLeader(s, L, i, j, parent, labels, n, gh', seen);
        return;
      }
    }
    VisitSkip(s, L, gh'.rep, Labels(labels), gh'.q, seen, Cell(i, j));
  }

  /** The labels a closed border square keeps; those of open squares are overwritten later. */
  method InitBorderLabels(s: int) returns (labels: array2<int>)
    requires s >= 2
    ensures fresh(labels) && labels.Length0 == labels.Length1 == s
    ensures forall l {:trigger labels[l.y, l.x]} :: InBox(s, l) && OnBorder(s, l) ==> labels[l.y, l.x] == MaxClumps(s)
  {
    labels := new int[s, s];
    for j := 0 to s
      invariant forall l {:trigger labels[l.y, l.x]} :: InBox(s, l) && (l.x == 0 || l.x == s - 1) && l.y < j ==>
                labels[l.y, l.x] == MaxClumps(s)
    {
      labels[j, 0] := MaxClumps(s);
      labels[j, s - 1] := MaxClumps(s);
    }
    for i := 0 to s
      invariant forall l {:trigger labels[l.y, l.x]} :: InBox(s, l) && (l.x == 0 || l.x == s - 1) ==>
                labels[l.y, l.x] == MaxClumps(s)
      invariant forall l {:trigger labels[l.y, l.x]} :: InBox(s, l) && (l.y == 0 || l.y == s - 1) && l.x < i ==>
                labels[l.y, l.x] == MaxClumps(s)
    {
      labels[0, i] := MaxClumps(s);
      labels[s - 1, i] := MaxClumps(s);
    }
  }

  lemma StartEdges(s: int, L: iset<Cell>, parent: array2<Cell>, labels: array2<int>, gh: Ghosts)
    requires parent.Length0 == parent.Length1 && labels.Length0 == labels.Length1 == s
    requires Partitioned(s, L, parent, gh.rep, gh.rank) && gh.q == []
    requires forall l {:trigger labels[l.y, l.x]} :: InBox(s, l) && OnBorder(s, l) ==> labels[l.y, l.x] == MaxClumps(s)
    ensures EdgeState(s, L, parent, labels, 0, gh, iset{})
  {}

  lemma EdgesDone(s: int, L: iset<Cell>, parent: array2<Cell>, labels: array2<int>, n: int, gh: Ghosts)
    requires s >= 2 && parent.Length0 == parent.Length1 && labels.Length0 == labels.Length1
    requires EdgeState(s, L, parent, labels, n, gh, BorderSeen(s, s, s - 1))
    ensures Partitioned(s, L, parent, gh.rep, gh.rank) && n == |gh.q|
    ensures InteriorPass(s, L, gh.rep, Labels(labels), gh.q, n, 1, 1)
  {
    ForestRooted(Parents(parent), gh.rep, gh.rank);
    EdgePassDone(s, L, gh.rep, Labels(labels), gh.q);
  }

  lemma NothingSeen(s: int)
    ensures BorderSeen(s, 0, 1) == iset{}
  {}

  lemma BorderSeenColumn(s: int, j: int)
    requires s >= 2 && 0 <= j < s
    ensures BorderSeen(s, j, 1) + iset{Cell(0, j)} + iset{Cell(s - 1, j)} == BorderSeen(s, j + 1, 1)
    ensures Cell(0, j) !in BorderSeen(s, j, 1) && Cell(s - 1, j) !in BorderSeen(s, j, 1) + iset{Cell(0, j)}
  {}

  lemma BorderSeenRow(s: int, i: int)
    requires s >= 2 && 1 <= i < s - 1
    ensures BorderSeen(s, s, i) + iset{Cell(i, 0)} + iset{Cell(i, s - 1)} == BorderSeen(s, s, i + 1)
    ensures Cell(i, 0) !in BorderSeen(s, s, i) && Cell(i, s - 1) !in BorderSeen(s, s, i) + iset{Cell(i, 0)}
  {}

  method LabelColumns(g: Grid, ghost k: Pos, ghost L: iset<Cell>, x: int, y: int, parent: array2<Cell>,
                      labels: array2<int>, ghost gh0: Ghosts)
    returns (n: int, ghost gh: Ghosts)
    requires g.Memory() && g.HasSlot(k) && L == g.LocalOpen(k) && x == k.cx * g.size && y == k.cy * g.size
    requires parent.Length0 == parent.Length1 && labels.Length0 == labels.Length1
    requires EdgeState(g.size, L, parent, labels, 0, gh0, iset{})
    modifies parent, labels
    ensures EdgeState(g.size, L, parent, labels, n, gh, BorderSeen(g.size, g.size, 1))
  {
    hide EdgeState, BorderSeen;
    var s := g.size;
    n, gh := 0, gh0;
    NothingSeen(s);
    for j := 0 to s
      invariant EdgeState(s, L, parent, labels, n, gh, BorderSeen(s, j, 1))
    {
      BorderSeenColumn(s, j);
      n, gh := VisitEdgeSquare(g, k, L, x, y, 0, j, parent, labels, n, gh, BorderSeen(s, j, 1));
      n, gh := VisitEdgeSquare(g, k, L, x, y, s - 1, j, parent, labels, n, gh, BorderSeen(s, j, 1) + iset{Cell(0, j)});
    }
  }

  method LabelRows(g: Grid, ghost k: Pos, ghost L: iset<Cell>, x: int, y: int, parent: array2<Cell>,
                   labels: array2<int>, n0: int, ghost gh0: Ghosts)
    returns (n: int, ghost gh: Ghosts)
    requires g.Memory() && g.HasSlot(k) && L == g.LocalOpen(k) && x == k.cx * g.size && y == k.cy * g.size
    requires parent.Length0 == parent.Length1 && labels.Length0 == labels.Length1
    requires EdgeState(g.size, L, parent, labels, n0, gh0, BorderSeen(g.size, g.size, 1))
    modifies parent, labels
    ensures EdgeState(g.size, L, parent, labels, n, gh, BorderSeen(g.size, g.size, g.size - 1))
  {
    hide EdgeState, BorderSeen;
    var s := g.size;
    n, gh := n0, gh0;
    for i := 1 to s - 1
      invariant EdgeState(s, L, parent, labels, n, gh, BorderSeen(s, s, i))
    {
      BorderSeenRow(s, i);
      n, gh := VisitEdgeSquare(g, k, L, x, y, i, 0, parent, labels, n, gh, BorderSeen(s, s, i));
      n, gh := VisitEdgeSquare(g, k, L, x, y, i, s - 1, parent, labels, n, gh, BorderSeen(s, s, i) + iset{Cell(i, 0)});
    }
  }

  /** After the border passes the labels in use are exactly those of the clumps touching the border. */
  method LabelEdges(g: Grid, ghost k: Pos, ghost L: iset<Cell>, x: int, y: int, parent: array2<Cell>,
                    ghost rep: imap<Cell, Cell>, ghost rank: imap<Cell, nat>)
    returns (labels: array2<int>, n: int, ghost gh: Ghosts)
    requires g.Memory() && g.HasSlot(k) && L == g.LocalOpen(k) && x == k.cx * g.size && y == k.cy * g.size
    requires parent.Length0 == parent.Length1 && Partitioned(g.size, L, parent, rep, rank)
    modifies parent
    ensures fresh(labels) && labels.Length0 == labels.Length1 == g.size
    ensures Partitioned(g.size, L, parent, gh.rep, gh.rank) && n == |gh.q|
    ensures InteriorPass(g.size, L, gh.rep, Labels(labels), gh.q, n, 1, 1)
  {
    hide EdgeState, Partitioned, InteriorPass, Labels;
    labels := InitBorderLabels(g.size);
    gh := Ghosts(rep, rank, []);
    StartEdges(g.size, L, parent, labels, gh);
    n, gh := LabelColumns(g, k, L, x, y, parent, labels, gh);
    n, gh := LabelRows(g, k, L, x, y, parent, labels, n, gh);
    EdgesDone(g.size, L, parent, labels, n, gh);
  }

  /** Between two squares of the pass that labels interior clumps. */
  ghost predicate InteriorState(s: int, L: iset<Cell>, parent: array2<Cell>, labels: array2<int>, n: int, numEdge: int,
                                gh: Ghosts, j: int, i: int)
    requires parent.Length0 == parent.Length1 && labels.Length0 == labels.Length1
    reads parent, labels
  {
    && Partitioned(s, L, parent, gh.rep, gh.rank)
    && InteriorPass(s, L, gh.rep, Labels(labels), gh.q, numEdge, j, i)
    && n == |gh.q|
  }

  /** A square is its own parent exactly when it leads its class. */
  lemma LeadsIfRoot(s: int, L: iset<Cell>, parent: array2<Cell>, rep: imap<Cell, Cell>, rank: imap<Cell, nat>, v: Cell)
    requires parent.Length0 == parent.Length1 && Partitioned(s, L, parent, rep, rank) && InBox(s, v)
    ensures parent.Length0 == s && v in rep && (parent[v.y, v.x] == v <==> rep[v] == v)
  {
    assert NodeOk(Parents(parent), rep, rank, v);
  }

  method LabelInteriorSquare(g: Grid, ghost k: Pos, ghost L: iset<Cell>, x: int, y: int, i: int, j: int,
                             parent: array2<Cell>, labels: array2<int>, n: int, ghost numEdge: int, ghost gh: Ghosts)
    returns (n': int, ghost gh': Ghosts)
    requires g.Memory() && g.HasSlot(k) && L == g.LocalOpen(k) && x == k.cx * g.size && y == k.cy * g.size
    requires parent.Length0 == parent.Length1 && labels.Length0 == labels.Length1 == g.size
    requires 1 <= i < g.size - 1 && 1 <= j < g.size - 1
    requires InteriorState(g.size, L, parent, labels, n, numEdge, gh, j, i)
    modifies labels
    ensures InteriorState(g.size, L, parent, labels, n', numEdge, gh', j, i + 1)
  {
    hide Exact, InteriorPass, Grid.LocalOpen, Partitioned, Labels;
    ghost var v := Cell(i, j);
    n', gh' := n, gh;
    VisitInterior(g.size, L, gh.rep, Labels(labels), gh.q, numEdge, j, i);
    LeadsIfRoot(g.size, L, parent, gh.rep, gh.rank, v);
    var p := parent[j, i];
    if p.x == i && p.y == j {
      var isOpen := MapOpen(g, k, L, x, y, i, j);
      if isOpen {
        SetLabel(labels, i, j, n);
        n', gh' := n + 1, gh.(q := gh.q + [v]);
      } else {
        SetLabel(labels, i, j, MaxClumps(g.size));
      }
    }
  }

  lemma NextInteriorRow(s: int, L: iset<Cell>, parent: array2<Cell>, labels: array2<int>, n: int, numEdge: int,
                        gh: Ghosts, j: int)
    requires s >= 2 && parent.Length0 == parent.Length1 && labels.Length0 == labels.Length1
    requires InteriorState(s, L, parent, labels, n, numEdge, gh, j, s - 1)
    ensures InteriorState(s, L, parent, labels, n, numEdge, gh, j + 1, 1)
  {}

  method LabelInterior(g: Grid, ghost k: Pos, ghost L: iset<Cell>, x: int, y: int,
                       parent: array2<Cell>, labels: array2<int>, numEdge: int, ghost gh0: Ghosts)
    returns (n: int, ghost gh: Ghosts)
    requires g.Memory() && g.HasSlot(k) && L == g.LocalOpen(k) && x == k.cx * g.size && y == k.cy * g.size
    requires parent.Length0 == parent.Length1 && labels.Length0 == labels.Length1 == g.size
    requires InteriorState(g.size, L, parent, labels, numEdge, numEdge, gh0, 1, 1)
    modifies labels
    ensures InteriorState(g.size, L, parent, labels, n, numEdge, gh, g.size - 1, 1)
  {
    hide InteriorState, Grid.LocalOpen;
    var s := g.size;
    n, gh := numEdge, gh0;
    for j := 1 to s - 1
      invariant L == g.LocalOpen(k)
      invariant InteriorState(s, L, parent, labels, n, numEdge, gh, j, 1)
    {
      for i := 1 to s - 1
        invariant L == g.LocalOpen(k)
        invariant InteriorState(s, L, parent, labels, n, numEdge, gh, j, i)
      {
        n, gh := LabelInteriorSquare(g, k, L, x, y, i, j, parent, labels, n, numEdge, gh);
      }
      NextInteriorRow(s, L, parent, labels, n, numEdge, gh, j);
    }
  }

  /** Between two squares of the pass that copies the leaders' labels. */
  ghost predicate FillState(s: int, L: iset<Cell>, parent: array2<Cell>, labels: array2<int>, n: int, numEdge: int,
                            gh: Ghosts, j: int, i: int)
    requires parent.Length0 == parent.Length1 && labels.Length0 == labels.Length1
    reads parent, labels
  {
    && Partitioned(s, L, parent, gh.rep, gh.rank)
    && FillPass(s, L, gh.rep, Labels(labels), gh.q, numEdge, j, i)
    && n == |gh.q|
  }

  method FillSquare(g: Grid, ghost k: Pos, ghost L: iset<Cell>, x: int, y: int, i: int, j: int,
                    parent: array2<Cell>, labels: array2<int>, ghost n: int, ghost numEdge: int, ghost gh: Ghosts)
    requires g.Memory() && g.HasSlot(k) && L == g.LocalOpen(k) && x == k.cx * g.size && y == k.cy * g.size
    requires parent.Length0 == parent.Length1 == g.size && labels.Length0 == labels.Length1 == g.size
    requires InBox(g.size, Cell(i, j))
    requires FillState(g.size, L, parent, labels, n, numEdge, gh, j, i)
    modifies parent, labels
    ensures FillState(g.size, L, parent, labels, n, numEdge, gh, j, i + 1)
  {
    hide Exact, FillPass, Grid.LocalOpen, Forest, Labels;
    var p := InclusterFind(parent, gh.rep, gh.rank, i, j);
    CopyLabel(g, k, L, x, y, i, j, p, labels, numEdge, gh);
  }

  /** Square (i, j) gets the label of its leader p. */
  method CopyLabel(g: Grid, ghost k: Pos, ghost L: iset<Cell>, x: int, y: int, i: int, j: int, p: Cell,
                   labels: array2<int>, ghost numEdge: int, ghost gh: Ghosts)
    requires g.Memory() && g.HasSlot(k) && L == g.LocalOpen(k) && x == k.cx * g.size && y == k.cy * g.size
    requires labels.Length0 == labels.Length1 == g.size && InBox(g.size, Cell(i, j)) && InBox(g.size, p)
    requires gh.rep.Keys == Box(g.size) && p == gh.rep[Cell(i, j)]
    requires FillPass(g.size, L, gh.rep, Labels(labels), gh.q, numEdge, j, i)
    modifies labels
    ensures FillPass(g.size, L, gh.rep, Labels(labels), gh.q, numEdge, j, i + 1)
  {
    hide FillPass, Grid.LocalOpen;
    FillStep(g.size, L, gh.rep, Labels(labels), gh.q, numEdge, j, i);
    var isOpen := MapOpen(g, k, L, x, y, i, j);
    if p.x != i || p.y != j {
      if isOpen {
        SetLabel(labels, i, j, labels[p.y, p.x]);
      }
    }
  }

  lemma StartFill(s: int, L: iset<Cell>, parent: array2<Cell>, labels: array2<int>, n: int, numEdge: int, gh: Ghosts)
    requires s >= 2 && parent.Length0 == parent.Length1 && labels.Length0 == labels.Length1
    requires InteriorState(s, L, parent, labels, n, numEdge, gh, s - 1, 1)
    ensures FillState(s, L, parent, labels, n, numEdge, gh, 0, 0)
  {}

  lemma NextFillRow(s: int, L: iset<Cell>, parent: array2<Cell>, labels: array2<int>, n: int, numEdge: int, gh: Ghosts,
                    j: int)
    requires parent.Length0 == parent.Length1 && labels.Length0 == labels.Length1
    requires FillState(s, L, parent, labels, n, numEdge, gh, j, s)
    ensures FillState(s, L, parent, labels, n, numEdge, gh, j + 1, 0)
  {}

  method FillLabels(g: Grid, ghost k: Pos, ghost L: iset<Cell>, x: int, y: int,
                    parent: array2<Cell>, labels: array2<int>, ghost n: int, ghost numEdge: int, ghost gh: Ghosts)
    requires g.Memory() && g.HasSlot(k) && L == g.LocalOpen(k) && x == k.cx * g.size && y == k.cy * g.size
    requires parent.Length0 == parent.Length1 == g.size && labels.Length0 == labels.Length1 == g.size
    requires FillState(g.size, L, parent, labels, n, numEdge, gh, 0, 0)
    modifies parent, labels
    ensures FillState(g.size, L, parent, labels, n, numEdge, gh, g.size, 0)
  {
    hide FillState, Grid.LocalOpen;
    var s := g.size;
    for j := 0 to s
      invariant L == g.LocalOpen(k)
      invariant FillState(s, L, parent, labels, n, numEdge, gh, j, 0)
    {
      for i := 0 to s
        invariant L == g.LocalOpen(k)
        invariant FillState(s, L, parent, labels, n, numEdge, gh, j, i)
      {
        FillSquare(g, k, L, x, y, i, j, parent, labels, n, numEdge, gh);
      }
      NextFillRow(s, L, parent, labels, n, numEdge, gh, j);
    }
  }

  lemma FilledIsExact(s: int, L: iset<Cell>, parent: array2<Cell>, labels: array2<int>, n: int, numEdge: int,
                      gh: Ghosts)
    requires s >= 4 && s % 4 == 0 && parent.Length0 == parent.Length1 && labels.Length0 == labels.Length1
    requires FillState(s, L, parent, labels, n, numEdge, gh, s, 0)
    ensures LabelsOk(s, L, Labels(labels), numEdge, n)
  {
    FillDone(s, L, gh.rep, Labels(labels), gh.q, numEdge);
  }

  lemma StartInterior(s: int, L: iset<Cell>, parent: array2<Cell>, labels: array2<int>, n: int, gh: Ghosts)
    requires parent.Length0 == parent.Length1 && labels.Length0 == labels.Length1
    requires Partitioned(s, L, parent, gh.rep, gh.rank) && n == |gh.q|
    requires InteriorPass(s, L, gh.rep, Labels(labels), gh.q, n, 1, 1)
    ensures InteriorState(s, L, parent, labels, n, n, gh, 1, 1)
  {}

  /** Exact labels for the squares of cluster k, the clumps on its border numbered first. */
  method ComputeLabels(g: Grid, ghost k: Pos, x: int, y: int) returns (labels: array2<int>, numEdge: int, n: int)
    requires g.Memory() && g.HasSlot(k) && x == k.cx * g.size && y == k.cy * g.size
    ensures fresh(labels) && labels.Length0 == labels.Length1 == g.size
    ensures LabelsOk(g.size, g.LocalOpen(k), Labels(labels), numEdge, n)
  {
    hide LabelsOk, InteriorPass, InteriorState, FillState, Exact, Forest, Grid.LocalOpen;
    ghost var L := g.LocalOpen(k);
    var parent;
    ghost var rep, rank, gh;
    parent, rep, rank := JoinOpenSquares(g, k, x, y);
    labels, numEdge, gh := LabelEdges(g, k, L, x, y, parent, rep, rank);
    StartInterior(g.size, L, parent, labels, numEdge, gh);
    n, gh := LabelInterior(g, k, L, x, y, parent, labels, numEdge, gh);
    StartFill(g.size, L, parent, labels, n, numEdge, gh);
    FillLabels(g, k, L, x, y, parent, labels, n, numEdge, gh);
    FilledIsExact(g.size, L, parent, labels, n, numEdge, gh);
  }
}
