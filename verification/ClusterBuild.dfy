/** stbcc__incluster_find, stbcc__incluster_union and the pass that joins a cluster's open squares. */
module ClusterBuild {
  import opened Paths
  import opened Forests
  import opened Partitions
  import opened GridModel
  import opened GridState
  import opened ClusterPartition

  ghost function Parents(parent: array2<Cell>): imap<Cell, Cell>
    requires parent.Length0 == parent.Length1
    reads parent
  {
    imap l: Cell | InBox(parent.Length0, l) :: parent[l.y, l.x]
  }

  /** The root of (x, y); the path walked is compressed but no class changes. */
  method InclusterFind(parent: array2<Cell>, ghost rep: imap<Cell, Cell>, ghost rank: imap<Cell, nat>, x: int, y: int)
    returns (q: Cell)
    requires parent.Length0 == parent.Length1 && InBox(parent.Length0, Cell(x, y))
    requires Forest(Parents(parent), rep, rank)
    modifies parent
    ensures Forest(Parents(parent), rep, rank)
    ensures q == rep[Cell(x, y)] == parent[y, x]
    ensures InBox(parent.Length0, q) && parent[q.y, q.x] == q
    decreases rank[Cell(x, y)]
  {
    ghost var c := Cell(x, y);
    assert NodeOk(Parents(parent), rep, rank, c);
    var p := parent[y, x];
    if p.x == x && p.y == y {
      return p;
    }
    q := InclusterFind(parent, rep, rank, p.x, p.y);
    ghost var before := Parents(parent);
    Compress(before, rep, rank, c);
    parent[y, x] := q;
    assert Parents(parent) == before[c := q];
    assert NodeOk(Parents(parent), rep, rank, c);
  }

  lemma RootAt(parent: imap<Cell, Cell>, rep: imap<Cell, Cell>, rank: imap<Cell, nat>, c: Cell)
    requires Forest(parent, rep, rank) && c in rep
    ensures rep[c] in parent && parent[rep[c]] == rep[c]
  {
    assert NodeOk(parent, rep, rank, c);
  }

  method SetParent(parent: array2<Cell>, c: Cell, q: Cell)
    requires parent.Length0 == parent.Length1 && InBox(parent.Length0, c)
    modifies parent
    ensures Parents(parent) == old(Parents(parent))[c := q]
  {
    ghost var before := Parents(parent);
    parent[c.y, c.x] := q;
    assert Parents(parent) == before[c := q];
  }

  /** Joins the classes of two squares and leaves all others as they were. */
  method InclusterUnion(parent: array2<Cell>, ghost rep: imap<Cell, Cell>, ghost rank: imap<Cell, nat>,
                        x1: int, y1: int, x2: int, y2: int)
    returns (ghost rep': imap<Cell, Cell>, ghost rank': imap<Cell, nat>)
    requires parent.Length0 == parent.Length1
    requires InBox(parent.Length0, Cell(x1, y1)) && InBox(parent.Length0, Cell(x2, y2))
    requires Forest(Parents(parent), rep, rank)
    modifies parent
    ensures Forest(Parents(parent), rep', rank')
    ensures rep' == Redirect(rep, rep[Cell(x1, y1)], rep[Cell(x2, y2)])
    ensures rep'.Keys == rep.Keys
    ensures forall l :: l in rep ==>
              rep'[l] == if rep[l] == rep[Cell(x1, y1)] then rep[Cell(x2, y2)] else rep[l]
  {
    var p := InclusterFind(parent, rep, rank, x1, y1);
    var q := InclusterFind(parent, rep, rank, x2, y2);
    ghost var before := Parents(parent);
    RootAt(before, rep, rank, Cell(x1, y1));
    RootAt(before, rep, rank, Cell(x2, y2));
    hide Parents, Forest, LiftRank, Redirect;
    if p.x == q.x && p.y == q.y {
      rep', rank' := rep, rank;
      RedirectSame(rep, p);
      return;
    }
    Link(before, rep, rank, p, q);
    SetParent(parent, p, q);
    rep', rank' := Redirect(rep, p, q), LiftRank(rep, rank, p, q);
  }

  /** Union of two neighbouring squares of cluster k if both are open. */
  method JoinIfOpen(g: Grid, ghost k: Pos, ghost L: iset<Cell>, x: int, y: int, parent: array2<Cell>,
                    ghost rep: imap<Cell, Cell>, ghost rank: imap<Cell, nat>,
                    x1: int, y1: int, x2: int, y2: int)
    returns (ghost rep': imap<Cell, Cell>, ghost rank': imap<Cell, nat>)
    requires g.Memory() && g.HasSlot(k) && L == g.LocalOpen(k) && x == k.cx * g.size && y == k.cy * g.size
    requires parent.Length0 == parent.Length1 == g.size
    requires InBox(g.size, Cell(x1, y1)) && InBox(g.size, Cell(x2, y2)) && Adjacent(Cell(x1, y1), Cell(x2, y2))
    requires Forest(Parents(parent), rep, rank) && Sound(Edges(L), rep)
    modifies parent
    ensures Forest(Parents(parent), rep', rank') && Sound(Edges(L), rep')
    ensures Joined(L, rep', Cell(x1, y1), Cell(x2, y2))
    ensures KeepsJoined(L, rep, rep')
  {
    g.SlotBases(k);
    rep', rank' := rep, rank;
    if g.open[y + y1, x + x1] && g.open[y + y2, x + x2] {
      ghost var a, b := Cell(x1, y1), Cell(x2, y2);
      assert g.OpenAt(Addr(k, a)) && g.OpenAt(Addr(k, b));
      EdgesSymmetric(L);
      UnionSound(Edges(L), rep, a, b);
      RedirectKeepsJoined(L, rep, rep[a], rep[b]);
      rep', rank' := InclusterUnion(parent, rep, rank, x1, y1, x2, y2);
    } else {
      assert !g.OpenAt(Addr(k, Cell(x1, y1))) || !g.OpenAt(Addr(k, Cell(x2, y2)));
    }
  }

  /** Every square starts as its own root. */
  method InitParents(s: int) returns (parent: array2<Cell>)
    requires s >= 0
    ensures fresh(parent) && parent.Length0 == parent.Length1 == s
    ensures Parents(parent) == Identity(Box(s))
  {
    parent := new Cell[s, s];
    for j := 0 to s
      invariant forall l {:trigger parent[l.y, l.x]} :: InBox(s, l) && l.y < j ==> parent[l.y, l.x] == l
    {
      for i := 0 to s
        invariant forall l {:trigger parent[l.y, l.x]} :: InBox(s, l) && (l.y < j || (l.y == j && l.x < i)) ==>
                  parent[l.y, l.x] == l
      {
        parent[j, i] := Cell(i, j);
      }
    }
  }

  /** What the joining loops keep: a forest that joins connected squares only. */
  ghost predicate Joining(s: int, L: iset<Cell>, parent: array2<Cell>, rep: imap<Cell, Cell>, rank: imap<Cell, nat>)
    requires parent.Length0 == parent.Length1
    reads parent
  {
    parent.Length0 == s && Forest(Parents(parent), rep, rank) && Sound(Edges(L), rep) && L <= rep.Keys == Box(s)
  }

  /** One column of the downward pass over row j. */
  method JoinDown(g: Grid, ghost k: Pos, ghost L: iset<Cell>, x: int, y: int, i: int, j: int,
                  parent: array2<Cell>, ghost rep0: imap<Cell, Cell>, ghost rank0: imap<Cell, nat>)
    returns (ghost rep: imap<Cell, Cell>, ghost rank: imap<Cell, nat>)
    requires g.Memory() && g.HasSlot(k) && L == g.LocalOpen(k) && x == k.cx * g.size && y == k.cy * g.size
    requires 0 <= j < g.size - 1 && 0 <= i < g.size
    requires parent.Length0 == parent.Length1 && Joining(g.size, L, parent, rep0, rank0)
    requires DownJoined(g.size, L, rep0, j, i) && RightJoined(g.size, L, rep0, j, 0)
    modifies parent
    ensures Joining(g.size, L, parent, rep, rank)
    ensures DownJoined(g.size, L, rep, j, i + 1) && RightJoined(g.size, L, rep, j, 0)
  {
    hide Forest, Sound, DownJoined, RightJoined, Joined, KeepsJoined, Grid.LocalOpen;
    rep, rank := JoinIfOpen(g, k, L, x, y, parent, rep0, rank0, i, j, i, j + 1);
    DownStep(g.size, L, rep0, rep, j, i);
  }

  method JoinRowDown(g: Grid, ghost k: Pos, ghost L: iset<Cell>, x: int, y: int, j: int,
                     parent: array2<Cell>, ghost rep0: imap<Cell, Cell>, ghost rank0: imap<Cell, nat>)
    returns (ghost rep: imap<Cell, Cell>, ghost rank: imap<Cell, nat>)
    requires g.Memory() && g.HasSlot(k) && L == g.LocalOpen(k) && x == k.cx * g.size && y == k.cy * g.size
             && 0 <= j < g.size - 1
    requires parent.Length0 == parent.Length1 && Joining(g.size, L, parent, rep0, rank0)
    requires DownJoined(g.size, L, rep0, j, 0) && RightJoined(g.size, L, rep0, j, 0)
    modifies parent
    ensures Joining(g.size, L, parent, rep, rank)
    ensures DownJoined(g.size, L, rep, j + 1, 0) && RightJoined(g.size, L, rep, j, 0)
  {
    hide Grid.LocalOpen;
    rep, rank := rep0, rank0;
    for i := 0 to g.size
      invariant Joining(g.size, L, parent, rep, rank)
      invariant DownJoined(g.size, L, rep, j, i) && RightJoined(g.size, L, rep, j, 0)
    {
      rep, rank := JoinDown(g, k, L, x, y, i, j, parent, rep, rank);
    }
  }

  method JoinRight(g: Grid, ghost k: Pos, ghost L: iset<Cell>, x: int, y: int, i: int, j: int,
                   parent: array2<Cell>, ghost rep0: imap<Cell, Cell>, ghost rank0: imap<Cell, nat>)
    returns (ghost rep: imap<Cell, Cell>, ghost rank: imap<Cell, nat>)
    requires g.Memory() && g.HasSlot(k) && L == g.LocalOpen(k) && x == k.cx * g.size && y == k.cy * g.size
    requires 0 <= j < g.size && 0 <= i < g.size - 1
    requires parent.Length0 == parent.Length1 && Joining(g.size, L, parent, rep0, rank0)
    requires DownJoined(g.size, L, rep0, j + 1, 0) && RightJoined(g.size, L, rep0, j, i)
    modifies parent
    ensures Joining(g.size, L, parent, rep, rank)
    ensures DownJoined(g.size, L, rep, j + 1, 0) && RightJoined(g.size, L, rep, j, i + 1)
  {
    hide Forest, Sound, DownJoined, RightJoined, Joined, KeepsJoined, Grid.LocalOpen;
    rep, rank := JoinIfOpen(g, k, L, x, y, parent, rep0, rank0, i, j, i + 1, j);
    RightStep(g.size, L, rep0, rep, j, i);
  }

  method JoinRowRight(g: Grid, ghost k: Pos, ghost L: iset<Cell>, x: int, y: int, j: int,
                      parent: array2<Cell>, ghost rep0: imap<Cell, Cell>, ghost rank0: imap<Cell, nat>)
    returns (ghost rep: imap<Cell, Cell>, ghost rank: imap<Cell, nat>)
    requires g.Memory() && g.HasSlot(k) && L == g.LocalOpen(k) && x == k.cx * g.size && y == k.cy * g.size
             && 0 <= j < g.size
    requires parent.Length0 == parent.Length1 && Joining(g.size, L, parent, rep0, rank0)
    requires DownJoined(g.size, L, rep0, j + 1, 0) && RightJoined(g.size, L, rep0, j, 0)
    modifies parent
    ensures Joining(g.size, L, parent, rep, rank)
    ensures DownJoined(g.size, L, rep, j + 1, 0) && RightJoined(g.size, L, rep, j + 1, 0)
  {
    hide Grid.LocalOpen;
    rep, rank := rep0, rank0;
    for i := 0 to g.size - 1
      invariant Joining(g.size, L, parent, rep, rank)
      invariant DownJoined(g.size, L, rep, j + 1, 0) && RightJoined(g.size, L, rep, j, i)
    {
      rep, rank := JoinRight(g, k, L, x, y, i, j, parent, rep, rank);
    }
  }

  lemma IdentitySound(s: int, L: iset<Cell>)
    requires L <= Box(s)
    ensures Sound(Edges(L), Identity(Box(s)))
    ensures Forest(Identity(Box(s)), Identity(Box(s)), Zero(Box(s)))
  {
    IdentityForest(Box(s));
    forall a ensures Connected(Edges(L), a, a) { ConnectedRefl(Edges(L), a); }
  }

  /** Joins all open squares of cluster k: afterwards the classes are its components. */
  method JoinOpenSquares(g: Grid, ghost k: Pos, x: int, y: int)
    returns (parent: array2<Cell>, ghost rep: imap<Cell, Cell>, ghost rank: imap<Cell, nat>)
    requires g.Memory() && g.HasSlot(k) && x == k.cx * g.size && y == k.cy * g.size
    ensures fresh(parent) && parent.Length0 == parent.Length1 == g.size
    ensures Forest(Parents(parent), rep, rank) && rep.Keys == Box(g.size) && Exact(Edges(g.LocalOpen(k)), rep)
  {
    var s := g.size;
    ghost var L := g.LocalOpen(k);
    parent := InitParents(s);
    rep, rank := Identity(Box(s)), Zero(Box(s));
    IdentitySound(s, L);
    for j := 0 to s
      invariant Joining(s, L, parent, rep, rank)
      invariant DownJoined(s, L, rep, j, 0) && RightJoined(s, L, rep, j, 0)
    {
      if j < s - 1 {
        rep, rank := JoinRowDown(g, k, L, x, y, j, parent, rep, rank);
      }
      rep, rank := JoinRowRight(g, k, L, x, y, j, parent, rep, rank);
    }
    AllJoinedIsExact(s, L, rep);
  }
}
