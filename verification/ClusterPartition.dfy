/** The joining passes over a cluster's squares, edge by edge. */
module ClusterPartition {
  import opened Paths
  import opened Forests
  import opened Partitions
  import opened GridModel

  lemma EdgesSymmetric(L: iset<Cell>)
    ensures Symmetric(Edges(L))
  {}

  /** Completeness of one edge: if both ends are open they share a class. */
  ghost predicate Joined(L: iset<Cell>, rep: imap<Cell, Cell>, a: Cell, b: Cell)
    requires L <= rep.Keys
  {
    a in L && b in L ==> rep[a] == rep[b]
  }

  function Below(l: Cell): Cell { Cell(l.x, l.y + 1) }
  function RightOf(l: Cell): Cell { Cell(l.x + 1, l.y) }

  lemma RedirectKeepsJoined(L: iset<Cell>, rep: imap<Cell, Cell>, p: Cell, q: Cell)
    requires L <= rep.Keys
    ensures KeepsJoined(L, rep, Redirect(rep, p, q))
  {}

  /** The vertical edges of the first rows and those of row j left of column i are joined. */
  ghost predicate DownJoined(s: int, L: iset<Cell>, rep: imap<Cell, Cell>, j: int, i: int)
    requires L <= rep.Keys
  {
    forall l {:trigger Joined(L, rep, l, Below(l))} ::
      InBox(s, l) && l.y + 1 < s && (l.y < j || (l.y == j && l.x < i)) ==> Joined(L, rep, l, Below(l))
  }

  ghost predicate RightJoined(s: int, L: iset<Cell>, rep: imap<Cell, Cell>, j: int, i: int)
    requires L <= rep.Keys
  {
    forall l {:trigger Joined(L, rep, l, RightOf(l))} ::
      InBox(s, l) && l.x + 1 < s && (l.y < j || (l.y == j && l.x < i)) ==> Joined(L, rep, l, RightOf(l))
  }

  /** rep' joins at least what rep joins. */
  ghost predicate KeepsJoined(L: iset<Cell>, rep: imap<Cell, Cell>, rep': imap<Cell, Cell>)
    requires L <= rep.Keys && L <= rep'.Keys
  {
    forall a, b {:trigger Joined(L, rep', a, b)} :: Joined(L, rep, a, b) ==> Joined(L, rep', a, b)
  }

  lemma DownStep(s: int, L: iset<Cell>, rep: imap<Cell, Cell>, rep': imap<Cell, Cell>, j: int, i: int)
    requires L <= rep.Keys && L <= rep'.Keys && KeepsJoined(L, rep, rep')
    requires DownJoined(s, L, rep, j, i) && Joined(L, rep', Cell(i, j), Cell(i, j + 1))
    requires RightJoined(s, L, rep, j, 0)
    ensures DownJoined(s, L, rep', j, i + 1) && RightJoined(s, L, rep', j, 0)
  {}

  lemma RightStep(s: int, L: iset<Cell>, rep: imap<Cell, Cell>, rep': imap<Cell, Cell>, j: int, i: int)
    requires L <= rep.Keys && L <= rep'.Keys && KeepsJoined(L, rep, rep')
    requires RightJoined(s, L, rep, j, i) && Joined(L, rep', Cell(i, j), Cell(i + 1, j))
    requires DownJoined(s, L, rep, j + 1, 0)
    ensures RightJoined(s, L, rep', j, i + 1) && DownJoined(s, L, rep', j + 1, 0)
  {}

  lemma AllJoinedIsExact(s: int, L: iset<Cell>, rep: imap<Cell, Cell>)
    requires L <= rep.Keys == Box(s) && Sound(Edges(L), rep)
    requires DownJoined(s, L, rep, s, 0) && RightJoined(s, L, rep, s, 0)
    ensures Exact(Edges(L), rep)
  {
    var E := Edges(L);
    forall c, d | (c, d) in E
      ensures c in rep && d in rep && rep[c] == rep[d]
    {
      assert InBox(s, c) && InBox(s, d);
      if Below(c) == d { assert Joined(L, rep, c, Below(c)); }
      if Below(d) == c { assert Joined(L, rep, d, Below(d)); }
      if RightOf(c) == d { assert Joined(L, rep, c, RightOf(c)); }
      if RightOf(d) == c { assert Joined(L, rep, d, RightOf(d)); }
    }
    EdgesSymmetric(L);
    JoinedIsExact(E, rep);
  }
}
