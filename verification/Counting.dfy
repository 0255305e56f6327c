/** How many components a cluster can have, and how many can touch its border. */
module Counting {
  import opened Paths
  import opened GridModel
  import opened Sequences

  /** The horizontal domino a square of the cluster lies in. */
  function Domino(s: int, l: Cell): int
    requires s > 0
  {
    l.y * (s / 2) + l.x / 2
  }

  /** The domino of the border ring a border square lies in. */
  function BorderDomino(s: int, l: Cell): int
    requires s > 0
  {
    var half := s / 2;
    if l.y == 0 then l.x / 2
    else if l.y == s - 1 then half + l.x / 2
    else if l.x == 0 then 2 * half + (l.y - 1) / 2
    else 3 * half - 1 + (l.y - 1) / 2
  }

  lemma MaxClumpsIsDominoes(s: int)
    requires s >= 2 && s % 2 == 0
    ensures MaxClumps(s) == s * (s / 2)
  {
    var half := s / 2;
    assert s == 2 * half;
    assert s * s == 2 * (s * half);
  }

  lemma DominoInRange(s: int, l: Cell)
    requires s >= 2 && s % 2 == 0 && InBox(s, l)
    ensures 0 <= Domino(s, l) < s * (s / 2)
  {
    MulMono(l.y + 1, s, s / 2);
    MulMono(0, l.y, s / 2);
  }

  lemma SameDomino(s: int, a: Cell, b: Cell)
    requires s >= 2 && s % 2 == 0 && InBox(s, a) && InBox(s, b)
    requires Domino(s, a) == Domino(s, b)
    ensures a == b || Adjacent(a, b)
  {
    SameQuotient(s / 2, a.y, a.x / 2, b.y, b.x / 2);
  }

  lemma SameBorderDomino(s: int, a: Cell, b: Cell)
    requires s >= 2 && s % 2 == 0 && InBox(s, a) && InBox(s, b)
    requires OnBorder(s, a) && OnBorder(s, b) && BorderDomino(s, a) == BorderDomino(s, b)
    ensures a == b || Adjacent(a, b)
    ensures 0 <= BorderDomino(s, a) < MaxEdgeClumps(s)
  {}

  /** One representative each of different components. */
  ghost predicate Representatives(s: int, L: iset<Cell>, q: seq<Cell>) {
    && (forall i :: 0 <= i < |q| ==> InBox(s, q[i]) && q[i] in L)
    && forall i, j :: 0 <= i < j < |q| ==> q[i] != q[j] && !Connected(Edges(L), q[i], q[j])
  }

  lemma ComponentsBound(s: int, L: iset<Cell>, q: seq<Cell>)
    requires s >= 2 && s % 2 == 0 && Representatives(s, L, q)
    ensures |q| <= MaxClumps(s) == s * s / 2
  {
    MaxClumpsIsDominoes(s);
    var d := seq(|q|, i requires 0 <= i < |q| => Domino(s, q[i]));
    forall i | 0 <= i < |d| ensures 0 <= d[i] < s * (s / 2) { DominoInRange(s, q[i]); }
    forall i, j | 0 <= i < j < |d| ensures d[i] != d[j] {
      if d[i] == d[j] {
        SameDomino(s, q[i], q[j]);
        ConnectedEdge(Edges(L), q[i], q[j]);
        assert false;
      }
    }
    Pigeonhole(d, s * (s / 2));
  }

  lemma BorderComponentsBound(s: int, L: iset<Cell>, q: seq<Cell>)
    requires s >= 2 && s % 2 == 0 && Representatives(s, L, q)
    requires forall i :: 0 <= i < |q| ==> OnBorder(s, q[i])
    ensures |q| <= MaxEdgeClumps(s) == 2 * s - 2
  {
    var d := seq(|q|, i requires 0 <= i < |q| => BorderDomino(s, q[i]));
    forall i | 0 <= i < |d| ensures 0 <= d[i] < MaxEdgeClumps(s) { SameBorderDomino(s, q[i], q[i]); }
    forall i, j | 0 <= i < j < |d| ensures d[i] != d[j] {
      if d[i] == d[j] {
        SameBorderDomino(s, q[i], q[j]);
        ConnectedEdge(Edges(L), q[i], q[j]);
        assert false;
      }
    }
    Pigeonhole(d, MaxEdgeClumps(s));
  }
}
