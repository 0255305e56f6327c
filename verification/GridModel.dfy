/**
 Squares, clusters and the records of stb_connected_components.h.

 A square of the whole map is a `Cell` in map coordinates. Inside a cluster the
 same type names a square by its offset from the cluster's corner, and an `Addr`
 (cluster position, offset) names a square of the whole map without arithmetic.
 */
module GridModel {

  datatype Cell = Cell(x: int, y: int)
  datatype Pos = Pos(cx: int, cy: int)
  datatype Addr = Addr(k: Pos, l: Cell)

  /** One entry of a clump's adjacency list: a clump of the cluster one step (dx, dy) away. */
  datatype RelativeClumpId = Rel(index: int, dx: int, dy: int)

  datatype GlobalClumpId = ClumpId(index: int, cx: int, cy: int)

  datatype Clump = Clump(globalLabel: GlobalClumpId, numAdjacent: int, maxAdjacent: int, listIndex: int)

  datatype Cluster = Cluster(numClumps: int, numEdgeClumps: int, rebuildAdjacency: bool,
                             clump: seq<Clump>, storage: seq<RelativeClumpId>)

  /** Worst case number of clumps in a cluster; also the id of a closed square. */
  function MaxClumps(s: int): int { s * s / 2 }

  function MaxExits(s: int): int { s + s }

  /** How many clumps can touch the border: half of the 4s - 4 border squares. */
  function MaxEdgeClumps(s: int): int { s + s - 2 }

  function AdjacencyCount(s: int): int { 2 * MaxExits(s) }

  predicate InBox(s: int, l: Cell) { 0 <= l.x < s && 0 <= l.y < s }

  predicate OnBorder(s: int, l: Cell) {
    l.x == 0 || l.x == s - 1 || l.y == 0 || l.y == s - 1
  }

  /** Orthogonal neighbours. */
  predicate Adjacent(a: Cell, b: Cell) {
    || (a.x == b.x && (a.y == b.y + 1 || b.y == a.y + 1))
    || (a.y == b.y && (a.x == b.x + 1 || b.x == a.x + 1))
  }

  /** The graph on a set of open squares. */
  ghost function Edges(open: iset<Cell>): iset<(Cell, Cell)> {
    iset e: (Cell, Cell) | e.0 in open && e.1 in open && Adjacent(e.0, e.1)
  }

  ghost function Box(s: int): iset<Cell> { iset l: Cell | InBox(s, l) }

  /** The offset base of cluster k along one axis. */
  lemma BaseInRange(s: int, n: int, k: int)
    requires 0 < s && 0 <= k < n
    ensures 0 <= k * s && k * s + s <= n * s
    ensures (k + 1) * s == k * s + s && (k - 1) * s == k * s - s
  {
    var d := n - (k + 1);
    assert n * s == (k + 1) * s + d * s;
    assert d * s >= 0;
  }

  lemma MulMono(a: int, b: int, s: int)
    requires a <= b && 0 <= s
    ensures a * s <= b * s
  {}

  /** Quotient and remainder determine each other. */
  lemma SameQuotient(s: int, q: int, r: int, q': int, r': int)
    requires 0 <= r < s && 0 <= r' < s && q * s + r == q' * s + r'
    ensures q == q' && r == r'
  {
    if q < q' {
      MulMono(q + 1, q', s);
    } else if q' < q {
      MulMono(q' + 1, q, s);
    }
  }

  lemma DivisionOfOffset(s: int, k: int, i: int)
    requires 0 <= i < s
    ensures (k * s + i) / s == k && (k * s + i) % s == i
  {
    var x := k * s + i;
    assert x == x / s * s + x % s;
    SameQuotient(s, k, i, x / s, x % s);
  }

  lemma OffsetOfDivision(s: int, n: int, x: int)
    requires 0 < s && 0 <= x < n * s
    ensures 0 <= x / s < n && x == (x / s) * s + x % s && 0 <= x % s < s
  {
    if n <= x / s {
      MulMono(n, x / s, s);
      assert false;
    }
  }

  /** STBCC_NULL_UNIQUE_ID, the id of closed squares. */
  const NULL_UNIQUE_ID := 0xffff_ffff

  /** The 32 bits a global label is kept in: 12 for the clump's index, 10 and 10 for its cluster. */
  function Packed(n: GlobalClumpId): (c: int)
    ensures 0 <= c <= NULL_UNIQUE_ID
  {
    n.index % 4096 + 4096 * (n.cx % 1024) + 4194304 * (n.cy % 1024)
  }

  /** No part of the label is cut off. */
  predicate FitsFields(n: GlobalClumpId) {
    0 <= n.index < 4096 && 0 <= n.cx < 1024 && 0 <= n.cy < 1024
  }

  lemma PackedPlain(n: GlobalClumpId)
    requires FitsFields(n)
    ensures Packed(n) == (n.cy * 1024 + n.cx) * 4096 + n.index
  {}

  lemma PackedSame(n: GlobalClumpId, n': GlobalClumpId)
    requires FitsFields(n) && FitsFields(n')
    ensures Packed(n) == Packed(n') <==> n == n'
  {
    hide Packed;
    PackedPlain(n);
    PackedPlain(n');
    if Packed(n) == Packed(n') {
      SameQuotient(4096, n.cy * 1024 + n.cx, n.index, n'.cy * 1024 + n'.cx, n'.index);
      SameQuotient(1024, n.cy, n.cx, n'.cy, n'.cx);
    }
  }
}
