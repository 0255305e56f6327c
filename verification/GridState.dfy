/** The grid structure of stb_connected_components.h and ghost snapshots of its buffers. */
module GridState {
  import opened GridModel

  ghost predicate InGrid(cw: int, ch: int, k: Pos) { 0 <= k.cx < cw && 0 <= k.cy < ch }

  /**
   Memory for countX x countY clusters, both numbers fixed when the program is
   compiled; the current map takes up the first cw x ch of them.
   */
  class Grid {
    const size: int
    const countX: int
    const countY: int
    const open: array2<bool>
    const clumpForNode: array2<int>
    const cluster: array2<Cluster>
    var cw: int
    var ch: int
    var w: int
    var h: int
    var inBatchedUpdate: bool

    /** Zeroed memory, as the caller hands it over. */
    constructor Allocate(size: int, countX: int, countY: int)
      requires size >= 4 && size % 4 == 0 && countX >= 0 && countY >= 0
      ensures Memory() && this.size == size && this.countX == countX && this.countY == countY
      ensures fresh(open) && fresh(clumpForNode) && fresh(cluster)
      ensures forall k {:trigger cluster[k.cy, k.cx]} :: HasSlot(k) ==>
                && |cluster[k.cy, k.cx].clump| == MaxClumps(size) == size * size / 2
                && |cluster[k.cy, k.cx].storage| == AdjacencyCount(size) == 4 * size
                && cluster[k.cy, k.cx].numEdgeClumps == 0
    {
      MulMono(0, countX, size);
      MulMono(0, countY, size);
      MulMono(0, size, size);
      var clump := seq(MaxClumps(size), _ => Clump(ClumpId(0, 0, 0), 0, 0, 0));
      var storage := seq(AdjacencyCount(size), _ => Rel(0, 0, 0));
      var record := Cluster(0, 0, false, clump, storage);
      this.size, this.countX, this.countY := size, countX, countY;
      cw, ch, w, h := 0, 0, 0, 0;
      open := new bool[countY * size, countX * size];
      clumpForNode := new int[countY * size, countX * size];
      cluster := new Cluster[countY, countX]((j, i) => record);
      inBatchedUpdate := false;
    }

    /** The buffers have their compile-time sizes. */
    ghost predicate Memory() {
      && size >= 4 && size % 4 == 0 && countX >= 0 && countY >= 0
      && open.Length0 == countY * size && open.Length1 == countX * size
      && clumpForNode.Length0 == countY * size && clumpForNode.Length1 == countX * size
      && cluster.Length0 == countY && cluster.Length1 == countX
    }

    /** The current map is made of whole clusters and fits the buffers. */
    ghost predicate Dims()
      reads `cw, `ch, `w, `h
    {
      && Memory()
      && 0 <= cw <= countX && 0 <= ch <= countY
      && w == cw * size && h == ch * size
    }

    /** There is memory for cluster k. */
    ghost predicate HasSlot(k: Pos) { InGrid(countX, countY, k) }

    /** Cluster k belongs to the current map. */
    ghost predicate HasPos(k: Pos)
      reads `cw, `ch
    {
      InGrid(cw, ch, k)
    }

    ghost predicate HasAddr(a: Addr)
      reads `cw, `ch
    {
      HasPos(a.k) && InBox(size, a.l)
    }

    lemma SlotBases(k: Pos)
      requires Memory() && HasSlot(k)
      ensures 0 <= k.cx * size && k.cx * size + size <= open.Length1
      ensures 0 <= k.cy * size && k.cy * size + size <= open.Length0
    {
      BaseInRange(size, countX, k.cx);
      BaseInRange(size, countY, k.cy);
    }

    lemma Bases(k: Pos)
      requires Dims() && HasPos(k)
      ensures 0 <= k.cx * size && k.cx * size + size <= w <= open.Length1
      ensures 0 <= k.cy * size && k.cy * size + size <= h <= open.Length0
    {
      BaseInRange(size, cw, k.cx);
      BaseInRange(size, ch, k.cy);
      MulMono(cw, countX, size);
      MulMono(ch, countY, size);
    }

    ghost predicate OpenAt(a: Addr)
      requires Memory() && HasSlot(a.k) && InBox(size, a.l)
      reads open
    {
      SlotBases(a.k);
      open[a.k.cy * size + a.l.y, a.k.cx * size + a.l.x]
    }

    ghost function IdAt(a: Addr): int
      requires Memory() && HasSlot(a.k) && InBox(size, a.l)
      reads clumpForNode
    {
      SlotBases(a.k);
      clumpForNode[a.k.cy * size + a.l.y, a.k.cx * size + a.l.x]
    }

    ghost function Open(): iset<Addr>
      requires Dims()
      reads open, `cw, `ch, `w, `h
    {
      iset a: Addr | HasAddr(a) && OpenAt(a)
    }

    ghost function Ids(): (ids: imap<Addr, int>)
      requires Memory()
      reads clumpForNode
      ensures forall a :: a in ids <==> HasSlot(a.k) && InBox(size, a.l)
    {
      imap a: Addr | HasSlot(a.k) && InBox(size, a.l) :: IdAt(a)
    }

    /** All cluster records, those the current map does not use included. */
    ghost function Clusters(): (cl: imap<Pos, Cluster>)
      requires Memory()
      reads cluster
      ensures forall k :: k in cl <==> HasSlot(k)
    {
      imap k: Pos | HasSlot(k) :: cluster[k.cy, k.cx]
    }

    /** The open squares of cluster k, by their offsets. */
    ghost function LocalOpen(k: Pos): iset<Cell>
      requires Memory() && HasSlot(k)
      reads open
    {
      iset l: Cell | InBox(size, l) && OpenAt(Addr(k, l))
    }

    /** The clump ids of cluster k's squares, by their offsets. */
    ghost function LocalIds(k: Pos): imap<Cell, int>
      requires Memory() && HasSlot(k)
      reads clumpForNode
    {
      imap l: Cell | InBox(size, l) :: IdAt(Addr(k, l))
    }

    /** All open squares of the map, in map coordinates. */
    ghost function OpenSquares(): iset<Cell>
      requires Dims()
      reads open, `cw, `ch, `w, `h
    {
      MulMono(cw, countX, size);
      MulMono(ch, countY, size);
      iset c: Cell | 0 <= c.x < w && 0 <= c.y < h && open[c.y, c.x]
    }
  }
}
