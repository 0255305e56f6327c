/** The last step of Remove: the spliced-out successor takes the place of the node to be erased. */
module TreeReplace {
  import opened TreeShape
  import opened TreeColours
  import opened TreeInsert

  /** Node d in the place of m: m's parent and children now point to d. */
  ghost function Replaced(t: Tree, m: Node, d: Node): Tree
    requires m in t.rec && d !in t.rec && t.span.Keys == t.rec.Keys
  {
    var r := t.rec[m];
    var r1 := t.rec[d := r];
    var r2 := if r.parent != null && r.parent in r1
              then r1[r.parent := if r1[r.parent].left == m then r1[r.parent].(left := d)
                                  else r1[r.parent].(right := d)]
              else r1;
    var r3 := if r.left != null && r.left in r2 then r2[r.left := r2[r.left].(parent := d)] else r2;
    var r4 := if r.right != null && r.right in r3 then r3[r.right := r3[r.right].(parent := d)] else r3;
    Tree(r4 - {m}, if r.parent == null then d else t.root, t.span[d := t.span[m]] - {m})
  }

  ghost function Renamed(c: Node?, m: Node, d: Node): Node? { if c == m then d else c }

  ghost function RenamedRec(r: Rec, m: Node, d: Node): Rec {
    Rec(Renamed(r.parent, m, d), Renamed(r.left, m, d), Renamed(r.right, m, d), r.red)
  }

  /** The four nodes whose records change, and m's neighbours, are different. */
  lemma NeighboursDiffer(t: Tree, n: nat, m: Node)
    requires Linked(t, n) && m in t.rec
    ensures t.span.Keys == t.rec.Keys
    ensures var r := t.rec[m];
            && (r.parent != null ==> r.parent in t.rec && r.parent != m && r.parent != r.left && r.parent != r.right)
            && (r.left != null ==> r.left in t.rec && r.left != m && r.left != r.right)
            && (r.right != null ==> r.right in t.rec && r.right != m)
  {
    hide Linked;
    KidParent(t, n, m);
    LinkedNode(t, n, m);
    if t.rec[m].parent != null { LinkedNode(t, n, t.rec[m].parent); }
    if t.rec[m].left != null { LinkedNode(t, n, t.rec[m].left); }
    if t.rec[m].right != null { LinkedNode(t, n, t.rec[m].right); }
  }

  /** What the assignments make of each node, by its role. */
  lemma ReplacedByRole(t: Tree, n: nat, m: Node, d: Node, z: Node)
    requires Linked(t, n) && m in t.rec && d !in t.rec && z in t.rec && t.span.Keys == t.rec.Keys && z != m
    ensures var t', r := Replaced(t, m, d), t.rec[m];
            && t'.rec.Keys == t.rec.Keys - {m} + {d} && t'.span.Keys == t'.rec.Keys && t'.rec[d] == r
            && t'.span[z] == t.span[z] && t'.span[d] == t.span[m]
            && (z == r.left || z == r.right ==> t'.rec[z] == t.rec[z].(parent := d))
            && (z == r.parent ==> t'.rec[z] == if t.rec[z].left == m then t.rec[z].(left := d)
                else t.rec[z].(right := d))
            && (z != r.parent && z != r.left && z != r.right ==> t'.rec[z] == t.rec[z])
  {
    hide Linked;
    NeighboursDiffer(t, n, m);
  }

  /** Replacing is renaming. */
  lemma ReplacedRec(t: Tree, n: nat, m: Node, d: Node, z: Node)
    requires Linked(t, n) && m in t.rec && d !in t.rec && z in t.rec && t.span.Keys == t.rec.Keys
    ensures var t', z' := Replaced(t, m, d), if z == m then d else z;
            && t'.rec.Keys == t.rec.Keys - {m} + {d} && t'.span.Keys == t'.rec.Keys
            && z' in t'.rec && t'.rec[z'] == RenamedRec(t.rec[z], m, d)
            && t'.span[z'] == t.span[z]
  {
    hide Linked, Replaced;
    KidParent(t, n, z);
    KidParent(t, n, m);
    if z == m {
      ReplacedOwner(t, n, m, d);
    } else {
      ReplacedByRole(t, n, m, d, z);
    }
  }

  lemma ReplacedOwner(t: Tree, n: nat, m: Node, d: Node)
    requires Linked(t, n) && m in t.rec && d !in t.rec && t.span.Keys == t.rec.Keys
    ensures var t' := Replaced(t, m, d);
            && t'.rec.Keys == t.rec.Keys - {m} + {d} && t'.span.Keys == t'.rec.Keys
            && t'.rec[d] == t.rec[m] && t'.span[d] == t.span[m]
  {
    hide Linked;
    NeighboursDiffer(t, n, m);
  }

  lemma ReplacedNode(t: Tree, n: nat, m: Node, d: Node, z: Node)
    requires Linked(t, n) && m in t.rec && d !in t.rec && z in t.rec && t.span.Keys == t.rec.Keys
    ensures var t', z' := Replaced(t, m, d), if z == m then d else z;
            t'.span.Keys == t'.rec.Keys && z' in t'.rec && NodeLinked(t', z')
  {
    hide Linked, Replaced;
    LinkedNode(t, n, z);
    KidParent(t, n, z);
    KidParent(t, n, m);
    ReplacedRec(t, n, m, d, z);
    var r := t.rec[z];
    if r.left != null { ReplacedRec(t, n, m, d, r.left); }
    if r.right != null { ReplacedRec(t, n, m, d, r.right); }
    if r.parent != null { ReplacedRec(t, n, m, d, r.parent); }
    ReplacedRoot(t, n, m, d);
  }

  lemma ReplacedRoot(t: Tree, n: nat, m: Node, d: Node)
    requires Linked(t, n) && m in t.rec && d !in t.rec && t.span.Keys == t.rec.Keys
    ensures Replaced(t, m, d).root == Renamed(t.root, m, d)
  {
    KidParent(t, n, m);
  }

  lemma ReplacedLinked(t: Tree, order: seq<Node>, m: Node, d: Node)
    requires Linked(t, |order|) && InOrder(t, order) && m in t.rec && d !in t.rec
    ensures 0 <= t.span[m].pos < |order|
    ensures Linked(Replaced(t, m, d), |order|) && InOrder(Replaced(t, m, d), order[t.span[m].pos := d])
  {
    var t', n := Replaced(t, m, d), |order|;
    KidParent(t, n, m);
    ReplacedRoot(t, n, m, d);
    ReplacedRec(t, n, m, d, t.root);
    ReplacedRec(t, n, m, d, m);
    ReplacedOrder(t, order, m, d);
    hide Replaced;
    forall z | z in t'.rec ensures NodeLinked(t', z) {
      ReplacedNode(t, n, m, d, if z == d then m else z);
    }
  }

  lemma ReplacedOrder(t: Tree, order: seq<Node>, m: Node, d: Node)
    requires Linked(t, |order|) && InOrder(t, order) && m in t.rec && d !in t.rec
    ensures 0 <= t.span[m].pos < |order|
    ensures InOrder(Replaced(t, m, d), order[t.span[m].pos := d])
  {
    var t', n := Replaced(t, m, d), |order|;
    assert order[t.span[m].pos] == m;
    var order' := order[t.span[m].pos := d];
    ReplacedRec(t, n, m, d, m);
    hide Replaced, Linked;
    forall z | z in t'.rec ensures 0 <= t'.span[z].pos < |order'| && order'[t'.span[z].pos] == z {
      var w: Node := if z == d then m else z;
      ReplacedRec(t, n, m, d, w);
      assert order[t.span[w].pos] == w;
    }
    forall k | 0 <= k < |order'| ensures order'[k] in t'.rec && t'.span[order'[k]].pos == k {
      assert order[k] in t.rec && t.span[order[k]].pos == k;
      ReplacedRec(t, n, m, d, order[k]);
    }
  }

  ghost function ReplacedHeights(bh: map<Node, nat>, m: Node, d: Node): map<Node, nat>
    requires m in bh
  {
    bh[d := bh[m]] - {m}
  }

  lemma ReplacedColoured(t: Tree, n: nat, bh: map<Node, nat>, m: Node, d: Node)
    requires Linked(t, n) && RedBlack(t, bh) && m in t.rec && d !in t.rec && t.span.Keys == t.rec.Keys
    ensures m in bh && RedBlack(Replaced(t, m, d), ReplacedHeights(bh, m, d))
  {
    var t', bh' := Replaced(t, m, d), ReplacedHeights(bh, m, d);
    KidParent(t, n, m);
    ReplacedRoot(t, n, m, d);
    ReplacedRec(t, n, m, d, m);
    ReplacedRec(t, n, m, d, t.root);
    hide Replaced, Linked;
    forall z | z in t'.rec ensures BlackOk(t', bh', z, null, true) && RedOk(t', z) {
      var w: Node := if z == d then m else z;
      assert BlackOk(t, bh, w, null, true) && RedOk(t, w);
      ReplacedColour(t, n, bh, m, d, w);
    }
  }

  lemma ReplacedColour(t: Tree, n: nat, bh: map<Node, nat>, m: Node, d: Node, z: Node)
    requires Linked(t, n) && m in t.rec && d !in t.rec && t.span.Keys == t.rec.Keys && bh.Keys == t.rec.Keys
    requires z in t.rec && BlackOk(t, bh, z, null, true) && RedOk(t, z)
    ensures var t', bh', z' := Replaced(t, m, d), ReplacedHeights(bh, m, d), if z == m then d else z;
            z' in t'.rec && z' in bh' && BlackOk(t', bh', z', null, true) && RedOk(t', z')
  {
    hide Linked, Replaced;
    KidParent(t, n, z);
    ReplacedRec(t, n, m, d, z);
    if t.rec[z].parent != null { ReplacedRec(t, n, m, d, t.rec[z].parent); }
    ReplacedBelow(t, n, bh, m, d, z, true);
    ReplacedBelow(t, n, bh, m, d, z, false);
    hide Below;
  }

  lemma ReplacedBelow(t: Tree, n: nat, bh: map<Node, nat>, m: Node, d: Node, z: Node, side: bool)
    requires Linked(t, n) && m in t.rec && d !in t.rec && t.span.Keys == t.rec.Keys && bh.Keys == t.rec.Keys
             && z in t.rec
    ensures var t', z' := Replaced(t, m, d), if z == m then d else z;
            && z' in t'.rec
            && Below(t', ReplacedHeights(bh, m, d), z', side, null, true) == Below(t, bh, z, side, null, true)
  {
    hide Linked, Replaced;
    KidParent(t, n, z);
    ReplacedRec(t, n, m, d, z);
  }
}
