/** Insertion into a red-black tree: hanging the new leaf, and the three cases of BalanceInsert. */
module TreeInsert {
  import opened TreeShape
  import opened TreeColours

  /** `order` lists the nodes of t in order. */
  ghost predicate InOrder(t: Tree, order: seq<Node>) {
    && t.span.Keys == t.rec.Keys
    && (forall x {:trigger t.span[x].pos} :: x in t.rec ==> 0 <= t.span[x].pos < |order| && order[t.span[x].pos] == x)
    && (forall k {:trigger order[k]} :: 0 <= k < |order| ==> order[k] in t.rec && t.span[order[k]].pos == k)
  }

  /** The span of an old node once a new one has been hung at index i, on the left (l) or right of its parent. */
  ghost function Widened(s: Span, i: int, l: bool): Span {
    Span(s.lo + (if s.lo > i || (s.lo == i && !l) then 1 else 0),
         s.pos + (if s.pos >= i then 1 else 0),
         s.hi + (if s.hi > i || (s.hi == i && !l) then 1 else 0))
  }

  /** The index the new child of p on side l gets. */
  ghost function LeafIndex(t: Tree, p: Node, l: bool): int
    requires p in t.span
  {
    if l then t.span[p].pos else t.span[p].pos + 1
  }

  /** The red leaf z hung below p on side l. */
  ghost function WithLeaf(t: Tree, p: Node, l: bool, z: Node): Tree
    requires p in t.rec && t.span.Keys == t.rec.Keys
  {
    var i := LeafIndex(t, p, l);
    Tree(t.rec[p := WithKid(t.rec[p], l, z)][z := Rec(p, null, null, true)], t.root,
         (map w | w in t.span :: Widened(t.span[w], i, l))[z := Span(i, i, i + 1)])
  }

  lemma LeafNode(t: Tree, order: seq<Node>, p: Node, l: bool, z: Node, w: Node)
    requires Linked(t, |order|) && InOrder(t, order) && p in t.rec && Kid(t.rec[p], l) == null && z !in t.rec
             && w in t.rec
    ensures WithLeaf(t, p, l, z).span.Keys == WithLeaf(t, p, l, z).rec.Keys && w in WithLeaf(t, p, l, z).rec
    ensures NodeLinked(WithLeaf(t, p, l, z), w)
  {
    assert NodeLinked(t, w) && NodeLinked(t, p);
    assert t.span[w].pos == t.span[p].pos ==> w == p;
    hide Linked, InOrder;
    LeafKid(t, p, l, z, w, true);
    LeafKid(t, p, l, z, w, false);
    LeafParent(t, p, l, z, w);
    hide KidLinked, ParentLinked;
  }

  lemma LeafParent(t: Tree, p: Node, l: bool, z: Node, w: Node)
    requires t.span.Keys == t.rec.Keys && p in t.rec && Kid(t.rec[p], l) == null && z !in t.rec && w in t.rec
             && ParentLinked(t, w)
    ensures w in WithLeaf(t, p, l, z).rec && ParentLinked(WithLeaf(t, p, l, z), w)
  {}

  lemma LeafKid(t: Tree, p: Node, l: bool, z: Node, w: Node, side: bool)
    requires t.span.Keys == t.rec.Keys && p in t.rec && Kid(t.rec[p], l) == null && z !in t.rec && w in t.rec
    requires NodeLinked(t, w) && NodeLinked(t, p) && (t.span[w].pos == t.span[p].pos ==> w == p)
    ensures WithLeaf(t, p, l, z).span.Keys == WithLeaf(t, p, l, z).rec.Keys && w in WithLeaf(t, p, l, z).rec
    ensures KidLinked(WithLeaf(t, p, l, z), w, side)
  {}

  /** Hanging a leaf: the tree stays linked, and its order gains z at the leaf's index. */
  lemma LeafLinked(t: Tree, order: seq<Node>, p: Node, l: bool, z: Node)
    requires Linked(t, |order|) && InOrder(t, order) && p in t.rec && Kid(t.rec[p], l) == null && z !in t.rec
    ensures 0 <= LeafIndex(t, p, l) <= |order|
    ensures var i := LeafIndex(t, p, l);
            Linked(WithLeaf(t, p, l, z), |order| + 1) && InOrder(WithLeaf(t, p, l, z), order[..i] + [z] + order[i..])
  {
    var t', i := WithLeaf(t, p, l, z), LeafIndex(t, p, l);
    assert NodeLinked(t, p);
    assert NodeLinked(t, t.root);
    LeafNode(t, order, p, l, z, p);
    forall w | w in t'.rec ensures NodeLinked(t', w) {
      if w != z { LeafNode(t, order, p, l, z, w); }
    }
    LeafOrder(t, order, p, l, z);
  }

  lemma LeafOrder(t: Tree, order: seq<Node>, p: Node, l: bool, z: Node)
    requires InOrder(t, order) && p in t.rec && z !in t.rec
    ensures var i := LeafIndex(t, p, l);
            0 <= i <= |order| && InOrder(WithLeaf(t, p, l, z), order[..i] + [z] + order[i..])
  {
    var t', i := WithLeaf(t, p, l, z), LeafIndex(t, p, l);
    assert 0 <= t.span[p].pos < |order|;
    var order' := order[..i] + [z] + order[i..];
    forall x | x in t'.rec ensures 0 <= t'.span[x].pos < |order'| && order'[t'.span[x].pos] == x {
      if x != z { assert 0 <= t.span[x].pos < |order| && order[t.span[x].pos] == x; }
    }
    forall k | 0 <= k < |order'| ensures order'[k] in t'.rec && t'.span[order'[k]].pos == k {
      if k < i { assert order'[k] == order[k]; } else if k > i { assert order'[k] == order[k - 1]; }
    }
  }

  /** A red leaf upsets no height; it may only sit below a red parent, or be the root. */
  lemma LeafColoured(t: Tree, n: nat, bh: map<Node, nat>, p: Node, l: bool, z: Node)
    requires Linked(t, n) && RedBlack(t, bh) && p in t.rec && Kid(t.rec[p], l) == null && z !in t.rec
    ensures Coloured(WithLeaf(t, p, l, z), bh[z := 0], null, true, z)
  {
    hide Linked;
    KidParent(t, n, p);
    var t', bh' := WithLeaf(t, p, l, z), bh[z := 0];
    assert bh'.Keys == t'.rec.Keys && !IsRed(t', t'.root);
    hide WithLeaf;
    forall w | w in t'.rec
      ensures BlackOk(t', bh', w, null, true) && (w != z ==> RedOk(t', w))
    {
      if w != z { assert BlackOk(t, bh, w, null, true) && RedOk(t, w); }
      LeafNodeColoured(t, n, bh, p, l, z, w);
    }
  }

  lemma LeafNodeColoured(t: Tree, n: nat, bh: map<Node, nat>, p: Node, l: bool, z: Node, w: Node)
    requires Linked(t, n) && p in t.rec && Kid(t.rec[p], l) == null && z !in t.rec
             && t.span.Keys == t.rec.Keys == bh.Keys
    requires w != z ==> w in t.rec && BlackOk(t, bh, w, null, true) && RedOk(t, w)
    ensures var t', bh' := WithLeaf(t, p, l, z), bh[z := 0];
            w in t'.rec && w in bh' && BlackOk(t', bh', w, null, true) && (w != z ==> RedOk(t', w))
  {
    hide Linked;
    if w != z { KidParent(t, n, w); }
  }

  /** The tree of one red node. */
  ghost function Single(z: Node): Tree { Tree(map[z := Rec(null, null, null, true)], z, map[z := Span(0, 0, 1)]) }

  lemma SingleLinked(z: Node)
    ensures Linked(Single(z), 1) && InOrder(Single(z), [z]) && Coloured(Single(z), map[z := 0], null, true, z)
  {}

  /** Where a fault sits: x red below red p, which is the child of g on side l. */
  ghost predicate Family(t: Tree, n: nat, x: Node, p: Node, g: Node, l: bool) {
    && Linked(t, n) && x in t.rec && p in t.rec && g in t.rec && t.span.Keys == t.rec.Keys
    && t.rec[x].red && t.rec[x].parent == p && t.rec[p].red && t.rec[p].parent == g && Kid(t.rec[g], l) == p && p != g
  }

  lemma FamilyKids(t: Tree, n: nat, x: Node, p: Node, g: Node, l: bool)
    requires Family(t, n, x, p, g, l)
    ensures (Kid(t.rec[p], true) == x <==> Kid(t.rec[p], false) != x)
            && (Kid(t.rec[g], true) == p <==> Kid(t.rec[g], false) != p)
  {
    KidParent(t, n, x);
    KidParent(t, n, p);
    KidParent(t, n, g);
    hide Linked;
  }

  /** A red node below a red one: there is a grandparent, since the root is black. */
  lemma FaultFamily(t: Tree, n: nat, bh: map<Node, nat>, x: Node)
    requires Linked(t, n) && Coloured(t, bh, null, true, x) && x in t.rec && t.rec[x].red && x != t.root
    ensures var p := t.rec[x].parent;
            && p != null && p in t.rec
            && (t.rec[p].red ==>
                  var g := t.rec[p].parent;
                  g != null && g in t.rec && Family(t, n, x, p, g, t.rec[g].left == p))
  {
    KidParent(t, n, x);
    KidParent(t, n, t.rec[x].parent);
    if t.rec[t.rec[x].parent].parent != null { KidParent(t, n, t.rec[t.rec[x].parent].parent); }
    hide Linked;
  }

  /** The heights after a red uncle's recolouring. */
  ghost function RaisedHeights(bh: map<Node, nat>, p: Node, u: Node): map<Node, nat>
    requires p in bh && u in bh
  {
    bh[p := bh[p] + 1][u := bh[u] + 1]
  }

  /** Red uncle: parent p and uncle u turn black, grandparent g red, and the search for a fault moves up to g. */
  ghost function InsertRecoloured(t: Tree, p: Node, u: Node, g: Node): Tree
    requires p in t.rec && u in t.rec && g in t.rec
  {
    Recoloured(Recoloured(Recoloured(t, p, false), u, false), g, true)
  }

  lemma InsertRecolourKid(t: Tree, n: nat, bh: map<Node, nat>, p: Node, g: Node, u: Node, l: bool, z: Node, side: bool)
    requires Linked(t, n) && g in t.rec && Kid(t.rec[g], l) == p && Kid(t.rec[g], !l) == u && z in t.rec
             && bh.Keys == t.rec.Keys
    requires p in t.rec && u in t.rec
    ensures Height(RaisedHeights(bh, p, u), Kid(t.rec[z], side)) == Height(bh, Kid(t.rec[z], side))
            + (if z == g then 1 else 0)
  {
    KidParent(t, n, g);
    KidParent(t, n, z);
    hide Linked;
  }

  lemma InsertRecolourBlack(t: Tree, n: nat, bh: map<Node, nat>, x: Node, p: Node, g: Node, u: Node, l: bool, z: Node)
    requires Family(t, n, x, p, g, l) && u in t.rec && Kid(t.rec[g], !l) == u && t.rec[u].red && z in t.rec
             && bh.Keys == t.rec.Keys
    requires BlackOk(t, bh, z, null, true) && BlackOk(t, bh, g, null, true) && RedOk(t, p)
    ensures var t', bh' := InsertRecoloured(t, p, u, g), RaisedHeights(bh, p, u);
            z in t'.rec && z in bh' && BlackOk(t', bh', z, null, true)
  {
    KidParent(t, n, g);
    InsertRecolourKid(t, n, bh, p, g, u, l, z, true);
    InsertRecolourKid(t, n, bh, p, g, u, l, z, false);
    var t' := InsertRecoloured(t, p, u, g);
    assert t'.rec[z] == t.rec[z].(red := if z == g then true else if z == p || z == u then false else t.rec[z].red);
    hide Linked, Height, InsertRecoloured, Recoloured;
  }

  lemma InsertRecolourRed(t: Tree, n: nat, x: Node, p: Node, g: Node, u: Node, l: bool, z: Node)
    requires Family(t, n, x, p, g, l) && u in t.rec && Kid(t.rec[g], !l) == u && t.rec[u].red && z in t.rec && z != g
    requires z != x ==> RedOk(t, z)
    ensures z in InsertRecoloured(t, p, u, g).rec && RedOk(InsertRecoloured(t, p, u, g), z)
  {
    KidParent(t, n, g);
    KidParent(t, n, z);
    hide Linked;
  }

  /** Case 1 of BalanceInsert. */
  lemma InsertRecolour(t: Tree, n: nat, bh: map<Node, nat>, x: Node, p: Node, g: Node, u: Node, l: bool)
    requires Family(t, n, x, p, g, l) && Coloured(t, bh, null, true, x) && u in t.rec && Kid(t.rec[g], !l) == u
             && t.rec[u].red
    ensures p in bh && u in bh && p != u
    ensures var t' := InsertRecoloured(t, p, u, g);
            Linked(t', n) && Coloured(t', RaisedHeights(bh, p, u), null, true, g) && t'.rec[g].red
  {
    hide Linked;
    var t', bh' := InsertRecoloured(t, p, u, g), RaisedHeights(bh, p, u);
    InsertRecolourLinks(t, n, bh, x, p, g, u, l);
    assert BlackOk(t, bh, g, null, true) && RedOk(t, p);
    hide InsertRecoloured, RaisedHeights, BlackOk, RedOk;
    forall z | z in t'.rec
      ensures BlackOk(t', bh', z, null, true) && (z != g ==> RedOk(t', z))
    {
      assert BlackOk(t, bh, z, null, true) && (z != x ==> RedOk(t, z));
      InsertRecolourBlack(t, n, bh, x, p, g, u, l, z);
      if z != g { InsertRecolourRed(t, n, x, p, g, u, l, z); }
    }
  }

  lemma InsertRecolourLinks(t: Tree, n: nat, bh: map<Node, nat>, x: Node, p: Node, g: Node, u: Node, l: bool)
    requires Family(t, n, x, p, g, l) && u in t.rec && Kid(t.rec[g], !l) == u && t.rec[u].red
    requires (IsRed(t, t.root) ==> t.root == x) && bh.Keys == t.rec.Keys
    ensures p != u
    ensures var t' := InsertRecoloured(t, p, u, g);
            && Linked(t', n) && t'.rec.Keys == t.rec.Keys && t'.rec[g].red && (IsRed(t', t'.root) ==> t'.root == g)
            && RaisedHeights(bh, p, u).Keys == t'.rec.Keys
  {
    hide Linked;
    SameLinksLinked(t, InsertRecoloured(t, p, u, g), n);
    KidParent(t, n, g);
    KidParent(t, n, p);
  }

  /** The red-ok facts a rotation at x needs from the tree before it. */
  lemma Around(t: Tree, n: nat, bh: map<Node, nat>, dp: Node?, ds: bool, bad: Node?, x: Node, l: bool)
    requires Linked(t, n) && Coloured(t, bh, dp, ds, bad) && x in t.rec
    ensures BlackOk(t, bh, x, dp, ds) && (x != bad ==> RedOk(t, x))
    ensures t.rec[x].red && Kid(t.rec[x], l) != bad ==> !IsRed(t, Kid(t.rec[x], l))
  {
    KidParent(t, n, x);
    var c := Kid(t.rec[x], l);
    if c != null && c != bad { assert RedOk(t, c); }
  }

  /** A fault with a black uncle. */
  ghost predicate BlackUncle(t: Tree, n: nat, bh: map<Node, nat>, x: Node, p: Node, g: Node, l: bool) {
    Family(t, n, x, p, g, l) && Coloured(t, bh, null, true, x) && !IsRed(t, Kid(t.rec[g], !l))
  }

  /** Case 2, inner child: rotating p puts the fault in line, with p now below x. */
  lemma InsertInner(t: Tree, n: nat, bh: map<Node, nat>, x: Node, p: Node, g: Node, l: bool)
    requires BlackUncle(t, n, bh, x, p, g, l) && Kid(t.rec[p], !l) == x
    ensures BlackUncle(Rotated(t, p, l), n, bh, p, x, g, l) && Kid(Rotated(t, p, l).rec[x], l) == p
  {
    hide Linked, Rotated;
    KidParent(t, n, p);
    KidParent(t, n, g);
    KidParent(t, n, x);
    Around(t, n, bh, null, true, x, p, l);
    Around(t, n, bh, null, true, x, x, l);
    Around(t, n, bh, null, true, x, x, !l);
    var t' := Lifted(t, p, x, !l, true, true);
    assert t' == Rotated(t, p, l) by { assert Recoloured(Recoloured(t, x, true), p, true) == t; }
    assert LiftedHeights(bh, p, x, bh[p]) == bh;
    LiftedRec(t, n, p, x, !l, true, true, p);
    LiftedRec(t, n, p, x, !l, true, true, x);
    LiftedRec(t, n, p, x, !l, true, true, g);
    if Kid(t.rec[g], !l) != null { LiftedRec(t, n, p, x, !l, true, true, Kid(t.rec[g], !l)); }
    LiftedLinked(t, n, p, x, !l, true, true);
    hide Lifted, BlackOk;
    assert LiftHeights(t, bh, p, x, !l, true, true, bh[p], null, true);
    LiftColoured(t, n, p, x, !l, true, true, bh, bh[p], null, true, p);
    LinkedNode(t', n, x);
  }

  /** Case 2, outer child: p turns black, g red and is rotated below p. */
  lemma InsertOuter(t: Tree, n: nat, bh: map<Node, nat>, x: Node, p: Node, g: Node, l: bool)
    requires BlackUncle(t, n, bh, x, p, g, l) && Kid(t.rec[p], l) == x
    ensures p in bh && g in bh && bh[g] >= 1
    ensures var t' := Lifted(t, g, p, l, true, false);
            && Linked(t', n) && RedBlack(t', LiftedHeights(bh, g, p, bh[g] - 1)) && t'.rec.Keys == t.rec.Keys
            && x in t'.rec && t'.rec[x].parent == p && t'.rec[x].red && !t'.rec[p].red
  {
    hide Lifted, Linked;
    KidParent(t, n, p);
    KidParent(t, n, g);
    KidParent(t, n, x);
    Around(t, n, bh, null, true, x, g, !l);
    Around(t, n, bh, null, true, x, p, !l);
    LiftedRec(t, n, g, p, l, true, false, x);
    LiftedRec(t, n, g, p, l, true, false, p);
    LiftedLinked(t, n, g, p, l, true, false);
    assert LiftHeights(t, bh, g, p, l, true, false, bh[g] - 1, null, true);
    hide BlackOk, LiftHeights;
    LiftColoured(t, n, g, p, l, true, false, bh, bh[g] - 1, null, true, null);
  }

  /** The heights after painting c black. */
  ghost function BlackenedHeights(t: Tree, bh: map<Node, nat>, c: Node): map<Node, nat>
    requires c in t.rec && c in bh
  {
    if t.rec[c].red then bh[c := bh[c] + 1] else bh
  }

  lemma BlackRootNode(t: Tree, n: nat, bh: map<Node, nat>, z: Node)
    requires Linked(t, n) && z in t.rec && t.root != null && t.root in t.rec && bh.Keys == t.rec.Keys
             && BlackOk(t, bh, z, null, true)
    ensures var t', bh' := Recoloured(t, t.root, false), BlackenedHeights(t, bh, t.root);
            z in t'.rec && BlackOk(t', bh', z, null, true) && (z == t.root || RedOk(t, z) ==> RedOk(t', z))
  {
    KidParent(t, n, z);
    KidParent(t, n, t.root);
    hide Linked;
    var bh' := BlackenedHeights(t, bh, t.root);
    assert Height(bh', t.rec[z].left) == Height(bh, t.rec[z].left);
    assert Height(bh', t.rec[z].right) == Height(bh, t.rec[z].right);
    hide Height;
  }

  /** Painting the root black. */
  lemma BlackRoot(t: Tree, n: nat, bh: map<Node, nat>, x: Node)
    requires Linked(t, n) && Coloured(t, bh, null, true, x) && x in t.rec && t.root != null && t.root in t.rec
    requires x == t.root || !IsRed(t, t.rec[x].parent)
    ensures t.root in bh
    ensures var t' := Recoloured(t, t.root, false);
            Linked(t', n) && RedBlack(t', BlackenedHeights(t, bh, t.root))
  {
    var r: Node := t.root;
    var t' := Recoloured(t, r, false);
    var bh': map<Node, nat> := BlackenedHeights(t, bh, r);
    SameLinksLinked(t, t', n);
    KidParent(t, n, x);
    assert bh'.Keys == t'.rec.Keys && !IsRed(t', t'.root) && t'.root == r;
    hide Linked, BlackOk, Recoloured;
    forall z | z in t'.rec ensures BlackOk(t', bh', z, null, true) && RedOk(t', z) {
      assert BlackOk(t, bh, z, null, true) && (z != x ==> RedOk(t, z));
      assert z == r || RedOk(t, z);
      BlackRootNode(t, n, bh, z);
    }
  }
}
