/** The colours of a red-black tree: how repainting and rotating repair them. */
module TreeColours {
  import opened TreeShape

  ghost function Recoloured(t: Tree, x: Node, red: bool): Tree
    requires x in t.rec
  {
    t.(rec := t.rec[x := t.rec[x].(red := red)])
  }

  /** Two trees that differ in colours only. */
  ghost predicate SameLinks(t: Tree, u: Tree) {
    && u.root == t.root && u.span == t.span && u.rec.Keys == t.rec.Keys
    && forall x :: x in t.rec ==> u.rec[x].(red := t.rec[x].red) == t.rec[x]
  }

  lemma SameLinksLinked(t: Tree, u: Tree, n: nat)
    requires Linked(t, n) && SameLinks(t, u)
    ensures Linked(u, n)
  {
    if t.root == null { assert u.rec.Keys == {}; assert u.rec == map[]; }
    forall z | z in u.rec ensures NodeLinked(u, z) {
      assert NodeLinked(t, z);
    }
  }

  /** The black height of a subtree, 0 for the empty one. */
  ghost function Height(bh: map<Node, nat>, c: Node?): nat {
    if c != null && c in bh then bh[c] else 0
  }

  ghost predicate IsRed(t: Tree, c: Node?) { c != null && c in t.rec && t.rec[c].red }

  /** The height below x on side l; the subtree below dp on side ds is one short and is counted in full. */
  ghost function Below(t: Tree, bh: map<Node, nat>, x: Node, l: bool, dp: Node?, ds: bool): nat
    requires x in t.rec
  {
    Height(bh, Kid(t.rec[x], l)) + (if x == dp && l == ds then 1 else 0)
  }

  /** Both subtrees of x have the same number of black nodes on every path, a shortage below dp apart. */
  ghost predicate BlackOk(t: Tree, bh: map<Node, nat>, x: Node, dp: Node?, ds: bool)
    requires x in t.rec && x in bh
  {
    && Below(t, bh, x, true, dp, ds) == Below(t, bh, x, false, dp, ds)
    && bh[x] == Below(t, bh, x, true, dp, ds) + (if t.rec[x].red then 0 else 1)
  }

  /** A red node's parent is black. */
  ghost predicate RedOk(t: Tree, x: Node)
    requires x in t.rec
  {
    t.rec[x].red ==> !IsRed(t, t.rec[x].parent)
  }

  /** Red-black everywhere, but for a shortage below dp on side ds and a red node `bad`. */
  ghost predicate Coloured(t: Tree, bh: map<Node, nat>, dp: Node?, ds: bool, bad: Node?) {
    && bh.Keys == t.rec.Keys
    && (forall x {:trigger BlackOk(t, bh, x, dp, ds)} :: x in t.rec ==> BlackOk(t, bh, x, dp, ds))
    && (forall x {:trigger RedOk(t, x)} :: x in t.rec && x != bad ==> RedOk(t, x))
    && (IsRed(t, t.root) ==> t.root == bad)
  }

  /** The red-black properties: black root, no red node below a red node, equal black heights. */
  ghost predicate RedBlack(t: Tree, bh: map<Node, nat>) { Coloured(t, bh, null, true, null) }

  /** Each child knows its parent, and the two sides differ. */
  lemma KidParent(t: Tree, n: nat, z: Node)
    requires Linked(t, n) && z in t.rec
    ensures t.rec[z].left != null ==>
              && t.rec[z].left in t.rec && t.rec[t.rec[z].left].parent == z
              && t.rec[z].left != z && t.rec[z].left != t.rec[z].right
    ensures t.rec[z].right != null ==>
              t.rec[z].right in t.rec && t.rec[t.rec[z].right].parent == z && t.rec[z].right != z
    ensures t.rec[z].parent != null ==>
              && t.rec[z].parent in t.rec && t.rec[z].parent != z
              && (t.rec[t.rec[z].parent].left == z || t.rec[t.rec[z].parent].right == z)
    ensures t.rec[z].parent == null <==> t.root == z
    ensures t.span.Keys == t.rec.Keys && t.root != null && t.root in t.rec
  {
    assert NodeLinked(t, z);
    if t.rec[z].left != null { assert NodeLinked(t, t.rec[z].left); }
    if t.rec[z].right != null { assert NodeLinked(t, t.rec[z].right); }
    if t.rec[z].parent != null { assert NodeLinked(t, t.rec[z].parent); }
  }

  /** y, the child of x on side s, can be lifted over x. */
  ghost predicate Liftable(t: Tree, n: nat, x: Node, y: Node, s: bool) {
    Linked(t, n) && t.span.Keys == t.rec.Keys && x in t.rec && y in t.rec && x != y && Kid(t.rec[x], s) == y
  }

  /** Paint x and y in the colours cx and cy, then rotate x so that y, its child on side s, takes its place. */
  ghost function Lifted(t: Tree, x: Node, y: Node, s: bool, cx: bool, cy: bool): Tree
    requires x in t.rec && y in t.rec && x != y && Kid(t.rec[x], s) == y && t.span.Keys == t.rec.Keys
  {
    Rotated(Recoloured(Recoloured(t, y, cy), x, cx), x, !s)
  }

  lemma LiftedLinked(t: Tree, n: nat, x: Node, y: Node, s: bool, cx: bool, cy: bool)
    requires Liftable(t, n, x, y, s)
    ensures var t' := Lifted(t, x, y, s, cx, cy);
            && Linked(t', n) && t'.rec.Keys == t.rec.Keys
            && t'.root == if t.rec[x].parent == null then y else t.root
  {
    hide Rotated, Linked;
    var t0 := Recoloured(Recoloured(t, y, cy), x, cx);
    SameLinksLinked(t, t0, n);
    RotateLinked(t0, n, x, !s);
    RotatedRoot(t0, n, x, !s);
  }

  /** What lifting does to the record of node z. */
  lemma LiftedRec(t: Tree, n: nat, x: Node, y: Node, s: bool, cx: bool, cy: bool, z: Node)
    requires Liftable(t, n, x, y, s) && z in t.rec
    ensures var t' := Lifted(t, x, y, s, cx, cy);
            && t'.rec.Keys == t.rec.Keys
            && (z == x ==> t'.rec[z] == WithKid(t.rec[x], s, Kid(t.rec[y], !s)).(parent := y, red := cx))
            && (z == y ==> t'.rec[z] == WithKid(t.rec[y], !s, x).(parent := t.rec[x].parent, red := cy))
            && (z == Kid(t.rec[y], !s) ==> t'.rec[z] == t.rec[z].(parent := x))
            && (z == t.rec[x].parent ==> t'.rec[z] == if t.rec[z].left == x then t.rec[z].(left := y)
                else t.rec[z].(right := y))
            && (z != x && z != y && z != Kid(t.rec[y], !s) && z != t.rec[x].parent ==> t'.rec[z] == t.rec[z])
            && t'.span[z].pos == t.span[z].pos
  {
    var t0 := Recoloured(Recoloured(t, y, cy), x, cx);
    hide Rotated, Linked, Recoloured;
    KidParent(t, n, y);
    PaintedPair(t, n, x, y, cx, cy, z);
    assert Lifted(t, x, y, s, cx, cy) == Rotated(t0, x, !s);
    hide Lifted;
    RotatedRec(t0, n, x, !s, z);
    assert Kid(t0.rec[y], !s) == Kid(t.rec[y], !s);
    if z == x {} else if z == y {} else if z == Kid(t.rec[y], !s) {}
  }

  lemma PaintedPair(t: Tree, n: nat, x: Node, y: Node, cx: bool, cy: bool, z: Node)
    requires Linked(t, n) && x in t.rec && y in t.rec && x != y && z in t.rec
    ensures var t0 := Recoloured(Recoloured(t, y, cy), x, cx);
            && Linked(t0, n) && t0.rec.Keys == t.rec.Keys && t0.span == t.span
            && t0.rec[x] == t.rec[x].(red := cx) && t0.rec[y] == t.rec[y].(red := cy)
            && (z != x && z != y ==> t0.rec[z] == t.rec[z])
  {
    SameLinksLinked(t, Recoloured(Recoloured(t, y, cy), x, cx), n);
  }

  /** The heights after lifting: y gets the height x had. */
  ghost function LiftedHeights(bh: map<Node, nat>, x: Node, y: Node, hx: nat): map<Node, nat>
    requires x in bh
  {
    bh[y := bh[x]][x := hx]
  }

  lemma LiftedKid(t: Tree, n: nat, x: Node, y: Node, s: bool, cx: bool, cy: bool, z: Node, side: bool,
                  bh: map<Node, nat>, hx: nat)
    requires Liftable(t, n, x, y, s) && z in t.rec && z != x && z != y && bh.Keys == t.rec.Keys
    ensures z in Lifted(t, x, y, s, cx, cy).rec
    ensures Height(LiftedHeights(bh, x, y, hx), Kid(Lifted(t, x, y, s, cx, cy).rec[z], side))
            == Height(bh, Kid(t.rec[z], side))
  {
    hide Lifted, Linked;
    KidParent(t, n, z);
    KidParent(t, n, x);
    KidParent(t, n, y);
    LiftedRec(t, n, x, y, s, cx, cy, z);
  }

  /** Lifting leaves the heights at every other node alone. */
  lemma LiftedBlack(t: Tree, n: nat, x: Node, y: Node, s: bool, cx: bool, cy: bool, z: Node,
                    bh: map<Node, nat>, hx: nat, dp: Node?, ds: bool)
    requires Liftable(t, n, x, y, s) && z in t.rec && z != x && z != y
    requires bh.Keys == t.rec.Keys && BlackOk(t, bh, z, dp, ds)
    ensures z in Lifted(t, x, y, s, cx, cy).rec
    ensures BlackOk(Lifted(t, x, y, s, cx, cy), LiftedHeights(bh, x, y, hx), z, dp, ds)
  {
    hide Lifted, Linked;
    KidParent(t, n, z);
    KidParent(t, n, x);
    KidParent(t, n, y);
    LiftedRec(t, n, x, y, s, cx, cy, z);
    var t' := Lifted(t, x, y, s, cx, cy);
    LiftedKid(t, n, x, y, s, cx, cy, z, true, bh, hx);
    LiftedKid(t, n, x, y, s, cx, cy, z, false, bh, hx);
    hide Kid;
  }

  /** Lifting leaves nodes away from x and y as red-ok as they were. */
  lemma LiftedRed(t: Tree, n: nat, x: Node, y: Node, s: bool, cx: bool, cy: bool, z: Node)
    requires Liftable(t, n, x, y, s) && z in t.rec && z != x && z != y && t.rec[z].parent != x && t.rec[z].parent != y
             && RedOk(t, z)
    ensures z in Lifted(t, x, y, s, cx, cy).rec && RedOk(Lifted(t, x, y, s, cx, cy), z)
  {
    hide Lifted, Linked;
    KidParent(t, n, z);
    KidParent(t, n, y);
    LiftedRec(t, n, x, y, s, cx, cy, z);
    if t.rec[z].parent != null { LiftedRec(t, n, x, y, s, cx, cy, t.rec[z].parent); }
  }

  /** Near x and y: no red child of x or y under a red one. */
  lemma LiftedKidRed(t: Tree, n: nat, x: Node, y: Node, s: bool, cx: bool, cy: bool, z: Node)
    requires Liftable(t, n, x, y, s) && z in t.rec && z != x && z != y && (t.rec[z].parent == x || t.rec[z].parent == y)
    requires cx ==> !IsRed(t, Kid(t.rec[x], !s)) && !IsRed(t, Kid(t.rec[y], !s))
    requires cy ==> !IsRed(t, Kid(t.rec[y], s))
    ensures z in Lifted(t, x, y, s, cx, cy).rec && RedOk(Lifted(t, x, y, s, cx, cy), z)
  {
    hide Lifted, Linked;
    KidParent(t, n, z);
    KidParent(t, n, y);
    KidParent(t, n, x);
    LiftedRec(t, n, x, y, s, cx, cy, z);
    LiftedRec(t, n, x, y, s, cx, cy, x);
    LiftedRec(t, n, x, y, s, cx, cy, y);
  }

  /** The heights that make x and y right after lifting: x over its old other child and y's inner one. */
  ghost predicate LiftHeights(t: Tree, bh: map<Node, nat>, x: Node, y: Node, s: bool, cx: bool, cy: bool, hx: nat,
                              dp: Node?, ds: bool)
    requires x in t.rec && y in t.rec && bh.Keys == t.rec.Keys
  {
    var c := Height(bh, Kid(t.rec[x], !s)) + (if x == dp && ds == !s then 1 else 0);
    && c == Height(bh, Kid(t.rec[y], !s)) && y != dp && !(x == dp && ds == s)
    && hx == c + (if cx then 0 else 1)
    && hx == Height(bh, Kid(t.rec[y], s))
    && bh[x] == hx + (if cy then 0 else 1)
  }

  lemma LiftedPair(t: Tree, n: nat, x: Node, y: Node, s: bool, cx: bool, cy: bool, bh: map<Node, nat>, hx: nat)
    requires Liftable(t, n, x, y, s) && bh.Keys == t.rec.Keys
    ensures var t', bh', m, c, o := Lifted(t, x, y, s, cx, cy), LiftedHeights(bh, x, y, hx), Kid(t.rec[y], !s),
            Kid(t.rec[x], !s), Kid(t.rec[y], s);
            && x in t'.rec && y in t'.rec && t'.rec[x].red == cx && t'.rec[y].red == cy
            && Height(bh', Kid(t'.rec[x], s)) == Height(bh, m) && Height(bh', Kid(t'.rec[x], !s)) == Height(bh, c)
            && Height(bh', Kid(t'.rec[y], s)) == Height(bh, o) && Height(bh', Kid(t'.rec[y], !s)) == hx
  {
    hide Lifted, Linked;
    KidParent(t, n, x);
    KidParent(t, n, y);
    LiftedRec(t, n, x, y, s, cx, cy, x);
    LiftedRec(t, n, x, y, s, cx, cy, y);
  }

  lemma LiftedPairBlack(t: Tree, n: nat, x: Node, y: Node, s: bool, cx: bool, cy: bool, bh: map<Node, nat>, hx: nat,
                        dp: Node?, ds: bool)
    requires Liftable(t, n, x, y, s) && bh.Keys == t.rec.Keys && LiftHeights(t, bh, x, y, s, cx, cy, hx, dp, ds)
    ensures var t', bh' := Lifted(t, x, y, s, cx, cy), LiftedHeights(bh, x, y, hx);
            x in t'.rec && y in t'.rec && BlackOk(t', bh', x, dp, ds) && BlackOk(t', bh', y, dp, ds)
  {
    hide Lifted, Linked;
    LiftedPair(t, n, x, y, s, cx, cy, bh, hx);
    hide Kid, Height;
  }

  lemma LiftedPairRed(t: Tree, n: nat, x: Node, y: Node, s: bool, cx: bool, cy: bool)
    requires Liftable(t, n, x, y, s)
    ensures var t' := Lifted(t, x, y, s, cx, cy);
            && x in t'.rec && y in t'.rec && (!(cx && cy) ==> RedOk(t', x))
            && ((cy ==> !IsRed(t, t.rec[x].parent)) ==> RedOk(t', y))
            && (IsRed(t', t'.root) ==> if t.rec[x].parent == null then cy else IsRed(t, t.root))
  {
    hide Lifted, Linked;
    KidParent(t, n, x);
    KidParent(t, n, y);
    LiftedLinked(t, n, x, y, s, cx, cy);
    LiftedRec(t, n, x, y, s, cx, cy, x);
    LiftedRec(t, n, x, y, s, cx, cy, y);
    if t.rec[x].parent != null { LiftedRec(t, n, x, y, s, cx, cy, t.rec[x].parent); }
    LiftedRec(t, n, x, y, s, cx, cy, t.root);
  }

  /** The colours that make x and y right after lifting; only x may be left red under red. */
  ghost predicate LiftColours(t: Tree, x: Node, y: Node, s: bool, cx: bool, cy: bool, bad: Node?)
    requires x in t.rec && y in t.rec
  {
    && (cx ==> !IsRed(t, Kid(t.rec[x], !s)) && !IsRed(t, Kid(t.rec[y], !s)))
    && (cy ==> !IsRed(t, Kid(t.rec[y], s)) && !IsRed(t, t.rec[x].parent) && t.rec[x].parent != null)
    && (cx && cy ==> bad == x)
  }

  /** When lifting y over x leaves a tree coloured: the one argument behind all rotations of insertion and erasure. */
  lemma LiftColoured(t: Tree, n: nat, x: Node, y: Node, s: bool, cx: bool, cy: bool,
                     bh: map<Node, nat>, hx: nat, dp: Node?, ds: bool, bad: Node?)
    requires Liftable(t, n, x, y, s) && bh.Keys == t.rec.Keys
    requires LiftHeights(t, bh, x, y, s, cx, cy, hx, dp, ds) && LiftColours(t, x, y, s, cx, cy, bad)
    requires forall z {:trigger BlackOk(t, bh, z, dp, ds)} :: z in t.rec && z != x && z != y ==>
             BlackOk(t, bh, z, dp, ds)
    requires forall z {:trigger RedOk(t, z)} ::
               z in t.rec && z != x && z != y && t.rec[z].parent != x && t.rec[z].parent != y ==> RedOk(t, z)
    requires IsRed(t, t.root) ==> t.root == x
    ensures Linked(Lifted(t, x, y, s, cx, cy), n)
    ensures Coloured(Lifted(t, x, y, s, cx, cy), LiftedHeights(bh, x, y, hx), dp, ds, bad)
  {
    hide Lifted, Linked;
    var t', bh' := Lifted(t, x, y, s, cx, cy), LiftedHeights(bh, x, y, hx);
    KidParent(t, n, x);
    LiftedLinked(t, n, x, y, s, cx, cy);
    LiftedPairRed(t, n, x, y, s, cx, cy);
    LiftedPairBlack(t, n, x, y, s, cx, cy, bh, hx, dp, ds);
    assert bh'.Keys == t'.rec.Keys;
    hide BlackOk, RedOk, LiftHeights;
    forall z | z in t'.rec
      ensures BlackOk(t', bh', z, dp, ds) && (z != bad ==> RedOk(t', z))
    {
      if z != x && z != y {
        LiftedBlack(t, n, x, y, s, cx, cy, z, bh, hx, dp, ds);
        if t.rec[z].parent == x || t.rec[z].parent == y { LiftedKidRed(t, n, x, y, s, cx, cy, z); }
        else { LiftedRed(t, n, x, y, s, cx, cy, z); }
      }
    }
  }
}
