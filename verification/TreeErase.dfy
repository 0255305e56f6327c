/**
 Erasure from a red-black tree: splicing a node out, the cases of BalanceErase, and
 putting a node in another's place.
 */
module TreeErase {
  import opened TreeShape
  import opened TreeColours
  import opened TreeInsert

  /** The child that takes the place of a node with at most one child. */
  ghost function OnlyKid(r: Rec): Node? { if r.left != null then r.left else r.right }

  /** The span of another node once the node at index j is gone. */
  ghost function Narrowed(s: Span, j: int): Span {
    Span(s.lo - (if s.lo > j then 1 else 0), s.pos - (if s.pos > j then 1 else 0), s.hi - (if s.hi > j then 1 else 0))
  }

  /** Node d spliced out: its only child, if any, hangs where d hung. */
  ghost function Spliced(t: Tree, d: Node): Tree
    requires d in t.rec && t.span.Keys == t.rec.Keys
  {
    var c, p := OnlyKid(t.rec[d]), t.rec[d].parent;
    var r1 := if c != null && c in t.rec then t.rec[c := t.rec[c].(parent := p)] else t.rec;
    var r2 := if p != null && p in r1 then r1[p := if r1[p].left == d then r1[p].(left := c) else r1[p].(right := c)]
        else r1;
    Tree(r2 - {d}, if p == null then c else t.root, (map w | w in t.span :: Narrowed(t.span[w], t.span[d].pos)) - {d})
  }

  ghost predicate Spliceable(t: Tree, order: seq<Node>, d: Node) {
    Linked(t, |order|) && InOrder(t, order) && d in t.rec && (t.rec[d].left == null || t.rec[d].right == null)
        && t.span.Keys == t.rec.Keys
  }

  lemma OnePlace(t: Tree, order: seq<Node>, a: Node, b: Node)
    requires InOrder(t, order) && a in t.rec && b in t.rec && a != b
    ensures t.span[a].pos != t.span[b].pos && 0 <= t.span[a].pos < |order| && order[t.span[a].pos] == a
  {}

  /** What splicing does to the record of another node. */
  lemma SplicedRec(t: Tree, order: seq<Node>, d: Node, z: Node)
    requires Spliceable(t, order, d) && z in t.rec && z != d
    ensures var t', c, p := Spliced(t, d), OnlyKid(t.rec[d]), t.rec[d].parent;
            && t'.rec.Keys == t.rec.Keys - {d} && t'.span.Keys == t'.rec.Keys
            && t'.span[z] == Narrowed(t.span[z], t.span[d].pos)
            && (z == c ==> t'.rec[z] == t.rec[z].(parent := p))
            && (z == p ==> t'.rec[z] == if t.rec[z].left == d then t.rec[z].(left := c) else t.rec[z].(right := c))
            && (z != c && z != p ==> t'.rec[z] == t.rec[z])
            && t'.root == if p == null then c else t.root
  {
    hide Linked, InOrder;
    SpliceNeighbours(t, |order|, d);
  }

  /** The node that moves up and the node it moves to are different. */
  lemma SpliceNeighbours(t: Tree, n: nat, d: Node)
    requires Linked(t, n) && d in t.rec
    ensures t.span.Keys == t.rec.Keys
    ensures var c, p := OnlyKid(t.rec[d]), t.rec[d].parent;
            (c != null ==> c in t.rec && c != p && c != d) && (p != null ==> p in t.rec && p != d)
  {
    hide Linked;
    KidParent(t, n, d);
    LinkedNode(t, n, d);
    var c, p := OnlyKid(t.rec[d]), t.rec[d].parent;
    if c != null { LinkedNode(t, n, c); }
    if p != null { LinkedNode(t, n, p); }
  }

  lemma SplicedKidOfParent(t: Tree, order: seq<Node>, d: Node, z: Node, side: bool)
    requires Spliceable(t, order, d) && z in t.rec && z != d && Kid(t.rec[z], side) == d
    ensures z in Spliced(t, d).rec && Spliced(t, d).span.Keys == Spliced(t, d).rec.Keys
    ensures KidLinked(Spliced(t, d), z, side)
  {
    hide Linked, InOrder, Spliced, ParentLinked;
    KidParent(t, |order|, z);
    KidParent(t, |order|, d);
    LinkedNode(t, |order|, z);
    LinkedNode(t, |order|, d);
    var c := OnlyKid(t.rec[d]);
    SplicedRec(t, order, d, z);
    if c != null { SplicedRec(t, order, d, c); }
  }

  lemma SplicedKid(t: Tree, order: seq<Node>, d: Node, z: Node, side: bool)
    requires Spliceable(t, order, d) && z in t.rec && z != d && Kid(t.rec[z], side) != d
    ensures z in Spliced(t, d).rec && Spliced(t, d).span.Keys == Spliced(t, d).rec.Keys
    ensures KidLinked(Spliced(t, d), z, side)
  {
    hide Linked, InOrder, Spliced, ParentLinked;
    KidParent(t, |order|, z);
    KidParent(t, |order|, d);
    LinkedNode(t, |order|, z);
    LinkedNode(t, |order|, d);
    OnePlace(t, order, z, d);
    var k := Kid(t.rec[z], side);
    SplicedRec(t, order, d, z);
    if k != null { SplicedRec(t, order, d, k); }
  }

  lemma SplicedNode(t: Tree, order: seq<Node>, d: Node, z: Node)
    requires Spliceable(t, order, d) && z in t.rec && z != d
    ensures z in Spliced(t, d).rec && Spliced(t, d).span.Keys == Spliced(t, d).rec.Keys
    ensures NodeLinked(Spliced(t, d), z)
  {
    hide Linked, InOrder, Spliced, KidLinked;
    if Kid(t.rec[z], true) == d { SplicedKidOfParent(t, order, d, z, true); } else { SplicedKid(t, order, d, z, true); }
    if Kid(t.rec[z], false) == d {
      SplicedKidOfParent(t, order, d, z, false);
    } else {
      SplicedKid(t, order, d, z, false);
    }
    SplicedParent(t, order, d, z);
    LinkedNode(t, |order|, z);
    OnePlace(t, order, z, d);
    SplicedRec(t, order, d, z);
    hide ParentLinked;
  }

  lemma SplicedParent(t: Tree, order: seq<Node>, d: Node, z: Node)
    requires Spliceable(t, order, d) && z in t.rec && z != d
    ensures z in Spliced(t, d).rec && ParentLinked(Spliced(t, d), z)
  {
    hide Linked, InOrder, Spliced;
    KidParent(t, |order|, z);
    KidParent(t, |order|, d);
    SplicedRec(t, order, d, z);
    if t.rec[z].parent != null && t.rec[z].parent != d { SplicedRec(t, order, d, t.rec[z].parent); }
    if t.rec[d].parent != null { SplicedRec(t, order, d, t.rec[d].parent); }
  }

  lemma SplicedRoot(t: Tree, order: seq<Node>, d: Node)
    requires Spliceable(t, order, d)
    ensures var t' := Spliced(t, d);
            if t'.root == null then |order| == 1 && t'.rec == map[]
            else
              && t'.root in t'.rec && t'.rec[t'.root].parent == null && t'.span[t'.root].lo == 0
              && t'.span[t'.root].hi == |order| - 1
  {
    KidParent(t, |order|, d);
    assert NodeLinked(t, d) && NodeLinked(t, t.root);
    var c, t' := OnlyKid(t.rec[d]), Spliced(t, d);
    if t.rec[d].parent != null {
      SplicedRec(t, order, d, t.root);
    } else if c != null {
      SplicedRec(t, order, d, c);
      assert NodeLinked(t, c);
    } else {
      forall z | z in t.rec ensures z == d { assert order[t.span[z].pos] == z; assert order[t.span[d].pos] == d; }
      assert t'.rec.Keys == {};
    }
  }

  /** Splicing: the tree stays linked, and its order loses d. */
  lemma SplicedLinked(t: Tree, order: seq<Node>, d: Node)
    requires Spliceable(t, order, d)
    ensures 0 <= t.span[d].pos < |order|
    ensures var j := t.span[d].pos;
            Linked(Spliced(t, d), |order| - 1) && InOrder(Spliced(t, d), order[..j] + order[j + 1..])
  {
    var t' := Spliced(t, d);
    SplicedRoot(t, order, d);
    assert 0 <= t.span[d].pos < |order|;
    assert t'.rec.Keys == t.rec.Keys - {d} == t'.span.Keys by { KidParent(t, |order|, d); }
    SplicedOrder(t, order, d);
    hide Spliced, Spliceable, NodeLinked;
    forall z | z in t'.rec ensures NodeLinked(t', z) { SplicedNode(t, order, d, z); }
  }

  lemma SplicedOrder(t: Tree, order: seq<Node>, d: Node)
    requires Spliceable(t, order, d)
    ensures 0 <= t.span[d].pos < |order|
    ensures var j := t.span[d].pos;
            InOrder(Spliced(t, d), order[..j] + order[j + 1..])
  {
    var t', j := Spliced(t, d), t.span[d].pos;
    assert 0 <= j < |order| && order[j] == d;
    var order' := order[..j] + order[j + 1..];
    SplicedSpans(t, order, d);
    forall x | x in t'.rec ensures 0 <= t'.span[x].pos < |order'| && order'[t'.span[x].pos] == x {
      OnePlace(t, order, x, d);
      hide InOrder, Spliced, Linked;
    }
    forall k | 0 <= k < |order'| ensures order'[k] in t'.rec && t'.span[order'[k]].pos == k {
      SplicedAt(t, order, d, k);
    }
    hide Spliced, Linked;
  }

  lemma SplicedSpans(t: Tree, order: seq<Node>, d: Node)
    requires Spliceable(t, order, d)
    ensures Spliced(t, d).rec.Keys == t.rec.Keys - {d} == Spliced(t, d).span.Keys
    ensures forall x :: x in t.rec && x != d ==> Spliced(t, d).span[x] == Narrowed(t.span[x], t.span[d].pos)
  {
    KidParent(t, |order|, d);
    hide Linked, InOrder;
  }

  lemma SplicedAt(t: Tree, order: seq<Node>, d: Node, k: nat)
    requires Spliceable(t, order, d) && k < |order| - 1
    ensures 0 <= t.span[d].pos < |order|
    ensures var t', j := Spliced(t, d), t.span[d].pos;
            var z := (order[..j] + order[j + 1..])[k];
            t'.span.Keys == t'.rec.Keys && z in t'.rec && t'.span[z].pos == k
  {
    SplicedSpans(t, order, d);
    var j := t.span[d].pos;
    assert 0 <= j < |order| && order[j] == d;
    var k' := if k < j then k else k + 1;
    assert order[k'] in t.rec && t.span[order[k']].pos == k';
    hide Linked, InOrder, Spliced;
  }

  /** A node with at most one child: it or that child is red or both are as black as leaves allow. */
  lemma ThinNode(t: Tree, n: nat, bh: map<Node, nat>, d: Node)
    requires Linked(t, n) && RedBlack(t, bh) && d in t.rec && (t.rec[d].left == null || t.rec[d].right == null)
    ensures d in bh && Height(bh, OnlyKid(t.rec[d])) == 0 && bh[d] == (if t.rec[d].red then 0 else 1)
    ensures t.rec[d].red ==> OnlyKid(t.rec[d]) == null
    ensures OnlyKid(t.rec[d]) != null ==> IsRed(t, OnlyKid(t.rec[d]))
  {
    KidParent(t, n, d);
    assert BlackOk(t, bh, d, null, true);
    var c := OnlyKid(t.rec[d]);
    if c != null {
      assert BlackOk(t, bh, c, null, true) && RedOk(t, c);
    }
  }

  /** Splicing leaves a shortage where d hung if d was black, and at most a red child below a red parent. */
  lemma SplicedColoured(t: Tree, order: seq<Node>, bh: map<Node, nat>, d: Node, ds: bool)
    requires Spliceable(t, order, d) && RedBlack(t, bh)
    requires t.rec[d].parent != null && t.rec[d].parent in t.rec ==> ds == (t.rec[t.rec[d].parent].left == d)
    ensures var dp := if t.rec[d].red then null else t.rec[d].parent;
            Coloured(Spliced(t, d), bh - {d}, dp, if dp == null then true else ds, OnlyKid(t.rec[d]))
  {
    var t', bh', c := Spliced(t, d), bh - {d}, OnlyKid(t.rec[d]);
    var dp := if t.rec[d].red then null else t.rec[d].parent;
    var ds' := if dp == null then true else ds;
    ThinNode(t, |order|, bh, d);
    KidParent(t, |order|, d);
    assert t'.rec.Keys == t.rec.Keys - {d};
    if t'.root != null && t'.root != c { SplicedRec(t, order, d, t'.root); }
    hide Spliced, Linked;
    forall z | z in t'.rec
      ensures BlackOk(t', bh', z, dp, ds') && (z != c ==> RedOk(t', z))
    {
      assert BlackOk(t, bh, z, null, true) && RedOk(t, z);
      SplicedBlackNode(t, order, bh, d, ds', z);
      if z != c { SplicedRedNode(t, order, d, z); }
    }
  }

  lemma SplicedBelow(t: Tree, order: seq<Node>, bh: map<Node, nat>, d: Node, ds: bool, z: Node, side: bool)
    requires Spliceable(t, order, d) && z in t.rec && z != d && bh.Keys == t.rec.Keys
    requires Height(bh, OnlyKid(t.rec[d])) == 0 && bh[d] == (if t.rec[d].red then 0 else 1)
    requires !t.rec[d].red && z == t.rec[d].parent ==> ds == (t.rec[z].left == d)
    ensures z in Spliced(t, d).rec && Spliced(t, d).rec[z].red == t.rec[z].red
    ensures Below(Spliced(t, d), bh - {d}, z, side, if t.rec[d].red then null else t.rec[d].parent, ds)
            == Below(t, bh, z, side, null, true)
  {
    hide Linked, InOrder, Spliced;
    SplicedKidIs(t, order, d, z, side);
    KidParent(t, |order|, z);
    KidParent(t, |order|, d);
    SplicedHeight(t, bh, d, Kid(t.rec[z], side));
    hide Height, Kid;
  }

  lemma SplicedKidIs(t: Tree, order: seq<Node>, d: Node, z: Node, side: bool)
    requires Spliceable(t, order, d) && z in t.rec && z != d
    ensures z in Spliced(t, d).rec && Spliced(t, d).rec[z].red == t.rec[z].red
    ensures Kid(Spliced(t, d).rec[z], side) == if Kid(t.rec[z], side) == d then OnlyKid(t.rec[d])
            else Kid(t.rec[z], side)
    ensures Kid(t.rec[z], side) == d <==> t.rec[d].parent == z && side == (t.rec[z].left == d)
  {
    hide Linked, InOrder, Spliced;
    KidParent(t, |order|, z);
    KidParent(t, |order|, d);
    SplicedRec(t, order, d, z);
  }

  lemma SplicedHeight(t: Tree, bh: map<Node, nat>, d: Node, k: Node?)
    requires d in t.rec && bh.Keys == t.rec.Keys
    requires Height(bh, OnlyKid(t.rec[d])) == 0 && OnlyKid(t.rec[d]) != d
    ensures Height(bh - {d}, if k == d then OnlyKid(t.rec[d]) else k) == if k == d then 0 else Height(bh, k)
    ensures k == d ==> Height(bh, k) == bh[d]
  {}

  lemma SplicedBlackNode(t: Tree, order: seq<Node>, bh: map<Node, nat>, d: Node, ds: bool, z: Node)
    requires Spliceable(t, order, d) && z in t.rec && z != d && bh.Keys == t.rec.Keys && BlackOk(t, bh, z, null, true)
    requires Height(bh, OnlyKid(t.rec[d])) == 0 && bh[d] == (if t.rec[d].red then 0 else 1)
    requires !t.rec[d].red && z == t.rec[d].parent ==> ds == (t.rec[z].left == d)
    ensures z in Spliced(t, d).rec && z in bh - {d}
    ensures BlackOk(Spliced(t, d), bh - {d}, z, if t.rec[d].red then null else t.rec[d].parent, ds)
  {
    SplicedBelow(t, order, bh, d, ds, z, true);
    SplicedBelow(t, order, bh, d, ds, z, false);
    hide Linked, InOrder, Spliced, Below;
  }

  lemma SplicedRedNode(t: Tree, order: seq<Node>, d: Node, z: Node)
    requires Spliceable(t, order, d) && z in t.rec && z != d && z != OnlyKid(t.rec[d]) && RedOk(t, z)
    ensures z in Spliced(t, d).rec && RedOk(Spliced(t, d), z)
  {
    KidParent(t, |order|, z);
    KidParent(t, |order|, d);
    SplicedRec(t, order, d, z);
    if t.rec[z].parent != null && t.rec[z].parent != d { SplicedRec(t, order, d, t.rec[z].parent); }
    hide Linked, InOrder, Spliced;
  }

  /** The state of BalanceErase: the subtree of c, on side s of p, is one black node short. */
  ghost predicate Short(t: Tree, n: nat, bh: map<Node, nat>, c: Node?, p: Node?, s: bool) {
    && Linked(t, n) && Coloured(t, bh, p, s, c)
    && if p == null then c == t.root else p in t.rec && Kid(t.rec[p], s) == c
  }

  /** c is on side s of p, and the two sides of p differ: the brother of a short subtree is never missing. */
  lemma Brother(t: Tree, n: nat, bh: map<Node, nat>, c: Node?, p: Node?, s: bool)
    requires Short(t, n, bh, c, p, s) && c != t.root && !IsRed(t, c)
    ensures p != null && p in t.rec && p in bh && Kid(t.rec[p], s) == c && (c == t.rec[p].left <==> s)
    ensures var b := Kid(t.rec[p], !s);
            && b != null && b in t.rec && b in bh && bh[b] == Height(bh, c) + 1 && t.rec[b].parent == p && b != p
    ensures bh[p] == Height(bh, c) + (if t.rec[p].red then 1 else 2)
    ensures Coloured(t, bh, p, s, null) && t.span.Keys == t.rec.Keys
    ensures c != null ==> c in t.rec && t.rec[c].parent == p
  {
    assert BlackOk(t, bh, p, p, s);
    KidParent(t, n, p);
    if c != null { assert RedOk(t, c); }
  }

  /** Case 1, red brother: lifting it over the parent leaves the shortage where it was, now below a red parent. */
  lemma EraseRedBrother(t: Tree, n: nat, bh: map<Node, nat>, c: Node?, p: Node, s: bool, b: Node)
    requires Short(t, n, bh, c, p, s) && c != t.root && !IsRed(t, c) && Kid(t.rec[p], !s) == b && b in t.rec
             && t.rec[b].red
    ensures b != p && t.span.Keys == t.rec.Keys && p in bh && bh[p] >= 1
    ensures var t' := Lifted(t, p, b, !s, true, false);
            && Short(t', n, LiftedHeights(bh, p, b, bh[p] - 1), c, p, s) && p in t'.rec && t'.rec[p].red
            && c != t'.root && !IsRed(t', c) && Kid(t'.rec[p], !s) == Kid(t.rec[b], s)
            && !IsRed(t', Kid(t'.rec[p], !s))
  {
    hide Lifted, Linked;
    Brother(t, n, bh, c, p, s);
    KidParent(t, n, b);
    KidParent(t, n, p);
    Around(t, n, bh, p, s, null, b, s);
    LiftedRec(t, n, p, b, !s, true, false, p);
    if c != null { LiftedRec(t, n, p, b, !s, true, false, c); }
    if Kid(t.rec[b], s) != null { LiftedRec(t, n, p, b, !s, true, false, Kid(t.rec[b], s)); }
    LiftedLinked(t, n, p, b, !s, true, false);
    assert LiftHeights(t, bh, p, b, !s, true, false, bh[p] - 1, p, s);
    hide BlackOk, LiftHeights;
    LiftColoured(t, n, p, b, !s, true, false, bh, bh[p] - 1, p, s, null);
  }

  /** Case 3, red inner nephew: lifting it over the brother makes it the outer one's parent. */
  lemma EraseInner(t: Tree, n: nat, bh: map<Node, nat>, c: Node?, p: Node, s: bool, b: Node, i: Node)
    requires Short(t, n, bh, c, p, s) && c != t.root && !IsRed(t, c) && Kid(t.rec[p], !s) == b && b in t.rec
             && !t.rec[b].red
    requires Kid(t.rec[b], s) == i && i in t.rec && t.rec[i].red && !IsRed(t, Kid(t.rec[b], !s))
    ensures i != b && t.span.Keys == t.rec.Keys && b in bh && bh[b] >= 1
    ensures var t' := Lifted(t, b, i, s, true, false);
            && Short(t', n, LiftedHeights(bh, b, i, bh[b] - 1), c, p, s) && c != t'.root && !IsRed(t', c)
            && p in t'.rec && Kid(t'.rec[p], !s) == i && i in t'.rec && !t'.rec[i].red && Kid(t'.rec[i], !s) == b
                && IsRed(t', b)
  {
    hide Lifted, Linked;
    Brother(t, n, bh, c, p, s);
    KidParent(t, n, b);
    KidParent(t, n, p);
    KidParent(t, n, i);
    Around(t, n, bh, p, s, null, b, s);
    Around(t, n, bh, p, s, null, i, s);
    Around(t, n, bh, p, s, null, i, !s);
    LiftedRec(t, n, b, i, s, true, false, p);
    LiftedRec(t, n, b, i, s, true, false, b);
    LiftedRec(t, n, b, i, s, true, false, i);
    if c != null { LiftedRec(t, n, b, i, s, true, false, c); }
    LiftedLinked(t, n, b, i, s, true, false);
    assert LiftHeights(t, bh, b, i, s, true, false, bh[b] - 1, p, s);
    hide BlackOk, LiftHeights;
    LiftColoured(t, n, b, i, s, true, false, bh, bh[b] - 1, p, s, null);
  }

  /**
   Case 4, red outer nephew o: it turns black, the brother takes the parent's colour
   and place, and nothing is short.
   */
  lemma EraseOuter(t: Tree, n: nat, bh: map<Node, nat>, c: Node?, p: Node, s: bool, b: Node, o: Node)
    requires Short(t, n, bh, c, p, s) && c != t.root && !IsRed(t, c) && Kid(t.rec[p], !s) == b && b in t.rec
             && !t.rec[b].red
    requires Kid(t.rec[b], !s) == o && o in t.rec && t.rec[o].red
    ensures b != p && t.span.Keys == t.rec.Keys && p in bh && b in bh && o in bh
    ensures var t1 := Recoloured(t, o, false);
            && Kid(t1.rec[p], !s) == b
            && var t' := Lifted(t1, p, b, !s, false, t.rec[p].red);
               Linked(t', n) && RedBlack(t', LiftedHeights(bh[o := bh[o] + 1], p, b, bh[b]))
  {
    hide Linked;
    Brother(t, n, bh, c, p, s);
    KidParent(t, n, b);
    KidParent(t, n, p);
    EraseOuterPremise(t, n, bh, c, p, s, b, o);
    var t1, bh1 := Recoloured(t, o, false), bh[o := bh[o] + 1];
    assert t1.rec[p] == t.rec[p] && t1.rec[b] == t.rec[b] && t1.rec.Keys == t.rec.Keys && t1.root == t.root;
    SameLinksLinked(t, t1, n);
    EraseOuterRest(t, n, bh, p, s, b, o);
    hide Recoloured, BlackOk, RedOk, LiftHeights, LiftColours;
    LiftColoured(t1, n, p, b, !s, false, t.rec[p].red, bh1, bh[b], null, true, null);
  }

  lemma EraseOuterPremise(t: Tree, n: nat, bh: map<Node, nat>, c: Node?, p: Node, s: bool, b: Node, o: Node)
    requires Short(t, n, bh, c, p, s) && c != t.root && !IsRed(t, c) && Kid(t.rec[p], !s) == b && b in t.rec
             && !t.rec[b].red
    requires Kid(t.rec[b], !s) == o && o in t.rec && t.rec[o].red
    ensures b in bh && o in bh && bh.Keys == t.rec.Keys
    ensures var t1 := Recoloured(t, o, false);
            && LiftHeights(t1, bh[o := bh[o] + 1], p, b, !s, false, t.rec[p].red, bh[b], null, true)
            && LiftColours(t1, p, b, !s, false, t.rec[p].red, null)
  {
    hide Linked;
    Brother(t, n, bh, c, p, s);
    KidParent(t, n, b);
    KidParent(t, n, p);
    KidParent(t, n, o);
    Around(t, n, bh, p, s, null, b, s);
    Around(t, n, bh, p, s, null, o, s);
    Around(t, n, bh, p, s, null, p, s);
    hide Coloured, RedOk;
  }

  lemma EraseOuterRest(t: Tree, n: nat, bh: map<Node, nat>, p: Node, s: bool, b: Node, o: Node)
    requires Linked(t, n) && Coloured(t, bh, p, s, null) && p in t.rec && b in t.rec && o in t.rec && t.rec[o].red
             && t.rec[o].parent == b
    ensures var t1, bh1 := Recoloured(t, o, false), bh[o := bh[o] + 1];
            && (forall z {:trigger BlackOk(t1, bh1, z, null, true)} :: z in t1.rec && z != p && z != b ==>
                BlackOk(t1, bh1, z, null, true))
            && (forall z {:trigger RedOk(t1, z)} :: z in t1.rec ==> RedOk(t1, z))
  {
    var t1, bh1 := Recoloured(t, o, false), bh[o := bh[o] + 1];
    KidParent(t, n, o);
    forall z | z in t1.rec
      ensures RedOk(t1, z) && (z != p && z != b ==> BlackOk(t1, bh1, z, null, true))
    {
      KidParent(t, n, z);
      assert BlackOk(t, bh, z, p, s) && RedOk(t, z);
    }
  }

  /** Case 2, both nephews black: the brother turns red; the shortage moves up, or ends at a red parent, now black. */
  ghost function Darkened(t: Tree, p: Node, b: Node): Tree
    requires p in t.rec && b in t.rec
  {
    Recoloured(Recoloured(t, p, false), b, true)
  }

  ghost function DarkenedHeights(t: Tree, bh: map<Node, nat>, p: Node, b: Node): map<Node, nat>
    requires p in t.rec && p in bh && b in bh && bh[p] >= 1 && bh[b] >= 1
  {
    if t.rec[p].red then bh[b := bh[b] - 1] else bh[b := bh[b] - 1][p := bh[p] - 1]
  }

  /** The node below which something is still short: none if p was red, else p's parent. */
  ghost function ShortAbove(t: Tree, p: Node): Node?
    requires p in t.rec
  {
    if t.rec[p].red then null else t.rec[p].parent
  }

  ghost function SideOf(t: Tree, q: Node?, p: Node): bool { q == null || q !in t.rec || t.rec[q].left == p }

  lemma EraseBlackNephews(t: Tree, n: nat, bh: map<Node, nat>, c: Node?, p: Node, s: bool, b: Node)
    requires Short(t, n, bh, c, p, s) && c != t.root && !IsRed(t, c) && Kid(t.rec[p], !s) == b && b in t.rec
             && !t.rec[b].red
    requires !IsRed(t, Kid(t.rec[b], true)) && !IsRed(t, Kid(t.rec[b], false))
    ensures p in bh && b in bh && bh[b] >= 1 && bh[p] >= 1 && b != p
    ensures t.rec[p].red ==> Linked(Darkened(t, p, b), n) && RedBlack(Darkened(t, p, b), DarkenedHeights(t, bh, p, b))
    ensures !t.rec[p].red ==>
              var q := t.rec[p].parent;
              Short(Darkened(t, p, b), n, DarkenedHeights(t, bh, p, b), p, q, SideOf(t, q, p))
  {
    hide Linked, Coloured, BlackOk, RedOk, DarkenedHeights;
    Brother(t, n, bh, c, p, s);
    KidParent(t, n, p);
    SameLinksLinked(t, Darkened(t, p, b), n);
    DarkenedColoured(t, n, bh, c, p, s, b);
    var q := t.rec[p].parent;
    if q != null { KidParent(t, n, q); }
    if !t.rec[p].red { ColouredAll(Darkened(t, p, b), DarkenedHeights(t, bh, p, b), q, SideOf(t, q, p), p); }
  }

  lemma ColouredAll(t: Tree, bh: map<Node, nat>, dp: Node?, ds: bool, bad: Node?)
    requires Coloured(t, bh, dp, ds, null)
    ensures Coloured(t, bh, dp, ds, bad)
  {}

  lemma DarkenedColoured(t: Tree, n: nat, bh: map<Node, nat>, c: Node?, p: Node, s: bool, b: Node)
    requires Short(t, n, bh, c, p, s) && c != t.root && !IsRed(t, c) && Kid(t.rec[p], !s) == b && b in t.rec
             && !t.rec[b].red
    requires !IsRed(t, Kid(t.rec[b], true)) && !IsRed(t, Kid(t.rec[b], false))
    ensures p in bh && b in bh && bh[b] >= 1 && bh[p] >= 1
    ensures Coloured(Darkened(t, p, b), DarkenedHeights(t, bh, p, b), ShortAbove(t, p), SideOf(t, ShortAbove(t, p), p),
            null)
  {
    hide Linked;
    Brother(t, n, bh, c, p, s);
    KidParent(t, n, b);
    var t', dp, bh' := Darkened(t, p, b), ShortAbove(t, p), DarkenedHeights(t, bh, p, b);
    assert bh'.Keys == t'.rec.Keys && !IsRed(t', t'.root);
    hide Darkened, BlackOk, RedOk, DarkenedHeights, ShortAbove, SideOf;
    forall z | z in t'.rec ensures BlackOk(t', bh', z, dp, SideOf(t, dp, p)) && RedOk(t', z) {
      assert BlackOk(t, bh, z, p, s) && RedOk(t, z);
      DarkenedBlack(t, n, bh, c, p, s, b, z);
      DarkenedRed(t, n, p, b, z);
    }
  }

  lemma DarkenedBlack(t: Tree, n: nat, bh: map<Node, nat>, c: Node?, p: Node, s: bool, b: Node, z: Node)
    requires Linked(t, n) && p in t.rec && Kid(t.rec[p], s) == c && Kid(t.rec[p], !s) == b && b in t.rec && b != p
             && !t.rec[b].red
    requires bh.Keys == t.rec.Keys && bh[b] == Height(bh, c) + 1
             && bh[p] == Height(bh, c) + (if t.rec[p].red then 1 else 2)
    requires z in t.rec && BlackOk(t, bh, z, p, s)
    ensures z in Darkened(t, p, b).rec && z in DarkenedHeights(t, bh, p, b)
    ensures BlackOk(Darkened(t, p, b), DarkenedHeights(t, bh, p, b), z, ShortAbove(t, p),
            SideOf(t, ShortAbove(t, p), p))
  {
    DarkenedBelow(t, n, bh, p, s, b, z, true);
    DarkenedBelow(t, n, bh, p, s, b, z, false);
    assert Darkened(t, p, b).rec[z].red == if z == b then true else if z == p then false else t.rec[z].red;
    hide Linked, Darkened, Below;
  }

  lemma DarkenedHeight(t: Tree, bh: map<Node, nat>, p: Node, b: Node, k: Node?)
    requires p in t.rec && b in t.rec && b != p && bh.Keys == t.rec.Keys && bh[b] >= 1 && bh[p] >= 1
    ensures Height(DarkenedHeights(t, bh, p, b), k)
            == Height(bh, k) - (if k == b || (k == p && !t.rec[p].red) then 1 else 0)
  {}

  lemma DarkenedBelow(t: Tree, n: nat, bh: map<Node, nat>, p: Node, s: bool, b: Node, z: Node, side: bool)
    requires Linked(t, n) && p in t.rec && Kid(t.rec[p], !s) == b && b in t.rec && b != p
    requires bh.Keys == t.rec.Keys && bh[b] >= 1 && bh[p] >= 1 && z in t.rec
    ensures z in Darkened(t, p, b).rec
    ensures Below(Darkened(t, p, b), DarkenedHeights(t, bh, p, b), z, side, ShortAbove(t, p),
            SideOf(t, ShortAbove(t, p), p))
            == Below(t, bh, z, side, p, s) - (if z == p then 1 else 0)
  {
    hide Linked, Darkened, DarkenedHeights;
    DarkenedKidIs(t, n, p, s, b, z, side);
    DarkenedHeight(t, bh, p, b, Kid(t.rec[z], side));
    hide Height, Kid;
  }

  lemma DarkenedKidIs(t: Tree, n: nat, p: Node, s: bool, b: Node, z: Node, side: bool)
    requires Linked(t, n) && p in t.rec && Kid(t.rec[p], !s) == b && b in t.rec && b != p && z in t.rec
    ensures z in Darkened(t, p, b).rec && Kid(Darkened(t, p, b).rec[z], side) == Kid(t.rec[z], side)
    ensures Kid(t.rec[z], side) == b <==> z == p && side == !s
    ensures Kid(t.rec[z], side) == p <==> z == t.rec[p].parent && side == SideOf(t, z, p)
  {
    hide Linked;
    KidParent(t, n, p);
    KidParent(t, n, z);
  }

  lemma DarkenedRed(t: Tree, n: nat, p: Node, b: Node, z: Node)
    requires Linked(t, n) && p in t.rec && b in t.rec && b != p && t.rec[b].parent == p && z in t.rec && RedOk(t, z)
    requires !IsRed(t, Kid(t.rec[b], true)) && !IsRed(t, Kid(t.rec[b], false))
    ensures z in Darkened(t, p, b).rec && RedOk(Darkened(t, p, b), z)
  {
    KidParent(t, n, z);
    hide Linked;
  }

  /** A red child, or the root: painting it black ends the search. */
  lemma EraseBlacken(t: Tree, n: nat, bh: map<Node, nat>, c: Node?, p: Node?, s: bool)
    requires Short(t, n, bh, c, p, s) && (c == t.root || IsRed(t, c))
    ensures c == null ==> RedBlack(t, bh)
    ensures c != null ==>
              && c in t.rec && c in bh
              && Linked(Recoloured(t, c, false), n)
              && RedBlack(Recoloured(t, c, false), BlackenedHeights(t, bh, c))
  {
    hide Linked;
    if p != null { KidParent(t, n, p); } else if c != null { RootIn(t, n); }
    if c == null {
      EraseNoShortage(t, bh, s);
    } else {
      var c': Node := c;
      KidParent(t, n, c');
      var t', bh' := Recoloured(t, c', false), BlackenedHeights(t, bh, c');
      SameLinksLinked(t, t', n);
      assert bh'.Keys == t'.rec.Keys && !IsRed(t', t'.root);
      hide Recoloured, BlackenedHeights, BlackOk, RedOk;
      forall z | z in t'.rec ensures BlackOk(t', bh', z, null, true) && RedOk(t', z) {
        assert BlackOk(t, bh, z, p, s) && (z != c ==> RedOk(t, z));
        BlackenNode(t, n, bh, c', p, s, z);
      }
    }
  }

  lemma EraseNoShortage(t: Tree, bh: map<Node, nat>, s: bool)
    requires Coloured(t, bh, null, s, null)
    ensures RedBlack(t, bh)
  {
    forall x | x in t.rec ensures BlackOk(t, bh, x, null, true) { assert BlackOk(t, bh, x, null, s); }
  }

  lemma BlackenNode(t: Tree, n: nat, bh: map<Node, nat>, c: Node, p: Node?, s: bool, z: Node)
    requires Linked(t, n) && c in t.rec && t.rec[c].parent == p
             && (p != null ==> p in t.rec && Kid(t.rec[p], s) == c && t.rec[c].red)
    requires z in t.rec && bh.Keys == t.rec.Keys && BlackOk(t, bh, z, p, s) && (z != c ==> RedOk(t, z))
    ensures z in Recoloured(t, c, false).rec && z in BlackenedHeights(t, bh, c)
    ensures BlackOk(Recoloured(t, c, false), BlackenedHeights(t, bh, c), z, null, true)
            && RedOk(Recoloured(t, c, false), z)
  {
    hide Linked;
    KidParent(t, n, z);
    BlackenedBelow(t, n, bh, c, p, s, z, true);
    BlackenedBelow(t, n, bh, c, p, s, z, false);
    hide Below;
  }

  /** Once the short child is black its subtree counts in full. */
  lemma BlackenedBelow(t: Tree, n: nat, bh: map<Node, nat>, c: Node, p: Node?, s: bool, z: Node, side: bool)
    requires Linked(t, n) && c in t.rec && t.rec[c].parent == p
             && (p != null ==> p in t.rec && Kid(t.rec[p], s) == c && t.rec[c].red)
    requires z in t.rec && bh.Keys == t.rec.Keys
    ensures z in Recoloured(t, c, false).rec
    ensures Below(Recoloured(t, c, false), BlackenedHeights(t, bh, c), z, side, null, true)
            == Below(t, bh, z, side, p, s)
  {
    hide Linked;
    KidParent(t, n, z);
    KidParent(t, n, c);
    BlackenedHeight(t, bh, c, Kid(t.rec[z], side));
    assert Kid(Recoloured(t, c, false).rec[z], side) == Kid(t.rec[z], side);
    hide Recoloured, BlackenedHeights, Height;
  }

  lemma BlackenedHeight(t: Tree, bh: map<Node, nat>, c: Node, k: Node?)
    requires c in t.rec && bh.Keys == t.rec.Keys
    ensures Height(BlackenedHeights(t, bh, c), k) == Height(bh, k) + (if k == c && t.rec[c].red then 1 else 0)
  {}

  /** What cases 2 to 4 start from: c short, not red, not the root, and its brother b black. */
  ghost predicate BlackBrother(t: Tree, n: nat, bh: map<Node, nat>, c: Node?, p: Node, s: bool, b: Node) {
    && Short(t, n, bh, c, p, s) && c != t.root && !IsRed(t, c) && p in t.rec && b in t.rec
    && Kid(t.rec[p], !s) == b && !t.rec[b].red
  }

  lemma OuterLiftable(t: Tree, n: nat, p: Node, b: Node, s: bool, o: Node)
    requires Linked(t, n) && p in t.rec && b in t.rec && o in t.rec && Kid(t.rec[p], s) == b && Kid(t.rec[b], s) == o
    ensures Liftable(Recoloured(t, o, false), n, p, b, s) && p != o
  {
    KidParent(t, n, b);
    KidParent(t, n, p);
    KidParent(t, n, o);
    SameLinksLinked(t, Recoloured(t, o, false), n);
    LinkedNode(t, n, p);
    LinkedNode(t, n, b);
    LinkedNode(t, n, o);
    hide Linked;
  }

  /** The short child is neither its parent, nor its brother, nor a nephew. */
  lemma ChildApart(t: Tree, n: nat, c: Node?, p: Node, s: bool, b: Node)
    requires Linked(t, n) && p in t.rec && b in t.rec && Kid(t.rec[p], s) == c && Kid(t.rec[p], !s) == b && c != null
    ensures c in t.rec && c != p && c != b && c != t.rec[b].left && c != t.rec[b].right
  {
    KidParent(t, n, p);
    KidParent(t, n, b);
    hide Linked;
  }

  /** Splicing out a black node leaves its place one short; a red node is missed by no one. */
  lemma SplicedShort(t: Tree, order: seq<Node>, bh: map<Node, nat>, d: Node)
    requires Spliceable(t, order, d) && RedBlack(t, bh)
    ensures |order| > 0
    ensures t.rec[d].red ==> RedBlack(Spliced(t, d), bh - {d})
    ensures !t.rec[d].red ==>
              Short(Spliced(t, d), |order| - 1, bh - {d}, OnlyKid(t.rec[d]), t.rec[d].parent,
                  SideOf(t, t.rec[d].parent, d))
    ensures Linked(Spliced(t, d), |order| - 1)
    ensures OnlyKid(t.rec[d]) != null ==> OnlyKid(t.rec[d]) in t.rec && OnlyKid(t.rec[d]) != d
    ensures t.rec[d].parent != null ==> t.rec[d].parent in t.rec && t.rec[d].parent != d
  {
    hide Linked, Coloured, InOrder, Spliced;
    KidParent(t, |order|, d);
    var p := t.rec[d].parent;
    SplicedLinked(t, order, d);
    SplicedColoured(t, order, bh, d, SideOf(t, p, d));
    ThinNode(t, |order|, bh, d);
    SplicedRootIs(t, order, d);
    if p != null {
      SplicedRec(t, order, d, p);
    } else if !t.rec[d].red {
    }
  }

  lemma SplicedRootIs(t: Tree, order: seq<Node>, d: Node)
    requires Spliceable(t, order, d)
    ensures Spliced(t, d).root == if t.rec[d].parent == null then OnlyKid(t.rec[d]) else t.root
  {}

  lemma DarkenedBlackParent(t: Tree, p: Node, b: Node)
    requires p in t.rec && b in t.rec && !t.rec[p].red
    ensures Darkened(t, p, b) == Recoloured(t, b, true)
  {
    assert t.rec[p := t.rec[p].(red := false)] == t.rec;
  }
}
