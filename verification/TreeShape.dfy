/** The nodes of as_map.h's red-black tree and the shape their links give it. */
module TreeShape {

  /** The template parameters KEY and VAL. */
  type Key(==, !new)
  type Value

  class Node {
    var parent: Node?
    var left: Node?
    var right: Node?
    var isRed: bool
    const key: Key
    var value: Value

    /** A new node: no links, red. */
    constructor (key: Key, value: Value)
      ensures parent == null && left == null && right == null && isRed
      ensures this.key == key && this.value == value
    {
      this.key, this.value := key, value;
      parent, left, right, isRed := null, null, null, true;
    }
  }

  /** A node's links and colour, as a value. */
  datatype Rec = Rec(parent: Node?, left: Node?, right: Node?, red: bool)

  /** The in-order positions lo .. hi - 1 of a subtree, its root standing at pos. */
  datatype Span = Span(lo: int, pos: int, hi: int)

  /** A tree: the links of its nodes, its root, and the span of every subtree. */
  datatype Tree = Tree(rec: map<Node, Rec>, root: Node?, span: map<Node, Span>)

  /** The child on the left (l) or right (!l). */
  ghost function Kid(r: Rec, l: bool): Node? { if l then r.left else r.right }

  ghost function WithKid(r: Rec, l: bool, c: Node?): Rec {
    if l then r.(left := c) else r.(right := c)
  }

  /** The child of x on side l, if any, points back at x and spans x's share on that side. */
  ghost predicate KidLinked(t: Tree, x: Node, l: bool)
    requires x in t.rec && t.span.Keys == t.rec.Keys
  {
    var c, s := Kid(t.rec[x], l), t.span[x];
    if c == null then (if l then s.lo == s.pos else s.hi == s.pos + 1)
    else
      && c in t.rec && t.rec[c].parent == x
      && if l then t.span[c].lo == s.lo && t.span[c].hi == s.pos else t.span[c].lo == s.pos + 1 && t.span[c].hi == s.hi
  }

  /** x is the root or a child of its parent. */
  ghost predicate ParentLinked(t: Tree, x: Node)
    requires x in t.rec
  {
    var p := t.rec[x].parent;
    if p == null then x == t.root else p in t.rec && (t.rec[p].left == x || t.rec[p].right == x)
  }

  /** Links and spans agree at node x. */
  ghost predicate NodeLinked(t: Tree, x: Node)
    requires x in t.rec && t.span.Keys == t.rec.Keys
  {
    t.span[x].lo <= t.span[x].pos < t.span[x].hi && KidLinked(t, x, true) && KidLinked(t, x, false)
        && ParentLinked(t, x)
  }

  /** The links form one binary tree whose in-order traversal numbers its nodes 0 .. n - 1. */
  ghost predicate Linked(t: Tree, n: nat) {
    && t.span.Keys == t.rec.Keys
    && (if t.root == null then n == 0 && t.rec == map[]
        else t.root in t.rec && t.rec[t.root].parent == null && t.span[t.root].lo == 0 && t.span[t.root].hi == n)
    && forall x {:trigger NodeLinked(t, x)} :: x in t.rec ==> NodeLinked(t, x)
  }

  /** The span of a subtree after its root x has been rotated below y, towards side l. */
  ghost function RotatedSpans(span: map<Node, Span>, x: Node, y: Node, l: bool): map<Node, Span>
    requires x in span && y in span
  {
    var sx, sy := span[x], span[y];
    span[y := sy.(lo := sx.lo, hi := sx.hi)][x := if l then sx.(hi := sy.pos) else sx.(lo := sy.pos + 1)]
  }

  ghost function PutParent(t: Tree, x: Node, p: Node?): Tree
    requires x in t.rec
  {
    t.(rec := t.rec[x := t.rec[x].(parent := p)])
  }

  ghost function PutKid(t: Tree, x: Node, l: bool, c: Node?): Tree
    requires x in t.rec
  {
    t.(rec := t.rec[x := WithKid(t.rec[x], l, c)])
  }

  /** The parent of x, or else the root pointer, leads to c instead. */
  ghost function Relinked(t: Tree, x: Node, c: Node?): Tree
    requires x in t.rec
  {
    var p := t.rec[x].parent;
    if p == null || p !in t.rec then t.(root := c) else PutKid(t, p, t.rec[p].left == x, c)
  }

  /** c, if any, has p for its parent. */
  ghost function Adopted(t: Tree, c: Node?, p: Node?): Tree {
    if c == null || c !in t.rec then t else PutParent(t, c, p)
  }

  /** RotateLeft (l) or RotateRight (!l) of node x, assignment by assignment. */
  ghost function Rotated(t: Tree, x: Node, l: bool): Tree
    requires x in t.rec && t.span.Keys == t.rec.Keys && Kid(t.rec[x], !l) != null && Kid(t.rec[x], !l) in t.rec
  {
    var y: Node := Kid(t.rec[x], !l);
    var b := Kid(t.rec[y], l);
    var t1 := PutParent(Relinked(t, x, y), y, t.rec[x].parent);
    var t2 := Adopted(PutKid(t1, x, !l, b), b, x);
    PutParent(PutKid(t2, y, l, x), x, y).(span := RotatedSpans(t.span, x, y, l))
  }

  /** The four nodes a rotation touches are different. */
  lemma RotationNodes(t: Tree, n: nat, x: Node, l: bool)
    requires Linked(t, n) && x in t.rec && Kid(t.rec[x], !l) != null
    ensures var y, p := Kid(t.rec[x], !l), t.rec[x].parent;
            && y in t.rec && y != x && y != p && x != p && t.rec[y].parent == x
            && (p != null ==> p in t.rec)
            && var b := Kid(t.rec[y], l);
               b != null ==> b in t.rec && b != x && b != y && b != p && t.rec[b].parent == y
  {
    assert NodeLinked(t, x);
    var y: Node := Kid(t.rec[x], !l);
    assert NodeLinked(t, y);
    var b, p := Kid(t.rec[y], l), t.rec[x].parent;
    if b != null { assert NodeLinked(t, b); }
    if p != null { assert NodeLinked(t, p); }
  }

  /** What a rotation does to the record of node z. */
  lemma RotatedRec(t: Tree, n: nat, x: Node, l: bool, z: Node)
    requires Linked(t, n) && x in t.rec && Kid(t.rec[x], !l) != null && z in t.rec
    ensures Kid(t.rec[x], !l) in t.rec
    ensures var t', y, p := Rotated(t, x, l), Kid(t.rec[x], !l), t.rec[x].parent;
            && t'.rec.Keys == t.rec.Keys && t'.span.Keys == t.rec.Keys
            && t'.span[z].pos == t.span[z].pos
            && (z == x ==> t'.rec[z] == WithKid(t.rec[x], !l, Kid(t.rec[y], l)).(parent := y))
            && (z == y ==> t'.rec[z] == WithKid(t.rec[y], l, x).(parent := p))
            && (z == Kid(t.rec[y], l) ==> t'.rec[z] == t.rec[z].(parent := x))
            && (z == p ==> t'.rec[z] == if t.rec[p].left == x then t.rec[p].(left := y) else t.rec[p].(right := y))
            && (z != x && z != y && z != Kid(t.rec[y], l) && z != p ==> t'.rec[z] == t.rec[z])
            && (z != x && z != y ==> t'.span[z] == t.span[z])
            && t'.span[y].lo == t.span[x].lo && t'.span[y].hi == t.span[x].hi
            && (if l then t'.span[x].lo == t.span[x].lo && t'.span[x].hi == t.span[y].pos
                else t'.span[x].hi == t.span[x].hi && t'.span[x].lo == t.span[y].pos + 1)
  {
    RotationNodes(t, n, x, l);
    hide Linked;
    var y: Node := Kid(t.rec[x], !l);
    var b, p, t0 := Kid(t.rec[y], l), t.rec[x].parent, Relinked(t, x, y);
    assert t0.rec.Keys == t.rec.Keys && t0.rec[x] == t.rec[x] && t0.rec[y] == t.rec[y];
    assert t0.rec[z] == if z == p then (if t.rec[z].left == x then t.rec[z].(left := y) else t.rec[z].(right := y))
           else t.rec[z];
    assert b != null ==> b in t0.rec && t0.rec[b] == t.rec[b];
    RotatedSteps(t, x, y, b, l, z);
    hide Rotated, Relinked;
  }

  lemma RotatedSteps(t: Tree, x: Node, y: Node, b: Node?, l: bool, z: Node)
    requires x in t.rec && t.span.Keys == t.rec.Keys && y in t.rec && Kid(t.rec[x], !l) == y && Kid(t.rec[y], l) == b
    requires x != y && b != x && b != y && z in t.rec && Relinked(t, x, y).rec.Keys == t.rec.Keys
             && (b != null ==> b in t.rec)
    ensures var t0, t' := Relinked(t, x, y), Rotated(t, x, l);
            && t'.rec.Keys == t.rec.Keys
            && (z == x ==> t'.rec[z] == WithKid(t0.rec[x], !l, b).(parent := y))
            && (z == y ==> t'.rec[z] == WithKid(t0.rec[y], l, x).(parent := t.rec[x].parent))
            && (z == b ==> t'.rec[z] == t0.rec[z].(parent := x))
            && (z != x && z != y && z != b ==> t'.rec[z] == t0.rec[z])
            && t'.root == t0.root && t'.span == RotatedSpans(t.span, x, y, l)
  {
    hide Relinked;
  }

  lemma LinkedNode(t: Tree, n: nat, z: Node)
    requires Linked(t, n) && z in t.rec
    ensures t.span.Keys == t.rec.Keys && NodeLinked(t, z)
  {}

  lemma RootIn(t: Tree, n: nat)
    requires Linked(t, n) && t.root != null
    ensures t.root in t.rec && t.rec[t.root].parent == null
  {}

  lemma RotatedRoot(t: Tree, n: nat, x: Node, l: bool)
    requires Linked(t, n) && x in t.rec && Kid(t.rec[x], !l) != null
    ensures t.span.Keys == t.rec.Keys && Kid(t.rec[x], !l) in t.rec
    ensures Rotated(t, x, l).root == if t.rec[x].parent == null then Kid(t.rec[x], !l) else t.root
  {
    RotationNodes(t, n, x, l);
    hide Linked;
  }

  /** The two nodes that change places are linked again. */
  lemma RotateLower(t: Tree, n: nat, x: Node, l: bool)
    requires Linked(t, n) && x in t.rec && Kid(t.rec[x], !l) != null
    ensures t.span.Keys == t.rec.Keys && Kid(t.rec[x], !l) in t.rec
    ensures Rotated(t, x, l).rec.Keys == t.rec.Keys == Rotated(t, x, l).span.Keys
    ensures NodeLinked(Rotated(t, x, l), x)
  {
    hide Linked, Rotated;
    RotationNodes(t, n, x, l);
    LinkedNode(t, n, x);
    var y: Node := Kid(t.rec[x], !l);
    var b, a := Kid(t.rec[y], l), Kid(t.rec[x], l);
    LinkedNode(t, n, y);
    RotatedRec(t, n, x, l, x);
    RotatedRec(t, n, x, l, y);
    if b != null { LinkedNode(t, n, b); RotatedRec(t, n, x, l, b); }
    if a != null { LinkedNode(t, n, a); RotatedRec(t, n, x, l, a); }
    hide ParentLinked;
    assert ParentLinked(Rotated(t, x, l), x) by { RotateParents(t, n, x, l); }
  }

  lemma RotateUpper(t: Tree, n: nat, x: Node, l: bool)
    requires Linked(t, n) && x in t.rec && Kid(t.rec[x], !l) != null
    ensures t.span.Keys == t.rec.Keys && Kid(t.rec[x], !l) in t.rec
    ensures Rotated(t, x, l).rec.Keys == t.rec.Keys == Rotated(t, x, l).span.Keys
    ensures NodeLinked(Rotated(t, x, l), Kid(t.rec[x], !l))
  {
    hide Linked, Rotated;
    RotationNodes(t, n, x, l);
    LinkedNode(t, n, x);
    var y: Node := Kid(t.rec[x], !l);
    var c := Kid(t.rec[y], !l);
    LinkedNode(t, n, y);
    RotatedRec(t, n, x, l, x);
    RotatedRec(t, n, x, l, y);
    if c != null { LinkedNode(t, n, c); RotatedRec(t, n, x, l, c); }
    hide ParentLinked;
    assert ParentLinked(Rotated(t, x, l), y) by { RotateParents(t, n, x, l); }
  }

  lemma RotateParents(t: Tree, n: nat, x: Node, l: bool)
    requires Linked(t, n) && x in t.rec && Kid(t.rec[x], !l) != null
    ensures t.span.Keys == t.rec.Keys && Kid(t.rec[x], !l) in t.rec
    ensures Rotated(t, x, l).rec.Keys == t.rec.Keys
    ensures ParentLinked(Rotated(t, x, l), x) && ParentLinked(Rotated(t, x, l), Kid(t.rec[x], !l))
  {
    hide Linked, Rotated;
    RotationNodes(t, n, x, l);
    LinkedNode(t, n, x);
    var y, p := Kid(t.rec[x], !l), t.rec[x].parent;
    RotatedRoot(t, n, x, l);
    RotatedRec(t, n, x, l, x);
    RotatedRec(t, n, x, l, y);
    if p != null { RotatedRec(t, n, x, l, p); }
    hide KidLinked;
  }

  lemma RotateOtherKid(t: Tree, n: nat, x: Node, l: bool, z: Node, side: bool)
    requires Linked(t, n) && x in t.rec && Kid(t.rec[x], !l) != null && z in t.rec && z != x && z != Kid(t.rec[x], !l)
    ensures t.span.Keys == t.rec.Keys && Kid(t.rec[x], !l) in t.rec
    ensures Rotated(t, x, l).rec.Keys == t.rec.Keys == Rotated(t, x, l).span.Keys
    ensures KidLinked(Rotated(t, x, l), z, side)
  {
    hide Linked, Rotated;
    RotationNodes(t, n, x, l);
    var y: Node := Kid(t.rec[x], !l);
    LinkedNode(t, n, x);
    LinkedNode(t, n, y);
    LinkedNode(t, n, z);
    hide ParentLinked;
    RotatedRec(t, n, x, l, z);
    var k := Kid(t.rec[z], side);
    if k == x {
      RotatedRec(t, n, x, l, y);
    } else if k != null {
      RotatedRec(t, n, x, l, k);
    }
  }

  lemma RotateOther(t: Tree, n: nat, x: Node, l: bool, z: Node)
    requires Linked(t, n) && x in t.rec && Kid(t.rec[x], !l) != null && z in t.rec && z != x && z != Kid(t.rec[x], !l)
    ensures t.span.Keys == t.rec.Keys && Kid(t.rec[x], !l) in t.rec
    ensures Rotated(t, x, l).rec.Keys == t.rec.Keys == Rotated(t, x, l).span.Keys
    ensures NodeLinked(Rotated(t, x, l), z)
  {
    hide Linked, Rotated;
    RotationNodes(t, n, x, l);
    LinkedNode(t, n, x);
    LinkedNode(t, n, z);
    RotatedRoot(t, n, x, l);
    RotateOtherKid(t, n, x, l, z, true);
    RotateOtherKid(t, n, x, l, z, false);
    hide KidLinked;
    RotatedRec(t, n, x, l, x);
    RotatedRec(t, n, x, l, z);
    if t.rec[z].parent != null { RotatedRec(t, n, x, l, t.rec[z].parent); }
  }

  lemma RotateLinked(t: Tree, n: nat, x: Node, l: bool)
    requires Linked(t, n) && x in t.rec && Kid(t.rec[x], !l) != null
    ensures t.span.Keys == t.rec.Keys && Kid(t.rec[x], !l) in t.rec
    ensures Linked(Rotated(t, x, l), n) && Rotated(t, x, l).rec.Keys == t.rec.Keys
  {
    RotationNodes(t, n, x, l);
    var y: Node := Kid(t.rec[x], !l);
    var t' := Rotated(t, x, l);
    LinkedNode(t, n, x);
    RotatedRec(t, n, x, l, y);
    RotatedRec(t, n, x, l, t.root);
    RotatedRoot(t, n, x, l);
    hide Rotated, NodeLinked;
    forall z | z in t'.rec ensures NodeLinked(t', z) {
      if z == x {
        RotateLower(t, n, x, l);
      } else if z == y {
        RotateUpper(t, n, x, l);
      } else {
        RotateOther(t, n, x, l, z);
      }
    }
  }

  /** What the parent of x, the root pointer and y's parent are after the first assignments of a rotation. */
  ghost function HandedOver(t: Tree, x: Node, y: Node): Tree
    requires x in t.rec && y in t.rec
  {
    PutParent(Relinked(t, x, y), y, t.rec[x].parent)
  }

  /** A rotation is the first assignments, then the others one by one. */
  lemma RotatedInSteps(t: Tree, n: nat, x: Node, y: Node, l: bool)
    requires Linked(t, n) && x in t.rec && y in t.rec && Kid(t.rec[x], !l) == y
    ensures t.span.Keys == t.rec.Keys && HandedOver(t, x, y).rec.Keys == t.rec.Keys
    ensures var b := Kid(t.rec[y], l);
            var t1 := PutKid(HandedOver(t, x, y), x, !l, b);
            && t1.rec.Keys == t.rec.Keys && Adopted(t1, b, x).rec.Keys == t.rec.Keys
            && var t2 := PutKid(Adopted(t1, b, x), y, l, x);
               t2.rec.Keys == t.rec.Keys
               && Rotated(t, x, l) == PutParent(t2, x, y).(span := RotatedSpans(t.span, x, y, l))
  {
    RotationNodes(t, n, x, l);
    hide Linked;
  }
}
