/** The red-black tree map: asCMap, with its links rewritten in place. */
module OrderedMaps {
  import opened TreeShape
  import opened TreeColours
  import opened TreeInsert
  import opened TreeErase
  import opened TreeReplace
  import opened TreeSteps
  import opened TreeOrder
  import opened TreePaths

  class OrderedMap {
    /** The < of KEY. */
    const lt: (Key, Key) -> bool
    var root: Node?
    var count: int

    /** The nodes in the tree, in any order and in key order; the span and black height of each one's subtree. */
    ghost var nodes: set<Node>
    ghost var order: seq<Node>
    ghost var span: map<Node, Span>
    ghost var bh: map<Node, nat>

    /** All links and colours, as a value. */
    ghost function Links(): (t: Tree)
      reads `root, `nodes, `span, nodes
      ensures t.rec.Keys == nodes && t.root == root && t.span == span
    {
      Tree(map x | x in nodes :: Rec(x.parent, x.left, x.right, x.isRed), root, span)
    }

    /** The record of node x holds its fields. */
    lemma At(x: Node)
      requires x in nodes
      ensures Links().rec[x] == Rec(x.parent, x.left, x.right, x.isRed)
    {}

    ghost predicate Valid()
      reads this, nodes
    {
      && Linked(Links(), |order|) && InOrder(Links(), order) && RedBlack(Links(), bh)
      && SortedKeys(lt, KeysOf(order)) && KeyOrder(lt)
      && count == |order|
    }

    /** What every method keeps, at the fields of one node: links, order of the keys and colours. */
    lemma ValidMeaning(x: Node)
      requires Valid() && x in nodes
      ensures root != null && root in nodes && !root.isRed && root.parent == null
      ensures x != root ==> x.parent != null && x.parent in nodes && (x.parent.left == x || x.parent.right == x)
      ensures x.left != null ==>
                && x.left in nodes && x.left.parent == x && x.left != x.right
                && !lt(x.key, x.left.key) && !(x.isRed && x.left.isRed)
      ensures x.right != null ==>
                && x.right in nodes && x.right.parent == x
                && !lt(x.right.key, x.key) && !(x.isRed && x.right.isRed)
    {
      hide Linked, InOrder, SortedKeys, KeyOrder, OrderedMap.Links;
      ghost var t := Links();
      At(x);
      KidParent(t, |order|, x);
      RootSpan(t, |order|);
      RootIn(t, |order|);
      At(root);
      if x.parent != null { At(x.parent); }
      if x.left != null { At(x.left); KidInOrder(x, true); }
      if x.right != null { At(x.right); KidInOrder(x, false); }
      if x.isRed { RedAbove(t, bh, x); }
      RootBlack(t, |order|, bh);
    }

    lemma KidInOrder(x: Node, l: bool)
      requires Valid() && x in nodes && Kid(Links().rec[x], l) != null
      ensures Kid(Links().rec[x], l) in nodes
      ensures var c: Node := Kid(Links().rec[x], l);
              if l then !lt(x.key, c.key) else !lt(c.key, x.key)
    {
      hide Linked, InOrder, RedBlack, OrderedMap.Links;
      ghost var t := Links();
      KidParent(t, |order|, x);
      LinkedNode(t, |order|, x);
      var c: Node := Kid(t.rec[x], l);
      LinkedNode(t, |order|, c);
      OnePlaceKey(t, order, x);
      OnePlaceKey(t, order, c);
    }

    constructor (lt: (Key, Key) -> bool)
      requires KeyOrder(lt)
      ensures Valid() && order == [] && nodes == {} && this.lt == lt
    {
      this.lt := lt;
      root, count := null, 0;
      nodes, order, span, bh := {}, [], map[], map[];
      new;
      assert Links().rec == map[];
    }

    /** Single assignments to a field of a node in the tree. */
    method SetParent(x: Node, p: Node?)
      requires x in nodes
      modifies x`parent
      ensures x.parent == p && Links() == PutParent(old(Links()), x, p)
    {
      x.parent := p;
      assert Links().rec == PutParent(old(Links()), x, p).rec;
    }

    method SetLeft(x: Node, c: Node?)
      requires x in nodes
      modifies x`left
      ensures x.left == c && Links() == PutKid(old(Links()), x, true, c)
    {
      x.left := c;
      assert Links().rec == PutKid(old(Links()), x, true, c).rec;
    }

    method SetRight(x: Node, c: Node?)
      requires x in nodes
      modifies x`right
      ensures x.right == c && Links() == PutKid(old(Links()), x, false, c)
    {
      x.right := c;
      assert Links().rec == PutKid(old(Links()), x, false, c).rec;
    }

    method SetRoot(c: Node?)
      modifies this`root
      ensures root == c && Links() == old(Links()).(root := c)
    {
      root := c;
    }

    ghost method SetSpan(s: map<Node, Span>)
      modifies this`span
      ensures span == s && Links() == old(Links()).(span := s)
    {
      span := s;
    }

    method SetRed(x: Node, red: bool)
      requires x in nodes
      modifies x`isRed
      ensures x.isRed == red && Links() == Recoloured(old(Links()), x, red)
    {
      x.isRed := red;
      assert Links().rec == Recoloured(old(Links()), x, red).rec;
    }

    /** c, if any, gets the parent p. */
    method Adopt(c: Node?, p: Node?)
      requires c != null ==> c in nodes
      modifies nodes`parent
      ensures Links() == Adopted(old(Links()), c, p)
      ensures forall y :: y in nodes && y != c ==> y.parent == old(y.parent)
    {
      if c != null { SetParent(c, p); }
    }

    /** Lets the parent of x, or the root pointer when x has none, lead to c instead. */
    method Relink(x: Node, c: Node?)
      requires x in nodes && (x.parent != null ==> x.parent in nodes)
      modifies this`root, nodes`left, nodes`right
      ensures Links() == Relinked(old(Links()), x, c)
      ensures forall y :: y in nodes && y != old(x.parent) ==> y.left == old(y.left) && y.right == old(y.right)
    {
      hide Linked, OrderedMap.Links;
      At(x);
      if x.parent != null {
        var parent: Node := x.parent;
        At(parent);
        if parent.left == x { SetLeft(parent, c); } else { SetRight(parent, c); }
      } else {
        SetRoot(c);
      }
    }

    /** y takes x's place below x's parent, or at the root: the first assignments of a rotation. */
    method HandOver(x: Node, y: Node)
      requires x in nodes && y in nodes && (x.parent != null ==> x.parent in nodes)
      requires x.parent != x && x.parent != y && x != y
      modifies this`root, nodes`parent, nodes`left, nodes`right
      ensures Links() == HandedOver(old(Links()), x, y)
      ensures x.left == old(x.left) && x.right == old(x.right) && y.left == old(y.left) && y.right == old(y.right)
    {
      hide OrderedMap.Links, PutParent, Relinked;
      At(x);
      Relink(x, y);
      SetParent(y, x.parent);
    }

    /** Moves the right child of node up into its place. */
    method RotateLeft(node: Node, ghost n: nat) returns (r: int)
      requires node in nodes && Linked(Links(), n)
      modifies this`root, this`span, nodes`parent, nodes`left, nodes`right
      ensures old(node.right) == null ==> r == -1 && Links() == old(Links())
      ensures old(node.right) != null ==>
                && r == 0 && old(node.right) in nodes && old(span.Keys) == nodes
                && Links() == Rotated(old(Links()), node, true)
    {
      hide Linked, OrderedMap.Links, PutParent, PutKid, HandedOver, Adopted, Rotated;
      At(node);
      if node.right == null { return -1; }
      ghost var t := Links();
      RotationNodes(t, n, node, true);
      var right: Node := node.right;
      At(right);
      RotatedInSteps(t, n, node, right, true);
      ghost var spans := RotatedSpans(span, node, right, true);
      hide RotatedSpans;
      HandOver(node, right);
      SetRight(node, right.left);
      Adopt(node.right, node);
      SetLeft(right, node);
      SetParent(node, right);
      SetSpan(spans);
      return 0;
    }

    /** Moves the left child of node up into its place. */
    method RotateRight(node: Node, ghost n: nat) returns (r: int)
      requires node in nodes && Linked(Links(), n)
      modifies this`root, this`span, nodes`parent, nodes`left, nodes`right
      ensures old(node.left) == null ==> r == -1 && Links() == old(Links())
      ensures old(node.left) != null ==>
                && r == 0 && old(node.left) in nodes && old(span.Keys) == nodes
                && Links() == Rotated(old(Links()), node, false)
    {
      hide Linked, OrderedMap.Links, PutParent, PutKid, HandedOver, Adopted, Rotated;
      At(node);
      if node.left == null { return -1; }
      ghost var t := Links();
      RotationNodes(t, n, node, false);
      var left: Node := node.left;
      At(left);
      RotatedInSteps(t, n, node, left, false);
      ghost var spans := RotatedSpans(span, node, left, false);
      hide RotatedSpans;
      HandOver(node, left);
      SetLeft(node, left.right);
      Adopt(node.left, node);
      SetRight(left, node);
      SetParent(node, left);
      SetSpan(spans);
      return 0;
    }

    /** Hangs the first node, or a node below p. */
    method HangRoot(nnode: Node)
      requires nodes == {} && root == null && nnode.parent == null && nnode.left == null && nnode.right == null
               && nnode.isRed
      modifies this`root, this`nodes, this`span
      ensures nodes == {nnode} && Links() == Single(nnode) && nnode.isRed
    {
      root := nnode;
      nodes, span := {nnode}, map[nnode := Span(0, 0, 1)];
      assert Links().rec == Single(nnode).rec;
    }

    method HangLeft(p: Node, nnode: Node)
      requires p in nodes && nnode !in nodes && span.Keys == nodes && nnode.left == null && nnode.right == null
               && nnode.isRed
      modifies this`nodes, this`span, p`left, nnode`parent
      ensures nodes == old(nodes) + {nnode} && Links() == WithLeaf(old(Links()), p, true, nnode)
    {
      ghost var t := Links();
      nnode.parent := p;
      p.left := nnode;
      nodes, span := nodes + {nnode}, WithLeaf(t, p, true, nnode).span;
      assert Links().rec == WithLeaf(t, p, true, nnode).rec;
    }

    method HangRight(p: Node, nnode: Node)
      requires p in nodes && nnode !in nodes && span.Keys == nodes && nnode.left == null && nnode.right == null
               && nnode.isRed
      modifies this`nodes, this`span, p`right, nnode`parent
      ensures nodes == old(nodes) + {nnode} && Links() == WithLeaf(old(Links()), p, false, nnode)
    {
      ghost var t := Links();
      nnode.parent := p;
      p.right := nnode;
      nodes, span := nodes + {nnode}, WithLeaf(t, p, false, nnode).span;
      assert Links().rec == WithLeaf(t, p, false, nnode).rec;
    }

    /** Splices out a node with at most one child; returns that child. */
    method SpliceOut(remove: Node) returns (child: Node?)
      requires remove in nodes && Spliceable(Links(), order, remove)
      modifies this`root, this`nodes, this`span, nodes`parent, nodes`left, nodes`right
      ensures nodes == old(nodes) - {remove} && Links() == Spliced(old(Links()), remove)
              && child == OnlyKid(old(Links()).rec[remove])
      ensures remove.parent == old(remove.parent)
    {
      hide Linked, InOrder, OrderedMap.Links, Relinked;
      ghost var t := Links();
      KidParent(t, |order|, remove);
      SpliceStepsAgree(t, order, remove);
      At(remove);
      if remove.left != null { child := remove.left; } else { child := remove.right; }
      Adopt(child, remove.parent);
      Relink(remove, child);
      DropNode(remove, Spliced(t, remove).span);
    }

    /** Puts the spliced-out node `remove` in the place of `node`. */
    method TakePlace(node: Node, remove: Node, ghost n: nat)
      requires node in nodes && remove !in nodes && Linked(Links(), n)
      modifies this`root, this`nodes, this`span, nodes`parent, nodes`left, nodes`right
      modifies remove`parent, remove`left, remove`right, remove`isRed
      ensures nodes == old(nodes) + {remove} - {node}
      ensures old(span.Keys) == old(nodes) && Links() == Replaced(old(Links()), node, remove)
    {
      hide Linked, OrderedMap.Links, Adopted, Relinked, Replaced, ReplaceSteps;
      ghost var t := Links();
      KidParent(t, n, node);
      ReplaceStepsAgree(t, n, node, remove);
      RelinkedSelf(t, n, node, remove);
      ReplaceStepsChain(t, n, node, remove);
      ghost var spans := Replaced(t, node, remove).span;
      At(node);
      Relink(node, remove);
      Inherit(node, remove);
      DropNode(node, spans);
    }

    /** `remove` gets node's links and colour, and node's children get it for their parent. */
    method Inherit(node: Node, remove: Node)
      requires node in nodes && remove !in nodes && (node.left != null ==> node.left in nodes)
               && (node.right != null ==> node.right in nodes)
      modifies this`nodes, nodes`parent, remove`parent, remove`left, remove`right, remove`isRed
      ensures nodes == old(nodes) + {remove}
      ensures var t := old(Links());
              var t1 := t.(rec := t.rec[remove := t.rec[node]]);
              Links() == Adopted(Adopted(t1, old(node.left), remove), old(node.right), remove)
    {
      hide OrderedMap.Links, Adopted;
      CopyLinks(node, remove);
      Adopt(remove.left, remove);
      Adopt(remove.right, remove);
    }

    /** `remove` gets node's links and colour. */
    method CopyLinks(node: Node, remove: Node)
      requires node in nodes && remove !in nodes
      modifies this`nodes, remove`parent, remove`left, remove`right, remove`isRed
      ensures nodes == old(nodes) + {remove}
      ensures remove.left == node.left && remove.right == node.right
      ensures Links() == old(Links()).(rec := old(Links()).rec[remove := old(Links()).rec[node]])
    {
      ghost var t := Links();
      remove.isRed := node.isRed;
      remove.parent := node.parent;
      remove.left := node.left;
      remove.right := node.right;
      nodes := nodes + {remove};
      assert Links().rec == t.rec[remove := t.rec[node]];
    }

    ghost method DropNode(x: Node, s: map<Node, Span>)
      requires x in nodes
      modifies this`nodes, this`span
      ensures nodes == old(nodes) - {x} && Links() == Tree(old(Links()).rec - {x}, root, s)
    {
      ghost var t := Links();
      nodes, span := nodes - {x}, s;
      assert Links().rec == t.rec - {x};
    }

    /** The red-uncle case of BalanceInsert. */
    method RecolourFamily(x: Node, p: Node, u: Node, g: Node, ghost n: nat, ghost l: bool)
      requires Family(Links(), n, x, p, g, l) && Coloured(Links(), bh, null, true, x)
      requires u in nodes && Kid(Links().rec[g], !l) == u && u.isRed
      modifies nodes`isRed, this`bh
      ensures Linked(Links(), n) && Coloured(Links(), bh, null, true, g) && g in nodes && g.isRed
      ensures Size(Links(), g) > old(Size(Links(), x))
    {
      hide Linked, Coloured, Recoloured, OrderedMap.Links;
      ghost var t := Links();
      At(u);
      InsertRecolour(t, n, bh, x, p, g, u, l);
      ParentLarger(t, n, x);
      ParentLarger(t, n, p);
      SetRed(p, false);
      SetRed(u, false);
      SetRed(g, true);
      bh := RaisedHeights(bh, p, u);
    }

    /** Paints y, the left child of x, and x, then rotates y over x. */
    method LiftLeft(x: Node, y: Node, cx: bool, cy: bool, ghost n: nat)
      requires Liftable(Links(), n, x, y, true)
      modifies this`root, this`span, nodes`parent, nodes`left, nodes`right, x`isRed, y`isRed
      ensures old(span.Keys) == nodes && Links() == Lifted(old(Links()), x, y, true, cx, cy)
              && SamePlaces(old(span), span)
    {
      hide Linked, Recoloured, Rotated, SamePlaces, OrderedMap.Links;
      ghost var t := Links();
      PaintedPair(t, n, x, y, cx, cy, x);
      SetRed(y, cy);
      SetRed(x, cx);
      At(x);
      RotatedPlaces(Links(), n, x, false);
      var r := RotateRight(x, n);
    }

    method LiftRight(x: Node, y: Node, cx: bool, cy: bool, ghost n: nat)
      requires Liftable(Links(), n, x, y, false)
      modifies this`root, this`span, nodes`parent, nodes`left, nodes`right, x`isRed, y`isRed
      ensures old(span.Keys) == nodes && Links() == Lifted(old(Links()), x, y, false, cx, cy)
              && SamePlaces(old(span), span)
    {
      hide Linked, Recoloured, Rotated, SamePlaces, OrderedMap.Links;
      ghost var t := Links();
      PaintedPair(t, n, x, y, cx, cy, x);
      SetRed(y, cy);
      SetRed(x, cx);
      At(x);
      RotatedPlaces(Links(), n, x, true);
      var r := RotateLeft(x, n);
    }

    /** The black-uncle case of BalanceInsert, parent on the left. */
    method RaiseLeft(x: Node, p: Node, g: Node, ghost n: nat) returns (node: Node)
      requires BlackUncle(Links(), n, bh, x, p, g, true)
      modifies this`root, this`span, this`bh, nodes`parent, nodes`left, nodes`right, nodes`isRed
      ensures Linked(Links(), n) && RedBlack(Links(), bh) && SamePlaces(old(span), span)
      ensures node in nodes && node.isRed && node.parent != null && node.parent in nodes && !node.parent.isRed
    {
      hide Linked, Coloured, Recoloured, Rotated, Lifted, OrderedMap.Links;
      FamilyKids(Links(), n, x, p, g, true);
      node := x;
      At(x);
      At(p);
      if node == p.right {
        node := p;
        InsertInner(Links(), n, bh, x, p, g, true);
        RotatedPlaces(Links(), n, p, true);
        var r := RotateLeft(node, n);
        At(x);
        At(p);
      }
      RaiseLeftOuter(node, g, n);
    }

    method RaiseLeftOuter(x: Node, g: Node, ghost n: nat)
      requires x in nodes && x.parent != null && BlackUncle(Links(), n, bh, x, x.parent, g, true) && x.parent.left == x
      modifies this`root, this`span, this`bh, nodes`parent, nodes`left, nodes`right, nodes`isRed
      ensures Linked(Links(), n) && RedBlack(Links(), bh) && SamePlaces(old(span), span)
      ensures x.isRed && x.parent != null && x.parent in nodes && !x.parent.isRed
    {
      hide Linked, Coloured, Recoloured, Rotated, Lifted, SamePlaces, OrderedMap.Links;
      var parent: Node := x.parent;
      At(x);
      At(parent);
      InsertOuter(Links(), n, bh, x, parent, g, true);
      ghost var bh' := LiftedHeights(bh, g, parent, bh[g] - 1);
      LiftLeft(g, parent, true, false, n);
      bh := bh';
      At(x);
      At(parent);
      hide LiftedHeights;
    }

    /** The black-uncle case of BalanceInsert, parent on the right. */
    method RaiseRight(x: Node, p: Node, g: Node, ghost n: nat) returns (node: Node)
      requires BlackUncle(Links(), n, bh, x, p, g, false)
      modifies this`root, this`span, this`bh, nodes`parent, nodes`left, nodes`right, nodes`isRed
      ensures Linked(Links(), n) && RedBlack(Links(), bh) && SamePlaces(old(span), span)
      ensures node in nodes && node.isRed && node.parent != null && node.parent in nodes && !node.parent.isRed
    {
      hide Linked, Coloured, Recoloured, Rotated, Lifted, OrderedMap.Links;
      FamilyKids(Links(), n, x, p, g, false);
      node := x;
      At(x);
      At(p);
      if node == p.left {
        node := p;
        InsertInner(Links(), n, bh, x, p, g, false);
        RotatedPlaces(Links(), n, p, false);
        var r := RotateRight(node, n);
        At(x);
        At(p);
      }
      RaiseRightOuter(node, g, n);
    }

    method RaiseRightOuter(x: Node, g: Node, ghost n: nat)
      requires x in nodes && x.parent != null && BlackUncle(Links(), n, bh, x, x.parent, g, false)
               && x.parent.right == x
      modifies this`root, this`span, this`bh, nodes`parent, nodes`left, nodes`right, nodes`isRed
      ensures Linked(Links(), n) && RedBlack(Links(), bh) && SamePlaces(old(span), span)
      ensures x.isRed && x.parent != null && x.parent in nodes && !x.parent.isRed
    {
      hide Linked, Coloured, Recoloured, Rotated, Lifted, SamePlaces, OrderedMap.Links;
      var parent: Node := x.parent;
      At(x);
      At(parent);
      InsertOuter(Links(), n, bh, x, parent, g, false);
      ghost var bh' := LiftedHeights(bh, g, parent, bh[g] - 1);
      LiftRight(g, parent, true, false, n);
      bh := bh';
      At(x);
      At(parent);
      hide LiftedHeights;
    }

    /** The one possible fault sits at node; node.parent can be read unless node is the root. */
    ghost predicate Fault(node: Node, n: nat)
      reads this, nodes
    {
      && node in nodes && node.isRed && Linked(Links(), n) && Coloured(Links(), bh, null, true, node)
      && (node != root ==> node.parent != null && node.parent in nodes) && root != null && root in nodes
    }

    lemma FaultAt(node: Node, n: nat)
      requires node in nodes && node.isRed && Linked(Links(), n)
      requires Coloured(Links(), bh, null, true, node) || RedBlack(Links(), bh)
      ensures Fault(node, n)
    {
      hide Linked, OrderedMap.Links;
      At(node);
      KidParent(Links(), n, node);
      if RedBlack(Links(), bh) { ColouredAll(Links(), bh, null, true, node); }
    }

    lemma FaultStep(node: Node, n: nat)
      requires Fault(node, n) && node != root && node.parent.isRed
      ensures var p := node.parent; var g := p.parent;
              && Size(Links(), node) <= n
              && g != null && g in nodes && Family(Links(), n, node, p, g, p == g.left)
                  && Links().rec[g] == Rec(g.parent, g.left, g.right, g.isRed)
              && (p != g.left ==> p == g.right)
              && (g.left != null ==> g.left in nodes && Links().rec[g.left].red == g.left.isRed)
              && (g.right != null ==> g.right in nodes && Links().rec[g.right].red == g.right.isRed)
    {
      hide Linked, OrderedMap.Links;
      At(node);
      At(node.parent);
      SpanWithin(Links(), n, node);
      FaultFamily(Links(), n, bh, node);
      hide Coloured;
      var g: Node := node.parent.parent;
      At(g);
      KidParent(Links(), n, g);
      if g.left != null { At(g.left); }
      if g.right != null { At(g.right); }
    }

    ghost function FaultMetric(node: Node, n: nat): nat
      reads this, nodes
      requires Fault(node, n)
    {
      SpanWithin(Links(), n, node);
      if node == root || !node.parent.isRed then 0 else 1 + n - Size(Links(), node)
    }

    /** One round of BalanceInsert. */
    method InsertRound(x: Node, ghost n: nat) returns (node: Node)
      requires Fault(x, n) && x != root && x.parent.isRed && n == |order| && InOrder(Links(), order)
      modifies this`root, this`span, this`bh, nodes`parent, nodes`left, nodes`right, nodes`isRed
      ensures Fault(node, n) && InOrder(Links(), order) && FaultMetric(node, n) < old(FaultMetric(x, n))
    {
      hide Linked, Coloured, InOrder, Family, OrderedMap.Links;
      ghost var t := Links();
      FaultStep(x, n);
      node := x;
      var parent: Node := node.parent;
      var g: Node := parent.parent;
      if parent == g.left {
        var uncle := g.right;
        if uncle != null && uncle.isRed {
          RecolourFamily(node, parent, uncle, g, n, true);
          node := g;
        } else {
          node := RaiseLeft(node, parent, g, n);
        }
      } else {
        var uncle := g.left;
        if uncle != null && uncle.isRed {
          RecolourFamily(node, parent, uncle, g, n, false);
          node := g;
        } else {
          node := RaiseRight(node, parent, g, n);
        }
      }
      FaultAt(node, n);
      SamePlacesOrder(t, Links(), order);
    }

    /** The last statement of BalanceInsert: the root turns black. */
    method BlackenRoot(ghost node: Node)
      requires Fault(node, |order|) && InOrder(Links(), order) && (node == root || !node.parent.isRed)
      modifies this`bh, nodes`isRed
      ensures Linked(Links(), |order|) && RedBlack(Links(), bh) && InOrder(Links(), order)
    {
      hide Linked, Coloured, InOrder, OrderedMap.Links;
      At(node);
      if node != root { At(node.parent); }
      ghost var t := Links();
      BlackRoot(t, |order|, bh, node);
      ghost var bh' := BlackenedHeights(t, bh, root);
      SetRed(root, false);
      SamePlacesOrder(t, Links(), order);
      bh := bh';
    }

    /** Repairs a red leaf, just hung below a possibly red parent. */
    method BalanceInsert(leaf: Node)
      requires leaf in nodes && leaf.isRed && Linked(Links(), |order|) && Coloured(Links(), bh, null, true, leaf)
               && InOrder(Links(), order)
      modifies this`root, this`span, this`bh, nodes`parent, nodes`left, nodes`right, nodes`isRed
      ensures Linked(Links(), |order|) && RedBlack(Links(), bh) && InOrder(Links(), order)
    {
      hide Linked, Coloured, InOrder, OrderedMap.Links, OrderedMap.FaultMetric;
      var node := leaf;
      FaultAt(node, |order|);
      while node != root && node.parent.isRed
        invariant Fault(node, |order|) && InOrder(Links(), order)
        decreases FaultMetric(node, |order|)
      {
        node := InsertRound(node, |order|);
      }
      BlackenRoot(node);
    }

    /** The order, heights and colours right after nnode has been hung at index i, before balancing. */
    ghost method RecordLeaf(t: Tree, p: Node, l: bool, nnode: Node, i: nat)
      requires Linked(t, |order|) && InOrder(t, order) && RedBlack(t, bh) && p in t.rec && Kid(t.rec[p], l) == null
               && nnode !in t.rec
      requires t.span.Keys == t.rec.Keys && LeafIndex(t, p, l) == i && Links() == WithLeaf(t, p, l, nnode)
      modifies this`order, this`bh
      ensures i <= |old(order)| && order == old(order)[..i] + [nnode] + old(order)[i..]
      ensures Linked(Links(), |order|) && InOrder(Links(), order) && Coloured(Links(), bh, null, true, nnode)
    {
      hide Linked, Coloured, InOrder, WithLeaf, OrderedMap.Links;
      LeafLinked(t, order, p, l, nnode);
      LeafColoured(t, |order|, bh, p, l, nnode);
      order, bh := order[..i] + [nnode] + order[i..], bh[nnode := 0];
    }

    /** The search of Insert: nnode is hung behind every node whose key is not greater. */
    method Hang(nnode: Node)
      requires Valid() && nnode !in nodes && nnode.parent == null && nnode.left == null && nnode.right == null
               && nnode.isRed
      modifies this`root, this`nodes, this`order, this`span, this`bh, nodes`left, nodes`right, nnode`parent
      ensures nodes == old(nodes) + {nnode} && nnode.isRed
      ensures Linked(Links(), |order|) && InOrder(Links(), order) && Coloured(Links(), bh, null, true, nnode)
      ensures var i := Place(lt, KeysOf(old(order)), nnode.key);
              i <= |old(order)| && order == old(order)[..i] + [nnode] + old(order)[i..]
    {
      hide Linked, Coloured, InOrder, Splits, SortedKeys, KeyOrder, WithLeaf, Place, Single, LeafIndex,
          OrderedMap.Links;
      ghost var i, order0, t := Place(lt, KeysOf(order), nnode.key), order, Links();
      PlaceSplits(lt, KeysOf(order), nnode.key);
      PlaceInside(lt, KeysOf(order), nnode.key);
      if root == null {
        EmptyTree(t, |order|);
        HangRoot(nnode);
        SingleLinked(nnode);
        order, bh := [nnode], map[nnode := 0];
      } else {
        var p: Node := root;
        RootCovers(t, |order|, i);
        while true
          invariant p in nodes && Covers(t, p, i) && nodes == old(nodes) && Links() == t && order == order0
                    && bh == old(bh)
          invariant nnode.parent == null && nnode.left == null && nnode.right == null && nnode.isRed
          decreases Size(t, p)
        {
          At(p);
          SeekStep(t, order, lt, nnode.key, i, p);
          if lt(nnode.key, p.key) {
            if p.left == null {
              HangLeft(p, nnode);
              RecordLeaf(t, p, true, nnode, i);
              break;
            } else {
              p := p.left;
            }
          } else {
            if p.right == null {
              HangRight(p, nnode);
              RecordLeaf(t, p, false, nnode, i);
              break;
            } else {
              p := p.right;
            }
          }
        }
      }
    }

    /** Insert of a node made for the purpose. */
    method Insert(nnode: Node) returns (r: int)
      requires Valid() && nnode !in nodes && nnode.parent == null && nnode.left == null && nnode.right == null
               && nnode.isRed
      modifies this`root, this`count, this`nodes, this`order, this`span, this`bh
      modifies nodes`parent, nodes`left, nodes`right, nodes`isRed, nnode`parent, nnode`left, nnode`right, nnode`isRed
      ensures Valid() && r == 0 && nodes == old(nodes) + {nnode}
      ensures var i := Place(lt, KeysOf(old(order)), nnode.key);
              && i <= |old(order)| && order == old(order)[..i] + [nnode] + old(order)[i..]
              && (forall k :: 0 <= k < i ==> !lt(nnode.key, old(order)[k].key))
              && (forall k :: i <= k < |old(order)| ==> lt(nnode.key, old(order)[k].key))
    {
      hide Linked, Coloured, InOrder, SortedKeys, KeyOrder, Place, OrderedMap.Links;
      PlaceMeaning(lt, order, nnode.key);
      InsertedKeys(lt, order, nnode, Place(lt, KeysOf(order), nnode.key));
      Hang(nnode);
      BalanceInsert(nnode);
      count := count + 1;
      return 0;
    }

    /** Case 2 of BalanceErase. */
    method Nephews(c: Node?, p: Node, b: Node, ghost s: bool, ghost n: nat) returns (stop: bool)
      requires BlackBrother(Links(), n, bh, c, p, s, b) && !IsRed(Links(), b.left) && !IsRed(Links(), b.right)
      modifies this`bh, p`isRed, b`isRed
      ensures stop ==> Linked(Links(), n) && RedBlack(Links(), bh)
      ensures !stop ==> !old(p.isRed) && Short(Links(), n, bh, p, p.parent, SideOf(Links(), p.parent, p))
      ensures !stop ==> Size(Links(), p) > old(Size(Links(), c)) && (p.parent != null ==> p.parent in nodes)
    {
      hide Linked, Coloured, Recoloured, OrderedMap.Links;
      ghost var t := Links();
      At(b);
      At(p);
      EraseBlackNephews(t, n, bh, c, p, s, b);
      KidParent(t, n, p);
      ShortSize(t, n, bh, c, p, s);
      ghost var bh' := DarkenedHeights(t, bh, p, b);
      hide DarkenedHeights, Short;
      if p.isRed {
        SetRed(p, false);
        SetRed(b, true);
        stop := true;
      } else {
        DarkenedBlackParent(t, p, b);
        OneRepaint(t, b, true);
        hide Darkened;
        SetRed(b, true);
        stop := false;
        SideKept(t, Links(), p);
      }
      bh := bh';
    }

    lemma BrotherKids(n: nat, p: Node, b: Node, l: bool)
      requires Linked(Links(), n) && b in nodes
      ensures Links().rec[b].left == b.left && Links().rec[b].right == b.right
      ensures b.left != null ==> b.left in nodes && Links().rec[b.left].red == b.left.isRed
      ensures b.right != null ==> b.right in nodes && Links().rec[b.right].red == b.right.isRed
    {
      hide Linked, OrderedMap.Links;
      At(b);
      KidParent(Links(), n, b);
      if b.left != null { At(b.left); }
      if b.right != null { At(b.right); }
    }

    /** Case 3 of BalanceErase, child on the left: the brother's left child is red, its right one is not. */
    method InnerLeft(c: Node?, p: Node, b: Node, ghost n: nat) returns (brother: Node)
      requires BlackBrother(Links(), n, bh, c, p, true, b) && b.left != null && b.left in nodes && b.left.isRed
               && !IsRed(Links(), b.right)
      modifies this`root, this`span, this`bh, nodes`parent, nodes`left, nodes`right, nodes`isRed
      ensures c != null ==> c in nodes && c.isRed == old(c.isRed)
      ensures BlackBrother(Links(), n, bh, c, p, true, brother) && SamePlaces(old(span), span)
      ensures brother.right != null && brother.right in nodes && brother.right.isRed
    {
      hide Linked, Coloured, Lifted, SamePlaces, OrderedMap.Links;
      var i: Node := b.left;
      At(b);
      At(i);
      At(p);
      ghost var t := Links();
      if c != null { ChildApart(t, n, c, p, true, b); }
      EraseInner(t, n, bh, c, p, true, b, i);
      ghost var bh' := LiftedHeights(bh, b, i, bh[b] - 1);
      LiftLeft(b, i, true, false, n);
      bh := bh';
      At(p);
      At(i);
      At(b);
      brother := p.right;
      hide LiftedHeights;
    }

    /** Case 4 of BalanceErase, child on the left: the brother's right child is red. */
    method OuterLeft(c: Node?, p: Node, b: Node, ghost n: nat)
      requires BlackBrother(Links(), n, bh, c, p, true, b) && b.right != null && b.right in nodes && b.right.isRed
      modifies this`root, this`span, this`bh, nodes`parent, nodes`left, nodes`right, nodes`isRed
      ensures c != null ==> c in nodes && c.isRed == old(c.isRed)
      ensures Linked(Links(), n) && RedBlack(Links(), bh) && SamePlaces(old(span), span)
    {
      hide Linked, Coloured, Lifted, SamePlaces, Recoloured, OrderedMap.Links;
      var o: Node := b.right;
      At(b);
      At(o);
      At(p);
      ghost var t := Links();
      if c != null { ChildApart(t, n, c, p, true, b); }
      EraseOuter(t, n, bh, c, p, true, b, o);
      ghost var bh' := LiftedHeights(bh[o := bh[o] + 1], p, b, bh[b]);
      OuterLiftable(t, n, p, b, false, o);
      SetRed(o, false);
      LiftRight(p, b, false, p.isRed, n);
      bh := bh';
      hide LiftedHeights;
    }

    /** Cases 2 to 4 of BalanceErase, child on the left; the search stops, or goes on with the parent as the child. */
    method FinishLeft(c: Node?, p: Node, b: Node, ghost n: nat) returns (stop: bool)
      requires BlackBrother(Links(), n, bh, c, p, true, b)
      modifies this`root, this`span, this`bh, nodes`parent, nodes`left, nodes`right, nodes`isRed
      ensures c != null ==> c in nodes && c.isRed == old(c.isRed)
      ensures SamePlaces(old(span), span)
      ensures stop ==> Linked(Links(), n) && RedBlack(Links(), bh)
      ensures !stop ==> !old(p.isRed) && Short(Links(), n, bh, p, p.parent, SideOf(Links(), p.parent, p))
      ensures !stop ==> Size(Links(), p) > old(Size(Links(), c)) && (p.parent != null ==> p.parent in nodes)
    {
      hide Linked, Coloured, SamePlaces, Recoloured, OrderedMap.Links;
      if c != null { ChildApart(Links(), n, c, p, true, b); }
      BrotherKids(n, p, b, false);
      if !(b.left != null && b.left.isRed) && !(b.right != null && b.right.isRed) {
        SamePlacesRefl(span);
        stop := Nephews(c, p, b, true, n);
      } else {
        var brother := b;
        if !(b.right != null && b.right.isRed) {
          brother := InnerLeft(c, p, b, n);
        } else {
          SamePlacesRefl(span);
        }
        ghost var between := span;
        OuterLeft(c, p, brother, n);
        SamePlacesTrans(old(span), between, span);
        stop := true;
      }
    }

    /** One round of BalanceErase, child on the left. */
    method RoundLeft(c: Node?, p: Node, ghost n: nat) returns (stop: bool)
      requires p in nodes && Short(Links(), n, bh, c, p, true) && c != root && !IsRed(Links(), c)
      modifies this`root, this`span, this`bh, nodes`parent, nodes`left, nodes`right, nodes`isRed
      ensures c != null ==> c in nodes && c.isRed == old(c.isRed)
      ensures SamePlaces(old(span), span)
      ensures stop ==> Linked(Links(), n) && RedBlack(Links(), bh)
      ensures !stop ==> Short(Links(), n, bh, p, p.parent, SideOf(Links(), p.parent, p))
      ensures !stop ==> Size(Links(), p) > old(Size(Links(), c)) && (p.parent != null ==> p.parent in nodes)
    {
      hide Linked, Coloured, SamePlaces, Recoloured, Lifted, OrderedMap.Links;
      Brother(Links(), n, bh, c, p, true);
      At(p);
      var brother: Node := p.right;
      At(brother);
      if c != null { ChildApart(Links(), n, c, p, true, brother); }
      if brother.isRed {
        brother := RedBrotherLeft(c, p, brother, n);
      } else {
        SamePlacesRefl(span);
      }
      ghost var between := span;
      stop := FinishLeft(c, p, brother, n);
      SamePlacesTrans(old(span), between, span);
    }

    /** Case 1 of BalanceErase, child on the left. */
    method RedBrotherLeft(c: Node?, p: Node, b: Node, ghost n: nat) returns (brother: Node)
      requires p in nodes && b in nodes && Short(Links(), n, bh, c, p, true) && c != root && !IsRed(Links(), c)
      requires p.right == b && b.isRed && (c != null ==> c in nodes && c != p && c != b)
      modifies this`root, this`span, this`bh, nodes`parent, nodes`left, nodes`right, p`isRed, b`isRed
      ensures BlackBrother(Links(), n, bh, c, p, true, brother) && SamePlaces(old(span), span) && p.isRed
    {
      hide Linked, Coloured, SamePlaces, Recoloured, Lifted, OrderedMap.Links;
      At(p);
      At(b);
      EraseRedBrother(Links(), n, bh, c, p, true, b);
      ghost var bh' := LiftedHeights(bh, p, b, bh[p] - 1);
      hide LiftedHeights;
      LiftRight(p, b, true, false, n);
      bh := bh';
      At(p);
      brother := NewBrotherLeft(c, p, n);
    }

    method NewBrotherLeft(c: Node?, p: Node, ghost n: nat) returns (brother: Node)
      requires p in nodes && Short(Links(), n, bh, c, p, true) && c != root && !IsRed(Links(), c)
               && !IsRed(Links(), p.right)
      ensures BlackBrother(Links(), n, bh, c, p, true, brother)
    {
      hide Linked, Coloured, Short, OrderedMap.Links;
      Brother(Links(), n, bh, c, p, true);
      At(p);
      brother := p.right;
      At(brother);
    }

    /** Case 3 of BalanceErase, child on the right: the brother's right child is red, its left one is not. */
    method InnerRight(c: Node?, p: Node, b: Node, ghost n: nat) returns (brother: Node)
      requires BlackBrother(Links(), n, bh, c, p, false, b) && b.right != null && b.right in nodes && b.right.isRed
               && !IsRed(Links(), b.left)
      modifies this`root, this`span, this`bh, nodes`parent, nodes`left, nodes`right, nodes`isRed
      ensures c != null ==> c in nodes && c.isRed == old(c.isRed)
      ensures BlackBrother(Links(), n, bh, c, p, false, brother) && SamePlaces(old(span), span)
      ensures brother.left != null && brother.left in nodes && brother.left.isRed
    {
      hide Linked, Coloured, Lifted, SamePlaces, OrderedMap.Links;
      var i: Node := b.right;
      At(b);
      At(i);
      At(p);
      ghost var t := Links();
      if c != null { ChildApart(t, n, c, p, false, b); }
      EraseInner(t, n, bh, c, p, false, b, i);
      ghost var bh' := LiftedHeights(bh, b, i, bh[b] - 1);
      LiftRight(b, i, true, false, n);
      bh := bh';
      At(p);
      At(i);
      At(b);
      brother := p.left;
      hide LiftedHeights;
    }

    /** Case 4 of BalanceErase, child on the right: the brother's left child is red. */
    method OuterRight(c: Node?, p: Node, b: Node, ghost n: nat)
      requires BlackBrother(Links(), n, bh, c, p, false, b) && b.left != null && b.left in nodes && b.left.isRed
      modifies this`root, this`span, this`bh, nodes`parent, nodes`left, nodes`right, nodes`isRed
      ensures c != null ==> c in nodes && c.isRed == old(c.isRed)
      ensures Linked(Links(), n) && RedBlack(Links(), bh) && SamePlaces(old(span), span)
    {
      hide Linked, Coloured, Lifted, SamePlaces, Recoloured, OrderedMap.Links;
      var o: Node := b.left;
      At(b);
      At(o);
      At(p);
      ghost var t := Links();
      if c != null { ChildApart(t, n, c, p, false, b); }
      EraseOuter(t, n, bh, c, p, false, b, o);
      ghost var bh' := LiftedHeights(bh[o := bh[o] + 1], p, b, bh[b]);
      OuterLiftable(t, n, p, b, true, o);
      SetRed(o, false);
      LiftLeft(p, b, false, p.isRed, n);
      bh := bh';
      hide LiftedHeights;
    }

    /** Cases 2 to 4 of BalanceErase, child on the right; the search stops, or goes on with the parent as the child. */
    method FinishRight(c: Node?, p: Node, b: Node, ghost n: nat) returns (stop: bool)
      requires BlackBrother(Links(), n, bh, c, p, false, b)
      modifies this`root, this`span, this`bh, nodes`parent, nodes`left, nodes`right, nodes`isRed
      ensures c != null ==> c in nodes && c.isRed == old(c.isRed)
      ensures SamePlaces(old(span), span)
      ensures stop ==> Linked(Links(), n) && RedBlack(Links(), bh)
      ensures !stop ==> !old(p.isRed) && Short(Links(), n, bh, p, p.parent, SideOf(Links(), p.parent, p))
      ensures !stop ==> Size(Links(), p) > old(Size(Links(), c)) && (p.parent != null ==> p.parent in nodes)
    {
      hide Linked, Coloured, SamePlaces, Recoloured, OrderedMap.Links;
      if c != null { ChildApart(Links(), n, c, p, false, b); }
      BrotherKids(n, p, b, true);
      if !(b.left != null && b.left.isRed) && !(b.right != null && b.right.isRed) {
        SamePlacesRefl(span);
        stop := Nephews(c, p, b, false, n);
      } else {
        var brother := b;
        if !(b.left != null && b.left.isRed) {
          brother := InnerRight(c, p, b, n);
        } else {
          SamePlacesRefl(span);
        }
        ghost var between := span;
        OuterRight(c, p, brother, n);
        SamePlacesTrans(old(span), between, span);
        stop := true;
      }
    }

    /** One round of BalanceErase, child on the right. */
    method RoundRight(c: Node?, p: Node, ghost n: nat) returns (stop: bool)
      requires p in nodes && Short(Links(), n, bh, c, p, false) && c != root && !IsRed(Links(), c)
      modifies this`root, this`span, this`bh, nodes`parent, nodes`left, nodes`right, nodes`isRed
      ensures c != null ==> c in nodes && c.isRed == old(c.isRed)
      ensures SamePlaces(old(span), span)
      ensures stop ==> Linked(Links(), n) && RedBlack(Links(), bh)
      ensures !stop ==> Short(Links(), n, bh, p, p.parent, SideOf(Links(), p.parent, p))
      ensures !stop ==> Size(Links(), p) > old(Size(Links(), c)) && (p.parent != null ==> p.parent in nodes)
    {
      hide Linked, Coloured, SamePlaces, Recoloured, Lifted, OrderedMap.Links;
      Brother(Links(), n, bh, c, p, false);
      At(p);
      var brother: Node := p.left;
      At(brother);
      if c != null { ChildApart(Links(), n, c, p, false, brother); }
      if brother.isRed {
        brother := RedBrotherRight(c, p, brother, n);
      } else {
        SamePlacesRefl(span);
      }
      ghost var between := span;
      stop := FinishRight(c, p, brother, n);
      SamePlacesTrans(old(span), between, span);
    }

    /** Case 1 of BalanceErase, child on the right. */
    method RedBrotherRight(c: Node?, p: Node, b: Node, ghost n: nat) returns (brother: Node)
      requires p in nodes && b in nodes && Short(Links(), n, bh, c, p, false) && c != root && !IsRed(Links(), c)
      requires p.left == b && b.isRed && (c != null ==> c in nodes && c != p && c != b)
      modifies this`root, this`span, this`bh, nodes`parent, nodes`left, nodes`right, p`isRed, b`isRed
      ensures BlackBrother(Links(), n, bh, c, p, false, brother) && SamePlaces(old(span), span) && p.isRed
    {
      hide Linked, Coloured, SamePlaces, Recoloured, Lifted, OrderedMap.Links;
      At(p);
      At(b);
      EraseRedBrother(Links(), n, bh, c, p, false, b);
      ghost var bh' := LiftedHeights(bh, p, b, bh[p] - 1);
      hide LiftedHeights;
      LiftLeft(p, b, true, false, n);
      bh := bh';
      At(p);
      brother := NewBrotherRight(c, p, n);
    }

    method NewBrotherRight(c: Node?, p: Node, ghost n: nat) returns (brother: Node)
      requires p in nodes && Short(Links(), n, bh, c, p, false) && c != root && !IsRed(Links(), c)
               && !IsRed(Links(), p.left)
      ensures BlackBrother(Links(), n, bh, c, p, false, brother)
    {
      hide Linked, Coloured, Short, OrderedMap.Links;
      Brother(Links(), n, bh, c, p, false);
      At(p);
      brother := p.left;
      At(brother);
    }

    /** Repairs a subtree that is one black node short. */
    method BalanceErase(child0: Node?, parent0: Node?, ghost s0: bool)
      requires Short(Links(), |order|, bh, child0, parent0, s0) && InOrder(Links(), order)
      requires (child0 != null ==> child0 in nodes) && (parent0 != null ==> parent0 in nodes)
      modifies this`root, this`span, this`bh, nodes`parent, nodes`left, nodes`right, nodes`isRed
      ensures Linked(Links(), |order|) && RedBlack(Links(), bh) && InOrder(Links(), order)
    {
      hide Linked, Coloured, SamePlaces, InOrder, OrderedMap.Links;
      var child, parent := child0, parent0;
      ghost var n, s, done := |order|, s0, false;
      while child != root && !(child != null && child.isRed)
        invariant (child != null ==> child in nodes) && (parent != null ==> parent in nodes)
        invariant Short(Links(), n, bh, child, parent, s) && InOrder(Links(), order)
        decreases n - Size(Links(), child)
      {
        ghost var t := Links();
        if child != null { At(child); }
        Brother(t, n, bh, child, parent, s);
        ShortSize(t, n, bh, child, parent, s);
        At(parent);
        var stop: bool;
        if child == parent.left {
          stop := RoundLeft(child, parent, n);
        } else {
          stop := RoundRight(child, parent, n);
        }
        SamePlacesOrder(t, Links(), order);
        if stop {
          done := true;
          break;
        }
        child := parent;
        parent := child.parent;
        s := SideOf(Links(), parent, child);
      }
      if child != null {
        EraseEnd(child, parent, s, n, done);
      } else if !done {
        EraseBlacken(Links(), n, bh, child, parent, s);
      }
    }

    /** The last statement of BalanceErase. */
    method EraseEnd(child: Node, ghost parent: Node?, ghost s: bool, ghost n: nat, ghost done: bool)
      requires child in nodes && InOrder(Links(), order)
      requires done ==> Linked(Links(), n) && RedBlack(Links(), bh) && !child.isRed
      requires !done ==> Short(Links(), n, bh, child, parent, s) && (child == root || child.isRed)
      modifies this`bh, child`isRed
      ensures Linked(Links(), n) && RedBlack(Links(), bh) && InOrder(Links(), order)
    {
      hide Linked, Coloured, InOrder, OrderedMap.Links;
      ghost var t := Links();
      At(child);
      if done {
        assert Recoloured(t, child, false) == t by { assert t.rec[child := t.rec[child].(red := false)] == t.rec; }
      } else {
        EraseBlacken(t, n, bh, child, parent, s);
        bh := BlackenedHeights(t, bh, child);
      }
      SetRed(child, false);
      SamePlacesOrder(t, Links(), order);
    }

    /** The node whose links Remove gives up: the one to erase or, if that has two children, its successor. */
    method Successor(node: Node) returns (remove: Node)
      requires node in nodes && Linked(Links(), |order|) && InOrder(Links(), order)
      ensures remove in nodes && Spliceable(Links(), order, remove) && node in span && remove in span
      ensures remove != node ==> span[remove].pos == span[node].pos + 1
    {
      hide Linked, InOrder, OrderedMap.Links;
      At(node);
      LeftmostOfRight(Links(), |order|, node);
      if node.left == null || node.right == null {
        remove := node;
      } else {
        remove := node.right;
        At(remove);
        while remove.left != null
          invariant remove in nodes && span[remove].lo == span[node].pos + 1
          decreases Size(Links(), remove)
        {
          At(remove);
          LeftmostOfRight(Links(), |order|, remove);
          remove := remove.left;
        }
        At(remove);
        LeftmostOfRight(Links(), |order|, remove);
      }
    }

    /** The first half of Remove: `remove` is spliced out and the tree rebalanced. */
    method Detach(remove: Node)
      requires remove in nodes && Spliceable(Links(), order, remove) && RedBlack(Links(), bh) && remove in span
      modifies this`root, this`nodes, this`order, this`span, this`bh, nodes`parent, nodes`left, nodes`right, nodes`isRed
      ensures 0 <= old(span[remove].pos) < |old(order)| && order == Without(old(order), old(span[remove].pos))
      ensures nodes == old(nodes) - {remove}
      ensures Linked(Links(), |order|) && RedBlack(Links(), bh) && InOrder(Links(), order)
    {
      hide Linked, Coloured, InOrder, Spliced, OrderedMap.Links;
      ghost var t, j := Links(), span[remove].pos;
      At(remove);
      SplicedShort(t, order, bh, remove);
      SplicedLinked(t, order, remove);
      ghost var s := SideOf(t, remove.parent, remove);
      var child := SpliceOut(remove);
      order, bh := Without(order, j), bh - {remove};
      if !remove.isRed {
        BalanceErase(child, remove.parent, s);
      }
    }

    /** The second half of Remove: the detached node takes the place of `node`. */
    method Substitute(node: Node, remove: Node, ghost j: nat)
      requires node in nodes && remove !in nodes && j < |order| && order[j] == node
      requires Linked(Links(), |order|) && RedBlack(Links(), bh) && InOrder(Links(), order)
      modifies this`root, this`nodes, this`order, this`span, this`bh
      modifies nodes`parent, nodes`left, nodes`right, remove`parent, remove`left, remove`right, remove`isRed
      ensures nodes == old(nodes) + {remove} - {node} && order == old(order)[j := remove]
      ensures Linked(Links(), |order|) && RedBlack(Links(), bh) && InOrder(Links(), order)
    {
      hide Linked, Coloured, InOrder, Replaced, OrderedMap.Links;
      AtIndex(Links(), order, j);
      LinkedNode(Links(), |order|, node);
      hide NodeLinked;
      ReplacedLinked(Links(), order, node, remove);
      ReplacedColoured(Links(), |order|, bh, node, remove);
      ghost var bh' := ReplacedHeights(bh, node, remove);
      TakePlace(node, remove, |order|);
      order, bh := order[j := remove], bh';
    }

    /** Takes a node out of the tree and hands it back. */
    method Remove(cursor: Node?) returns (r: Node?)
      requires Valid() && (cursor != null ==> cursor in nodes)
      modifies this`root, this`count, this`nodes, this`order, this`span, this`bh, nodes`parent, nodes`left, nodes`right,
               nodes`isRed
      ensures Valid() && r == cursor
      ensures cursor == null ==> nodes == old(nodes) && order == old(order)
      ensures cursor != null ==>
                && nodes == old(nodes) - {cursor} && cursor in old(span) && 0 <= old(span[cursor].pos) < |old(order)|
                && var j := old(span[cursor].pos);
                   old(order)[j] == cursor && order == old(order)[..j] + old(order)[j + 1..]
    {
      hide Linked, Coloured, InOrder, SortedKeys, KeyOrder, Without, OrderedMap.Links;
      if cursor == null { return null; }
      var node: Node := cursor;
      var remove := Successor(node);
      ghost var order0, j := order, span[node].pos;
      OnePlaceKey(Links(), order, node);
      OnePlaceKey(Links(), order, remove);
      WithoutSorted(lt, order, j);
      Detach(remove);
      if remove != node {
        WithoutNext(order0, j);
        Substitute(node, remove, j);
      }
      count := count - 1;
      WithoutMeaning(order0, j);
      return node;
    }

    /**
     Looks for the key, going down from the root; `visits` counts the nodes looked
     at. Of several nodes with the key the topmost is found: all of them are below it.
     */
    method MoveTo(key: Key) returns (found: bool, out: Node?, ghost visits: nat)
      requires Valid()
      ensures found <==> exists k {:trigger order[k]} :: 0 <= k < |order| && order[k].key == key
      ensures if found then out != null && out in nodes && out.key == key else out == null
      ensures found ==>
                && out in span
                && forall k {:trigger order[k]} ::
                  0 <= k < |order| && order[k].key == key ==> span[out].lo <= k < span[out].hi
      ensures visits <= 2 * Log2(count + 1)
    {
      hide Linked, Coloured, InOrder, SortedKeys, KeyOrder, Reach, OrderedMap.Links;
      ghost var t, n := Links(), |order|;
      ConfinedStart(t, order, key);
      ReachBound(t, n, bh);
      visits := 0;
      var p := root;
      if p != null { RootSpan(t, n); }
      while p != null
        invariant p != null ==> p in nodes
        invariant Confined(t, order, key, p) && visits + Reach(t, bh, p) <= 2 * Log2(n + 1)
        decreases if p == null then 0 else 1 + Reach(t, bh, p)
      {
        At(p);
        visits := visits + 1;
        OnePlaceKey(t, order, p);
        KidParent(t, n, p);
        ReachDown(t, n, bh, p, lt(key, p.key));
        if p.key != key { ConfinedStep(t, order, lt, key, p); }
        if lt(key, p.key) {
          KeyDiffers(lt, key, p.key);
          p := p.left;
        } else if key == p.key {
          return true, p, visits;
        } else {
          p := p.right;
        }
      }
      return false, null, visits;
    }

    /** The first node in key order, if there is any. */
    method MoveFirst() returns (ok: bool, out: Node?)
      requires Valid()
      ensures ok <==> |order| > 0
      ensures out == if ok then order[0] else null
    {
      hide Linked, Coloured, InOrder, SortedKeys, KeyOrder, OrderedMap.Links;
      ghost var t, n := Links(), |order|;
      if root == null {
        EmptyTree(t, n);
        return false, null;
      }
      RootSpan(t, n);
      var p: Node := root;
      At(p);
      LeftmostOfRight(t, n, p);
      while p.left != null
        invariant p in nodes && span[p].lo == 0
        decreases Size(t, p)
      {
        At(p);
        LeftmostOfRight(t, n, p);
        p := p.left;
      }
      At(p);
      LeftmostOfRight(t, n, p);
      OnePlaceKey(t, order, p);
      return true, p;
    }

    /** The last node in key order, if there is any. */
    method MoveLast() returns (ok: bool, out: Node?)
      requires Valid()
      ensures ok <==> |order| > 0
      ensures out == if ok then order[|order| - 1] else null
    {
      hide Linked, Coloured, InOrder, SortedKeys, KeyOrder, OrderedMap.Links;
      ghost var t, n := Links(), |order|;
      if root == null {
        EmptyTree(t, n);
        return false, null;
      }
      RootSpan(t, n);
      var p: Node := root;
      At(p);
      RightmostOfLeft(t, n, p);
      while p.right != null
        invariant p in nodes && span[p].hi == n
        decreases Size(t, p)
      {
        At(p);
        RightmostOfLeft(t, n, p);
        p := p.right;
      }
      At(p);
      RightmostOfLeft(t, n, p);
      OnePlaceKey(t, order, p);
      return true, p;
    }

    /** The node behind the cursor in key order, if there is any. */
    method MoveNext(cursor0: Node?) returns (ok: bool, out: Node?)
      requires Valid() && (cursor0 != null ==> cursor0 in nodes)
      ensures cursor0 == null ==> !ok && out == null
      ensures cursor0 != null ==>
                && cursor0 in span && 0 <= span[cursor0].pos < |order| && order[span[cursor0].pos] == cursor0
                && var j := span[cursor0].pos;
                   (ok <==> j + 1 < |order|) && out == (if ok then order[j + 1] else null)
    {
      hide Linked, Coloured, InOrder, SortedKeys, KeyOrder, OrderedMap.Links;
      if cursor0 == null { return false, null; }
      var cursor: Node := cursor0;
      ghost var t, n := Links(), |order|;
      At(cursor);
      OnePlaceKey(t, order, cursor);
      ghost var j := span[cursor].pos;
      LeftmostOfRight(t, n, cursor);
      RightmostOfLeft(t, n, cursor);
      if cursor.right == null {
        Climb(t, n, cursor);
        while cursor.parent != null && cursor.parent.right == cursor
          invariant cursor in nodes && span[cursor].hi == j + 1
          invariant cursor.parent != null ==> cursor.parent in nodes
          decreases n - Size(t, cursor)
        {
          At(cursor);
          At(cursor.parent);
          Climb(t, n, cursor);
          Climb(t, n, cursor.parent);
          cursor := cursor.parent;
          At(cursor);
        }
        At(cursor);
        Climb(t, n, cursor);
        out := cursor.parent;
        if out == null { return false, null; }
        At(out);
        OnePlaceKey(t, order, out);
        return true, out;
      }
      cursor := cursor.right;
      At(cursor);
      while cursor.left != null
        invariant cursor in nodes && span[cursor].lo == j + 1
        decreases Size(t, cursor)
      {
        At(cursor);
        LeftmostOfRight(t, n, cursor);
        cursor := cursor.left;
      }
      At(cursor);
      LeftmostOfRight(t, n, cursor);
      OnePlaceKey(t, order, cursor);
      return true, cursor;
    }

    /** The node before the cursor in key order, if there is any. */
    method MovePrev(cursor0: Node?) returns (ok: bool, out: Node?)
      requires Valid() && (cursor0 != null ==> cursor0 in nodes)
      ensures cursor0 == null ==> !ok && out == null
      ensures cursor0 != null ==>
                && cursor0 in span && 0 <= span[cursor0].pos < |order| && order[span[cursor0].pos] == cursor0
                && var j := span[cursor0].pos;
                   (ok <==> j > 0) && out == (if ok then order[j - 1] else null)
    {
      hide Linked, Coloured, InOrder, SortedKeys, KeyOrder, OrderedMap.Links;
      if cursor0 == null { return false, null; }
      var cursor: Node := cursor0;
      ghost var t, n := Links(), |order|;
      At(cursor);
      OnePlaceKey(t, order, cursor);
      ghost var j := span[cursor].pos;
      RightmostOfLeft(t, n, cursor);
      LeftmostOfRight(t, n, cursor);
      if cursor.left == null {
        Climb(t, n, cursor);
        while cursor.parent != null && cursor.parent.left == cursor
          invariant cursor in nodes && span[cursor].lo == j
          invariant cursor.parent != null ==> cursor.parent in nodes
          decreases n - Size(t, cursor)
        {
          At(cursor);
          At(cursor.parent);
          Climb(t, n, cursor);
          Climb(t, n, cursor.parent);
          cursor := cursor.parent;
          At(cursor);
        }
        At(cursor);
        Climb(t, n, cursor);
        out := cursor.parent;
        if out == null { return false, null; }
        At(out);
        OnePlaceKey(t, order, out);
        return true, out;
      }
      cursor := cursor.left;
      At(cursor);
      while cursor.right != null
        invariant cursor in nodes && span[cursor].hi == j
        decreases Size(t, cursor)
      {
        At(cursor);
        RightmostOfLeft(t, n, cursor);
        cursor := cursor.right;
      }
      At(cursor);
      RightmostOfLeft(t, n, cursor);
      OnePlaceKey(t, order, cursor);
      return true, cursor;
    }

    /**
     The debugging check, on any tree, coloured well or not: -1 exactly when the
     paths from the node down differ in their number of black nodes, or when the
     whole tree is asked about and its root is red; else that number.
     */
    method CheckIntegrity(node0: Node?) returns (r: int)
      requires Linked(Links(), |order|) && (node0 != null ==> node0 in nodes)
      ensures node0 == null && IsRed(Links(), root) ==> r == -1
      ensures !(node0 == null && IsRed(Links(), root)) ==> Checked(Links(), if node0 == null then root else node0, r)
      ensures Valid() ==> r == Height(bh, if node0 == null then root else node0) >= 0
      decreases Size(Links(), if node0 == null then root else node0)
    {
      hide Linked, Coloured, InOrder, SortedKeys, KeyOrder, Checked, OrderedMap.Links;
      ghost var t, n := Links(), |order|;
      var node: Node;
      if node0 == null {
        if root == null {
          EmptyChecked(t);
          return 0;
        }
        RootSpan(t, n);
        At(root);
        if Valid() { RootBlack(t, n, bh); }
        if root.isRed { return -1; }
        node := root;
      } else {
        node := node0;
      }
      At(node);
      KidSizes(t, n, node);
      KidParent(t, n, node);
      EmptyChecked(t);
      var left, right := 0, 0;
      if node.left != null { left := CheckIntegrity(node.left); }
      if node.right != null { right := CheckIntegrity(node.right); }
      CheckNode(t, n, node, left, right);
      if left != right || left == -1 {
        r := -1;
      } else if !node.isRed {
        r := left + 1;
      } else {
        r := left;
      }
      if Valid() { CheckedHeight(t, n, bh, node, r); }
    }

    /** Deletes the nodes below and at p, children first; `freed` are the deleted ones. */
    method EraseBelow(p: Node?) returns (r: int, ghost freed: set<Node>)
      requires Linked(Links(), |order|) && InOrder(Links(), order) && (p != null ==> p in nodes)
      modifies this`count
      ensures r == if p == null then -1 else 0
      ensures count == old(count) - |freed|
      ensures p == null ==> freed == {}
      ensures p != null ==> p in span && freed == Part(Links(), p)
      decreases Size(Links(), p)
    {
      hide Linked, InOrder, OrderedMap.Links;
      if p == null { return -1, {}; }
      ghost var t, n := Links(), |order|;
      At(p);
      KidSizes(t, n, p);
      KidParent(t, n, p);
      var rl, fl := EraseBelow(p.left);
      var rr, fr := EraseBelow(p.right);
      PartSplits(t, order, p);
      freed := fl + fr + {p};
      count := count - 1;
      return 0, freed;
    }

    /** Empties the tree: every node is deleted exactly once. */
    method EraseAll()
      requires Valid()
      modifies this`root, this`count, this`nodes, this`order, this`span, this`bh
      ensures Valid() && order == [] && nodes == {} && count == 0
    {
      hide Linked, Coloured, InOrder, SortedKeys, KeyOrder, OrderedMap.Links;
      if root != null { RootSpan(Links(), |order|); PartAll(Links(), order); } else { EmptyTree(Links(), |order|); }
      var r, freed := EraseBelow(root);
      root := null;
      nodes, order, span, bh := {}, [], map[], map[];
      EmptyValid(lt);
    }

    /** The keys and values, in order. */
    ghost function Entries(): (s: seq<(Key, Value)>)
      reads this, order
      ensures |s| == |order| && forall k :: 0 <= k < |s| ==> s[k] == (order[k].key, order[k].value)
    {
      seq(|order|, i requires 0 <= i < |order| reads this, order => (order[i].key, order[i].value))
    }

    /** Insert of a key and a value: equal keys are let in, the new entry standing behind the old ones. */
    method InsertPair(key: Key, value: Value) returns (r: int)
      requires Valid()
      modifies this`root, this`count, this`nodes, this`order, this`span, this`bh
      modifies nodes`parent, nodes`left, nodes`right, nodes`isRed
      ensures Valid() && r == 0 && fresh(nodes - old(nodes))
      ensures Entries() == Apply(lt, old(Entries()), Add(key, value))
      ensures exists i ::
                && 0 <= i <= |old(Entries())|
                && Entries() == old(Entries())[..i] + [(key, value)] + old(Entries())[i..]
                && (forall k :: 0 <= k < i ==> !lt(key, old(Entries())[k].0))
                && (forall k :: i <= k < |old(Entries())| ==> lt(key, old(Entries())[k].0))
    {
      hide Linked, Coloured, InOrder, SortedKeys, KeyOrder, Place, OrderedMap.Links, OrderedMap.Valid;
      var nnode := new Node(key, value);
      ghost var before := Entries();
      ghost var i := Place(lt, KeysOf(order), key);
      assert EntryKeys(before) == KeysOf(order);
      OrderAllocated();
      r := Insert(nnode);
      assert Entries() == before[..i] + [(key, value)] + before[i..];
    }

    lemma OrderAllocated()
      requires Valid()
      ensures forall k :: 0 <= k < |order| ==> order[k] in nodes
    {}

    /** Erase: the node is taken out and given up. */
    method Erase(cursor: Node?)
      requires Valid() && (cursor != null ==> cursor in nodes)
      modifies this`root, this`count, this`nodes, this`order, this`span, this`bh, nodes`parent, nodes`left, nodes`right,
               nodes`isRed
      ensures Valid() && nodes == old(nodes) - {cursor}
      ensures cursor == null ==> order == old(order)
      ensures cursor != null ==>
                && cursor in old(span) && 0 <= old(span[cursor].pos) < |old(order)|
                && var j := old(span[cursor].pos);
                   old(order)[j] == cursor && order == old(order)[..j] + old(order)[j + 1..]
    {
      hide OrderedMap.Valid;
      var node := Remove(cursor);
      assert node == cursor;
    }

    /** Erases the k-th entry, found by walking a cursor from the first node; past the end it does nothing. */
    method EraseAt(k: nat)
      requires Valid()
      modifies this`root, this`count, this`nodes, this`order, this`span, this`bh, nodes`parent, nodes`left, nodes`right,
               nodes`isRed
      ensures Valid() && nodes <= old(nodes)
      ensures Entries() == Apply(lt, old(Entries()), EraseNth(k))
      ensures k < |old(Entries())| ==> Entries() == old(Entries())[..k] + old(Entries())[k + 1..]
      ensures k >= |old(Entries())| ==> Entries() == old(Entries())
    {
      hide OrderedMap.Valid;
      OrderAllocated();
      var ok, cursor := MoveFirst();
      var j := 0;
      while j < k && cursor != null
        invariant j <= k && (cursor != null ==> j < |order| && cursor == order[j] && cursor in nodes)
        invariant cursor == null ==> j >= |order|
        modifies {}
      {
        PlaceOf(j);
        ok, cursor := MoveNext(cursor);
        j := j + 1;
      }
      ghost var before := Entries();
      if cursor != null { PlaceOf(j); }
      Erase(cursor);
      assert Entries() == Apply(lt, before, EraseNth(k));
    }

    lemma PlaceOf(k: nat)
      requires Valid() && k < |order|
      ensures order[k] in span && span[order[k]].pos == k
    {
      AtIndex(Links(), order, k);
    }
  }

  /** MoveFirst and then MoveNext visit every node once, in order; `backs` is where MovePrev led from each next node. */
  method Walk(m: OrderedMap) returns (visited: seq<Node>, backs: seq<Node?>)
    requires m.Valid()
    ensures visited == m.order
    ensures forall i, j :: 0 <= i < j < |visited| ==> visited[i] != visited[j] && !m.lt(visited[j].key, visited[i].key)
    ensures |backs| == if visited == [] then 0 else |visited| - 1
    ensures forall i :: 0 <= i < |backs| ==> backs[i] == visited[i]
  {
    hide OrderedMap.Valid;
    m.OrderAllocated();
    visited, backs := [], [];
    var ok, cursor := m.MoveFirst();
    while cursor != null
      invariant |visited| <= |m.order| && visited == m.order[..|visited|]
      invariant cursor == if |visited| < |m.order| then m.order[|visited|] else null
      invariant |backs| == if cursor == null && visited != [] then |visited| - 1 else |visited|
      invariant forall i :: 0 <= i < |backs| ==> backs[i] == visited[i]
      decreases |m.order| - |visited|
    {
      m.PlaceOf(|visited|);
      visited := visited + [cursor];
      ok, cursor := m.MoveNext(cursor);
      if cursor != null {
        m.PlaceOf(|visited|);
        var there, back := m.MovePrev(cursor);
        backs := backs + [back];
      }
    }
    OrderDistinct(m);
  }

  /** No child of x is red if x is. */
  lemma RedAbove(t: Tree, bh: map<Node, nat>, x: Node)
    requires RedBlack(t, bh) && x in t.rec && t.rec[x].red
    ensures forall y :: y in t.rec && t.rec[y].parent == x ==> !t.rec[y].red
  {
    forall y | y in t.rec && t.rec[y].parent == x ensures !t.rec[y].red { assert RedOk(t, y); }
  }

  lemma OrderDistinct(m: OrderedMap)
    requires m.Valid()
    ensures forall i, j :: 0 <= i < j < |m.order| ==> m.order[i] != m.order[j] && !m.lt(m.order[j].key, m.order[i].key)
  {
    hide Linked, RedBlack, OrderedMap.Links;
    forall i, j | 0 <= i < j < |m.order| ensures m.order[i] != m.order[j] && !m.lt(m.order[j].key, m.order[i].key) {
      AtIndex(m.Links(), m.order, i);
      AtIndex(m.Links(), m.order, j);
      assert KeysOf(m.order)[i] == m.order[i].key && KeysOf(m.order)[j] == m.order[j].key;
    }
  }

  /** What a map of sorted entries is asked to do. */
  datatype Op = Add(key: Key, value: Value) | EraseNth(k: nat) | Clear

  ghost function EntryKeys(s: seq<(Key, Value)>): (r: seq<Key>)
    ensures |r| == |s| && forall i :: 0 <= i < |s| ==> r[i] == s[i].0
  {
    seq(|s|, i requires 0 <= i < |s| => s[i].0)
  }

  /** The meaning of the operations: a new entry goes behind all entries with a key that is not greater. */
  ghost function Apply(lt: (Key, Key) -> bool, s: seq<(Key, Value)>, op: Op): seq<(Key, Value)> {
    match op
    case Add(key, value) =>
      var i := Place(lt, EntryKeys(s), key);
      if i <= |s| then s[..i] + [(key, value)] + s[i..] else s
    case EraseNth(k) => if k < |s| then s[..k] + s[k + 1..] else s
    case Clear => []
  }

  ghost function ApplyAll(lt: (Key, Key) -> bool, s: seq<(Key, Value)>, ops: seq<Op>): seq<(Key, Value)> {
    if ops == [] then s else Apply(lt, ApplyAll(lt, s, ops[..|ops| - 1]), ops[|ops| - 1])
  }

  /** Any run of operations keeps the tree a red-black tree with the entries the operations mean. */
  method Run(m: OrderedMap, ops: seq<Op>)
    requires m.Valid()
    modifies m, m.nodes
    ensures m.Valid() && m.Entries() == ApplyAll(m.lt, old(m.Entries()), ops)
  {
    hide OrderedMap.Valid, Apply;
    for i := 0 to |ops|
      invariant m.Valid() && m.Entries() == ApplyAll(m.lt, old(m.Entries()), ops[..i])
      invariant fresh(m.nodes - old(m.nodes))
    {
      assert ops[..i + 1][..i] == ops[..i];
      match ops[i] {
        case Add(key, value) => var r := m.InsertPair(key, value);
        case EraseNth(k) => m.EraseAt(k);
        case Clear =>
          m.EraseAll();
          ApplyClear(m.lt, ApplyAll(m.lt, old(m.Entries()), ops[..i]));
      }
    }
    assert ops[..|ops|] == ops;
  }

  /**
   What one more Add does to the entries of a run: nothing is lost, and the new
   entry goes behind those not greater.
   */
  lemma LastAdds(lt: (Key, Key) -> bool, s: seq<(Key, Value)>, ops: seq<Op>, key: Key, value: Value) returns (i: nat)
    requires KeyOrder(lt) && SortedKeys(lt, EntryKeys(s))
    ensures var before, after := ApplyAll(lt, s, ops), ApplyAll(lt, s, ops + [Add(key, value)]);
            && i <= |before| && after == before[..i] + [(key, value)] + before[i..]
            && (forall k :: 0 <= k < i ==> !lt(key, before[k].0))
            && (forall k :: i <= k < |before| ==> lt(key, before[k].0))
  {
    ApplyAllSorted(lt, s, ops);
    assert (ops + [Add(key, value)])[..|ops|] == ops;
    var keys := EntryKeys(ApplyAll(lt, s, ops));
    PlaceSplits(lt, keys, key);
    i := Place(lt, keys, key);
  }

  /** What one more erasure takes away; a run of no operations changes nothing. */
  lemma LastErases(lt: (Key, Key) -> bool, s: seq<(Key, Value)>, ops: seq<Op>, k: nat)
    ensures ApplyAll(lt, s, []) == s
    ensures var before := ApplyAll(lt, s, ops);
            ApplyAll(lt, s, ops + [EraseNth(k)]) == if k < |before| then before[..k] + before[k + 1..] else before
    ensures ApplyAll(lt, s, ops + [Clear]) == []
  {
    assert (ops + [EraseNth(k)])[..|ops|] == ops;
  }

  /** The values stored under a key, in order. */
  ghost function ValuesOf(s: seq<(Key, Value)>, key: Key): seq<Value> {
    if s == [] then []
    else ValuesOf(s[..|s| - 1], key) + (if s[|s| - 1].0 == key then [s[|s| - 1].1] else [])
  }

  lemma {:induction false} ValuesOfSum(a: seq<(Key, Value)>, b: seq<(Key, Value)>, key: Key)
    ensures ValuesOf(a + b, key) == ValuesOf(a, key) + ValuesOf(b, key)
  {
    if b == [] {
      assert a + b == a;
    } else {
      ValuesOfSum(a, b[..|b| - 1], key);
      assert (a + b)[..|a + b| - 1] == a + b[..|b| - 1];
    }
  }

  lemma {:induction false} NoValues(s: seq<(Key, Value)>, key: Key)
    requires forall k :: 0 <= k < |s| ==> s[k].0 != key
    ensures ValuesOf(s, key) == []
  {
    if s != [] { NoValues(s[..|s| - 1], key); }
  }

  /** Adding an entry puts its value behind the values of its key and leaves those of all other keys alone. */
  lemma AddedValues(lt: (Key, Key) -> bool, s: seq<(Key, Value)>, ops: seq<Op>, key: Key, value: Value, key': Key)
    requires KeyOrder(lt) && SortedKeys(lt, EntryKeys(s))
    ensures ValuesOf(ApplyAll(lt, s, ops + [Add(key, value)]), key')
            == ValuesOf(ApplyAll(lt, s, ops), key') + (if key' == key then [value] else [])
  {
    hide *;
    var before := ApplyAll(lt, s, ops);
    var i := LastAdds(lt, s, ops, key, value);
    PutValues(lt, before[..i], before[i..], key, value, key');
    assert before[..i] + before[i..] == before;
  }

  lemma PutValues(lt: (Key, Key) -> bool, a: seq<(Key, Value)>, b: seq<(Key, Value)>, key: Key, value: Value, key': Key)
    requires KeyOrder(lt) && forall k :: 0 <= k < |b| ==> lt(key, b[k].0)
    ensures ValuesOf(a + [(key, value)] + b, key')
            == ValuesOf(a + b, key') + (if key' == key then [value] else [])
  {
    ValuesOfSum(a, [(key, value)], key');
    ValuesOfSum(a + [(key, value)], b, key');
    ValuesOfSum(a, b, key');
    if key' == key { NoValues(b, key); }
  }

  lemma ApplyClear(lt: (Key, Key) -> bool, s: seq<(Key, Value)>)
    ensures Apply(lt, s, Clear) == []
  {}

  /** The specification keeps the entries sorted. */
  lemma {:induction false} ApplyAllSorted(lt: (Key, Key) -> bool, s: seq<(Key, Value)>, ops: seq<Op>)
    requires KeyOrder(lt) && SortedKeys(lt, EntryKeys(s))
    ensures SortedKeys(lt, EntryKeys(ApplyAll(lt, s, ops)))
  {
    if ops == [] {
    } else {
      ApplyAllSorted(lt, s, ops[..|ops| - 1]);
      var before, op := ApplyAll(lt, s, ops[..|ops| - 1]), ops[|ops| - 1];
      var keys := EntryKeys(before);
      match op {
        case Add(key, value) =>
          PlaceSplits(lt, keys, key);
          var i := Place(lt, keys, key);
          SplitSorted(lt, keys, key, i);
          assert EntryKeys(Apply(lt, before, op)) == keys[..i] + [key] + keys[i..];
        case EraseNth(k) =>
          if k < |before| {
            DropSorted(lt, keys, k);
            assert EntryKeys(Apply(lt, before, op)) == keys[..k] + keys[k + 1..];
          }
        case Clear =>
      }
    }
  }
}
