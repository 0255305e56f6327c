/** Which case of BalanceErase follows a red brother. */
module TreeExamples {
  import opened TreeShape
  import opened TreeColours
  import opened TreeInsert
  import opened TreeErase

  /** BalanceErase's test for case 2: neither child of the brother is red. */
  ghost predicate BlackNephews(t: Tree, b: Node)
    requires b in t.rec
  {
    !IsRed(t, t.rec[b].left) && !IsRed(t, t.rec[b].right)
  }

  /**
   After case 1 the new brother is the old one's child on the short side, with
   its children and their colours. The parent is red, so case 2 is case 2b: it
   follows if and only if that child has no red child of its own.
   */
  lemma RedBrotherCase(t: Tree, n: nat, bh: map<Node, nat>, c: Node?, p: Node, s: bool, b: Node)
    requires Short(t, n, bh, c, p, s) && c != t.root && !IsRed(t, c)
    requires Kid(t.rec[p], !s) == b && b in t.rec && t.rec[b].red
    ensures b != p && t.span.Keys == t.rec.Keys
    ensures var i, t' := Kid(t.rec[b], s), Lifted(t, p, b, !s, true, false);
            && i != null && i in t.rec && i in t'.rec && p in t'.rec && t'.rec[p].red && Kid(t'.rec[p], !s) == i
            && (BlackNephews(t', i) <==> BlackNephews(t, i))
  {
    hide Linked, Lifted;
    EraseRedBrother(t, n, bh, c, p, s, b);
    Brother(t, n, bh, c, p, s);
    assert BlackOk(t, bh, b, p, s);
    hide Coloured, BlackOk;
    KidParent(t, n, b);
    var i: Node := Kid(t.rec[b], s);
    KidParent(t, n, i);
    LiftedRec(t, n, p, b, !s, true, false, i);
    if t.rec[i].left != null { LiftedRec(t, n, p, b, !s, true, false, t.rec[i].left); }
    if t.rec[i].right != null { LiftedRec(t, n, p, b, !s, true, false, t.rec[i].right); }
  }

  /** Six nodes, all different. */
  ghost predicate Different(order: seq<Node>) { |order| == 6 && forall i, j :: 0 <= i < j < 6 ==> order[i] != order[j] }

  /**
   A red-black tree of six nodes, numbered in order: black root 1, its left child
   0 a black leaf, its right child 4 red with black children 3 and 5, and 2 a red
   leaf below 3.
   */
  ghost function Example(order: seq<Node>): Tree
    requires Different(order)
  {
    Tree(map[order[0] := Rec(order[1], null, null, false), order[1] := Rec(null, order[0], order[4], false),
             order[2] := Rec(order[3], null, null, true), order[3] := Rec(order[4], order[2], null, false),
             order[4] := Rec(order[1], order[3], order[5], true), order[5] := Rec(order[4], null, null, false)],
         order[1],
         map[order[0] := Span(0, 0, 1), order[1] := Span(0, 1, 6), order[2] := Span(2, 2, 3),
             order[3] := Span(2, 3, 4), order[4] := Span(2, 4, 6), order[5] := Span(5, 5, 6)])
  }

  ghost function ExampleHeights(order: seq<Node>): map<Node, nat>
    requires Different(order)
  {
    map[order[0] := 1, order[1] := 2, order[2] := 0, order[3] := 1, order[4] := 1, order[5] := 1]
  }

  lemma ExampleLinked(order: seq<Node>)
    requires Different(order)
    ensures Linked(Example(order), 6) && InOrder(Example(order), order)
  {
    var t := Example(order);
    ExampleNode(order, 1);
    assert t.rec[t.root].parent == null && t.span[t.root].lo == 0 && t.span[t.root].hi == 6;
    assert forall x :: x in t.rec ==> x in order;
    hide Example, NodeLinked, Different;
    forall x | x in t.rec ensures NodeLinked(t, x) && 0 <= t.span[x].pos < 6 && order[t.span[x].pos] == x {
      var k :| 0 <= k < 6 && x == order[k];
      ExampleNode(order, k);
    }
    forall k | 0 <= k < 6 ensures order[k] in t.rec && t.span[order[k]].pos == k { ExampleNode(order, k); }
  }

  lemma ExampleNode(order: seq<Node>, k: nat)
    requires Different(order) && k < 6
    ensures order[k] in Example(order).rec && Example(order).span.Keys == Example(order).rec.Keys
    ensures NodeLinked(Example(order), order[k]) && Example(order).span[order[k]].pos == k
    ensures order[k] in ExampleHeights(order) && BlackOk(Example(order), ExampleHeights(order), order[k], null, true)
    ensures RedOk(Example(order), order[k])
  {}

  lemma ExampleRedBlack(order: seq<Node>)
    requires Different(order)
    ensures RedBlack(Example(order), ExampleHeights(order))
  {
    var t, bh := Example(order), ExampleHeights(order);
    assert bh.Keys == t.rec.Keys;
    forall x | x in t.rec ensures BlackOk(t, bh, x, null, true) && RedOk(t, x) {
      var k :| 0 <= k < 6 && x == order[k];
      ExampleNode(order, k);
    }
    hide BlackOk, RedOk;
  }

  /** Erasing node 0 of that tree meets a red brother, and then a brother with a red child: case 2b does not follow. */
  lemma RedBrotherNotCase2b(order: seq<Node>)
    requires Different(order)
    ensures var t, d, p, b, i := Example(order), order[0], order[1], order[4], order[3];
            && Linked(t, 6) && InOrder(t, order) && RedBlack(t, ExampleHeights(order))
            && Spliceable(t, order, d) && !t.rec[d].red
            && var t1 := Spliced(t, d);
               && Short(t1, 5, ExampleHeights(order) - {d}, null, p, true) && t1.root != null
               && p in t1.rec && Kid(t1.rec[p], false) == b && b in t1.rec && t1.rec[b].red && Kid(t1.rec[b], true) == i
               && p != b && t1.span.Keys == t1.rec.Keys
               && var t2 := Lifted(t1, p, b, false, true, false);
                  p in t2.rec && Kid(t2.rec[p], false) == i && i in t2.rec && !BlackNephews(t2, i)
  {
    var t, bh, d, p, b, i := Example(order), ExampleHeights(order), order[0], order[1], order[4], order[3];
    ExampleLinked(order);
    ExampleRedBlack(order);
    assert t.rec[d] == Rec(p, null, null, false) && t.rec[p] == Rec(null, d, b, false) && t.root == p;
    assert t.rec[b] == Rec(p, i, order[5], true) && t.rec[i] == Rec(b, order[2], null, false);
    assert t.rec[order[2]] == Rec(i, null, null, true);
    assert t.span.Keys == t.rec.Keys;
    hide Example, ExampleHeights, Linked, InOrder, RedBlack, Spliced, Lifted;
    SplicedShort(t, order, bh, d);
    SplicedRec(t, order, d, p);
    SplicedRec(t, order, d, b);
    SplicedRec(t, order, d, i);
    SplicedRec(t, order, d, order[2]);
    RedBrotherCase(Spliced(t, d), 5, bh - {d}, null, p, true, b);
  }
}
