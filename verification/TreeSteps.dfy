/** The pointer assignments of Remove, one by one, and the splicing and replacing they amount to. */
module TreeSteps {
  import opened TreeShape
  import opened TreeColours
  import opened TreeInsert
  import opened TreeErase
  import opened TreeReplace

  ghost function SpliceSteps(t: Tree, d: Node): Tree
    requires d in t.rec && t.span.Keys == t.rec.Keys
  {
    var c := OnlyKid(t.rec[d]);
    var u := Relinked(Adopted(t, c, t.rec[d].parent), d, c);
    Tree(u.rec - {d}, u.root, (map w | w in t.span :: Narrowed(t.span[w], t.span[d].pos)) - {d})
  }

  lemma SpliceStepsAgree(t: Tree, order: seq<Node>, d: Node)
    requires Spliceable(t, order, d)
    ensures SpliceSteps(t, d) == Spliced(t, d)
  {
    KidParent(t, |order|, d);
    hide Linked, InOrder;
  }

  lemma RelinkedSelf(t: Tree, n: nat, x: Node, c: Node?)
    requires Linked(t, n) && x in t.rec
    ensures Relinked(t, x, c).rec.Keys == t.rec.Keys && Relinked(t, x, c).rec[x] == t.rec[x]
  {
    KidParent(t, n, x);
    hide Linked;
  }

  /** The assignments that put d in the place of m; d enters with m's links and colour. */
  ghost function ReplaceSteps(t: Tree, m: Node, d: Node): Tree
    requires m in t.rec && d !in t.rec && t.span.Keys == t.rec.Keys
  {
    var u := Relinked(t, m, d);
    var u1 := u.(rec := u.rec[d := t.rec[m]]);
    var u2 := Adopted(Adopted(u1, t.rec[m].left, d), t.rec[m].right, d);
    Tree(u2.rec - {m}, u2.root, t.span[d := t.span[m]] - {m})
  }

  lemma ReplaceStepsAgree(t: Tree, n: nat, m: Node, d: Node)
    requires Linked(t, n) && m in t.rec && d !in t.rec && t.span.Keys == t.rec.Keys
    ensures ReplaceSteps(t, m, d) == Replaced(t, m, d)
  {
    KidParent(t, n, m);
    hide Linked;
    var u, v := ReplaceSteps(t, m, d), Replaced(t, m, d);
    forall z | z in u.rec ensures z in v.rec && u.rec[z] == v.rec[z] {}
    assert u.rec == v.rec;
  }

  lemma ReplaceStepsChain(t: Tree, n: nat, m: Node, d: Node)
    requires Linked(t, n) && m in t.rec && d !in t.rec && t.span.Keys == t.rec.Keys
    ensures var u := Relinked(t, m, d);
            m in u.rec
            && var w := Adopted(Adopted(u.(rec := u.rec[d := u.rec[m]]), t.rec[m].left, d), t.rec[m].right, d);
               ReplaceSteps(t, m, d) == Tree(w.rec - {m}, w.root, t.span[d := t.span[m]] - {m})
  {
    RelinkedSelf(t, n, m, d);
    hide Linked, Relinked, Adopted;
  }
}
