/** The properties of a red-black tree as as_map.h documents them, over paths, and why they are the ones proved kept. */
module TreePaths {
  import opened TreeShape
  import opened TreeColours
  import opened TreeOrder

  /** The path of left (true) and right (false) turns leads from c to a missing child. */
  ghost predicate Ends(t: Tree, c: Node?, path: seq<bool>) {
    if c == null then path == []
    else path != [] && c in t.rec && Ends(t, Kid(t.rec[c], path[0]), path[1..])
  }

  /** The black nodes on a path. */
  ghost function BlackCount(t: Tree, c: Node?, path: seq<bool>): nat {
    if c == null || c !in t.rec || path == [] then 0
    else (if t.rec[c].red then 0 else 1) + BlackCount(t, Kid(t.rec[c], path[0]), path[1..])
  }

  /** All paths down from c have h black nodes. */
  ghost predicate SameBlack(t: Tree, c: Node?, h: int) {
    forall path {:trigger Ends(t, c, path)} :: Ends(t, c, path) ==> BlackCount(t, c, path) == h
  }

  /** The three documented properties: black root, equal black counts, no red node with a red parent. */
  ghost predicate Documented(t: Tree) {
    && !IsRed(t, t.root)
    && (exists h :: SameBlack(t, t.root, h))
    && forall x {:trigger RedOk(t, x)} :: x in t.rec ==> RedOk(t, x)
  }

  lemma {:induction false} SomePath(t: Tree, n: nat, c: Node?) returns (path: seq<bool>)
    requires Linked(t, n) && (c != null ==> c in t.rec)
    ensures Ends(t, c, path)
    decreases Size(t, c)
  {
    if c == null {
      path := [];
    } else {
      hide Linked;
      KidSizes(t, n, c);
      KidParent(t, n, c);
      var rest := SomePath(t, n, t.rec[c].left);
      path := [true] + rest;
      assert path[1..] == rest;
    }
  }

  /** A node's paths are those of its two sides, each with the node in front. */
  lemma SameBlackNode(t: Tree, n: nat, x: Node, h: int)
    requires Linked(t, n) && x in t.rec
    ensures SameBlack(t, x, h + (if t.rec[x].red then 0 else 1)) <==>
            SameBlack(t, t.rec[x].left, h) && SameBlack(t, t.rec[x].right, h)
  {
    var own := if t.rec[x].red then 0 else 1;
    if SameBlack(t, x, h + own) {
      SameBlackBelow(t, x, h, true);
      SameBlackBelow(t, x, h, false);
    }
    if SameBlack(t, t.rec[x].left, h) && SameBlack(t, t.rec[x].right, h) {
      forall path | Ends(t, x, path) ensures BlackCount(t, x, path) == h + own {
        assert Ends(t, Kid(t.rec[x], path[0]), path[1..]);
      }
    }
  }

  lemma SameBlackBelow(t: Tree, x: Node, h: int, l: bool)
    requires x in t.rec && SameBlack(t, x, h + (if t.rec[x].red then 0 else 1))
    ensures SameBlack(t, Kid(t.rec[x], l), h)
  {
    var c := Kid(t.rec[x], l);
    forall path | Ends(t, c, path) ensures BlackCount(t, c, path) == h {
      var longer := [l] + path;
      assert longer[1..] == path && Ends(t, x, longer);
    }
  }

  lemma OneCount(t: Tree, n: nat, c: Node?, h: int, h': int)
    requires Linked(t, n) && (c != null ==> c in t.rec) && SameBlack(t, c, h) && SameBlack(t, c, h')
    ensures h == h' && h >= 0
  {
    var path := SomePath(t, n, c);
    assert BlackCount(t, c, path) == h;
  }

  /** Black heights are what the paths have. */
  lemma {:induction false} HeightsArePaths(t: Tree, n: nat, bh: map<Node, nat>, c: Node?)
    requires Linked(t, n) && RedBlack(t, bh) && (c != null ==> c in t.rec)
    ensures SameBlack(t, c, Height(bh, c))
    decreases Size(t, c)
  {
    if c != null {
      hide Linked;
      KidSizes(t, n, c);
      KidParent(t, n, c);
      NodeHeights(t, n, bh, c);
      hide RedBlack, SameBlack;
      HeightsArePaths(t, n, bh, t.rec[c].left);
      HeightsArePaths(t, n, bh, t.rec[c].right);
      SameBlackNode(t, n, c, Height(bh, t.rec[c].left));
    }
  }

  /** Equal counts at the root are equal counts everywhere. */
  lemma {:induction false} EverywhereSame(t: Tree, n: nat, x: Node) returns (h: int)
    requires Linked(t, n) && x in t.rec && exists h :: SameBlack(t, t.root, h)
    ensures SameBlack(t, x, h) && h >= 0
    decreases n - Size(t, x)
  {
    hide Linked;
    SpanWithin(t, n, x);
    KidParent(t, n, x);
    var p := t.rec[x].parent;
    if p == null {
      h :| SameBlack(t, t.root, h);
    } else {
      ParentLarger(t, n, x);
      SpanWithin(t, n, p);
      var hp := EverywhereSame(t, n, p);
      h := hp - (if t.rec[p].red then 0 else 1);
      SameBlackBelow(t, p, h, t.rec[p].left == x);
    }
    OneCount(t, n, x, h, h);
  }

  ghost function CountOf(t: Tree, x: Node): nat
    requires exists h: nat :: SameBlack(t, x, h)
    ensures SameBlack(t, x, CountOf(t, x))
  {
    var h: nat :| SameBlack(t, x, h);
    h
  }

  ghost predicate Counted(t: Tree, x: Node) { exists h: nat :: SameBlack(t, x, h) }

  /** Some assignment of black heights makes a tree red-black exactly when the documented properties hold. */
  lemma DocumentedIsRedBlack(t: Tree, n: nat)
    requires Linked(t, n)
    ensures Documented(t) <==> exists bh :: RedBlack(t, bh)
  {
    if Documented(t) {
      forall x | x in t.rec ensures Counted(t, x) {
        var h := EverywhereSame(t, n, x);
        var m: nat := h;
        assert SameBlack(t, x, m);
      }
      var bh := map x | x in t.rec :: CountOf(t, x);
      forall x | x in t.rec ensures BlackOk(t, bh, x, null, true) { CountsFit(t, n, bh, x); }
      assert RedBlack(t, bh);
    }
    if exists bh :: RedBlack(t, bh) {
      var bh :| RedBlack(t, bh);
      if t.root != null { RootSpan(t, n); }
      HeightsArePaths(t, n, bh, t.root);
      assert SameBlack(t, t.root, Height(bh, t.root));
    }
  }

  lemma CountsFit(t: Tree, n: nat, bh: map<Node, nat>, x: Node)
    requires Linked(t, n) && bh.Keys == t.rec.Keys && x in t.rec
    requires forall y {:trigger bh[y]} :: y in bh ==> SameBlack(t, y, bh[y])
    ensures BlackOk(t, bh, x, null, true)
  {
    hide Linked, SameBlack;
    KidParent(t, n, x);
    var h := bh[x] as int - (if t.rec[x].red then 0 else 1);
    SameBlackNode(t, n, x, h);
    KidCount(t, n, bh, t.rec[x].left, h);
    KidCount(t, n, bh, t.rec[x].right, h);
  }

  lemma KidCount(t: Tree, n: nat, bh: map<Node, nat>, c: Node?, h: int)
    requires Linked(t, n) && bh.Keys == t.rec.Keys && (c != null ==> c in t.rec && SameBlack(t, c, bh[c]))
             && SameBlack(t, c, h)
    ensures Height(bh, c) == h
  {
    if c != null {
      OneCount(t, n, c, h, bh[c]);
    } else {
      assert Ends(t, c, []);
    }
  }

  /** What CheckIntegrity finds out at x from the results at its children; -1 says that paths differ. */
  ghost predicate Checked(t: Tree, c: Node?, r: int) {
    r >= -1 && if r >= 0 then SameBlack(t, c, r) else forall h :: !SameBlack(t, c, h)
  }

  lemma EmptyChecked(t: Tree)
    ensures Checked(t, null, 0)
  {}

  lemma CheckNode(t: Tree, n: nat, x: Node, left: int, right: int)
    requires Linked(t, n) && x in t.rec && Checked(t, t.rec[x].left, left) && Checked(t, t.rec[x].right, right)
    ensures Checked(t, x, if left != right || left == -1 then -1 else if !t.rec[x].red then left + 1 else left)
  {
    hide Linked, SameBlack;
    KidParent(t, n, x);
    var own := if t.rec[x].red then 0 else 1;
    if left != right || left == -1 {
      forall h ensures !SameBlack(t, x, h) {
        SameBlackNode(t, n, x, h - own);
        if SameBlack(t, x, h) && left >= 0 && right >= 0 {
          OneCount(t, n, t.rec[x].left, left, h - own);
          OneCount(t, n, t.rec[x].right, right, h - own);
        }
      }
    } else {
      SameBlackNode(t, n, x, left);
    }
  }

  /** On a red-black tree the check cannot fail. */
  lemma CheckedHeight(t: Tree, n: nat, bh: map<Node, nat>, c: Node?, r: int)
    requires Linked(t, n) && RedBlack(t, bh) && (c != null ==> c in t.rec) && Checked(t, c, r)
    ensures r == Height(bh, c)
  {
    HeightsArePaths(t, n, bh, c);
    OneCount(t, n, c, Height(bh, c), if r >= 0 then r else Height(bh, c));
  }
}
