/** Sizes, heights and key order of a red-black tree: what searches and cursors rest on. */
module TreeOrder {
  import opened TreeShape
  import opened TreeColours
  import opened TreeInsert
  import opened TreeErase

  /** The number of nodes of a subtree. */
  ghost function Size(t: Tree, c: Node?): int { if c == null || c !in t.span then 0 else t.span[c].hi - t.span[c].lo }

  ghost predicate Within(t: Tree, n: nat, x: Node)
    requires x in t.span
  {
    0 <= t.span[x].lo <= t.span[x].pos < t.span[x].hi <= n
  }

  lemma ParentLarger(t: Tree, n: nat, x: Node)
    requires Linked(t, n) && x in t.rec && t.rec[x].parent != null
    ensures t.span.Keys == t.rec.Keys && t.rec[x].parent in t.rec
    ensures Size(t, t.rec[x].parent) > Size(t, x) > 0
    ensures t.span[t.rec[x].parent].lo <= t.span[x].lo && t.span[x].hi <= t.span[t.rec[x].parent].hi
  {
    LinkedNode(t, n, x);
    hide Linked;
    LinkedNode(t, n, t.rec[x].parent);
  }

  /** Every span lies in 0 .. n: climbing to the root, spans only grow. */
  lemma {:induction false} SpanWithin(t: Tree, n: nat, x: Node)
    requires Linked(t, n) && x in t.rec
    ensures t.span.Keys == t.rec.Keys && Within(t, n, x) && Size(t, x) <= n
    decreases set y | y in t.rec && Size(t, y) > Size(t, x)
  {
    LinkedNode(t, n, x);
    var p := t.rec[x].parent;
    if p != null {
      hide Linked;
      ParentLarger(t, n, x);
      ghost var larger := set y | y in t.rec && Size(t, y) > Size(t, x);
      ghost var rest := set y | y in t.rec && Size(t, y) > Size(t, p);
      assert p in larger && p !in rest;
      assert rest <= larger;
      SpanWithin(t, n, p);
    }
  }

  ghost function Pow2(k: nat): nat { if k == 0 then 1 else 2 * Pow2(k - 1) }

  /** The largest k with 2^k <= m. */
  ghost function Log2(m: nat): nat { if m < 2 then 0 else 1 + Log2(m / 2) }

  lemma {:induction false} Log2Pow2(k: nat, m: nat)
    requires Pow2(k) <= m
    ensures k <= Log2(m)
  {
    if k > 0 { Log2Pow2(k - 1, m / 2); }
  }

  /** A subtree of black height h has at least 2^h - 1 nodes. */
  lemma {:induction false} HeightBound(t: Tree, n: nat, bh: map<Node, nat>, x: Node)
    requires Linked(t, n) && RedBlack(t, bh) && x in t.rec
    ensures x in bh && Pow2(bh[x]) <= Size(t, x) + 1
    decreases Size(t, x)
  {
    LinkedNode(t, n, x);
    assert BlackOk(t, bh, x, null, true);
    hide Linked, RedBlack;
    var l, r := t.rec[x].left, t.rec[x].right;
    if l != null { LinkedNode(t, n, l); HeightBound(t, n, bh, l); }
    if r != null { LinkedNode(t, n, r); HeightBound(t, n, bh, r); }
    hide NodeLinked;
    assert Pow2(Height(bh, l)) <= Size(t, l) + 1 && Pow2(Height(bh, r)) <= Size(t, r) + 1;
    assert Height(bh, l) == Height(bh, r);
    assert Size(t, x) == Size(t, l) + 1 + Size(t, r) by { KidSizes(t, n, x); }
    assert bh[x] <= Height(bh, l) + 1;
    if bh[x] == Height(bh, l) + 1 { assert Pow2(bh[x]) == 2 * Pow2(Height(bh, l)); }
  }

  lemma KidSizes(t: Tree, n: nat, x: Node)
    requires Linked(t, n) && x in t.rec
    ensures t.span.Keys == t.rec.Keys && Size(t, x) == Size(t, t.rec[x].left) + 1 + Size(t, t.rec[x].right)
    ensures Size(t, t.rec[x].left) >= 0 && Size(t, t.rec[x].right) >= 0
  {
    LinkedNode(t, n, x);
    hide Linked;
    if t.rec[x].left != null { LinkedNode(t, n, t.rec[x].left); }
    if t.rec[x].right != null { LinkedNode(t, n, t.rec[x].right); }
  }

  /** How many nodes a search can still visit from c down. */
  ghost function Reach(t: Tree, bh: map<Node, nat>, c: Node?): nat {
    2 * Height(bh, c) + (if IsRed(t, c) then 1 else 0)
  }

  lemma ReachDown(t: Tree, n: nat, bh: map<Node, nat>, x: Node, l: bool)
    requires Linked(t, n) && RedBlack(t, bh) && x in t.rec
    ensures Reach(t, bh, Kid(t.rec[x], l)) < Reach(t, bh, x)
  {
    KidParent(t, n, x);
    assert BlackOk(t, bh, x, null, true);
    var c := Kid(t.rec[x], l);
    if c != null { assert RedOk(t, c); }
  }

  /** At most 2 log2(n + 1) nodes lie on a path from the root down. */
  lemma ReachBound(t: Tree, n: nat, bh: map<Node, nat>)
    requires Linked(t, n) && RedBlack(t, bh)
    ensures Reach(t, bh, t.root) <= 2 * Log2(n + 1)
  {
    if t.root != null {
      HeightBound(t, n, bh, t.root);
      Log2Pow2(bh[t.root], n + 1);
    }
  }

  /** The < of the key type orders its values in one line, with == as equality. */
  ghost predicate KeyOrder(lt: (Key, Key) -> bool) {
    && (forall a :: !lt(a, a))
    && (forall a, b, c :: lt(a, b) && lt(b, c) ==> lt(a, c))
    && (forall a, b :: lt(a, b) || a == b || lt(b, a))
  }

  ghost predicate SortedKeys(lt: (Key, Key) -> bool, keys: seq<Key>) {
    forall i, j :: 0 <= i < j < |keys| ==> !lt(keys[j], keys[i])
  }

  ghost function KeysOf(order: seq<Node>): (r: seq<Key>)
    ensures |r| == |order| && forall i :: 0 <= i < |r| ==> r[i] == order[i].key
  {
    seq(|order|, i requires 0 <= i < |order| => order[i].key)
  }

  /** Index i splits the keys: those before it are at most key, those from it on are greater. */
  ghost predicate Splits(lt: (Key, Key) -> bool, keys: seq<Key>, key: Key, i: int) {
    && 0 <= i <= |keys|
    && (forall k :: 0 <= k < i ==> !lt(key, keys[k]))
    && (forall k :: i <= k < |keys| ==> lt(key, keys[k]))
  }

  /** Where a new key goes: behind every key that is not greater. */
  ghost function Place(lt: (Key, Key) -> bool, keys: seq<Key>, key: Key): nat {
    if keys == [] || lt(key, keys[0]) then 0 else 1 + Place(lt, keys[1..], key)
  }

  lemma {:induction false} PlaceSplits(lt: (Key, Key) -> bool, keys: seq<Key>, key: Key)
    requires KeyOrder(lt) && SortedKeys(lt, keys)
    ensures Splits(lt, keys, key, Place(lt, keys, key))
  {
    if keys == [] {
    } else if lt(key, keys[0]) {
      forall k | 0 <= k < |keys| ensures lt(key, keys[k]) {
        if k > 0 { assert !lt(keys[k], keys[0]); }
      }
    } else {
      PlaceSplits(lt, keys[1..], key);
      var i := Place(lt, keys[1..], key);
      forall k | 0 <= k < i + 1 ensures !lt(key, keys[k]) { if k > 0 { assert keys[k] == keys[1..][k - 1]; } }
      forall k | i + 1 <= k < |keys| ensures lt(key, keys[k]) { assert keys[k] == keys[1..][k - 1]; }
    }
  }

  lemma PlaceMeaning(lt: (Key, Key) -> bool, order: seq<Node>, key: Key)
    requires KeyOrder(lt) && SortedKeys(lt, KeysOf(order))
    ensures var i := Place(lt, KeysOf(order), key);
            && i <= |order|
            && (forall k :: 0 <= k < i ==> !lt(key, order[k].key))
            && (forall k :: i <= k < |order| ==> lt(key, order[k].key))
  {
    PlaceSplits(lt, KeysOf(order), key);
  }

  /** A key put where it splits the others keeps them sorted. */
  lemma SplitSorted(lt: (Key, Key) -> bool, keys: seq<Key>, key: Key, i: int)
    requires KeyOrder(lt) && SortedKeys(lt, keys) && Splits(lt, keys, key, i)
    ensures SortedKeys(lt, keys[..i] + [key] + keys[i..])
  {
    var s := keys[..i] + [key] + keys[i..];
    forall a, b | 0 <= a < b < |s| ensures !lt(s[b], s[a]) {
      var a', b' := if a < i then a else a - 1, if b < i then b else b - 1;
      if a != i && b != i { assert !lt(keys[b'], keys[a']); }
    }
  }

  lemma DropSorted(lt: (Key, Key) -> bool, keys: seq<Key>, j: nat)
    requires SortedKeys(lt, keys) && j < |keys|
    ensures SortedKeys(lt, keys[..j] + keys[j + 1..])
  {
    var s := keys[..j] + keys[j + 1..];
    forall a, b | 0 <= a < b < |s| ensures !lt(s[b], s[a]) {
      assert !lt(keys[if b < j then b else b + 1], keys[if a < j then a else a + 1]);
    }
  }

  /** No node has changed its place in the order. */
  ghost predicate SamePlaces(s: map<Node, Span>, s': map<Node, Span>) {
    s'.Keys == s.Keys && forall z :: z in s ==> s'[z].pos == s[z].pos
  }

  lemma RotatedPlaces(t: Tree, n: nat, x: Node, l: bool)
    requires Linked(t, n) && x in t.rec && Kid(t.rec[x], !l) != null
    ensures t.span.Keys == t.rec.Keys && Kid(t.rec[x], !l) in t.rec
    ensures SamePlaces(t.span, Rotated(t, x, l).span)
  {
    hide Linked, Rotated;
    RotationNodes(t, n, x, l);
    LinkedNode(t, n, x);
    RotatedRec(t, n, x, l, x);
    forall z | z in t.rec ensures Rotated(t, x, l).span[z].pos == t.span[z].pos { RotatedRec(t, n, x, l, z); }
  }

  lemma SamePlacesOrder(t: Tree, t': Tree, order: seq<Node>)
    requires InOrder(t, order) && SamePlaces(t.span, t'.span) && t'.rec.Keys == t.rec.Keys
    ensures InOrder(t', order)
  {}

  /** A subtree of which index i is inside or at an end. */
  ghost predicate Covers(t: Tree, p: Node, i: int) { p in t.rec && p in t.span && t.span[p].lo <= i <= t.span[p].hi }

  /** One step of Insert's search: it ends at the free link for index i, or goes on in a smaller subtree. */
  lemma SeekStep(t: Tree, order: seq<Node>, lt: (Key, Key) -> bool, key: Key, i: int, p: Node)
    requires Linked(t, |order|) && InOrder(t, order) && Splits(lt, KeysOf(order), key, i) && Covers(t, p, i)
    ensures t.span.Keys == t.rec.Keys
    ensures var l := lt(key, p.key);
            var c := Kid(t.rec[p], l);
            if c == null then LeafIndex(t, p, l) == i else c in t.rec && Covers(t, c, i) && Size(t, c) < Size(t, p)
  {
    var l := lt(key, p.key);
    LinkedNode(t, |order|, p);
    OnePlaceKey(t, order, p);
    if Kid(t.rec[p], l) != null {
      KidParent(t, |order|, p);
      ParentLarger(t, |order|, Kid(t.rec[p], l));
    }
    hide Linked, InOrder;
  }

  lemma OnePlaceKey(t: Tree, order: seq<Node>, p: Node)
    requires InOrder(t, order) && p in t.rec
    ensures p in t.span && 0 <= t.span[p].pos < |order| && order[t.span[p].pos] == p
            && KeysOf(order)[t.span[p].pos] == p.key
  {}

  lemma PlaceInside(lt: (Key, Key) -> bool, keys: seq<Key>, key: Key)
    ensures Place(lt, keys, key) <= |keys|
  {}

  lemma EmptyTree(t: Tree, n: nat)
    requires Linked(t, n) && t.root == null
    ensures n == 0 && t.rec.Keys == {}
  {}

  lemma RootCovers(t: Tree, n: nat, i: int)
    requires Linked(t, n) && t.root != null && 0 <= i <= n
    ensures t.root in t.rec && Covers(t, t.root, i)
  {}

  lemma InsertedKeys(lt: (Key, Key) -> bool, order: seq<Node>, z: Node, i: nat)
    requires KeyOrder(lt) && SortedKeys(lt, KeysOf(order)) && i == Place(lt, KeysOf(order), z.key)
    ensures i <= |order| && SortedKeys(lt, KeysOf(order[..i] + [z] + order[i..]))
  {
    PlaceSplits(lt, KeysOf(order), z.key);
    SplitSorted(lt, KeysOf(order), z.key, i);
    assert KeysOf(order[..i] + [z] + order[i..]) == KeysOf(order)[..i] + [z.key] + KeysOf(order)[i..];
  }

  lemma SamePlacesTrans(a: map<Node, Span>, b: map<Node, Span>, c: map<Node, Span>)
    requires SamePlaces(a, b) && SamePlaces(b, c)
    ensures SamePlaces(a, c)
  {}

  lemma SamePlacesRefl(a: map<Node, Span>)
    ensures SamePlaces(a, a)
  {}

  /** The parent of a short subtree is a larger one, and no subtree has more than n nodes. */
  lemma ShortSize(t: Tree, n: nat, bh: map<Node, nat>, c: Node?, p: Node, s: bool)
    requires Short(t, n, bh, c, p, s)
    ensures Size(t, p) > Size(t, c) && Size(t, p) <= n
  {
    KidParent(t, n, p);
    SpanWithin(t, n, p);
    LinkedNode(t, n, p);
    if c != null { ParentLarger(t, n, c); }
    hide Linked;
  }

  lemma SideKept(t: Tree, t': Tree, p: Node)
    requires p in t.rec && SameLinks(t, t')
    ensures SideOf(t', t.rec[p].parent, p) == SideOf(t, t.rec[p].parent, p)
  {}

  /** Walking left from x's right child ends at the node behind x in the order. */
  lemma LeftmostOfRight(t: Tree, n: nat, x: Node)
    requires Linked(t, n) && x in t.rec
    ensures t.span.Keys == t.rec.Keys
    ensures t.rec[x].right != null ==> t.rec[x].right in t.rec && t.span[t.rec[x].right].lo == t.span[x].pos + 1
    ensures t.rec[x].left != null ==>
              && t.rec[x].left in t.rec && t.span[t.rec[x].left].lo == t.span[x].lo
              && 0 < Size(t, t.rec[x].left) < Size(t, x)
    ensures t.rec[x].left == null ==> t.span[x].pos == t.span[x].lo
  {
    LinkedNode(t, n, x);
    hide Linked;
    if t.rec[x].left != null { LinkedNode(t, n, t.rec[x].left); }
  }

  lemma RightmostOfLeft(t: Tree, n: nat, x: Node)
    requires Linked(t, n) && x in t.rec
    ensures t.span.Keys == t.rec.Keys
    ensures t.rec[x].left != null ==> t.rec[x].left in t.rec && t.span[t.rec[x].left].hi == t.span[x].pos
    ensures t.rec[x].right != null ==>
              && t.rec[x].right in t.rec && t.span[t.rec[x].right].hi == t.span[x].hi
              && 0 < Size(t, t.rec[x].right) < Size(t, x)
    ensures t.rec[x].right == null ==> t.span[x].hi == t.span[x].pos + 1
  {
    LinkedNode(t, n, x);
    hide Linked;
    if t.rec[x].right != null { LinkedNode(t, n, t.rec[x].right); }
  }

  /** `order` without its j-th node. */
  ghost function Without(order: seq<Node>, j: int): (r: seq<Node>)
    requires 0 <= j < |order|
    ensures |r| == |order| - 1
  {
    order[..j] + order[j + 1..]
  }

  lemma WithoutMeaning(order: seq<Node>, j: nat)
    requires j < |order|
    ensures Without(order, j) == order[..j] + order[j + 1..]
  {}

  lemma WithoutSorted(lt: (Key, Key) -> bool, order: seq<Node>, j: nat)
    requires j < |order| && SortedKeys(lt, KeysOf(order))
    ensures SortedKeys(lt, KeysOf(Without(order, j)))
  {
    DropSorted(lt, KeysOf(order), j);
    assert KeysOf(Without(order, j)) == KeysOf(order)[..j] + KeysOf(order)[j + 1..];
  }

  /** Dropping the node behind j and writing it over j is dropping j. */
  lemma WithoutNext(order: seq<Node>, j: nat)
    requires j + 1 < |order|
    ensures Without(order, j + 1)[j := order[j + 1]] == Without(order, j) && Without(order, j + 1)[j] == order[j]
  {}

  lemma AtIndex(t: Tree, order: seq<Node>, k: nat)
    requires InOrder(t, order) && k < |order|
    ensures order[k] in t.rec && order[k] in t.span && t.span[order[k]].pos == k
  {}

  /** Every node with this key lies in the subtree of p. */
  ghost predicate Confined(t: Tree, order: seq<Node>, key: Key, p: Node?) {
    forall k {:trigger order[k]} :: 0 <= k < |order| && order[k].key == key ==>
      p != null && p in t.span && t.span[p].lo <= k < t.span[p].hi
  }

  lemma ConfinedStart(t: Tree, order: seq<Node>, key: Key)
    requires Linked(t, |order|)
    ensures Confined(t, order, key, t.root)
  {}

  /** One step of MoveTo's search. */
  lemma ConfinedStep(t: Tree, order: seq<Node>, lt: (Key, Key) -> bool, key: Key, p: Node)
    requires Linked(t, |order|) && InOrder(t, order) && SortedKeys(lt, KeysOf(order)) && KeyOrder(lt)
    requires p in t.rec && Confined(t, order, key, p) && p.key != key
    ensures Confined(t, order, key, Kid(t.rec[p], lt(key, p.key)))
  {
    LinkedNode(t, |order|, p);
    OnePlaceKey(t, order, p);
    hide Linked, InOrder;
    var l := lt(key, p.key);
    forall k | 0 <= k < |order| && order[k].key == key
      ensures if l then k < t.span[p].pos else k > t.span[p].pos
    {
      var j := t.span[p].pos;
      assert KeysOf(order)[k] == key && KeysOf(order)[j] == p.key;
      if k != j {
        assert !lt(KeysOf(order)[if k < j then j else k], KeysOf(order)[if k < j then k else j]);
      }
    }
    hide KeysOf, SortedKeys, KeyOrder;
  }

  lemma KeyDiffers(lt: (Key, Key) -> bool, a: Key, b: Key)
    requires KeyOrder(lt) && lt(a, b)
    ensures a != b
  {}

  lemma RootSpan(t: Tree, n: nat)
    requires Linked(t, n) && t.root != null
    ensures n > 0 && t.span.Keys == t.rec.Keys && t.root in t.rec && t.span[t.root].lo == 0 && t.span[t.root].hi == n
  {
    LinkedNode(t, n, t.root);
  }

  lemma RootBlack(t: Tree, n: nat, bh: map<Node, nat>)
    requires Linked(t, n) && RedBlack(t, bh) && t.root != null
    ensures t.root in t.rec && !t.rec[t.root].red
  {}

  lemma NodeHeights(t: Tree, n: nat, bh: map<Node, nat>, x: Node)
    requires Linked(t, n) && RedBlack(t, bh) && x in t.rec
    ensures x in bh && Height(bh, t.rec[x].left) == Height(bh, t.rec[x].right)
            && bh[x] == Height(bh, t.rec[x].left) + (if t.rec[x].red then 0 else 1)
  {
    assert BlackOk(t, bh, x, null, true);
  }

  /** What climbing one step says about the places of a subtree and of its parent. */
  lemma Climb(t: Tree, n: nat, x: Node)
    requires Linked(t, n) && x in t.rec
    ensures t.span.Keys == t.rec.Keys && 0 < Size(t, x) <= n
    ensures t.rec[x].parent == null ==> t.span[x].lo == 0 && t.span[x].hi == n
    ensures t.rec[x].parent != null ==>
              var p := t.rec[x].parent;
              && p in t.rec && Size(t, p) > Size(t, x)
              && (t.rec[p].right == x ==> t.span[p].hi == t.span[x].hi && t.span[x].lo == t.span[p].pos + 1)
              && (t.rec[p].left == x ==> t.span[p].lo == t.span[x].lo && t.span[x].hi == t.span[p].pos)
              && (t.rec[p].left == x || t.rec[p].right == x)
  {
    SpanWithin(t, n, x);
    KidParent(t, n, x);
    LinkedNode(t, n, x);
    if t.rec[x].parent == null {
      RootSpan(t, n);
    } else {
      ParentLarger(t, n, x);
      LinkedNode(t, n, t.rec[x].parent);
    }
    hide Linked;
  }

  /** The nodes of the subtree of x. */
  ghost function Part(t: Tree, x: Node): (part: set<Node>)
    requires x in t.span
    ensures forall y :: y in part ==> y in t.span && t.span[x].lo <= t.span[y].pos < t.span[x].hi
    ensures forall y :: y in t.span && t.span[x].lo <= t.span[y].pos < t.span[x].hi ==> y in part
  {
    set y | y in t.span && t.span[x].lo <= t.span[y].pos < t.span[x].hi
  }

  ghost function PartOf(t: Tree, c: Node?): set<Node> { if c == null || c !in t.span then {} else Part(t, c) }

  /** A subtree is its root, the left part and the right part, with no node in two of them. */
  lemma PartSplits(t: Tree, order: seq<Node>, x: Node)
    requires Linked(t, |order|) && InOrder(t, order) && x in t.rec
    ensures x in t.span
    ensures var l, r := PartOf(t, t.rec[x].left), PartOf(t, t.rec[x].right);
            Part(t, x) == l + r + {x} && |Part(t, x)| == |l| + |r| + 1
  {
    hide Linked, InOrder, NodeLinked, Part, PartOf;
    LinkedNode(t, |order|, x);
    ghost var part, l, r := Part(t, x), PartOf(t, t.rec[x].left), PartOf(t, t.rec[x].right);
    forall y: Node | y in part + l + r + {x}
      ensures (y in part <==> y in l + r + {x}) && !(y in l && y in r) && x !in l + r
    {
      PartNode(t, order, x, y);
    }
    assert x in part + l + r + {x};
    assert part == l + r + {x};
    SplitSize(part, l, r, x);
  }

  lemma SplitSize(part: set<Node>, l: set<Node>, r: set<Node>, x: Node)
    requires part == l + r + {x} && x !in l + r && forall y :: !(y in l && y in r)
    ensures |part| == |l| + |r| + 1
  {
    assert l * r == {};
    assert |l + r| == |l| + |r|;
  }

  lemma PartNode(t: Tree, order: seq<Node>, x: Node, y: Node)
    requires Linked(t, |order|) && InOrder(t, order) && x in t.rec && t.span.Keys == t.rec.Keys
    ensures y in Part(t, x) <==> y in PartOf(t, t.rec[x].left) || y in PartOf(t, t.rec[x].right) || y == x
    ensures !(y in PartOf(t, t.rec[x].left) && y in PartOf(t, t.rec[x].right))
    ensures x !in PartOf(t, t.rec[x].left) && x !in PartOf(t, t.rec[x].right)
  {
    hide Linked;
    LinkedNode(t, |order|, x);
    if y != x && y in t.span { OnePlace(t, order, x, y); }
    if t.rec[x].left != null { LinkedNode(t, |order|, t.rec[x].left); }
    if t.rec[x].right != null { LinkedNode(t, |order|, t.rec[x].right); }
    hide InOrder;
  }

  lemma PartAll(t: Tree, order: seq<Node>)
    requires Linked(t, |order|) && InOrder(t, order) && t.root != null
    ensures t.root in t.span && |Part(t, t.root)| == |order|
  {
    RootSpan(t, |order|);
    assert Part(t, t.root) == t.rec.Keys;
    CountNodes(t, order);
  }

  lemma {:induction false} CountNodes(t: Tree, order: seq<Node>)
    requires InOrder(t, order)
    ensures |t.rec.Keys| == |order|
  {
    var s := set k | 0 <= k < |order| :: order[k];
    assert s == t.rec.Keys by {
      forall x | x in t.rec ensures x in s { assert order[t.span[x].pos] == x; }
    }
    DistinctCount(t, order, |order|);
    assert s == set k | 0 <= k < |order| :: order[k];
  }

  lemma {:induction false} DistinctCount(t: Tree, order: seq<Node>, m: nat)
    requires InOrder(t, order) && m <= |order|
    ensures |set k | 0 <= k < m :: order[k]| == m
  {
    if m > 0 {
      DistinctCount(t, order, m - 1);
      var s, s' := set k | 0 <= k < m :: order[k], set k | 0 <= k < m - 1 :: order[k];
      assert s == s' + {order[m - 1]};
      assert order[m - 1] !in s' by {
        forall k | 0 <= k < m - 1 ensures order[k] != order[m - 1] { AtIndex(t, order, k); AtIndex(t, order, m - 1); }
      }
    }
  }

  lemma EmptyValid(lt: (Key, Key) -> bool)
    ensures SortedKeys(lt, KeysOf([]))
    ensures var t := Tree(map[], null, map[]); Linked(t, 0) && InOrder(t, []) && RedBlack(t, map[])
  {}

  lemma OneRepaint(t: Tree, x: Node, red: bool)
    requires x in t.rec
    ensures SameLinks(t, Recoloured(t, x, red))
  {}
}
