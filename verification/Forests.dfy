/**
 The disjoint-set forest both union-finds of stb_connected_components.h keep:
 every node points at a parent, a root points at itself. The ghost maps `rep`
 (the root of a node's tree) and `rank` (a number that falls along every parent
 link) turn acyclicity and the partition into conditions on single nodes.
 */
module Forests {

  ghost predicate NodeOk<T(!new)>(parent: imap<T, T>, rep: imap<T, T>, rank: imap<T, nat>, x: T)
    requires x in parent && rep.Keys == parent.Keys && rank.Keys == parent.Keys
  {
    && parent[x] in parent
    && rep[x] in parent
    && rep[parent[x]] == rep[x]
    && parent[rep[x]] == rep[x]
    && rep[rep[x]] == rep[x]
    && (parent[x] == x ==> rep[x] == x)
    && (parent[x] != x ==> rank[parent[x]] < rank[x])
    && (rep[x] != x ==> rank[rep[x]] < rank[x])
  }

  ghost predicate Forest<T(!new)>(parent: imap<T, T>, rep: imap<T, T>, rank: imap<T, nat>) {
    && rep.Keys == parent.Keys
    && rank.Keys == parent.Keys
    && forall x {:trigger NodeOk(parent, rep, rank, x)} :: x in parent ==> NodeOk(parent, rep, rank, x)
  }

  ghost function Identity<T(!new)>(nodes: iset<T>): imap<T, T> {
    imap x | x in nodes :: x
  }

  ghost function Zero<T(!new)>(nodes: iset<T>): imap<T, nat> {
    imap x | x in nodes :: 0
  }

  /** Before any union every node is a tree of its own. */
  lemma IdentityForest<T(!new)>(nodes: iset<T>)
    ensures Forest(Identity(nodes), Identity(nodes), Zero(nodes))
  {}

  /** Pointing a node straight at its root leaves the partition as it was. */
  lemma Compress<T(!new)>(parent: imap<T, T>, rep: imap<T, T>, rank: imap<T, nat>, x: T)
    requires Forest(parent, rep, rank) && x in parent
    ensures NodeOk(parent, rep, rank, x)
    ensures Forest(parent[x := rep[x]], rep, rank)
  {
    var p' := parent[x := rep[x]];
    assert NodeOk(parent, rep, rank, x);
    assert p'.Keys == parent.Keys;
    forall y | y in p'
      ensures NodeOk(p', rep, rank, y)
    {
      assert NodeOk(parent, rep, rank, y);
    }
  }

  ghost function Redirect<T(!new)>(rep: imap<T, T>, p: T, q: T): imap<T, T> {
    imap x | x in rep :: if rep[x] == p then q else rep[x]
  }

  ghost function LiftRank<T(!new)>(rep: imap<T, T>, rank: imap<T, nat>, p: T, q: T): imap<T, nat>
    requires rank.Keys == rep.Keys && q in rank
  {
    imap x | x in rep :: if rep[x] == p then rank[x] + rank[q] + 1 else rank[x]
  }

  /** Hanging root p below a different root q merges exactly their two classes. */
  lemma RedirectSame<T(!new)>(rep: imap<T, T>, p: T)
    ensures Redirect(rep, p, p) == rep
  {}

  lemma Link<T(!new)>(parent: imap<T, T>, rep: imap<T, T>, rank: imap<T, nat>, p: T, q: T)
    requires Forest(parent, rep, rank) && p in parent && q in parent && p != q
    requires parent[p] == p && parent[q] == q
    ensures Forest(parent[p := q], Redirect(rep, p, q), LiftRank(rep, rank, p, q))
  {
    var p', r', k' := parent[p := q], Redirect(rep, p, q), LiftRank(rep, rank, p, q);
    assert NodeOk(parent, rep, rank, p) && NodeOk(parent, rep, rank, q);
    assert p'.Keys == parent.Keys;
    forall y | y in p'
      ensures NodeOk(p', r', k', y)
    {
      assert NodeOk(parent, rep, rank, y);
    }
  }

  ghost function RerootRank<T(!new)>(rep: imap<T, T>, rank: imap<T, nat>, p: T, n: T): imap<T, nat>
    requires rank.Keys == rep.Keys
  {
    imap x | x in rep :: if rep[x] == p then (if x == n then 0 else rank[x] + 1) else rank[x]
  }

  /** Making a member n the root of its tree renames that class and nothing else. */
  lemma Reroot<T(!new)>(parent: imap<T, T>, rep: imap<T, T>, rank: imap<T, nat>, n: T, p: T)
    requires Forest(parent, rep, rank) && n in parent && p == rep[n] && p != n
    ensures p in parent
    ensures Forest(parent[p := n][n := n], Redirect(rep, p, n), RerootRank(rep, rank, p, n))
  {
    var p', r', k' := parent[p := n][n := n], Redirect(rep, p, n), RerootRank(rep, rank, p, n);
    assert NodeOk(parent, rep, rank, n);
    assert p'.Keys == parent.Keys;
    forall y | y in p'
      ensures NodeOk(p', r', k', y)
    {
      assert NodeOk(parent, rep, rank, y);
    }
  }
}
