/** Partitions that are exactly the components of a graph. */
module Partitions {
  import opened Paths
  import opened Forests

  /** Soundness: no node is joined to a node it is not connected to. */
  ghost predicate Sound<T(!new)>(E: iset<(T, T)>, rep: imap<T, T>) {
    forall a {:trigger rep[a]} :: a in rep ==> Connected(E, a, rep[a])
  }

  lemma UnionSound<T(!new)>(E: iset<(T, T)>, rep: imap<T, T>, a: T, b: T)
    requires Sound(E, rep) && Symmetric(E) && a in rep && b in rep && (a, b) in E
    ensures Sound(E, Redirect(rep, rep[a], rep[b]))
  {
    var rep' := Redirect(rep, rep[a], rep[b]);
    forall x | x in rep'
      ensures Connected(E, x, rep'[x])
    {
      if rep[x] == rep[a] {
        ConnectedSym(E, a, rep[a]);
        ConnectedTrans(E, x, rep[a], a);
        ConnectedEdge(E, a, b);
        ConnectedTrans(E, x, a, b);
        ConnectedTrans(E, x, b, rep[b]);
      }
    }
  }

  /** Two nodes share a class exactly when the graph connects them. */
  ghost predicate Exact<T(!new)>(E: iset<(T, T)>, rep: imap<T, T>) {
    forall a, b {:trigger ExactAt(E, rep, a, b)} :: a in rep && b in rep ==> ExactAt(E, rep, a, b)
  }

  ghost predicate ExactAt<T(!new)>(E: iset<(T, T)>, rep: imap<T, T>, a: T, b: T)
    requires a in rep && b in rep
  {
    rep[a] == rep[b] <==> Connected(E, a, b)
  }

  /** A sound partition that joins the ends of every edge is exact. */
  lemma JoinedIsExact<T(!new)>(E: iset<(T, T)>, rep: imap<T, T>)
    requires Sound(E, rep) && Symmetric(E)
    requires forall c, d {:trigger (c, d) in E} :: (c, d) in E ==> c in rep && d in rep && rep[c] == rep[d]
    ensures Exact(E, rep)
  {
    forall a, b | a in rep && b in rep
      ensures ExactAt(E, rep, a, b)
    {
      if Connected(E, a, b) {
        ConstantOnConnected(E, rep, a, b);
      }
      if rep[a] == rep[b] {
        ConnectedSym(E, b, rep[b]);
        ConnectedTrans(E, a, rep[a], b);
      }
    }
  }

  /** Every node's class is named by one of its members. */
  ghost predicate Rooted<T(!new)>(rep: imap<T, T>) {
    forall x {:trigger rep[x]} :: x in rep ==> rep[x] in rep && rep[rep[x]] == rep[x]
  }

  lemma ForestRooted<T(!new)>(parent: imap<T, T>, rep: imap<T, T>, rank: imap<T, nat>)
    requires Forest(parent, rep, rank)
    ensures Rooted(rep)
  {
    forall x | x in rep ensures rep[x] in rep && rep[rep[x]] == rep[x] {
      assert NodeOk(parent, rep, rank, x);
    }
  }

  /** Renaming the root of one class changes no class. */
  lemma RenameKeepsExact<T(!new)>(E: iset<(T, T)>, rep: imap<T, T>, p: T, n: T)
    requires Exact(E, rep) && Rooted(rep)
    requires n in rep && rep[n] == p
    ensures Exact(E, Redirect(rep, p, n))
  {
    var rep' := Redirect(rep, p, n);
    forall a, b | a in rep' && b in rep'
      ensures ExactAt(E, rep', a, b)
    {
      assert ExactAt(E, rep, a, b);
      assert rep[a] in rep && rep[b] in rep;
      assert rep'[a] == rep'[b] <==> rep[a] == rep[b];
    }
  }
}
