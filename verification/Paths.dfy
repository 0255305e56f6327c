/** Connectivity in an arbitrary graph given by its set of edges. */
module Paths {

  /** A non-empty walk that follows an edge at every step. */
  ghost predicate IsPath<T(!new)>(E: iset<(T, T)>, p: seq<T>) {
    |p| > 0 && forall i :: 0 <= i < |p| - 1 ==> (p[i], p[i + 1]) in E
  }

  ghost predicate PathFromTo<T(!new)>(E: iset<(T, T)>, p: seq<T>, a: T, b: T) {
    IsPath(E, p) && p[0] == a && p[|p| - 1] == b
  }

  ghost predicate Connected<T(!new)>(E: iset<(T, T)>, a: T, b: T) {
    exists p :: PathFromTo(E, p, a, b)
  }

  ghost predicate Symmetric<T(!new)>(E: iset<(T, T)>) {
    forall a, b :: (a, b) in E ==> (b, a) in E
  }

  lemma ConnectedRefl<T(!new)>(E: iset<(T, T)>, a: T)
    ensures Connected(E, a, a)
  {
    assert PathFromTo(E, [a], a, a);
  }

  lemma ConnectedEdge<T(!new)>(E: iset<(T, T)>, a: T, b: T)
    requires (a, b) in E
    ensures Connected(E, a, b)
  {
    assert PathFromTo(E, [a, b], a, b);
  }

  lemma FirstEdge<T(!new)>(E: iset<(T, T)>, a: T, b: T)
    requires Connected(E, a, b) && a != b
    ensures exists c :: (a, c) in E
  {
    var p :| PathFromTo(E, p, a, b);
    assert (p[0], p[0 + 1]) in E;
  }

  /** More edges connect no less. */
  lemma ConnectedMore<T(!new)>(E: iset<(T, T)>, E': iset<(T, T)>, a: T, b: T)
    requires Connected(E, a, b) && forall e :: e in E ==> e in E'
    ensures Connected(E', a, b)
  {
    var p :| PathFromTo(E, p, a, b);
    assert PathFromTo(E', p, a, b);
  }

  lemma ConnectedTrans<T(!new)>(E: iset<(T, T)>, a: T, b: T, c: T)
    requires Connected(E, a, b) && Connected(E, b, c)
    ensures Connected(E, a, c)
  {
    var p :| PathFromTo(E, p, a, b);
    var q :| PathFromTo(E, q, b, c);
    var r := p + q[1..];
    forall i | 0 <= i < |r| - 1 ensures (r[i], r[i + 1]) in E {
      if i >= |p| - 1 {
        var k := i - (|p| - 1);
        assert r[i] == q[k] && r[i + 1] == q[k + 1];
      }
    }
    assert PathFromTo(E, r, a, c);
  }

  lemma ConnectedSym<T(!new)>(E: iset<(T, T)>, a: T, b: T)
    requires Symmetric(E) && Connected(E, a, b)
    ensures Connected(E, b, a)
  {
    var p :| PathFromTo(E, p, a, b);
    var r := seq(|p|, i requires 0 <= i < |p| => p[|p| - 1 - i]);
    forall i | 0 <= i < |r| - 1 ensures (r[i], r[i + 1]) in E {
      assert (p[|p| - 2 - i], p[|p| - 2 - i + 1]) in E;
    }
    assert PathFromTo(E, r, b, a);
  }

  /** A labelling that no edge changes is constant on every connected pair. */
  lemma {:induction false} ConstantOnPath<T(!new), L(!new)>(E: iset<(T, T)>, f: imap<T, L>, p: seq<T>)
    requires IsPath(E, p) && p[0] in f
    requires forall a, b :: (a, b) in E && a in f ==> b in f && f[a] == f[b]
    ensures p[|p| - 1] in f && f[p[0]] == f[p[|p| - 1]]
  {
    if |p| > 1 {
      var q := p[..|p| - 1];
      ConstantOnPath(E, f, q);
      assert (p[|p| - 2], p[|p| - 2 + 1]) in E;
    }
  }

  lemma ConstantOnConnected<T(!new), L(!new)>(E: iset<(T, T)>, f: imap<T, L>, a: T, b: T)
    requires Connected(E, a, b) && a in f
    requires forall c, d :: (c, d) in E && c in f ==> d in f && f[c] == f[d]
    ensures b in f && f[a] == f[b]
  {
    var p :| PathFromTo(E, p, a, b);
    ConstantOnPath(E, f, p);
  }

  /** Connectivity is carried along by any map that keeps edges connected. */
  lemma {:induction false} PathImage<T(!new), U(!new)>(E: iset<(T, T)>, F: iset<(U, U)>, f: imap<T, U>, p: seq<T>)
    requires IsPath(E, p) && p[0] in f
    requires forall a, b :: (a, b) in E && a in f ==> b in f && Connected(F, f[a], f[b])
    ensures p[|p| - 1] in f && Connected(F, f[p[0]], f[p[|p| - 1]])
  {
    if |p| == 1 {
      ConnectedRefl(F, f[p[0]]);
    } else {
      var q := p[..|p| - 1];
      PathImage(E, F, f, q);
      assert (p[|p| - 2], p[|p| - 2 + 1]) in E;
      ConnectedTrans(F, f[p[0]], f[p[|p| - 2]], f[p[|p| - 1]]);
    }
  }

  lemma ConnectedImage<T(!new), U(!new)>(E: iset<(T, T)>, F: iset<(U, U)>, f: imap<T, U>, a: T, b: T)
    requires Connected(E, a, b) && a in f
    requires forall c, d :: (c, d) in E && c in f ==> d in f && Connected(F, f[c], f[d])
    ensures b in f && Connected(F, f[a], f[b])
  {
    var p :| PathFromTo(E, p, a, b);
    PathImage(E, F, f, p);
  }
}
