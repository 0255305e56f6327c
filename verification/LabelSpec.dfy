/** What the labels of a cluster's squares mean, and what each labelling pass keeps. */
module LabelSpec {
  import opened Paths
  import opened Forests
  import opened Partitions
  import opened GridModel
  import opened Counting

  /**
   In-cluster labelling is exact: closed squares carry the null id, open squares
   the number of their component, the numbers in use are 0 .. numClumps - 1, and
   the components that touch the border come first.
   */
  ghost predicate LabelsOk(s: int, L: iset<Cell>, id: imap<Cell, int>, numEdge: int, numClumps: int)
  {
    && id.Keys == Box(s)
    && 0 <= numEdge <= numClumps <= MaxClumps(s)
    && numEdge <= MaxEdgeClumps(s)
    && (forall l {:trigger id[l]} :: InBox(s, l) ==> if l in L then 0 <= id[l] < numClumps else id[l] == MaxClumps(s))
    && (forall l {:trigger id[l]} :: InBox(s, l) && l in L && OnBorder(s, l) ==> id[l] < numEdge)
    && (forall a, b {:trigger id[a], id[b]} :: InBox(s, a) && InBox(s, b) && a in L && b in L ==>
          (id[a] == id[b] <==> Connected(Edges(L), a, b)))
    && (forall c {:trigger HasClump(s, L, id, c)} :: 0 <= c < numClumps ==> HasClump(s, L, id, c))
    && (forall c {:trigger HasEdgeClump(s, L, id, c)} :: 0 <= c < numEdge ==> HasEdgeClump(s, L, id, c))
  }

  ghost predicate HasClump(s: int, L: iset<Cell>, id: imap<Cell, int>, c: int)
    requires id.Keys == Box(s)
  {
    exists l {:trigger id[l]} :: InBox(s, l) && l in L && id[l] == c
  }

  ghost predicate HasEdgeClump(s: int, L: iset<Cell>, id: imap<Cell, int>, c: int)
    requires id.Keys == Box(s)
  {
    exists l {:trigger id[l]} :: InBox(s, l) && l in L && OnBorder(s, l) && id[l] == c
  }

  /** q lists the labelled roots in label order. */
  ghost predicate Leaders(s: int, L: iset<Cell>, rep: imap<Cell, Cell>, lab: imap<Cell, int>, q: seq<Cell>)
    requires rep.Keys == Box(s) == lab.Keys
  {
    forall k {:trigger q[k]} :: 0 <= k < |q| ==> InBox(s, q[k]) && q[k] in L && rep[q[k]] == q[k] && lab[q[k]] == k
  }

  /** Square l has been given a label as the root of its class. */
  ghost predicate Led(s: int, lab: imap<Cell, int>, q: seq<Cell>, l: Cell)
    requires l in lab
  {
    0 <= lab[l] < |q| && q[lab[l]] == l
  }

  /** State of the passes over the border, `seen` being the squares visited so far. */
  ghost predicate EdgePass(s: int, L: iset<Cell>, rep: imap<Cell, Cell>, lab: imap<Cell, int>, q: seq<Cell>,
                           seen: iset<Cell>)
  {
    && rep.Keys == Box(s) == lab.Keys
    && Leaders(s, L, rep, lab, q)
    && (forall k {:trigger q[k]} :: 0 <= k < |q| ==> OnBorder(s, q[k]) && q[k] in seen)
    && (forall l {:trigger l in seen} :: l in seen ==>
          && InBox(s, l) && OnBorder(s, l)
          && (l in L ==> OnBorder(s, rep[l]) && (rep[l] == l ==> Led(s, lab, q, l))))
    && (forall l {:trigger lab[l]} :: InBox(s, l) && OnBorder(s, l) && l !in L ==> lab[l] == MaxClumps(s))
  }

  lemma VisitSkip(s: int, L: iset<Cell>, rep: imap<Cell, Cell>, lab: imap<Cell, int>, q: seq<Cell>, seen: iset<Cell>,
                  v: Cell)
    requires EdgePass(s, L, rep, lab, q, seen) && InBox(s, v) && OnBorder(s, v)
    requires v in L ==> rep[v] != v && OnBorder(s, rep[v])
    ensures EdgePass(s, L, rep, lab, q, seen + iset{v})
  {}

  lemma VisitLeader(s: int, L: iset<Cell>, rep: imap<Cell, Cell>, lab: imap<Cell, int>, q: seq<Cell>, seen: iset<Cell>,
                    v: Cell)
    requires EdgePass(s, L, rep, lab, q, seen) && InBox(s, v) && OnBorder(s, v) && v in L && v !in seen
    requires rep[v] == v
    ensures EdgePass(s, L, rep, lab[v := |q|], q + [v], seen + iset{v})
  {
    var lab', q' := lab[v := |q|], q + [v];
    assert lab'.Keys == lab.Keys;
    assert forall k {:trigger q'[k]} :: 0 <= k < |q| ==> q'[k] == q[k];
    assert Leaders(s, L, rep, lab', q');
  }

  /** Promoting a border square to root of a class led from the interior. */
  lemma VisitPromote(s: int, L: iset<Cell>, rep: imap<Cell, Cell>, lab: imap<Cell, int>, q: seq<Cell>, seen: iset<Cell>,
                     v: Cell)
    requires EdgePass(s, L, rep, lab, q, seen) && InBox(s, v) && OnBorder(s, v) && v in L && v !in seen
    requires !OnBorder(s, rep[v])
    ensures EdgePass(s, L, Redirect(rep, rep[v], v), lab, q, seen)
  {
    assert Leaders(s, L, Redirect(rep, rep[v], v), lab, q);
  }

  lemma ConnectedStays(L: iset<Cell>, a: Cell, b: Cell)
    requires Connected(Edges(L), a, b)
    ensures a == b || (a in L && b in L)
  {
    var p :| PathFromTo(Edges(L), p, a, b);
    if |p| > 1 {
      assert (p[0], p[0 + 1]) in Edges(L);
      assert (p[|p| - 2], p[|p| - 2 + 1]) in Edges(L);
    }
  }

  lemma RootStays(s: int, L: iset<Cell>, rep: imap<Cell, Cell>, l: Cell)
    requires Exact(Edges(L), rep) && Rooted(rep) && l in rep
    ensures rep[l] == l || (l in L && rep[l] in L)
  {
    assert rep[rep[l]] == rep[l];
    assert ExactAt(Edges(L), rep, l, rep[l]);
    ConnectedStays(L, l, rep[l]);
  }

  predicate Before(j: int, i: int, l: Cell) { l.y < j || (l.y == j && l.x < i) }

  /** State of the pass over the interior, which has visited the squares before (i, j). */
  ghost predicate InteriorPass(s: int, L: iset<Cell>, rep: imap<Cell, Cell>, lab: imap<Cell, int>, q: seq<Cell>,
                               numEdge: int, j: int, i: int)
  {
    && rep.Keys == Box(s) == lab.Keys && Rooted(rep)
    && 0 <= numEdge <= |q|
    && Leaders(s, L, rep, lab, q)
    && (forall k {:trigger q[k]} :: 0 <= k < |q| ==> (k < numEdge <==> OnBorder(s, q[k])))
    && (forall k {:trigger q[k]} :: numEdge <= k < |q| ==> Before(j, i, q[k]))
    && (forall l {:trigger rep[l]} :: InBox(s, l) && OnBorder(s, l) && l in L ==> OnBorder(s, rep[l]))
    && (forall l {:trigger rep[l]} :: InBox(s, l) && rep[l] == l && (OnBorder(s, l) || Before(j, i, l)) ==>
          if l in L then Led(s, lab, q, l) else lab[l] == MaxClumps(s))
  }

  /**
   The squares visited by the border passes up to row j (left and right columns) and
   column i (top and bottom rows).
   */
  ghost function BorderSeen(s: int, j: int, i: int): iset<Cell> {
    iset l: Cell | InBox(s, l)
        && (((l.x == 0 || l.x == s - 1) && l.y < j) || ((l.y == 0 || l.y == s - 1) && 1 <= l.x < i))
  }

  /** The squares the border passes visit in a cluster of sx x sy squares: the last pass runs x up to the y size. */
  ghost predicate PassVisits(sx: int, sy: int, l: Cell) {
    || ((l.x == 0 || l.x == sx - 1) && 0 <= l.y < sy)
    || ((l.y == 0 || l.y == sy - 1) && 1 <= l.x < sy - 1)
  }

  ghost predicate InBorder(sx: int, sy: int, l: Cell) {
    0 <= l.x < sx && 0 <= l.y < sy && (l.x == 0 || l.x == sx - 1 || l.y == 0 || l.y == sy - 1)
  }

  /** On a square cluster these are the squares `BorderSeen` has when the passes are done. */
  lemma PassVisitsAll(s: int, l: Cell)
    requires s >= 2
    ensures PassVisits(s, s, l) <==> l in BorderSeen(s, s, s - 1)
  {}

  /** The passes visit exactly the border squares if and only if the cluster is square. */
  lemma PassCoversBorderIffSquare(sx: int, sy: int)
    requires sx >= 2 && sy >= 2 && sx % 2 == 0 && sy % 2 == 0
    ensures (forall l :: PassVisits(sx, sy, l) <==> InBorder(sx, sy, l)) <==> sx == sy
  {
    assert sx > sy ==> InBorder(sx, sy, Cell(sx - 2, 0)) && !PassVisits(sx, sy, Cell(sx - 2, 0));
    assert sx < sy ==> PassVisits(sx, sy, Cell(sy - 2, 0)) && !InBorder(sx, sy, Cell(sy - 2, 0));
  }

  /** A border square no pass visits. */
  ghost predicate Missed(sx: int, sy: int, v: Cell) { InBorder(sx, sy, v) && !PassVisits(sx, sy, v) }

  /**
   The labelling passes on a cluster at least as wide as high whose one open
   square is v, so that every square leads itself. Square v is left with the null
   id, as if it were closed, exactly when it is a border square the passes miss.
   */
  method LabelLoneSquare(sx: int, sy: int, v: Cell) returns (labels: array2<int>)
    requires sx >= sy >= 2 && sx % 2 == 0 && sy % 2 == 0 && 0 <= v.x < sx && 0 <= v.y < sy
    ensures labels.Length0 == sy && labels.Length1 == sx
    ensures labels[v.y, v.x] == sx * sy / 2 <==> Missed(sx, sy, v)
  {
    var n, none := 0, sx * sy / 2;
    MulMono(2, sx, sy);
    labels := new int[sy, sx];
    for j := 0 to sy
      invariant InBorder(sx, sy, v) && (v.x == 0 || v.x == sx - 1) && v.y < j ==> labels[v.y, v.x] == none
    {
      labels[j, 0], labels[j, sx - 1] := none, none;
    }
    for i := 0 to sx
      invariant InBorder(sx, sy, v) && (v.x == 0 || v.x == sx - 1 || v.x < i) ==> labels[v.y, v.x] == none
    {
      labels[0, i], labels[sy - 1, i] := none, none;
    }
    for j := 0 to sy
      invariant n == if (v.x == 0 || v.x == sx - 1) && v.y < j then 1 else 0
      invariant InBorder(sx, sy, v) ==> labels[v.y, v.x] == if n == 1 then 0 else none
    {
      if v == Cell(0, j) { labels[j, 0], n := n, n + 1; }
      if v == Cell(sx - 1, j) { labels[j, sx - 1], n := n, n + 1; }
    }
    for i := 1 to sy - 1
      invariant n == if v.x == 0 || v.x == sx - 1 || ((v.y == 0 || v.y == sy - 1) && v.x < i) then 1 else 0
      invariant InBorder(sx, sy, v) ==> labels[v.y, v.x] == if n == 1 then 0 else none
    {
      if v == Cell(i, 0) { labels[0, i], n := n, n + 1; }
      if v == Cell(i, sy - 1) { labels[sy - 1, i], n := n, n + 1; }
    }
    for j := 1 to sy - 1
      invariant InBorder(sx, sy, v) ==> labels[v.y, v.x] == if PassVisits(sx, sy, v) then 0 else none
      invariant !InBorder(sx, sy, v) && v.y < j ==> labels[v.y, v.x] == 0
      invariant !InBorder(sx, sy, v) && v.y >= j ==> n == 0
    {
      for i := 1 to sx - 1
        invariant InBorder(sx, sy, v) ==> labels[v.y, v.x] == if PassVisits(sx, sy, v) then 0 else none
        invariant !InBorder(sx, sy, v) && (v.y < j || (v.y == j && v.x < i)) ==> labels[v.y, v.x] == 0
        invariant !InBorder(sx, sy, v) && (v.y > j || (v.y == j && v.x >= i)) ==> n == 0
      {
        if v == Cell(i, j) {
          labels[j, i], n := n, n + 1;
        } else {
          labels[j, i] := none;
        }
      }
    }
  }

  /** Every lone open square gets a label if and only if the cluster is not wider than high. */
  lemma NoneMissedIffNotWider(sx: int, sy: int)
    requires sx >= 2 && sy >= 2
    ensures (forall v :: !Missed(sx, sy, v)) <==> sx <= sy
  {
    assert sx > sy ==> Missed(sx, sy, Cell(sx - 2, 0));
  }

  /** On a cluster higher than wide, and on no other, the last pass leaves the cluster. */
  lemma VisitsOutsideIffHigher(sx: int, sy: int)
    requires sx >= 2 && sy >= 2 && sx % 2 == 0 && sy % 2 == 0
    ensures (exists l :: PassVisits(sx, sy, l) && !(0 <= l.x < sx && 0 <= l.y < sy)) <==> sx < sy
  {
    assert sx < sy ==> PassVisits(sx, sy, Cell(sy - 2, 0));
  }

  lemma EdgePassDone(s: int, L: iset<Cell>, rep: imap<Cell, Cell>, lab: imap<Cell, int>, q: seq<Cell>)
    requires s >= 2 && EdgePass(s, L, rep, lab, q, BorderSeen(s, s, s - 1)) && Rooted(rep)
    ensures InteriorPass(s, L, rep, lab, q, |q|, 1, 1)
  {
    forall l | InBox(s, l) && OnBorder(s, l)
      ensures l in BorderSeen(s, s, s - 1)
    {}
  }

  lemma VisitInterior(s: int, L: iset<Cell>, rep: imap<Cell, Cell>, lab: imap<Cell, int>, q: seq<Cell>, numEdge: int,
                      j: int, i: int)
    requires InteriorPass(s, L, rep, lab, q, numEdge, j, i)
    requires 1 <= j < s - 1 && 1 <= i < s - 1
    ensures var v := Cell(i, j);
            if rep[v] != v then InteriorPass(s, L, rep, lab, q, numEdge, j, i + 1)
            else if v in L then InteriorPass(s, L, rep, lab[v := |q|], q + [v], numEdge, j, i + 1)
            else InteriorPass(s, L, rep, lab[v := MaxClumps(s)], q, numEdge, j, i + 1)
  {
    var v := Cell(i, j);
    assert !Before(j, i, v) && !OnBorder(s, v);
    if rep[v] == v && v in L {
      var lab', q' := lab[v := |q|], q + [v];
      assert lab'.Keys == lab.Keys;
      assert forall k {:trigger q'[k]} :: 0 <= k < |q| ==> q'[k] == q[k];
      assert Leaders(s, L, rep, lab', q');
    } else if rep[v] == v {
      assert lab[v := MaxClumps(s)].Keys == lab.Keys;
    }
  }

  /** State of the last pass: every root has its final label, the other squares before (i, j) copy it. */
  ghost predicate FillPass(s: int, L: iset<Cell>, rep: imap<Cell, Cell>, lab: imap<Cell, int>, q: seq<Cell>,
                           numEdge: int, j: int, i: int)
  {
    && InteriorPass(s, L, rep, lab, q, numEdge, s, 0)
    && (forall l {:trigger rep[l]} :: InBox(s, l) && l in L && Before(j, i, l) ==> lab[l] == lab[rep[l]])
  }

  lemma FillStep(s: int, L: iset<Cell>, rep: imap<Cell, Cell>, lab: imap<Cell, int>, q: seq<Cell>, numEdge: int, j: int,
                 i: int)
    requires FillPass(s, L, rep, lab, q, numEdge, j, i)
    requires InBox(s, Cell(i, j))
    ensures var v := Cell(i, j);
            if rep[v] != v && v in L then FillPass(s, L, rep, lab[v := lab[rep[v]]], q, numEdge, j, i + 1)
            else FillPass(s, L, rep, lab, q, numEdge, j, i + 1)
  {
    var v := Cell(i, j);
    if rep[v] != v && v in L {
      assert lab[v := lab[rep[v]]].Keys == lab.Keys;
      assert Leaders(s, L, rep, lab[v := lab[rep[v]]], q);
    }
  }

  /** Labels never run out: distinct roots are distinct components. */
  lemma LeadersBound(s: int, L: iset<Cell>, rep: imap<Cell, Cell>, lab: imap<Cell, int>, q: seq<Cell>, numEdge: int,
                     j: int, i: int)
    requires s >= 2 && s % 2 == 0
    requires InteriorPass(s, L, rep, lab, q, numEdge, j, i) && Exact(Edges(L), rep)
    ensures |q| <= MaxClumps(s) == s * s / 2 && numEdge <= MaxEdgeClumps(s) == 2 * s - 2
  {
    forall i, j | 0 <= i < j < |q| ensures q[i] != q[j] && !Connected(Edges(L), q[i], q[j]) {
      assert ExactAt(Edges(L), rep, q[i], q[j]);
    }
    ComponentsBound(s, L, q);
    var e := q[..numEdge];
    assert forall k :: 0 <= k < |e| ==> e[k] == q[k];
    BorderComponentsBound(s, L, e);
  }

  lemma FillDone(s: int, L: iset<Cell>, rep: imap<Cell, Cell>, lab: imap<Cell, int>, q: seq<Cell>, numEdge: int)
    requires s >= 2 && s % 2 == 0
    requires FillPass(s, L, rep, lab, q, numEdge, s, 0) && Exact(Edges(L), rep)
    ensures LabelsOk(s, L, lab, numEdge, |q|)
  {
    LeadersBound(s, L, rep, lab, q, numEdge, s, 0);
    forall l | InBox(s, l)
      ensures l in L ==> lab[l] == lab[rep[l]] && Led(s, lab, q, rep[l])
      ensures l in L && OnBorder(s, l) ==> lab[l] < numEdge
      ensures l !in L ==> lab[l] == MaxClumps(s)
    {
      RootStays(s, L, rep, l);
      assert rep[l] in rep && rep[rep[l]] == rep[l];
    }
    forall a, b | InBox(s, a) && InBox(s, b) && a in L && b in L
      ensures lab[a] == lab[b] <==> Connected(Edges(L), a, b)
    {
      assert ExactAt(Edges(L), rep, a, b);
      assert rep[a] == q[lab[a]] && rep[b] == q[lab[b]];
    }
    forall c | 0 <= c < |q|
      ensures HasClump(s, L, lab, c) && (c < numEdge ==> HasEdgeClump(s, L, lab, c))
    {
      assert lab[q[c]] == c;
    }
  }
}
