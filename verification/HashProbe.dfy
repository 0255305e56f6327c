/** The probe sequence of stb_ds.h: buckets of eight slots visited at triangular distances. */
module HashProbe {
  import opened Sequences

  const BUCKET := 8

  ghost predicate IsPow2(n: nat)
    decreases n
  {
    n == 1 || (n > 1 && n % 2 == 0 && IsPow2(n / 2))
  }

  /** A table size: a power of two and at least one bucket. */
  ghost predicate TableSize(n: nat) {
    n % BUCKET == 0 && n >= BUCKET && IsPow2(n / BUCKET)
  }

  lemma TableSizes(n: nat)
    requires TableSize(n)
    ensures TableSize(2 * n)
    ensures n > BUCKET ==> n % 16 == 0 && TableSize(n / 2)
  {
    var m := n / BUCKET;
    assert n == 8 * m;
    assert (2 * n) / BUCKET == 2 * m && (2 * m) / 2 == m;
    if n > BUCKET {
      assert m % 2 == 0;
      assert n / 2 == 8 * (m / 2);
    }
  }

  /** The position the r-th round of probing starts from. */
  ghost function PosAt(h: nat, n: nat, r: nat): nat
    requires n > 0
    ensures PosAt(h, n, r) < n
  {
    if r == 0 then h % n else (PosAt(h, n, r - 1) + BUCKET * r) % n
  }

  /** The i-th slot looked at in the round starting at pos: to the end of the bucket, then from its beginning. */
  function SlotAt(pos: nat, i: nat): nat { pos - pos % BUCKET + (pos % BUCKET + i) % BUCKET }

  /** The t-th slot a search for hash h looks at. */
  ghost function Probe(h: nat, n: nat, t: nat): nat
    requires n > 0
  {
    SlotAt(PosAt(h, n, t / BUCKET), t % BUCKET)
  }

  ghost function Tri(r: nat): nat { if r == 0 then 0 else Tri(r - 1) + r }

  lemma {:induction false} TriTwice(r: nat)
    ensures 2 * Tri(r) == r * (r + 1)
  {
    if r > 0 { TriTwice(r - 1); }
  }

  lemma Distribute(n: int, a: int, b: int)
    ensures n * (a + b) == n * a + n * b && n * (a - b) == n * a - n * b
  {}

  lemma DivMod(x: int, n: int)
    requires n > 0
    ensures x == n * (x / n) + x % n
  {}

  /** Positions are the start plus triangular numbers of buckets, modulo the table size. */
  lemma {:induction false} PosClosedForm(h: nat, n: nat, r: nat) returns (c: int)
    requires n > 0
    ensures PosAt(h, n, r) == h % n + 8 * Tri(r) - n * c
  {
    if r == 0 {
      c := 0;
    } else {
      var c' := PosClosedForm(h, n, r - 1);
      var x := PosAt(h, n, r - 1) + BUCKET * r;
      DivMod(x, n);
      Distribute(n, c', x / n);
      c := c' + x / n;
    }
  }

  lemma UniqueMod(x: int, n: int, q: int, r: int)
    requires n > 0 && x == n * q + r && 0 <= r < n
    ensures x % n == r
  {
    DivMod(x, n);
    Distribute(n, q, x / n);
    Multiples(n, q - x / n);
  }

  /**
   The probe sequence in closed form: round r starts 4 r (r + 1) slots after the
   hash and takes the eight slots of that bucket in turn, wrapping inside it.
   */
  lemma ProbeClosedForm(h: nat, n: nat, t: nat)
    requires n > 0
    ensures var r := t / 8;
            var pos := (h + 4 * (r * (r + 1))) % n;
            Probe(h, n, t) == pos - pos % 8 + (pos % 8 + t % 8) % 8
  {
    hide PosAt;
    PosFromSquare(h, n, t / BUCKET);
  }

  lemma PosFromSquare(h: nat, n: nat, r: nat)
    requires n > 0
    ensures PosAt(h, n, r) == (h + 4 * (r * (r + 1))) % n
  {
    hide PosAt, Tri;
    var c := PosClosedForm(h, n, r);
    TriTwice(r);
    DivMod(h, n);
    Distribute(n, h / n, c);
    UniqueMod(h + 4 * (r * (r + 1)), n, h / n + c, PosAt(h, n, r));
  }

  lemma OddTimesOdd(a: int, b: int)
    requires a % 2 != 0 && b % 2 != 0
    ensures (a * b) % 2 != 0
  {
    var a', b' := a / 2, b / 2;
    var e := a' * b';
    assert a * b == (2 * a' + 1) * b == 2 * (a' * b) + b;
  }

  /** A power of two dividing a product with an odd factor divides the other factor. */
  lemma {:induction false} OddFactor(p: nat, a: int, b: int, c: int) returns (d: int)
    requires IsPow2(p) && a % 2 != 0 && a * b == p * c
    ensures b == p * d
    decreases p
  {
    if p == 1 {
      d := b;
    } else {
      var p' := p / 2;
      Halve(p, p', c);
      if b % 2 != 0 {
        OddTimesOdd(a, b);
        assert false;
      }
      var b' := b / 2;
      Halve(b, b', a);
      d := OddFactor(p', a, b', c);
      Halve(p, p', d);
    }
  }

  lemma Halve(p: int, p': int, c: int)
    requires p == 2 * p'
    ensures p * c == 2 * (p' * c) && c * p == 2 * (c * p')
  {}

  lemma Multiples(p: int, e: int)
    requires p > 0
    ensures e >= 1 ==> p * e >= p
    ensures e <= -1 ==> p * e <= -p
    ensures e == 0 ==> p * e == 0
  {}

  /** The difference of two triangular numbers, as a product. */
  lemma TriDifference(r: int, r': int)
    ensures (r - r') * (r + r' + 1) == r * (r + 1) - r' * (r' + 1)
  {
    Distribute(r - r', r, r' + 1);
    Distribute(r, r, r');
  }

  lemma TriProduct(r: nat, r': nat)
    ensures (r - r') * (r + r' + 1) == 2 * (Tri(r) - Tri(r'))
  {
    TriTwice(r);
    TriTwice(r');
    TriDifference(r, r');
  }

  /** Triangular numbers are different modulo a power of two. */
  lemma TriDistinct(m: nat, r: nat, r': nat, d: int)
    requires IsPow2(m) && r < m && r' < m && Tri(r) - Tri(r') == m * d
    ensures r == r'
  {
    hide Tri, IsPow2;
    TriProduct(r, r');
    Halve(2 * m, m, d);
    Doubled(m);
    assert (r - r') * (r + r' + 1) == (2 * m) * d;
    ProductOfRange(m, r - r', r + r' + 1, d);
  }

  lemma Doubled(m: nat)
    requires IsPow2(m)
    ensures IsPow2(2 * m)
  {
    assert (2 * m) / 2 == m;
  }

  /** 2m divides a * b, one factor is odd, and b is too small to be a multiple: so a is zero. */
  lemma ProductOfRange(m: nat, a: int, b: int, d: int)
    requires IsPow2(2 * m) && m > 0 && 0 < a + m && a < m && 0 < b < 2 * m && (a + b) % 2 == 1 && a * b == (2 * m) * d
    ensures a == 0
  {
    hide IsPow2;
    if a % 2 != 0 {
      var e := OddFactor(2 * m, a, b, d);
      Multiples(2 * m, e);
      assert false;
    } else {
      Commute(a, b);
      var e := OddFactor(2 * m, b, a, d);
      Multiples(2 * m, e);
    }
  }

  lemma Commute(a: int, b: int)
    ensures a * b == b * a
  {}

  /** Different rounds look at different buckets. */
  lemma RoundsDistinct(h: nat, n: nat, r: nat, r': nat)
    requires TableSize(n) && r < n / BUCKET && r' < n / BUCKET && PosAt(h, n, r) / BUCKET == PosAt(h, n, r') / BUCKET
    ensures r == r'
  {
    var m := n / BUCKET;
    var c := PosClosedForm(h, n, r);
    var c' := PosClosedForm(h, n, r');
    Eight(n, m, c);
    Eight(n, m, c');
    Distribute(m, c, c');
    TriDistinct(m, r, r', c - c');
  }

  lemma Eight(n: int, m: int, c: int)
    requires n == 8 * m
    ensures n * c == 8 * (m * c)
  {}

  lemma ProbeInRange(h: nat, n: nat, t: nat)
    requires TableSize(n)
    ensures 0 <= Probe(h, n, t) < n
    ensures Probe(h, n, t) / BUCKET == PosAt(h, n, t / BUCKET) / BUCKET
  {
    var pos := PosAt(h, n, t / BUCKET);
    var m := n / BUCKET;
    assert n == 8 * m && pos == 8 * (pos / 8) + pos % 8;
    assert pos / 8 < m;
  }

  /** No slot is looked at twice within slot_count / 8 rounds. */
  lemma ProbeDistinct(h: nat, n: nat, t: nat, t': nat)
    requires TableSize(n) && t < n && t' < n && Probe(h, n, t) == Probe(h, n, t')
    ensures t == t'
  {
    var m := n / BUCKET;
    assert n == 8 * m;
    ProbeInRange(h, n, t);
    ProbeInRange(h, n, t');
    assert t / BUCKET < m && t' / BUCKET < m;
    RoundsDistinct(h, n, t / BUCKET, t' / BUCKET);
    SameOffset(PosAt(h, n, t / BUCKET), t % BUCKET, t' % BUCKET);
  }

  lemma SameOffset(pos: nat, i: nat, i': nat)
    requires i < BUCKET && i' < BUCKET && SlotAt(pos, i) == SlotAt(pos, i')
    ensures i == i'
  {}

  /** slot_count / 8 rounds reach every slot. */
  lemma ProbeReachesAll(h: nat, n: nat, s: nat) returns (t: nat)
    requires TableSize(n) && s < n
    ensures t < n && Probe(h, n, t) == s
  {
    var q := seq(n, i requires 0 <= i < n => Probe(h, n, i) as int);
    forall i, j | 0 <= i < j < |q| ensures q[i] != q[j] {
      if q[i] == q[j] { ProbeDistinct(h, n, i, j); }
    }
    forall i | 0 <= i < |q| ensures 0 <= q[i] < n { ProbeInRange(h, n, i); }
    DistinctCardinality(q);
    assert Elements(q) <= Below(n);
    if s !in Elements(q) {
      SubsetCardinality(Elements(q), Below(n) - {s});
      assert false;
    }
    var i :| 0 <= i < |q| && q[i] == s;
    t := i;
  }
}
