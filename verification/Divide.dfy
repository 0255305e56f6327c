/**
 The three pairs of division and modulus of stb_divide.h, built from a native 32-bit
 division that is only partly known.
 */
module Divide {

  const INT_MIN: int := -0x8000_0000
  const INT_MAX: int := 0x7FFF_FFFF

  predicate Int32(x: int) { INT_MIN <= x <= INT_MAX }

  /** 32-bit arithmetic wraps around. */
  function Wrap(x: int): (r: int)
    ensures Int32(r) && (Int32(x) ==> r == x)
  {
    (x + 0x8000_0000) % 0x1_0000_0000 - 0x8000_0000
  }

  function Neg(x: int): int { Wrap(-x) }
  function Add(x: int, y: int): int { Wrap(x + y) }
  function Sub(x: int, y: int): int { Wrap(x - y) }

  function Abs(x: int): nat { if x < 0 then -x else x }

  /** q and r are a quotient and a remainder of a by b. */
  predicate Splits(a: int, b: int, q: int, r: int) { a == q * b + r && Abs(r) < Abs(b) }

  /** Rounding to zero: the remainder has the sign of a. */
  predicate Truncates(a: int, b: int, q: int, r: int) { Splits(a, b, q, r) && (a >= 0 ==> r >= 0)
                      && (a <= 0 ==> r <= 0) }

  /** Rounding down: the remainder has the sign of b. */
  predicate Floors(a: int, b: int, q: int, r: int) { Splits(a, b, q, r) && (b >= 0 ==> r >= 0) && (b <= 0 ==> r <= 0) }

  /** Rounding so that the remainder is not negative. */
  predicate Euclidean(a: int, b: int, q: int, r: int) { Splits(a, b, q, r) && r >= 0 }

  /** The pairs of operands for which C's division is defined. */
  predicate Divisible(a: int, b: int) { Int32(a) && Int32(b) && b != 0 && !(a == INT_MIN && b == -1) }

  /** The machine's own division and remainder. */
  datatype Native = Native(div: (int, int) -> int, mod: (int, int) -> int)

  predicate Mixed(a: int, b: int) { (a < 0 && b > 0) || (a > 0 && b < 0) }

  /** All that is assumed of it: it truncates equal signs, and truncates or floors, pair by pair, on mixed signs. */
  ghost predicate Sound(p: Native) {
    forall a, b {:trigger p.div(a, b)} {:trigger p.mod(a, b)} :: Divisible(a, b) ==>
      || Truncates(a, b, p.div(a, b), p.mod(a, b))
      || (Mixed(a, b) && Floors(a, b, p.div(a, b), p.mod(a, b)))
  }

  function Quot(p: Native, a: int, b: int): int
    requires Divisible(a, b)
  {
    p.div(a, b)
  }

  function Rem(p: Native, a: int, b: int): int
    requires Divisible(a, b)
  {
    p.mod(a, b)
  }

  function DivTrunc(p: Native, v1: int, v2: int): int
    requires Divisible(v1, v2)
  {
    if v1 >= 0 && v2 <= 0 then Neg(Quot(p, Neg(v1), v2))
    else if v1 <= 0 && v2 >= 0 then
      if v1 != INT_MIN then Neg(Quot(p, v1, Neg(v2)))
      else Sub(Neg(Quot(p, Add(v1, v2), Neg(v2))), 1)
    else Quot(p, v1, v2)
  }

  function DivFloor(p: Native, v1: int, v2: int): int
    requires Divisible(v1, v2)
  {
    if v1 >= 0 && v2 < 0 then
      if Add(Add(Neg(v1), v2), 1) < 0 then Neg(Quot(p, Add(Add(Neg(v1), v2), 1), v2))
      else Add(Neg(Quot(p, Neg(v1), v2)), if Rem(p, Neg(v1), v2) != 0 then -1 else 0)
    else if v1 < 0 && v2 >= 0 then
      if v1 != INT_MIN then
        if Add(Sub(v1, v2), 1) < 0 then Neg(Quot(p, Add(Sub(v1, v2), 1), Neg(v2)))
        else Add(Neg(Quot(p, Neg(v1), v2)), if Rem(p, v1, Neg(v2)) != 0 then -1 else 0)
      else
        Add(Neg(Quot(p, Neg(Add(v1, v2)), v2)), if Rem(p, Neg(Add(v1, v2)), v2) != 0 then -2 else -1)
    else Quot(p, v1, v2)
  }

  /** The quotient and remainder from which stb_div_eucl corrects its result. */
  function EuclParts(p: Native, v1: int, v2: int): (int, int)
    requires Divisible(v1, v2)
  {
    if v1 >= 0 then
      if v2 >= 0 then (Quot(p, v1, v2), 0)
      else if v2 != INT_MIN then (Neg(Quot(p, v1, Neg(v2))), Rem(p, v1, Neg(v2)))
      else (0, v1)
    else if v1 != INT_MIN then
      if v2 >= 0 then (Neg(Quot(p, Neg(v1), v2)), Neg(Rem(p, Neg(v1), v2)))
      else if v2 != INT_MIN then (Quot(p, Neg(v1), Neg(v2)), Neg(Rem(p, Neg(v1), Neg(v2))))
      else (1, Sub(v1, v2))
    else if v2 >= 0 then
      (Sub(Neg(Quot(p, Neg(Add(v1, v2)), v2)), 1), Neg(Rem(p, Neg(Add(v1, v2)), v2)))
    else
      (Add(Quot(p, Neg(Sub(v1, v2)), Neg(v2)), 1), Neg(Rem(p, Neg(Sub(v1, v2)), Neg(v2))))
  }

  function DivEucl(p: Native, v1: int, v2: int): int
    requires Divisible(v1, v2)
  {
    var (q, r) := EuclParts(p, v1, v2);
    if r >= 0 then q else Add(q, if v2 > 0 then -1 else 1)
  }

  function ModTrunc(p: Native, v1: int, v2: int): int
    requires Divisible(v1, v2)
  {
    var r := Rem(p, v1, v2);
    if v1 >= 0 then (if r >= 0 then r else Add(r, if v2 > 0 then v2 else Neg(v2)))
    else (if r <= 0 then r else Sub(r, if v2 > 0 then v2 else Neg(v2)))
  }

  function ModFloor(p: Native, v1: int, v2: int): int
    requires Divisible(v1, v2)
  {
    var r := Rem(p, v1, v2);
    if v2 >= 0 then (if r >= 0 then r else Add(r, v2))
    else (if r <= 0 then r else Add(r, v2))
  }

  function ModEucl(p: Native, v1: int, v2: int): int
    requires Divisible(v1, v2)
  {
    var r := Rem(p, v1, v2);
    if r >= 0 then r else Add(r, if v2 > 0 then v2 else Neg(v2))
  }

  // Arithmetic of quotients.

  lemma Unique(b: int, q1: int, r1: int, q2: int, r2: int)
    requires q1 * b + r1 == q2 * b + r2 && Abs(r1 - r2) < Abs(b)
    ensures q1 == q2 && r1 == r2
  {
    var d := q1 - q2;
    assert d * b == r2 - r1;
    Laws(d, b);
    if d > 0 { Times(d, b); } else if d < 0 { Times(-d, b); }
  }

  lemma Times(d: int, b: int)
    requires d > 0
    ensures Abs(d * b) >= Abs(b)
  {
    if b >= 0 { assert d * b == b + (d - 1) * b; } else { assert d * b == b + (d - 1) * b; }
  }

  /** Moving a dividend by the divisor moves the quotient by one; changing signs changes signs. */
  lemma Laws(q: int, b: int)
    ensures (-q) * b == -(q * b) && q * (-b) == -(q * b) && (-q) * (-b) == q * b
    ensures (q + 1) * b == q * b + b && (q - 1) * b == q * b - b
  {}

  /** Each of the three roundings has one quotient and one remainder. */
  lemma OneResult(a: int, b: int, q1: int, r1: int, q2: int, r2: int)
    requires b != 0
    requires
      || (Truncates(a, b, q1, r1) && Truncates(a, b, q2, r2))
      || (Floors(a, b, q1, r1) && Floors(a, b, q2, r2))
      || (Euclidean(a, b, q1, r1) && Euclidean(a, b, q2, r2))
    ensures q1 == q2 && r1 == r2
  {
    Unique(b, q1, r1, q2, r2);
  }

  /** A quotient of 32-bit operands is a 32-bit number. */
  lemma QuotientFits(a: int, b: int, q: int, r: int)
    requires Divisible(a, b) && Splits(a, b, q, r)
    ensures Int32(q)
  {
    if Abs(b) >= 2 {
      AtLeastDouble(q, b);
    } else if b == -1 {
      assert q * b == -q;
    }
  }

  lemma NonNegative(x: int, y: int)
    requires x >= 0 && y >= 0
    ensures x * y >= 0
  {}

  lemma AtLeastDouble(q: int, b: int)
    requires Abs(b) >= 2
    ensures Abs(q * b) >= 2 * Abs(q)
  {
    var m := Abs(q) * Abs(b);
    NonNegative(Abs(q), Abs(b) - 2);
    assert m == 2 * Abs(q) + Abs(q) * (Abs(b) - 2);
    Laws(q, b);
    assert m == q * b || m == -(q * b);
  }

  // How a quotient changes with its operands.

  lemma NegateBoth(a: int, b: int, q: int, r: int)
    requires Splits(-a, b, q, r)
    ensures Splits(a, b, -q, -r) && (Divisible(a, b) ==> Int32(-q))
  {
    Laws(q, b);
    if Divisible(a, b) { QuotientFits(a, b, -q, -r); }
  }

  lemma NegateDivisor(a: int, b: int, q: int, r: int)
    requires Splits(a, -b, q, r)
    ensures Splits(a, b, -q, r) && (Divisible(a, b) ==> Int32(-q))
  {
    Laws(q, b);
    if Divisible(a, b) { QuotientFits(a, b, -q, r); }
  }

  lemma Shift(a: int, b: int, q: int, r: int)
    requires Splits(a + b, b, q, r)
    ensures Splits(a, b, q - 1, r) && (Divisible(a, b) ==> Int32(q - 1))
  {
    Laws(q, b);
    if Divisible(a, b) { QuotientFits(a, b, q - 1, r); }
  }

  /** The native facts about one pair of operands. */
  lemma At(p: Native, a: int, b: int)
    requires Sound(p) && Divisible(a, b)
    ensures var q, r := Quot(p, a, b), Rem(p, a, b);
            && Int32(q) && Splits(a, b, q, r) && Abs(r) <= INT_MAX
            && (Truncates(a, b, q, r) || (Mixed(a, b) && Floors(a, b, q, r)))
  {
    assert p.div(a, b) == p.div(a, b);
    QuotientFits(a, b, p.div(a, b), p.mod(a, b));
  }

  lemma DivTruncates(p: Native, v1: int, v2: int) returns (r: int)
    requires Sound(p) && Divisible(v1, v2)
    ensures Truncates(v1, v2, DivTrunc(p, v1, v2), r)
  {
    hide Splits, Sound;
    if v1 >= 0 && v2 <= 0 {
      At(p, -v1, v2);
      r := -Rem(p, -v1, v2);
      NegateBoth(v1, v2, Quot(p, -v1, v2), -r);
    } else if v1 <= 0 && v2 >= 0 {
      if v1 != INT_MIN {
        At(p, v1, -v2);
        r := Rem(p, v1, -v2);
        NegateDivisor(v1, v2, Quot(p, v1, -v2), r);
      } else {
        At(p, v1 + v2, -v2);
        r := Rem(p, v1 + v2, -v2);
        NegateDivisor(v1 + v2, v2, Quot(p, v1 + v2, -v2), r);
        Shift(v1, v2, -Quot(p, v1 + v2, -v2), r);
      }
    } else {
      At(p, v1, v2);
      r := Rem(p, v1, v2);
    }
  }

  lemma ModTruncates(p: Native, v1: int, v2: int) returns (q: int)
    requires Sound(p) && Divisible(v1, v2)
    ensures Truncates(v1, v2, q, ModTrunc(p, v1, v2))
  {
    hide Sound;
    At(p, v1, v2);
    var q0, r0 := Quot(p, v1, v2), Rem(p, v1, v2);
    if Truncates(v1, v2, q0, r0) {
      hide Splits;
      q := q0;
    } else {
      FloorToTrunc(v1, v2, q0, r0);
      assert Abs(r0) < Abs(v2);
      hide Splits;
      q := q0 + 1;
      if v1 >= 0 { AddMagnitude(r0, v2); }
    }
  }

  /** Truncation and flooring in terms of Dafny's own division, whose remainder is never negative. */
  lemma ByMagnitude(a: int, b: int)
    requires b != 0
    ensures Truncates(a, b, if a >= 0 then a / b else -((-a) / b), if a >= 0 then a % b else -((-a) % b))
  {
    Laws((-a) / b, b);
  }

  lemma BySign(a: int, b: int)
    requires b != 0
    ensures Floors(a, b, if b > 0 then a / b else (-a) / (-b), if b > 0 then a % b else -((-a) % (-b)))
  {
    Laws((-a) / (-b), b);
  }

  /** stb_div_trunc and stb_mod_trunc. */
  lemma TruncPair(p: Native, v1: int, v2: int)
    requires Sound(p) && Divisible(v1, v2)
    ensures Truncates(v1, v2, DivTrunc(p, v1, v2), ModTrunc(p, v1, v2))
    ensures DivTrunc(p, v1, v2) == if v1 >= 0 then v1 / v2 else -((-v1) / v2)
    ensures ModTrunc(p, v1, v2) == if v1 >= 0 then v1 % v2 else -((-v1) % v2)
  {
    hide Sound, Truncates, DivTrunc, ModTrunc;
    var r := DivTruncates(p, v1, v2);
    var q := ModTruncates(p, v1, v2);
    OneResult(v1, v2, DivTrunc(p, v1, v2), r, q, ModTrunc(p, v1, v2));
    ByMagnitude(v1, v2);
    OneResult(v1, v2, DivTrunc(p, v1, v2), ModTrunc(p, v1, v2), if v1 >= 0 then v1 / v2 else -((-v1) / v2),
              if v1 >= 0 then v1 % v2 else -((-v1) % v2));
  }

  lemma FloorToTrunc(a: int, b: int, q: int, r: int)
    requires Floors(a, b, q, r) && Mixed(a, b) && !Truncates(a, b, q, r)
    ensures r != 0 && Truncates(a, b, q + 1, r - b)
  {
    Laws(q, b);
  }

  /** Rounding the magnitude up: the first branches of stb_div_floor, for a non-negative and a negative dividend. */
  lemma PushedDown(v1: int, v2: int, q: int, r: int)
    requires v1 >= 0 && v2 < 0 && Truncates(-v1 + v2 + 1, v2, q, r) && -v1 + v2 + 1 < 0
    ensures Floors(v1, v2, -q, v2 + 1 - r)
  {
    Laws(q, v2);
  }

  lemma PushedUp(v1: int, v2: int, q: int, r: int)
    requires v1 < 0 && v2 > 0 && Truncates(v1 - v2 + 1, -v2, q, r) && v1 - v2 + 1 < 0
    ensures Floors(v1, v2, -q, v2 - 1 + r)
  {
    Laws(q, v2);
  }

  /** A truncated quotient of mixed signs is one too large for the floor, unless it is exact. */
  lemma TruncToFloor(a: int, b: int, q: int, r: int)
    requires Truncates(a, b, q, r) && Mixed(a, b)
    ensures if r == 0 then Floors(a, b, q, 0) else Floors(a, b, q - 1, r + b)
  {
    Laws(q, b);
  }

  lemma ZeroDividend(b: int, q: int, r: int)
    requires Splits(0, b, q, r)
    ensures q == 0 && r == 0
  {
    Unique(b, q, r, 0, 0);
  }

  lemma DivFloorsDown(p: Native, v1: int, v2: int) returns (r: int)
    requires Sound(p) && Divisible(v1, v2) && v1 >= 0 && v2 < 0
    ensures Floors(v1, v2, DivFloor(p, v1, v2), r)
  {
    hide Splits, Sound, Floors;
    var x := Add(Add(Neg(v1), v2), 1);
    assert Neg(v1) == -v1 && (x < 0 ==> x == -v1 + v2 + 1);
    if x < 0 {
      r := DivFloorsDownPushed(p, v1, v2);
    } else {
      r := DivFloorsDownExact(p, v1, v2);
    }
    hide Add, Neg;
  }

  lemma DivFloorsDownPushed(p: Native, v1: int, v2: int) returns (r: int)
    requires Sound(p) && Divisible(v1, v2) && v1 >= 0 && v2 < 0 && INT_MIN <= -v1 + v2 + 1 < 0
    ensures Divisible(-v1 + v2 + 1, v2) && Floors(v1, v2, Neg(Quot(p, -v1 + v2 + 1, v2)), r)
  {
    hide Splits, Sound;
    var x := -v1 + v2 + 1;
    At(p, x, v2);
    r := v2 + 1 - Rem(p, x, v2);
    PushedDown(v1, v2, Quot(p, x, v2), Rem(p, x, v2));
    QuotientFits(v1, v2, -Quot(p, x, v2), r);
  }

  lemma DivFloorsDownExact(p: Native, v1: int, v2: int) returns (r: int)
    requires Sound(p) && Divisible(v1, v2) && v1 >= 0 && v2 < 0
    ensures Divisible(-v1, v2)
    ensures Floors(v1, v2, Add(Neg(Quot(p, -v1, v2)), if Rem(p, -v1, v2) != 0 then -1 else 0), r)
  {
    hide Splits, Sound;
    At(p, -v1, v2);
    var q0, r0 := Quot(p, -v1, v2), Rem(p, -v1, v2);
    NegateBoth(v1, v2, q0, r0);
    if v1 == 0 {
      assert Splits(0, v2, q0, r0);
      ZeroDividend(v2, q0, r0);
      r := 0;
    } else {
      TruncToFloor(v1, v2, -q0, -r0);
      r := if r0 == 0 then 0 else -r0 + v2;
      QuotientFits(v1, v2, if r0 == 0 then -q0 else -q0 - 1, r);
    }
  }

  lemma DivFloorsUp(p: Native, v1: int, v2: int) returns (r: int)
    requires Sound(p) && Divisible(v1, v2) && v1 < 0 && v2 > 0 && v1 != INT_MIN
    ensures Floors(v1, v2, DivFloor(p, v1, v2), r)
  {
    hide Splits, Sound;
    var x := Add(Sub(v1, v2), 1);
    if x < 0 {
      assert x == v1 - v2 + 1;
      At(p, x, -v2);
      r := v2 - 1 + Rem(p, x, -v2);
      PushedUp(v1, v2, Quot(p, x, -v2), Rem(p, x, -v2));
      QuotientFits(v1, v2, -Quot(p, x, -v2), r);
    } else {
      At(p, -v1, v2);
      At(p, v1, -v2);
      var q0, r0, r1 := Quot(p, -v1, v2), Rem(p, -v1, v2), Rem(p, v1, -v2);
      NegateBoth(v1, v2, q0, r0);
      NegateDivisor(v1, v2, Quot(p, v1, -v2), r1);
      OneResult(v1, v2, -q0, -r0, -Quot(p, v1, -v2), r1);
      TruncToFloor(v1, v2, -q0, -r0);
      r := if r0 == 0 then 0 else -r0 + v2;
      QuotientFits(v1, v2, if r0 == 0 then -q0 else -q0 - 1, r);
    }
  }

  lemma DivFloorsMin(p: Native, v2: int) returns (r: int)
    requires Sound(p) && Divisible(INT_MIN, v2) && v2 > 0
    ensures Floors(INT_MIN, v2, DivFloor(p, INT_MIN, v2), r)
  {
    hide Splits, Sound;
    var y := -(INT_MIN + v2);
    At(p, y, v2);
    var q0, r0 := Quot(p, y, v2), Rem(p, y, v2);
    NegateBoth(INT_MIN + v2, v2, q0, r0);
    Shift(INT_MIN, v2, -q0, -r0);
    TruncToFloor(INT_MIN, v2, -q0 - 1, -r0);
    r := if r0 == 0 then 0 else -r0 + v2;
    QuotientFits(INT_MIN, v2, if r0 == 0 then -q0 - 1 else -q0 - 2, r);
  }

  lemma DivFloors(p: Native, v1: int, v2: int) returns (r: int)
    requires Sound(p) && Divisible(v1, v2)
    ensures Floors(v1, v2, DivFloor(p, v1, v2), r)
  {
    hide Splits, Sound;
    if v1 >= 0 && v2 < 0 {
      r := DivFloorsDown(p, v1, v2);
    } else if v1 < 0 && v2 >= 0 {
      if v1 != INT_MIN { r := DivFloorsUp(p, v1, v2); } else { r := DivFloorsMin(p, v2); }
    } else {
      At(p, v1, v2);
      r := Rem(p, v1, v2);
      assert DivFloor(p, v1, v2) == Quot(p, v1, v2);
    }
    hide DivFloor;
  }

  lemma ModFloors(p: Native, v1: int, v2: int) returns (q: int)
    requires Sound(p) && Divisible(v1, v2)
    ensures Floors(v1, v2, q, ModFloor(p, v1, v2))
  {
    hide Sound, Splits;
    At(p, v1, v2);
    var q0, r0 := Quot(p, v1, v2), Rem(p, v1, v2);
    if Mixed(v1, v2) && !Floors(v1, v2, q0, r0) {
      TruncToFloor(v1, v2, q0, r0);
      q := q0 - 1;
    } else {
      if v1 == 0 { ZeroDividend(v2, q0, r0); }
      q := q0;
    }
  }

  /** stb_div_floor and stb_mod_floor. */
  lemma FloorPair(p: Native, v1: int, v2: int)
    requires Sound(p) && Divisible(v1, v2)
    ensures Floors(v1, v2, DivFloor(p, v1, v2), ModFloor(p, v1, v2))
    ensures DivFloor(p, v1, v2) == if v2 > 0 then v1 / v2 else (-v1) / (-v2)
    ensures ModFloor(p, v1, v2) == if v2 > 0 then v1 % v2 else -((-v1) % (-v2))
  {
    hide Sound, Floors, DivFloor, ModFloor;
    var r := DivFloors(p, v1, v2);
    var q := ModFloors(p, v1, v2);
    OneResult(v1, v2, DivFloor(p, v1, v2), r, q, ModFloor(p, v1, v2));
    BySign(v1, v2);
    OneResult(v1, v2, DivFloor(p, v1, v2), ModFloor(p, v1, v2), if v2 > 0 then v1 / v2 else (-v1) / (-v2),
              if v2 > 0 then v1 % v2 else -((-v1) % (-v2)));
  }

  lemma EuclSplits(p: Native, v1: int, v2: int) returns (r: int)
    requires Sound(p) && Divisible(v1, v2)
    ensures Splits(v1, v2, EuclParts(p, v1, v2).0, r)
    ensures if v1 >= 0 && v2 >= 0 then r >= 0 && EuclParts(p, v1, v2).1 == 0 else EuclParts(p, v1, v2).1 == r
  {
    hide Sound;
    if v1 >= 0 {
      r := EuclSplitsPositive(p, v1, v2);
    } else if v1 != INT_MIN {
      r := EuclSplitsNegative(p, v1, v2);
    } else {
      r := EuclSplitsMin(p, v2);
    }
  }

  lemma EuclSplitsPositive(p: Native, v1: int, v2: int) returns (r: int)
    requires Sound(p) && Divisible(v1, v2) && v1 >= 0
    ensures Splits(v1, v2, EuclParts(p, v1, v2).0, r)
    ensures if v2 >= 0 then r >= 0 && EuclParts(p, v1, v2).1 == 0 else EuclParts(p, v1, v2).1 == r
  {
    hide Sound;
    if v2 >= 0 {
      At(p, v1, v2);
      r := Rem(p, v1, v2);
    } else if v2 != INT_MIN {
      At(p, v1, -v2);
      r := Rem(p, v1, -v2);
      hide Splits;
      NegateDivisor(v1, v2, Quot(p, v1, -v2), r);
    } else {
      r := v1;
    }
  }

  lemma EuclSplitsNegative(p: Native, v1: int, v2: int) returns (r: int)
    requires Sound(p) && Divisible(v1, v2) && v1 < 0 && v1 != INT_MIN
    ensures Splits(v1, v2, EuclParts(p, v1, v2).0, r) && EuclParts(p, v1, v2).1 == r
  {
    hide Sound;
    if v2 >= 0 {
      At(p, -v1, v2);
      r := -Rem(p, -v1, v2);
      hide Splits;
      NegateBoth(v1, v2, Quot(p, -v1, v2), -r);
    } else if v2 != INT_MIN {
      At(p, -v1, -v2);
      r := -Rem(p, -v1, -v2);
      hide Splits;
      NegateBoth(v1, -v2, Quot(p, -v1, -v2), -r);
      NegateDivisor(v1, v2, -Quot(p, -v1, -v2), r);
    } else {
      r := v1 - INT_MIN;
    }
  }

  lemma EuclSplitsMin(p: Native, v2: int) returns (r: int)
    requires Sound(p) && Divisible(INT_MIN, v2)
    ensures Splits(INT_MIN, v2, EuclParts(p, INT_MIN, v2).0, r) && EuclParts(p, INT_MIN, v2).1 == r
  {
    hide Sound, Splits;
    if v2 >= 0 {
      var y := -(INT_MIN + v2);
      At(p, y, v2);
      r := -Rem(p, y, v2);
      NegateBoth(INT_MIN + v2, v2, Quot(p, y, v2), -r);
      Shift(INT_MIN, v2, -Quot(p, y, v2), r);
    } else if v2 == INT_MIN {
      At(p, 0, INT_MIN);
      ZeroDividend(INT_MIN, Quot(p, 0, INT_MIN), Rem(p, 0, INT_MIN));
      r := 0;
      MinByMin();
    } else {
      var y := -(INT_MIN - v2);
      At(p, y, -v2);
      r := -Rem(p, y, -v2);
      var q0 := Quot(p, y, -v2);
      NegateBoth(INT_MIN - v2, -v2, q0, -r);
      Shift(INT_MIN, -v2, -q0, r);
      NegateDivisor(INT_MIN, v2, -q0 - 1, r);
    }
  }

  lemma MinByMin()
    ensures Splits(INT_MIN, INT_MIN, 1, 0)
  {}

  lemma DivEuclidean(p: Native, v1: int, v2: int) returns (r: int)
    requires Sound(p) && Divisible(v1, v2)
    ensures Euclidean(v1, v2, DivEucl(p, v1, v2), r)
  {
    hide Sound, EuclParts, Splits;
    var r0 := EuclSplits(p, v1, v2);
    Lift(v1, v2, EuclParts(p, v1, v2).0, r0);
    r := if r0 >= 0 then r0 else r0 + Abs(v2);
  }

  /** Adding the magnitude of the divisor to a negative remainder, even where -INT_MIN has wrapped around. */
  lemma AddMagnitude(r: int, b: int)
    requires Int32(r) && Int32(b) && r < 0 && Abs(r) < Abs(b)
    ensures Add(r, if b > 0 then b else Neg(b)) == r + Abs(b)
  {}

  lemma ModEuclidean(p: Native, v1: int, v2: int) returns (q: int)
    requires Sound(p) && Divisible(v1, v2)
    ensures Euclidean(v1, v2, q, ModEucl(p, v1, v2))
  {
    hide Sound;
    At(p, v1, v2);
    var q0, r0 := Quot(p, v1, v2), Rem(p, v1, v2);
    assert Abs(r0) < Abs(v2);
    hide Splits;
    Lift(v1, v2, q0, r0);
    if r0 < 0 { AddMagnitude(r0, v2); }
    hide Add, Neg, Euclidean, Truncates, Floors;
    q := if r0 >= 0 then q0 else q0 + (if v2 > 0 then -1 else 1);
  }

  /** stb_div_eucl and stb_mod_eucl. */
  lemma EuclPair(p: Native, v1: int, v2: int)
    requires Sound(p) && Divisible(v1, v2)
    ensures Euclidean(v1, v2, DivEucl(p, v1, v2), ModEucl(p, v1, v2))
    ensures DivEucl(p, v1, v2) == v1 / v2 && ModEucl(p, v1, v2) == v1 % v2
  {
    hide Sound, Euclidean, DivEucl, ModEucl;
    var r := DivEuclidean(p, v1, v2);
    var q := ModEuclidean(p, v1, v2);
    OneResult(v1, v2, DivEucl(p, v1, v2), r, q, ModEucl(p, v1, v2));
    DivisionSplits(v1, v2);
    OneResult(v1, v2, DivEucl(p, v1, v2), ModEucl(p, v1, v2), v1 / v2, v1 % v2);
  }

  /** Any quotient and remainder turn Euclidean by one step. */
  lemma Lift(a: int, b: int, q: int, r: int)
    requires Divisible(a, b) && Splits(a, b, q, r)
    ensures var q', r' := if r >= 0 then q else q + (if b > 0 then -1 else 1), if r >= 0 then r else r + Abs(b);
            Euclidean(a, b, q', r') && Int32(q') && Int32(r')
  {
    Laws(q, b);
    var q', r' := if r >= 0 then q else q + (if b > 0 then -1 else 1), if r >= 0 then r else r + Abs(b);
    QuotientFits(a, b, q', r');
  }

  /** The results do not depend on the machine. */
  lemma SameEverywhere(p: Native, p': Native, a: int, b: int)
    requires Sound(p) && Sound(p') && Divisible(a, b)
    ensures DivTrunc(p, a, b) == DivTrunc(p', a, b) && ModTrunc(p, a, b) == ModTrunc(p', a, b)
    ensures DivFloor(p, a, b) == DivFloor(p', a, b) && ModFloor(p, a, b) == ModFloor(p', a, b)
    ensures DivEucl(p, a, b) == DivEucl(p', a, b) && ModEucl(p, a, b) == ModEucl(p', a, b)
  {
    TruncPair(p, a, b);
    TruncPair(p', a, b);
    FloorPair(p, a, b);
    FloorPair(p', a, b);
    EuclPair(p, a, b);
    EuclPair(p', a, b);
    hide DivTrunc, ModTrunc, DivFloor, ModFloor, DivEucl, ModEucl, Truncates, Floors, Euclidean;
    OneResult(a, b, DivTrunc(p, a, b), ModTrunc(p, a, b), DivTrunc(p', a, b), ModTrunc(p', a, b));
    OneResult(a, b, DivFloor(p, a, b), ModFloor(p, a, b), DivFloor(p', a, b), ModFloor(p', a, b));
    OneResult(a, b, DivEucl(p, a, b), ModEucl(p, a, b), DivEucl(p', a, b), ModEucl(p', a, b));
  }

  /**
   Rounding towards sign(b) times infinity, as stb_divide.h documents the Euclidean
   quotient: up for b > 0, down for b < 0.
   */
  predicate RoundsToSign(a: int, b: int, q: int) { q * b - Abs(b) < a <= q * b }

  /** The documented rounding does not hold: 1 / 2 comes out as 0, where rounding up gives 1. */
  lemma EuclNotToSign(p: Native)
    requires Sound(p)
    ensures DivEucl(p, 1, 2) == 0 && !RoundsToSign(1, 2, DivEucl(p, 1, 2)) && RoundsToSign(1, 2, 1)
  {
    hide Sound, DivEucl, ModEucl;
    EuclPair(p, 1, 2);
    OneResult(1, 2, DivEucl(p, 1, 2), ModEucl(p, 1, 2), 0, 1);
  }

  /** The documented rounding holds exactly for the dividends that b divides. */
  lemma EuclToSignIffExact(p: Native, a: int, b: int)
    requires Sound(p) && Divisible(a, b)
    ensures RoundsToSign(a, b, DivEucl(p, a, b)) <==> a % b == 0
  {
    hide Sound, DivEucl, ModEucl;
    EuclPair(p, a, b);
  }

  lemma DivisionSplits(a: int, b: int)
    requires b != 0
    ensures Euclidean(a, b, a / b, a % b)
  {}

  /** What holds instead: the greatest integer not above a / b for b > 0, the least one not below it for b < 0. */
  lemma EuclRounding(p: Native, a: int, b: int, x: int)
    requires Sound(p) && Divisible(a, b)
    ensures b > 0 ==> (x <= DivEucl(p, a, b) <==> x * b <= a)
    ensures b < 0 ==> (DivEucl(p, a, b) <= x <==> x * b <= a)
  {
    hide Sound, DivEucl, ModEucl;
    EuclPair(p, a, b);
    var q := DivEucl(p, a, b);
    var d := if b > 0 then q - x else x - q;
    assert x * b == q * b - d * Abs(b) by { assert (q - x) * b == q * b - x * b; Laws(x - q, b); }
    if d >= 0 {
      NonNegative(d, Abs(b));
    } else {
      Times(-d, Abs(b));
      Laws(d, Abs(b));
    }
  }

  /** Two machines that meet the assumption: one truncates every quotient, one floors every quotient. */
  function TruncatedQuotient(a: int, b: int): int { if b == 0 then 0 else if a >= 0 then a / b else -((-a) / b) }
  function FlooredQuotient(a: int, b: int): int { if b == 0 then 0 else if b > 0 then a / b else (-a) / (-b) }

  function TruncatingMachine(): Native { Native(TruncatedQuotient, (a, b) => a - TruncatedQuotient(a, b) * b) }
  function FlooringMachine(): Native { Native(FlooredQuotient, (a, b) => a - FlooredQuotient(a, b) * b) }

  lemma TruncatedQuotientTruncates(a: int, b: int)
    requires b != 0
    ensures Truncates(a, b, TruncatedQuotient(a, b), a - TruncatedQuotient(a, b) * b)
  {
    if a >= 0 {
      assert a == (a / b) * b + a % b;
    } else {
      assert -a == ((-a) / b) * b + (-a) % b;
      Laws((-a) / b, b);
    }
  }

  lemma FlooredQuotientFloors(a: int, b: int)
    requires b != 0
    ensures Floors(a, b, FlooredQuotient(a, b), a - FlooredQuotient(a, b) * b)
  {
    if b > 0 {
      assert a == (a / b) * b + a % b;
    } else {
      assert -a == ((-a) / (-b)) * (-b) + (-a) % (-b);
      Laws((-a) / (-b), b);
    }
  }

  lemma MachinesSound()
    ensures Sound(TruncatingMachine()) && Sound(FlooringMachine())
  {
    var p, p' := TruncatingMachine(), FlooringMachine();
    forall a, b | Divisible(a, b)
      ensures Truncates(a, b, p.div(a, b), p.mod(a, b))
    {
      TruncatedQuotientTruncates(a, b);
    }
    forall a, b | Divisible(a, b)
      ensures Truncates(a, b, p'.div(a, b), p'.mod(a, b)) || (Mixed(a, b) && Floors(a, b, p'.div(a, b), p'.mod(a, b)))
    {
      FlooredQuotientFloors(a, b);
      if a == 0 { ZeroDividend(b, p'.div(a, b), p'.mod(a, b)); }
    }
  }
}
