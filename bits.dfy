/**
 * Python's arbitrary-precision integer operators that the core uses on
 * non-negative operands -- `2 ** k`, `x & y`, `x << s` and `x >> s` -- and
 * the facts about bit fields that the proof-of-work check and the mnemonic
 * index both rest on.
 */
module Bits {

  /** `2 ** k` */
  function Pow2(k: nat): (r: nat)
    ensures r >= 1
  {
    if k == 0 then 1 else 2 * Pow2(k - 1)
  }

  /** `x & y`: the bits set in both operands, least significant bit first. */
  function And(x: nat, y: nat): (r: nat)
    ensures r <= x && r <= y
    decreases x
  {
    if x == 0 || y == 0 then 0
    else 2 * And(x / 2, y / 2) + (if x % 2 == 1 && y % 2 == 1 then 1 else 0)
  }

  /** `x << s`: `s` single-bit shifts towards the most significant end. */
  function ShiftLeft(x: nat, s: nat): (r: nat)
    ensures x <= r
    ensures r == 0 <==> x == 0
  {
    if s == 0 then x else 2 * ShiftLeft(x, s - 1)
  }

  /** `x >> s` on a non-negative `x`: `s` single-bit shifts that drop the least significant bit. */
  function ShiftRight(x: nat, s: nat): (r: nat)
    ensures r <= x
  {
    if s == 0 then x else ShiftRight(x / 2, s - 1)
  }

  /** A positive multiple of `d` is at least `d`. */
  lemma MulAtLeast(k: int, d: int)
    requires k >= 1 && d >= 0
    ensures k * d >= d
  {
    assert k * d == d + (k - 1) * d;
  }

  /** Euclidean division has one quotient and one remainder. */
  lemma DivModUnique(x: int, d: int, q: int, r: int)
    requires d > 0 && 0 <= r < d && x == q * d + r
    ensures x / d == q && x % d == r
  {
    var q0, r0 := x / d, x % d;
    var k := q0 - q;
    assert k * d == r - r0 by {
      assert x == q0 * d + r0;
      assert q0 * d - q * d == (q0 - q) * d;
    }
    if k >= 1 {
      MulAtLeast(k, d);
    } else if k <= -1 {
      MulAtLeast(-k, d);
    }
  }

  lemma {:induction false} Pow2Add(a: nat, b: nat)
    ensures Pow2(a + b) == Pow2(a) * Pow2(b)
  {
    if a > 0 {
      Pow2Add(a - 1, b);
    }
  }

  /** Dividing by `a` then `b` is dividing by `a * b`; the remainder by `a * b` has two digits. */
  lemma DivModNested(x: nat, a: nat, b: nat)
    requires a > 0 && b > 0
    ensures x / a / b == x / (a * b)
    ensures x % (a * b) == x % a + (x / a % b) * a
  {
    var q, r := x / a, x % a;
    var q1, r1 := q / b, q % b;
    assert x == q1 * (a * b) + (r1 * a + r) by {
      assert x == q * a + r;
      assert q == q1 * b + r1;
      assert q * a == q1 * (a * b) + r1 * a;
    }
    assert r1 * a + r < a * b by {
      assert r1 * a <= (b - 1) * a;
    }
    DivModUnique(x, a * b, q1, r1 * a + r);
  }

  /** A quotient is zero exactly when the dividend is below the divisor. */
  lemma DivZeroIff(x: nat, d: nat)
    requires d > 0
    ensures x / d == 0 <==> x < d
  {
    if x < d {
      DivModUnique(x, d, 0, x);
    }
  }

  /** If `a * b` divides `x` then `b` divides `x / a`. */
  lemma DivisibleQuotient(x: nat, a: nat, b: nat)
    requires a > 0 && b > 0 && x % (a * b) == 0
    ensures x / a % b == 0
  {
    DivModNested(x, a, b);
    var t := x / a % b;
    if t > 0 {
      MulAtLeast(t, a);
    }
  }

  /** Multiplying by a non-negative factor keeps the order. */
  lemma MulLe(a: int, b: int, c: int)
    requires a <= b && c >= 0
    ensures a * c <= b * c
  {
    assert b * c - a * c == (b - a) * c;
  }

  /** A dividend below `d * p` has a quotient by `p` below `d`. */
  lemma QuotientBelow(x: nat, p: nat, d: nat)
    requires p > 0 && x < d * p
    ensures x / p < d
  {
    var q, r := x / p, x % p;
    assert x == q * p + r;
    if q >= d {
      MulLe(d, q, p);
    }
  }

  /** A quotient below `2 ** w` when the dividend is below `2 ** (s + w)`. */
  lemma DivBelow(x: nat, s: nat, w: nat)
    requires x < Pow2(s + w)
    ensures x / Pow2(s) < Pow2(w)
  {
    var p, d := Pow2(s), Pow2(w);
    assert p > 0;
    assert x < d * p by {
      Pow2Add(s, w);
    }
    QuotientBelow(x, p, d);
  }

  /** The remainder by `2 * d` is bit 0 followed by the remainder of `x / 2` by `d`. */
  lemma ModDouble(x: nat, d: nat)
    requires d > 0
    ensures x % (2 * d) == 2 * (x / 2 % d) + x % 2
  {
    DivModNested(x, 2, d);
  }

  /** Masking an odd `2 * y + 1` keeps bit 0 of `x` and masks the rest with `y`. */
  lemma AndOdd(x: nat, y: nat)
    ensures And(x, 2 * y + 1) == 2 * And(x / 2, y) + x % 2
  {
    if x > 0 {
      assert (2 * y + 1) / 2 == y && (2 * y + 1) % 2 == 1;
    }
  }

  /** `x & (2 ** n - 1)` keeps the `n` low bits of `x`. */
  lemma {:induction false} AndLowMask(x: nat, n: nat)
    ensures And(x, Pow2(n) - 1) == x % Pow2(n)
  {
    if n > 0 {
      var d := Pow2(n - 1);
      assert Pow2(n) - 1 == 2 * (d - 1) + 1;
      AndOdd(x, d - 1);
      AndLowMask(x / 2, n - 1);
      ModDouble(x, d);
    }
  }

  /** Masking with an even `2 * y` drops bit 0 of `x` and masks the rest with `y`. */
  lemma AndEven(x: nat, y: nat)
    ensures And(x, 2 * y) == 2 * And(x / 2, y)
  {
    if x > 0 && y > 0 {
      assert (2 * y) / 2 == y && (2 * y) % 2 == 0;
    }
  }

  /** Masking with `m << s` is masking `x >> s` with `m`, then shifting back. */
  lemma {:induction false} AndShifted(x: nat, m: nat, s: nat)
    ensures And(x, ShiftLeft(m, s)) == ShiftLeft(And(ShiftRight(x, s), m), s)
  {
    if s > 0 {
      AndEven(x, ShiftLeft(m, s - 1));
      AndShifted(x / 2, m, s - 1);
    }
  }

  /** `(y << s) >> s == y` */
  lemma {:induction false} ShiftRightShiftLeft(y: nat, s: nat)
    ensures ShiftRight(ShiftLeft(y, s), s) == y
  {
    if s > 0 {
      var z := ShiftLeft(y, s - 1);
      assert 2 * z / 2 == z;
      assert ShiftRight(2 * z, s) == ShiftRight(z, s - 1);
      ShiftRightShiftLeft(y, s - 1);
    }
  }

  /** `x << s` multiplies by `2 ** s`. */
  lemma {:induction false} ShiftLeftIsMul(x: nat, s: nat)
    ensures ShiftLeft(x, s) == x * Pow2(s)
  {
    if s > 0 {
      ShiftLeftIsMul(x, s - 1);
      assert x * (2 * Pow2(s - 1)) == 2 * (x * Pow2(s - 1));
    }
  }

  /** `x >> s` divides by `2 ** s`, rounding down. */
  lemma {:induction false} ShiftRightIsDiv(x: nat, s: nat)
    ensures ShiftRight(x, s) == x / Pow2(s)
  {
    if s > 0 {
      ShiftRightIsDiv(x / 2, s - 1);
      DivModNested(x, 2, Pow2(s - 1));
    }
  }

  /**
   * `(x & ((2 ** w - 1) << s)) >> s` is the `w`-bit field of `x` that starts at bit `s`.
   */
  lemma MaskedField(x: nat, w: nat, s: nat)
    ensures ShiftRight(And(x, ShiftLeft(Pow2(w) - 1, s)), s) == x / Pow2(s) % Pow2(w)
  {
    var y := ShiftRight(x, s);
    AndShifted(x, Pow2(w) - 1, s);
    ShiftRightShiftLeft(And(y, Pow2(w) - 1), s);
    AndLowMask(y, w);
    ShiftRightIsDiv(x, s);
  }

  /** For `x` below `p * d`, the digit `x / p % d` is zero exactly when `x < p`. */
  lemma DigitZeroIffBelow(x: nat, p: nat, d: nat)
    requires p > 0 && d > 0 && x / p < d
    ensures x / p % d == 0 <==> x < p
  {
    var q := x / p;
    DivModUnique(q, d, 0, q);
    DivZeroIff(x, p);
  }

  /** For `x` below `2 ** (s + w)`, its field at bit `s` of width `w` is zero exactly when `x < 2 ** s`. */
  lemma FieldZeroIffBelow(x: nat, s: nat, w: nat)
    requires x < Pow2(s + w)
    ensures x / Pow2(s) % Pow2(w) == 0 <==> x < Pow2(s)
  {
    DivBelow(x, s, w);
    DigitZeroIffBelow(x, Pow2(s), Pow2(w));
  }

  /** If the field at bit `s` of width `w` is zero, so is every upper part of it. */
  lemma FieldZeroNarrows(x: nat, s: nat, w: nat, k: nat)
    requires k <= w && x / Pow2(s) % Pow2(w) == 0
    ensures x / Pow2(s + k) % Pow2(w - k) == 0
  {
    var ps, pk, pr := Pow2(s), Pow2(k), Pow2(w - k);
    var y := x / ps;
    assert y / pk % pr == 0 by {
      assert y % (pk * pr) == 0 by {
        assert k + (w - k) == w;
        Pow2Add(k, w - k);
      }
      DivisibleQuotient(y, pk, pr);
    }
    assert y / pk == x / Pow2(s + k) by {
      Pow2Add(s, k);
      DivModNested(x, ps, pk);
    }
  }

  /** The digit of `(hi * d + f) * p + lo` at place `p`, in base `d`, is `f`. */
  lemma DigitOf(hi: nat, f: nat, lo: nat, p: nat, d: nat)
    requires f < d && lo < p
    ensures ((hi * d + f) * p + lo) / p % d == f
  {
    DivModUnique((hi * d + f) * p + lo, p, hi * d + f, lo);
    DivModUnique(hi * d + f, d, hi, f);
  }

  /**
   * The field at bit `s` of width `w` of a number assembled from high bits `hi`,
   * field `f` and low bits `lo` is `f`, whatever `hi` and `lo` are.
   */
  lemma FieldOf(hi: nat, f: nat, lo: nat, s: nat, w: nat)
    requires f < Pow2(w) && lo < Pow2(s)
    ensures (hi * Pow2(s + w) + f * Pow2(s) + lo) / Pow2(s) % Pow2(w) == f
  {
    var p, d := Pow2(s), Pow2(w);
    assert hi * Pow2(s + w) + f * p + lo == (hi * d + f) * p + lo by {
      Pow2Add(s, w);
      assert hi * (p * d) == (hi * d) * p;
    }
    DigitOf(hi, f, lo, p, d);
  }
}
