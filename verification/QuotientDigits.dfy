/** __udiv_qrnnd_c: a two-word number by one word, two half-word digits at a time. */
module QuotientDigits {
  import opened Bits
  import opened Machine32
  import opened SoftMul

  lemma QuotLess(q: int, d: int, c: int)
    requires d > 0 && q * d < c * d
    ensures q < c
  {
    if q >= c {
      MulMono(c, q, d);
    }
  }

  /** The facts behind one digit: e is what remains after the estimate q. */
  lemma EstimateBounds(n1: nat, x: nat, d: nat, b: nat, d1: nat, d0: nat, q: nat, rest: nat)
    requires b >= 2 && b % 2 == 0 && d < b * b <= 2 * d && n1 < d && x < b
    requires d == d1 * b + d0 && d0 < b && d1 > 0 && n1 == q * d1 + rest && rest < d1
    ensures q * d0 < b * b && rest * b + x < d
    ensures n1 * b + x == q * d + (rest * b + x - q * d0)
  {
    LeadingHalf(d, b, d1, d0);
    assert (b + 2) * d1 == d1 * b + 2 * d1;
    QuotLess(q, d1, b + 2);
    MulMono(q, b + 1, d0);
    MulMono(d0, b - 1, b + 1);
    assert (b + 1) * d0 == d0 * (b + 1) && (b - 1) * (b + 1) == b * b - 1;
    MulMono(rest + 1, d1, b);
    assert (rest + 1) * b == rest * b + b;
    Recombine(n1, x, d, b, d1, d0, q, rest);
  }

  /** The top bit of d is the top bit of its upper half. */
  lemma LeadingHalf(d: nat, b: nat, d1: nat, d0: nat)
    requires b % 2 == 0 && b * b <= 2 * d && d == d1 * b + d0 && d0 < b
    ensures 2 * d1 >= b
  {
    assert (b - 2) * b == b * b - 2 * b;
    assert 2 * d1 * b == 2 * (d1 * b);
    QuotLess(b - 2, b, 2 * d1);
  }

  lemma Recombine(n1: int, x: int, d: int, b: int, d1: int, d0: int, q: int, rest: int)
    requires d == d1 * b + d0 && n1 == q * d1 + rest
    ensures n1 * b + x == q * d + (rest * b + x - q * d0)
  {
    assert q * d == q * d1 * b + q * d0;
  }

  lemma StepBack(n: int, d: int, q: int, e: int)
    requires n == q * d + e
    ensures n == (q - 1) * d + (e + d)
  {
  }

  lemma PositiveQuotient(n: nat, d: nat, q: int, e: int)
    requires n == q * d + e && e < 0 && d > 0
    ensures q >= 1
  {
    if q <= 0 {
      MulMono(q, 0, d);
    }
  }

  lemma DigitBelow(n1: nat, x: nat, d: nat, b: nat, q: nat, r: nat)
    requires n1 < d && x < b && q * d + r == n1 * b + x
    ensures q < b
  {
    MulMono(n1 + 1, d, b);
    assert (n1 + 1) * b == n1 * b + b;
    assert b * d == d * b;
    QuotLess(q, d, b);
  }

  lemma JoinHalves(high: nat, low: nat, h: nat)
    requires low < Pow2(h) && high < Pow2(h)
    ensures var b := Pow2(h);
      Mod(high * b, b * b) == high * b && BitOr(high * b, low) == high * b + low && high * b + low < b * b
  {
    hide Mod, Pow2, BitOr;
    var b := Pow2(h);
    SquareLess(high, 0, b);
    SquareLess(high, low, b);
    ModSmall(high * b, b * b);
    ModAdd(0, high, b);
    OrAdds(high * b, low, h);
  }

  /** One half of the macro: estimate a digit with the upper half of d, and
      correct it. The comparison r >= d tells whether the addition wrapped. */
  method Digit(n1: nat, x: nat, d: nat, h: nat) returns (q: nat, r: nat)
    requires h > 0 && d < Pow2(h) * Pow2(h) <= 2 * d && n1 < d && x < Pow2(h)
    ensures d / Pow2(h) > 0
    ensures q * d + r == n1 * Pow2(h) + x && r < d && q < Pow2(h)
    ensures q <= n1 / (d / Pow2(h)) <= q + 2
  {
    hide Mod, Pow2, BitOr;
    var b := Pow2(h);
    var w := b * b;
    EvenPower(h);
    DivisorHalves(d, b);
    var d1, d0 := d / b, d % b;
    DivMod(n1, d1);
    r := n1 % d1;
    q := n1 / d1;
    ghost var rest := r;
    EstimateBounds(n1, x, d, b, d1, d0, q, rest);
    ProductNonneg(q, d0);
    ModSmall(q * d0, w);
    var m := Mod(q * d0, w);
    UpperBound(d1, d, b, rest);
    JoinHalves(rest, x, h);
    r := BitOr(Mod(r * b, w), x);
    ghost var n, e: int, wraps: nat := n1 * b + x, (r as int) - m, 0;
    if r < m {
      PositiveQuotient(n, d, q, e);
      StepBack(n, d, q, e);
      AddCarry(r, d, w);
      wraps := if r + d >= w then 1 else 0;
      e := e + d;
      q := q - 1;
      r := Mod(r + d, w);
      if r >= d {
        if r < m {
          PositiveQuotient(n, d, q, e);
          StepBack(n, d, q, e);
          AddCarry(r, d, w);
          wraps := 1;
          e := e + d;
          q := q - 1;
          r := Mod(r + d, w);
        }
      }
    }
    ModIs((r as int) - m, w, -(wraps as int), e);
    r := Mod((r as int) - m, w);
    DigitBelow(n1, x, d, b, q, r);
  }

  lemma ProductNonneg(x: nat, y: nat)
    ensures 0 <= x * y
  {
  }

  lemma EvenPower(h: nat)
    requires h > 0
    ensures Pow2(h) >= 2 && Pow2(h) % 2 == 0
  {
  }

  lemma DivMod(n: nat, d: nat)
    requires d > 0
    ensures n == n / d * d + n % d && 0 <= n / d
  {
    Nonneg(n, d);
  }

  lemma DivisorHalves(d: nat, b: nat)
    requires b >= 2 && d < b * b <= 2 * d
    ensures d == d / b * b + d % b && 0 < d / b < b && 0 <= d % b < b
  {
    MulMono(2, b, b);
    DivBounds(d, b, 1);
    DivUpper(d, b, b);
  }

  lemma UpperBound(d1: nat, d: nat, b: nat, rest: nat)
    requires rest < d1 < b
    ensures rest < b
  {
  }

  lemma TwoDigits(n1: int, nh: int, nl: int, d: int, b: int, q1: int, r1: int, q0: int, r0: int)
    requires q1 * d + r1 == n1 * b + nh && q0 * d + r0 == r1 * b + nl
    ensures (q1 * b + q0) * d + r0 == n1 * (b * b) + (nh * b + nl)
  {
    assert (q1 * d + r1) * b == (n1 * b + nh) * b;
    assert q1 * b * d == q1 * d * b && n1 * b * b == n1 * (b * b);
  }

  /** __udiv_qrnnd_c: exact quotient and remainder of n1 * W + n0 by d, whose
      top bit is set and which exceeds n1. */
  method UdivQrnnd(n1: nat, n0: nat, d: nat, h: nat) returns (q: nat, r: nat)
    requires h > 0 && d < Pow2(h) * Pow2(h) <= 2 * d && n1 < d && n0 < Pow2(h) * Pow2(h)
    ensures q * d + r == n1 * (Pow2(h) * Pow2(h)) + n0 && r < d && q < Pow2(h) * Pow2(h)
  {
    hide Mod, Pow2, BitOr;
    var b := Pow2(h);
    SplitHalves(n0, b);
    var q1, r1 := Digit(n1, n0 / b, d, h);
    var q0, r0 := Digit(r1, n0 % b, d, h);
    JoinHalves(q1, q0, h);
    q := BitOr(Mod(q1 * b, b * b), q0);
    r := r0;
    TwoDigits(n1, n0 / b, n0 % b, d, b, q1, r1, q0, r0);
  }
}
