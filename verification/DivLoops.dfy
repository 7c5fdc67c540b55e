/** div.S: division by shifting and subtracting in registers of n bits. */
module DivLoops {
  import opened Bits
  import opened Machine32
  import opened SoftMul
  import opened SignedDiv

  /** blez, bltz: the signed reading of a register. */
  function ToInt(x: nat, n: nat): int
    requires n > 0
  {
    if x >= Pow2(n - 1) then x - Width(n) else x
  }

  lemma HalfWidth(n: nat)
    requires n > 0
    ensures Width(n) == 2 * Pow2(n - 1)
  {
    Pow2Step(n);
  }

  lemma Doubled(b: nat, e: nat)
    ensures b * Pow2(e + 1) == 2 * (b * Pow2(e)) && Pow2(e + 1) == 2 * Pow2(e)
  {
    hide Pow2;
    Pow2Step(e + 1);
  }

  lemma AtLeast(b: nat, e: nat)
    requires b > 0
    ensures Pow2(e) <= b * Pow2(e)
  {
    MulMono(1, b, Pow2(e));
  }

  lemma SetBit(a0: nat, t: nat, e: nat)
    requires a0 == t * Pow2(e + 1)
    ensures BitOr(a0, Pow2(e)) == a0 + Pow2(e) && a0 + Pow2(e) == (2 * t + 1) * Pow2(e) && a0 == 2 * t * Pow2(e)
  {
    hide Pow2, BitOr;
    Pow2Step(e + 1);
    ModAdd(0, t, Pow2(e + 1));
    OrAdds(a0, Pow2(e), e + 1);
    assert t * (2 * Pow2(e)) == 2 * t * Pow2(e);
    assert (2 * t + 1) * Pow2(e) == 2 * t * Pow2(e) + Pow2(e);
  }

  lemma HalfPower(b: nat, e: nat)
    ensures e > 0 ==> Pow2(e) / 2 == Pow2(e - 1) && b * Pow2(e) / 2 == b * Pow2(e - 1)
    ensures e == 0 ==> Pow2(e) / 2 == 0 && b * Pow2(e) == b
  {
    hide Pow2;
    Pow2Zero();
    if e > 0 {
      Doubled(b, e - 1);
    }
  }

  /** Labels .L1 to .L2: align the divisor with the dividend. */
  method Align(a: nat, b: nat, n: nat) returns (a2: nat, a3: nat, ghost e: nat)
    requires n > 0 && a < Width(n) && 0 < b < a
    ensures a2 == b * Pow2(e) && a3 == Pow2(e) && a2 < Width(n) && a < 2 * a2
  {
    hide Pow2;
    HalfWidth(n);
    Pow2Zero();
    a2, a3, e := b, 1, 0;
    var more := true;
    while more
      invariant a2 == b * Pow2(e) && a3 == Pow2(e) && 0 < a2 < Width(n)
      invariant !more ==> a < 2 * a2
      decreases more, Width(n) - a2
    {
      if ToInt(a2, n) <= 0 {
        more := false;
      } else {
        AtLeast(b, e);
        Doubled(b, e);
        ModSmall(2 * a2, Width(n));
        ModSmall(2 * a3, Width(n));
        a2 := Mod(2 * a2, Width(n));
        a3 := Mod(2 * a3, Width(n));
        e := e + 1;
        more := a > a2;
      }
    }
  }

  /** Labels .L3 to .L5: subtract and shift down. */
  method Subtract(a: nat, b: nat, n: nat, a2': nat, a3': nat, ghost e': nat) returns (a0: nat, a1: nat)
    requires b > 0 && a2' == b * Pow2(e') && a3' == Pow2(e') && a < 2 * a2'
    ensures a0 * b + a1 == a && a1 < b
  {
    hide Pow2, BitOr;
    var a2, a3 := a2', a3';
    a0, a1 := 0, a;
    ghost var e: nat, t: nat := e', 0;
    Doubled(b, e);
    var more := true;
    while more
      invariant a0 * b + a1 == a
      invariant more ==> a2 == b * Pow2(e) && a3 == Pow2(e) && a1 < 2 * a2 && a0 == t * Pow2(e + 1)
      invariant !more ==> a1 < b
      decreases more, e
    {
      SetBit(a0, t, e);
      HalfPower(b, e);
      t := 2 * t;
      if !(a1 < a2) {
        Subtracted(a0, a3, b, a2);
        a1 := a1 - a2;
        a0 := BitOr(a0, a3);
        t := t + 1;
      }
      a3 := a3 / 2;
      a2 := a2 / 2;
      PowerPositive(e);
      more := a3 != 0;
      if more {
        e := e - 1;
        Doubled(b, e);
      }
    }
  }

  lemma PowerPositive(e: nat)
    ensures Pow2(e) > 0
  {
  }

  lemma Subtracted(a0: int, p: int, b: int, a2: int)
    requires a2 == b * p
    ensures (a0 + p) * b == a0 * b + a2
  {
  }

  /** __udivdi3 leaves the quotient in a0 and the remainder in a1; a zero
      divisor gives all ones and the dividend. */
  method Udiv(a: nat, b: nat, n: nat) returns (a0: nat, a1: nat)
    requires n > 0 && a < Width(n) && b < Width(n)
    ensures b == 0 ==> a0 == Width(n) - 1 && a1 == a
    ensures b > 0 ==> a0 == a / b && a1 == a % b
  {
    hide Pow2;
    var a2, a3 := b, 1;
    a0, a1 := Width(n) - 1, a;
    if a2 != 0 {
      ghost var e: nat := 0;
      Pow2Zero();
      if !(a2 >= a1) {
        a2, a3, e := Align(a, b, n);
      }
      a0, a1 := Subtract(a, b, n, a2, a3, e);
      DivModUnique(a, b, a0, a1);
    }
  }

  /** __umoddi3 returns what __udivdi3 leaves in a1. */
  method Umod(a: nat, b: nat, n: nat) returns (a0: nat)
    requires n > 0 && a < Width(n) && b < Width(n)
    ensures a0 == if b == 0 then a else a % b
  {
    var q, r := Udiv(a, b, n);
    a0 := r;
  }

  // ---- signed division ----

  /** neg. */
  function Neg(x: nat, n: nat): nat { Mod(-(x as int), Width(n)) }

  lemma NegSigned(x: nat, n: nat)
    requires n > 0 && x < Width(n)
    ensures ToInt(x, n) < 0 ==> Neg(x, n) == -ToInt(x, n)
    ensures x == 0 ==> Neg(x, n) == 0
    ensures Mod(ToInt(x, n), Width(n)) == x
  {
    hide Mod, Pow2;
    HalfWidth(n);
    if ToInt(x, n) < 0 {
      ModIs(-(x as int), Width(n), -1, Width(n) - x);
      ModIs(ToInt(x, n), Width(n), -1, x);
    } else {
      ModSmall(x, Width(n));
    }
    ModSmall(0, Width(n));
  }

  lemma QuotientSmall(x: nat, y: nat, w: nat)
    requires 0 < y && x < w
    ensures 0 <= x / y < w && 0 <= x % y < w
  {
    Nonneg(x, y);
    DivMul(x, y);
  }

  lemma DivMul(x: nat, y: nat)
    requires y > 0
    ensures x / y <= x && x % y <= x
  {
    RemainderSign(x, y);
    MulMono(1, y, x / y);
    assert x == x / y * y + x % y;
  }

  /** __divdi3: DIV of section 7.2 of the RISC-V Unprivileged ISA, which is the
      quotient toward zero, all ones for a zero divisor, and the most negative
      number again for its overflow. */
  method Div(a: nat, b: nat, n: nat) returns (a0: nat)
    requires n > 0 && a < Width(n) && b < Width(n)
    ensures b != 0 ==> a0 == Mod(TruncDiv(ToInt(a, n), ToInt(b, n)), Width(n))
    ensures b == 0 ==> a0 == Width(n) - 1
    ensures a == Width(n) / 2 && b == Width(n) - 1 ==> a0 == a
  {
    hide Mod, Pow2;
    HalfWidth(n);
    NegSigned(a, n);
    NegSigned(b, n);
    ModIs(-1, Width(n), -1, Width(n) - 1);
    var r: nat;
    if ToInt(a, n) < 0 {
      var x := Neg(a, n);
      if ToInt(b, n) > 0 {
        a0, r := Udiv(x, b, n);
        a0 := Neg(a0, n);
      } else {
        a0, r := Udiv(x, Neg(b, n), n);
        if b != 0 {
          QuotientSmall(x, Neg(b, n), Width(n));
          ModSmall(a0, Width(n));
        }
      }
    } else if ToInt(b, n) < 0 {
      a0, r := Udiv(a, Neg(b, n), n);
      a0 := Neg(a0, n);
    } else {
      a0, r := Udiv(a, b, n);
      if b != 0 {
        QuotientSmall(a, b, Width(n));
        ModSmall(a0, Width(n));
      }
    }
  }

  /** __moddi3: REM of the same section. The remainder has the sign of the
      dividend; it is the dividend for a zero divisor, and 0 for the overflow. */
  method Rem(a: nat, b: nat, n: nat) returns (a0: nat)
    requires n > 0 && a < Width(n) && b < Width(n)
    ensures b != 0 ==> a0 == Mod(TruncRem(ToInt(a, n), ToInt(b, n)), Width(n))
    ensures b == 0 ==> a0 == a
    ensures a == Width(n) / 2 && b == Width(n) - 1 ==> a0 == 0
  {
    hide Mod, Pow2, TruncRem;
    HalfWidth(n);
    NegSigned(a, n);
    NegSigned(b, n);
    if b != 0 {
      RemainderSign(ToInt(a, n), ToInt(b, n));
    }
    var y := if ToInt(b, n) < 0 then Neg(b, n) else b;
    var q: nat, r: nat;
    if ToInt(a, n) >= 0 {
      q, r := Udiv(a, y, n);
      a0 := r;
      if b != 0 {
        QuotientSmall(a, y, Width(n));
      }
      ModSmall(a0, Width(n));
    } else {
      q, r := Udiv(Neg(a, n), y, n);
      assert b != 0 ==> TruncRem(ToInt(a, n), ToInt(b, n)) == -(r as int);
      a0 := Neg(r, n);
      if r == 0 {
        NegSigned(0, n);
      }
    }
  }
}
