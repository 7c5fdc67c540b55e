/** Bit operations on natural numbers, as C's unsigned operators define them,
    and the arithmetic facts about them that the other modules use. */
module Bits {
  function Pow2(n: nat): (p: nat)
    ensures p > 0
  {
    if n == 0 then 1 else 2 * Pow2(n - 1)
  }

  function BitAnd(a: nat, b: nat): nat
    decreases a
  {
    if a == 0 then 0 else (if a % 2 == 1 && b % 2 == 1 then 1 else 0) + 2 * BitAnd(a / 2, b / 2)
  }

  function BitOr(a: nat, b: nat): nat
    decreases a + b
  {
    if a == 0 && b == 0 then 0
    else (if a % 2 == 1 || b % 2 == 1 then 1 else 0) + 2 * BitOr(a / 2, b / 2)
  }

  function BitXor(a: nat, b: nat): nat
    decreases a + b
  {
    if a == 0 && b == 0 then 0
    else (if a % 2 != b % 2 then 1 else 0) + 2 * BitXor(a / 2, b / 2)
  }

  /** `x >> k`. */
  function Shr(x: nat, k: nat): nat
  {
    Quot(x, Pow2(k))
  }

  function Quot(x: nat, p: nat): nat
    requires p > 0
  {
    x / p
  }

  // ---- powers of two ----

  lemma Pow2Values()
    ensures Pow2(0) == 1 && Pow2(3) == 8 && Pow2(4) == 0x10 && Pow2(8) == 0x100 && Pow2(9) == 0x200 && Pow2(10) == 0x400
    ensures Pow2(12) == 0x1000 && Pow2(16) == 0x1_0000 && Pow2(21) == 0x20_0000 && Pow2(22) == 0x40_0000
    ensures Pow2(24) == 0x100_0000 && Pow2(30) == 0x4000_0000 && Pow2(31) == 0x8000_0000
    ensures Pow2(32) == 0x1_0000_0000 && Pow2(39) == 0x80_0000_0000
  {
    assert Pow2(4) == 0x10;
    assert Pow2(8) == 0x100;
    Pow2Add(8, 8);
    Pow2Add(16, 16);
    assert Pow2(9) == 2 * Pow2(8) && Pow2(10) == 2 * Pow2(9);
    Pow2Add(8, 4);
    Pow2Add(9, 12);
    Pow2Add(10, 12);
    Pow2Add(16, 8);
    Pow2Add(9, 21);
    Pow2Add(9, 22);
    Pow2Add(9, 30);
  }

  lemma Pow2Zero()
    ensures Pow2(0) == 1
  {
  }

  lemma Pow2Step(n: nat)
    requires n > 0
    ensures Pow2(n) == 2 * Pow2(n - 1)
  {
  }

  lemma {:induction false} Pow2Add(m: nat, n: nat)
    ensures Pow2(m + n) == Pow2(m) * Pow2(n)
  {
    if m > 0 {
      Pow2Add(m - 1, n);
      assert Pow2(m + n) == 2 * (Pow2(m - 1) * Pow2(n));
    }
  }

  lemma {:induction false} Pow2Mono(m: nat, n: nat)
    requires m <= n
    ensures Pow2(m) <= Pow2(n)
    decreases n - m
  {
    if m < n {
      Pow2Mono(m + 1, n);
    }
  }

  lemma Pow2Strict(m: nat, n: nat)
    requires m < n
    ensures Pow2(m) < Pow2(n)
  {
    Pow2Mono(m + 1, n);
  }

  // ---- division and remainder ----

  lemma DivModUnique(x: int, d: int, q: int, r: int)
    requires d > 0 && x == q * d + r && 0 <= r < d
    ensures x / d == q && x % d == r
  {
    var q', r' := x / d, x % d;
    assert (q - q') * d == r' - r;
    SmallMultiple(q - q', d);
  }

  /** The only multiple of d strictly between -d and d is 0. */
  lemma SmallMultiple(k: int, d: int)
    requires -d < k * d < d
    ensures k == 0
  {
    if k >= 1 {
      MulMono(1, k, d);
    } else if k <= -1 {
      MulMono(k, -1, d);
    }
  }

  lemma MulMono(a: int, b: int, c: int)
    requires a <= b && 0 <= c
    ensures a * c <= b * c
  {
  }

  lemma DivUpper(x: nat, d: nat, q: nat)
    requires d > 0 && x < q * d
    ensures x / d < q
  {
    DivBounds(x, d, q);
  }

  /** Floor division is the right adjoint of multiplication. */
  lemma DivBounds(x: int, d: int, q: int)
    requires d > 0
    ensures q * d <= x <==> q <= x / d
  {
    var y := x / d;
    assert y * d <= x < y * d + d;
    if q <= y {
      MulMono(q, y, d);
    } else {
      MulMono(y + 1, q, d);
      assert (y + 1) * d == y * d + d;
    }
  }

  lemma DivDiv(x: nat, a: nat, b: nat)
    requires a > 0 && b > 0
    ensures a * b > 0
    ensures x / (a * b) == (x / a) / b
    ensures x % (a * b) == (x / a) % b * a + x % a
  {
    var q := (x / a) / b;
    var r := (x / a) % b * a + x % a;
    assert a * b > 0 by { MulMono(1, a, b); }
    assert x / a == q * b + (x / a) % b;
    assert x == (q * b + (x / a) % b) * a + x % a;
    assert (q * b) * a == q * (a * b);
    assert x == q * (a * b) + r;
    MulMono((x / a) % b, b - 1, a);
    assert (b - 1) * a == a * b - a;
    DivModUnique(x, a * b, q, r);
  }

  lemma SmallMod(x: nat, p: nat)
    requires x < p
    ensures x % p == x
  {
  }

  lemma ModAdd(a: int, b: int, m: int)
    requires m > 0
    ensures (a + b * m) % m == a % m
  {
    DivModUnique(a + b * m, m, a / m + b, a % m);
  }

  // ---- and, or, xor on aligned parts ----

  lemma {:induction false} AndSplit(k: nat, p: nat, x: nat, a: nat, b: nat, y: nat, c: nat, d: nat)
    requires p == Pow2(k) && b < p && d < p
    requires x == a * p + b && y == c * p + d
    ensures BitAnd(x, y) == BitAnd(a, c) * p + BitAnd(b, d)
    decreases k
  {
    hide BitAnd, Pow2;
    if k == 0 {
      Pow2Zero();
      AndZeros();
    } else {
      var h := Pow2(k - 1);
      Pow2Step(k);
      Halve(x, h, a, b);
      Halve(y, h, c, d);
      AndSplit(k - 1, h, x / 2, a, b / 2, y / 2, c, d / 2);
      AndStep(x, y);
      AndStep(b, d);
      Regroup(BitAnd(a, c), h, BitAnd(b / 2, d / 2));
    }
  }

  lemma AndZeros()
    ensures BitAnd(0, 0) == 0
  {
  }

  lemma AndStep(a: nat, b: nat)
    ensures BitAnd(a, b) == (if a % 2 == 1 && b % 2 == 1 then 1 else 0) + 2 * BitAnd(a / 2, b / 2)
  {
  }

  lemma Halve(x: nat, h: nat, a: nat, b: nat)
    requires x == a * (2 * h) + b
    ensures x % 2 == b % 2
    ensures x / 2 == a * h + b / 2
  {
    assert a * (2 * h) == 2 * (a * h);
  }

  lemma Regroup(e: int, p: int, f: int)
    ensures 2 * (e * p + f) == e * (2 * p) + 2 * f
  {
  }

  lemma {:induction false} OrSplit(k: nat, p: nat, x: nat, a: nat, b: nat, y: nat, c: nat, d: nat)
    requires p == Pow2(k) && b < p && d < p
    requires x == a * p + b && y == c * p + d
    ensures BitOr(x, y) == BitOr(a, c) * p + BitOr(b, d)
    decreases k
  {
    hide BitOr, Pow2;
    if k == 0 {
      Pow2Zero();
      OrZeros();
    } else {
      var h := Pow2(k - 1);
      Pow2Step(k);
      Halve(x, h, a, b);
      Halve(y, h, c, d);
      OrSplit(k - 1, h, x / 2, a, b / 2, y / 2, c, d / 2);
      OrStep(x, y);
      OrStep(b, d);
      Regroup(BitOr(a, c), h, BitOr(b / 2, d / 2));
    }
  }

  lemma OrZeros()
    ensures BitOr(0, 0) == 0
  {
  }

  lemma OrStep(a: nat, b: nat)
    ensures BitOr(a, b) == (if a % 2 == 1 || b % 2 == 1 then 1 else 0) + 2 * BitOr(a / 2, b / 2)
  {
  }

  lemma {:induction false} XorSplit(k: nat, p: nat, x: nat, a: nat, b: nat, y: nat, c: nat, d: nat)
    requires p == Pow2(k) && b < p && d < p
    requires x == a * p + b && y == c * p + d
    ensures BitXor(x, y) == BitXor(a, c) * p + BitXor(b, d)
    decreases k
  {
    hide BitXor, Pow2;
    if k == 0 {
      Pow2Zero();
      XorZeros();
    } else {
      var h := Pow2(k - 1);
      Pow2Step(k);
      Halve(x, h, a, b);
      Halve(y, h, c, d);
      XorSplit(k - 1, h, x / 2, a, b / 2, y / 2, c, d / 2);
      XorStep(x, y);
      XorStep(b, d);
      Regroup(BitXor(a, c), h, BitXor(b / 2, d / 2));
    }
  }

  lemma XorZeros()
    ensures BitXor(0, 0) == 0
  {
  }

  lemma XorStep(a: nat, b: nat)
    ensures BitXor(a, b) == (if a % 2 != b % 2 then 1 else 0) + 2 * BitXor(a / 2, b / 2)
  {
  }

  lemma {:induction false} AndZero(a: nat)
    ensures BitAnd(a, 0) == 0
  {
    if a > 0 {
      AndZero(a / 2);
    }
  }

  lemma {:induction false} OrZero(a: nat)
    ensures BitOr(a, 0) == a && BitOr(0, a) == a
  {
    if a > 0 {
      OrZero(a / 2);
    }
  }

  lemma {:induction false} XorZero(a: nat)
    ensures BitXor(a, 0) == a && BitXor(0, a) == a
  {
    if a > 0 {
      XorZero(a / 2);
    }
  }

  /** Exclusive or with all ones complements. */
  lemma {:induction false} XorOnes(k: nat, b: nat)
    requires b < Pow2(k)
    ensures BitXor(Pow2(k) - 1, b) == Pow2(k) - 1 - b
  {
    if k == 0 {
      XorZeros();
    } else {
      hide BitXor, Pow2;
      var p := Pow2(k - 1);
      Pow2Step(k);
      XorOnes(k - 1, b / 2);
      XorStep(2 * p - 1, b);
      assert (2 * p - 1) / 2 == p - 1 && (2 * p - 1) % 2 == 1;
    }
  }

  lemma {:induction false} XorComm(a: nat, b: nat)
    ensures BitXor(a, b) == BitXor(b, a)
    decreases a + b
  {
    if a != 0 || b != 0 {
      hide BitXor;
      XorStep(a, b);
      XorStep(b, a);
      XorComm(a / 2, b / 2);
    }
  }

  lemma {:induction false} AndComm(a: nat, b: nat)
    ensures BitAnd(a, b) == BitAnd(b, a)
  {
    if a == 0 {
      AndZero(b);
    } else if b == 0 {
      AndZero(a);
    } else {
      AndComm(a / 2, b / 2);
    }
  }

  /** Masking with the k low ones keeps the remainder mod 2^k. */
  lemma {:induction false} AndOnes(a: nat, k: nat)
    ensures BitAnd(a, Pow2(k) - 1) == a % Pow2(k)
    decreases k
  {
    if k == 0 {
      AndZero(a);
    } else {
      hide BitAnd, Pow2;
      var p := Pow2(k - 1);
      Pow2Step(k);
      AndOnes(a / 2, k - 1);
      AndStep(a, 2 * p - 1);
      assert (2 * p - 1) / 2 == p - 1 && (2 * p - 1) % 2 == 1;
      DivDiv(a, 2, p);
    }
  }

  /** Masking with `bits` ones placed at `shift` selects that bit field. */
  lemma AndField(a: nat, bits: nat, shift: nat, p: nat, q: nat, mask: nat)
    requires p == Pow2(shift) && q == Pow2(bits) && mask == (q - 1) * p
    ensures BitAnd(a, mask) == a / p % q * p
  {
    hide BitAnd, Pow2;
    AndSplit(shift, p, a, a / p, a % p, mask, q - 1, 0);
    AndZero(a % p);
    AndOnes(a / p, bits);
  }

  /** `|` of two words that have no bit in common, the low one below 2^k and
      the high one a multiple of 2^k, is their sum. */
  lemma OrDisjoint(a: nat, b: nat, k: nat)
    requires a % Pow2(k) == 0 && b < Pow2(k)
    ensures BitOr(a, b) == a + b
  {
    hide BitOr, Pow2;
    var p := Pow2(k);
    OrSplit(k, p, a, a / p, 0, b, 0, b);
    OrZero(a / p);
    OrZero(b);
  }
}
