/** __udivmoddi4: 64-bit division by shifting and subtracting on half words. */
module UDivMod {
  import opened Bits
  import opened Machine32
  import opened CountZeros

  const H63 := 0x8000_0000_0000_0000

  lemma Pow64()
    ensures Pow2(64) == B64 && Pow2(63) == H63 && Pow2(32) == B32
  {
    hide Pow2;
    Pow2Values();
    Pow2Add(32, 32);
    Pow2Add(31, 32);
  }

  // ---- shifting a double word right by sr, into r and q ----

  /** r is the part of n above bit sr, and q the part below it, left-aligned. */
  ghost predicate Aligned(n: U64, sr: nat, q: DWord, r: DWord)
    requires sr <= 64
  {
    All(r) == Quot(n, Pow2(sr)) && All(q) == n % Pow2(sr) * Pow2(64 - sr)
  }

  lemma WrapProduct(x: nat, p: nat, s: nat, m: nat)
    requires p > 0 && s > 0 && p * s == m
    ensures x * s % m == x % p * s
  {
    var q, r := x / p, x % p;
    assert x == q * p + r;
    assert x * s == q * (p * s) + r * s;
    MulMono(r + 1, p, s);
    assert (r + 1) * s == r * s + s;
    assert 0 <= r * s;
    DivModUnique(x * s, m, q, r * s);
  }

  /** The shifted halves of two words whose bits cross a word boundary. */
  lemma CrossWords(h: U32, l: U32, k: nat)
    requires 1 <= k <= 31
    ensures var p, s := Pow2(k), Pow2(32 - k);
      && p * s == B32 && Shr(h, k) == Quot(h, p)
      && Shl32(l, 32 - k) == l % p * s && h % p * s + l / p < B32
      && BitOr(Shl32(h, 32 - k), Shr(l, k)) == h % p * s + l / p
  {
    hide Pow2, BitOr;
    var p, s := Pow2(k), Pow2(32 - k);
    Pow64();
    Pow2Add(k, 32 - k);
    WrapProduct(l, p, s, B32);
    WrapProduct(h, p, s, B32);
    DivUpper(l, p, s);
    ModAdd(0, h % p, s);
    OrAdds(h % p * s, l / p, 32 - k);
    MulMono(h % p + 1, p, s);
    assert (h % p + 1) * s == h % p * s + s;
  }

  lemma SplitShort(nh: U32, nl: U32, p: nat, s: nat)
    requires p > 0 && p * s == B32
    ensures Quot(nh * B32 + nl, p) == nh / p * B32 + (nh % p * s + nl / p)
    ensures (nh * B32 + nl) % p == nl % p
  {
    var h1, h0, l1, l0 := nh / p, nh % p, nl / p, nl % p;
    assert nh == h1 * p + h0 && nl == l1 * p + l0;
    assert nh * B32 == h1 * B32 * p + h0 * s * p by {
      assert h0 * B32 == h0 * (p * s);
    }
    DivModUnique(nh * B32 + nl, p, h1 * B32 + (h0 * s + l1), l0);
  }

  lemma ShiftShort(n: DWord, sr: nat, q: DWord, r: DWord)
    requires 1 <= sr <= 31
    requires q == DWord(Shl32(n.low, 32 - sr), 0)
    requires r.high == Shr(n.high, sr) && r.low == BitOr(Shl32(n.high, 32 - sr), Shr(n.low, sr))
    ensures Aligned(All(n), sr, q, r)
  {
    hide Pow2, BitOr, Shl32, Shr, Quot;
    var p, s := Pow2(sr), Pow2(32 - sr);
    CrossWords(n.high, n.low, sr);
    QuotIs(n.high, p);
    SplitShort(n.high, n.low, p, s);
    Pow64();
    Pow2Add(32 - sr, 32);
    assert n.low % p * (s * B32) == n.low % p * s * B32;
  }

  lemma QuotIs(x: nat, p: nat)
    requires p > 0
    ensures Quot(x, p) == x / p
  {
  }

  lemma ShiftWord(n: DWord)
    ensures Aligned(All(n), 32, DWord(n.low, 0), DWord(0, n.high))
  {
    hide Pow2;
    Pow64();
    DivModUnique(All(n), B32, n.high, n.low);
  }

  lemma SplitLong(nh: U32, nl: U32, p: nat, s: nat)
    requires p > 0 && s > 0 && p * s == B32
    ensures Quot(nh * B32 + nl, p * B32) == nh / p
    ensures (nh * B32 + nl) % (p * B32) * s == (nh % p * s + nl / p) * B32 + nl % p * s
  {
    var h1, h0, l1, l0 := nh / p, nh % p, nl / p, nl % p;
    LongProduct(h1, p, h0);
    DivModUnique(nh * B32 + nl, p * B32, h1, h0 * B32 + nl);
    LongRest(h0, l1, l0, p, s);
  }

  lemma LongProduct(h1: int, p: int, h0: int)
    ensures (h1 * p + h0) * B32 == h1 * (p * B32) + h0 * B32
  {
  }

  lemma LongRest(h0: int, l1: int, l0: int, p: int, s: int)
    requires p * s == B32
    ensures (h0 * B32 + (l1 * p + l0)) * s == (h0 * s + l1) * B32 + l0 * s
  {
    assert l1 * p * s == l1 * (p * s);
  }

  lemma ShiftLong(n: DWord, sr: nat, q: DWord, r: DWord)
    requires 33 <= sr <= 63
    requires q.low == Shl32(n.low, 64 - sr) && q.high == BitOr(Shl32(n.high, 64 - sr), Shr(n.low, sr - 32))
    requires r == DWord(0, Shr(n.high, sr - 32))
    ensures Aligned(All(n), sr, q, r)
  {
    hide Pow2, BitOr, Shl32, Shr, Quot;
    var p, s := Pow2(sr - 32), Pow2(64 - sr);
    CrossWords(n.high, n.low, sr - 32);
    QuotIs(n.high, p);
    Pow64();
    Pow2Add(sr - 32, 32);
    SplitLong(n.high, n.low, p, s);
  }

  // ---- the loop ----

  lemma ShiftHalf(x: U32)
    ensures Shl32(x, 1) % 2 == 0 && Shr(x, 31) < 2 && 2 * x == Shr(x, 31) * B32 + Shl32(x, 1)
  {
    hide Pow2;
    Pow2Values();
    Two();
    assert x / 0x8000_0000 < 2;
    DivModUnique(2 * x, B32, x / 0x8000_0000, 2 * (x % 0x8000_0000));
  }

  lemma OrBit(a: U32, b: U32)
    requires a % 2 == 0 && b < 2
    ensures BitOr(a, b) == a + b && a + b < B32
  {
    hide BitOr, Pow2;
    Two();
    OrAdds(a, b, 1);
  }

  /** A double word shifted left by one, with a bit shifted in. */
  function ShiftIn(x: DWord, b: U32): DWord
    requires b < 2
  {
    ShiftHalf(x.high);
    ShiftHalf(x.low);
    OrBit(Shl32(x.high, 1), Shr32(x.low, 31));
    OrBit(Shl32(x.low, 1), b);
    DWord(BitOr(Shl32(x.high, 1), Shr32(x.low, 31)), BitOr(Shl32(x.low, 1), b))
  }

  lemma ShiftInValue(x: DWord, b: U32)
    requires b < 2
    ensures All(ShiftIn(x, b)) == Low64(2 * All(x) + b)
  {
    hide Shl32, Shr, BitOr;
    ShiftHalf(x.high);
    ShiftHalf(x.low);
    OrBit(Shl32(x.high, 1), Shr32(x.low, 31));
    OrBit(Shl32(x.low, 1), b);
    DivModUnique(2 * All(x) + b, B64, Shr(x.high, 31), All(ShiftIn(x, b)));
  }

  /** The loop invariant: the top bits p of n are divided, and the quotient so
      far stands below the remaining bits of n, but for its last bit. */
  ghost predicate Divided(n: U64, d: U64, k: nat, q: U64, r: U64, carry: U32)
    requires d > 0 && k <= 64
  {
    var p := Quot(n, Pow2(k));
    && r == p % d && carry == p / d % 2
    && q == n % Pow2(k) * Pow2(64 - k) + p / d / 2
  }

  /** The sign-mask comparison of the loop is right also for large divisors. */
  ghost predicate MaskOk(n: U64, d: U64, k: nat) {
    d <= H63 || (k <= 1 && n >= H63)
  }

  /** One bit of n, and what lies below it. */
  lemma BitSplit(n: U64, k: nat) returns (bit: nat, low: nat)
    requires 1 <= k <= 63
    ensures bit < 2 && low < Pow2(k - 1) && n % Pow2(k) == bit * Pow2(k - 1) + low
    ensures Quot(n, Pow2(k - 1)) == 2 * Quot(n, Pow2(k)) + bit && n % Pow2(k - 1) == low
  {
    hide Pow2;
    var h := Pow2(k - 1);
    Pow2Step(k);
    DivDiv(n, h, 2);
    assert h * 2 == Pow2(k);
    bit, low := n / h % 2, n % h;
  }

  lemma QuotBound(n: U64, k: nat)
    requires k <= 64
    ensures Quot(n, Pow2(k)) < Pow2(64 - k)
  {
    hide Pow2;
    Pow64();
    Pow2Add(64 - k, k);
    DivUpper(n, Pow2(k), Pow2(64 - k));
  }

  /** The left-aligned rest of n: its top bit is the next bit of n. */
  lemma RestTop(h: nat, s: nat, bit: nat, low: nat)
    requires h * s == H63 && s > 0 && low < h
    ensures (bit * h + low) * s == bit * H63 + low * s
    ensures 0 <= low * s && low * s + s <= H63
  {
    assert bit * h * s == bit * (h * s);
    MulMono(low + 1, h, s);
    assert (low + 1) * s == low * s + s;
  }

  /** Shifting q, from its parts: ls = low * s, and f the quotient so far. */
  lemma ShiftedParts(q: U64, bit: nat, ls: nat, s: nat, f: nat, carry: nat)
    requires bit < 2 && ls + s <= H63 && f / 2 < s && carry == f % 2
    requires q == bit * H63 + ls + f / 2
    ensures q / H63 == bit && Low64(2 * q + carry) == 2 * ls + f
  {
    DivModUnique(q, H63, bit, ls + f / 2);
    assert 2 * q + carry == (2 * ls + f) + bit * B64;
    DivModUnique(2 * q + carry, B64, bit, 2 * ls + f);
  }

  /** What the shift of r:q by one bit yields. */
  lemma ShiftedPair(n: U64, d: U64, k: nat, q: U64, r: U64, carry: U32, bit: nat, low: nat)
    requires 1 <= k <= 63 && d > 0 && Divided(n, d, k, q, r, carry)
    requires bit < 2 && low < Pow2(k - 1) && n % Pow2(k) == bit * Pow2(k - 1) + low
    ensures q / H63 == bit
    ensures Low64(2 * q + carry) == low * Pow2(65 - k) + Quot(n, Pow2(k)) / d
  {
    hide Pow2, Quot, Low64;
    var p, s, h := Quot(n, Pow2(k)), Pow2(64 - k), Pow2(k - 1);
    Pow64();
    Pow2Add(k - 1, 64 - k);
    Pow2Step(65 - k);
    QuotBound(n, k);
    QuotSmaller(p, d);
    RestTop(h, s, bit, low);
    ShiftedParts(q, bit, low * s, s, p / d, carry);
    Double(low, s);
  }

  lemma Double(low: nat, s: nat)
    ensures 2 * (low * s) == low * (2 * s)
  {
  }

  lemma QuotSmaller(p: nat, d: nat)
    requires d > 0
    ensures 0 <= p / d <= p
  {
    MulMono(1, d, p / d);
  }

  /** Division of 2p + bit, from the division of p. */
  lemma DivisionStep(p: nat, d: nat, bit: nat)
    requires d > 0 && bit < 2
    ensures var r, c := 2 * (p % d) + bit, if 2 * (p % d) + bit >= d then 1 else 0;
      (2 * p + bit) % d == r - (if c == 1 then d else 0) && (2 * p + bit) / d == 2 * (p / d) + c
  {
    var r := 2 * (p % d) + bit;
    var c := if r >= d then 1 else 0;
    assert p == p / d * d + p % d;
    assert 2 * p + bit == (2 * (p / d) + c) * d + (r - c * d);
    DivModUnique(2 * p + bit, d, 2 * (p / d) + c, r - c * d);
  }

  /** (di_int)x >> 63: all ones for a negative x, else 0. */
  function SignMask(x: U64): U64 { if x >= H63 then B64 - 1 else 0 }

  lemma MaskTest(n: U64, d: U64, k: nat, p: nat, bit: nat)
    requires 1 <= k <= 63 && d > 0 && MaskOk(n, d, k) && bit < 2
    requires p == Quot(n, Pow2(k)) && Quot(n, Pow2(k - 1)) == 2 * p + bit && (d > H63 ==> p < d)
    ensures 2 * (p % d) + bit < B64
    ensures var r := 2 * (p % d) + bit; Low64(d - r - 1) >= H63 <==> r >= d
  {
    hide Pow2, Quot;
    var r := 2 * (p % d) + bit;
    ModBound(p, d);
    NextBound(n, k, 2 * p + bit);
    if d > H63 {
      LastBit(n, k, 2 * p + bit);
      DivModUnique(p, d, 0, p);
    }
    MaskSign(d, r);
  }

  lemma NextBound(n: U64, k: nat, p: nat)
    requires 1 <= k <= 63 && p == Quot(n, Pow2(k - 1))
    ensures p < B64
  {
    hide Pow2, Quot;
    QuotBound(n, k - 1);
    Pow64();
    Pow2Mono(65 - k, 64);
  }

  lemma LastBit(n: U64, k: nat, p: nat)
    requires k == 1 && p == Quot(n, Pow2(k - 1))
    ensures p == n
  {
    Pow2Zero();
    QuotOne(n);
  }

  lemma MaskSign(d: U64, r: nat)
    requires r < B64 && r - d < H63 && d - r <= H63
    ensures Low64(d - r - 1) >= H63 <==> r >= d
  {
    if r >= d {
      DivModUnique(d - r - 1, B64, -1, d - r - 1 + B64);
    }
  }

  lemma ModBound(p: nat, d: nat)
    requires d > 0
    ensures 0 <= p % d < d && p % d <= p
  {
    QuotSmaller(p, d);
    MulMono(0, p / d, d);
  }

  lemma MaskBits(d: U64, s: U64, yes: bool)
    requires s == if yes then B64 - 1 else 0
    ensures LowBit(s) == (if yes then 1 else 0) && BitAnd(d, s) == if yes then d else 0
  {
    hide BitAnd, Pow2;
    Pow64();
    AndOnes(d, 64);
    AndZero(d);
  }

  lemma TopBit(q: DWord)
    ensures Shr(q.high, 31) == All(q) / H63
  {
    hide Pow2;
    Pow2Values();
    DivDiv(All(q), B32, 0x8000_0000);
  }

  /** One pass of the loop keeps the invariant. */
  lemma LoopStep(n: U64, d: U64, k: nat, q: DWord, r: DWord, carry: U32, q': DWord, r': DWord, s: U64)
    requires 1 <= k <= 63 && d > 0 && Divided(n, d, k, All(q), All(r), carry) && MaskOk(n, d, k)
    requires d > H63 ==> Quot(n, Pow2(k)) < d
    requires carry < 2 && Shr32(q.high, 31) < 2
    requires r' == ShiftIn(r, Shr32(q.high, 31)) && q' == ShiftIn(q, carry)
    requires s == SignMask(Low64(d - All(r') - 1))
    ensures Divided(n, d, k - 1, All(q'), Low64(All(r') - BitAnd(d, s)), LowBit(s))
  {
    hide Pow2, Quot, BitAnd, ShiftIn, All, Shr;
    var p := Quot(n, Pow2(k));
    var bit, low := BitSplit(n, k);
    ShiftedPair(n, d, k, All(q), All(r), carry, bit, low);
    TopBit(q);
    ShiftInValue(r, bit);
    ShiftInValue(q, carry);
    MaskTest(n, d, k, p, bit);
    var yes := 2 * (p % d) + bit >= d;
    LowSame(2 * (p % d) + bit);
    MaskBits(d, s, yes);
    DivisionStep(p, d, bit);
    ModBound(2 * p + bit, d);
    LowSame((2 * p + bit) % d);
    QuotSmaller(p, d);
    HalfOf(p / d, if yes then 1 else 0);
  }

  lemma LowSame(x: int)
    requires 0 <= x < B64
    ensures Low64(x) == x
  {
  }

  lemma HalfOf(f: nat, c: nat)
    requires c < 2
    ensures (2 * f + c) / 2 == f && (2 * f + c) % 2 == c
  {
  }

  /** The loop and the last shift of __udivmoddi4. */
  method ShiftSubtract(n: U64, d: U64, q0: DWord, r0: DWord, sr0: nat) returns (quo: U64, rem: U64)
    requires 1 <= sr0 <= 63 && d > 0 && Aligned(n, sr0, q0, r0) && All(r0) < d && MaskOk(n, d, sr0)
    ensures quo == n / d && rem == n % d
  {
    hide Pow2, Quot, BitAnd, ShiftIn, All, Divided, MaskOk, Shr;
    var q, r, sr, carry: U32 := q0, r0, sr0, 0;
    LoopStarts(n, d, sr0, q0, r0);
    while sr > 0
      invariant 0 <= sr <= sr0 && carry < 2
      invariant Divided(n, d, sr, All(q), All(r), carry) && MaskOk(n, d, sr)
      invariant d > H63 && sr > 0 ==> Quot(n, Pow2(sr)) < d
    {
      ShiftHalf(q.high);
      var r1 := ShiftIn(r, Shr32(q.high, 31));
      var q1 := ShiftIn(q, carry);
      var s := SignMask(Low64(d - All(r1) - 1));
      LoopStep(n, d, sr, q, r, carry, q1, r1, s);
      MaskBits(d, s, s != 0);
      MaskKept(n, d, sr);
      carry := LowBit(s);
      r := Halves(Low64(All(r1) - BitAnd(d, s)));
      q := q1;
      sr := sr - 1;
    }
    LoopEnds(n, d, q, All(r), carry);
    q := ShiftIn(q, carry);
    quo, rem := All(q), All(r);
  }

  lemma MaskKept(n: U64, d: U64, sr: nat)
    requires MaskOk(n, d, sr) && sr > 0
    ensures MaskOk(n, d, sr - 1) && (d > H63 ==> sr == 1)
  {
  }

  lemma LoopStarts(n: U64, d: U64, sr: nat, q: DWord, r: DWord)
    requires 1 <= sr <= 63 && d > 0 && Aligned(n, sr, q, r) && All(r) < d
    ensures Divided(n, d, sr, All(q), All(r), 0) && Quot(n, Pow2(sr)) < d
  {
    hide Pow2, Quot, All;
    DivModUnique(Quot(n, Pow2(sr)), d, 0, Quot(n, Pow2(sr)));
  }

  lemma LoopEnds(n: U64, d: U64, q: DWord, r: U64, carry: U32)
    requires d > 0 && carry < 2 && Divided(n, d, 0, All(q), r, carry)
    ensures r == n % d && All(ShiftIn(q, carry)) == n / d
  {
    hide Pow2, Quot, All, ShiftIn;
    Pow2Zero();
    QuotOne(n);
    ShiftInValue(q, carry);
    QuotSmaller(n, d);
    assert n % 1 == 0;
    LowSame(n / d);
  }

  // ---- the special cases ----

  lemma {:induction false} PowerTest(x: nat)
    requires x > 0
    ensures BitAnd(x, x - 1) == 0 <==> exists k: nat :: x == Pow2(k)
    decreases x
  {
    hide BitAnd, Pow2;
    AndStep(x, x - 1);
    Pow2Zero();
    if x == 1 {
      AndZero(1);
    } else if x % 2 == 1 {
      assert x / 2 == (x - 1) / 2;
      AndSame(x / 2);
      if k: nat :| x == Pow2(k) {
        Pow2Step(k);
      }
    } else {
      PowerTest(x / 2);
      assert (x - 1) / 2 == x / 2 - 1;
      if BitAnd(x / 2, x / 2 - 1) == 0 {
        var k: nat :| x / 2 == Pow2(k);
        Pow2Step(k + 1);
      }
      if k: nat :| x == Pow2(k) {
        Pow2Step(k);
        assert x / 2 == Pow2(k - 1);
      }
    }
  }

  lemma {:induction false} AndSame(x: nat)
    ensures BitAnd(x, x) == x
  {
    if x > 0 {
      AndSame(x / 2);
    }
  }

  /** ctz of a power of two is its exponent. */
  lemma PowerCtz(x: U32, k: nat, c: nat)
    requires x == Pow2(k) && Trailing(x, c)
    ensures c == k
  {
    hide Pow2;
    if c < k {
      Pow2Add(c, k - c);
      Pow2Step(k - c);
      DivModUnique(x, Pow2(c), Pow2(k - c), 0);
    } else if c > k {
      Pow2Strict(k, c);
      DivModUnique(x, Pow2(c), 0, x);
    }
  }

  lemma PowerMask(x: U32, n: nat, c: nat)
    requires x > 0 && BitAnd(x, x - 1) == 0 && Trailing(x, c)
    ensures x == Pow2(c) && BitAnd(n, x - 1) == n % x && Shr(n, c) == n / x
  {
    hide BitAnd, Pow2;
    PowerTest(x);
    var k: nat :| x == Pow2(k);
    PowerCtz(x, k, c);
    AndOnes(n, c);
  }

  /** Dividing by a divisor without low word. */
  lemma HighOnly(nh: U32, nl: U32, dh: U32)
    requires dh > 0
    ensures (nh * B32 + nl) / (dh * B32) == nh / dh
    ensures (nh * B32 + nl) % (dh * B32) == nh % dh * B32 + nl
  {
    assert nh == nh / dh * dh + nh % dh;
    assert nh * B32 + nl == nh / dh * (dh * B32) + (nh % dh * B32 + nl);
    DivModUnique(nh * B32 + nl, dh * B32, nh / dh, nh % dh * B32 + nl);
  }

  lemma SmallerDividend(n: U64, d: U64)
    requires n < d
    ensures n / d == 0 && n % d == n
  {
    DivModUnique(n, d, 0, n);
  }

  /** A larger clz means a smaller word. */
  lemma ClzOrder(x: U32, y: U32, cx: nat, cy: nat)
    requires Leading(x, 32, cx) && Leading(y, 32, cy) && cx < cy
    ensures y < x
  {
    hide Pow2;
    Pow2Mono(32 - cy, 31 - cx);
  }

  /** After a shift by 1 + clz(d) - clz(n) the dividend is below the divisor. */
  lemma ShiftedBelow(n: U64, d: U64, cn: nat, cd: nat, sr: nat)
    requires Leading(n, 64, cn) && Leading(d, 64, cd) && sr == cd + 1 - cn && cn <= cd && sr <= 63
    ensures Quot(n, Pow2(sr)) < d
  {
    hide Pow2;
    Pow2Add(63 - cd, sr);
    DivUpper(n, Pow2(sr), Pow2(63 - cd));
  }

  lemma MaskHolds(n: U64, d: U64, cn: nat, cd: nat, sr: nat)
    requires Leading(n, 64, cn) && Leading(d, 64, cd) && sr == cd + 1 - cn && cn <= cd
    ensures MaskOk(n, d, sr)
  {
    hide Pow2;
    Pow64();
    if cd > 0 {
      Pow2Mono(64 - cd, 63);
    }
  }

  /** The shift by a power of two of a dividend with both words. */
  lemma PowerLow(n: DWord, d: U32, c: nat, q: DWord, r: U32)
    requires d > 1 && d == Pow2(c) && c < 32
    requires q.high == Shr(n.high, c) && q.low == BitOr(Shl32(n.high, 32 - c), Shr(n.low, c)) && r == n.low % d
    ensures All(q) == All(n) / d && r == All(n) % d
  {
    hide Pow2, BitOr, Shl32, Shr;
    Pow2Zero();
    CrossWords(n.high, n.low, c);
    SplitShort(n.high, n.low, Pow2(c), Pow2(32 - c));
  }

  lemma LowDivisorSmall(x: U32, c: nat)
    requires x > 0 && Leading(x, 32, c) && BitAnd(x, x - 1) != 0
    ensures c <= 30
  {
    hide Pow2, BitAnd;
    if c == 31 {
      Pow2Zero();
      Two();
      AndZero(1);
    }
  }

  /** The general case, once q, r and sr are set up. */
  lemma Prepared(n: U64, d: U64, cn: nat, cd: nat, sr: nat, q: DWord, r: DWord)
    requires Leading(n, 64, cn) && Leading(d, 64, cd) && cn <= cd && sr == cd + 1 - cn && sr <= 63
    requires Aligned(n, sr, q, r)
    ensures All(r) < d && MaskOk(n, d, sr)
  {
    hide Pow2, Leading;
    ShiftedBelow(n, d, cn, cd, sr);
    MaskHolds(n, d, cn, cd, sr);
  }

  /** n has a high word, and d no low word (int64.c, lines 446 to 507). */
  method DivideByHigh(n: DWord, d: DWord) returns (quo: U64, rem: U64)
    requires n.high != 0 && d.low == 0 && d.high != 0
    ensures quo == All(n) / All(d) && rem == All(n) % All(d)
  {
    hide Pow2, BitAnd, BitOr, Leading, Trailing, Aligned, MaskOk, Shl32, Shr;
    HighOnly(n.high, n.low, d.high);
    if n.low == 0 {
      rem := All(DWord(n.high % d.high, 0));
      return n.high / d.high, rem;
    }
    var pow := BitAnd(d.high, d.high - 1);
    if pow == 0 {
      var c := Ctzsi2(d.high);
      PowerMask(d.high, n.high, c);
      rem := All(DWord(BitAnd(n.high, d.high - 1), n.low));
      return Shr32(n.high, c), rem;
    }
    var cd := Clzsi2(d.high);
    var cn := Clzsi2(n.high);
    CountBelow(d.high, cd);
    CountBelow(n.high, cn);
    LeadingHigh(n, cn);
    LeadingHigh(d, cd);
    LowDivisorSmall(d.high, cd);
    var sr: nat := Low32((cd as int) - cn);
    SubtractCounts(cd, cn);
    if sr > 30 {
      ClzOrder(d.high, n.high, cd, cn);
      SmallerDividend(All(n), All(d));
      return 0, All(n);
    }
    sr := sr + 1;
    CrossWords(n.high, n.low, sr);
    var q := DWord(Shl32(n.low, 32 - sr), 0);
    var r := DWord(Shr32(n.high, sr), BitOr(Shl32(n.high, 32 - sr), Shr32(n.low, sr)));
    ShiftShort(n, sr, q, r);
    Prepared(All(n), All(d), cn, cd, sr, q, r);
    quo, rem := ShiftSubtract(All(n), All(d), q, r, sr);
  }

  /** The difference of two counts, as an unsigned. */
  lemma SubtractCounts(a: U32, b: U32)
    requires a < 32 && b < 32
    ensures Low32(a - b) == if a >= b then a - b else a - b + B32
  {
    if a < b {
      ModAdd(a - b + B32, -1, B32);
    }
  }

  /** n has a high word, and d only a low word (lines 510 to 558). */
  method DivideByLow(n: DWord, d: DWord) returns (quo: U64, rem: U64)
    requires n.high != 0 && d.low != 0 && d.high == 0
    ensures quo == All(n) / All(d) && rem == All(n) % All(d)
  {
    hide Pow2, BitAnd, BitOr, Leading, Trailing, Aligned, MaskOk, Shl32, Shr;
    var pow := BitAnd(d.low, d.low - 1);
    if pow == 0 {
      var c := Ctzsi2(d.low);
      PowerMask(d.low, n.low, c);
      rem := BitAnd(n.low, d.low - 1);
      if d.low == 1 {
        return All(n), rem;
      }
      TrailingBound(d.low, c);
      PowerNotOne(d.low, c);
      CrossWords(n.high, n.low, c);
      var q := DWord(Shr32(n.high, c), BitOr(Shl32(n.high, 32 - c), Shr32(n.low, c)));
      PowerLow(n, d.low, c, q, rem);
      return All(q), rem;
    }
    var cd := Clzsi2(d.low);
    var cn := Clzsi2(n.high);
    LeadingHigh(n, cn);
    LeadingLow(d, cd);
    LowDivisorSmall(d.low, cd);
    CountBelow(d.low, cd);
    CountBelow(n.high, cn);
    var sr: nat := 1 + 32 + cd - cn;
    var q: DWord, r: DWord;
    if sr == 32 {
      q, r := DWord(n.low, 0), DWord(0, n.high);
      ShiftWord(n);
    } else if sr < 32 {
      CrossWords(n.high, n.low, sr);
      q := DWord(Shl32(n.low, 32 - sr), 0);
      r := DWord(Shr32(n.high, sr), BitOr(Shl32(n.high, 32 - sr), Shr32(n.low, sr)));
      ShiftShort(n, sr, q, r);
    } else {
      CrossWords(n.high, n.low, sr - 32);
      q := DWord(BitOr(Shl32(n.high, 64 - sr), Shr32(n.low, sr - 32)), Shl32(n.low, 64 - sr));
      r := DWord(0, Shr32(n.high, sr - 32));
      ShiftLong(n, sr, q, r);
    }
    Prepared(All(n), All(d), cn, cd + 32, sr, q, r);
    quo, rem := ShiftSubtract(All(n), All(d), q, r, sr);
  }

  lemma PowerNotOne(d: U32, c: nat)
    requires d == Pow2(c) && d != 1
    ensures c >= 1
  {
  }

  lemma CountBelow(x: U32, c: nat)
    requires Leading(x, 32, c)
    ensures c < 32
  {
  }

  /** Both have a high word and d a low word (lines 559 to 589). */
  method DivideByBoth(n: DWord, d: DWord) returns (quo: U64, rem: U64)
    requires n.high != 0 && d.low != 0 && d.high != 0
    ensures quo == All(n) / All(d) && rem == All(n) % All(d)
  {
    hide Pow2, BitOr, Leading, Aligned, MaskOk, Shl32, Shr;
    var cd := Clzsi2(d.high);
    var cn := Clzsi2(n.high);
    CountBelow(d.high, cd);
    CountBelow(n.high, cn);
    LeadingHigh(n, cn);
    LeadingHigh(d, cd);
    var sr: nat := Low32((cd as int) - cn);
    SubtractCounts(cd, cn);
    if sr > 31 {
      ClzOrder(d.high, n.high, cd, cn);
      SmallerDividend(All(n), All(d));
      return 0, All(n);
    }
    sr := sr + 1;
    var q: DWord, r: DWord;
    if sr == 32 {
      q, r := DWord(n.low, 0), DWord(0, n.high);
      ShiftWord(n);
    } else {
      CrossWords(n.high, n.low, sr);
      q := DWord(Shl32(n.low, 32 - sr), 0);
      r := DWord(Shr32(n.high, sr), BitOr(Shl32(n.high, 32 - sr), Shr32(n.low, sr)));
      ShiftShort(n, sr, q, r);
    }
    Prepared(All(n), All(d), cn, cd, sr, q, r);
    quo, rem := ShiftSubtract(All(n), All(d), q, r, sr);
  }

  lemma LowOnly(x: DWord)
    ensures if x.high == 0 then All(x) == x.low else All(x) >= 0x1_0000_0000
  {
  }

  /** __udivmoddi4: quotient and remainder for every nonzero divisor. */
  method Udivmoddi4(a: U64, b: U64) returns (quo: U64, rem: U64)
    requires b != 0
    ensures quo == a / b && rem == a % b
  {
    var n, d := Halves(a), Halves(b);
    hide All;
    LowOnly(n);
    LowOnly(d);
    if n.high == 0 {
      if d.high == 0 {
        return n.low / d.low, n.low % d.low;
      }
      SmallerDividend(a, b);
      return 0, n.low;
    }
    if d.low == 0 {
      quo, rem := DivideByHigh(n, d);
    } else if d.high == 0 {
      quo, rem := DivideByLow(n, d);
    } else {
      quo, rem := DivideByBoth(n, d);
    }
  }
}
