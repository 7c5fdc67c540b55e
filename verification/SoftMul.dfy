/** Multiplication without a multiply instruction: muldi3.S, the umul_ppmm
    macro and multi3.c, for any register width. */
module SoftMul {
  import opened Bits
  import opened Machine32

  /** Registers of n bits hold the numbers below Width(n). */
  function Width(n: nat): nat { Pow2(n) }

  /** Arithmetic on registers is modulo w. */
  function Mod(x: int, w: nat): (r: nat)
    requires w > 0
    ensures r < w
  {
    x % w
  }

  lemma ModDef(x: int, w: nat) returns (q: int)
    requires w > 0
    ensures x == q * w + Mod(x, w)
  {
    q := x / w;
  }

  lemma ModIs(x: int, w: nat, q: int, r: nat)
    requires r < w && x == q * w + r
    ensures Mod(x, w) == r
  {
    DivModUnique(x, w, q, r);
  }

  lemma ModPlus(x: int, q: int, w: nat)
    requires w > 0
    ensures Mod(x + q * w, w) == Mod(x, w)
  {
    ModAdd(x, q, w);
  }

  lemma ModSmall(x: int, w: nat)
    requires 0 <= x < w
    ensures Mod(x, w) == x
  {
  }

  // ---- muldi3.S ----

  lemma MulStep(a0: nat, a1: nat, a2: nat, w: nat)
    requires w > 0
    ensures Mod((if a1 % 2 == 1 then Mod(a0 + a2, w) else a0) + Mod(2 * a2, w) * (a1 / 2), w) == Mod(a0 + a2 * a1, w)
  {
    hide Mod;
    var h, b := a1 / 2, a1 % 2;
    var q := ModDef(2 * a2, w);
    var r := Mod(2 * a2, w);
    Distribute(q, w, r, h, a2);
    assert a2 * a1 == a2 * (2 * h) + a2 * b;
    if b == 1 {
      var p := ModDef(a0 + a2, w);
      ModPlus(Mod(a0 + a2, w) + r * h, p + q * h, w);
      assert (p + q * h) * w == p * w + q * h * w;
    } else {
      ModPlus(a0 + r * h, q * h, w);
    }
  }

  lemma Distribute(q: int, w: int, r: int, h: int, a2: int)
    requires 2 * a2 == q * w + r
    ensures a2 * (2 * h) == q * h * w + r * h
  {
    assert a2 * (2 * h) == 2 * a2 * h == (q * w + r) * h;
  }

  /** __mulsi3 (__muldi3 on RV64): shift and add; the loop runs at least once. */
  method Mulsi3(u: nat, v: nat, w: nat) returns (p: nat)
    requires u < w && v < w
    ensures p == Mod(u * v, w)
  {
    hide Mod;
    var a0: nat, a1: nat, a2: nat := 0, v, u;
    var more := true;
    while more
      invariant a0 < w && a1 < w && a2 < w
      invariant Mod(a0 + a2 * a1, w) == Mod(u * v, w)
      invariant !more ==> a1 == 0
      decreases more, a1
    {
      MulStep(a0, a1, a2, w);
      if LowBit(a1) != 0 {
        a0 := Mod(a0 + a2, w);
      }
      a1 := a1 / 2;
      a2 := Mod(2 * a2, w);
      more := a1 != 0;
    }
    ModSmall(a0, w);
    p := a0;
  }

  // ---- umul_ppmm ----

  /** u * v from the four products of half words; x1 has lost a carry c. */
  lemma FourProducts(b: int, ul: int, uh: int, vl: int, vh: int, c: int, x1: int)
    requires b > 0 && x1 + c * (b * b) == ul * vh + ul * vl / b + uh * vl
    ensures var x0, x3 := ul * vl, uh * vh + c * b;
      (x3 + x1 / b) * (b * b) + (x1 % b * b + x0 % b) == (uh * b + ul) * (vh * b + vl)
  {
    var x0, x3, s := ul * vl, uh * vh + c * b, ul * vh + ul * vl / b + uh * vl;
    Expand(b, ul, uh, vl, vh);
    MiddleTerms(b, x0 / b, ul * vh, uh * vl);
    PlaceTerms(b, uh * vh, c, x1 / b, x1 % b, x1);
  }

  lemma MiddleTerms(b: int, t: int, x1: int, x2: int)
    ensures (x1 + t + x2) * b == (x1 + x2) * b + t * b
  {
  }

  lemma PlaceTerms(b: int, x3: int, c: int, q: int, r: int, x1: int)
    requires x1 == q * b + r
    ensures (x3 + c * b + q) * (b * b) + r * b == x3 * (b * b) + (x1 + c * (b * b)) * b
  {
    assert q * (b * b) == q * b * b;
    assert c * b * (b * b) == c * (b * b) * b;
  }

  lemma Expand(b: int, ul: int, uh: int, vl: int, vh: int)
    ensures (uh * b + ul) * (vh * b + vl) == uh * vh * (b * b) + (ul * vh + uh * vl) * b + ul * vl
  {
  }

  lemma HalfProduct(b: nat, x: nat, y: nat)
    requires x < b && y < b
    ensures 0 <= x * y && x * y + 2 * (b - 1) < b * b && x * y < b * b && 0 <= x * y / b < b
  {
    MulMono(x, b - 1, y);
    MulMono(y, b - 1, b - 1);
    assert (b - 1) * y == y * (b - 1);
    assert (b - 1) * (b - 1) + 2 * (b - 1) + 1 == b * b;
    assert 0 <= x * y;
    DivUpper(x * y, b, b);
    Nonneg(x * y, b);
  }

  lemma AddCarry(x: nat, y: nat, w: nat)
    requires x < w && y < w
    ensures Mod(x + y, w) < y <==> x + y >= w
    ensures Mod(x + y, w) == if x + y >= w then x + y - w else x + y
  {
    hide Mod;
    if x + y >= w {
      ModIs(x + y, w, 1, x + y - w);
    } else {
      ModSmall(x + y, w);
    }
  }

  lemma SquareLess(x: nat, y: nat, b: nat)
    requires x < b && y < b
    ensures x * b + y < b * b
  {
    MulMono(x + 1, b, b);
    assert (x + 1) * b == x * b + b;
  }

  /** A two-word product fits two words. */
  lemma ProductFits(hi: nat, lo: nat, w: nat, u: nat, v: nat)
    requires u < w && v < w && hi * w + lo == u * v
    ensures hi < w
  {
    HalfProduct(w, u, v);
    DivUpper(hi * w, w, w);
    DivBounds(hi * w, w, hi);
  }

  /** umul_ppmm: the exact double-word product of words of b * b. */
  method UmulPpmm(u: nat, v: nat, b: nat) returns (w1: nat, w0: nat)
    requires b > 1 && u < b * b && v < b * b
    ensures w1 * (b * b) + w0 == u * v && w0 < b * b && w1 < b * b
  {
    hide Mod;
    var w := b * b;
    SplitHalves(u, b);
    SplitHalves(v, b);
    var ul, uh, vl, vh := u % b, u / b, v % b, v / b;
    HalfProduct(b, ul, vl);
    HalfProduct(b, ul, vh);
    HalfProduct(b, uh, vl);
    HalfProduct(b, uh, vh);
    HalfWord(ul, uh, vl, vh, b);
    var x0 := Mulsi3(ul, vl, w);
    var x1 := Mulsi3(ul, vh, w);
    var x2 := Mulsi3(uh, vl, w);
    var x3 := Mulsi3(uh, vh, w);
    ModSmall(ul * vl, w);
    ModSmall(ul * vh, w);
    ModSmall(uh * vl, w);
    ModSmall(uh * vh, w);
    Nonneg(x0, b);
    ModSmall(x1 + x0 / b, w);
    x1 := Mod(x1 + x0 / b, w);
    AddCarry(x1, x2, w);
    ghost var c := if x1 + x2 >= w then 1 else 0;
    x1 := Mod(x1 + x2, w);
    if x1 < x2 {
      x3 := Mod(x3 + b, w);
    }
    PpmmEnd(b, w, u, v, ul, uh, vl, vh, c, x0, x1, x3);
    Nonneg(x1, b);
    w1 := Mod(x3 + x1 / b, w);
    w0 := Mod(x1 % b * b + x0 % b, w);
  }

  lemma SplitHalves(u: nat, b: nat)
    requires b > 0 && u < b * b
    ensures u == u / b * b + u % b && 0 <= u / b < b && 0 <= u % b < b
  {
    Nonneg(u, b);
    DivUpper(u, b, b);
  }

  /** Half words are words. */
  lemma HalfWord(ul: nat, uh: nat, vl: nat, vh: nat, b: nat)
    requires ul < b && uh < b && vl < b && vh < b
    ensures ul < b * b && uh < b * b && vl < b * b && vh < b * b
  {
    MulMono(1, b, b);
  }

  lemma PpmmEnd(b: nat, w: nat, u: nat, v: nat, ul: nat, uh: nat, vl: nat, vh: nat, c: nat, x0: int, x1: nat, x3: int)
    requires b > 1 && w == b * b && u < w && v < w && u == uh * b + ul && v == vh * b + vl && vl < b && ul < b &&
      uh < b && vh < b
    requires c < 2 && x0 == ul * vl && x1 + c * w == ul * vh + x0 / b + uh * vl
    requires x3 == if c == 1 then Mod(uh * vh + b, w) else uh * vh
    ensures x1 / b >= 0
    ensures Mod(x3 + x1 / b, w) * w + Mod(x1 % b * b + x0 % b, w) == u * v
  {
    hide Mod;
    var hi, lo := x1 / b, x1 % b * b + x0 % b;
    PpmmSum(b, w, u, v, ul, uh, vl, vh, c, x0, x1, hi, lo);
    PpmmWords(w, u, v, uh * vh + c * b, hi, lo, uh * vh, b, c, x3);
  }

  lemma PpmmSum(b: nat, w: nat, u: nat, v: nat, ul: nat, uh: nat, vl: nat, vh: nat, c: nat, x0: int, x1: nat,
    hi: int, lo: int)
    requires b > 1 && w == b * b && u == uh * b + ul && v == vh * b + vl && uh < b && vh < b
    requires x0 == ul * vl && x1 + c * w == ul * vh + x0 / b + uh * vl
    requires hi == x1 / b && lo == x1 % b * b + x0 % b
    ensures hi >= 0 && 0 <= lo < w && 0 <= uh * vh && (uh * vh + c * b + hi) * w + lo == u * v
  {
    assert hi >= 0 by { Nonneg(x1, b); }
    assert 0 <= uh * vh by { HalfProduct(b, uh, vh); }
    assert 0 <= lo < w by { DigitsBelow(x1 % b, x0 % b, b); }
    assert (uh * vh + c * b + hi) * w + lo == u * v by { FourProducts(b, ul, uh, vl, vh, c, x1); }
  }

  lemma DigitsBelow(x: nat, y: nat, b: nat)
    requires x < b && y < b
    ensures 0 <= x * b + y < b * b
  {
    MulMono(0, x, b);
    SquareLess(x, y, b);
  }

  lemma PpmmWords(w: nat, u: nat, v: nat, t3: int, hi: nat, lo: nat, x: int, b: nat, c: nat, x3: int)
    requires 0 <= x && 0 <= t3 && u < w && v < w && lo < w && (t3 + hi) * w + lo == u * v && c < 2
    requires t3 == x + c * b && x3 == if c == 1 then Mod(x + b, w) else x
    ensures Mod(x3 + hi, w) * w + Mod(lo, w) == u * v
  {
    hide Mod;
    ProductFits(t3 + hi, lo, w, u, v);
    ModSmall(lo, w);
    ModSmall(t3, w);
    ModSmall(t3 + hi, w);
  }

  lemma Nonneg(x: nat, b: nat)
    requires b > 0
    ensures x / b >= 0
  {
  }

  // ---- multi3.c ----

  /** The double-width product of two words, bit by bit of v. */
  method LowProduct(u: nat, v: nat, n: nat) returns (lo: nat, hi: nat)
    requires n > 0 && u < Width(n) && v < Width(n)
    ensures lo < Width(n) && hi < Width(n) && hi * Width(n) + lo == u * v
  {
    hide Mod, Pow2, BitOr, Shr;
    var w := Width(n);
    var ulow, vlow, wlow, whigh, tmp := u, v, 0, 0, 0;
    ghost var k: nat := 0;
    Pow2Zero();
    StartLow(v);
    var more := true;
    while more
      invariant k <= n && wlow < w && whigh < w && ulow < w && tmp < w
      invariant more ==> k < n
      invariant vlow == v / Pow2(k) && (!more ==> vlow == 0)
      invariant whigh * w + wlow == u * (v % Pow2(k))
      invariant tmp * w + ulow == u * Pow2(k)
      decreases more, vlow
    {
      var newLow := Mod(wlow + ulow, w);
      var twice := Mod(2 * tmp, w);
      ShiftDouble(u, n, k, tmp, ulow);
      BitOf(v, k);
      AccumulateBit(u, v, n, k, whigh, wlow, tmp, ulow);
      tmp := Mod(tmp + whigh, w);
      if LowBit(vlow) != 0 {
        var carry := if newLow < wlow then 1 else 0;
        wlow := newLow;
        whigh := Mod(carry + tmp, w);
      }
      var msb := Shr(ulow, n - 1);
      vlow := vlow / 2;
      ulow := Mod(2 * ulow, w);
      tmp := BitOr(msb, twice);
      k := k + 1;
      more := vlow != 0;
      if more {
        BitsLeft(v, k, n);
      }
    }
    EndLow(v, k);
    lo, hi := wlow, whigh;
  }

  lemma StartLow(v: nat)
    ensures v / 1 == v && v % 1 == 0
  {
  }

  lemma EndLow(v: nat, k: nat)
    requires v / Pow2(k) == 0
    ensures v % Pow2(k) == v
  {
    hide Pow2;
    DivBounds(v, Pow2(k), 1);
    DivModUnique(v, Pow2(k), 0, v);
  }

  /** While bits of v are left, the shift count is below the width. */
  lemma BitsLeft(v: nat, k: nat, n: nat)
    requires v < Width(n) && v / Pow2(k) > 0
    ensures k < n
  {
    hide Mod, Pow2;
    DivBounds(v, Pow2(k), 1);
    if k >= n {
      Pow2Mono(n, k);
    }
  }

  lemma BitOf(v: nat, k: nat)
    ensures v / Pow2(k + 1) == v / Pow2(k) / 2
    ensures v % Pow2(k + 1) == v / Pow2(k) % 2 * Pow2(k) + v % Pow2(k)
  {
    hide Mod, Pow2;
    Pow2Step(k + 1);
    DivDiv(v, Pow2(k), 2);
    assert Pow2(k) * 2 == Pow2(k + 1);
  }

  /** Shifting a double word left by one, as the loop does with its halves. */
  lemma ShiftDouble(u: nat, n: nat, k: nat, high: nat, low: nat)
    requires n > 0 && k < n && u < Width(n) && high < Width(n) && low < Width(n)
    requires high * Width(n) + low == u * Pow2(k)
    ensures var w := Width(n);
      BitOr(Shr(low, n - 1), Mod(2 * high, w)) * w + Mod(2 * low, w) == u * Pow2(k + 1) &&
      BitOr(Shr(low, n - 1), Mod(2 * high, w)) < w
  {
    hide Mod, Pow2, BitOr, Shr;
    var w, h := Width(n), Pow2(n - 1);
    Pow2Step(n);
    Pow2Step(k + 1);
    Pow2Mono(k + 1, n);
    HighFits(u, w, Pow2(k), high, low);
    ModSmall(2 * high, w);
    TopBitOf(low, n);
    OrTopBit(high, Shr(low, n - 1));
    DoubleWord(u, w, Pow2(k), high, low, Shr(low, n - 1), Mod(2 * low, w));
  }

  lemma TopBitOf(low: nat, n: nat)
    requires n > 0 && low < Width(n)
    ensures Shr(low, n - 1) < 2 && 2 * low == Shr(low, n - 1) * Width(n) + Mod(2 * low, Width(n))
  {
    hide Mod, Pow2;
    var h := Pow2(n - 1);
    Pow2Step(n);
    DivUpper(low, h, 2);
    Nonneg(low, h);
    assert low == low / h * h + low % h;
    ModIs(2 * low, Width(n), low / h, 2 * (low % h));
  }

  lemma OrTopBit(high: nat, bit: nat)
    requires bit < 2
    ensures BitOr(bit, 2 * high) == 2 * high + bit
  {
    hide Pow2, BitOr;
    Pow2Zero();
    Pow2Step(1);
    OrAdds(2 * high, bit, 1);
  }

  lemma DoubleWord(u: nat, w: nat, p: nat, high: nat, low: nat, bit: nat, rest: nat)
    requires high * w + low == u * p && 2 * low == bit * w + rest
    ensures (2 * high + bit) * w + rest == u * (2 * p)
  {
    assert u * (2 * p) == 2 * (u * p);
    assert (2 * high + bit) * w == 2 * (high * w) + bit * w;
  }

  lemma HighFits(u: nat, w: nat, p: nat, high: nat, low: nat)
    requires u < w && 2 * p <= w && high * w + low == u * p && w % 2 == 0 && p > 0
    ensures 2 * high + 1 < w
  {
    MulMono(u, w - 1, p);
    assert (w - 1) * p == w * p - p;
    assert high * w < w * p;
    if high >= p {
      MulMono(p, high, w);
    }
  }

  /** Adding the shifted u when the bit of v is set loses no carry. */
  lemma AccumulateBit(u: nat, v: nat, n: nat, k: nat, high: nat, low: nat, uh: nat, ul: nat)
    requires n > 0 && k < n && u < Width(n) && v < Width(n) && low < Width(n) && ul < Width(n) && high < Width(n) &&
      uh < Width(n)
    requires high * Width(n) + low == u * (v % Pow2(k)) && uh * Width(n) + ul == u * Pow2(k)
    ensures v / Pow2(k) % 2 == 0 ==> u * (v % Pow2(k + 1)) == high * Width(n) + low
    ensures var w := Width(n);
      var carry := if Mod(low + ul, w) < low then 1 else 0;
      v / Pow2(k) % 2 == 1 ==> Mod(carry + Mod(uh + high, w), w) * w + Mod(low + ul, w) == u * (v % Pow2(k + 1))
  {
    hide Mod, Pow2;
    BitOf(v, k);
    if v / Pow2(k) % 2 == 1 {
      ModSmaller(v, Pow2(k + 1));
      AddWords(u, v % Pow2(k + 1), Width(n), Pow2(k), v % Pow2(k), high, low, uh, ul);
    }
  }

  lemma WordSum(u: int, p: int, rest: int, w: int, c: int, uh: int, high: int)
    requires c == 0 || c == 1
    ensures u * (p + rest) == u * p + u * rest
    ensures (c + uh + high) * w == (if c == 1 then w else 0) + uh * w + high * w
  {
  }

  lemma AddWords(u: nat, v: nat, w: nat, p: nat, rest: nat, high: nat, low: nat, uh: nat, ul: nat)
    requires u < w && v < w && low < w && ul < w && v == p + rest
    requires high * w + low == u * rest && uh * w + ul == u * p
    ensures var carry := if Mod(low + ul, w) < low then 1 else 0;
      Mod(carry + Mod(uh + high, w), w) * w + Mod(low + ul, w) == u * v
  {
    hide Mod;
    AddCarry(ul, low, w);
    var carry := if Mod(low + ul, w) < low then 1 else 0;
    var total := carry + uh + high;
    WordSum(u, p, rest, w, carry, uh, high);
    ProductFits(total, Mod(low + ul, w), w, u, v);
    ModSmall(uh + high, w);
    ModSmall(total, w);
  }

  lemma ModSmaller(v: nat, p: nat)
    requires p > 0
    ensures 0 <= v % p <= v
  {
    Nonneg(v, p);
    MulMono(0, v / p, p);
    assert v == v / p * p + v % p;
  }

  /** The cross terms only reach the high word. */
  lemma CrossTerms(uh: nat, ul: nat, vh: nat, vl: nat, hi: nat, lo: nat, w: nat, r: nat)
    requires w > 0 && w * w > 0 && lo < w && hi * w + lo == ul * vl
    requires r == Mod(Mod(hi + Mod(vl * uh, w), w) + Mod(ul * vh, w), w)
    ensures r * w + lo == Mod((uh * w + ul) * (vh * w + vl), w * w)
  {
    hide Mod;
    var s := hi + vl * uh + ul * vh;
    SumMod(hi, vl * uh, ul * vh, w);
    var q := ModDef(s, w);
    SquareLess(r, lo, w);
    CrossSum(uh, ul, vh, vl, hi, lo, w, q, r);
    ModIs((uh * w + ul) * (vh * w + vl), w * w, q + uh * vh, r * w + lo);
  }

  lemma CrossSum(uh: int, ul: int, vh: int, vl: int, hi: int, lo: int, w: int, q: int, r: int)
    requires hi * w + lo == ul * vl && hi + vl * uh + ul * vh == q * w + r
    ensures (uh * w + ul) * (vh * w + vl) == (q + uh * vh) * (w * w) + (r * w + lo)
  {
    Expand(w, ul, uh, vl, vh);
    assert (hi + vl * uh + ul * vh) * w == hi * w + (ul * vh + uh * vl) * w;
    assert (q * w + r) * w == q * (w * w) + r * w;
  }

  lemma SumMod(a: int, b: int, c: int, w: nat)
    requires w > 0
    ensures Mod(Mod(a + Mod(b, w), w) + Mod(c, w), w) == Mod(a + b + c, w)
  {
    hide Mod;
    var qb := ModDef(b, w);
    var qc := ModDef(c, w);
    var qa := ModDef(a + Mod(b, w), w);
    assert a + b + c == Mod(a + Mod(b, w), w) + Mod(c, w) + (qa + qb + qc) * w;
    ModPlus(Mod(a + Mod(b, w), w) + Mod(c, w), qa + qb + qc, w);
  }

  /** __multi3 (__muldi3 on RV32): the product modulo the double width. */
  method Multi3(uhigh: nat, ulow: nat, vhigh: nat, vlow: nat, n: nat) returns (high: nat, low: nat)
    requires n > 0 && uhigh < Width(n) && ulow < Width(n) && vhigh < Width(n) && vlow < Width(n)
    ensures var w := Width(n);
      high < w && low < w && high * w + low == Mod((uhigh * w + ulow) * (vhigh * w + vlow), w * w)
  {
    hide Mod, Pow2;
    var w := Width(n);
    low, high := LowProduct(ulow, vlow, n);
    ghost var hi := high;
    CrossTerms(uhigh, ulow, vhigh, vlow, hi, low, w, Mod(Mod(hi + Mod(vlow * uhigh, w), w) + Mod(ulow * vhigh, w), w));
    if uhigh != 0 {
      var p := Mulsi3(vlow, uhigh, w);
      high := Mod(high + p, w);
    }
    NoCross(hi, vlow, uhigh, w);
    if vhigh != 0 {
      var p := Mulsi3(ulow, vhigh, w);
      high := Mod(high + p, w);
    }
    NoCross(Mod(hi + Mod(vlow * uhigh, w), w), ulow, vhigh, w);
  }

  lemma NoCross(h: nat, x: nat, y: nat, w: nat)
    requires h < w
    ensures y == 0 ==> Mod(h + Mod(x * y, w), w) == h
  {
  }

  /** Both ways of multiplying two low words give the same two words. */
  method LowProductAgrees(u: nat, v: nat, h: nat) returns (lo: nat, hi: nat, w0: nat, w1: nat)
    requires h > 0 && u < Width(2 * h) && v < Width(2 * h)
    ensures lo == w0 && hi == w1
    ensures hi * Width(2 * h) + lo == u * v
  {
    hide Mod, Pow2;
    Pow2Add(h, h);
    Pow2Zero();
    Pow2Strict(0, h);
    lo, hi := LowProduct(u, v, 2 * h);
    w1, w0 := UmulPpmm(u, v, Pow2(h));
    DivModUnique(u * v, Width(2 * h), hi, lo);
    DivModUnique(u * v, Width(2 * h), w1, w0);
  }
}
