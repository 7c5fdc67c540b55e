/** The branch-free bit counts of int64.c. */
module CountZeros {
  import opened Bits
  import opened Machine32

  /** c zero bits stand above the highest one of x. */
  ghost predicate Leading(x: nat, bits: nat, c: nat) {
    c < bits && Pow2(bits - 1 - c) <= x < Pow2(bits - c)
  }

  /** c zero bits stand below the lowest one of x. */
  ghost predicate Trailing(x: nat, c: nat) {
    x % Pow2(c) == 0 && Quot(x, Pow2(c)) % 2 == 1
  }

  lemma TopPart(x: nat, p: nat)
    requires p > 0 && x < p * p
    ensures x / p % p * p == 0 <==> x < p
  {
    DivUpper(x, p, p);
    DivBounds(x, p, 1);
    SmallMod(x / p, p);
    if x >= p {
      MulMono(1, x / p, p);
    }
  }

  /** The upper half of a field of 2h bits is empty. */
  lemma UpperEmpty(x: nat, h: nat)
    requires x < Pow2(2 * h)
    ensures BitAnd(x, (Pow2(h) - 1) * Pow2(h)) == 0 <==> x < Pow2(h)
  {
    hide BitAnd, Pow2;
    Pow2Add(h, h);
    TopPart(x, Pow2(h));
    AndField(x, h, h, Pow2(h), Pow2(h), (Pow2(h) - 1) * Pow2(h));
  }

  /** One halving step of the search for the highest bit. */
  lemma ClzStep(a: U32, h: nat, r: nat, x: nat, t: nat)
    requires h > 0 && r + 2 * h <= 32
    requires x == Quot(a, Pow2(32 - 2 * h - r)) && x < Pow2(2 * h) && a < Pow2(32 - r)
    requires t == if x < Pow2(h) then h else 0
    ensures var x' := Shr(x, h - t);
      x' == Quot(a, Pow2(32 - h - (r + t))) && x' < Pow2(h) && a < Pow2(32 - (r + t))
  {
    hide Pow2;
    var s := 32 - 2 * h - r;
    Pow2Add(s, h - t);
    DivDiv(a, Pow2(s), Pow2(h - t));
    Pow2Add(h, h);
    Pow2Zero();
    if t == h {
      Pow2Add(h, s);
      DivBounds(a, Pow2(s), Pow2(h));
    } else {
      DivUpper(x, Pow2(h), Pow2(h));
    }
  }

  lemma ClzLast(a: U32, r: nat, x: nat)
    requires r <= 30 && x == Quot(a, Pow2(30 - r)) && a < Pow2(32 - r)
    ensures x < 4
    ensures a > 0 && x >= 2 ==> Leading(a, 32, r)
    ensures a > 0 && x == 1 ==> Leading(a, 32, r + 1)
  {
    hide Pow2;
    var p := Pow2(30 - r);
    Pow2Step(31 - r);
    Pow2Step(32 - r);
    DivUpper(a, p, 4);
    DivBounds(a, p, 1);
    DivBounds(a, p, 2);
  }

  lemma ClzStays(a: U32, h: nat, r: nat, x: nat, t: nat)
    requires h > 0 && r + 2 * h <= 32
    requires x == Quot(a, Pow2(32 - 2 * h - r)) && (r + 2 * h < 32 ==> x > 0)
    requires t == if x < Pow2(h) then h else 0
    ensures r + t + h < 32 ==> Shr(x, h - t) > 0
  {
    hide Pow2;
    Pow2Zero();
    DivBounds(x, Pow2(h - t), 1);
  }

  lemma SelectSmall(x: U32)
    requires x < 4
    ensures BitAnd(x, 2) == (if x >= 2 then 2 else 0)
    ensures BitAnd(Low32(2 - x), Mask32(BitAnd(x, 2) == 0)) == (if x >= 2 then 0 else 2 - x)
  {
    AndMask(Low32(2 - x), x < 2);
    assert BitAnd(0, 2) == 0 && BitAnd(1, 2) == 0;
    assert BitAnd(2, 2) == 2 && BitAnd(3, 2) == 2;
  }

  /** __clzsi2: exact, and 32 for 0. */
  method Clzsi2(a: U32) returns (c: U32)
    ensures a == 0 ==> c == 32
    ensures a > 0 ==> Leading(a, 32, c)
  {
    hide BitAnd, Pow2, Leading, Shr, Quot, Low32, Mask32;
    Pow2Values();
    Pow2Zero();
    QuotOne(a);
    var x: nat := a;

    UpperEmpty(x, 16);
    var t: nat := if BitAnd(x, 0xffff_0000) == 0 then 16 else 0;
    ClzStep(a, 16, 0, x, t);
    ClzStays(a, 16, 0, x, t);
    x := Shr(x, 16 - t);
    var r: nat := t;

    UpperEmpty(x, 8);
    t := if BitAnd(x, 0xff00) == 0 then 8 else 0;
    ClzStep(a, 8, r, x, t);
    ClzStays(a, 8, r, x, t);
    x := Shr(x, 8 - t);
    r := r + t;

    UpperEmpty(x, 4);
    t := if BitAnd(x, 0xf0) == 0 then 4 else 0;
    ClzStep(a, 4, r, x, t);
    ClzStays(a, 4, r, x, t);
    x := Shr(x, 4 - t);
    r := r + t;

    Two();
    UpperEmpty(x, 2);
    t := if BitAnd(x, 0xc) == 0 then 2 else 0;
    ClzStep(a, 2, r, x, t);
    ClzStays(a, 2, r, x, t);
    x := Shr(x, 2 - t);
    r := r + t;

    ClzLast(a, r, x);
    SelectSmall(x);
    ZeroQuot(a, r, x);
    c := r + BitAnd(Low32(2 - x), Mask32(BitAnd(x, 2) == 0));
  }

  lemma Two()
    ensures Pow2(2) == 4 && Pow2(1) == 2
  {
  }

  lemma QuotOne(a: nat)
    ensures Quot(a, 1) == a
  {
  }

  lemma ZeroQuot(a: U32, r: nat, x: nat)
    requires r <= 30 && x == Quot(a, Pow2(30 - r)) && (r < 30 ==> x > 0)
    ensures a == 0 ==> x == 0 && r == 30
    ensures a > 0 ==> x > 0
  {
    hide Pow2;
    Pow2Zero();
    DivUpper(0, Pow2(30 - r), 1);
  }

  // ---- trailing zeros ----

  /** One halving step of the search for the lowest bit. */
  lemma CtzStep(a: U32, h: nat, r: nat, x: nat, t: nat)
    requires x == Quot(a, Pow2(r)) && a % Pow2(r) == 0 && (a > 0 ==> x % Pow2(2 * h) != 0)
    requires t == if x % Pow2(h) == 0 then h else 0
    ensures var x' := Shr(x, t);
      x' == Quot(a, Pow2(r + t)) && a % Pow2(r + t) == 0 && (a > 0 ==> x' % Pow2(h) != 0)
  {
    hide Pow2;
    Pow2Zero();
    Pow2Add(r, t);
    DivDiv(a, Pow2(r), Pow2(t));
    Pow2Add(h, h);
    DivDiv(x, Pow2(h), Pow2(h));
  }

  lemma AndMaskLow(x: nat)
    ensures BitAnd(x, 0xffff) == x % Pow2(16) && BitAnd(x, 0xff) == x % Pow2(8)
    ensures BitAnd(x, 0xf) == x % Pow2(4) && BitAnd(x, 3) == x % Pow2(2) && BitAnd(x, 1) == x % Pow2(1)
  {
    hide BitAnd, Pow2;
    Pow2Values();
    Two();
    AndOnes(x, 16);
    AndOnes(x, 8);
    AndOnes(x, 4);
    AndOnes(x, 2);
    AndOnes(x, 1);
  }

  lemma CtzLast(a: U32, r: nat, x: nat)
    requires x == Quot(a, Pow2(r)) && a % Pow2(r) == 0
    ensures x % 4 % 2 == 1 ==> Trailing(a, r)
    ensures x % 4 == 2 ==> Trailing(a, r + 1)
  {
    hide Pow2;
    Pow2Step(r + 1);
    DivDiv(a, Pow2(r), 2);
    assert Pow2(r + 1) == Pow2(r) * 2;
  }

  lemma SelectLow(y: U32)
    requires y < 4
    ensures BitAnd(Low32(2 - Shr(y, 1)), Mask32(BitAnd(y, 1) == 0)) == if y % 2 == 1 then 0 else 2 - y / 2
  {
    hide BitAnd, Pow2;
    Two();
    AndMaskLow(y);
    AndMask(Low32(2 - Shr(y, 1)), y % 2 == 0);
  }

  lemma ZeroShr(t: nat)
    ensures Shr(0, t) == 0
  {
    DivUpper(0, Pow2(t), 1);
  }

  /** __ctzsi2: exact, and 32 for 0. */
  method Ctzsi2(a: U32) returns (c: U32)
    ensures a == 0 ==> c == 32
    ensures a > 0 ==> Trailing(a, c)
  {
    hide BitAnd, Pow2, Trailing, Shr, Quot;
    Pow2Values();
    Pow2Zero();
    Two();
    QuotOne(a);
    var x: nat := a;
    AndMaskLow(x);
    var t: nat := if BitAnd(x, 0xffff) == 0 then 16 else 0;
    CtzStep(a, 16, 0, x, t);
    ZeroShr(t);
    x := Shr(x, t);
    var r: nat := t;

    AndMaskLow(x);
    t := if BitAnd(x, 0xff) == 0 then 8 else 0;
    CtzStep(a, 8, r, x, t);
    ZeroShr(t);
    x := Shr(x, t);
    r := r + t;

    AndMaskLow(x);
    t := if BitAnd(x, 0xf) == 0 then 4 else 0;
    CtzStep(a, 4, r, x, t);
    ZeroShr(t);
    x := Shr(x, t);
    r := r + t;

    AndMaskLow(x);
    t := if BitAnd(x, 0x3) == 0 then 2 else 0;
    CtzStep(a, 2, r, x, t);
    ZeroShr(t);
    x := Shr(x, t);
    CtzLast(a, r + t, x);
    AndMaskLow(x);
    x := BitAnd(x, 3);
    r := r + t;

    SelectLow(x);
    c := r + BitAnd(Low32(2 - Shr(x, 1)), Mask32(BitAnd(x, 1) == 0));
  }

  // ---- double words ----

  lemma SelectHalf(high: U32, low: U32, f: bool)
    ensures BitOr(BitAnd(high, Mask32(!f)), BitAnd(low, Mask32(f))) == if f then low else high
    ensures BitAnd(Mask32(f), 32) == if f then 32 else 0
  {
    hide BitAnd, BitOr, Pow2;
    AndMask(high, !f);
    AndMask(low, f);
    OrZero(high);
    OrZero(low);
    AndComm(Mask32(f), 32);
    AndMask(32, f);
  }

  lemma LeadingHigh(x: DWord, c: nat)
    requires x.high > 0 && Leading(x.high, 32, c)
    ensures Leading(All(x), 64, c)
  {
    hide Pow2;
    Pow2Values();
    Pow2Add(31 - c, 32);
    Pow2Add(32 - c, 32);
  }

  lemma LeadingLow(x: DWord, c: nat)
    requires x.high == 0 && Leading(x.low, 32, c)
    ensures Leading(All(x), 64, c + 32)
  {
  }

  lemma TrailingHigh(x: DWord, c: nat)
    requires x.low == 0 && Trailing(x.high, c)
    ensures Trailing(All(x), c + 32)
  {
    hide Pow2;
    Pow2Values();
    Pow2Add(c, 32);
    DivDiv(All(x), 0x1_0000_0000, Pow2(c));
  }

  lemma OddFactor(high: nat, low: nat, p: nat, s: nat)
    requires p > 0 && p * (2 * s) == B32 && low % p == 0 && Quot(low, p) % 2 == 1
    ensures (high * B32 + low) % p == 0 && Quot(high * B32 + low, p) % 2 == 1
  {
    var q, k := low / p, s * high;
    assert low == q * p;
    assert high * B32 == 2 * k * p by {
      assert high * (p * (2 * s)) == 2 * (s * high) * p;
    }
    DivModUnique(high * B32 + low, p, 2 * k + q, 0);
  }

  lemma TrailingLow(x: DWord, c: nat)
    requires x.low > 0 && Trailing(x.low, c)
    ensures Trailing(All(x), c)
  {
    hide Pow2, Quot;
    Pow2Values();
    TrailingBound(x.low, c);
    Pow2Add(c, 32 - c);
    Pow2Step(32 - c);
    OddFactor(x.high, x.low, Pow2(c), Pow2(31 - c));
  }

  lemma TrailingBound(x: U32, c: nat)
    requires x > 0 && Trailing(x, c)
    ensures c < 32
  {
    hide Pow2;
    Pow2Values();
    if c >= 32 {
      Pow2Mono(32, c);
      DivUpper(x, Pow2(c), 1);
    }
  }

  /** Counting in the word that the mask picked. */
  lemma LeadingPicked(x: DWord, w: U32, n: U32)
    requires w == if x.high == 0 then x.low else x.high
    requires (w == 0 ==> n == 32) && (w > 0 ==> Leading(w, 32, n))
    ensures n <= 32 && (All(x) == 0 ==> x.high == 0 && n == 32)
    ensures All(x) > 0 ==> Leading(All(x), 64, n + if x.high == 0 then 32 else 0)
  {
    hide Leading;
    if x.high > 0 {
      LeadingHigh(x, n);
      LeadingBound(x.high, n);
    } else if x.low > 0 {
      LeadingLow(x, n);
      LeadingBound(x.low, n);
    }
  }

  lemma LeadingBound(w: U32, n: nat)
    requires Leading(w, 32, n)
    ensures n < 32
  {
    hide Pow2;
  }

  lemma TrailingPicked(x: DWord, w: U32, n: U32)
    requires w == if x.low == 0 then x.high else x.low
    requires (w == 0 ==> n == 32) && (w > 0 ==> Trailing(w, n))
    ensures n <= 32 && (All(x) == 0 ==> x.low == 0 && n == 32)
    ensures All(x) > 0 ==> Trailing(All(x), n + if x.low == 0 then 32 else 0)
  {
    hide Trailing;
    if x.low > 0 {
      TrailingLow(x, n);
      TrailingBound(x.low, n);
    } else if x.high > 0 {
      TrailingHigh(x, n);
      TrailingBound(x.high, n);
    }
  }

  /** __clzdi2 selects the word to count by a mask. */
  method Clzdi2(a: U64) returns (c: U32)
    ensures a == 0 ==> c == 64
    ensures a > 0 ==> Leading(a, 64, c)
  {
    hide BitAnd, BitOr, Leading, All, Mask32;
    var x := Halves(a);
    var f := Mask32(x.high == 0);
    SelectHalf(x.high, x.low, x.high == 0);
    var w := BitOr(BitAnd(x.high, Mask32(x.high != 0)), BitAnd(x.low, f));
    var n := Clzsi2(w);
    LeadingPicked(x, w, n);
    c := n + BitAnd(f, 32);
  }

  /** __ctzdi2 selects the word to count by a mask. */
  method Ctzdi2(a: U64) returns (c: U32)
    ensures a == 0 ==> c == 64
    ensures a > 0 ==> Trailing(a, c)
  {
    hide BitAnd, BitOr, Trailing, All, Mask32;
    var x := Halves(a);
    var f := Mask32(x.low == 0);
    SelectHalf(x.low, x.high, x.low == 0);
    OrComm(BitAnd(x.high, f), BitAnd(x.low, Mask32(x.low != 0)));
    var w := BitOr(BitAnd(x.high, f), BitAnd(x.low, Mask32(x.low != 0)));
    var n := Ctzsi2(w);
    TrailingPicked(x, w, n);
    c := n + BitAnd(f, 32);
  }
}
