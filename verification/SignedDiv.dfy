/** The signed divisions of int64.c, by masks of the sign. */
module SignedDiv {
  import opened Bits
  import opened Machine32
  import opened UDivMod

  /** A 64-bit word as a two's complement number. */
  function Signed64(w: U64): int { if w >= H63 then w - B64 else w }

  function Abs(x: int): nat { if x < 0 then -x else x }

  function QuotInt(x: nat, y: int): int
    requires y > 0
  {
    x / y
  }

  /** Division that truncates toward zero, and its remainder. */
  function TruncDiv(x: int, y: int): int
    requires y != 0
  {
    if (x < 0) == (y < 0) then QuotInt(Abs(x), Abs(y)) else -QuotInt(Abs(x), Abs(y))
  }

  function TruncRem(x: int, y: int): int
    requires y != 0
  {
    x - TruncDiv(x, y) * y
  }

  /** What C99 demands of / and %. */
  lemma TruncMeans(x: int, y: int)
    requires y != 0
    ensures x == TruncDiv(x, y) * y + TruncRem(x, y) && Abs(TruncRem(x, y)) < Abs(y)
    ensures TruncRem(x, y) != 0 ==> (TruncRem(x, y) < 0 <==> x < 0)
    ensures Abs(TruncDiv(x, y) * y) <= Abs(x)
  {
    RemainderSign(x, y);
  }

  lemma RemainderSign(x: int, y: int)
    requires y != 0
    ensures var r := Abs(x) % Abs(y); 0 <= r < Abs(y) && r <= Abs(x) && TruncRem(x, y) == if x < 0 then -r else r
  {
    var u, v := Abs(x), Abs(y);
    ModBound(u, v);
    var q := u / v;
    assert u == q * v + u % v;
    assert x < 0 && y < 0 ==> q * y == -(q * v);
    assert x >= 0 && y < 0 ==> -q * y == q * v;
  }

  // ---- masks ----

  /** (x ^ s) - s: negated when s is all ones. */
  function NegateIf(x: U64, s: U64): U64 { Low64(BitXor(x, s) - s) }

  lemma NegateIfMeans(x: U64, neg: bool)
    ensures NegateIf(x, if neg then B64 - 1 else 0) == if neg then Low64(-(x as int)) else x
  {
    hide BitXor, Pow2;
    Pow64();
    XorComm(x, B64 - 1);
    XorOnes(64, x);
    XorZero(x);
    var y: int := x;
    assert B64 - 1 - y - (B64 - 1) == -y;
  }

  lemma MaskOr(a: bool, b: bool)
    ensures BitXor(if a then B64 - 1 else 0, if b then B64 - 1 else 0) == if a != b then B64 - 1 else 0
  {
    hide BitXor, Pow2;
    Pow64();
    XorOnes(64, B64 - 1);
    XorZero(B64 - 1);
    XorZero(0);
  }

  /** The magnitude of a signed word fits in an unsigned one. */
  lemma Magnitude(x: U64)
    ensures NegateIf(x, SignMask(x)) == Abs(Signed64(x))
  {
    hide BitXor;
    NegateIfMeans(x, x >= H63);
    if x >= H63 {
      DivModUnique(-(x as int), B64, -1, B64 - x);
    }
  }

  lemma LowOf(x: nat, neg: bool)
    requires x < B64
    ensures (if neg then Low64(-(x as int)) else x) == Low64(if neg then -(x as int) else x)
  {
  }

  /** __divdi3: the truncated quotient; INT64_MIN / -1 wraps to INT64_MIN. */
  method Divdi3(a: U64, b: U64) returns (q: U64)
    requires b != 0
    ensures q == Low64(TruncDiv(Signed64(a), Signed64(b)))
  {
    hide BitXor, NegateIf, Low64;
    var sa, sb := SignMask(a), SignMask(b);
    Magnitude(a);
    Magnitude(b);
    var ua, ub := NegateIf(a, sa), NegateIf(b, sb);
    MaskOr(a >= H63, b >= H63);
    sa := BitXor(sa, sb);
    var uq, ur := Udivmoddi4(ua, ub);
    NegateIfMeans(uq, (a >= H63) != (b >= H63));
    LowOf(uq, (a >= H63) != (b >= H63));
    q := NegateIf(uq, sa);
  }

  /** The only quotient that does not fit. */
  lemma DivOverflow(a: U64, b: U64)
    requires b != 0
    ensures Signed64(Low64(TruncDiv(Signed64(a), Signed64(b)))) != TruncDiv(Signed64(a), Signed64(b)) <==>
      a == H63 && b == B64 - 1
    ensures a == H63 && b == B64 - 1 ==> Low64(TruncDiv(Signed64(a), Signed64(b))) == H63
  {
    var x, y := Signed64(a), Signed64(b);
    var u, v := Abs(x), Abs(y);
    QuotSmaller(u, v);
    if a == H63 && b == B64 - 1 {
      assert H63 / 1 == H63;
    } else {
      if v >= 2 && u == H63 {
        DivUpper(u, v, H63);
      }
      SignedLow(TruncDiv(x, y));
    }
  }

  lemma SignedLow(x: int)
    requires -H63 <= x < H63
    ensures Signed64(Low64(x)) == x
  {
    if x < 0 {
      DivModUnique(x, B64, -1, x + B64);
    }
  }

  /** __moddi3: the remainder has the sign of the dividend. */
  method Moddi3(a: U64, b: U64) returns (r: U64)
    requires b != 0
    ensures r == Low64(TruncRem(Signed64(a), Signed64(b)))
  {
    hide BitXor, NegateIf, Low64, TruncRem;
    var s := SignMask(b);
    var ub := NegateIf(b, s);
    Magnitude(b);
    s := SignMask(a);
    Magnitude(a);
    var ua := NegateIf(a, s);
    var uq, ur := Udivmoddi4(ua, ub);
    RemainderSign(Signed64(a), Signed64(b));
    NegateIfMeans(ur, a >= H63);
    LowOf(ur, a >= H63);
    r := NegateIf(ur, s);
  }

  lemma WrappedRemainder(a: U64, b: U64, x: int, y: int, d: int)
    requires a == Low64(x) && b == Low64(y)
    ensures Low64(a - Low64(Low64(d) * b)) == Low64(x - d * y)
  {
    var i, j, k := x / B64, y / B64, d / B64;
    assert a == x - i * B64 && b == y - j * B64 && Low64(d) == d - k * B64;
    assert Low64(d) * b == d * y - (d * j + k * y - k * j * B64) * B64;
    var m := Low64(d) * b / B64;
    assert Low64(Low64(d) * b) == Low64(d) * b - m * B64;
    var z := d * j + k * y - k * j * B64 + m - i;
    assert a - Low64(Low64(d) * b) == x - d * y + z * B64;
    ModAdd(x - d * y, z, B64);
  }

  lemma LowSigned(w: U64)
    ensures Low64(Signed64(w)) == w
  {
    if w >= H63 {
      DivModUnique(w - B64, B64, -1, w);
    }
  }

  /** __divmoddi4: both, the remainder by multiplying back. */
  method Divmoddi4(a: U64, b: U64) returns (d: U64, rem: U64)
    requires b != 0
    ensures d == Low64(TruncDiv(Signed64(a), Signed64(b)))
    ensures rem == Low64(TruncRem(Signed64(a), Signed64(b)))
  {
    d := Divdi3(a, b);
    LowSigned(a);
    LowSigned(b);
    WrappedRemainder(a, b, Signed64(a), Signed64(b), TruncDiv(Signed64(a), Signed64(b)));
    rem := Low64(a - Low64(d * b));
  }
}
