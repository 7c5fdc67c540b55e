/** Why the right shifts may add the pieces that they take from their tables:
    the pieces of one result byte occupy different bits. */
module RvShiftMath {
  import opened Bits
  import opened RvMachine
  import opened RvTables

  /** Bytes 2 to 0 of a right shift, from the entries of bytes 2, 1 and 0. */
  function Mix(y2: Word, y1: Word, y0: Word): Word {
    W4(B0(B1(y2) + B2(y1) + B3(y0)), B0(B2(y2) + B3(y1)), B3(y2), 0)
  }

  /** b is h * q + l, and e is what l becomes one byte further down. */
  predicate Cut(b: Byte, q: nat, r: nat, h: Byte, l: nat, e: Byte) {
    b == h * q + l && l < q && q * r == 0x100 && h < r && e == l * r && e + r <= 0x100
  }

  lemma CutByte(b: Byte, q: nat, r: nat) returns (h: Byte, l: nat, e: Byte)
    requires q > 0 && q * r == 0x100
    ensures Cut(b, q, r, h, l, e) && e * q == 0x100 * l && l == b % q
  {
    var h', l' := b / q, b % q;
    assert r > 0;
    DivUpper(b, q, r);
    MulMono(l' + 1, q, r);
    assert (l' + 1) * r == l' * r + r;
    assert 0 <= l' * r;
    assert b == h' * q + l' by { DivMod(b, q); }
    Times(l', r, q);
    h, l, e := h', l', l' * r;
  }

  lemma DivMod(x: nat, d: nat)
    requires d > 0
    ensures x == x / d * d + x % d && x / d <= x
  {
    MulMono(1, d, x / d);
  }

  lemma Times(l: nat, r: nat, q: nat)
    requires q * r == 0x100
    ensures l * r * q == 0x100 * l
  {
    assert l * r * q == l * (q * r);
  }

  /** What the table row for a shift by p = 256^m * q holds for a cut byte. */
  function Fetched(m: nat, h: Byte, e: Byte): Word {
    if m == 0 then W4(0, 0, e, h) else if m == 1 then W4(0, e, h, 0) else if m == 2 then W4(e, h, 0, 0) else h
  }

  lemma FetchedSum(m: nat, h: Byte, e: Byte)
    ensures Fetched(m, h, e) == if m == 0 then 0x1_0000 * e + 0x100_0000 * h
      else if m == 1 then 0x100 * e + 0x1_0000 * h
      else if m == 2 then e + 0x100 * h else h
  {
    hide W4;
    WordSum(0, 0, e, h);
    WordSum(0, e, h, 0);
    WordSum(e, h, 0, 0);
  }

  function Power256(m: nat): (p: nat)
    ensures p > 0
  {
    if m == 0 then 1 else if m == 1 then 0x100 else if m == 2 then 0x1_0000 else 0x100_0000
  }

  lemma SrlEntry(j: nat, m: nat, q: nat, r: nat, b: Byte, h: Byte, l: nat, e: Byte)
    requires m < 4 && Pow2(j) == Power256(m) * q && Cut(b, q, r, h, l, e) && e * q == 0x100 * l
    ensures Srl8(j, b) == Fetched(m, h, e)
  {
    hide Pow2, Fetched, Power256;
    PowerLast(m, h, e);
    SmallMod(Fetched(m, h, e), W32);
    if m == 3 {
      FetchLast(q, b, h, l);
    } else {
      FetchSplit(m, q, b, h, l, e);
    }
  }

  lemma PowerLast(m: nat, h: Byte, e: Byte)
    ensures m == 3 ==> Power256(m) == 0x100_0000 && Fetched(m, h, e) == h
  {
  }

  lemma FetchLast(q: nat, b: Byte, h: Byte, l: nat)
    requires b == h * q + l && l < q
    ensures Quot(b * 0x100_0000, 0x100_0000 * q) == h
  {
    assert b * 0x100_0000 == h * (0x100_0000 * q) + l * 0x100_0000;
    DivModUnique(b * 0x100_0000, 0x100_0000 * q, h, l * 0x100_0000);
  }

  lemma FetchSplit(m: nat, q: nat, b: Byte, h: Byte, l: nat, e: Byte)
    requires m < 3 && q > 0 && b == h * q + l && e * q == 0x100 * l
    ensures Power256(m) * q > 0 && Quot(b * 0x100_0000, Power256(m) * q) == Fetched(m, h, e)
  {
    hide Fetched;
    FetchedSum(m, h, e);
    var y, p := Fetched(m, h, e), Power256(m) * q;
    assert y * p == b * 0x100_0000 by {
      if m == 0 {
        FetchProduct(0x1_0000, 1, q, b, h, l, e);
      } else if m == 1 {
        FetchProduct(0x100, 0x100, q, b, h, l, e);
      } else {
        FetchProduct(1, 0x1_0000, q, b, h, l, e);
      }
    }
    assert p > 0;
    DivModUnique(b * 0x100_0000, p, y, 0);
  }

  lemma FetchProduct(x: nat, z: nat, q: nat, b: Byte, h: Byte, l: nat, e: Byte)
    requires x * z == 0x1_0000 && b == h * q + l && e * q == 0x100 * l
    ensures (x * e + 0x100 * x * h) * (z * q) == b * 0x100_0000
  {
    assert (x * e) * (z * q) == (x * z) * (e * q);
    assert (0x100 * x * h) * (z * q) == 0x100 * ((x * z) * (h * q));
  }

  /** A shift amount as whole bytes and bits. */
  lemma CutAmount(j: nat) returns (m: nat, q: nat, r: nat)
    requires j < 32
    ensures m < 4 && Pow2(j) == Power256(m) * q && q > 0 && q * r == 0x100
  {
    hide Pow2;
    m := j / 8;
    var n := j % 8;
    q, r := Pow2(n), Pow2(8 - n);
    Pow2Add(8 * m, n);
    Pow2Add(n, 8 - n);
    Pow2Values();
  }

  /** The bytes that mixing picks out of the fetched words, without carries. */
  lemma MixFetched(m: nat, h0: Byte, h1: Byte, h2: Byte, e0: Byte, e1: Byte, e2: Byte)
    requires m < 4 && h0 + e1 <= 0xff && h1 + e2 <= 0xff
    ensures Mix(Fetched(m, h2, e2), Fetched(m, h1, e1), Fetched(m, h0, e0)) ==
      if m == 0 then W4(h0 + e1, h1 + e2, h2, 0) else if m == 1 then W4(h1 + e2, h2, 0, 0)
      else if m == 2 then W4(h2, 0, 0, 0) else 0
  {
    hide B0, B1, B2, B3, W4;
    FetchedBytes(m, h0, e0);
    FetchedBytes(m, h1, e1);
    FetchedBytes(m, h2, e2);
    SmallB0();
    ZeroWord();
  }

  lemma SmallB0()
    ensures forall b: Byte :: B0(b) == b
  {
  }

  lemma ZeroWord()
    ensures W4(0, 0, 0, 0) == 0
  {
    WordSum(0, 0, 0, 0);
  }

  lemma FetchedBytes(m: nat, h: Byte, e: Byte)
    requires m < 4
    ensures var y := Fetched(m, h, e);
      && B3(y) == (if m == 0 then h else 0)
      && B2(y) == (if m == 0 then e else if m == 1 then h else 0)
      && B1(y) == (if m == 1 then e else if m == 2 then h else 0)
  {
    hide B0, B1, B2, B3, W4;
    WordSum(h, 0, 0, 0);
    if m == 0 {
      BytesOf(0, 0, e, h);
    } else if m == 1 {
      BytesOf(0, e, h, 0);
    } else if m == 2 {
      BytesOf(e, h, 0, 0);
    } else {
      BytesOf(h, 0, 0, 0);
    }
  }

  /** The mixed bytes and the top entry add up to the quotient. */
  lemma TotalIsQuotient(m: nat, q: nat, b0: Byte, b1: Byte, b2: Byte, b3: Byte,
                        h0: Byte, h1: Byte, h2: Byte, h3: Byte, l0: nat, l1: nat, l2: nat, l3: nat,
                        e0: Byte, e1: Byte, e2: Byte, e3: Byte)
    requires m < 4 && q > 0 && l0 < q && l1 < q && l2 < q && l3 < q
    requires b0 == h0 * q + l0 && b1 == h1 * q + l1 && b2 == h2 * q + l2 && b3 == h3 * q + l3
    requires e1 * q == 0x100 * l1 && e2 * q == 0x100 * l2 && e3 * q == 0x100 * l3
    requires h0 + e1 <= 0xff && h1 + e2 <= 0xff && h2 + e3 <= 0xff
    ensures Power256(m) * q > 0
    ensures Mix(Fetched(m, h2, e2), Fetched(m, h1, e1), Fetched(m, h0, e0)) + Fetched(m, h3, e3)
      == Quot(W4(b0, b1, b2, b3), Power256(m) * q)
  {
    hide Mix, Fetched, W4, Power256;
    var t := Mix(Fetched(m, h2, e2), Fetched(m, h1, e1), Fetched(m, h0, e0)) + Fetched(m, h3, e3);
    var rest := if m == 0 then l0 else if m == 1 then 0x100 * l1 + b0
      else if m == 2 then 0x1_0000 * l2 + 0x100 * b1 + b0
      else 0x100_0000 * l3 + 0x1_0000 * b2 + 0x100 * b1 + b0;
    TotalOf(m, t, h0, h1, h2, h3, e0, e1, e2, e3);
    TotalTimes(m, q, t, h0, h1, h2, h3, e1, e2, e3);
    TotalRest(m, q, W4(b0, b1, b2, b3), t * (Power256(m) * q), rest, b0, b1, b2, b3,
      h0 * q, h1 * q, h2 * q, h3 * q, l0, l1, l2, l3, e1 * q, e2 * q, e3 * q);
    DivModUnique(W4(b0, b1, b2, b3), Power256(m) * q, t, rest);
  }

  lemma TotalOf(m: nat, t: int, h0: Byte, h1: Byte, h2: Byte, h3: Byte, e0: Byte, e1: Byte, e2: Byte, e3: Byte)
    requires m < 4 && h0 + e1 <= 0xff && h1 + e2 <= 0xff && h2 + e3 <= 0xff
    requires t == Mix(Fetched(m, h2, e2), Fetched(m, h1, e1), Fetched(m, h0, e0)) + Fetched(m, h3, e3)
    ensures t ==
      if m == 0 then h0 + e1 + 0x100 * (h1 + e2) + 0x1_0000 * (h2 + e3) + 0x100_0000 * h3
      else if m == 1 then h1 + e2 + 0x100 * (h2 + e3) + 0x1_0000 * h3
      else if m == 2 then h2 + e3 + 0x100 * h3
      else h3
  {
    hide Mix, W4, Fetched;
    MixFetched(m, h0, h1, h2, e0, e1, e2);
    FetchedSum(m, h3, e3);
    if m == 0 {
      WordSum(h0 + e1, h1 + e2, h2, 0);
    } else if m == 1 {
      WordSum(h1 + e2, h2, 0, 0);
    } else if m == 2 {
      WordSum(h2, 0, 0, 0);
    }
  }

  lemma TotalRest(m: nat, q: nat, x: Word, prod: int, rest: nat, b0: Byte, b1: Byte, b2: Byte, b3: Byte,
                  hq0: int, hq1: int, hq2: int, hq3: int, l0: nat, l1: nat, l2: nat, l3: nat,
                  eq1: int, eq2: int, eq3: int)
    requires m < 4 && q > 0 && l0 < q && l1 < q && l2 < q && l3 < q && x == W4(b0, b1, b2, b3)
    requires b0 == hq0 + l0 && b1 == hq1 + l1 && b2 == hq2 + l2 && b3 == hq3 + l3
    requires eq1 == 0x100 * l1 && eq2 == 0x100 * l2 && eq3 == 0x100 * l3
    requires prod ==
      if m == 0 then hq0 + eq1 + 0x100 * (hq1 + eq2) + 0x1_0000 * (hq2 + eq3) + 0x100_0000 * hq3
      else if m == 1 then 0x100 * (hq1 + eq2 + 0x100 * (hq2 + eq3) + 0x1_0000 * hq3)
      else if m == 2 then 0x1_0000 * (hq2 + eq3 + 0x100 * hq3)
      else 0x100_0000 * hq3
    requires rest == if m == 0 then l0 else if m == 1 then 0x100 * l1 + b0
      else if m == 2 then 0x1_0000 * l2 + 0x100 * b1 + b0
      else 0x100_0000 * l3 + 0x1_0000 * b2 + 0x100 * b1 + b0
    ensures x == prod + rest && rest < Power256(m) * q
  {
    WordSum(b0, b1, b2, b3);
  }

  lemma TotalTimes(m: nat, q: nat, t: nat, h0: Byte, h1: Byte, h2: Byte, h3: Byte, e1: Byte, e2: Byte, e3: Byte)
    requires m < 4 && q > 0
    requires t ==
      if m == 0 then h0 + e1 + 0x100 * (h1 + e2) + 0x1_0000 * (h2 + e3) + 0x100_0000 * h3
      else if m == 1 then h1 + e2 + 0x100 * (h2 + e3) + 0x1_0000 * h3
      else if m == 2 then h2 + e3 + 0x100 * h3
      else h3
    ensures t * (Power256(m) * q) ==
      if m == 0 then h0 * q + e1 * q + 0x100 * (h1 * q + e2 * q) + 0x1_0000 * (h2 * q + e3 * q) + 0x100_0000 * (h3 * q)
      else if m == 1 then 0x100 * (h1 * q + e2 * q + 0x100 * (h2 * q + e3 * q) + 0x1_0000 * (h3 * q))
      else if m == 2 then 0x1_0000 * (h2 * q + e3 * q + 0x100 * (h3 * q))
      else 0x100_0000 * (h3 * q)
  {
    var p := Power256(m);
    assert t * (p * q) == p * (t * q);
  }

  /** srl: the assembled word is the unsigned quotient. */
  lemma SrlWord(x: Word, j: nat)
    requires j < 32
    ensures Mix(Srl8(j, B2(x)), Srl8(j, B1(x)), Srl8(j, B0(x))) + Srl8(j, B3(x)) == Shr(x, j)
  {
    hide Mix, Srl8, B0, B1, B2, B3, W4, Fetched, Pow2, Power256;
    var m, q, r := CutAmount(j);
    var h0, l0, e0 := CutByte(B0(x), q, r);
    var h1, l1, e1 := CutByte(B1(x), q, r);
    var h2, l2, e2 := CutByte(B2(x), q, r);
    var h3, l3, e3 := CutByte(B3(x), q, r);
    SrlEntry(j, m, q, r, B0(x), h0, l0, e0);
    SrlEntry(j, m, q, r, B1(x), h1, l1, e1);
    SrlEntry(j, m, q, r, B2(x), h2, l2, e2);
    SrlEntry(j, m, q, r, B3(x), h3, l3, e3);
    TotalIsQuotient(m, q, B0(x), B1(x), B2(x), B3(x), h0, h1, h2, h3, l0, l1, l2, l3, e0, e1, e2, e3);
    FourBytes(x);
  }

  /** Dividing by p the number that is 2^32 below x. */
  lemma FloorBelow(x: nat, p: nat, c: nat)
    requires p > 0 && p * c == W32
    ensures FloorDiv(x - W32, p) == x / p - c
  {
    DivMod(x, p);
    assert x - W32 == (x / p - c) * p + x % p;
    DivModUnique(x - W32, p, x / p - c, x % p);
  }

  lemma Complement(j: nat) returns (c: nat)
    requires j < 32
    ensures Pow2(j) * c == W32
  {
    hide Pow2;
    c := Pow2(32 - j);
    Pow2Add(j, 32 - j);
    Pow2Values();
  }

  lemma SignByByte(x: Word)
    ensures x >= 0x8000_0000 <==> B3(x) >= 0x80
    ensures B3(x) * 0x100_0000 >= 0x8000_0000 <==> B3(x) >= 0x80
  {
  }

  /** The arithmetic table differs from the logical one where the sign is set. */
  lemma SraEntry(j: nat, b: Byte, c: nat)
    requires j < 32 && Pow2(j) * c == W32
    ensures Sra8(j, b) == if b >= 0x80 then Wrap(Srl8(j, b) - c) else Srl8(j, b)
  {
    hide Pow2;
    var y := Quot(b * 0x100_0000, Pow2(j));
    DivMod(b * 0x100_0000, Pow2(j));
    FloorBelow(b * 0x100_0000, Pow2(j), c);
  }

  /** sra: the assembled word is the signed quotient, rounded down. */
  lemma SraWord(x: Word, j: nat)
    requires j < 32
    ensures Wrap(Mix(Srl8(j, B2(x)), Srl8(j, B1(x)), Srl8(j, B0(x))) + Sra8(j, B3(x))) ==
      Wrap(FloorDiv(Signed(x), Pow2(j)))
  {
    hide Mix, Srl8, Sra8, B0, B1, B2, B3, W4, Pow2, Wrap;
    var c := Complement(j);
    SrlWord(x, j);
    SraEntry(j, B3(x), c);
    SignByByte(x);
    var mix := Mix(Srl8(j, B2(x)), Srl8(j, B1(x)), Srl8(j, B0(x)));
    if x >= 0x8000_0000 {
      FloorBelow(x, Pow2(j), c);
      WrapTwice(Srl8(j, B3(x)) - c, mix);
    }
  }

  /** The single entry that srai by 24 looks up. */
  lemma SraTop(x: Word)
    ensures Sra8(24, B3(x)) == Wrap(FloorDiv(Signed(x), Pow2(24)))
    ensures B3(x) == Shr(x, 24)
  {
    hide Pow2;
    Pow2Values();
  }
}
