/** memchr and its word test HASZERO (stdlib.c), for words of any number of bytes. */
module MemSearch {
  import opened Bits

  type Byte = b: int | 0 <= b < 256

  /** 256^n: words of n bytes are the numbers below it. */
  function Size(n: nat): nat { Pow2(8 * n) }

  /** ONES, (size_t)-1 / UCHAR_MAX. */
  function Ones(n: nat): nat { (Size(n) - 1) / 0xff }

  /** HIGHS, ONES * (UCHAR_MAX / 2 + 1). */
  function Highs(n: nat): nat { Ones(n) * (0xff / 2 + 1) }

  /** A byte, n times. */
  function Repeat(b: Byte, n: nat): nat {
    if n == 0 then 0 else b + 0x100 * Repeat(b, n - 1)
  }

  function Sub(x: int, y: int, n: nat): nat { (x - y) % Size(n) }

  function Not(x: nat, n: nat): nat
    requires x < Size(n)
  {
    Size(n) - 1 - x
  }

  /** HASZERO(x): ((x) - ONES) & ~(x) & HIGHS. */
  function HasZero(x: nat, n: nat): nat
    requires x < Size(n)
  {
    BitAnd(BitAnd(Sub(x, Ones(n), n), Not(x, n)), Highs(n))
  }

  /** The same with the constants as repeated bytes. */
  function HasZeroBytes(x: nat, n: nat): nat
    requires x < Size(n)
  {
    BitAnd(BitAnd(Sub(x, Repeat(1, n), n), Not(x, n)), Repeat(0x80, n))
  }

  /** Byte k of a word, in memory order. */
  function ByteOf(x: nat, k: nat): Byte {
    if k == 0 then x % 0x100 else ByteOf(x / 0x100, k - 1)
  }

  predicate SomeZero(x: nat, n: nat) {
    exists k: nat :: k < n && ByteOf(x, k) == 0
  }

  lemma SizeStep(n: nat)
    requires n > 0
    ensures Size(n) == 0x100 * Size(n - 1)
  {
    hide Pow2;
    Pow2Add(8, 8 * (n - 1));
    Pow2Values();
  }

  lemma {:induction false} OnesSmall(n: nat)
    ensures Repeat(1, n) < Size(n) || n == 0
    ensures Repeat(1, n) <= Size(n)
  {
    if n > 0 {
      hide Pow2;
      SizeStep(n);
      OnesSmall(n - 1);
      if n == 1 {
        Pow2Values();
        SizeOne();
      }
    }
  }

  lemma SizeOne()
    ensures Size(0) == 1 && Size(1) == 0x100
  {
    Pow2Values();
  }

  /** 255 times a word of ones is a word of 0xff bytes. */
  lemma {:induction false} OnesTimes(n: nat)
    ensures Repeat(1, n) * 0xff == Size(n) - 1
  {
    if n == 0 {
      SizeOne();
    } else {
      hide Size;
      OnesTimes(n - 1);
      SizeStep(n);
    }
  }

  lemma {:induction false} RepeatTimes(c: Byte, n: nat)
    ensures Repeat(1, n) * c == Repeat(c, n)
  {
    if n > 0 {
      RepeatTimes(c, n - 1);
    }
  }

  /** The division and the products give repeated bytes, and fit a word. */
  lemma OnesAre(n: nat)
    ensures Ones(n) == Repeat(1, n) && Highs(n) == Repeat(0x80, n)
    ensures forall c: Byte :: Ones(n) * c == Repeat(c, n) && Repeat(c, n) < Size(n)
  {
    hide Size, Repeat;
    OnesTimes(n);
    DivModUnique(Size(n) - 1, 0xff, Repeat(1, n), 0);
    RepeatTimes(0x80, n);
    forall c: Byte ensures Ones(n) * c == Repeat(c, n) && Repeat(c, n) < Size(n) {
      RepeatTimes(c, n);
      MulMono(c, 0xff, Repeat(1, n));
    }
  }

  /** Subtraction and complement, byte by byte, when the lowest byte does not borrow. */
  lemma SubSplit(x: nat, n: nat)
    requires n > 0 && x < Size(n) && x % 0x100 != 0
    ensures x / 0x100 < Size(n - 1)
    ensures Sub(x, Repeat(1, n), n) == 0x100 * Sub(x / 0x100, Repeat(1, n - 1), n - 1) + (x % 0x100 - 1)
  {
    hide Pow2;
    SizeStep(n);
    var m, h, l, o := Size(n - 1), x / 0x100, x % 0x100, Repeat(1, n - 1);
    var q := (h - o) / m;
    var r := (h - o) % m;
    assert h - o == q * m + r;
    assert x - Repeat(1, n) == q * (0x100 * m) + (0x100 * r + (l - 1));
    DivModUnique(x - Repeat(1, n), 0x100 * m, q, 0x100 * r + (l - 1));
  }

  /** With a zero lowest byte the lowest byte of the difference is 0xff. */
  lemma SubBorrow(x: nat, n: nat)
    requires n > 0 && x < Size(n) && x % 0x100 == 0
    ensures Sub(x, Repeat(1, n), n) % 0x100 == 0xff
  {
    hide Pow2;
    SizeStep(n);
    DivModUnique(x - Repeat(1, n), 0x100, x / 0x100 - Repeat(1, n - 1) - 1, 0xff);
    ModOfMod(x - Repeat(1, n), Size(n - 1));
  }

  lemma ModOfMod(y: int, m: nat)
    requires m > 0
    ensures y % (0x100 * m) % 0x100 == y % 0x100
  {
    var w := 0x100 * m;
    var q := y / w;
    assert y == q * w + y % w;
    assert q * w == q * m * 0x100;
    ModAdd(y % w, q * m, 0x100);
  }

  lemma NotSplit(x: nat, n: nat)
    requires n > 0 && x < Size(n)
    ensures x / 0x100 < Size(n - 1)
    ensures Not(x, n) == 0x100 * Not(x / 0x100, n - 1) + (0xff - x % 0x100)
  {
    hide Pow2;
    SizeStep(n);
  }

  lemma SignBit(l: Byte)
    ensures l > 0 ==> BitAnd(BitAnd(l - 1, 0xff - l), 0x80) == 0
    ensures BitAnd(BitAnd(0xff, 0xff - 0), 0x80) == 0x80
  {
    hide Pow2;
    Pow2Values();
    Pow2One();
    AndOnes(0xff, 8);
    HighBit(0xff);
    if l > 0 {
      AndHigh(l - 1, 0xff - l);
    }
  }

  lemma Pow2One()
    ensures Pow2(1) == 2 && Pow2(7) == 0x80
  {
  }

  /** The bit of weight 0x80. */
  lemma HighBit(a: nat)
    requires a < 0x100
    ensures BitAnd(a, 0x80) == if a >= 0x80 then 0x80 else 0
  {
    hide BitAnd, Pow2;
    Pow2Values();
    Pow2One();
    AndField(a, 1, 7, 0x80, 2, 0x80);
  }

  lemma AndHigh(a: nat, b: nat)
    requires a < 0x100 && b < 0x100
    ensures a < 0x80 || b < 0x80 ==> BitAnd(BitAnd(a, b), 0x80) == 0
  {
    hide BitAnd, Pow2;
    Pow2Values();
    Pow2One();
    AndSplit(7, 0x80, a, a / 0x80, a % 0x80, b, b / 0x80, b % 0x80);
    AndBelow(7, a % 0x80, b % 0x80);
    OneBit(a / 0x80, b / 0x80);
    HighBit(BitAnd(a, b));
  }

  lemma OneBit(a: nat, b: nat)
    requires a < 2 && b < 2
    ensures BitAnd(a, b) == if a == 1 && b == 1 then 1 else 0
  {
    AndStep(a, b);
    AndZeros();
  }

  lemma {:induction false} AndBelow(k: nat, a: nat, b: nat)
    requires a < Pow2(k)
    ensures BitAnd(a, b) < Pow2(k)
  {
    if k == 0 {
      AndZero(b);
      AndComm(b, 0);
    } else {
      hide BitAnd;
      Pow2Step(k);
      AndStep(a, b);
      AndBelow(k - 1, a / 2, b / 2);
    }
  }

  lemma ZeroTail(x: nat, n: nat)
    requires n > 0
    ensures SomeZero(x, n) <==> x % 0x100 == 0 || SomeZero(x / 0x100, n - 1)
  {
    if SomeZero(x, n) {
      var k: nat :| k < n && ByteOf(x, k) == 0;
      if k > 0 {
        assert ByteOf(x / 0x100, k - 1) == 0;
      }
    }
    if SomeZero(x / 0x100, n - 1) {
      var k: nat :| k < n - 1 && ByteOf(x / 0x100, k) == 0;
      assert ByteOf(x, k + 1) == 0;
    }
    if x % 0x100 == 0 {
      assert ByteOf(x, 0) == 0;
    }
  }

  /** HASZERO is nonzero exactly when some byte is zero. */
  lemma HasZeroExact(x: nat, n: nat)
    requires x < Size(n)
    ensures HasZero(x, n) != 0 <==> SomeZero(x, n)
  {
    hide BitAnd, Size, SomeZero, Sub, Not, Repeat, Ones, Highs;
    OnesAre(n);
    HasZeroByBytes(x, n);
  }

  lemma {:induction false} HasZeroByBytes(x: nat, n: nat)
    requires x < Size(n)
    ensures HasZeroBytes(x, n) != 0 <==> SomeZero(x, n)
  {
    hide BitAnd, Pow2, SomeZero, Sub, Not;
    if n == 0 {
      AndZero(BitAnd(Sub(x, Repeat(1, n), n), Not(x, n)));
      NoBytes(x);
    } else {
      NotSplit(x, n);
      ZeroTail(x, n);
      HasZeroSplit(x, n);
      if x % 0x100 != 0 {
        HasZeroByBytes(x / 0x100, n - 1);
      }
    }
  }

  /** The lowest byte decides, unless it is nonzero and passes the test on. */
  lemma HasZeroSplit(x: nat, n: nat)
    requires n > 0 && x < Size(n)
    ensures x / 0x100 < Size(n - 1)
    ensures x % 0x100 == 0 ==> HasZeroBytes(x, n) != 0
    ensures x % 0x100 != 0 ==> HasZeroBytes(x, n) == 0x100 * HasZeroBytes(x / 0x100, n - 1)
  {
    hide BitAnd, Pow2, Sub, Not;
    var l, s, t := x % 0x100, Sub(x, Repeat(1, n), n), Not(x, n);
    NotSplit(x, n);
    Parts(s, t, Repeat(0x80, n - 1));
    SignBit(l);
    if l == 0 {
      SubBorrow(x, n);
      LowPart(t, Not(x / 0x100, n - 1), 0xff - l);
    } else {
      SubSplit(x, n);
      LowPart(t, Not(x / 0x100, n - 1), 0xff - l);
      LowPart(s, Sub(x / 0x100, Repeat(1, n - 1), n - 1), l - 1);
    }
  }

  lemma LowPart(x: nat, hi: nat, lo: Byte)
    requires x == 0x100 * hi + lo
    ensures x / 0x100 == hi && x % 0x100 == lo
  {
  }

  /** Both ANDs of the macro, byte by byte. */
  lemma Parts(s: nat, t: nat, highs: nat)
    ensures BitAnd(BitAnd(s, t), 0x80 + 0x100 * highs) ==
      BitAnd(BitAnd(s / 0x100, t / 0x100), highs) * 0x100 + BitAnd(BitAnd(s % 0x100, t % 0x100), 0x80)
  {
    hide BitAnd, Pow2;
    Pow2Values();
    AndSplit(8, 0x100, s, s / 0x100, s % 0x100, t, t / 0x100, t % 0x100);
    var h, w := BitAnd(s / 0x100, t / 0x100), BitAnd(s % 0x100, t % 0x100);
    AndBelow(8, s % 0x100, t % 0x100);
    AndSplit(8, 0x100, BitAnd(s, t), h, w, 0x80 + 0x100 * highs, highs, 0x80);
  }

  lemma NoBytes(x: nat)
    ensures !SomeZero(x, 0)
  {
  }

  // ---- words of memory ----

  /** The little-endian word of a run of bytes. */
  function WordOf(s: seq<Byte>): nat {
    if s == [] then 0 else s[0] + 0x100 * WordOf(s[1..])
  }

  lemma {:induction false} WordSmall(s: seq<Byte>)
    ensures WordOf(s) < Size(|s|)
  {
    hide Pow2;
    SizeOne();
    if s != [] {
      WordSmall(s[1..]);
      SizeStep(|s|);
    }
  }

  lemma {:induction false} SameBits(a: nat, b: nat)
    ensures BitXor(a, b) == 0 <==> a == b
    decreases a + b
  {
    if a != 0 || b != 0 {
      SameBits(a / 2, b / 2);
    }
  }

  lemma {:induction false} XorBelow(k: nat, a: nat, b: nat)
    requires a < Pow2(k) && b < Pow2(k)
    ensures BitXor(a, b) < Pow2(k)
  {
    if k == 0 {
      XorZeros();
    } else {
      hide BitXor;
      Pow2Step(k);
      XorStep(a, b);
      XorBelow(k - 1, a / 2, b / 2);
    }
  }

  /** k = ONES * c, a product of words. */
  method WordOfBytes(c: Byte, n: nat) returns (k: nat)
    ensures k == Repeat(c, n) < Size(n)
  {
    hide Ones, Repeat, Size;
    OnesAre(n);
    Positive(n);
    k := Ones(n) * c % Size(n);
    DivModUnique(Ones(n) * c, Size(n), 0, Repeat(c, n));
  }

  lemma Positive(n: nat)
    ensures Size(n) > 0
  {
  }

  /** *w ^ (ONES * c) has a zero byte exactly where the memory holds c. */
  lemma {:induction false} XorFinds(s: seq<Byte>, c: Byte)
    ensures BitXor(WordOf(s), Repeat(c, |s|)) < Size(|s|)
    ensures SomeZero(BitXor(WordOf(s), Repeat(c, |s|)), |s|) <==> c in s
  {
    hide BitXor, Pow2, SomeZero;
    SizeOne();
    if s == [] {
      XorZeros();
      NoBytes(0);
    } else {
      var t := s[1..];
      var hi, lo := BitXor(WordOf(t), Repeat(c, |t|)), BitXor(s[0], c);
      Pow2Values();
      XorSplit(8, 0x100, WordOf(s), WordOf(t), s[0], Repeat(c, |s|), Repeat(c, |t|), c);
      XorBelow(8, s[0], c);
      XorFinds(t, c);
      SizeStep(|s|);
      ZeroTail(BitXor(WordOf(s), Repeat(c, |s|)), |s|);
      SameBits(s[0], c);
      assert s == [s[0]] + t;
    }
  }

  /** memchr on the bytes of a buffer that starts at address `at`; `word` is
      sizeof(size_t). Every read is inside the buffer. */
  method Memchr(buf: seq<Byte>, at: nat, c: int, word: nat) returns (found: bool, i: nat)
    requires word > 0
    ensures found ==> i < |buf| && buf[i] == c % 0x100 && forall k :: 0 <= k < i ==> buf[k] != c % 0x100
    ensures !found ==> c % 0x100 !in buf
  {
    hide HasZero, WordOf, BitXor, SomeZero, Size, Repeat, Ones;
    var b: Byte := c % 0x100;
    i := 0;
    while (at + i) % word != 0 && i < |buf| && buf[i] != b
      invariant i <= |buf| && forall k :: 0 <= k < i ==> buf[k] != b
      decreases |buf| - i
    {
      i := i + 1;
    }
    if i < |buf| && buf[i] != b {
      var k := WordOfBytes(b, word);
      var more := true;
      while more
        invariant i <= |buf| && forall k :: 0 <= k < i ==> buf[k] != b
        decreases more, |buf| - i
      {
        if |buf| - i >= word {
          var w := buf[i..i + word];
          XorFinds(w, b);
          var x := BitXor(WordOf(w), k);
          HasZeroExact(x, word);
          if HasZero(x, word) != 0 {
            more := false;
          } else {
            assert forall k :: i <= k < i + word ==> buf[k] == w[k - i];
            i := i + word;
          }
        } else {
          more := false;
        }
      }
    }
    while i < |buf| && buf[i] != b
      invariant i <= |buf| && forall k :: 0 <= k < i ==> buf[k] != b
    {
      i := i + 1;
    }
    found := i < |buf|;
  }
}
