/** Unsigned 32- and 64-bit C arithmetic on integers. */
module Machine32 {
  import opened Bits

  const B32 := 0x1_0000_0000
  const B64 := 0x1_0000_0000_0000_0000

  type U32 = w: int | 0 <= w < 0x1_0000_0000
  type U64 = w: int | 0 <= w < 0x1_0000_0000_0000_0000

  /** Conversion to an unsigned type. */
  function Low32(x: int): U32 { x % 0x1_0000_0000 }
  function Low64(x: int): U64 { x % 0x1_0000_0000_0000_0000 }

  /** `x << k` and `x >> k` on 32 bits. */
  function Shl32(x: U32, k: nat): U32 { Low32(x * Pow2(k)) }

  function Shr32(x: U32, k: nat): (r: U32)
    ensures r <= x
  {
    ShrSmaller(x, k);
    Shr(x, k)
  }

  lemma ShrSmaller(x: nat, k: nat)
    ensures Shr(x, k) <= x
  {
    DivBounds(x, Pow2(k), Shr(x, k));
    MulMono(1, Pow2(k), Shr(x, k));
  }

  /** A truth value as an integer, and as a mask of all ones or none. */
  function Truth(b: bool): U32 { if b then 1 else 0 }
  function Mask32(b: bool): U32 { if b then 0xffff_ffff else 0 }

  lemma AndMask(x: U32, b: bool)
    ensures BitAnd(x, Mask32(b)) == if b then x else 0
  {
    hide BitAnd, Pow2;
    Pow2Values();
    AndOnes(x, 32);
    AndZero(x);
  }

  lemma {:induction false} OrComm(a: nat, b: nat)
    ensures BitOr(a, b) == BitOr(b, a)
    decreases a + b
  {
    if a != 0 || b != 0 {
      hide BitOr;
      OrStep(a, b);
      OrStep(b, a);
      OrComm(a / 2, b / 2);
    }
  }

  /** `|` on operands without common bits, in either order. */
  lemma OrAdds(a: nat, b: nat, k: nat)
    requires a % Pow2(k) == 0 && b < Pow2(k)
    ensures BitOr(a, b) == a + b && BitOr(b, a) == a + b
  {
    OrDisjoint(a, b, k);
    OrComm(a, b);
  }

  /** `x & 1`. */
  function LowBit(x: nat): (b: U32)
    ensures b < 2 && b == x % 2
  {
    LowBitIs(x);
    BitAnd(x, 1)
  }

  lemma LowBitIs(x: nat)
    ensures BitAnd(x, 1) == x % 2
  {
    hide BitAnd, Pow2;
    Pow2Step(1);
    Pow2Zero();
    AndOnes(x, 1);
  }

  // ---- double words ----

  /** union udwords: a 64-bit value as two halves. */
  datatype DWord = DWord(high: U32, low: U32)

  function All(x: DWord): U64 { x.high * 0x1_0000_0000 + x.low }

  function Halves(x: U64): (r: DWord)
    ensures All(r) == x
  {
    DWord(x / 0x1_0000_0000, x % 0x1_0000_0000)
  }
}
