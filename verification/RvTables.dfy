/** The constant tables, the check array and the scratch words below sp. */
module RvTables {
  import opened Bits
  import opened RvMachine

  /** Link-time addresses: _check_same_array, _same_result_table,
      _check_8bit_0_table, _slt1_table, _sltu1_table, _or1_table and
      _logic_shift_table. */
  datatype Tables = Tables(check: Word, same: Word, zero8: Word, slt1: Word, sltu1: Word, or1: Word, lst: Word)

  const OR8 := 0x1_0000
  const XOR8 := 0x2_0000
  const SLL8 := 0x3_0000
  const SRL8 := 0x3_8000
  const SRA8 := 0x4_0000
  const LST_SIZE := 0x4_8000

  predicate InTable(base: Word, size: int, a: Word) { base <= a < base + size }

  predicate InRom(t: Tables, a: Word) {
    InTable(t.same, 8, a) || InTable(t.zero8, 256, a) || InTable(t.slt1, 8, a) || InTable(t.sltu1, 8, a) ||
    InTable(t.or1, 4, a) || InTable(t.lst, LST_SIZE, a)
  }

  predicate InCheck(t: Tables, a: Word) { InTable(t.check, 256, a) }

  /** The tables fit below 2^32, and the one that is written lies apart. */
  ghost predicate Placed(t: Tables) {
    && t.check + 256 <= W32 && t.same + 8 <= W32 && t.zero8 + 256 <= W32 && t.slt1 + 8 <= W32
    && t.sltu1 + 8 <= W32 && t.or1 + 4 <= W32 && t.lst + LST_SIZE <= W32
    && forall a :: InCheck(t, a) ==> !InRom(t, a)
  }

  // ---- contents ----

  /** Entry j of a table of single bytes. */
  ghost predicate ByteAt(m: Mem, base: Word, i: int, v: int) {
    0 <= base + i < W32 && Ld(m, base + i) == v
  }

  /** The little-endian word at base + i. */
  ghost predicate WordAt(m: Mem, base: Word, i: int, v: int) {
    0 <= base + i && base + i + 3 < W32 && LdW(m, base + i, 0) == v
  }

  function Sll8(j: nat, i: Byte): Word { i * Pow2(j) % W32 }

  function Srl8(j: nat, i: Byte): Word { Quot(i * 0x100_0000, Pow2(j)) % W32 }

  /** The value of a word read as a two's complement number. */
  function Signed(x: Word): int { if x >= 0x8000_0000 then x - W32 else x }

  function FloorDiv(x: int, p: nat): int
    requires p > 0
  {
    x / p
  }

  function Sra8(j: nat, i: Byte): Word { Wrap(FloorDiv(Signed(i * 0x100_0000), Pow2(j))) }

  ghost predicate AndLoaded(t: Tables, m: Mem, j: Byte, i: Byte) { ByteAt(m, t.lst, 256 * j + i, BitAnd(j, i)) }
  ghost predicate OrLoaded(t: Tables, m: Mem, j: Byte, i: Byte) { ByteAt(m, t.lst, OR8 + 256 * j + i, BitOr(j, i)) }
  ghost predicate XorLoaded(t: Tables, m: Mem, j: Byte, i: Byte) { ByteAt(m, t.lst, XOR8 + 256 * j + i, BitXor(j, i)) }
  ghost predicate SllLoaded(t: Tables, m: Mem, j: nat,
    i: Byte) { WordAt(m, t.lst, SLL8 + 1024 * j + 4 * i, Sll8(j, i)) }
  ghost predicate SrlLoaded(t: Tables, m: Mem, j: nat,
    i: Byte) { WordAt(m, t.lst, SRL8 + 1024 * j + 4 * i, Srl8(j, i)) }
  ghost predicate SraLoaded(t: Tables, m: Mem, j: nat,
    i: Byte) { WordAt(m, t.lst, SRA8 + 1024 * j + 4 * i, Sra8(j, i)) }

  /** _slt1_table: the index 4a + 2b + r holds the signs of a, b and a - b. */
  const SLT1: seq<Byte> := [0, 1, 0, 0, 1, 1, 0, 1]
  const SLTU1: seq<Byte> := [0, 1, 1, 1, 0, 0, 0, 1]
  const OR1: seq<Byte> := [0, 1, 1, 1]

  ghost predicate SameLoaded(t: Tables, m: Mem, i: Byte) { ByteAt(m, t.same, i, if i == 0 then 1 else 0) }
  ghost predicate Zero8Loaded(t: Tables, m: Mem, i: Byte) { ByteAt(m, t.zero8, i, if i == 0 then 0 else 1) }
  ghost predicate SltLoaded(t: Tables, m: Mem, i: Byte)
    requires i < 8
  {
    ByteAt(m, t.slt1, i, SLT1[i]) && ByteAt(m, t.sltu1, i, SLTU1[i])
  }
  ghost predicate Or1Loaded(t: Tables, m: Mem, i: Byte)
    requires i < 4
  {
    ByteAt(m, t.or1, i, OR1[i])
  }

  ghost predicate Loaded(t: Tables, m: Mem) {
    && (forall i: Byte :: i < 8 ==> SameLoaded(t, m, i))
    && (forall i: Byte :: Zero8Loaded(t, m, i))
    && (forall i: Byte :: i < 8 ==> SltLoaded(t, m, i))
    && (forall i: Byte :: i < 4 ==> Or1Loaded(t, m, i))
    && (forall j: Byte, i: Byte :: AndLoaded(t, m, j, i))
    && (forall j: Byte, i: Byte :: OrLoaded(t, m, j, i))
    && (forall j: Byte, i: Byte :: XorLoaded(t, m, j, i))
    && (forall j: nat, i: Byte :: j < 32 ==> SllLoaded(t, m, j, i))
    && (forall j: nat, i: Byte :: j < 32 ==> SrlLoaded(t, m, j, i))
    && (forall j: nat, i: Byte :: j < 32 ==> SraLoaded(t, m, j, i))
  }

  // ---- scratch words ----

  /** The 28 bytes that expansions may overwrite. */
  ghost predicate Scratch(sp: Word, a: Word) {
    exists k :: -28 <= k < 0 && a == Ea(sp, k)
  }

  /** The scratch words overlap no table. */
  ghost predicate Clear(t: Tables, sp: Word) {
    forall a: Word :: Scratch(sp, a) ==> !InRom(t, a) && !InCheck(t, a)
  }

  /** From m to m' only scratch bytes changed, and of those only the ones with
      offsets in [lo, hi) or [lo', hi'). */
  ghost predicate Touched(sp: Word, m: Mem, m': Mem, lo: int, hi: int, lo': int, hi': int) {
    && (forall k :: -28 <= k < 0 && !(lo <= k < hi) && !(lo' <= k < hi') ==> Ld(m', Ea(sp, k)) == Ld(m, Ea(sp, k)))
    && (forall a :: !Scratch(sp, a) ==> Ld(m', a) == Ld(m, a))
  }

  /** Only scratch bytes changed. */
  ghost predicate Kept(sp: Word, m: Mem, m': Mem) {
    forall a :: !Scratch(sp, a) ==> Ld(m', a) == Ld(m, a)
  }

  lemma TouchedTrans(sp: Word, m: Mem, m': Mem, m'': Mem, lo: int, hi: int, lo': int, hi': int)
    requires Touched(sp, m, m', lo, hi, lo', hi') && Touched(sp, m', m'', lo, hi, lo', hi')
    ensures Touched(sp, m, m'', lo, hi, lo', hi')
  {
    hide Ea, Scratch;
  }

  lemma LoadedKept(t: Tables, sp: Word, m: Mem, m': Mem)
    requires Clear(t, sp) && Loaded(t, m) && Kept(sp, m, m')
    ensures Loaded(t, m')
  {
    hide Loaded, SameRom, Kept, Clear;
    RomSame(t, sp, m, m');
    LoadedFrame(t, m, m');
  }

  lemma RomSame(t: Tables, sp: Word, m: Mem, m': Mem)
    requires Clear(t, sp) && Kept(sp, m, m')
    ensures SameRom(t, m, m')
  {
    hide InRom, InCheck, Scratch, Ld;
    forall a | InRom(t, a) ensures Ld(m', a) == Ld(m, a) {
      assert !Scratch(sp, a);
    }
  }

  ghost predicate SameRom(t: Tables, m: Mem, m': Mem) {
    forall a :: InRom(t, a) ==> Ld(m', a) == Ld(m, a)
  }

  lemma WordFrame(t: Tables, m: Mem, m': Mem, i: int, v: int)
    requires SameRom(t, m, m') && WordAt(m, t.lst, i, v) && 0 <= i && i + 4 <= LST_SIZE
    ensures WordAt(m', t.lst, i, v)
  {
    hide Ld, W4;
    WrapSmall(t.lst + i);
    WrapSmall(t.lst + i + 1);
    WrapSmall(t.lst + i + 2);
    WrapSmall(t.lst + i + 3);
    assert InRom(t, t.lst + i) && InRom(t, t.lst + i + 1) && InRom(t, t.lst + i + 2) && InRom(t, t.lst + i + 3);
  }

  /** Memory that agrees on the constant tables still holds them. */
  lemma LoadedFrame(t: Tables, m: Mem, m': Mem)
    requires Loaded(t, m) && SameRom(t, m, m')
    ensures Loaded(t, m')
  {
    hide SameRom, InRom, ByteAt, WordAt, BitAnd, BitOr, BitXor, Sll8, Srl8, Sra8;
    SmallFrame(t, m, m');
    LogicFrame(t, m, m');
    ShiftFrame(t, m, m');
  }

  lemma SmallFrame(t: Tables, m: Mem, m': Mem)
    requires SameRom(t, m, m')
    ensures forall i: Byte :: i < 8 && SameLoaded(t, m, i) ==> SameLoaded(t, m', i)
    ensures forall i: Byte :: Zero8Loaded(t, m, i) ==> Zero8Loaded(t, m', i)
    ensures forall i: Byte :: i < 8 && SltLoaded(t, m, i) ==> SltLoaded(t, m', i)
    ensures forall i: Byte :: i < 4 && Or1Loaded(t, m, i) ==> Or1Loaded(t, m', i)
  {
    hide Ld;
  }

  lemma LogicFrame(t: Tables, m: Mem, m': Mem)
    requires SameRom(t, m, m')
    ensures forall j: Byte, i: Byte :: AndLoaded(t, m, j, i) ==> AndLoaded(t, m', j, i)
    ensures forall j: Byte, i: Byte :: OrLoaded(t, m, j, i) ==> OrLoaded(t, m', j, i)
    ensures forall j: Byte, i: Byte :: XorLoaded(t, m, j, i) ==> XorLoaded(t, m', j, i)
  {
    hide Ld, BitAnd, BitOr, BitXor;
  }

  lemma ShiftFrame(t: Tables, m: Mem, m': Mem)
    requires SameRom(t, m, m')
    ensures forall j: nat, i: Byte :: j < 32 && SllLoaded(t, m, j, i) ==> SllLoaded(t, m', j, i)
    ensures forall j: nat, i: Byte :: j < 32 && SrlLoaded(t, m, j, i) ==> SrlLoaded(t, m', j, i)
    ensures forall j: nat, i: Byte :: j < 32 && SraLoaded(t, m, j, i) ==> SraLoaded(t, m', j, i)
  {
    hide WordAt, SameRom, Sll8, Srl8, Sra8;
    forall j: nat, i: Byte | j < 32 && SllLoaded(t, m, j, i) ensures SllLoaded(t, m', j, i) {
      WordFrame(t, m, m', SLL8 + 1024 * j + 4 * i, Sll8(j, i));
    }
    forall j: nat, i: Byte | j < 32 && SrlLoaded(t, m, j, i) ensures SrlLoaded(t, m', j, i) {
      WordFrame(t, m, m', SRL8 + 1024 * j + 4 * i, Srl8(j, i));
    }
    forall j: nat, i: Byte | j < 32 && SraLoaded(t, m, j, i) ensures SraLoaded(t, m', j, i) {
      WordFrame(t, m, m', SRA8 + 1024 * j + 4 * i, Sra8(j, i));
    }
  }
}
