/** gen-lut.c: writing the file that becomes _logic_shift_table. */
module RvTablesFile {
  import opened Bits
  import opened RvMachine
  import opened RvTables
  import opened RvBasics

  /** The expression of each table, in row j and column i. */
  datatype Entries = AndRows | OrRows | XorRows | SllRows | SrlRows | SraRows

  function Value(e: Entries, j: Byte, i: Byte): nat {
    match e
    case AndRows => BitAnd(j, i)
    case OrRows => BitOr(j, i)
    case XorRows => BitXor(j, i)
    case SllRows => Sll8(j, i)
    case SrlRows => Srl8(j, i)
    case SraRows => Sra8(j, i)
  }

  function EntrySize(e: Entries): nat {
    if e.AndRows? || e.OrRows? || e.XorRows? then 1 else 4
  }

  function Rows(e: Entries): nat {
    if EntrySize(e) == 1 then 256 else 32
  }

  /** Where a table starts in the file. */
  function Offset(e: Entries): nat {
    match e
    case AndRows => 0
    case OrRows => OR8
    case XorRows => XOR8
    case SllRows => SLL8
    case SrlRows => SRL8
    case SraRows => SRA8
  }

  /** The position of entry n of a table. */
  function Place(e: Entries, n: nat): nat { if EntrySize(e) == 1 then n else 4 * n }

  /** The bytes of an entry in memory order. */
  function EntryBytes(v: nat, size: nat): seq<Byte>
    requires size == 1 || size == 4
  {
    var w := v % W32;
    if size == 1 then [B0(w)] else [B0(w), B1(w), B2(w), B3(w)]
  }

  predicate EntryIs(file: seq<Byte>, e: Entries, j: Byte, i: Byte) {
    var at := Offset(e) + Place(e, 256 * j + i);
    at + EntrySize(e) <= |file| && file[at..at + EntrySize(e)] == EntryBytes(Value(e, j, i), EntrySize(e))
  }

  /** The first n entries of a table are in the file. */
  ghost predicate Written(file: seq<Byte>, e: Entries, n: nat) {
    forall j: Byte, i: Byte :: 256 * j + i < n ==> EntryIs(file, e, j, i)
  }

  ghost predicate IsLut(file: seq<Byte>) {
    |file| == LST_SIZE && forall e: Entries :: Written(file, e, 256 * Rows(e))
  }

  /** A longer file still holds its entries. */
  lemma WrittenGrows(file: seq<Byte>, more: seq<Byte>, e: Entries, n: nat)
    requires Written(file, e, n)
    ensures Written(file + more, e, n)
  {
    hide Value, EntryBytes;
    forall j: Byte, i: Byte | 256 * j + i < n ensures EntryIs(file + more, e, j, i) {
      var at := Offset(e) + Place(e, 256 * j + i);
      assert EntryIs(file, e, j, i);
      assert (file + more)[at..at + EntrySize(e)] == file[at..at + EntrySize(e)];
    }
  }

  lemma WrittenNext(file: seq<Byte>, e: Entries, j: Byte, i: Byte)
    requires Written(file, e, 256 * j + i) && |file| == Offset(e) + Place(e, 256 * j + i)
    ensures Written(file + EntryBytes(Value(e, j, i), EntrySize(e)), e, 256 * j + i + 1)
  {
    hide Value;
    var more := EntryBytes(Value(e, j, i), EntrySize(e));
    WrittenGrows(file, more, e, 256 * j + i);
    assert (file + more)[|file|..] == more;
    forall j': Byte, i': Byte | 256 * j' + i' < 256 * j + i + 1 ensures EntryIs(file + more, e, j', i') {
      assert 256 * j' + i' < 256 * j + i || (j' == j && i' == i);
    }
  }

  class LutFile {
    var bytes: seq<Byte>

    constructor ()
      ensures bytes == []
    {
      bytes := [];
    }

    /** fwrite of the low `size` bytes of an unsigned on a little-endian host. */
    method Write(v: nat, size: nat)
      requires size == 1 || size == 4
      modifies this
      ensures bytes == old(bytes) + EntryBytes(v, size)
    {
      bytes := bytes + EntryBytes(v, size);
    }

    /** gen_table: one whole table at the end of the file. */
    method GenTable(e: Entries)
      requires |bytes| == Offset(e)
      modifies this
      ensures Written(bytes, e, 256 * Rows(e)) && |bytes| == Offset(e) + Place(e, 256 * Rows(e))
      ensures forall f: Entries :: Written(old(bytes), f, 256 * Rows(f)) ==> Written(bytes, f, 256 * Rows(f))
    {
      hide Value, EntryIs, EntryBytes;
      ghost var was := bytes;
      for j := 0 to Rows(e)
        invariant Written(bytes, e, 256 * j) && |bytes| == Offset(e) + Place(e, 256 * j)
        invariant forall f: Entries :: Written(was, f, 256 * Rows(f)) ==> Written(bytes, f, 256 * Rows(f))
      {
        for i := 0 to 256
          invariant Written(bytes, e, 256 * j + i) && |bytes| == Offset(e) + Place(e, 256 * j + i)
          invariant forall f: Entries :: Written(was, f, 256 * Rows(f)) ==> Written(bytes, f, 256 * Rows(f))
        {
          ghost var before := bytes;
          WrittenNext(bytes, e, j, i);
          Write(Value(e, j, i), EntrySize(e));
          EntryLength(Value(e, j, i), EntrySize(e));
          forall f: Entries | Written(before, f, 256 * Rows(f)) ensures Written(bytes, f, 256 * Rows(f)) {
            WrittenGrows(before, EntryBytes(Value(e, j, i), EntrySize(e)), f, 256 * Rows(f));
          }
        }
      }
    }

    /** main: the six tables, in the order that inst-replace.h expects. */
    method Generate()
      requires bytes == []
      modifies this
      ensures IsLut(bytes)
    {
      hide Written;
      GenTable(AndRows);
      GenTable(OrRows);
      GenTable(XorRows);
      GenTable(SllRows);
      GenTable(SrlRows);
      GenTable(SraRows);
      assert forall e: Entries :: e.AndRows? || e.OrRows? || e.XorRows? || e.SllRows? || e.SrlRows? || e.SraRows?;
    }
  }

  lemma EntryLength(v: nat, size: nat)
    requires size == 1 || size == 4
    ensures |EntryBytes(v, size)| == size
  {
  }

  // ---- the file in memory ----

  /** The bytes of the file stand at the label. */
  ghost predicate Included(t: Tables, m: Mem, file: seq<Byte>) {
    t.lst + |file| <= W32 && forall n: nat :: n < |file| ==> InPlace(t, m, file, n)
  }

  predicate InPlace(t: Tables, m: Mem, file: seq<Byte>, n: nat)
    requires n < |file| && t.lst + |file| <= W32
  {
    Ld(m, t.lst + n) == file[n]
  }

  lemma {:induction false} BitsBelow(k: nat, a: nat, b: nat)
    requires a < Pow2(k) && b < Pow2(k)
    ensures BitAnd(a, b) < Pow2(k) && BitOr(a, b) < Pow2(k) && BitXor(a, b) < Pow2(k)
  {
    if k == 0 {
      AndZeros();
      OrZeros();
      XorZeros();
    } else {
      hide BitAnd, BitOr, BitXor;
      Pow2Step(k);
      BitsBelow(k - 1, a / 2, b / 2);
      AndStep(a, b);
      OrStep(a, b);
      XorStep(a, b);
    }
  }

  lemma ByteEntryLoaded(t: Tables, m: Mem, file: seq<Byte>, e: Entries, j: Byte, i: Byte)
    requires Included(t, m, file) && IsLut(file) && EntrySize(e) == 1
    ensures ByteAt(m, t.lst, Offset(e) + 256 * j + i, Value(e, j, i))
  {
    hide Ld, BitAnd, BitOr, BitXor, Pow2, Sll8, Srl8, Sra8;
    var at := Offset(e) + 256 * j + i;
    assert Written(file, e, 256 * Rows(e));
    assert EntryIs(file, e, j, i);
    assert file[at..at + 1][0] == file[at];
    assert InPlace(t, m, file, at);
    Pow2Values();
    BitsBelow(8, j, i);
    SmallByte(Value(e, j, i));
  }

  lemma SmallByte(v: nat)
    requires v < 0x100
    ensures B0(v % W32) == v
  {
  }

  lemma WordEntryLoaded(t: Tables, m: Mem, file: seq<Byte>, e: Entries, j: nat, i: Byte)
    requires Included(t, m, file) && IsLut(file) && EntrySize(e) == 4 && j < 32
    ensures WordAt(m, t.lst, Offset(e) + 1024 * j + 4 * i, Value(e, j, i))
  {
    hide Ld, Value, B0, B1, B2, B3, W4;
    var at := Offset(e) + 1024 * j + 4 * i;
    assert Written(file, e, 256 * Rows(e));
    assert EntryIs(file, e, j, i);
    var v := Value(e, j, i) % W32;
    var part := file[at..at + 4];
    assert part == [B0(v), B1(v), B2(v), B3(v)];
    assert file[at] == part[0] && file[at + 1] == part[1] && file[at + 2] == part[2] && file[at + 3] == part[3];
    assert InPlace(t, m, file, at) && InPlace(t, m, file, at + 1) && InPlace(t, m, file, at + 2) &&
      InPlace(t, m, file, at + 3);
    WrapSmall(t.lst + at);
    WrapSmall(t.lst + at + 1);
    WrapSmall(t.lst + at + 2);
    WrapSmall(t.lst + at + 3);
    FourBytes(v);
    ShiftValueWord(e, j, i);
  }

  lemma ShiftValueWord(e: Entries, j: nat, i: Byte)
    requires EntrySize(e) == 4 && j < 32
    ensures Value(e, j, i) % W32 == Value(e, j, i)
  {
    hide Pow2, Sll8, Srl8, Sra8;
  }

  /** The generated file is what the expansions of logic and shifts need. */
  lemma LutLoads(t: Tables, m: Mem, file: seq<Byte>)
    requires Included(t, m, file) && IsLut(file)
    ensures forall j: Byte, i: Byte :: AndLoaded(t, m, j, i)
    ensures forall j: Byte, i: Byte :: OrLoaded(t, m, j, i)
    ensures forall j: Byte, i: Byte :: XorLoaded(t, m, j, i)
    ensures forall j: nat, i: Byte :: j < 32 ==> SllLoaded(t, m, j, i)
    ensures forall j: nat, i: Byte :: j < 32 ==> SrlLoaded(t, m, j, i)
    ensures forall j: nat, i: Byte :: j < 32 ==> SraLoaded(t, m, j, i)
  {
    hide ByteAt, WordAt, BitAnd, BitOr, BitXor, Sll8, Srl8, Sra8, IsLut, Included;
    forall j: Byte, i: Byte ensures AndLoaded(t, m, j, i) { ByteEntryLoaded(t, m, file, AndRows, j, i); }
    forall j: Byte, i: Byte ensures OrLoaded(t, m, j, i) { ByteEntryLoaded(t, m, file, OrRows, j, i); }
    forall j: Byte, i: Byte ensures XorLoaded(t, m, j, i) { ByteEntryLoaded(t, m, file, XorRows, j, i); }
    forall j: nat, i: Byte | j < 32 ensures SllLoaded(t, m, j, i) { WordEntryLoaded(t, m, file, SllRows, j, i); }
    forall j: nat, i: Byte | j < 32 ensures SrlLoaded(t, m, j, i) { WordEntryLoaded(t, m, file, SrlRows, j, i); }
    forall j: nat, i: Byte | j < 32 ensures SraLoaded(t, m, j, i) { WordEntryLoaded(t, m, file, SraRows, j, i); }
  }
}
