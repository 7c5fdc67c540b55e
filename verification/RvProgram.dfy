/** Whole programs: the layout of rewritten code, both machines, and the proof
    that running the rewritten program simulates the original step for step. */
module RvProgram {
  import opened RvMachine
  import opened RvTables
  import opened RvMacros
  import opened RvIsa
  import opened RvBasics
  import opened RvArith
  import opened RvLogic
  import opened RvEqual
  import opened RvRewrite
  import opened RvData

  // ---- the base machine ----

  datatype Text = Plain(i: Instr) | Jalr(rd: Reg, base: Reg, off: int)

  datatype Cpu = Cpu(pc: Word, s: State)

  predicate Fetches(text: seq<Text>, org: Word, pc: Word) {
    org <= pc && (pc - org) % 4 == 0 && (pc - org) / 4 < |text|
  }

  /** One instruction; outside the text the machine stays where it is. */
  function TextStep(text: seq<Text>, org: Word, c: Cpu): Cpu {
    if !Fetches(text, org, c.pc) then c else
    match text[(c.pc - org) / 4]
    case Plain(i) => Cpu(Wrap(c.pc + 4), Step(i, c.s))
    case Jalr(rd, base, off) =>
      Cpu(JumpAddress(Rd(c.s.r, base), off), c.s.(r := Set(c.s.r, rd, Wrap(c.pc + 4))))
  }

  function TextRun(text: seq<Text>, org: Word, n: nat, c: Cpu): Cpu {
    if n == 0 then c else TextRun(text, org, n - 1, TextStep(text, org, c))
  }

  lemma {:induction false} TextRunAdd(text: seq<Text>, org: Word, m: nat, n: nat, c: Cpu)
    ensures TextRun(text, org, m + n, c) == TextRun(text, org, n, TextRun(text, org, m, c))
  {
    hide TextStep;
    if m > 0 {
      TextRunAdd(text, org, m - 1, n, TextStep(text, org, c));
    }
  }

  function PlainText(body: Code): seq<Text> {
    seq(|body|, k requires 0 <= k < |body| => Plain(body[k]))
  }

  function Flatten(b: Block): seq<Text> {
    PlainText(b.body) + if b.exit.Next? then [] else [Jalr(b.exit.rd, b.exit.base, b.exit.off)]
  }

  // ---- the layout of a rewritten program ----

  datatype Image = Image(t: Tables, p: Program, org: Word)

  function Size(t: Tables, i: Src): nat { |Flatten(Expand(t, i, 0, 0))| }

  function {:induction false} Start(im: Image, k: nat): nat
    requires k <= |im.p|
  {
    if k == 0 then 0 else Start(im, k - 1) + Size(im.t, im.p[k - 1])
  }

  /** The address at which the expansion of instruction k starts. */
  function Addr(im: Image, k: nat): int
    requires k <= |im.p|
  {
    im.org + 4 * Start(im, k)
  }

  /** The instruction that a branch or jump names, or 0. */
  function TargetOf(i: Src): nat {
    if i.Branch? || i.JumpLink? then i.target else 0
  }

  ghost predicate WellFormed(im: Image) {
    && im.org % 4 == 0 && Addr(im, |im.p|) < W32 && Placed(im.t)
    && forall k: nat :: k < |im.p| ==> InstrOk(im, k)
  }

  predicate InstrOk(im: Image, k: nat)
    requires k < |im.p|
  {
    Supported(im.p[k]) && TargetOf(im.p[k]) <= |im.p|
  }

  lemma {:induction false} StartMono(im: Image, j: nat, k: nat)
    requires j <= k <= |im.p|
    ensures Start(im, j) <= Start(im, k)
    decreases k - j
  {
    hide Size;
    if j < k {
      StartMono(im, j, k - 1);
    }
  }

  lemma AddrWord(im: Image, k: nat)
    requires WellFormed(im) && k <= |im.p|
    ensures im.org <= Addr(im, k) < W32 && Addr(im, k) % 4 == 0
  {
    StartMono(im, k, |im.p|);
  }

  /** The expansion of instruction k in place. */
  ghost function BlockAt(im: Image, k: nat): Block
    requires WellFormed(im) && k < |im.p|
  {
    AddrWord(im, k + 1);
    assert InstrOk(im, k);
    AddrWord(im, TargetOf(im.p[k]));
    Expand(im.t, im.p[k], Addr(im, k + 1), Addr(im, TargetOf(im.p[k])))
  }

  ghost function TextUpTo(im: Image, k: nat): seq<Text>
    requires WellFormed(im) && k <= |im.p|
  {
    if k == 0 then [] else TextUpTo(im, k - 1) + Flatten(BlockAt(im, k - 1))
  }

  /** The rewritten program. */
  ghost function TextOf(im: Image): seq<Text>
    requires WellFormed(im)
  {
    TextUpTo(im, |im.p|)
  }

  /** Sizes do not depend on the addresses in an expansion. */
  lemma SizeSame(t: Tables, i: Src, next: Word, target: Word)
    ensures |Flatten(Expand(t, i, next, target))| == Size(t, i)
  {
    hide Rtype, Itype, ShiftByConstant, LoadCode, StoreCode, Compare, Slli, Lo, Hi;
  }

  lemma {:induction false} TextLength(im: Image, k: nat)
    requires WellFormed(im) && k <= |im.p|
    ensures |TextUpTo(im, k)| == Start(im, k)
  {
    hide WellFormed, Size, Flatten, Expand;
    if k > 0 {
      TextLength(im, k - 1);
      BlockSize(im, k - 1);
    }
  }

  lemma BlockSize(im: Image, k: nat)
    requires WellFormed(im) && k < |im.p|
    ensures |Flatten(BlockAt(im, k))| == Start(im, k + 1) - Start(im, k)
  {
    hide Flatten, Expand, Size;
    AddrWord(im, k + 1);
    assert InstrOk(im, k);
    AddrWord(im, TargetOf(im.p[k]));
    SizeSame(im.t, im.p[k], Addr(im, k + 1), Addr(im, TargetOf(im.p[k])));
  }

  /** part stands at index at of text. */
  predicate StandsAt(text: seq<Text>, at: nat, part: seq<Text>) {
    at + |part| <= |text| && text[at..at + |part|] == part
  }

  lemma {:induction false} BlockPlaced(im: Image, k: nat, n: nat)
    requires WellFormed(im) && k < n <= |im.p|
    ensures StandsAt(TextUpTo(im, n), Start(im, k), Flatten(BlockAt(im, k)))
    decreases n
  {
    hide WellFormed, Flatten, BlockAt, Size;
    TextLength(im, n - 1);
    if k == n - 1 {
      assert TextUpTo(im, n)[Start(im, k)..] == Flatten(BlockAt(im, k));
    } else {
      BlockPlaced(im, k, n - 1);
      var part, text := Flatten(BlockAt(im, k)), TextUpTo(im, n - 1);
      var all := TextUpTo(im, n);
      assert all[..|text|] == text;
      assert all[Start(im, k)..Start(im, k) + |part|] == text[Start(im, k)..Start(im, k) + |part|];
    }
  }

  // ---- running one block ----

  lemma {:induction false} PlainRuns(text: seq<Text>, org: Word, at: nat, body: Code, s: State)
    requires org + 4 * |text| < W32 && StandsAt(text, at, PlainText(body))
    ensures at + |body| <= |text|
    ensures TextRun(text, org, |body|, Cpu(org + 4 * at, s)) == Cpu(org + 4 * (at + |body|), Exec(body, s))
    decreases |body|
  {
    hide TextStep, Step, PlainText, StandsAt;
    if body != [] {
      var rest := body[1..];
      PlainSplit(body);
      StandsPart(text, at, [Plain(body[0])], PlainText(rest));
      StandsFirst(text, at, [Plain(body[0])]);
      PlainStep(text, org, at, body[0], s);
      StandsInside(text, at + 1, PlainText(rest));
      PlainRuns(text, org, at + 1, rest, Step(body[0], s));
    } else {
      StandsInside(text, at, PlainText(body));
    }
  }

  lemma PlainSplit(body: Code)
    requires body != []
    ensures PlainText(body) == [Plain(body[0])] + PlainText(body[1..])
  {
  }

  /** The machine after a block that starts at pc. */
  function AfterBlock(b: Block, pc: int, s: State): Cpu {
    AfterExit(b.exit, pc + 4 * |Flatten(b)|, Exec(b.body, s))
  }

  function AfterExit(exit: Exit, end: int, s: State): Cpu {
    match exit
    case Next => Cpu(Wrap(end), s)
    case Jump(rd, base, off) => Cpu(JumpAddress(Rd(s.r, base), off), s.(r := Set(s.r, rd, Wrap(end))))
  }

  lemma JalrRuns(text: seq<Text>, org: Word, at: nat, exit: Exit, s: State)
    requires org + 4 * |text| < W32 && at < |text| && exit.Jump? && text[at] == Jalr(exit.rd, exit.base, exit.off)
    ensures TextRun(text, org, 1, Cpu(org + 4 * at, s)) == AfterExit(exit, org + 4 * (at + 1), s)
  {
    hide Wrap, Rd, Set, JumpAddress;
    var c := Cpu(org + 4 * at, s);
    assert (c.pc - org) / 4 == at;
    assert TextRun(text, org, 1, c) == TextRun(text, org, 0, TextStep(text, org, c));
  }

  lemma PlainStep(text: seq<Text>, org: Word, at: nat, i: Instr, s: State)
    requires org + 4 * |text| < W32 && at < |text| && text[at] == Plain(i)
    ensures TextStep(text, org, Cpu(org + 4 * at, s)) == Cpu(org + 4 * (at + 1), Step(i, s))
  {
    hide Step, Wrap;
    var c := Cpu(org + 4 * at, s);
    assert (c.pc - org) / 4 == at;
    WrapSmall(c.pc + 4);
  }

  lemma StandsPart(text: seq<Text>, at: nat, a: seq<Text>, b: seq<Text>)
    requires StandsAt(text, at, a + b)
    ensures StandsAt(text, at, a) && StandsAt(text, at + |a|, b)
  {
    assert text[at..at + |a|] == text[at..at + |a + b|][..|a|] == a;
    assert text[at + |a|..at + |a| + |b|] == text[at..at + |a + b|][|a|..] == b;
  }

  lemma BlockRuns(text: seq<Text>, org: Word, at: nat, b: Block, s: State)
    requires org + 4 * |text| < W32 && StandsAt(text, at, Flatten(b))
    ensures TextRun(text, org, |Flatten(b)|, Cpu(org + 4 * at, s)) == AfterBlock(b, org + 4 * at, s)
  {
    hide TextStep, TextRun, Wrap, Exec, Rd, Set, JumpAddress, StandsAt, PlainText;
    var n, s' := |b.body|, Exec(b.body, s);
    var tail: seq<Text> := if b.exit.Next? then [] else [Jalr(b.exit.rd, b.exit.base, b.exit.off)];
    StandsPart(text, at, PlainText(b.body), tail);
    PlainLength(b.body);
    PlainRuns(text, org, at, b.body, s);
    StandsInside(text, at, Flatten(b));
    WrapSmall(org + 4 * (at + |Flatten(b)|));
    if b.exit.Jump? {
      StandsFirst(text, at + n, tail);
      JalrRuns(text, org, at + n, b.exit, s');
      TextRunAdd(text, org, n, 1, Cpu(org + 4 * at, s));
    }
  }

  lemma PlainLength(body: Code)
    ensures |PlainText(body)| == |body|
  {
  }

  lemma StandsInside(text: seq<Text>, at: nat, part: seq<Text>)
    requires StandsAt(text, at, part)
    ensures at + |part| <= |text|
  {
  }

  lemma StandsFirst(text: seq<Text>, at: nat, part: seq<Text>)
    requires StandsAt(text, at, part) && |part| > 0
    ensures at < |text| && text[at] == part[0]
  {
    assert text[at..at + |part|][0] == text[at];
  }

  // ---- the original program ----

  /** The original is at instruction k; its pc is the address of k. */
  datatype SrcState = SrcState(k: nat, s: State)

  /** The first instruction at an address, or |p| + 1. */
  function Find(im: Image, a: int, k: nat): (f: nat)
    requires k <= |im.p|
    ensures f <= |im.p| ==> Addr(im, f) == a
    decreases |im.p| - k
  {
    if Addr(im, k) == a then k else if k == |im.p| then k + 1 else Find(im, a, k + 1)
  }

  function NextOf(im: Image, c: SrcState): nat
    requires c.k < |im.p|
  {
    match im.p[c.k]
    case Branch(cond, rs1, rs2, target) => if Taken(cond, Rd(c.s.r, rs1), Rd(c.s.r, rs2)) then target else c.k + 1
    case JumpLink(_, target) => target
    case JumpReg(_, base, off) => Find(im, JumpAddress(Rd(c.s.r, base), off), 0)
    case _ => c.k + 1
  }

  /** One step of the original program; it stops at its end. */
  function SrcStep(im: Image, c: SrcState): SrcState {
    if c.k >= |im.p| then c
    else SrcState(NextOf(im, c), DataStep(im.p[c.k], c.s, Wrap(Addr(im, c.k + 1))))
  }

  function SrcRun(im: Image, n: nat, c: SrcState): SrcState {
    if n == 0 then c else SrcRun(im, n - 1, SrcStep(im, c))
  }

  // ---- the simulation ----

  /** Dirty bytes: those where the two memories may differ. A store cleans the
      bytes it writes; every step dirties the scratch words and the check array. */
  ghost function Dirty(im: Image, c: SrcState, d: iset<Word>): iset<Word> {
    if c.k >= |im.p| then d else DirtyAfter(im.t, im.p[c.k], c.s.r, d)
  }

  ghost function DirtyAfter(t: Tables, i: Src, r: Regs, d: iset<Word>): iset<Word> {
    iset a: Word | (a in d && !StoresTo(i, r, a)) || Scratch(Rd(r, SP), a) || InCheck(t, a)
  }

  ghost function DirtyRun(im: Image, n: nat, c: SrcState, d: iset<Word>): iset<Word> {
    if n == 0 then d else DirtyRun(im, n - 1, SrcStep(im, c), Dirty(im, c, d))
  }

  /** The assumptions on a program, at one step: memory below sp is dead, the
      tables are not touched, and jumps go to instructions. */
  ghost predicate Legal(im: Image, c: SrcState, d: iset<Word>) {
    && c.k < |im.p|
    && Allowed(im.t, im.p[c.k], c.s.r)
    && (forall a :: LoadsFrom(im.p[c.k], c.s.r, a) ==> a !in d)
    && NextOf(im, c) <= |im.p|
  }

  ghost predicate LegalRun(im: Image, n: nat, c: SrcState, d: iset<Word>) {
    n == 0 || (Legal(im, c, d) && LegalRun(im, n - 1, SrcStep(im, c), Dirty(im, c, d)))
  }

  /** Equal registers but for gp and tp, and equal memory outside d. */
  ghost predicate SameState(s: State, b: State, d: iset<Word>) {
    && (forall x :: Free(x) ==> Rd(s.r, x) == Rd(b.r, x))
    && (forall a :: a !in d ==> Ld(s.m, a) == Ld(b.m, a))
  }

  ghost predicate Sim(im: Image, c: SrcState, b: Cpu, d: iset<Word>) {
    && c.k <= |im.p| && b.pc == Addr(im, c.k)
    && Loaded(im.t, b.s.m) && SameState(c.s, b.s, d)
  }

  /** The meaning of an instruction depends only on what it reads. */
  lemma DataCongruence(i: Src, s: State, b: State, d: iset<Word>, next: Word)
    requires Supported(i) && SameState(s, b, d)
    requires forall a :: LoadsFrom(i, s.r, a) ==> a !in d
    ensures var s', b' := DataStep(i, s, next), DataStep(i, b, next);
      && (forall x :: Free(x) ==> Rd(s'.r, x) == Rd(b'.r, x))
      && (forall a :: a !in d || StoresTo(i, s.r, a) ==> Ld(s'.m, a) == Ld(b'.m, a))
  {
    hide Rd, Ld, Set, AluResult, LoadResult, StoreResult, Ea, Touches, Taken;
    match i
    case Load(load, rd, off, base) => LoadCongruence(load, s.m, b.m, Rd(s.r, base), off, d);
    case Store(store, rs, off, base) => StoreCongruence(store, s.m, b.m, Rd(s.r, base), off, Rd(s.r, rs), d);
    case _ =>
  }

  lemma LoadCongruence(load: LoadKind, m: Mem, m': Mem, base: Word, off: int, d: iset<Word>)
    requires forall a :: a !in d ==> Ld(m, a) == Ld(m', a)
    requires forall a :: Touches(base, off, LoadWidth(load), a) ==> a !in d
    ensures LoadResult(load, m, base, off) == LoadResult(load, m', base, off)
  {
    hide Ld, Ea, W4, Touches;
    assert Touches(base, off, LoadWidth(load), Ea(base, off)) by { TouchesAt(base, off, LoadWidth(load)); }
    TouchesAt(base, off, LoadWidth(load));
    LoadCases(load, m, base, off);
    LoadCases(load, m', base, off);
  }

  lemma TouchesAt(base: Word, off: int, width: nat)
    requires width == 1 || width == 2 || width == 4
    ensures Touches(base, off, width, Ea(base, off))
    ensures width >= 2 ==> Touches(base, off, width, Ea(base, off + 1))
    ensures width == 4 ==> Touches(base, off, width, Ea(base, off + 2)) && Touches(base, off, width, Ea(base, off + 3))
  {
  }

  lemma StoreCongruence(store: StoreKind, m: Mem, m': Mem, base: Word, off: int, v: Word, d: iset<Word>)
    requires forall a :: a !in d ==> Ld(m, a) == Ld(m', a)
    ensures forall a :: a !in d || Touches(base, off, StoreWidth(store), a) ==>
      Ld(StoreResult(store, m, base, off, v), a) == Ld(StoreResult(store, m', base, off, v), a)
    ensures forall a :: !Touches(base, off, StoreWidth(store), a) ==>
      Ld(StoreResult(store, m, base, off, v), a) == Ld(m, a)
  {
    hide Ld, St, Ea, B0, B1, B2, B3;
  }

  /** Legality carries over to registers that agree but for gp and tp. */
  lemma AllowedSame(t: Tables, i: Src, r: Regs, r': Regs)
    requires Supported(i) && Allowed(t, i, r) && forall x :: Free(x) ==> Rd(r, x) == Rd(r', x)
    ensures Allowed(t, i, r')
  {
    hide Rd, Ea, Scratch, InCheck, InRom, Touches, Clear;
    AllowedParts(i, r, r');
  }

  lemma AllowedParts(i: Src, r: Regs, r': Regs)
    requires Supported(i) && forall x :: Free(x) ==> Rd(r, x) == Rd(r', x)
    ensures Rd(r, SP) == Rd(r', SP)
    ensures forall a :: LoadsFrom(i, r, a) <==> LoadsFrom(i, r', a)
    ensures forall a :: StoresTo(i, r, a) <==> StoresTo(i, r', a)
  {
    hide Rd, Ea, Touches;
  }

  /** Straight-line expansions do what their instruction does. */
  lemma DataMatches(t: Tables, i: Src, s: State, next: Word, target: Word)
    requires Ready(t, s) && Supported(i) && Allowed(t, i, s.r) && !i.Branch? && !i.JumpLink? && !i.JumpReg?
    ensures Expand(t, i, next, target).exit == Next
    ensures Matches(t, Rd(s.r, SP), DataStep(i, s, next), Exec(Expand(t, i, next, target).body, s))
  {
    hide Ready, Allowed, Matches, DataStep, Exec, Rtype, Itype, ShiftByConstant, LoadCode, StoreCode, Rd, Supported;
    assert Expand(t, i, next, target) == Expand(t, i, next, next);
    match i
    case Load(_, _, _, _) => LoadMatches(t, i, s, next);
    case Store(_, _, _, _) => StoreIsMatched(t, i, s, next);
    case _ => Reg3Matches(t, i, s, next);
  }

  lemma StoreIsMatched(t: Tables, i: Src, s: State, next: Word)
    requires Supported(i) && i.Store?
    ensures Matches(t, Rd(s.r, SP), DataStep(i, s, next), Exec(Expand(t, i, next, next).body, s))
  {
    StoreMatches(t, i, s, next);
  }

  /** What a block must achieve for instruction i. */
  ghost predicate BlockOk(t: Tables, i: Src, s: State, next: Word, pc': Word, after: Cpu) {
    && after.pc == pc'
    && Matches(t, Rd(s.r, SP), DataStep(i, s, next), after.s)
  }

  lemma AlignedJump(a: Word)
    requires a % 4 == 0
    ensures JumpAddress(a, 0) == a
  {
    WrapSmall(a);
  }

  /** Jumping through a register that is not visible, after a branch. */
  lemma BranchBlock(t: Tables, i: Src, s: State, next: Word, target: Word, end: int)
    requires Ready(t, s) && Supported(i) && i.Branch? && next % 4 == 0 && target % 4 == 0
    ensures BlockOk(t, i, s, next, if Taken(i.cond, Rd(s.r, i.rs1), Rd(s.r, i.rs2)) then target else next,
                    AfterBlock(Expand(t, i, next, target), end, s))
  {
    hide Exec, Rd, Set, Ready, BranchCode, Taken, Flatten, JumpAddress, KeptOrCheck, Wrap;
    BranchRuns(t, i.cond, i.rs1, i.rs2, next, target, s);
    AlignedJump(next);
    AlignedJump(target);
  }

  lemma JumpLinkBlock(t: Tables, i: Src, s: State, next: Word, target: Word, pc: int)
    requires Supported(i) && i.JumpLink? && next == pc + 12 && target % 4 == 0
    ensures |Flatten(Expand(t, i, next, target))| == 3
    ensures BlockOk(t, i, s, next, target, AfterBlock(Expand(t, i, next, target), pc, s))
  {
    hide Exec, Rd, Set, JumpAddress, Ld, Scratch, InCheck, Wrap, Hi, Lo;
    AlignedJump(target);
    WrapSmall(next);
    LaRuns(TP, target, s);
    if i.rd != ZERO {
      LaRuns(i.rd, target, s);
    }
  }

  lemma JumpRegBlock(t: Tables, i: Src, s: State, next: Word, target: Word, pc: int)
    requires Supported(i) && i.JumpReg? && next == pc + 4
    ensures |Flatten(Expand(t, i, next, target))| == 1
    ensures BlockOk(t, i, s, next, JumpAddress(Rd(s.r, i.base), i.off), AfterBlock(Expand(t, i, next, target), pc, s))
  {
    hide Exec, Rd, Set, JumpAddress, Ld, Scratch, InCheck, Wrap;
    NoCode(s);
    WrapSmall(next);
  }

  /** The address that the machine must reach. */
  lemma NextAddress(im: Image, c: SrcState, b: State)
    requires c.k < |im.p| && InstrOk(im, c.k) && NextOf(im, c) <= |im.p|
    requires forall x :: Free(x) ==> Rd(c.s.r, x) == Rd(b.r, x)
    ensures Addr(im, NextOf(im, c)) ==
      match im.p[c.k]
      case Branch(cond, rs1, rs2, target) => Addr(im, if Taken(cond, Rd(b.r, rs1), Rd(b.r, rs2)) then target
        else c.k + 1)
      case JumpLink(_, target) => Addr(im, target)
      case JumpReg(_, base, off) => JumpAddress(Rd(b.r, base), off)
      case _ => Addr(im, c.k + 1)
  {
    hide Rd, Addr, Taken, JumpAddress;
  }

  lemma BlockCorrect(im: Image, c: SrcState, b: Cpu, d: iset<Word>)
    requires WellFormed(im) && Sim(im, c, b, d) && Legal(im, c, d)
    ensures im.org <= Addr(im, c.k + 1) < W32
    ensures NextOf(im, c) <= |im.p| && im.org <= Addr(im, NextOf(im, c)) < W32
    ensures BlockOk(im.t, im.p[c.k], b.s, Addr(im, c.k + 1), Addr(im, NextOf(im, c)),
      AfterBlock(BlockAt(im, c.k), b.pc, b.s))
  {
    hide Addr, Rd, Ld, AfterBlock, BlockOk, Loaded, DataStep, Matches, Exec, Allowed, Taken, Flatten, JumpAddress,
      Expand, NextOf, Start;
    var i, t := im.p[c.k], im.t;
    assert InstrOk(im, c.k);
    AddrWord(im, c.k);
    AddrWord(im, c.k + 1);
    AddrWord(im, TargetOf(i));
    AddrWord(im, NextOf(im, c));
    AllowedSame(t, i, c.s.r, b.s.r);
    ReadyOf(t, i, b.s);
    NextAddress(im, c, b.s);
    EndOf(im, c.k);
    var next, target := Addr(im, c.k + 1), Addr(im, TargetOf(i));
    match i
    case Branch(_, _, _, _) => BranchBlock(t, i, b.s, next, target, b.pc);
    case JumpLink(_, _) =>
      SizeSame(t, i, next, target);
      JumpLinkSize(t, i, next, target);
      JumpLinkBlock(t, i, b.s, next, target, b.pc);
    case JumpReg(_, _, _) =>
      JumpRegSize(t, i, next, target);
      JumpRegBlock(t, i, b.s, next, target, b.pc);
    case _ =>
      DataMatches(t, i, b.s, next, target);
      DataBlock(t, i, b.s, next, target, b.pc);
  }

  lemma JumpLinkSize(t: Tables, i: Src, next: Word, target: Word)
    requires i.JumpLink?
    ensures |Flatten(Expand(t, i, next, target))| == 3
  {
    hide Hi, Lo;
  }

  lemma JumpRegSize(t: Tables, i: Src, next: Word, target: Word)
    requires i.JumpReg?
    ensures |Flatten(Expand(t, i, next, target))| == 1
  {
  }

  lemma ReadyOf(t: Tables, i: Src, s: State)
    requires Placed(t) && Loaded(t, s.m) && Allowed(t, i, s.r)
    ensures Ready(t, s)
  {
  }

  /** A block ends where the next one starts. */
  lemma EndOf(im: Image, k: nat)
    requires WellFormed(im) && k < |im.p|
    ensures Addr(im, k) + 4 * |Flatten(BlockAt(im, k))| == Addr(im, k + 1)
  {
    hide Flatten, BlockAt, Start;
    BlockSize(im, k);
  }

  lemma DataBlock(t: Tables, i: Src, s: State, next: Word, target: Word, pc: int)
    requires Expand(t, i, next, target).exit == Next
    requires Matches(t, Rd(s.r, SP), DataStep(i, s, next), Exec(Expand(t, i, next, target).body, s))
    requires pc + 4 * |Flatten(Expand(t, i, next, target))| == next
    ensures BlockOk(t, i, s, next, next, AfterBlock(Expand(t, i, next, target), pc, s))
  {
    hide Matches, DataStep, Exec, Expand, Flatten, Rd;
    WrapSmall(next);
  }

  /** The tables survive every allowed step. */
  lemma LoadedAfter(t: Tables, i: Src, s: State, next: Word, s': State)
    requires Placed(t) && Loaded(t, s.m) && Allowed(t, i, s.r)
    requires Matches(t, Rd(s.r, SP), DataStep(i, s, next), s')
    ensures Loaded(t, s'.m)
  {
    hide Rd, Ld, Loaded, Scratch, InCheck, InRom, DataStep, Touches;
    StoresElsewhere(i, s, next);
    assert SameRom(t, s.m, s'.m);
    LoadedFrame(t, s.m, s'.m);
  }

  lemma StoresElsewhere(i: Src, s: State, next: Word)
    ensures forall a :: !StoresTo(i, s.r, a) ==> Ld(DataStep(i, s, next).m, a) == Ld(s.m, a)
  {
    hide Rd, Ld, Set, StoreResult, Touches, AluResult, LoadResult;
    match i
    case Store(store, rs, off, base) => StoreCongruence(store, s.m, s.m, Rd(s.r, base), off, Rd(s.r, rs), iset{});
    case _ =>
  }

  /** Both machines agree again after the step. */
  lemma SameAfter(im: Image, c: SrcState, b: State, d: iset<Word>, next: Word, b': State)
    requires c.k < |im.p| && Supported(im.p[c.k]) && SameState(c.s, b, d)
    requires forall a :: LoadsFrom(im.p[c.k], c.s.r, a) ==> a !in d
    requires Matches(im.t, Rd(b.r, SP), DataStep(im.p[c.k], b, next), b')
    ensures SameState(DataStep(im.p[c.k], c.s, next), b', Dirty(im, c, d))
  {
    hide Rd, Ld, Scratch, InCheck, DataStep, StoresTo, LoadsFrom, Supported;
    DataCongruence(im.p[c.k], c.s, b, d, next);
    assert Free(SP);
  }

  /** One step of the original is simulated by one block of base code. */
  lemma StepSimulates(im: Image, c: SrcState, b: Cpu, d: iset<Word>) returns (n: nat)
    requires WellFormed(im) && Sim(im, c, b, d) && Legal(im, c, d)
    ensures Sim(im, SrcStep(im, c), TextRun(TextOf(im), im.org, n, b), Dirty(im, c, d))
  {
    hide Rd, Ld, TextUpTo, BlockAt, AfterBlock, Loaded, DataStep, Matches, Allowed, NextOf, Flatten, TextRun, Dirty,
      Start, SameState,
      LoadsFrom, Supported, Placed;
    var i, t, text := im.p[c.k], im.t, TextOf(im);
    assert InstrOk(im, c.k);
    BlockCorrect(im, c, b, d);
    var blk := BlockAt(im, c.k);
    n := |Flatten(blk)|;
    TextLength(im, |im.p|);
    BlockPlaced(im, c.k, |im.p|);
    BlockRuns(text, im.org, Start(im, c.k), blk, b.s);
    var after := AfterBlock(blk, b.pc, b.s);
    assert TextRun(text, im.org, n, b) == after;
    WrapSmall(Addr(im, c.k + 1));
    AllowedOf(im, c, b, d);
    LoadedAfter(t, i, b.s, Addr(im, c.k + 1), after.s);
    SameAfter(im, c, b.s, d, Addr(im, c.k + 1), after.s);
  }

  lemma AllowedOf(im: Image, c: SrcState, b: Cpu, d: iset<Word>)
    requires WellFormed(im) && Sim(im, c, b, d) && Legal(im, c, d)
    ensures Allowed(im.t, im.p[c.k], b.s.r)
  {
    hide Rd, Ld, Loaded, Allowed, NextOf;
    assert InstrOk(im, c.k);
    AllowedSame(im.t, im.p[c.k], c.s.r, b.s.r);
  }

  /** Every legal run of the original program is simulated, step for step, by
      the rewritten program on the base machine. */
  lemma {:induction false} RunSimulates(im: Image, n: nat, c: SrcState, b: Cpu, d: iset<Word>) returns (m: nat)
    requires WellFormed(im) && Sim(im, c, b, d) && LegalRun(im, n, c, d)
    ensures Sim(im, SrcRun(im, n, c), TextRun(TextOf(im), im.org, m, b), DirtyRun(im, n, c, d))
    decreases n
  {
    hide WellFormed, Sim, Legal, Dirty, SrcStep, TextOf;
    if n == 0 {
      m := 0;
    } else {
      var first := StepSimulates(im, c, b, d);
      var b1 := TextRun(TextOf(im), im.org, first, b);
      var rest := RunSimulates(im, n - 1, SrcStep(im, c), b1, Dirty(im, c, d));
      m := first + rest;
      TextRunAdd(TextOf(im), im.org, first, rest, b);
    }
  }

  /** From a common start: the same pc, the same registers but gp and tp, and
      the same memory except where a scratch word or the check array was. */
  lemma RewritePreserves(im: Image, n: nat, s: State) returns (m: nat)
    requires WellFormed(im) && Loaded(im.t, s.m) && LegalRun(im, n, SrcState(0, s), iset{})
    ensures var c, b, d := SrcRun(im, n, SrcState(0, s)), TextRun(TextOf(im), im.org, m, Cpu(im.org, s)),
        DirtyRun(im, n, SrcState(0, s), iset{});
      && c.k <= |im.p| && b.pc == Addr(im, c.k)
      && (forall x :: x != GP && x != TP ==> Rd(b.s.r, x) == Rd(c.s.r, x))
      && (forall a :: a !in d ==> Ld(b.s.m, a) == Ld(c.s.m, a))
  {
    hide WellFormed, LegalRun, DirtyRun, Rd, Ld, Loaded, TextOf, Supported;
    m := RunSimulates(im, n, SrcState(0, s), Cpu(im.org, s), iset{});
  }
}
