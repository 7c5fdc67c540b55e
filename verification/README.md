# Proofs for the abstract machine's hard parts

This project models, in Dafny 4.11, the parts of the hardware abstraction layer and
its small C library whose correctness is not visible from one function, and proves
what each of them is for. `dafny verify dfyconfig.toml` checks all of it.

- **x86 page tables** (`Bits`, `PageTree`, `MmuConfig`, `PtWalk`, `AddressSpace`,
  `Boot64`, `KernelCount`, `Vme`, `VmeRun`). Both configurations, 32-bit two-level and x86_64
  four-level, are instances of one parameter. The class `Vme` holds the memory of
  table pages, the client's pool of free pages and the kernel's tables; its methods
  are `pgallocz`, `ptwalk`, `vme_init`, `protect`, `map`, `teardown` and
  `unprotect`. Translation is the processor's walk (Intel SDM Volume 3A, sections
  4.3 and 4.5) over the same memory. Panics are the result `false` (or `None`), and
  `ensures ok <==> ...` says exactly when a call panics. `VmeRun` states whole runs
  against a model that has no memory, only the number of free pages and, for each
  address space, its page map and the set of index paths that have a table; this
  model predicts every translation and every panic.
- **The rvmini rewriter** (the `Rv*` files). A base machine with seven straight-line
  instructions and `jalr`; RV32I (sections 2.4 to 2.6 of the RISC-V Unprivileged
  ISA, 20191213); every macro as a function from operands to base code; the tables
  and the program that generates them; and a simulation proof for whole programs
  with their layout, branches and indirect jumps. A byte may differ between the two
  runs only while it is *dirty*: written as scratch below some earlier sp, or in the
  check array, and not stored to since. The program may read no dirty byte, which is
  the header's assumption that the stack below sp is dead, made exact.
- **Software arithmetic** (`Machine32`, `CountZeros`, `UDivMod`, `SignedDiv`,
  `SoftMul`, `QuotientDigits`, `DivLoops`). The C and assembly loops as methods on
  words of the source's width; the libgcc routines for every register width.
- **Native virtual memory** (`NativeVme`, `NativeRun`): the linked list, the hash, and
  the host's mappings on one CPU, per call and over whole runs.
- **Concurrent protocols**: the HTIF mailbox under its spinlock (`Htif`), the start
  of the application processors (`Bringup`), and traps and context switches on x86
  (`Trap32`, `TrapRun`).
- **Smaller loops**: the boot loader (`Loader`) and the ELF files it reads
  (`ElfImage`), formatted output and `atoi` (`Format`), and word-at-a-time `memchr`
  (`MemSearch`).

Two modelling conventions. Words are integers with explicit wrap-around. Page-table
words are assembled with `+` where the source writes `|`: the operands have no
common bits, and `Bits.OrDisjoint`, `Bits.AndField` and `AddressSpaceFacts.WriteBit`
connect the two. A method that the source writes as one function is sometimes cut
in two or three for the proofs (`DivideByHigh` and its neighbours are the branches
of `__udivmoddi4`); the whole is then the method under the source's name.

## Findings

Inputs on which the code does not do what its callers would expect; each comes with
the exact condition under which it does.

- `seqz s0, rs` keeps the old value of s0, because the macro restores s0 after it
  has written its result; `seq` fails likewise for s0 and s1
  (`RvEqual.SeqzExact`, `RvEqual.SeqExact`, `RvData.SetZeroExact`).
- The boot loader takes a file offset of 2^31 or more as negative, and reads other
  sectors; a segment whose file bytes end less than a sector below 2^32, or beyond
  it, is not loaded, and in the first case the loop does not end
  (`Loader.OffsetExact`, `Loader.CopyExact`).
- Mapping an address twice in one native address space makes its list cyclic
  (`NativeVme.Native.Map`).
- The frame move of the kernel return path destroys some frame contents when the
  new stack pointer lies inside the lower part of the frame (`Trap32.MoveExact`,
  `Trap32.MoveFails`).
- A 32-bit trap does not save es: the return loads it from the saved ds, so the
  interrupted code gets es back exactly when it was equal to ds
  (`Trap32.RestoresSnapshot`).
- The quotient INT64_MIN / -1 wraps, and is the only one that does
  (`SignedDiv.DivOverflow`).

## Model

| member | source | states |
|---|---|---|
| `MmuConfig.ConfigsAreGood` | am/src/x86/qemu/vme.c:3-33 | both configurations cut an address into equal index fields above the page offset, and user and kernel areas are whole, disjoint level-1 entries |
| `MmuConfig.IndexIsField` | am/src/x86/qemu/vme.c:49-51 | masking and shifting selects the index digit of the address |
| `MmuConfig.PathInjective` | am/src/x86/qemu/vme.c:57-64 | two page addresses with the same list of indices are the same page |
| `MmuConfig.KernelByIndex` | am/src/x86/qemu/vme.c:24-33 | whether an address belongs to the kernel is decided by its level-1 index alone |
| `PageTree.WalkTree` | am/src/x86/qemu/vme.c:57-75 | the processor's walk through tables of the kept shape gives exactly the leaf entry stored for the address, and nothing where a table is missing |
| `PageTree.Grow` | am/src/x86/qemu/vme.c:66-68 | linking one zeroed table keeps the shape of the tree and every existing leaf |
| `PageTree.SetLeaf` | am/src/x86/qemu/vme.c:149-153 | writing one leaf keeps the shape and changes that leaf only |
| `PageTree.WalkFrame` | am/src/x86/qemu/vme.c:57-75 | a walk reads only the pages of its own tree |
| `PtWalkFacts.GrewOne` | am/src/x86/qemu/vme.c:66-72 | each iteration of ptwalk that allocates adds exactly the one missing table on the way, from the pool |
| `PtWalkFacts.MissingCount` | am/src/x86/qemu/vme.c:57-72 | the tables that a walk allocates are the prefixes of its index path that have none |
| `Vme.Vme.Pgallocz` | am/src/x86/qemu/vme.c:40-47 | takes one page off the pool and returns it zeroed, or fails exactly on an empty pool |
| `Vme.Vme.PtWalk` | am/src/x86/qemu/vme.c:57-75 | returns the last-level slot of the address, allocates exactly the tables missing on its way and as many pages, keeps every mapping, and fails exactly when the pool is too small; a second walk allocates nothing |
| `Vme.Vme.WalkUser` | am/src/x86/qemu/vme.c:146-146 | the same for a user page of one space among many: no translation of any space changes |
| `Vme.Vme.Map` | am/src/x86/qemu/vme.c:141-156 | succeeds exactly when no panic is due, and then changes the translation of va in this space only, to (pa, writable iff MMAP_WRITE, user) or to nothing |
| `Vme.Vme.MapAt` | am/src/x86/qemu/vme.c:147-155 | the entry is written once, and the trailing ptwalk allocates nothing and changes nothing |
| `AddressSpaceFacts.WriteBit` | am/src/x86/qemu/vme.c:152-152 | prot & MMAP_WRITE is the second bit of prot |
| `AddressSpaceFacts.ViewSplit` | am/src/x86/qemu/vme.c:117-135 | an address space translates kernel addresses as the kernel's tables do and others as its own leaves say |
| `AddressSpaceFacts.AfterWalk` | am/src/x86/qemu/vme.c:57-75 | growing one tree keeps the whole forest: disjoint trees, the ledger, every space's view |
| `AddressSpaceFacts.AfterWrite` | am/src/x86/qemu/vme.c:149-153 | a leaf write keeps the forest and changes one translation of one space |
| `AddressSpaceFacts.LedgerGrow` | am/src/x86/qemu/vme.c:57-75 | every table page in use belongs to exactly one tree, also after growth |
| `Vme.Vme.Protect` | am/src/x86/qemu/vme.c:117-135 | a new space translates every kernel page to itself, writable and not user, and no user page; its area holds exactly the user addresses and its pgsize is the page size; every other space is unchanged |
| `Vme.Vme.CopyKernelEntries` | am/src/x86/qemu/vme.c:120-131 | the loops whose end wraps to 0 stop, and copy exactly the level-1 entries of the kernel areas |
| `Vme.Vme.Teardown` | am/src/x86/qemu/vme.c:77-87 | frees exactly the tables below its argument, each once and children before parents |
| `Vme.Vme.Unprotect` | am/src/x86/qemu/vme.c:137-139 | frees exactly the pages of this space's own tables, no kernel table and no mapped page, and changes no other space |
| `AddressSpaceFacts.TeardownEntry` | am/src/x86/qemu/vme.c:80-82 | the present-and-user test follows an entry exactly when a table of this space is below it |
| `AddressSpaceFacts.LedgerDrop` | am/src/x86/qemu/vme.c:137-139 | the ledger holds after a space is torn down |
| `Vme.Vme.VmeInit` | am/src/x86/qemu/vme.c:89-115 | the kernel's tables are set up; succeeds always on x86_64, else exactly when the pool holds as many pages as the kernel pages have tables on their way, and takes that many |
| `Vme.Vme.MapKernel` | am/src/x86/qemu/vme.c:97-109 | every page of every kernel area is mapped to itself, the tables built are exactly those on the way to these pages, and the call fails exactly when the pool has fewer pages |
| `Vme.Vme.MapArea` | am/src/x86/qemu/vme.c:102-106 | the loop over an area visits each of its pages once, in order, and stops although the end may be 0 |
| `KernelCount.CountFails` | am/src/x86/qemu/vme.c:97-109 | when ptwalk runs out of pages in one of these loops, the kernel needs more pages than there were |
| `KernelCount.Kernel32` | am/src/x86/qemu/vme.c:28-32 | the 32-bit kernel areas need 269 tables: a root and one for each of 268 level-1 entries |
| `AddressSpaceFacts.AreaLoop` | am/src/x86/qemu/vme.c:102-104 | the `!=` test with wrap-around ends exactly at the end of the area |
| `Boot64.BootIsKernelTree` | am/src/x86/qemu/start64.S:7-29 | the boot code's 1 GiB pages are a kernel tree for the x86_64 configuration |
| `VmeRun.Step` | am/src/x86/qemu/vme.c:117-156 | a call panics exactly when the model says so, and else does to translations, tables and free pages what it does to the model; a refused call changes no translation; no page is lost |
| `VmeRun.Run` | am/src/x86/qemu/vme.c:117-156 | over every legal run the calls that return are exactly those before the model's first panic, the tables translate every page of every space as the maps say, and allocated plus free pages are what they were |
| `VmeRun.AreaIsAccepted` | am/src/x86/qemu/vme.c:132-133 | after every run, map on a page of the area that protect gave the space panics only for want of pages or because of what is mapped there, never for the address |
| `VmeRun.StopsAtPanic` | am/src/x86/qemu/vme.c:141-156 | the first call that does not return is one that panics |
| `VmeRun.NothingLeaks` | am/src/x86/qemu/vme.c:137-139 | once every space is torn down only the kernel's tables are in use |
| `VmeRun.RunFromBoot` | am/src/x86/qemu/vme.c:89-156 | the same from the boot state and any pool, in both configurations: vme_init needs 269 pages on 32 bits and none on x86_64 |
| `RvBasics.LaRuns` | tools/rvmini/inst-replace.h:603-606 | lui with %hi and addi with %lo give the whole address |
| `RvBasics.MsbRuns` | tools/rvmini/inst-replace.h:115-124 | msb extracts the sign bit through a scratch word |
| `RvArith.NotRuns` | tools/rvmini/inst-replace.h:626-654 | not complements every bit, by the xor table |
| `RvArith.SubRuns` | tools/rvmini/inst-replace.h:108-113 | sub is exact modulo 2^32 |
| `RvCompare.SltTemplateRuns` | tools/rvmini/inst-replace.h:126-151 | slt_template looks up the three signs and restores s0 and s1, for any operands |
| `RvCompare.SltDecides` | tools/rvmini/inst-replace.h:51-65 | both sign tables decide their comparison for every pair of words |
| `RvCompare.SltRuns` | tools/rvmini/inst-replace.h:126-161 | slt and sltu are right for every pair of words |
| `RvLogic.BytewiseLogic` | tools/rvmini/inst-replace.h:163-203 | four byte results are the word result of and, or, xor |
| `RvLogic.LogicRuns` | tools/rvmini/inst-replace.h:163-208 | and, or and xor through their byte tables, nothing for x0 |
| `RvEqual.SeqRuns` | tools/rvmini/inst-replace.h:211-245 | seq sets rd to whether the words are equal, whatever the check array held, for every rd but sp, s0 and s1; s0 and s1 keep their old values |
| `RvEqual.SeqzRuns` | tools/rvmini/inst-replace.h:247-271 | seqz sets rd to whether the word is zero for every rd but sp and s0; s0 keeps its old value |
| `RvEqual.SeqzExact` | tools/rvmini/inst-replace.h:247-271 | seqz is right in every state exactly for the destinations other than s0 |
| `RvEqual.SeqExact` | tools/rvmini/inst-replace.h:224-245 | seq is right in every state exactly for the destinations other than s0 and s1 |
| `RvShift.GetShamtRuns` | tools/rvmini/inst-replace.h:382-388 | the shift amount is the operand modulo 32 |
| `RvShift.SllSum` | tools/rvmini/inst-replace.h:397-428 | the four shifted bytes add up modulo 2^32, in the order the macro adds them |
| `RvShift.SllRuns` | tools/rvmini/inst-replace.h:397-428 | sll is the exact shift for every operand and amount |
| `RvShiftMath.MixFetched` | tools/rvmini/inst-replace.h:481-500 | the bytes picked out of the table words occupy disjoint bits, so adding them never carries |
| `RvShiftMath.SrlWord` | tools/rvmini/inst-replace.h:461-510 | the mixed bytes and the top entry are the unsigned quotient by 2^amount |
| `RvShiftMath.SraWord` | tools/rvmini/inst-replace.h:461-510 | with the arithmetic table for the top byte they are the signed quotient, rounded down |
| `RvShiftRight.ShiftRightRuns` | tools/rvmini/inst-replace.h:430-521 | srl and sra are exact for every operand and amount |
| `RvShiftRight.ShiftRightImmRuns` | tools/rvmini/inst-replace.h:430-560 | srli and srai too, with their short forms for 24 |
| `RvAccess.SlliRuns` | tools/rvmini/inst-replace.h:524-550 | slli by any constant, through doubling, sb or sh |
| `RvAccess.LbRuns` | tools/rvmini/inst-replace.h:568-574 | lb loads and sign-extends a byte |
| `RvAccess.LhRuns` | tools/rvmini/inst-replace.h:585-593 | lh loads and sign-extends two bytes, at any alignment |
| `RvAccess.LhuRuns` | tools/rvmini/inst-replace.h:576-583 | lhu loads two bytes |
| `RvAccess.ShRuns` | tools/rvmini/inst-replace.h:595-599 | sh stores the two low bytes and changes scratch besides |
| `RvData.RtypeRuns` | tools/rvmini/inst-replace.h:108-521 | every register-register macro computes its RV32I result and changes only rd, tp, gp and scratch |
| `RvData.ItypeRuns` | tools/rvmini/inst-replace.h:82-87 | the immediate forms that go through tp |
| `RvData.SetZeroExact` | tools/rvmini/inst-replace.h:247-271 | the expansion of seqz means the same as the instruction in every state exactly when its operands are among those the program may use |
| `RvData.LoadMatches` | tools/rvmini/inst-replace.h:568-593 | every load, given that it reads no scratch byte |
| `RvData.StoreMatches` | tools/rvmini/inst-replace.h:595-599 | every store, wherever it goes |
| `RvData.CompareRuns` | tools/rvmini/inst-replace.h:297-380 | the test before each branch, with the short forms against x0 |
| `RvData.BranchSelectRuns` | tools/rvmini/inst-replace.h:275-294 | branch_resolve picks the word that tp selects |
| `RvData.BranchRuns` | tools/rvmini/inst-replace.h:275-380 | each branch ends with the target in tp when it is taken, else with the next address |
| `RvProgram.BlockCorrect` | tools/rvmini/inst-replace.h:90-105 | the block of each instruction, with its jump, reaches the address the original reaches and leaves the link address |
| `RvProgram.StepSimulates` | tools/rvmini/inst-replace.h:1-25 | one step of the original is one block of base code: same pc, same registers but gp and tp, same memory outside dirty bytes, tables intact |
| `RvProgram.RunSimulates` | tools/rvmini/inst-replace.h:1-25 | the same for every number of steps |
| `RvProgram.RewritePreserves` | tools/rvmini/inst-replace.h:1-25 | from a common start the rewritten program preserves the meaning of every legal run |
| `RvTables.LoadedFrame` | tools/rvmini/inst-replace.h:39-80 | memory that agrees on the constant tables still holds them |
| `RvTablesFile.LutFile.GenTable` | tools/rvmini/gen-lut.c:10-17 | the nested loops append one whole table and keep those before it |
| `RvTablesFile.LutFile.Generate` | tools/rvmini/gen-lut.c:19-24 | the file holds the six tables at the offsets the macros use |
| `RvTablesFile.LutLoads` | tools/rvmini/inst-replace.h:70-80 | the file placed at _logic_shift_table is what the expansions assume |
| `CountZeros.Clzsi2` | klib/src/int64.c:626-655 | the exact number of leading zeros, and 32 for 0 |
| `CountZeros.Ctzsi2` | klib/src/int64.c:661-694 | the exact number of trailing zeros, and 32 for 0 |
| `CountZeros.Ctzdi2` | klib/src/int64.c:703-709 | the same on 64 bits, by a mask that picks the word |
| `CountZeros.Clzdi2` | klib/src/int64.c:711-717 | the same on 64 bits, by a mask that picks the word |
| `UDivMod.LoopStep` | klib/src/int64.c:598-615 | one pass keeps r < d and the division of the bits seen so far, for every divisor the setup admits |
| `UDivMod.MaskTest` | klib/src/int64.c:612-614 | the sign of d - r - 1 is a sound comparison also for d >= 2^63, and r never overflows |
| `UDivMod.ShiftSubtract` | klib/src/int64.c:597-619 | the loop and the final shift give quotient and remainder |
| `UDivMod.PowerTest` | klib/src/int64.c:477-477 | x & (x - 1) is zero exactly for powers of two |
| `UDivMod.ShiftShort` | klib/src/int64.c:502-506 | the half-word shifts place n >> sr in r and the rest of n left-aligned in q |
| `UDivMod.ShiftLong` | klib/src/int64.c:552-556 | the same for shifts beyond a word |
| `UDivMod.DivideByHigh` | klib/src/int64.c:446-507 | the branches for a divisor without low word |
| `UDivMod.DivideByLow` | klib/src/int64.c:510-558 | the branches for a divisor without high word |
| `UDivMod.DivideByBoth` | klib/src/int64.c:559-589 | the branches for a divisor with both words |
| `UDivMod.Udivmoddi4` | klib/src/int64.c:412-620 | a / b and a % b for every 64-bit a and nonzero b |
| `SignedDiv.TruncMeans` | klib/src/int64.c:355-390 | what truncation toward zero means, against which the wrappers are proved |
| `SignedDiv.Divdi3` | klib/src/int64.c:355-366 | the truncated quotient, wrapped to 64 bits |
| `SignedDiv.DivOverflow` | klib/src/int64.c:355-366 | the quotient wraps exactly for INT64_MIN / -1, to INT64_MIN |
| `SignedDiv.Moddi3` | klib/src/int64.c:380-390 | the remainder, with the sign of the dividend |
| `SignedDiv.Divmoddi4` | klib/src/int64.c:370-376 | both, the remainder by multiplying back |
| `SoftMul.Mulsi3` | am/src/riscv/npc/libgcc/muldi3.S:36-48 | the shift-add loop gives the product modulo the register width, also for a zero multiplier |
| `SoftMul.FourProducts` | am/src/riscv/npc/libgcc/longlong.h:1090-1101 | the four half products with their carry are the double-word product |
| `SoftMul.UmulPpmm` | am/src/riscv/npc/libgcc/longlong.h:1080-1102 | the exact double-word product |
| `SoftMul.LowProduct` | am/src/riscv/npc/libgcc/multi3.c:58-77 | the do-while loop keeps the exact product of the bits seen so far and loses no carry |
| `SoftMul.CrossTerms` | am/src/riscv/npc/libgcc/multi3.c:79-85 | the cross terms complete the product modulo the double width |
| `SoftMul.Multi3` | am/src/riscv/npc/libgcc/multi3.c:40-86 | the product modulo the double width |
| `SoftMul.LowProductAgrees` | am/src/riscv/npc/libgcc/multi3.c:58-77 | the loop and umul_ppmm give the same two words |
| `QuotientDigits.EstimateBounds` | am/src/riscv/npc/libgcc/longlong.h:1688-1691 | the product with the estimate fits a word, and the estimate divides up to its remainder |
| `QuotientDigits.Digit` | am/src/riscv/npc/libgcc/longlong.h:1688-1699 | one digit: the estimate is at most two too large, the wrap test decides the second correction, and the subtraction comes out exact |
| `QuotientDigits.UdivQrnnd` | am/src/riscv/npc/libgcc/longlong.h:1681-1716 | q * d + r = n1 * W + n0 with r < d |
| `DivLoops.Align` | am/src/riscv/npc/libgcc/div.S:78-84 | the aligning loop ends with a2 = d * a3 and a1 < 2 * a2 |
| `DivLoops.Subtract` | am/src/riscv/npc/libgcc/div.S:85-95 | the subtracting loop keeps a0 * d + a1 and ends with a1 < d |
| `DivLoops.Udiv` | am/src/riscv/npc/libgcc/div.S:73-97 | quotient and remainder, all ones and the dividend for a zero divisor |
| `DivLoops.Umod` | am/src/riscv/npc/libgcc/div.S:100-106 | the remainder, or the dividend for a zero divisor |
| `DivLoops.Div` | am/src/riscv/npc/libgcc/div.S:68-123 | section 7.2 of the RISC-V Unprivileged ISA: toward zero, all ones for a zero divisor, the most negative number for its overflow |
| `DivLoops.Rem` | am/src/riscv/npc/libgcc/div.S:125-141 | the remainder of the same division: the dividend for a zero divisor, 0 for the overflow |
| `NativeVme.Native.Protect` | am/src/native/vme.c:37-49 | a new space without pages |
| `NativeVme.Native.Map` | am/src/native/vme.c:85-121 | the invariants hold afterwards if and only if va had no page: then the space has this one page more, no other space changes, and the host follows a current space; else the list is a ring |
| `NativeVme.VMHead.Link` | am/src/native/vme.c:96-114 | what happens to list and hash in both cases |
| `NativeVme.RingIsEndless` | am/src/native/vme.c:113-114 | a ring is no finite list |
| `NativeVme.VMHead.UnmapAll` | am/src/native/vme.c:63-68 | drops every host mapping of the old space |
| `NativeVme.VMHead.MapAll` | am/src/native/vme.c:73-77 | maps every page of the new space |
| `NativeVme.Native.Switch` | am/src/native/vme.c:54-83 | the host's user mappings become those of the new space, is_mapped is set exactly there, and no space changes |
| `NativeRun.Step` | am/src/native/vme.c:37-121 | each call does to the list, the hash and the host what it does to plain maps |
| `NativeRun.Run` | am/src/native/vme.c:37-121 | over every run in which no address is mapped twice in a space: the invariants hold, each list and hash is the table the calls describe, and the host's user mappings are those of the current space |
| `NativeRun.RunFromInit` | am/src/native/vme.c:23-121 | the same from vme_init |
| `Htif.HolderStep` | am/src/riscv/spike/htif.c:19-81 | every step inside the critical section keeps the mailbox invariant |
| `Htif.HostTakesCore` | am/src/riscv/spike/htif.c:39-44 | the host taking a command keeps it |
| `Htif.HostRepliesCore` | am/src/riscv/spike/htif.c:19-37 | the host replying into an empty fromhost keeps it |
| `Htif.NextInv` | am/src/riscv/spike/atomic.h:43-63 | every step of any hart or the host keeps it, with one owner of the lock |
| `Htif.RunSafe` | am/src/riscv/spike/htif.c:19-103 | over all interleavings: mutual exclusion, no lost command, at most one console read, no failed assertion, and each byte returned once and in order |
| `Htif.RunServes` | am/src/riscv/spike/htif.c:46-103 | over all interleavings: the commands sent, with the one about to be sent, are those of the putchar and syscall calls with their arguments, in the order in which the calls took the lock; every getchar returns one less than it read from the buffer, returns a byte that was already delivered when it took the lock, and asks for the next one exactly when it takes a value |
| `Htif.SendsIntoEmpty` | am/src/riscv/spike/htif.c:39-44 | whoever is about to write tohost finds it empty |
| `Bringup.NextInv` | am/src/x86/qemu/mpe.c:12-30 | every step keeps the order of starts and acknowledgements |
| `Bringup.BringupSafe` | am/src/x86/qemu/mpe.c:12-34 | one processor at a time is starting, each is started once and takes the is_ap path, and the boot CPU enters only after every other CPU has initialized and acknowledged |
| `Bringup.StepLowers` | am/src/x86/qemu/mpe.c:12-34 | every step of any processor lowers a rank, or is a poll that finds ap_ready still 0 |
| `Bringup.BringupEnters` | am/src/x86/qemu/mpe.c:12-34 | from every state of every run some continuation brings all processors into user_entry, and steps so far and to come are fewer than 8 for each processor, polls apart |
| `Bringup.AcknowledgedInTurn` | am/src/x86/qemu/mpe.c:18-20 | ap_ready is set only by the processor that is waited for, after its own initialization |
| `Trap32.Machine.Trap` | am/src/x86/qemu/trap32.S:10-33 | the interrupted registers end up in a Context on the kernel stack, followed by the number and the error code of this trap; the handler runs on the kernel's segments; nothing outside the frame is written |
| `Trap32.Machine.SaveRest` | am/src/x86/qemu/cte.c:35-43 | the fields that the handler fills in, with the stack pointer of both rings |
| `Trap32.RestoresSnapshot` | am/src/x86/qemu/trap32.S:13-33 | returning to what a trap saved gives back every register but es, which becomes ds |
| `Trap32.MoveExact` | am/src/x86/qemu/trap32.S:77-85 | the frame move is right for every frame content exactly when the destination does not start inside the lower part of the source |
| `Trap32.MoveFails` | am/src/x86/qemu/trap32.S:80-85 | a frame content that the move destroys in the other case |
| `Trap32.Machine.KernelIret` | am/src/x86/qemu/trap32.S:59-92 | registers and stack pointer of a ring 0 context, with six words written below its stack pointer |
| `Trap32.Machine.UserIret` | am/src/x86/qemu/trap32.S:48-57 | registers and stack pointer of a ring 3 context |
| `Trap32.Machine.Iret` | am/src/x86/qemu/trap32.S:34-92 | both paths |
| `Trap32.Machine.Resume` | am/src/x86/qemu/cte.c:95-105 | address space and kernel stack follow the context, unless it has none |
| `TrapRun.KContextStarts` | am/src/x86/qemu/cte.c:138-159 | a kcontext frame, although it overlaps its destination, can be returned to: argument and entry, zeros otherwise, and no address space |
| `TrapRun.MakeContextAt` | am/src/x86/qemu/cte.c:138-159 | the assignments of kcontext leave this frame in memory, and write nothing else |
| `TrapRun.StartThread` | am/src/x86/qemu/cte.c:95-105 | returning to the frame: every register of the new thread, while cr3 and esp0 stay as they are |
| `TrapRun.NewThreadInherits` | am/src/x86/qemu/cte.c:97-103 | over every run, a thread without address space runs first in that of the thread it is switched to from, with the registers it was made with |
| `TrapRun.Threads.KernelThread` | am/src/x86/qemu/cte.c:138-159 | what kcontext left on a stack is such a thread |
| `TrapRun.MakeUserContext` | am/src/x86/qemu/vme.c:158-181 | the assignments of ucontext leave its frame in memory, and write nothing else |
| `TrapRun.StartUser` | am/src/x86/qemu/cte.c:95-105 | returning to it: ring 3 at the entry point, in the program's address space, with its next trap on top of its kernel stack |
| `TrapRun.Threads.Enter` | am/src/x86/qemu/trap32.S:10-33 | every handler of a run is given the number and error code of the trap that was taken, runs on the kernel's segments, and finds every thread suspended |
| `TrapRun.Threads.DoSwitch` | am/src/x86/qemu/cte.c:92-105 | whatever live context the handler chooses, its thread has its registers, its address space and its kernel stack pointer back, and the interrupted one is saved |
| `TrapRun.Threads.Run` | am/src/x86/qemu/trap32.S:10-92 | over any sequence of traps every thread behaves as if it had registers, address space and kernel stack pointer of its own, and the handlers saw the traps that were taken |
| `TrapRun.SpaceStays` | am/src/x86/qemu/cte.c:95-103 | a thread that has an address space keeps it over every sequence of traps |
| `Loader.Machine.CopyFromDisk` | am/src/x86/qemu/boot/main.c:26-32 | exactly the sectors that cover the range are read, each byte to its place, in 32-bit arithmetic |
| `Loader.OffsetExact` | am/src/x86/qemu/boot/main.c:26-29 | the conversion of the offset to int finds the segment's sector exactly for offsets below 2^31 |
| `Loader.CopyExact` | am/src/x86/qemu/boot/main.c:27-31 | the loop ends with the whole range read exactly when the range ends at least a sector below 2^32, and never ends when it ends in the last sector |
| `Loader.Machine.LoadProgram` | am/src/x86/qemu/boot/main.c:34-40 | file bytes on [paddr, paddr + filesz) and zeros up to memsz |
| `Loader.Machine.LoadElf` | am/src/x86/qemu/boot/main.c:42-64 | after all segments every one of them is loaded, and nothing outside their spans has changed |
| `Loader.Machine.LoadKernel` | am/src/x86/qemu/boot/main.c:66-90 | the argument sectors (offset -1024), every segment of the header page, and its entry point; nothing is loaded again for another processor |
| `ElfImage.PhdrRead` | am/src/x86/qemu/boot/main.c:42-64 | from an Elf32_Phdr or Elf64_Phdr in memory, encoded field by field, the loader reads p_filesz, p_memsz, p_paddr and p_offset modulo 2^32 |
| `ElfImage.ReadsBack` | am/src/x86/qemu/boot/main.c:42-64 | from an encoded header page the loader reads back the entry point, the number of program headers and each one's segment; e_machine decides the format |
| `ElfImage.LoadableIsGood` | am/src/x86/qemu/boot/main.c:66-90 | a file whose segments have their place, given as a list, is one that load_kernel can handle |
| `ElfImage.LoadImage` | am/src/x86/qemu/boot/main.c:66-90 | load_kernel on a disk with an encoded file: it goes to the file's entry point, the arguments are in place, and for every program header the file's bytes stand at p_paddr with zeros up to p_memsz |
| `Loader.ArgsLoaded` | am/src/x86/qemu/boot/main.c:72-73 | offset -1024 reads the two sectors after the boot sector |
| `Format.Int2Str` | klib/src/stdio.c:12-46 | the first n characters of the decimal form of every int, INT_MIN included |
| `Format.SignedInverts` | klib/src/stdio.c:12-46 | the decimal form reads back as the number, starts with a minus sign exactly for negative numbers, and has no leading zero |
| `Format.Vsnprintf` | klib/src/stdio.c:82-136 | the first n - 1 bytes of the unbounded expansion or all of it, a NUL, the count, and no write elsewhere |
| `Format.ExpandConcat` | klib/src/stdio.c:88-133 | two formats in a row expand to their expansions in a row, the second with the arguments that the first leaves |
| `Format.ExpandText` | klib/src/stdio.c:127-131 | text without a percent sign expands to itself |
| `Format.ExpandOne` | klib/src/stdio.c:90-124 | %s gives its argument, %d digits that read back as its argument, %c the one byte that agrees with it modulo 256, and %% a percent sign |
| `Format.Atoi` | klib/src/stdlib.c:24-32 | the value of the digits after the leading spaces |
| `Format.AtoiInverts` | klib/src/stdlib.c:24-32 | atoi inverts the decimal form of every non-negative int |
| `MemSearch.HasZeroExact` | klib/src/stdlib.c:60-64 | HASZERO is nonzero exactly when some byte is zero |
| `MemSearch.OnesAre` | klib/src/stdlib.c:62-63 | the constants computed by division and products are repeated bytes |
| `MemSearch.XorFinds` | klib/src/stdlib.c:75-76 | the word test finds exactly the words that hold the byte |
| `MemSearch.Memchr` | klib/src/stdlib.c:66-82 | the first index that holds the byte or none, for any alignment and word size, reading only inside the buffer |

## Left out

- Vme.Vme.Protect: requires that the space is not protected already; the source overwrites its root and leaks the tables.
- Vme.Vme.Map: a panic is a `false` result; when ptwalk panics for lack of memory, tables linked before stay linked, as in the source.
- VmeRun.Run: says nothing of a run after a call that panicked, because the source does not return from a panic.
- Boot64.BootIsKernelTree: takes the 511 entries of the PML4 page that start64.S does not write as zero, an assumption about memory at start-up.
- Pages handed out by the client's allocator are an arbitrary choice from a pool of page-aligned pages apart from the tables in use; the size argument is always one page.
- cr0, the TLB and set_cr3 themselves; the processor's walk is taken at the moment it happens. The 64-bit trap path is not modelled.
- RvProgram.RewritePreserves: the text is not data (no self-modifying code), offsets and immediates are not limited to twelve bits, and an assembler's own encoding limits (for example for `1 + off`) are not restated.
- Of the rvmini pseudo-instructions only those that expand into others of the same file (neg, snez, sgt, beqz, ...) and `tail` are not separate source instructions; seqz is one, but seq has no RV32I instruction; the program's instructions include no auipc, ecall or fence.
- UDivMod.Udivmoddi4: requires a nonzero divisor; with zero the source divides by zero on purpose, or, for some dividends, by a zero word.
- SignedDiv.Divdi3: negating INT64_MIN is taken to wrap, which C leaves undefined for signed operands.
- SoftMul.Mulsi3: the RV64 forms of the libgcc routines are the same text; __divsi3, __udivsi3 and __umodsi3 of RV64 are not modelled.
- NativeVme.Native.Protect: the fields pgsize and area, two constants that no function of the file reads back, are not kept.
- NativeVme.Native.Map: one key for each address stands for its printed form; the capacity of the hash is not modelled, since a space has at most as many pages as the table was created for.
- NativeVme.Native.Switch: one CPU, because is_mapped is shared by all; the host's mmap is a map from addresses to mappings, and protection bits are passed on unread.
- Htif.RunSafe: system calls and console calls on RV64; htif_poweroff and the RV32 path write the mailbox outside the protocol. Memory order beyond one access per step is not modelled.
- Bringup.BringupSafe: a start-up interrupt and per-CPU initialization are one step each; __am_stop_the_world is not modelled.
- Trap32.Machine.Trap: stacks are words at aligned addresses that do not wrap; the classification of interrupts into events, debug registers and segment registers other than cs, ds, es and ss are not modelled.
- TrapRun.Threads.Run: interrupts stay disabled between trap and return, so traps do not nest; how much stack the handler uses is its own matter as long as it spares live contexts.
- ElfImage.LoadImage: a 64-bit file must be for x86-64 and a 32-bit file must not, because the loader tells the formats apart by e_machine; the program header table follows the ELF header inside the first 4096 bytes.
- Loader.Machine.LoadKernel: a sector read is one fetch of 512 bytes; the argument area and the header page must be clear of the segments.
- Format.Vsnprintf: a size of 0, a format that ends in a lone percent sign, and arguments that do not fit their conversions are excluded; the count is not cut to an int.
- Format.Atoi: digits beyond INT_MAX are not wrapped, which C leaves undefined.
- memmove, memcpy and the rest of string.c, the heap, rand, device drivers, the host calls of native/platform.c, the stubs for unfinished architectures, and all build scripts.
