/** The HTIF console driver (htif.c, atomic.h) as a step system: any number of
    harts, one spinlock, the one-word mailboxes tohost and fromhost, and a host
    that writes fromhost only when it is zero. Every step is one access to
    shared memory. */
module Htif {
  type Byte = b: int | 0 <= b < 256

  /** tohost: TOHOST_CMD(device, command, data), or zero. */
  datatype ToHost = NoCommand | ReadConsole | WriteConsole(ch: Byte) | Syscall(arg: int)

  /** fromhost: a console byte, the echo of a console write, the end of a
      system call, or zero. */
  datatype FromHost = NoReply | ConsoleByte(ch: Byte) | Written | SyscallDone

  /** htif_console_getchar, htif_console_putchar and htif_syscall. */
  datatype Call = Getchar | Putchar(ch: Byte) | DoSyscall(arg: int)

  /** What a call returns; only getchar has a value. */
  datatype Result = Value(v: int) | Nothing

  /** Where __check_fromhost returns to. */
  datatype Cont = ToBuffer | ToSend(m: ToHost, r: Result) | ToWait

  datatype Pc =
    | Outside
    | SpinRead(call: Call)                 // while (atomic_read(&lock->lock))
    | SpinSwap(call: Call)                 // spinlock_trylock
    | CheckRead(k: Cont)                   // fh = fromhost
    | CheckClear(fh: FromHost, k: Cont)    // fromhost = 0
    | CheckUse(fh: FromHost, k: Cont)      // the assertion, and htif_console_buf = ...
    | BufferRead                           // ch = htif_console_buf
    | BufferTake(ch: int)                  // htif_console_buf = -1
    | SendTest(m: ToHost, r: Result)       // while (tohost)
    | SendWrite(m: ToHost, r: Result)      // tohost = ...
    | WaitRead                             // fh = fromhost
    | WaitClear                            // fromhost = 0
    | Release(r: Result)                   // spinlock_unlock
    | Fault                                // a failed assertion

  /** Shared memory, the host's work, and logs. On the host's side: the console
      bytes it delivered and the commands it took. On the harts' side: the calls
      in the order in which they took the lock, the commands they sent, and for
      each getchar the undelivered byte that it found, what it read from the
      buffer, and what it returned. */
  datatype Shared = Shared(
    buf: int, tohost: ToHost, fromhost: FromHost,
    wanted: nat, echoing: nat, syscalls: nat,
    input: seq<Byte>, taken: seq<ToHost>,
    calls: seq<Call>, sent: seq<ToHost>,
    found: seq<seq<Byte>>, seen: seq<int>, results: seq<int>)

  /** owner is the hart that swapped the lock from 0, or -1. */
  datatype System = System(locked: bool, owner: int, harts: seq<Pc>, mem: Shared)

  // ---- the critical section, one hart at a time ----

  function Entry(call: Call): Pc {
    match call
    case Getchar => CheckRead(ToBuffer)
    case Putchar(ch) => SendTest(WriteConsole(ch), Nothing)
    case DoSyscall(arg) => SendTest(Syscall(arg), Nothing)
  }

  function Continue(k: Cont): Pc {
    match k
    case ToBuffer => BufferRead
    case ToSend(m, r) => SendTest(m, r)
    case ToWait => WaitRead
  }

  predicate Inside(p: Pc) {
    !p.Outside? && !p.SpinRead? && !p.SpinSwap?
  }

  /** The next program point of the lock holder. */
  function NextPc(p: Pc, m: Shared): Pc {
    match p
    case CheckRead(k) => if m.fromhost == NoReply then Continue(k) else CheckClear(m.fromhost, k)
    case CheckClear(fh, k) => CheckUse(fh, k)
    case CheckUse(fh, k) => if fh.ConsoleByte? || fh.Written? then Continue(k) else Fault
    case BufferRead => if m.buf >= 0 then BufferTake(m.buf) else Release(Value(m.buf - 1))
    case BufferTake(ch) => SendTest(ReadConsole, Value(ch - 1))
    case SendTest(c, r) => if m.tohost != NoCommand then CheckRead(ToSend(c, r)) else SendWrite(c, r)
    case SendWrite(c, r) => if c.Syscall? then WaitRead else Release(r)
    case WaitRead =>
      if m.fromhost == NoReply then WaitRead
      else if m.fromhost == SyscallDone then WaitClear
      else CheckRead(ToWait)
    case WaitClear => Release(Nothing)
    case Release(_) => Outside
    case _ => p
  }

  /** What that step does to shared memory. */
  function NextMem(p: Pc, m: Shared): Shared {
    match p
    case CheckClear(_, _) => m.(fromhost := NoReply)
    case CheckUse(fh, _) => if fh.ConsoleByte? then m.(buf := 1 + fh.ch) else m
    case BufferRead => m.(seen := m.seen + [m.buf])
    case BufferTake(_) => m.(buf := -1)
    case SendWrite(c, _) => m.(tohost := c, sent := m.sent + [c])
    case WaitClear => m.(fromhost := NoReply)
    case Release(r) => if r.Value? then m.(results := m.results + [r.v]) else m
    case _ => m
  }

  // ---- the whole system ----

  datatype Event =
    | Begin(h: nat, call: Call)
    | Advance(h: nat)
    | HostTakes(echoes: bool)
    | HostReads(ch: Byte)
    | HostEchoes
    | HostReturns

  predicate Enabled(e: Event, s: System) {
    match e
    case Begin(h, _) => h < |s.harts| && s.harts[h] == Outside
    case Advance(h) => h < |s.harts| && s.harts[h] != Outside && s.harts[h] != Fault
    case HostTakes(_) => s.mem.tohost != NoCommand
    case HostReads(_) => s.mem.fromhost == NoReply && s.mem.wanted > 0
    case HostEchoes => s.mem.fromhost == NoReply && s.mem.echoing > 0
    case HostReturns => s.mem.fromhost == NoReply && s.mem.syscalls > 0
  }

  /** The host takes a command off the mailbox; it may echo console writes. */
  function Take(m: Shared, echoes: bool): Shared
    requires m.tohost != NoCommand
  {
    var m' := m.(tohost := NoCommand, taken := m.taken + [m.tohost]);
    match m.tohost
    case ReadConsole => m'.(wanted := m.wanted + 1)
    case WriteConsole(_) => if echoes then m'.(echoing := m.echoing + 1) else m'
    case Syscall(_) => m'.(syscalls := m.syscalls + 1)
  }

  /** The call takes its place in the logs. */
  function Log(call: Call, m: Shared): Shared {
    m.(calls := m.calls + [call], found := if call.Getchar? then m.found + [Undelivered(Outside, m)] else m.found)
  }

  function AdvanceHart(s: System, h: nat): System
    requires h < |s.harts|
  {
    match s.harts[h]
    case SpinRead(call) => if s.locked then s else s.(harts := s.harts[h := SpinSwap(call)])
    case SpinSwap(call) =>
      if s.locked then s.(harts := s.harts[h := SpinRead(call)])
      else s.(locked := true, owner := h, harts := s.harts[h := Entry(call)], mem := Log(call, s.mem))
    case Release(r) => s.(locked := false, owner := -1, harts := s.harts[h := Outside],
      mem := NextMem(Release(r), s.mem))
    case p => s.(harts := s.harts[h := NextPc(p, s.mem)], mem := NextMem(p, s.mem))
  }

  function Next(e: Event, s: System): System
    requires Enabled(e, s)
  {
    match e
    case Begin(h, call) => s.(harts := s.harts[h := SpinRead(call)])
    case Advance(h) => AdvanceHart(s, h)
    case HostTakes(echoes) => s.(mem := Take(s.mem, echoes))
    case HostReads(ch) => s.(mem := s.mem.(fromhost := ConsoleByte(ch), wanted := s.mem.wanted - 1,
      input := s.mem.input + [ch]))
    case HostEchoes => s.(mem := s.mem.(fromhost := Written, echoing := s.mem.echoing - 1))
    case HostReturns => s.(mem := s.mem.(fromhost := SyscallDone, syscalls := s.mem.syscalls - 1))
  }

  function Initial(n: nat): System {
    System(false, -1, seq(n, i => Outside), Shared(0, NoCommand, NoReply, 0, 0, 0, [], [], [], [], [], [], []))
  }

  // ---- what the lock holder is doing ----

  function Truth(b: bool): int { if b then 1 else 0 }

  /** The command that the holder is about to send, and the result it carries. */
  function Sending(p: Pc): ToHost {
    match p
    case CheckRead(k) => if k.ToSend? then k.m else NoCommand
    case CheckClear(_, k) => if k.ToSend? then k.m else NoCommand
    case CheckUse(_, k) => if k.ToSend? then k.m else NoCommand
    case SendTest(m, _) => m
    case SendWrite(m, _) => m
    case _ => NoCommand
  }

  /** The result that the holder is about to return. */
  function Carried(p: Pc): Result {
    match p
    case CheckRead(k) => if k.ToSend? then k.r else Nothing
    case CheckClear(_, k) => if k.ToSend? then k.r else Nothing
    case CheckUse(_, k) => if k.ToSend? then k.r else Nothing
    case BufferTake(ch) => Value(ch - 1)
    case SendTest(_, r) => r
    case SendWrite(_, r) => r
    case Release(r) => r
    case _ => Nothing
  }

  /** The console byte in a result of getchar; negative results are none. */
  function ByteIn(v: int): seq<Byte> { if 0 <= v < 256 then [v] else [] }

  function CarriedByte(p: Pc): seq<Byte> {
    if Carried(p).Value? && !p.BufferTake? then ByteIn(Carried(p).v) else []
  }

  /** The console bytes among results. */
  function Bytes(results: seq<int>): seq<Byte> {
    if results == [] then [] else Bytes(results[..|results| - 1]) + ByteIn(results[|results| - 1])
  }

  predicate Waiting(p: Pc) {
    match p
    case CheckRead(k) => k.ToWait?
    case CheckClear(_, k) => k.ToWait?
    case CheckUse(_, k) => k.ToWait?
    case WaitRead => true
    case WaitClear => true
    case _ => false
  }

  /** Console reads between their request and the buffer. */
  function ReadsInFlight(p: Pc, m: Shared): int {
    Truth(m.tohost == ReadConsole) + m.wanted + Truth(m.fromhost.ConsoleByte?) + Truth(p.CheckUse? && p.fh.ConsoleByte?)
  }

  /** System calls between their request and the loop that waits for them. */
  function SyscallsInFlight(m: Shared): int {
    Truth(m.tohost.Syscall?) + m.syscalls + Truth(m.fromhost == SyscallDone)
  }

  /** The byte that the host delivered and no getchar has taken yet. */
  function Undelivered(p: Pc, m: Shared): seq<Byte> {
    if m.fromhost.ConsoleByte? then [m.fromhost.ch]
    else if p.CheckUse? && p.fh.ConsoleByte? then [p.fh.ch]
    else if 1 <= m.buf <= 256 then [m.buf - 1]
    else []
  }

  function Pending(m: Shared): seq<ToHost> { if m.tohost == NoCommand then [] else [m.tohost] }

  /** The invariant of the critical section, for the holder at p. */
  ghost predicate Core(p: Pc, m: Shared) {
    && p != Fault
    && -1 <= m.buf <= 256
    // one console read at most, and the buffer is -1 exactly while there is one
    && ReadsInFlight(p, m) + Truth(Sending(p) == ReadConsole) == Truth(m.buf == -1)
    // one system call at most, exactly while its caller waits
    && SyscallsInFlight(m) == Truth(Waiting(p))
    // commands are never overwritten
    && m.sent == m.taken + Pending(m)
    && (p.SendWrite? ==> m.tohost == NoCommand)
    && (Sending(p) == NoCommand ==> !p.SendTest? && !p.SendWrite? && !(p.CheckRead? && p.k.ToSend?) &&
                                    !(p.CheckClear? && p.k.ToSend?) && !(p.CheckUse? && p.k.ToSend?))
    // bytes are returned once and in order
    && m.input == Bytes(m.results) + CarriedByte(p) + Undelivered(p, m)
    && (CarriedByte(p) != [] ==> Sending(p) == ReadConsole || p.Release?)
    && (Sending(p) == ReadConsole ==> Carried(p).Value? && -1 <= Carried(p).v <= 255)
    // what the holder has read is still so
    && (p.CheckClear? ==> m.fromhost == p.fh)
    && (p.CheckClear? || p.CheckUse? ==> p.fh.ConsoleByte? || p.fh.Written?)
    && (p.CheckRead? && p.k.ToWait? ==> m.fromhost.ConsoleByte? || m.fromhost.Written?)
    && (p.WaitClear? ==> m.fromhost == SyscallDone)
    && (p.BufferTake? ==> m.buf == p.ch >= 0)
  }

  // ---- what the logs say ----

  /** The command that a call is for. */
  function CommandOf(call: Call): seq<ToHost> {
    match call
    case Getchar => []
    case Putchar(ch) => [WriteConsole(ch)]
    case DoSyscall(arg) => [Syscall(arg)]
  }

  function Commands(calls: seq<Call>): seq<ToHost> {
    if calls == [] then [] else Commands(calls[..|calls| - 1]) + CommandOf(calls[|calls| - 1])
  }

  /** The commands that are not console reads. */
  function Requests(sent: seq<ToHost>): seq<ToHost> {
    if sent == [] then [] else Requests(sent[..|sent| - 1]) + Request(sent[|sent| - 1])
  }

  function Request(c: ToHost): seq<ToHost> { if c.WriteConsole? || c.Syscall? then [c] else [] }

  /** How many console reads were requested. */
  function Asked(sent: seq<ToHost>): nat {
    if sent == [] then 0 else Asked(sent[..|sent| - 1]) + Truth(sent[|sent| - 1] == ReadConsole)
  }

  /** How many getchars took something out of the buffer. */
  function Took(seen: seq<int>): nat {
    if seen == [] then 0 else Took(seen[..|seen| - 1]) + Truth(seen[|seen| - 1] >= 0)
  }

  function Getchars(calls: seq<Call>): nat {
    if calls == [] then 0 else Getchars(calls[..|calls| - 1]) + Truth(calls[|calls| - 1].Getchar?)
  }

  /** Inside getchar, before it reads the buffer. */
  predicate Reading(p: Pc) {
    match p
    case CheckRead(k) => k.ToBuffer?
    case CheckClear(_, k) => k.ToBuffer?
    case CheckUse(_, k) => k.ToBuffer?
    case BufferRead => true
    case _ => false
  }

  /** What getchar number i found, read and returned. */
  predicate ReadWell(found: seq<Byte>, seen: int) {
    -1 <= seen <= 256 && (found != [] ==> found == ByteIn(seen - 1))
  }

  ghost predicate Logs(p: Pc, m: Shared) {
    // what the calls asked for was sent, in their order
    && Requests(m.sent) + Request(Sending(p)) == Commands(m.calls)
    // each getchar that takes a value asks for the next one
    && Asked(m.sent) + Truth(Sending(p) == ReadConsole) + Truth(p.BufferTake?) == Took(m.seen)
    // one entry for each getchar
    && |m.found| == Getchars(m.calls) == |m.seen| + Truth(Reading(p))
    && |m.seen| == |m.results| + Truth(Carried(p).Value?)
    // the result is the buffer's value less one
    && (forall i :: 0 <= i < |m.results| ==> m.results[i] == m.seen[i] - 1)
    && (Carried(p).Value? ==> Carried(p).v == m.seen[|m.seen| - 1] - 1)
    && (Sending(p) != NoCommand ==> (Carried(p).Value? <==> Sending(p) == ReadConsole))
    && (forall i :: 0 <= i < |m.seen| ==> ReadWell(m.found[i], m.seen[i]))
    // a byte that was there stays there until it is read
    && (Reading(p) && m.found[|m.found| - 1] != [] ==>
          && Undelivered(p, m) == m.found[|m.found| - 1]
          && (p.BufferRead? || (p.CheckUse? && !p.fh.ConsoleByte?) ==> [m.buf - 1] == m.found[|m.found| - 1]))
  }

  lemma OneMoreCall(calls: seq<Call>, call: Call)
    ensures Commands(calls + [call]) == Commands(calls) + CommandOf(call)
    ensures Getchars(calls + [call]) == Getchars(calls) + Truth(call.Getchar?)
  {
    assert (calls + [call])[..|calls|] == calls;
  }

  lemma OneMoreSent(sent: seq<ToHost>, c: ToHost)
    ensures Requests(sent + [c]) == Requests(sent) + Request(c)
    ensures Asked(sent + [c]) == Asked(sent) + Truth(c == ReadConsole)
  {
    assert (sent + [c])[..|sent|] == sent;
  }

  lemma OneMoreSeen(seen: seq<int>, v: int)
    ensures Took(seen + [v]) == Took(seen) + Truth(v >= 0)
  {
    assert (seen + [v])[..|seen|] == seen;
  }

  lemma CheckLogs(p: Pc, m: Shared)
    requires p.CheckRead? || p.CheckClear? || p.CheckUse?
    requires Core(p, m) && Logs(p, m)
    ensures Logs(NextPc(p, m), NextMem(p, m))
  {
    hide Requests, Commands, Asked, Took, Getchars, Bytes, ReadWell;
    var p', m' := NextPc(p, m), NextMem(p, m);
    assert Undelivered(p', m') == Undelivered(p, m);
    assert Sending(p') == Sending(p) && Carried(p') == Carried(p) && Reading(p') == Reading(p);
  }

  lemma SendLogs(p: Pc, m: Shared)
    requires p.SendTest? || p.SendWrite?
    requires Core(p, m) && Logs(p, m)
    ensures Logs(NextPc(p, m), NextMem(p, m))
  {
    hide Requests, Commands, Asked, Took, Getchars, Bytes, ReadWell;
    OneMoreSent(m.sent, p.m);
  }

  lemma BufferLogs(p: Pc, m: Shared)
    requires p.BufferRead? || p.BufferTake?
    requires Core(p, m) && Logs(p, m)
    ensures Logs(NextPc(p, m), NextMem(p, m))
  {
    hide Requests, Commands, Asked, Took, Getchars, Bytes;
    OneMoreSeen(m.seen, m.buf);
  }

  lemma OtherLogs(p: Pc, m: Shared)
    requires Inside(p) && !p.CheckRead? && !p.CheckClear? && !p.CheckUse? && !p.SendTest? && !p.SendWrite?
    requires !p.BufferRead? && !p.BufferTake?
    requires Core(p, m) && Logs(p, m)
    ensures Logs(NextPc(p, m), NextMem(p, m))
  {
    hide Requests, Commands, Asked, Took, Getchars, Bytes, ReadWell;
  }

  lemma HolderLogs(p: Pc, m: Shared)
    requires Inside(p) && Core(p, m) && Logs(p, m)
    ensures Logs(NextPc(p, m), NextMem(p, m))
  {
    hide NextPc, NextMem, Core, Logs;
    if p.CheckRead? || p.CheckClear? || p.CheckUse? {
      CheckLogs(p, m);
    } else if p.SendTest? || p.SendWrite? {
      SendLogs(p, m);
    } else if p.BufferRead? || p.BufferTake? {
      BufferLogs(p, m);
    } else {
      OtherLogs(p, m);
    }
  }

  lemma EntryLogs(call: Call, m: Shared)
    requires Core(Outside, m) && Logs(Outside, m)
    ensures Logs(Entry(call), Log(call, m))
  {
    hide Requests, Commands, Asked, Took, Getchars, Bytes, ReadWell;
    OneMoreCall(m.calls, call);
  }

  lemma HostTakesLogs(p: Pc, m: Shared, echoes: bool)
    requires Core(p, m) && Logs(p, m) && m.tohost != NoCommand
    ensures Logs(p, Take(m, echoes))
  {
    hide Requests, Commands, Asked, Took, Getchars, Bytes, ReadWell;
  }

  lemma HostReadsLogs(p: Pc, m: Shared, ch: Byte)
    requires Core(p, m) && Logs(p, m) && m.fromhost == NoReply && m.wanted > 0
    ensures Logs(p, m.(fromhost := ConsoleByte(ch), wanted := m.wanted - 1, input := m.input + [ch]))
  {
    hide Requests, Commands, Asked, Took, Getchars, Bytes, ReadWell;
    assert Undelivered(p, m) == [];
  }

  lemma HostAnswersLogs(p: Pc, m: Shared, m': Shared)
    requires Core(p, m) && Logs(p, m) && m.fromhost == NoReply
    requires m' == m.(fromhost := m'.fromhost, echoing := m'.echoing, syscalls := m'.syscalls)
    requires m'.fromhost == Written || m'.fromhost == SyscallDone
    ensures Logs(p, m')
  {
    hide Requests, Commands, Asked, Took, Getchars, Bytes, ReadWell;
    assert Undelivered(p, m') == Undelivered(p, m);
    hide Core;
  }

  /** The program point of the hart that holds the lock. */
  function Holder(s: System): Pc { if 0 <= s.owner < |s.harts| then s.harts[s.owner] else Outside }

  ghost predicate Inv(s: System) {
    && -1 <= s.owner < |s.harts| && (s.locked <==> s.owner >= 0)
    && (forall h :: 0 <= h < |s.harts| ==> (Inside(s.harts[h]) <==> h == s.owner))
    && Core(Holder(s), s.mem) && Logs(Holder(s), s.mem)
  }

  lemma InitialInv(n: nat)
    ensures Inv(Initial(n))
  {
  }

  lemma CheckStep(p: Pc, m: Shared)
    requires p.CheckRead? || p.CheckClear? || p.CheckUse?
    requires Core(p, m)
    ensures Core(NextPc(p, m), NextMem(p, m)) && Inside(NextPc(p, m))
  {
    hide Bytes;
  }

  lemma SendStep(p: Pc, m: Shared)
    requires p.SendTest? || p.SendWrite?
    requires Core(p, m)
    ensures Core(NextPc(p, m), NextMem(p, m)) && Inside(NextPc(p, m))
  {
    hide Bytes;
    if p.SendWrite? {
      assert m.taken + Pending(m) + [p.m] == m.taken + [p.m];
    }
  }

  lemma BufferStep(p: Pc, m: Shared)
    requires p.BufferRead? || p.BufferTake? || p.WaitRead? || p.WaitClear?
    requires Core(p, m)
    ensures Core(NextPc(p, m), NextMem(p, m)) && Inside(NextPc(p, m))
  {
    hide Bytes;
  }

  lemma ReleaseStep(p: Pc, m: Shared)
    requires p.Release? && Core(p, m)
    ensures Core(NextPc(p, m), NextMem(p, m)) && NextPc(p, m) == Outside
  {
    hide Bytes, ByteIn;
    var m' := NextMem(p, m);
    assert Undelivered(Outside, m') == Undelivered(p, m);
    assert Bytes(m'.results) == Bytes(m.results) + CarriedByte(p) by {
      if p.r.Value? {
        BytesMore(m.results, p.r.v);
      }
    }
    assert CarriedByte(Outside) == [];
  }

  lemma BytesMore(results: seq<int>, v: int)
    ensures Bytes(results + [v]) == Bytes(results) + ByteIn(v)
  {
    assert (results + [v])[..|results|] == results;
  }

  /** One step inside the critical section. */
  lemma HolderStep(p: Pc, m: Shared)
    requires Inside(p) && Core(p, m)
    ensures Core(NextPc(p, m), NextMem(p, m))
    ensures Inside(NextPc(p, m)) <==> !p.Release?
  {
    hide NextPc, NextMem, Core;
    if p.CheckRead? || p.CheckClear? || p.CheckUse? {
      CheckStep(p, m);
    } else if p.SendTest? || p.SendWrite? {
      SendStep(p, m);
    } else if p.Release? {
      ReleaseStep(p, m);
    } else {
      NotFault(p, m);
      BufferStep(p, m);
    }
  }

  lemma NotFault(p: Pc, m: Shared)
    requires Core(p, m)
    ensures p != Fault
  {
  }

  lemma EntryCore(call: Call, m: Shared)
    requires Core(Outside, m)
    ensures Core(Entry(call), Log(call, m)) && Inside(Entry(call))
  {
  }

  /** The host takes a command, or replies. */
  lemma HostTakesCore(p: Pc, m: Shared, echoes: bool)
    requires Core(p, m) && m.tohost != NoCommand
    ensures Core(p, Take(m, echoes))
  {
    hide Bytes;
    assert m.taken + [m.tohost] + [] == m.taken + Pending(m);
    assert Undelivered(p, Take(m, echoes)) == Undelivered(p, m);
  }

  lemma HostRepliesCore(p: Pc, m: Shared, ch: Byte)
    requires Core(p, m) && m.fromhost == NoReply
    ensures m.wanted > 0 ==> Core(p, m.(fromhost := ConsoleByte(ch), wanted := m.wanted - 1, input := m.input + [ch]))
    ensures m.echoing > 0 ==> Core(p, m.(fromhost := Written, echoing := m.echoing - 1))
    ensures m.syscalls > 0 ==> Core(p, m.(fromhost := SyscallDone, syscalls := m.syscalls - 1))
  {
    hide Bytes;
    if m.wanted > 0 {
      assert Undelivered(p, m) == [];
      assert m.input + [ch] == Bytes(m.results) + CarriedByte(p) + [ch];
    }
  }

  lemma NextInv(e: Event, s: System)
    requires Inv(s) && Enabled(e, s)
    ensures Inv(Next(e, s)) && |Next(e, s).harts| == |s.harts|
  {
    hide Core, Logs, NextPc, NextMem, Take, Log;
    var p := Holder(s);
    match e
    case Begin(h, call) =>
    case Advance(h) =>
      if Inside(s.harts[h]) {
        HolderStep(s.harts[h], s.mem);
        HolderLogs(s.harts[h], s.mem);
        ReleaseOutside(s.harts[h], s.mem);
      } else if s.harts[h].SpinSwap? && !s.locked {
        EntryCore(s.harts[h].call, s.mem);
        EntryLogs(s.harts[h].call, s.mem);
      }
    case HostTakes(echoes) =>
      HostTakesCore(p, s.mem, echoes);
      HostTakesLogs(p, s.mem, echoes);
    case HostReads(ch) =>
      HostRepliesCore(p, s.mem, ch);
      HostReadsLogs(p, s.mem, ch);
    case HostEchoes =>
      HostRepliesCore(p, s.mem, 0);
      HostAnswersLogs(p, s.mem, Next(e, s).mem);
    case HostReturns =>
      HostRepliesCore(p, s.mem, 0);
      HostAnswersLogs(p, s.mem, Next(e, s).mem);
  }

  lemma ReleaseOutside(p: Pc, m: Shared)
    ensures p.Release? ==> NextPc(p, m) == Outside
  {
  }

  // ---- runs ----

  ghost predicate Legal(events: seq<Event>, s: System) {
    events == [] || (Enabled(events[0], s) && Legal(events[1..], Next(events[0], s)))
  }

  ghost function Run(events: seq<Event>, s: System): System
    requires Legal(events, s)
  {
    if events == [] then s else Run(events[1..], Next(events[0], s))
  }

  lemma {:induction false} RunInv(events: seq<Event>, s: System)
    requires Inv(s) && Legal(events, s)
    ensures Inv(Run(events, s)) && |Run(events, s).harts| == |s.harts|
  {
    hide Inv, Next, Enabled;
    if events != [] {
      NextInv(events[0], s);
      RunInv(events[1..], Next(events[0], s));
    }
  }

  /** For every number of harts and every interleaving: one hart at a time is in
      the critical section; no command is lost; no assertion fails; at most one
      console read is outstanding, and, unless one is being requested, exactly
      while the buffer is -1; and getchar has returned the delivered bytes in
      order, but for the last two at most. */
  lemma RunSafe(n: nat, events: seq<Event>)
    requires Legal(events, Initial(n))
    ensures var s := Run(events, Initial(n));
      && |s.harts| == n
      && (forall h, i :: 0 <= h < |s.harts| && 0 <= i < |s.harts| && Inside(s.harts[h]) && Inside(s.harts[i]) ==>
        h == i)
      && (forall h :: 0 <= h < |s.harts| ==> s.harts[h] != Fault)
      && s.mem.sent == s.mem.taken + Pending(s.mem)
      && ReadsInFlight(Holder(s), s.mem) <= 1
      && (Sending(Holder(s)) != ReadConsole ==> (s.mem.buf == -1 <==> ReadsInFlight(Holder(s), s.mem) == 1))
      && s.mem.input == Bytes(s.mem.results) + CarriedByte(Holder(s)) + Undelivered(Holder(s), s.mem)
  {
    InitialInv(n);
    RunInv(events, Initial(n));
  }

  /** And what the calls do: the commands sent, with the one that is about to be
      sent, are those of the calls in the order in which they took the lock;
      every getchar returns one less than it read, so a byte exactly when a byte
      was in the buffer; one that finds a delivered byte when it takes the lock
      returns that byte; and there is one console read for each value taken. */
  lemma RunServes(n: nat, events: seq<Event>)
    requires Legal(events, Initial(n))
    ensures var s := Run(events, Initial(n)); var m, p := s.mem, Holder(s);
      && Requests(m.sent) + Request(Sending(p)) == Commands(m.calls)
      && |m.results| <= |m.seen| <= |m.found| == Getchars(m.calls) <= |m.results| + 1
      && (forall i :: 0 <= i < |m.results| ==>
            && m.results[i] == m.seen[i] - 1 && -1 <= m.seen[i] <= 256
            && (m.found[i] != [] ==> m.found[i] == ByteIn(m.results[i])))
      && Asked(m.sent) + Truth(Sending(p) == ReadConsole) + Truth(p.BufferTake?) == Took(m.seen)
  {
    InitialInv(n);
    RunInv(events, Initial(n));
    hide Core;
    var s := Run(events, Initial(n));
    LogsParts(Holder(s), s.mem);
  }

  lemma LogsParts(p: Pc, m: Shared)
    requires Logs(p, m)
    ensures |m.results| <= |m.seen| <= |m.found| <= |m.results| + 1
    ensures forall i :: 0 <= i < |m.results| ==>
      m.results[i] == m.seen[i] - 1 && -1 <= m.seen[i] <= 256 &&
        (m.found[i] != [] ==> m.found[i] == ByteIn(m.results[i]))
  {
    hide Requests, Commands, Asked, Took, Getchars;
    forall i | 0 <= i < |m.results| ensures ReadWell(m.found[i], m.seen[i]) {
    }
  }

  /** A hart that is about to write tohost finds it empty. */
  lemma SendsIntoEmpty(n: nat, events: seq<Event>, h: nat)
    requires Legal(events, Initial(n)) && h < |Run(events, Initial(n)).harts| &&
      Run(events, Initial(n)).harts[h].SendWrite?
    ensures Run(events, Initial(n)).mem.tohost == NoCommand
  {
    InitialInv(n);
    RunInv(events, Initial(n));
  }
}
