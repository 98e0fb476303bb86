/** Interrupt transparency: what an interrupt handler that saves, acknowledges, restores and
returns (tools/riscc_fuzz.py) does to a program that is interrupted at arbitrary instruction
boundaries, compared with the run of the same program without interrupts. */
module Interrupts {
  import opened Bits
  import opened Isa

  // ----- runs -----

  /** The run without interrupts. */
  function Run(p: Profile, st: State, n: nat): (out: Option<State>)
    requires st.Valid()
    ensures out.Some? ==> out.value.Valid()
  {
    if n == 0 then Some(st)
    else
      var before := Run(p, st, n - 1);
      if before.None? then None else Step(p, before.value)
  }

  /** The interrupt line is raised at a boundary. */
  function Raise(st: State, up: bool): State {
    if up then st.(irqLine := true) else st
  }

  /** The run in which the line is raised at the boundaries the schedule says. */
  function RaisedRun(p: Profile, st: State, raises: seq<bool>): (out: Option<State>)
    requires st.Valid()
    ensures out.Some? ==> out.value.Valid()
  {
    if raises == [] then Some(st)
    else
      var m := |raises| - 1;
      var before := RaisedRun(p, st, raises[..m]);
      if before.None? then None else Step(p, Raise(before.value, raises[m]))
  }

  /** How far a raised run is: the program instructions executed, and the step of the handler, 0 outside it. */
  datatype Progress = Progress(n: nat, phase: nat)

  function ProgressOf(p: Profile, st: State, raises: seq<bool>): Progress
    requires st.Valid()
  {
    if raises == [] then Progress(0, 0)
    else
      var m := |raises| - 1;
      var g, before := ProgressOf(p, st, raises[..m]), RaisedRun(p, st, raises[..m]);
      if g.phase == 0 then
        if before.Some? && Interrupted(p, Raise(before.value, raises[m])) then Progress(g.n, 1) else Progress(g.n + 1, 0)
      else Progress(g.n, (g.phase + 1) % 8)
  }

  // ----- the handler -----

  /** save r1 in S2, load the address of the test register, acknowledge, restore r1, return */
  function Handler(): seq<Insn> {
    [Mts(2, 1), Imm(LUI, 1, 0xFF), Imm(ORI, 1, 0xFA), Ld(1, 1, 0), Mfs(1, 2), Reti(0)]
  }

  function Fetch(p: Profile, st: State): Option<Insn>
    requires st.Valid()
  {
    FetchAt(p, st.mem, st.pc)
  }

  function FetchAt(p: Profile, mem: seq<u16>, pc: u15): Option<Insn>
    requires |mem| == 0x8000
  {
    Decode(p, mem[pc], mem[Next(pc)])
  }

  /** The vector at word 2 jumps to the handler at byte address h, which is all there. */
  ghost predicate HandlerIntact(p: Profile, mem: seq<u16>, h: u16)
    requires |mem| == 0x8000
  {
    && FetchAt(p, mem, 2) == Some(Jall(0, h))
    && forall k: nat :: k < 6 ==> FetchAt(p, mem, Offset(WordOf(h), k)) == Some(Handler()[k])
  }

  // ----- what the program may do -----

  predicate ReadsSystem(i: Insn, k: u3) {
    (i.Mfs? && i.sa == k) || (i.Ret? && i.sa == k) || (i.Reti? && i.sa == k)
  }

  predicate WritesS0(i: Insn) {
    i.Mts? && i.sd == 0
  }

  /** A word access at the test register; byte loads do not reach it. */
  predicate TouchesTestIrq(i: Insn, st: State)
    requires st.Valid()
  {
    match i
    case Ld(_, ra, disp) => WordOf(Word(st.r[ra] + disp)) == TEST_IRQ
    case St(_, ra, disp) => WordOf(Word(st.r[ra] + disp)) == TEST_IRQ
    case Ldx(_, ra, rb) => WordOf(Word(st.r[ra] as int + st.r[rb])) == TEST_IRQ
    case Stb(_, ra) => WordOf(st.r[ra]) == TEST_IRQ
    case _ => false
  }

  /** Reading v instead of w from S0 makes no difference: a return ignores the lowest bit. */
  predicate Unobservable(i: Insn, v: u16, w: u16) {
    if i.Mfs? then v == w else WordOf(v) == WordOf(w)
  }

  // ----- agreement -----

  /** The program cannot tell these states apart by its registers, memory or control state. */
  predicate Agree(a: State, b: State) {
    a.r == b.r && a.pc == b.pc && a.ie == b.ie && a.mem == b.mem && a.done == b.done && a.halted == b.halted
  }

  /** System registers other than S0 and S2 agree too. */
  predicate SameSystem(a: State, b: State)
    requires a.Valid() && b.Valid()
  {
    forall k: u3 :: k != 0 && k != 2 ==> a.s[k] == b.s[k]
  }

  /** b with the parts an interrupt may change. */
  function Patched(b: State, s: seq<u16>, line: bool, n: nat, q: nat): State {
    b.(s := s, irqLine := line, insns := n, irqTaken := q)
  }

  /** Instructions that neither read nor write system registers. */
  predicate Ordinary(i: Insn) {
    !(i.Jall? || i.Jalr? || i.Ret? || i.Reti? || i.Mfs? || i.Mts?)
  }

  lemma PatchedStore(b: State, s: seq<u16>, line: bool, n: nat, q: nat, address: u16, low: Option<u8>, high: Option<u8>)
    requires b.Valid() && |s| == 8 && WordOf(address) != TEST_IRQ
    ensures Stored(Patched(b, s, line, n, q), address, low, high) == Patched(Stored(b, address, low, high), s, line, n, q)
    ensures var b' := Stored(b, address, low, high); b'.s == b.s && b'.irqLine == b.irqLine && b'.insns == b.insns && b'.irqTaken == b.irqTaken
  {
  }

  lemma PatchedLoad(b: State, s: seq<u16>, line: bool, n: nat, q: nat, rd: u3, address: u16)
    requires b.Valid() && |s| == 8 && WordOf(address) != TEST_IRQ
    ensures LoadInto(Patched(b, s, line, n, q), rd, address) == Patched(LoadInto(b, rd, address), s, line, n, q)
    ensures var b' := LoadInto(b, rd, address); b'.s == b.s && b'.irqLine == b.irqLine && b'.insns == b.insns && b'.irqTaken == b.irqTaken
  {
  }

  lemma PatchedDivide(b: State, s: seq<u16>, line: bool, n: nat, q: nat, rd: u3, ra: u3, rb: u3)
    requires b.Valid() && |s| == 8
    ensures var out, out' := Divide(b, rd, ra, rb), Divide(Patched(b, s, line, n, q), rd, ra, rb);
            && (out.None? <==> out'.None?)
            && (out.Some? ==> out'.value == Patched(out.value, s, line, n, q)
                              && out.value.s == b.s && out.value.irqLine == b.irqLine && out.value.insns == b.insns
                              && out.value.irqTaken == b.irqTaken)
  {
  }

  lemma PatchedMultiply(b: State, s: seq<u16>, line: bool, n: nat, q: nat, rd: u3, ra: u3, rb: u3)
    requires b.Valid() && |s| == 8
    ensures var out, out' := Multiply(b, rd, ra, rb), Multiply(Patched(b, s, line, n, q), rd, ra, rb);
            && out' == Patched(out, s, line, n, q)
            && out.s == b.s && out.irqLine == b.irqLine && out.insns == b.insns && out.irqTaken == b.irqTaken
  {
  }

  /** Both outcomes are the same up to the patch, which the step leaves alone. */
  ghost predicate SameUpTo(out: Option<State>, out': Option<State>, b: State, s: seq<u16>, line: bool, n: nat, q: nat) {
    && (out.None? <==> out'.None?)
    && (out.Some? ==> out'.value == Patched(out.value, s, line, n, q)
                      && out.value.s == b.s && out.value.irqLine == b.irqLine && out.value.insns == b.insns
                      && out.value.irqTaken == b.irqTaken)
  }

  lemma LoadsAndStores(p: Profile, st: State, i: Insn, next: u15)
    requires st.Valid() && (i.Ld? || i.St? || i.Ldx? || i.Stb?)
    ensures Execute(p, i, st, next) == Some(match i
      case Ld(rd, ra, disp) => LoadInto(st.(pc := next), rd, Word(st.r[ra] + disp))
      case St(rd, ra, disp) => StoreWhole(st.(pc := next), Word(st.r[ra] + disp), st.r[rd])
      case Ldx(rd, ra, rb) => LoadInto(st.(pc := next), rd, Word(st.r[ra] as int + st.r[rb]))
      case Stb(rd, ra) => StoreByte(st.(pc := next), st.r[ra], st.r[rd] % 0x100))
  {
    hide CallLong, CallRegister, Word, WriteSystem, LoadInto, StoreWhole, StoreByte, Divide, Multiply, AluResult, ImmResult, ShiftResult, LoadedByte, SignExtended, FunnelLeft, FunnelRight;
  }

  lemma PatchedMemory(p: Profile, i: Insn, b: State, next: u15, s: seq<u16>, line: bool, n: nat, q: nat)
    requires b.Valid() && |s| == 8 && (i.Ld? || i.St? || i.Ldx? || i.Stb?) && !TouchesTestIrq(i, b)
    ensures SameUpTo(Execute(p, i, b, next), Execute(p, i, Patched(b, s, line, n, q), next), b, s, line, n, q)
  {
    hide Stored, LoadInto, Execute;
    LoadsAndStores(p, b, i, next);
    LoadsAndStores(p, Patched(b, s, line, n, q), i, next);
    match i
    case Ld(rd, ra, disp) => PatchedLoad(b.(pc := next), s, line, n, q, rd, Word(b.r[ra] + disp));
    case Ldx(rd, ra, rb) => PatchedLoad(b.(pc := next), s, line, n, q, rd, Word(b.r[ra] as int + b.r[rb]));
    case St(rd, ra, disp) => PatchedStore(b.(pc := next), s, line, n, q, Word(b.r[ra] + disp), Some(b.r[rd] % 0x100), Some(b.r[rd] / 0x100));
    case Stb(rd, ra) =>
      PatchedStore(b.(pc := next), s, line, n, q, b.r[ra], None, Some(b.r[rd] % 0x100));
      PatchedStore(b.(pc := next), s, line, n, q, b.r[ra], Some(b.r[rd] % 0x100), None);
  }

  lemma PatchedControl(p: Profile, i: Insn, b: State, next: u15, s: seq<u16>, line: bool, n: nat, q: nat)
    requires b.Valid() && |s| == 8 && (i.Branch? || i.Jmp8? || i.Iflush? || i.Cli? || i.Sti? || i.Divu? || i.Mulhu?)
    ensures SameUpTo(Execute(p, i, b, next), Execute(p, i, Patched(b, s, line, n, q), next), b, s, line, n, q)
  {
    hide LoadInto, StoreWhole, StoreByte, Divide, Multiply, AluResult, ImmResult, ShiftResult, LoadedByte, SignExtended, FunnelLeft, FunnelRight;
    match i
    case Divu(rd, ra, rb) => PatchedDivide(b.(pc := next), s, line, n, q, rd, ra, rb);
    case Mulhu(rd, ra, rb) => PatchedMultiply(b.(pc := next), s, line, n, q, rd, ra, rb);
    case _ =>
  }

  /** The result register and value of an instruction that computes one. */
  lemma PatchedWrite(p: Profile, i: Insn, b: State, next: u15, s: seq<u16>, line: bool, n: nat, q: nat)
    requires b.Valid() && |s| == 8 && (i.Imm? || i.Alu? || i.Ldb? || i.Ldbs? || i.Shift? || i.Fsl1? || i.Fsr1?)
    ensures SameUpTo(Execute(p, i, b, next), Execute(p, i, Patched(b, s, line, n, q), next), b, s, line, n, q)
  {
    hide AluResult, ImmResult, ShiftResult, SignExtended, FunnelLeft, FunnelRight;
  }

  /** An ordinary instruction that leaves the test register alone does the same to both states. */
  lemma PatchedExecute(p: Profile, i: Insn, b: State, next: u15, s: seq<u16>, line: bool, n: nat, q: nat)
    requires b.Valid() && |s| == 8 && Ordinary(i) && !TouchesTestIrq(i, b)
    ensures SameUpTo(Execute(p, i, b, next), Execute(p, i, Patched(b, s, line, n, q), next), b, s, line, n, q)
  {
    hide Execute, SameUpTo, TouchesTestIrq;
    if i.Ld? || i.St? || i.Ldx? || i.Stb? {
      PatchedMemory(p, i, b, next, s, line, n, q);
    } else if i.Imm? || i.Alu? || i.Ldb? || i.Ldbs? || i.Shift? || i.Fsl1? || i.Fsr1? {
      PatchedWrite(p, i, b, next, s, line, n, q);
    } else {
      PatchedControl(p, i, b, next, s, line, n, q);
    }
  }

  lemma AgreePatched(a: State, b: State)
    requires Agree(a, b)
    ensures a == Patched(b, a.s, a.irqLine, a.insns, a.irqTaken)
  {
  }

  /** One program step taken by both runs. */
  lemma PlainStep(p: Profile, a: State, b: State, i: Insn)
    requires a.Valid() && b.Valid() && Agree(a, b) && SameSystem(a, b) && !Interrupted(p, a) && !b.irqLine
    requires Fetch(p, b) == Some(i) && !TouchesTestIrq(i, b) && !ReadsSystem(i, 2)
    requires ReadsSystem(i, 0) ==> Unobservable(i, a.s[0], b.s[0])
    requires Step(p, b).Some?
    ensures Step(p, a).Some?
    ensures PlainEffect(i, a, b, Step(p, a).value, Step(p, b).value)
  {
    hide Decode, Execute;
    var b1 := b.(insns := b.insns + 1);
    if Ordinary(i) {
      PatchedExecute(p, i, b1, Next(b.pc), a.s, a.irqLine, a.insns + 1, a.irqTaken);
      AgreePatched(a.(insns := a.insns + 1), b1);
    } else {
      SystemStep(p, a.(insns := a.insns + 1), b1, i, Next(b.pc));
    }
  }

  /** What one instruction leaves of the agreement. */
  ghost predicate PlainEffect(i: Insn, a: State, b: State, a': State, b': State)
    requires a.Valid() && b.Valid() && a'.Valid() && b'.Valid()
  {
    && Agree(a', b') && SameSystem(a', b') && a'.irqLine == a.irqLine && b'.irqLine == b.irqLine && a'.irqTaken == a.irqTaken
    && b'.s[0] == (if WritesS0(i) then b.r[i.ra] else b.s[0])
    && a'.s[0] == (if WritesS0(i) then b.r[i.ra] else a.s[0])
  }

  lemma SystemStep(p: Profile, a: State, b: State, i: Insn, next: u15)
    requires a.Valid() && b.Valid() && Agree(a, b) && SameSystem(a, b) && !Ordinary(i) && !ReadsSystem(i, 2)
    requires ReadsSystem(i, 0) ==> Unobservable(i, a.s[0], b.s[0])
    ensures Execute(p, i, a, next).Some? && Execute(p, i, b, next).Some?
    ensures PlainEffect(i, a, b, Execute(p, i, a, next).value, Execute(p, i, b, next).value)
  {
    if i.Ret? || i.Reti? || i.Mfs? {
      SystemRead(p, a, b, i, next);
    } else {
      SystemWrite(p, a, b, i, next);
    }
  }

  lemma SystemRead(p: Profile, a: State, b: State, i: Insn, next: u15)
    requires a.Valid() && b.Valid() && Agree(a, b) && SameSystem(a, b) && (i.Ret? || i.Reti? || i.Mfs?) && !ReadsSystem(i, 2)
    requires ReadsSystem(i, 0) ==> Unobservable(i, a.s[0], b.s[0])
    ensures Execute(p, i, a, next).Some? && Execute(p, i, b, next).Some?
    ensures PlainEffect(i, a, b, Execute(p, i, a, next).value, Execute(p, i, b, next).value)
  {
    assert WordOf(a.s[i.sa]) == WordOf(b.s[i.sa]) && (i.Mfs? ==> a.s[i.sa] == b.s[i.sa]);
  }

  lemma CallsAndWrites(p: Profile, st: State, i: Insn, next: u15)
    requires st.Valid() && (i.Jall? || i.Jalr? || i.Mts?)
    ensures Execute(p, i, st, next) == Some(match i
      case Jall(sd, target) => CallLong(st, sd, target, ByteOf(Next(next)))
      case Jalr(sd, ra) => CallRegister(p, st, sd, st.r[ra], ByteOf(next))
      case Mts(sd, ra) => WriteSystem(st.(pc := next), sd, st.r[ra]))
  {
    hide CallLong, CallRegister, WriteSystem, LoadInto, StoreWhole, StoreByte, Divide, Multiply, AluResult, ImmResult, ShiftResult, LoadedByte, SignExtended, FunnelLeft, FunnelRight;
  }

  lemma SystemWrite(p: Profile, a: State, b: State, i: Insn, next: u15)
    requires a.Valid() && b.Valid() && Agree(a, b) && SameSystem(a, b) && (i.Jall? || i.Jalr? || i.Mts?)
    ensures Execute(p, i, a, next).Some? && Execute(p, i, b, next).Some?
    ensures PlainEffect(i, a, b, Execute(p, i, a, next).value, Execute(p, i, b, next).value)
  {
    hide WriteSystem, Execute;
    CallsAndWrites(p, a, i, next);
    CallsAndWrites(p, b, i, next);
    match i
    case Jall(sd, target) =>
      LinkedAgree(a, b, sd, ByteOf(Next(next)));
    case Jalr(sd, ra) =>
      LinkedAgree(a, b, sd, ByteOf(next));
    case Mts(sd, ra) =>
      LinkedAgree(a.(pc := next), b.(pc := next), sd, b.r[ra]);
  }

  /** The same write to a system register. */
  lemma LinkedAgree(a: State, b: State, d: u3, v: u16)
    requires a.Valid() && b.Valid() && Agree(a, b) && SameSystem(a, b)
    ensures var a', b' := WriteSystem(a, d, v), WriteSystem(b, d, v);
            && Agree(a', b') && SameSystem(a', b')
            && a'.irqLine == a.irqLine && b'.irqLine == b.irqLine && a'.irqTaken == a.irqTaken
            && a'.s[0] == (if d == 0 then v else a.s[0]) && b'.s[0] == (if d == 0 then v else b.s[0])
  {
  }

  // ----- inside the handler -----

  /** The program is suspended at b: the return address is in S0 and interrupts are off. */
  ghost predicate Suspended(a: State, b: State)
    requires a.Valid() && b.Valid()
  {
    && a.mem == b.mem && !a.ie && b.ie && a.done == b.done && a.halted == b.halted
    && SameSystem(a, b) && a.s[0] == ByteOf(b.pc)
  }

  /** The state before step `phase` of the eight that an interrupt takes; entry is step 0. */
  ghost predicate InHandler(a: State, b: State, h: u16, phase: nat)
    requires a.Valid() && b.Valid()
  {
    && 1 <= phase <= 7 && Suspended(a, b)
    && a.pc == (if phase == 1 then 2 else Offset(WordOf(h), phase - 2))
    && (phase >= 3 ==> a.s[2] == b.r[1])
    && (phase <= 3 || phase == 7 ==> a.r == b.r)
    && (phase == 4 ==> a.r == b.r[1 := 0xFF00])
    && (phase == 5 ==> a.r == b.r[1 := 0xFFFA])
    && (phase == 6 ==> a.r == b.r[1 := a.r[1]])
  }

  lemma EnterHandler(p: Profile, a: State, b: State, h: u16)
    requires a.Valid() && b.Valid() && Agree(a, b) && SameSystem(a, b) && Interrupted(p, a)
    ensures Step(p, a).Some? && InHandler(Step(p, a).value, b, h, 1)
    ensures Step(p, a).value.irqTaken == a.irqTaken + 1 && Step(p, a).value.irqLine == a.irqLine
  {
  }

  lemma NextInHandler(base: u15, k: nat)
    ensures Next(Offset(base, k)) == Offset(base, k + 1) && Offset(base, 0) == base
  {
  }

  lemma TestAddress(v: u16)
    ensures ImmResult(LUI, v, 0xFF) == 0xFF00 && ImmResult(ORI, 0xFF00, 0xFA) == 0xFFFA
    ensures WordOf(Word(0xFFFA + 0)) == TEST_IRQ
  {
    hide Bits.Or;
    Pow2Values();
    OrDisjoint(0xFF00, 0xFA, 8);
  }

  /** The instruction the handler executes before step `phase`. */
  lemma HandlerFetch(p: Profile, a: State, b: State, h: u16, phase: nat)
    requires a.Valid() && b.Valid() && InHandler(a, b, h, phase) && HandlerIntact(p, b.mem, h)
    ensures Fetch(p, a) == Some(if phase == 1 then Jall(0, h) else Handler()[phase - 2])
    ensures !Interrupted(p, a)
  {
    hide FetchAt;
    if phase >= 2 {
      var k := phase - 2;
      assert FetchAt(p, b.mem, Offset(WordOf(h), k)) == Some(Handler()[k]);
    }
  }

  lemma HandlerEffect(p: Profile, st: State, i: Insn, next: u15)
    requires st.Valid() && ((i.Jall? && i.sd == 0) || i.Mts? || (i.Imm? && i.op != CMPI) || i.Ld? || i.Mfs? || i.Reti?)
    ensures var on := st.(pc := next);
            Execute(p, i, st, next) == Some(match i
      case Jall(_, target) => st.(pc := WordOf(target))
      case Mts(sd, ra) => WriteSystem(on, sd, st.r[ra])
      case Imm(op, rd, imm) => Isa.Write(on, rd, ImmResult(op, st.r[rd], imm))
      case Ld(rd, ra, disp) => LoadInto(on, rd, Word(st.r[ra] + disp))
      case Mfs(rd, sa) => Isa.Write(on, rd, st.s[sa])
      case Reti(sa) => st.(pc := WordOf(st.s[sa]), ie := true))
  {
    hide WriteSystem, Isa.Write, LoadInto, StoreWhole, StoreByte, Divide, Multiply, AluResult, ImmResult, ShiftResult, LoadedByte, SignExtended, FunnelLeft, FunnelRight, Word;
  }

  lemma HandlerStep(p: Profile, a: State, b: State, h: u16, phase: nat)
    requires a.Valid() && b.Valid() && InHandler(a, b, h, phase) && HandlerIntact(p, b.mem, h)
    ensures Step(p, a).Some?
    ensures var a' := Step(p, a).value;
            && a'.irqTaken == a.irqTaken && a'.irqLine == (if phase == 5 then false else a.irqLine)
            && (phase < 7 ==> InHandler(a', b, h, phase + 1))
            && (phase == 7 ==> Agree(a', b) && SameSystem(a', b) && a'.s[0] == ByteOf(b.pc))
  {
    hide Decode, Execute, HandlerIntact, ImmResult;
    HandlerFetch(p, a, b, h, phase);
    var i := if phase == 1 then Jall(0, h) else Handler()[phase - 2];
    HandlerEffect(p, a.(insns := a.insns + 1), i, Next(a.pc));
    TestAddress(a.r[1]);
    NextInHandler(WordOf(h), if phase >= 2 then phase - 2 else 0);
  }

  // ----- whole runs -----

  /** The uninterrupted run up to N neither fails nor uses what belongs to the handler: it reads
  neither S2 nor, by a word access, the test register, and the handler code stays intact. */
  ghost predicate Plain(p: Profile, b0: State, h: u16, N: nat)
    requires b0.Valid()
  {
    && !b0.irqLine
    && (forall n :: 0 <= n <= N ==> Run(p, b0, n).Some? && HandlerIntact(p, Run(p, b0, n).value.mem, h))
    && (forall n :: 0 <= n < N ==> PlainAt(p, Run(p, b0, n).value))
  }

  predicate PlainAt(p: Profile, b: State)
    requires b.Valid()
  {
    Fetch(p, b).Some? && !TouchesTestIrq(Fetch(p, b).value, b) && !ReadsSystem(Fetch(p, b).value, 2)
  }

  /** An interrupt at boundary k leaves its mark in S0 at boundary n: interrupts are on at k,
  and S0 is not written in between. */
  ghost predicate Clobbered(p: Profile, b0: State, k: nat, n: nat)
    requires b0.Valid()
  {
    && k <= n && Run(p, b0, k).Some? && Run(p, b0, k).value.ie
    && forall j :: k <= j < n ==> Run(p, b0, j).Some? && KeepsS0(p, Run(p, b0, j).value)
  }

  predicate KeepsS0(p: Profile, b: State)
    requires b.Valid()
  {
    Fetch(p, b).Some? && !WritesS0(Fetch(p, b).value)
  }

  /** If the instruction at b reads S0, it does not matter that the address of k is there. */
  predicate Indifferent(p: Profile, b: State, k: State)
    requires b.Valid()
  {
    Fetch(p, b).Some? && ReadsSystem(Fetch(p, b).value, 0) ==> Unobservable(Fetch(p, b).value, ByteOf(k.pc), b.s[0])
  }

  /** No read of S0 before N sees the mark of an interrupt. */
  ghost predicate S0Safe(p: Profile, b0: State, N: nat)
    requires b0.Valid()
  {
    forall n, k :: 0 <= k <= n < N && Run(p, b0, n).Some? && Clobbered(p, b0, k, n) ==>
      Indifferent(p, Run(p, b0, n).value, Run(p, b0, k).value)
  }

  /** S0 holds what the program left there, or the mark of an interrupt. */
  ghost predicate S0Explained(p: Profile, b0: State, n: nat, v: u16)
    requires b0.Valid() && Run(p, b0, n).Some?
  {
    v == Run(p, b0, n).value.s[0] || exists k :: 0 <= k <= n && Clobbered(p, b0, k, n) && v == ByteOf(Run(p, b0, k).value.pc)
  }

  /** Where the raised run is, it is in step with the uninterrupted one. */
  ghost predicate InStep(p: Profile, b0: State, h: u16, a: State, g: Progress)
    requires b0.Valid() && a.Valid()
  {
    && Run(p, b0, g.n).Some?
    && var b := Run(p, b0, g.n).value;
       if g.phase == 0 then Agree(a, b) && SameSystem(a, b) && S0Explained(p, b0, g.n, a.s[0])
       else InHandler(a, b, h, g.phase)
  }

  lemma {:induction false} QuietRun(p: Profile, b0: State, h: u16, N: nat, n: nat)
    requires b0.Valid() && Plain(p, b0, h, N) && n <= N
    ensures Run(p, b0, n).Some? && !Run(p, b0, n).value.irqLine
  {
    hide *;
    PlainMeaning(p, b0, h, N);
    if n > 0 {
      QuietRun(p, b0, h, N, n - 1);
      var b := Run(p, b0, n - 1).value;
      RunStep(p, b0, n - 1);
      PlainAtMeaning(p, b);
      AgreeSelf(p, b, Fetch(p, b).value);
      PlainStep(p, b, b, Fetch(p, b).value);
      EffectMeaning(Fetch(p, b).value, b, b, Step(p, b).value, Step(p, b).value);
    }
  }

  lemma PlainMeaning(p: Profile, b0: State, h: u16, N: nat)
    requires b0.Valid() && Plain(p, b0, h, N)
    ensures !b0.irqLine && Run(p, b0, 0) == Some(b0)
    ensures forall n :: 0 <= n <= N ==> Run(p, b0, n).Some? && HandlerIntact(p, Run(p, b0, n).value.mem, h)
    ensures forall n :: 0 <= n < N ==> PlainAt(p, Run(p, b0, n).value)
  {
  }

  lemma Sizes(st: State)
    requires st.Valid()
    ensures |st.r| == 8 && |st.s| == 8 && |st.mem| == 0x8000
  {
  }

  lemma PlainAtMeaning(p: Profile, b: State)
    requires b.Valid() && PlainAt(p, b)
    ensures Fetch(p, b).Some? && !TouchesTestIrq(Fetch(p, b).value, b) && !ReadsSystem(Fetch(p, b).value, 2)
    ensures KeepsS0(p, b) <==> !WritesS0(Fetch(p, b).value)
  {
  }

  lemma RunStep(p: Profile, b0: State, n: nat)
    requires b0.Valid() && Run(p, b0, n).Some?
    ensures Run(p, b0, n + 1) == Step(p, Run(p, b0, n).value)
  {
  }

  lemma AgreeSelf(p: Profile, b: State, i: Insn)
    requires b.Valid()
    ensures Agree(b, b) && SameSystem(b, b) && Unobservable(i, b.s[0], b.s[0]) && (!b.irqLine ==> !Interrupted(p, b))
  {
  }

  lemma EffectMeaning(i: Insn, a: State, b: State, a': State, b': State)
    requires a.Valid() && b.Valid() && a'.Valid() && b'.Valid() && PlainEffect(i, a, b, a', b')
    ensures Agree(a', b') && SameSystem(a', b') && a'.irqLine == a.irqLine && b'.irqLine == b.irqLine && a'.irqTaken == a.irqTaken
    ensures WritesS0(i) ==> a'.s[0] == b'.s[0]
    ensures !WritesS0(i) ==> a'.s[0] == a.s[0] && b'.s[0] == b.s[0]
  {
  }

  /** The marks an instruction leaves visible, or removes. */
  lemma MarkKept(p: Profile, b0: State, N: nat, n: nat, v: u16)
    requires b0.Valid() && n < N && Run(p, b0, n).Some? && Run(p, b0, n + 1).Some? && S0Explained(p, b0, n, v)
    ensures S0Safe(p, b0, N) && Fetch(p, Run(p, b0, n).value).Some? && ReadsSystem(Fetch(p, Run(p, b0, n).value).value, 0) ==>
              Unobservable(Fetch(p, Run(p, b0, n).value).value, v, Run(p, b0, n).value.s[0])
    ensures KeepsS0(p, Run(p, b0, n).value) && Run(p, b0, n + 1).value.s[0] == Run(p, b0, n).value.s[0] ==>
              S0Explained(p, b0, n + 1, v)
  {
    hide Run, Fetch, ReadsSystem, KeepsS0;
    var b := Run(p, b0, n).value;
    if v != b.s[0] {
      var k :| 0 <= k <= n && Clobbered(p, b0, k, n) && v == ByteOf(Run(p, b0, k).value.pc);
      if S0Safe(p, b0, N) { assert Indifferent(p, b, Run(p, b0, k).value); }
      if KeepsS0(p, b) { assert Clobbered(p, b0, k, n + 1); }
    }
  }

  lemma InStepOutside(p: Profile, b0: State, h: u16, a: State, n: nat)
    requires b0.Valid() && a.Valid()
    ensures InStep(p, b0, h, a, Progress(n, 0)) <==>
              && Run(p, b0, n).Some? && Agree(a, Run(p, b0, n).value) && SameSystem(a, Run(p, b0, n).value)
              && S0Explained(p, b0, n, a.s[0])
  {
  }

  lemma Explained(p: Profile, b0: State, n: nat, v: u16)
    requires b0.Valid() && Run(p, b0, n).Some?
    requires v == Run(p, b0, n).value.s[0]
    ensures S0Explained(p, b0, n, v)
  {
  }

  /** One more step outside the handler. */
  lemma ProgramStep(p: Profile, b0: State, h: u16, N: nat, n: nat, a: State)
    requires b0.Valid() && a.Valid() && Plain(p, b0, h, N) && S0Safe(p, b0, N) && n < N
    requires InStep(p, b0, h, a, Progress(n, 0)) && !Interrupted(p, a)
    ensures Step(p, a).Some? && InStep(p, b0, h, Step(p, a).value, Progress(n + 1, 0))
    ensures Step(p, a).value.irqTaken == a.irqTaken && Step(p, a).value.irqLine == a.irqLine
    ensures KeepsS0(p, Run(p, b0, n).value) ==> Step(p, a).value.s[0] == a.s[0]
  {
    hide *;
    PlainMeaning(p, b0, h, N);
    QuietRun(p, b0, h, N, n);
    InStepOutside(p, b0, h, a, n);
    RunStep(p, b0, n);
    var b, b' := Run(p, b0, n).value, Run(p, b0, n + 1).value;
    PlainAtMeaning(p, b);
    var i := Fetch(p, b).value;
    Sizes(a);
    Sizes(b);
    MarkKept(p, b0, N, n, a.s[0]);
    PlainStep(p, a, b, i);
    var a' := Step(p, a).value;
    Sizes(a');
    Sizes(b');
    EffectMeaning(i, a, b, a', b');
    if WritesS0(i) { Explained(p, b0, n + 1, a'.s[0]); }
    InStepOutside(p, b0, h, a', n + 1);
  }

  /** The cost of interrupts: eight steps each. */
  ghost predicate Counted(m: nat, g: Progress, taken: int) {
    g.phase < 8 && m == g.n + 8 * taken - if g.phase == 0 then 0 else 8 - g.phase
  }

  function NextProgress(p: Profile, g: Progress, a: State): Progress {
    if g.phase != 0 then Progress(g.n, (g.phase + 1) % 8)
    else if Interrupted(p, a) then Progress(g.n, 1)
    else Progress(g.n + 1, 0)
  }

  lemma RaisedStep(p: Profile, b0: State, raises: seq<bool>)
    requires b0.Valid() && raises != []
    ensures var m, before := |raises| - 1, RaisedRun(p, b0, raises[..|raises| - 1]);
            before.Some? ==>
              && Raise(before.value, raises[m]).Valid()
              && RaisedRun(p, b0, raises) == Step(p, Raise(before.value, raises[m]))
              && ProgressOf(p, b0, raises) == NextProgress(p, ProgressOf(p, b0, raises[..m]), Raise(before.value, raises[m]))
    ensures ProgressOf(p, b0, raises[..|raises| - 1]).n <= ProgressOf(p, b0, raises).n
  {
    hide Step, Interrupted, State.Valid, Raise;
    var before := RaisedRun(p, b0, raises[..|raises| - 1]);
    if before.Some? { RaiseValid(before.value, raises[|raises| - 1]); }
  }

  lemma RaiseValid(a: State, up: bool)
    requires a.Valid()
    ensures Raise(a, up).Valid()
  {
  }

  lemma RaiseKeeps(p: Profile, b0: State, h: u16, a: State, g: Progress, up: bool)
    requires b0.Valid() && a.Valid() && InStep(p, b0, h, a, g)
    ensures Raise(a, up).Valid() && InStep(p, b0, h, Raise(a, up), g) && Raise(a, up).irqTaken == a.irqTaken
    ensures Raise(a, up).irqLine == (a.irqLine || up) && Raise(a, up).s == a.s
  {
    hide Run, S0Explained;
  }

  lemma InStepInside(p: Profile, b0: State, h: u16, a: State, g: Progress)
    requires b0.Valid() && a.Valid() && g.phase != 0
    ensures InStep(p, b0, h, a, g) <==> Run(p, b0, g.n).Some? && InHandler(a, Run(p, b0, g.n).value, h, g.phase)
  {
  }

  lemma HandlerMarks(p: Profile, b0: State, n: nat)
    requires b0.Valid() && Run(p, b0, n).Some? && Run(p, b0, n).value.ie
    ensures S0Explained(p, b0, n, ByteOf(Run(p, b0, n).value.pc))
  {
    assert Clobbered(p, b0, n, n);
  }

  lemma SuspendedMeaning(a: State, b: State, h: u16, phase: nat)
    requires a.Valid() && b.Valid() && InHandler(a, b, h, phase)
    ensures 1 <= phase <= 7 && b.ie
  {
  }

  /** Any step of the raised run keeps it in step with the uninterrupted one. */
  lemma OneStep(p: Profile, b0: State, h: u16, N: nat, g: Progress, a: State)
    requires b0.Valid() && a.Valid() && Plain(p, b0, h, N) && S0Safe(p, b0, N)
    requires g.phase < 8 && g.n <= N && NextProgress(p, g, a).n <= N && InStep(p, b0, h, a, g)
    ensures Step(p, a).Some? && InStep(p, b0, h, Step(p, a).value, NextProgress(p, g, a)) && NextProgress(p, g, a).phase < 8
    ensures var a', g' := Step(p, a).value, NextProgress(p, g, a);
            && (g.phase == 0 && g'.phase == 1 ==> a'.irqTaken == a.irqTaken + 1 && a'.irqLine == a.irqLine)
            && (g.phase != 0 ==> g' == Progress(g.n, if g.phase == 7 then 0 else g.phase + 1)
                                 && a'.irqTaken == a.irqTaken && a'.irqLine == (if g.phase == 5 then false else a.irqLine))
            && (g.phase == 0 && g'.phase == 0 ==> g'.n == g.n + 1 && a'.irqTaken == a.irqTaken && a'.irqLine == a.irqLine)
            && (g.phase == 0 && g'.phase == 0 && Run(p, b0, g.n).Some? && KeepsS0(p, Run(p, b0, g.n).value) ==> Sized(a') && Sized(a) && a'.s[0] == a.s[0])
            && (g.phase == 7 ==> Run(p, b0, g.n).Some? && Sized(a') && a'.s[0] == ByteOf(Run(p, b0, g.n).value.pc))
  {
    hide *;
    PlainMeaning(p, b0, h, N);
    NextMeaning(p, g, a);
    Sizes(a);
    var b := Run(p, b0, g.n).value;
    var g' := NextProgress(p, g, a);
    if g.phase != 0 {
      InStepInside(p, b0, h, a, g);
      SuspendedMeaning(a, b, h, g.phase);
      HandlerStep(p, a, b, h, g.phase);
      var a' := Step(p, a).value;
      Sizes(a');
      SizedMeaning(a');
      if g.phase == 7 {
        HandlerMarks(p, b0, g.n);
        InStepOutside(p, b0, h, a', g.n);
      } else {
        InStepInside(p, b0, h, a', g');
      }
    } else if Interrupted(p, a) {
      InStepOutside(p, b0, h, a, g.n);
      Sizes(b);
      EnterHandler(p, a, b, h);
      InStepInside(p, b0, h, Step(p, a).value, g');
    } else {
      ProgramStep(p, b0, h, N, g.n, a);
      SizedMeaning(a);
      Sizes(Step(p, a).value);
      SizedMeaning(Step(p, a).value);
    }
  }

  predicate Sized(a: State) { |a.s| == 8 }

  lemma SizedMeaning(a: State)
    requires |a.s| == 8
    ensures Sized(a)
  {
  }

  lemma NextMeaning(p: Profile, g: Progress, a: State)
    requires g.phase < 8
    ensures var g' := NextProgress(p, g, a);
            && (g.phase != 0 ==> g' == Progress(g.n, if g.phase == 7 then 0 else g.phase + 1))
            && (g.phase == 0 && Interrupted(p, a) ==> g' == Progress(g.n, 1))
            && (g.phase == 0 && !Interrupted(p, a) ==> g' == Progress(g.n + 1, 0))
  {
  }

  lemma RunStart(p: Profile, b0: State, h: u16)
    requires b0.Valid()
    ensures RaisedRun(p, b0, []) == Some(b0) && ProgressOf(p, b0, []) == Progress(0, 0)
    ensures InStep(p, b0, h, b0, Progress(0, 0))
  {
  }

  /** Safety over whole runs: wherever the line is raised, the interrupted run stays in step with
  the uninterrupted one, and each interrupt costs exactly eight steps. */
  lemma {:induction false} Transparency(p: Profile, b0: State, h: u16, N: nat, raises: seq<bool>)
    requires b0.Valid() && Plain(p, b0, h, N) && S0Safe(p, b0, N) && ProgressOf(p, b0, raises).n <= N
    ensures RaisedRun(p, b0, raises).Some?
    ensures InStep(p, b0, h, RaisedRun(p, b0, raises).value, ProgressOf(p, b0, raises))
    ensures Counted(|raises|, ProgressOf(p, b0, raises), RaisedRun(p, b0, raises).value.irqTaken - b0.irqTaken)
    decreases |raises|
  {
    hide *;
    RunStart(p, b0, h);
    if raises == [] {
      CountMeaning(0, Progress(0, 0), 0);
    } else {
      var m := |raises| - 1;
      var before := raises[..m];
      RaisedStep(p, b0, raises);
      Transparency(p, b0, h, N, before);
      var g, a := ProgressOf(p, b0, before), RaisedRun(p, b0, before).value;
      CountMeaning(m, g, a.irqTaken - b0.irqTaken);
      RaiseKeeps(p, b0, h, a, g, raises[m]);
      OneStep(p, b0, h, N, g, Raise(a, raises[m]));
      NextMeaning(p, g, Raise(a, raises[m]));
      CountMeaning(|raises|, ProgressOf(p, b0, raises), RaisedRun(p, b0, raises).value.irqTaken - b0.irqTaken);
    }
  }

  lemma CountMeaning(m: nat, g: Progress, taken: int)
    ensures Counted(m, g, taken) <==> g.phase < 8 && m == g.n + 8 * taken - if g.phase == 0 then 0 else 8 - g.phase
  {
  }

  // ----- exactly when interrupts are transparent -----

  ghost predicate AlwaysPlain(p: Profile, b0: State, h: u16)
    requires b0.Valid()
  {
    forall N: nat :: Plain(p, b0, h, N)
  }

  ghost predicate AlwaysSafe(p: Profile, b0: State)
    requires b0.Valid()
  {
    forall N: nat :: S0Safe(p, b0, N)
  }

  /** The schedule does not make the raised run fail, nor differ outside the handler. */
  ghost predicate Transparent(p: Profile, b0: State, raises: seq<bool>)
    requires b0.Valid()
  {
    && RaisedRun(p, b0, raises).Some?
    && var a, g := RaisedRun(p, b0, raises).value, ProgressOf(p, b0, raises);
       g.phase == 0 ==> Run(p, b0, g.n).Some? && Agree(a, Run(p, b0, g.n).value)
  }

  /** The schedule of one interrupt, at boundary k. */
  function Single(k: nat, m: nat): (raises: seq<bool>)
    ensures |raises| == m && forall i :: 0 <= i < m ==> raises[i] == (i == k)
  {
    seq(m, i => i == k)
  }

  lemma SinglePrefix(k: nat, m: nat)
    requires m > 0
    ensures Single(k, m)[..m - 1] == Single(k, m - 1)
  {
  }

  /** The run with one interrupt, at boundary k, up to where its mark is read at boundary n. */
  ghost predicate SingleState(p: Profile, b0: State, h: u16, k: nat, m: nat)
    requires b0.Valid()
  {
    && RaisedRun(p, b0, Single(k, m)).Some? && Run(p, b0, k).Some?
    && var a, g := RaisedRun(p, b0, Single(k, m)).value, ProgressOf(p, b0, Single(k, m));
       && InStep(p, b0, h, a, g)
       && (m <= k ==> g == Progress(m, 0) && !a.irqLine)
       && (k < m < k + 8 ==> g == Progress(k, m - k) && (a.irqLine <==> m - k <= 5))
       && (k + 8 <= m ==> g == Progress(m - 8, 0) && !a.irqLine && Sized(a) && a.s[0] == ByteOf(Run(p, b0, k).value.pc))
  }

  lemma SingleMeaning(p: Profile, b0: State, h: u16, k: nat, m: nat)
    requires b0.Valid() && RaisedRun(p, b0, Single(k, m)).Some? && Run(p, b0, k).Some?
    ensures var a, g := RaisedRun(p, b0, Single(k, m)).value, ProgressOf(p, b0, Single(k, m));
            SingleState(p, b0, h, k, m) <==>
              && InStep(p, b0, h, a, g)
              && (m <= k ==> g == Progress(m, 0) && !a.irqLine)
              && (k < m < k + 8 ==> g == Progress(k, m - k) && (a.irqLine <==> m - k <= 5))
              && (k + 8 <= m ==> g == Progress(m - 8, 0) && !a.irqLine && Sized(a) && a.s[0] == ByteOf(Run(p, b0, k).value.pc))
  {
  }

  lemma ClobberedMeaning(p: Profile, b0: State, k: nat, n: nat)
    requires b0.Valid() && Clobbered(p, b0, k, n)
    ensures k <= n && Run(p, b0, k).Some? && Run(p, b0, k).value.ie
    ensures forall j :: k <= j < n ==> Run(p, b0, j).Some? && KeepsS0(p, Run(p, b0, j).value)
  {
  }

  lemma {:induction false} SingleRun(p: Profile, b0: State, h: u16, n: nat, k: nat, m: nat)
    requires b0.Valid() && p.sysTier && Plain(p, b0, h, n) && S0Safe(p, b0, n) && Clobbered(p, b0, k, n) && m <= n + 8
    ensures RaisedRun(p, b0, Single(k, m)).Some? && Run(p, b0, k).Some? && SingleState(p, b0, h, k, m)
    decreases m
  {
    hide *;
    PlainMeaning(p, b0, h, n);
    ClobberedMeaning(p, b0, k, n);
    RunStart(p, b0, h);
    if m == 0 {
      assert Single(k, 0) == [];
    } else {
      SingleRun(p, b0, h, n, k, m - 1);
      SingleMeaning(p, b0, h, k, m - 1);
      SinglePrefix(k, m);
      RaisedStep(p, b0, Single(k, m));
      var a, g := RaisedRun(p, b0, Single(k, m - 1)).value, ProgressOf(p, b0, Single(k, m - 1));
      var up := Single(k, m)[m - 1];
      RaiseKeeps(p, b0, h, a, g, up);
      var a1 := Raise(a, up);
      if g.phase == 0 { LineDecides(p, b0, h, a1, g.n); }
      NextMeaning(p, g, a1);
      OneStep(p, b0, h, n, g, a1);
    }
    SingleMeaning(p, b0, h, k, m);
  }

  /** Outside the handler, an interrupt is taken when the line is up and interrupts are on. */
  lemma LineDecides(p: Profile, b0: State, h: u16, a: State, n: nat)
    requires b0.Valid() && a.Valid() && p.sysTier && InStep(p, b0, h, a, Progress(n, 0))
    ensures Run(p, b0, n).Some? && (Interrupted(p, a) <==> a.irqLine && Run(p, b0, n).value.ie)
  {
  }

  /** Reading the mark where it matters makes the runs differ. */
  lemma MarkSeen(p: Profile, a: State, b: State, mark: u16)
    requires a.Valid() && b.Valid() && Agree(a, b) && !Interrupted(p, a) && !Interrupted(p, b) && a.s[0] == mark
    requires Fetch(p, b).Some? && ReadsSystem(Fetch(p, b).value, 0) && !Unobservable(Fetch(p, b).value, mark, b.s[0])
    ensures Step(p, a).Some? && Step(p, b).Some? && !Agree(Step(p, a).value, Step(p, b).value)
  {
    hide Decode, LoadInto, StoreWhole, StoreByte, Divide, Multiply, AluResult, ImmResult, ShiftResult, LoadedByte, SignExtended, FunnelLeft, FunnelRight;
    if Fetch(p, b).value.Mfs? {
      var rd := Fetch(p, b).value.rd;
      assert Step(p, a).value.r[rd] != Step(p, b).value.r[rd];
    }
  }

  /** If S0 is read before n + 1 where an interrupt shows, some schedule is not transparent. */
  lemma Exposed(p: Profile, b0: State, h: u16, n: nat, k: nat)
    requires b0.Valid() && p.sysTier && Plain(p, b0, h, n + 1) && S0Safe(p, b0, n)
    requires Clobbered(p, b0, k, n) && Run(p, b0, n).Some? && Run(p, b0, k).Some?
    requires !Indifferent(p, Run(p, b0, n).value, Run(p, b0, k).value)
    ensures !Transparent(p, b0, Single(k, n + 9))
  {
    hide *;
    FewerPlain(p, b0, h, n);
    PlainMeaning(p, b0, h, n + 1);
    ClobberedMeaning(p, b0, k, n);
    var raises := Single(k, n + 9);
    SingleRun(p, b0, h, n, k, n + 8);
    SingleMeaning(p, b0, h, k, n + 8);
    SinglePrefix(k, n + 9);
    RaisedStep(p, b0, raises);
    var a, b := RaisedRun(p, b0, Single(k, n + 8)).value, Run(p, b0, n).value;
    RaiseKeeps(p, b0, h, a, Progress(n, 0), false);
    var a1 := Raise(a, false);
    LineDecides(p, b0, h, a1, n);
    InStepOutside(p, b0, h, a1, n);
    QuietRun(p, b0, h, n, n);
    AgreeSelf(p, b, Cli);
    NextMeaning(p, Progress(n, 0), a1);
    Sizes(a);
    Sizes(a1);
    Sizes(b);
    IndifferentMeaning(p, b, Run(p, b0, k).value);
    MarkSeen(p, a1, b, ByteOf(Run(p, b0, k).value.pc));
    RunStep(p, b0, n);
    TransparentMeaning(p, b0, raises);
  }

  lemma IndifferentMeaning(p: Profile, b: State, k: State)
    requires b.Valid() && !Indifferent(p, b, k)
    ensures Fetch(p, b).Some? && ReadsSystem(Fetch(p, b).value, 0) && |b.s| == 8
    ensures !Unobservable(Fetch(p, b).value, ByteOf(k.pc), b.s[0])
  {
  }

  lemma TransparentMeaning(p: Profile, b0: State, raises: seq<bool>)
    requires b0.Valid() && RaisedRun(p, b0, raises).Some? && ProgressOf(p, b0, raises).phase == 0
    ensures Transparent(p, b0, raises) <==>
              && Run(p, b0, ProgressOf(p, b0, raises).n).Some?
              && Agree(RaisedRun(p, b0, raises).value, Run(p, b0, ProgressOf(p, b0, raises).n).value)
  {
  }

  lemma FewerPlain(p: Profile, b0: State, h: u16, n: nat)
    requires b0.Valid() && Plain(p, b0, h, n + 1)
    ensures Plain(p, b0, h, n)
  {
  }

  /** The first unsafe read. */
  lemma {:induction false} FirstUnsafe(p: Profile, b0: State, N: nat) returns (n: nat, k: nat)
    requires b0.Valid() && !S0Safe(p, b0, N)
    ensures n < N && S0Safe(p, b0, n) && k <= n && Run(p, b0, n).Some? && Clobbered(p, b0, k, n) && Run(p, b0, k).Some?
    ensures !Indifferent(p, Run(p, b0, n).value, Run(p, b0, k).value)
    decreases N
  {
    hide Indifferent, Run;
    if N > 0 && !S0Safe(p, b0, N - 1) {
      n, k := FirstUnsafe(p, b0, N - 1);
    } else {
      n, k :| 0 <= k <= n < N && Run(p, b0, n).Some? && Clobbered(p, b0, k, n) &&
              !Indifferent(p, Run(p, b0, n).value, Run(p, b0, k).value);
    }
  }

  /** Interrupts are transparent to a program, wherever they arrive, exactly when it never reads
  the mark of an interrupt from S0. */
  lemma TransparencyExact(p: Profile, b0: State, h: u16)
    requires b0.Valid() && p.sysTier && AlwaysPlain(p, b0, h)
    ensures AlwaysSafe(p, b0) <==> forall raises :: Transparent(p, b0, raises)
  {
    hide Plain, S0Safe, Transparent, InStep, Run, RaisedRun, ProgressOf;
    if AlwaysSafe(p, b0) {
      forall raises ensures Transparent(p, b0, raises) {
        var N := ProgressOf(p, b0, raises).n;
        assert Plain(p, b0, h, N) && S0Safe(p, b0, N);
        Transparency(p, b0, h, N, raises);
        InStepTransparent(p, b0, h, raises);
      }
    } else {
      var N: nat :| !S0Safe(p, b0, N);
      var n, k := FirstUnsafe(p, b0, N);
      assert Plain(p, b0, h, n + 1);
      Exposed(p, b0, h, n, k);
    }
  }

  lemma InStepTransparent(p: Profile, b0: State, h: u16, raises: seq<bool>)
    requires b0.Valid() && RaisedRun(p, b0, raises).Some?
    requires InStep(p, b0, h, RaisedRun(p, b0, raises).value, ProgressOf(p, b0, raises))
    ensures Transparent(p, b0, raises)
  {
  }
}
