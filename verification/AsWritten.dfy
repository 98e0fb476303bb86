/** What each mnemonic of the assembler does when its words are run, said without the instruction it
stands for, and the published words of every mnemonic (sections 3 to 6 of doc/RISC-C-ISA.md). */
module AsWritten {
  import opened Bits
  import opened Isa
  import opened Assembler
  import opened IsaLaws

  ghost predicate Gives(st: State, out: Option<State>, rd: u3, v: u16) {
    out.Some? && OnlyRegister(st, out.value, rd) && out.value.r[rd] == v
  }

  ghost predicate Leaves(st: State, out: Option<State>, rd: u3) {
    out.Some? && OnlyRegister(st, out.value, rd)
  }

  /** An address, modulo the size of the address space. */
  function Sum(a: u16, b: int): u16 { (a + b) % 0x1_0000 }

  /** Control goes to pc and nothing else happens. */
  ghost predicate Goes(st: State, out: Option<State>, pc: int) {
    out == Some(Moved(st, pc))
  }

  /** The operand that is not a register, if there is one. */
  function Operand(i: Source): int {
    match i
    case JALL(_, target) => target
    case JMPL(target) => target
    case LDI16(_, value) => value
    case LD(_, _, disp) => disp
    case ST(_, _, disp) => disp
    case IMM(_, _, value) => value
    case BRANCH(_, target) => target
    case JMP8(target) => target
    case SHIFT(_, _, _, amount) => amount
    case _ => 0
  }

  /** A computing mnemonic, with operand x, has the effect its name says. */
  ghost predicate Computes(p: Profile, i: Source, x: int, st: State, out: Option<State>)
    requires st.Valid()
  {
    match i
    case NOP => Goes(st, out, st.pc + 1)
    case MOV(rd, ra) => Gives(st, out, rd, st.r[ra])
    case SHL1(rd, ra) => Leaves(st, out, rd) && (out.value.r[rd] - 2 * (st.r[ra] as int)) % 0x1_0000 == 0
    case ALU(op, rd, ra, rb) => Leaves(st, out, rd) && AluGives(p, op, st.r[ra], st.r[rb], out.value.r[rd])
    case IMM(op, rd, _) => var d: u3 := if op == CMPI then 0 else rd; Leaves(st, out, d) && ImmGives(op, st.r[rd], x, out.value.r[d])
    case SHIFT(op, rd, ra, _) => x >= 0 && Leaves(st, out, rd) && ShiftGives(op, st.r[ra], x, out.value.r[rd])
    case FSL1(rd, ra) => Leaves(st, out, rd) && FunnelGives(true, st.r[rd], st.r[ra], out.value.r[rd])
    case FSR1(rd, ra) => Leaves(st, out, rd) && FunnelGives(false, st.r[rd], st.r[ra], out.value.r[rd])
    case DIVU(rd, ra, rb) => DivuGives(st, out, rd, ra, rb)
    case MULHU(rd, ra, rb) => MulhuGives(st, out, rd, ra, rb)
    case MFS(rd, sa) => Gives(st, out, rd, st.s[sa])
    case MFEPC(rd) => Gives(st, out, rd, st.s[0])
    case MTS(sd, ra) => out.Some? && OnlySystem(st, out.value, sd) && out.value.s[sd] == st.r[ra]
    case MTEPC(ra) => out.Some? && OnlySystem(st, out.value, 0) && out.value.s[0] == st.r[ra]
    case _ => true
  }

  /** So has a mnemonic for memory or control. */
  ghost predicate Transfers(p: Profile, i: Source, x: int, st: State, out: Option<State>)
    requires st.Valid()
  {
    match i
    case LD(rd, ra, _) => out.Some? && LoadsWord(st, out.value, rd, Sum(st.r[ra], x))
    case LDX(rd, ra, rb) => out.Some? && LoadsWord(st, out.value, rd, Sum(st.r[ra], st.r[rb]))
    case ST(rd, ra, _) =>
      out.Some? && var a := Sum(st.r[ra], x); StoresBytes(st, out.value, a - a % 2, a - a % 2 + 1, st.r[rd])
    case LDB(rd, ra) => Gives(st, out, rd, ByteIn(st.mem, st.r[ra]))
    case LDBS(rd, ra) => Leaves(st, out, rd) && ExtendsSign(ByteIn(st.mem, st.r[ra]), out.value.r[rd])
    case STB(rd, ra) => out.Some? && StoresBytes(st, out.value, st.r[ra], st.r[ra], st.r[rd])
    case BRANCH(cc, _) => Goes(st, out, if Taken(cc, Signed16(st.r[0])) then x / 2 else st.pc + 1)
    case JMP8(_) => out == Some(Moved(st, x / 2).(halted := st.halted || x / 2 % 0x8000 == st.pc))
    case HALT => out == Some(Moved(st, st.pc).(halted := true))
    case JMP(ra) => Goes(st, out, st.r[ra] / 2)
    case JMPL(_) => Goes(st, out, x / 2)
    case JALR(sd, ra) => Calls(p, st, out, sd, st.r[ra] / 2, st.pc + 1)
    case JALL(sd, _) => Calls(p, st, out, sd, x / 2, st.pc + 2)
    case RET(sa) => Goes(st, out, st.s[sa] / 2)
    case RETI(sa) => out == Some(Moved(st, st.s[sa] / 2).(ie := true))
    case CLI => out == Some(Moved(st, st.pc + 1).(ie := false))
    case STI => out == Some(Moved(st, st.pc + 1).(ie := true))
    case IFLUSH => Goes(st, out, st.pc + 1)
    case _ => true
  }

  /** A call to pc that saves where it returns to. */
  ghost predicate Calls(p: Profile, st: State, out: Option<State>, sd: u3, pc: int, back: int) {
    && out.Some? && out.value.Valid() && st.Valid() && out.value.(r := st.r, s := st.s) == Moved(st, pc)
    && (forall k: u3 :: k != sd ==> out.value.r[k] == st.r[k] && out.value.s[k] == st.s[k])
    && (if sd != 0 && p.nano then out.value.r[sd] == 2 * (back % 0x8000) else out.value.r == st.r)
    && (if sd != 0 && !p.nano then out.value.s[sd] == 2 * (back % 0x8000) else out.value.s == st.s)
  }

  /** The words of i are in memory at pc, in a build that has them, and no interrupt is pending. */
  ghost predicate Ready(p: Profile, i: Source, pc: int, iflush: bool, st: State) {
    && Build(p) && st.Valid() && EncodeInsn(i, pc, iflush).Ok? && !i.LDI16?
    && Assembler.Loaded(p, st, EncodeInsn(i, pc, iflush).value) && |Meaning(i, pc)| == 1 && Enabled(p, Meaning(i, pc)[0])
    && pc == 2 * st.pc
  }

  lemma RunsWritten(p: Profile, i: Source, pc: int, iflush: bool, st: State)
    requires Ready(p, i, pc, iflush, st)
    ensures Runs(p, st, Meaning(i, pc)[0])
  {
    hide EncodeInsn, Meaning, Decode, Enabled, Build, Assembler.Loaded;
    var ws := EncodeInsn(i, pc, iflush).value;
    EncodedMeans(i, pc, iflush, p);
    WordCount(i, pc, iflush);
    LoadedWords(p, st, ws);
    if |ws| == 1 { assert MeansOne(p, ws[0], Meaning(i, pc)[0]); }
  }

  /** What a computing mnemonic of a build has been checked for. */
  lemma OperandsFit(p: Profile, i: Source, pc: int, iflush: bool, st: State)
    requires Ready(p, i, pc, iflush, st)
    ensures i.IMM? && (i.op == ADDI || i.op == CMPI) ==> -128 <= i.value <= 127
    ensures i.SHIFT? ==> i.amount >= 0
    ensures i.DIVU? || i.MULHU? ==> i.rd != i.ra
    ensures i.LD? || i.ST? ==> i.disp % 2 == 0
  {
    hide EncMemI, EncI, EncR, EncBranch, EncodeBranch, EncodeLong, Build, Assembler.Loaded;
  }

  /** Or of a word with itself, and a register written with its own value. */
  lemma CopyDoes(p: Profile, st: State, out: Option<State>, rd: u3, a: u16)
    requires Leaves(st, out, rd) && AluGives(p, OR, a, a, out.value.r[rd])
    ensures Gives(st, out, rd, a)
    ensures a == st.r[rd] ==> Goes(st, out, st.pc + 1)
  {
    hide Bit;
    AluUnique(p, OR, a, a, out.value.r[rd], a);
    if a == st.r[rd] {
      assert out.value.r == st.r;
    }
  }

  /** Every computing mnemonic, run from its encoding, computes what its name says. */
  lemma ComputesAsWritten(p: Profile, i: Source, pc: int, iflush: bool, st: State)
    requires Ready(p, i, pc, iflush, st)
    ensures Computes(p, i, Operand(i), st, Step(p, st))
  {
    hide *;
    RunsWritten(p, i, pc, iflush, st);
    if i.NOP? || i.MOV? || i.SHL1? || i.MFS? || i.MFEPC? || i.MTS? || i.MTEPC? {
      MovesAsWritten(p, i, pc, iflush, st);
    } else {
      ResultsAsWritten(p, i, pc, iflush, st);
    }
  }

  lemma MovesAsWritten(p: Profile, i: Source, pc: int, iflush: bool, st: State)
    requires Ready(p, i, pc, iflush, st) && Runs(p, st, Meaning(i, pc)[0])
    requires i.NOP? || i.MOV? || i.SHL1? || i.MFS? || i.MFEPC? || i.MTS? || i.MTEPC?
    ensures Computes(p, i, Operand(i), st, Step(p, st))
  {
    hide EncodeInsn, Decode, Enabled, Build, Assembler.Loaded, Step, Runs, AluGives, OnlyRegister, OnlySystem, Goes;
    match i
    case NOP => AluStep(p, st, OR, 0, 0, 0); CopyDoes(p, st, Step(p, st), 0, st.r[0]);
    case MOV(rd, ra) => AluStep(p, st, OR, rd, ra, ra); CopyDoes(p, st, Step(p, st), rd, st.r[ra]);
    case SHL1(rd, ra) => AluStep(p, st, ADD, rd, ra, ra); Doubles(p, st.r[ra], Step(p, st).value.r[rd]);
    case MFS(rd, sa) => SystemStep(p, st, rd, sa);
    case MFEPC(rd) => SystemStep(p, st, rd, 0);
    case MTS(sd, ra) => SystemStep(p, st, sd, ra);
    case MTEPC(ra) => SystemStep(p, st, 0, ra);
  }

  lemma ResultsAsWritten(p: Profile, i: Source, pc: int, iflush: bool, st: State)
    requires Ready(p, i, pc, iflush, st) && Runs(p, st, Meaning(i, pc)[0])
    requires !(i.NOP? || i.MOV? || i.SHL1? || i.MFS? || i.MFEPC? || i.MTS? || i.MTEPC?)
    ensures Computes(p, i, Operand(i), st, Step(p, st))
  {
    hide *;
    OperandsFit(p, i, pc, iflush, st);
    if i.DIVU? || i.MULHU? || i.FSL1? || i.FSR1? {
      PairsAsWritten(p, i, pc, iflush, st);
    } else {
      WordsAsWritten(p, i, pc, iflush, st);
    }
  }

  lemma PairsAsWritten(p: Profile, i: Source, pc: int, iflush: bool, st: State)
    requires Ready(p, i, pc, iflush, st) && Runs(p, st, Meaning(i, pc)[0])
    requires i.FSL1? || i.FSR1? || ((i.DIVU? || i.MULHU?) && i.rd != i.ra)
    ensures Computes(p, i, Operand(i), st, Step(p, st))
  {
    hide EncodeInsn, Decode, Enabled, Build, Assembler.Loaded, Step, Runs, FunnelGives, DivuGives, MulhuGives, OnlyRegister;
    match i
    case FSL1(rd, ra) => FunnelStep(p, st, true, rd, ra);
    case FSR1(rd, ra) => FunnelStep(p, st, false, rd, ra);
    case DIVU(rd, ra, rb) => DivuStep(p, st, rd, ra, rb);
    case MULHU(rd, ra, rb) => MulhuStep(p, st, rd, ra, rb);
  }

  lemma WordsAsWritten(p: Profile, i: Source, pc: int, iflush: bool, st: State)
    requires Ready(p, i, pc, iflush, st) && Runs(p, st, Meaning(i, pc)[0])
    requires !(i.NOP? || i.MOV? || i.SHL1? || i.MFS? || i.MFEPC? || i.MTS? || i.MTEPC? || i.DIVU? || i.MULHU? || i.FSL1? || i.FSR1?)
    requires (i.IMM? && (i.op == ADDI || i.op == CMPI) ==> -128 <= i.value <= 127) && (i.SHIFT? ==> i.amount >= 0)
    ensures Computes(p, i, Operand(i), st, Step(p, st))
  {
    hide EncodeInsn, Decode, Enabled, Build, Assembler.Loaded, Step, Runs, AluGives, ImmGives, ShiftGives, OnlyRegister;
    match i
    case ALU(op, rd, ra, rb) => AluStep(p, st, op, rd, ra, rb);
    case IMM(op, rd, x) => ImmStep(p, st, op, rd, x);
    case SHIFT(op, rd, ra, n) => IsaLaws.ShiftStep(p, st, op, rd, ra, n);
    case _ =>
  }

  lemma Doubles(p: Profile, a: u16, v: u16)
    requires AluGives(p, ADD, a, a, v)
    ensures (v - 2 * (a as int)) % 0x1_0000 == 0
  {
  }

  /** Every mnemonic for memory or control, run from its encoding at its own address. */
  lemma TransfersAsWritten(p: Profile, i: Source, pc: int, iflush: bool, st: State)
    requires Ready(p, i, pc, iflush, st)
    ensures Transfers(p, i, Operand(i), st, Step(p, st))
  {
    hide *;
    RunsWritten(p, i, pc, iflush, st);
    if i.BRANCH? || i.JMP8? || i.HALT? {
      ShortJumps(p, i, pc, iflush, st);
    } else if i.JMP? || i.JALR? || i.JMPL? || i.JALL? {
      CallsAsWritten(p, i, pc, iflush, st);
    } else if i.RET? || i.RETI? || i.CLI? || i.STI? || i.IFLUSH? {
      ControlAsWritten(p, i, pc, iflush, st);
    } else {
      AccessesAsWritten(p, i, pc, iflush, st);
    }
  }

  lemma ControlAsWritten(p: Profile, i: Source, pc: int, iflush: bool, st: State)
    requires Ready(p, i, pc, iflush, st) && Runs(p, st, Meaning(i, pc)[0]) && (i.RET? || i.RETI? || i.CLI? || i.STI? || i.IFLUSH?)
    ensures Transfers(p, i, Operand(i), st, Step(p, st))
  {
    hide EncodeInsn, Decode, Enabled, Build, Assembler.Loaded, Step, Runs, LoadsWord, StoresBytes, ExtendsSign, ByteIn;
    match i
    case RET(sa) => ReturnStep(p, st, sa);
    case RETI(sa) => ReturnStep(p, st, sa);
    case CLI => FlagStep(p, st);
    case STI => FlagStep(p, st);
    case IFLUSH => FlagStep(p, st);
  }

  lemma AccessesAsWritten(p: Profile, i: Source, pc: int, iflush: bool, st: State)
    requires Ready(p, i, pc, iflush, st) && Runs(p, st, Meaning(i, pc)[0])
    requires !(i.BRANCH? || i.JMP8? || i.HALT? || i.JMP? || i.JALR? || i.JMPL? || i.JALL? || i.RET? || i.RETI? || i.CLI? || i.STI? || i.IFLUSH?)
    ensures Transfers(p, i, Operand(i), st, Step(p, st))
  {
    hide EncodeInsn, Decode, Enabled, Build, Assembler.Loaded, Step, Runs, OnlyRegister, LoadsWord, StoresBytes, ExtendsSign, ByteIn, Sum;
    match i
    case LD(rd, ra, disp) => Sums(st.r[ra], disp); LoadStep(p, st, Ld(rd, ra, disp), rd, Sum(st.r[ra], disp));
    case LDX(rd, ra, rb) => Sums(st.r[ra], st.r[rb]); LoadStep(p, st, Ldx(rd, ra, rb), rd, Sum(st.r[ra], st.r[rb]));
    case ST(rd, ra, disp) => Sums(st.r[ra], disp); StoreStep(p, st, rd, ra, disp, Sum(st.r[ra], disp));
    case LDB(rd, ra) => ByteLoadStep(p, st, rd, ra);
    case LDBS(rd, ra) => ByteLoadStep(p, st, rd, ra);
    case STB(rd, ra) => ByteStoreStep(p, st, rd, ra);
    case _ =>
  }

  lemma ShortJumps(p: Profile, i: Source, pc: int, iflush: bool, st: State)
    requires Ready(p, i, pc, iflush, st) && Runs(p, st, Meaning(i, pc)[0]) && (i.BRANCH? || i.JMP8? || i.HALT?)
    ensures Transfers(p, i, Operand(i), st, Step(p, st))
  {
    hide EncodeInsn, Decode, Enabled, Build, Assembler.Loaded, Step, Runs, LoadsWord, StoresBytes, ExtendsSign, ByteIn;
    match i
    case BRANCH(cc, target) => BranchStep(p, st, cc, Displacement(target, pc), Signed16(st.r[0])); Reaches(st.pc, target);
    case JMP8(target) => JumpStep(p, st, Displacement(target, pc)); Reaches(st.pc, target);
    case HALT => JumpStep(p, st, -1);
  }

  lemma CallsAsWritten(p: Profile, i: Source, pc: int, iflush: bool, st: State)
    requires Ready(p, i, pc, iflush, st) && Runs(p, st, Meaning(i, pc)[0]) && (i.JMP? || i.JALR? || i.JMPL? || i.JALL?)
    ensures Transfers(p, i, Operand(i), st, Step(p, st))
  {
    hide EncodeInsn, Decode, Enabled, Build, Assembler.Loaded, Step, Runs, LoadsWord, StoresBytes, ExtendsSign, ByteIn;
    match i
    case JMP(ra) => CallStep(p, st, 0, ra);
    case JALR(sd, ra) => CallStep(p, st, sd, ra);
    case JMPL(target) => LongCallStep(p, st, 0, Word(target)); TargetFits(target, pc, iflush, 0);
    case JALL(sd, target) => LongCallStep(p, st, sd, Word(target)); TargetFits(target, pc, iflush, sd); LongCallsInSys(p, i, pc, iflush, st);
  }

  lemma LongCallsInSys(p: Profile, i: Source, pc: int, iflush: bool, st: State)
    requires Ready(p, i, pc, iflush, st) && i.JALL?
    ensures !p.nano
  {
    hide EncodeInsn, Assembler.Loaded;
  }

  lemma Sums(a: u16, b: int)
    ensures (Sum(a, b) - b) % 0x1_0000 == a
  {
  }

  lemma Reaches(pc: u15, target: int)
    ensures pc + 1 + Displacement(target, 2 * pc) == target / 2
  {
  }

  lemma TargetFits(target: int, pc: int, iflush: bool, sd: u3)
    ensures EncodeInsn(JALL(sd, target), pc, iflush).Ok? || EncodeInsn(JMPL(target), pc, iflush).Ok? ==> Word(target) == target
  {
    hide EncodeLong;
  }

  // ----- which operands, and which words -----

  /** Every operand that the fields can hold is accepted and no other. */
  lemma AcceptedOperands(i: Source, pc: int, iflush: bool)
    ensures EncodeInsn(i, pc, iflush).Ok? <==>
              var x := Operand(i);
              match i
              case JALL(_, _) => 0 <= x < 0x1_0000 && x % 2 == 0
              case JMPL(_) => 0 <= x < 0x1_0000 && x % 2 == 0
              case LD(_, _, _) => -128 <= x <= 126 && x % 2 == 0
              case ST(_, _, _) => -128 <= x <= 126 && x % 2 == 0
              case IMM(op, _, _) => op == ADDI || op == CMPI ==> -128 <= x <= 127
              case SHIFT(_, _, _, _) => 1 <= x <= 8
              case BRANCH(_, _) => x % 2 == 0 && -128 <= Displacement(x, pc) <= 127
              case JMP8(_) => x % 2 == 0 && -128 <= Displacement(x, pc) <= 127
              case IFLUSH => iflush
              case _ => true
  {
    hide EncMemI, EncI, EncR, EncBranch, EncodeLong;
  }

  /** The published word of a register-format instruction. */
  function RegisterWord(d: u3, a: u3, f: nat, b: u3): u16
    requires f < 32
  {
    0xC000 + d * 0x800 + a * 0x100 + f * 8 + b
  }

  function ImmediateWord(d: u3, op: u3, imm: u8): u16 {
    0x8000 + d * 0x800 + op * 0x100 + imm
  }

  /** The operation fields of the immediate format, in a build that has everything. */
  lemma PublishedImmediates(p: Profile, d: u3, imm: u8, next: u16)
    requires p == MakeProfile(true, true, true, false, true)
    ensures Decode(p, ImmediateWord(d, 0, imm), next) == Some(Imm(LDI, d, imm)) && Decode(p, ImmediateWord(d, 1, imm), next) == Some(Imm(LUI, d, imm))
    ensures Decode(p, ImmediateWord(d, 2, imm), next) == Some(Imm(ADDI, d, imm)) && Decode(p, ImmediateWord(d, 3, imm), next) == Some(Imm(CMPI, d, imm))
    ensures Decode(p, ImmediateWord(d, 4, imm), next) == Some(Imm(ANDI, d, imm)) && Decode(p, ImmediateWord(d, 5, imm), next) == Some(Imm(ORI, d, imm))
    ensures Decode(p, ImmediateWord(d, 6, imm), next) == Some(Imm(XORI, d, imm))
  {
    hide Decode, EncI;
    forall op: u3 ensures Decode(p, ImmediateWord(d, op, imm), next) == DecodeImm(p, d, op, imm) {
      DecodeI(p, d, op, imm, next);
    }
  }

  /** The branch group, with the low seven bits of the displacement above its sign. */
  lemma PublishedBranches(p: Profile, rel: int, next: u16)
    requires -128 <= rel <= 127
    ensures var field := rel % 0x80 * 2 + if rel < 0 then 1 else 0;
            && Decode(p, ImmediateWord(0, 7, field), next) == Some(Branch(BEQZ, rel)) && Decode(p, ImmediateWord(1, 7, field), next) == Some(Branch(BNEZ, rel))
            && Decode(p, ImmediateWord(2, 7, field), next) == Some(Branch(BLTZ, rel)) && Decode(p, ImmediateWord(3, 7, field), next) == Some(Branch(BGEZ, rel))
            && Decode(p, ImmediateWord(4, 7, field), next) == Some(Jmp8(rel))
  {
    hide Decode, EncBranch;
    SignedField(rel);
    DecodeBranchField(p, 0, rel, next);
    DecodeBranchField(p, 1, rel, next);
    DecodeBranchField(p, 2, rel, next);
    DecodeBranchField(p, 3, rel, next);
    DecodeBranchField(p, 4, rel, next);
  }

  lemma SignedField(rel: int)
    requires -128 <= rel <= 127
    ensures var v := rel % 0x100; v % 0x80 * 2 + v / 0x80 == rel % 0x80 * 2 + if rel < 0 then 1 else 0
  {
  }

  /** The long call, and the load and store format. */
  lemma PublishedTransfers(p: Profile, d: u3, a: u3, disp: int, next: u16)
    requires p == MakeProfile(true, true, true, false, true) && -128 <= disp <= 126 && disp % 2 == 0
    ensures Decode(p, d * 0x800 + 0x34, next) == Some(Jall(d, next))
    ensures var w := 0x4000 + d * 0x800 + a * 0x100 + disp % 0x100;
            Decode(p, w, next) == Some(Ld(d, a, disp)) && Decode(p, w + 1, next) == Some(St(d, a, disp))
  {
    hide Decode, EncMemI;
    DecodeLongForm(p, d, next);
    DecodeMem(p, false, d, a, disp, next);
    DecodeMem(p, true, d, a, disp, next);
    EvenField(disp);
  }

  lemma EvenField(disp: int)
    requires disp % 2 == 0
    ensures disp % 0x100 % 2 == 0
  {
    DivModBasic(disp, 0x100);
    DivModBasic(disp, 2);
    DivModUnique(disp % 0x100, 2, disp / 2 - 0x80 * (disp / 0x100), 0);
  }

  /** The function fields of the register format. */
  lemma PublishedRegisters(p: Profile, d: u3, a: u3, b: u3, next: u16)
    requires p == MakeProfile(true, true, true, false, true)
    ensures Decode(p, RegisterWord(d, a, 0, b), next) == Some(Alu(ADD, d, a, b)) && Decode(p, RegisterWord(d, a, 1, b), next) == Some(Alu(SUB, d, a, b))
    ensures Decode(p, RegisterWord(d, a, 2, b), next) == Some(Alu(SLT, d, a, b)) && Decode(p, RegisterWord(d, a, 3, b), next) == Some(Alu(SLTU, d, a, b))
    ensures Decode(p, RegisterWord(d, a, 4, b), next) == Some(Alu(AND, d, a, b)) && Decode(p, RegisterWord(d, a, 5, b), next) == Some(Alu(OR, d, a, b))
    ensures Decode(p, RegisterWord(d, a, 6, b), next) == Some(Alu(XOR, d, a, b)) && Decode(p, RegisterWord(d, a, 7, b), next) == Some(Alu(MUL, d, a, b))
    ensures Decode(p, RegisterWord(d, a, 8, b), next) == Some(Ldx(d, a, b))
    ensures Decode(p, RegisterWord(d, a, 10, 0), next) == Some(Ldb(d, a)) && Decode(p, RegisterWord(d, a, 14, 0), next) == Some(Ldbs(d, a))
    ensures Decode(p, RegisterWord(d, a, 11, 0), next) == Some(Stb(d, a))
    ensures Decode(p, RegisterWord(d, a, 12, b), next) == Some(Shift(SRLI, d, a, b + 1))
    ensures Decode(p, RegisterWord(d, a, 13, b), next) == Some(Shift(SRAI, d, a, b + 1))
    ensures Decode(p, RegisterWord(d, a, 15, b), next) == Some(Shift(SLLI, d, a, b + 1))
    ensures d != a && d != b && a != b ==> Decode(p, RegisterWord(d, a, 16, b), next) == Some(Divu(d, a, b))
    ensures d != a ==> Decode(p, RegisterWord(d, a, 20, b), next) == Some(Mulhu(d, a, b))
    ensures Decode(p, RegisterWord(d, a, 17, 0), next) == Some(Fsl1(d, a)) && Decode(p, RegisterWord(d, a, 17, 1), next) == Some(Fsr1(d, a))
    ensures Decode(p, RegisterWord(0, a, 31, 0), next) == Some(Ret(a)) && Decode(p, RegisterWord(5, a, 31, 0), next) == Some(Reti(a))
    ensures Decode(p, RegisterWord(2, 0, 31, 0), next) == Some(Cli) && Decode(p, RegisterWord(7, 0, 31, 0), next) == Some(Sti)
    ensures Decode(p, RegisterWord(3, 0, 31, 0), next) == Some(Iflush)
    ensures Decode(p, RegisterWord(d, a, 31, 1), next) == Some(Jalr(d, a))
    ensures Decode(p, RegisterWord(d, a, 31, 2), next) == Some(Mfs(d, a)) && Decode(p, RegisterWord(d, a, 31, 3), next) == Some(Mts(d, a))
  {
    hide Decode, EncR;
    forall e: u3, c: u3, f: nat, g: u3 | f < 32 ensures Decode(p, RegisterWord(e, c, f, g), next) == DecodeReg(p, e, c, f, g) {
      DecodeR(p, e, c, f, g, next);
    }
  }
}
