/** The instruction encoder (encode_insn and the enc_* packers of tools/riscc_asm.py) and what
its words mean to the machine.  Operands are taken as evaluated: register numbers and integers. */
module Assembler {
  import opened Bits
  import opened Isa

  datatype Result<T> = Ok(value: T) | Error

  /** An instruction as written, with its operands evaluated. */
  datatype Source =
    | JALL(sd: u3, target: int)
    | JMPL(target: int)
    | RET(sa: u3)
    | RETI(sa: u3)
    | LDI16(rd: u3, value: int)
    | NOP
    | LD(rd: u3, ra: u3, disp: int)
    | ST(rd: u3, ra: u3, disp: int)
    | IMM(op: ImmOp, rd: u3, value: int)
    | BRANCH(cc: Condition, target: int)
    | JMP8(target: int)
    | MOV(rd: u3, ra: u3)
    | SHL1(rd: u3, ra: u3)
    | FSL1(rd: u3, ra: u3)
    | FSR1(rd: u3, ra: u3)
    | ALU(alu: AluOp, rd: u3, ra: u3, rb: u3)
    | DIVU(rd: u3, ra: u3, rb: u3)
    | MULHU(rd: u3, ra: u3, rb: u3)
    | SHIFT(shift: ShiftOp, rd: u3, ra: u3, amount: int)
    | LDX(rd: u3, ra: u3, rb: u3)
    | LDB(rd: u3, ra: u3)
    | LDBS(rd: u3, ra: u3)
    | STB(rd: u3, ra: u3)
    | JALR(sd: u3, ra: u3)
    | JMP(ra: u3)
    | IFLUSH
    | CLI
    | STI
    | MFS(rd: u3, sa: u3)
    | MTS(sd: u3, ra: u3)
    | MFEPC(rd: u3)
    | MTEPC(ra: u3)
    | HALT

  // ----- packing -----

  function EncMemI(store: bool, rd: u3, ra: u3, imm8: u8): (w: u16)
    ensures w == 0x4000 + rd * 0x800 + ra * 0x100 + (imm8 - imm8 % 2) + Flag(store)
  {
    hide *;
    MemoryFields(rd, ra, imm8, Flag(store));
    Bits.Or(Bits.Or(Bits.Or(Bits.Or(0x4000, rd * 0x800), ra * 0x100), Bits.And(imm8, 0xFE)), Flag(store))
  }

  lemma MemoryFields(rd: u3, ra: u3, imm8: u8, flag: nat)
    requires flag < 2
    ensures var w := 0x4000 + rd * 0x800 + ra * 0x100 + (imm8 - imm8 % 2) + flag;
            w < 0x1_0000 && Bits.Or(Bits.Or(Bits.Or(Bits.Or(0x4000, rd * 0x800), ra * 0x100), Bits.And(imm8, 0xFE)), flag) == w
  {
    hide *;
    AndFe(imm8);
    FourFields(0x4000, rd, ra, imm8 - imm8 % 2);
    LowestField(0x4000 + rd * 0x800 + ra * 0x100 + (imm8 - imm8 % 2), flag);
  }

  function EncI(rd: u3, op: u3, imm8: u8): (w: u16)
    ensures w == 0x8000 + rd * 0x800 + op * 0x100 + imm8
  {
    hide Bits.Or;
    FourFields(0x8000, rd, op, imm8);
    Bits.Or(Bits.Or(Bits.Or(0x8000, rd * 0x800), op * 0x100), imm8)
  }

  function EncR(rd: u3, ra: u3, func: nat, rb: u3): (w: u16)
    requires func < 32
    ensures w == 0xC000 + rd * 0x800 + ra * 0x100 + func * 8 + rb
  {
    hide Bits.Or;
    FourFields(0xC000, rd, ra, func * 8);
    LowField(0xC000 + rd * 0x800 + ra * 0x100 + func * 8, rb);
    Bits.Or(Bits.Or(Bits.Or(Bits.Or(0xC000, rd * 0x800), ra * 0x100), func * 8), rb)
  }

  /** Fields that do not overlap are added by OR. */
  lemma FourFields(head: nat, a: u3, b: u3, low: u8)
    requires head == 0x4000 || head == 0x8000 || head == 0xC000 || head == 0
    ensures Bits.Or(Bits.Or(Bits.Or(head, a * 0x800), b * 0x100), low) == head + a * 0x800 + b * 0x100 + low
  {
    hide Bits.Or, Pow2;
    Pow2Values();
    assert Pow2(14) == 0x4000 by { PowFourteen(); }
    OrDisjoint(head, a * 0x800, 14);
    OrDisjoint(head + a * 0x800, b * 0x100, 11);
    OrDisjoint(head + a * 0x800 + b * 0x100, low, 8);
  }

  lemma LowestField(high: nat, low: nat)
    requires high % 2 == 0 && low < 2
    ensures Bits.Or(high, low) == high + low
  {
    hide Bits.Or;
    OrZero(high);
    OrOne(high);
  }

  lemma PowFourteen()
    ensures Pow2(14) == 0x4000
  {
    Pow2Values();
  }

  lemma LowField(high: nat, low: u3)
    requires high % 8 == 0
    ensures Bits.Or(high, low) == high + low
  {
    hide Bits.Or, Pow2;
    Pow2Values();
    OrDisjoint(high, low, 3);
  }

  /** The displacement is rotated: bit 0 of the field is its sign, bits 7:1 its low bits. */
  function EncBranch(cc: u3, rel8: u8): (w: u16)
    ensures w == 0x8000 + cc * 0x800 + 0x700 + (rel8 % 0x80 * 2 + rel8 / 0x80)
  {
    hide Bits.Or, Bits.And;
    Rotated(rel8);
    EncI(cc, 7, Bits.Or(Bits.And(rel8 * 2, 0xFE), rel8 / 0x80))
  }

  lemma Rotated(rel8: u8)
    ensures Bits.Or(Bits.And(rel8 as int * 2, 0xFE), rel8 / 0x80) == rel8 % 0x80 * 2 + rel8 / 0x80
  {
    hide Bits.Or, Bits.And, Pow2;
    Pow2Values();
    AndHighMask(rel8 as int * 2, 0xFE, 0x7F, 1);
    And7f(rel8);
    OrDisjoint(rel8 % 0x80 * 2, rel8 / 0x80, 1);
  }

  /** Words in memory order. */
  function EncodeLong(rd: u3, imm16: u16): (ws: seq<u16>)
    ensures ws == [rd * 0x800 + 0x34, imm16]
  {
    hide Bits.Or, Pow2;
    Pow2Values();
    OrDisjoint(rd * 0x800, 0x34, 11);
    [Bits.Or(rd * 0x800, 0x0034), imm16]
  }

  function EncI8(value: int): Result<u8> {
    if -128 <= value <= 127 then Ok(value % 0x100) else Error
  }

  /** code_addr */
  function CodeAddr(value: int): Result<u16> {
    if value % 2 == 1 || !(0 <= value <= 0xFFFF) then Error else Ok(value)
  }

  function AluFunc(op: AluOp): nat {
    match op case ADD => 0 case SUB => 1 case SLT => 2 case SLTU => 3 case AND => 4 case OR => 5 case XOR => 6 case MUL => 7
  }

  function ShiftFunc(op: ShiftOp): nat {
    match op case SRLI => 0x0C case SRAI => 0x0D case SLLI => 0x0F
  }

  function ImmField(op: ImmOp): u3 {
    match op case LDI => 0 case LUI => 1 case ADDI => 2 case CMPI => 3 case ANDI => 4 case ORI => 5 case XORI => 6
  }

  function ConditionField(cc: Condition): u3 {
    match cc case BEQZ => 0 case BNEZ => 1 case BLTZ => 2 case BGEZ => 3
  }

  function Map(r: Result<u8>, f: u8 -> u16): Result<seq<u16>> {
    if r.Ok? then Ok([f(r.value)]) else Error
  }

  /** encode_insn: the words of an instruction at byte address pc. */
  function EncodeInsn(i: Source, pc: int, iflush: bool): Result<seq<u16>> {
    match i
    case JALL(sd, target) => if CodeAddr(target).Ok? then Ok(EncodeLong(sd, CodeAddr(target).value)) else Error
    case JMPL(target) => if CodeAddr(target).Ok? then Ok(EncodeLong(0, CodeAddr(target).value)) else Error
    case RET(sa) => Ok([EncR(0, sa, 0x1F, 0)])
    case RETI(sa) => Ok([EncR(5, sa, 0x1F, 0)])
    case LDI16(rd, value) => Ok([EncI(rd, 1, Word(value) / 0x100), EncI(rd, 5, Word(value) % 0x100)])
    case NOP => Ok([EncR(0, 0, 5, 0)])
    case LD(rd, ra, disp) => if disp % 2 == 1 then Error else Map(EncI8(disp), imm => EncMemI(false, rd, ra, imm))
    case ST(rd, ra, disp) => if disp % 2 == 1 then Error else Map(EncI8(disp), imm => EncMemI(true, rd, ra, imm))
    case IMM(op, rd, value) =>
      Map(if op == ADDI || op == CMPI then EncI8(value) else Ok(value % 0x100), imm => EncI(rd, ImmField(op), imm))
    case BRANCH(cc, target) => EncodeBranch(ConditionField(cc), target, pc)
    case JMP8(target) => EncodeBranch(4, target, pc)
    case MOV(rd, ra) => Ok([EncR(rd, ra, 5, ra)])
    case SHL1(rd, ra) => Ok([EncR(rd, ra, 0, ra)])
    case FSL1(rd, ra) => Ok([EncR(rd, ra, 0x11, 0)])
    case FSR1(rd, ra) => Ok([EncR(rd, ra, 0x11, 1)])
    case ALU(op, rd, ra, rb) => Ok([EncR(rd, ra, AluFunc(op), rb)])
    case DIVU(rd, ra, rb) => Ok([EncR(rd, ra, 0x10, rb)])
    case MULHU(rd, ra, rb) => Ok([EncR(rd, ra, 0x14, rb)])
    case SHIFT(op, rd, ra, amount) => if 1 <= amount <= 8 then Ok([EncR(rd, ra, ShiftFunc(op), amount - 1)]) else Error
    case LDX(rd, ra, rb) => Ok([EncR(rd, ra, 0x08, rb)])
    case LDB(rd, ra) => Ok([EncR(rd, ra, 0x0A, 0)])
    case LDBS(rd, ra) => Ok([EncR(rd, ra, 0x0E, 0)])
    case STB(rd, ra) => Ok([EncR(rd, ra, 0x0B, 0)])
    case JALR(sd, ra) => Ok([EncR(sd, ra, 0x1F, 1)])
    case JMP(ra) => Ok([EncR(0, ra, 0x1F, 1)])
    case IFLUSH => if iflush then Ok([EncR(3, 0, 0x1F, 0)]) else Error
    case CLI => Ok([EncR(2, 0, 0x1F, 0)])
    case STI => Ok([EncR(7, 0, 0x1F, 0)])
    case MFS(rd, sa) => Ok([EncR(rd, sa, 0x1F, 2)])
    case MTS(sd, ra) => Ok([EncR(sd, ra, 0x1F, 3)])
    case MFEPC(rd) => Ok([EncR(rd, 0, 0x1F, 2)])
    case MTEPC(ra) => Ok([EncR(0, ra, 0x1F, 3)])
    case HALT => Ok([EncBranch(4, 0xFF)])
  }

  function EncodeBranch(cc: u3, target: int, pc: int): Result<seq<u16>> {
    if target % 2 == 1 then Error
    else Map(EncI8(target / 2 - (pc / 2 + 1)), rel => EncBranch(cc, rel))
  }

  // ----- what the words mean -----

  /** The instructions a mnemonic stands for at byte address pc. */
  function Meaning(i: Source, pc: int): seq<Insn> {
    match i
    case JALL(sd, target) => [Jall(sd, Word(target))]
    case JMPL(target) => [Jall(0, Word(target))]
    case RET(sa) => [Ret(sa)]
    case RETI(sa) => [Reti(sa)]
    case LDI16(rd, value) => [Imm(LUI, rd, Word(value) / 0x100), Imm(ORI, rd, Word(value) % 0x100)]
    case NOP => [Alu(OR, 0, 0, 0)]
    case LD(rd, ra, disp) => [Ld(rd, ra, disp)]
    case ST(rd, ra, disp) => [St(rd, ra, disp)]
    case IMM(op, rd, value) => [Imm(op, rd, value % 0x100)]
    case BRANCH(cc, target) => [Branch(cc, Displacement(target, pc))]
    case JMP8(target) => [Jmp8(Displacement(target, pc))]
    case MOV(rd, ra) => [Alu(OR, rd, ra, ra)]
    case SHL1(rd, ra) => [Alu(ADD, rd, ra, ra)]
    case FSL1(rd, ra) => [Fsl1(rd, ra)]
    case FSR1(rd, ra) => [Fsr1(rd, ra)]
    case ALU(op, rd, ra, rb) => [Alu(op, rd, ra, rb)]
    case DIVU(rd, ra, rb) => [Divu(rd, ra, rb)]
    case MULHU(rd, ra, rb) => [Mulhu(rd, ra, rb)]
    case SHIFT(op, rd, ra, amount) => if amount >= 0 then [Shift(op, rd, ra, amount)] else []
    case LDX(rd, ra, rb) => [Ldx(rd, ra, rb)]
    case LDB(rd, ra) => [Ldb(rd, ra)]
    case LDBS(rd, ra) => [Ldbs(rd, ra)]
    case STB(rd, ra) => [Stb(rd, ra)]
    case JALR(sd, ra) => [Jalr(sd, ra)]
    case JMP(ra) => [Jalr(0, ra)]
    case IFLUSH => [Iflush]
    case CLI => [Cli]
    case STI => [Sti]
    case MFS(rd, sa) => [Mfs(rd, sa)]
    case MTS(sd, ra) => [Mts(sd, ra)]
    case MFEPC(rd) => [Mfs(rd, 0)]
    case MTEPC(ra) => [Mts(0, ra)]
    case HALT => [Jmp8(-1)]
  }

  /** Halfwords from the instruction after the branch to the target. */
  function Displacement(target: int, pc: int): int {
    target / 2 - pc / 2 - 1
  }

  /** The build has this instruction in this form. */
  predicate Enabled(p: Profile, i: Insn) {
    match i
    case Jall(_, _) => p.longJall
    case Imm(op, _, _) => op == CMPI ==> !p.nano
    case Alu(op, _, _, _) => op == MUL ==> p.full
    case Shift(op, _, _, n) => op == SLLI || n > 1 ==> p.shifts && !p.nano
    case Divu(rd, ra, rb) => p.mdu && rd != ra && rd != rb && ra != rb
    case Mulhu(rd, ra, _) => p.mdu && rd != ra
    case Fsl1(_, _) => !p.nano
    case Fsr1(_, _) => !p.nano
    case Ret(_) => !p.nano
    case Reti(_) => p.sysTier && !p.nano
    case Cli => p.sysTier && !p.nano
    case Sti => p.sysTier && !p.nano
    case Iflush => p.iflush && !p.nano
    case Mfs(_, _) => !p.nano
    case Mts(_, _) => !p.nano
    case _ => true
  }

  /** Each word decodes to its instruction exactly in the builds that have it.  What follows a
  word in memory matters only to the long form. */
  ghost predicate Means(p: Profile, ws: seq<u16>, xs: seq<Insn>) {
    if |ws| == 2 && |xs| == 1 then
      Decode(p, ws[0], ws[1]) == Some(xs[0]) <==> Enabled(p, xs[0])
    else
      && |ws| == |xs|
      && forall k: nat :: k < |ws| ==> MeansOne(p, ws[k], xs[k])
  }

  ghost predicate MeansOne(p: Profile, w: u16, x: Insn) {
    forall extension: u16 :: Decode(p, w, extension) == Some(x) <==> Enabled(p, x)
  }

  lemma DecodeR(p: Profile, d: u3, a: u3, f: nat, b: u3, extension: u16)
    requires f < 32
    ensures Decode(p, EncR(d, a, f, b), extension) == DecodeReg(p, d, a, f, b)
  {
    hide DecodeReg, EncR;
    Unpacked(3, d, a, f * 8 + b);
    DivModUnique(f * 8 + b, 8, f, b);
  }

  lemma DecodeI(p: Profile, d: u3, op: u3, imm: u8, extension: u16)
    ensures Decode(p, EncI(d, op, imm), extension) == DecodeImm(p, d, op, imm)
  {
    hide DecodeImm, EncI;
    Unpacked(2, d, op, imm);
  }

  lemma DecodeMem(p: Profile, store: bool, d: u3, a: u3, disp: int, extension: u16)
    requires -128 <= disp <= 127 && disp % 2 == 0
    ensures Decode(p, EncMemI(store, d, a, disp % 0x100), extension) == Some(if store then St(d, a, disp) else Ld(d, a, disp))
  {
    hide EncMemI;
    var imm: u8 := disp % 0x100;
    assert imm % 2 == 0;
    Unpacked(1, d, a, imm + Flag(store));
  }

  lemma DecodeLongForm(p: Profile, d: u3, target: u16)
    ensures Decode(p, d * 0x800 + 0x34, target) == if p.longJall then Some(Jall(d, target)) else None
  {
    Unpacked(0, d, 0, 0x34);
  }

  lemma Unpacked(opc: nat, d: u3, a: u3, low: u8)
    requires opc < 4
    ensures var w := opc * 0x4000 + d * 0x800 + a * 0x100 + low;
            w < 0x1_0000 && w / 0x4000 == opc && w / 0x800 % 8 == d && w / 0x100 % 8 == a && w % 0x100 == low && w % 0x800 == a * 0x100 + low
  {
    var w := opc * 0x4000 + d * 0x800 + a * 0x100 + low;
    DivModUnique(w, 0x4000, opc, d * 0x800 + a * 0x100 + low);
    DivModUnique(w, 0x800, opc * 8 + d, a * 0x100 + low);
    DivModUnique(opc * 8 + d, 8, opc, d);
    DivModUnique(w, 0x100, (opc * 8 + d) * 8 + a, low);
    DivModUnique((opc * 8 + d) * 8 + a, 8, opc * 8 + d, a);
  }

  /** Every rel8 survives the rotated field. */
  lemma DecodeBranchField(p: Profile, cc: u3, rel: int, extension: u16)
    requires -128 <= rel <= 127 && cc <= 4
    ensures Decode(p, EncBranch(cc, rel % 0x100), extension)
         == Some(if cc == 0 then Branch(BEQZ, rel) else if cc == 1 then Branch(BNEZ, rel) else if cc == 2 then Branch(BLTZ, rel)
                 else if cc == 3 then Branch(BGEZ, rel) else Jmp8(rel))
  {
    hide *;
    var v: u8 := rel % 0x100;
    var field: u8 := v % 0x80 * 2 + v / 0x80;
    assert EncBranch(cc, v) == EncI(cc, 7, field);
    DecodeI(p, cc, 7, field, extension);
    RotatedBack(rel, v, field);
    BranchDecoded(p, cc, field);
  }

  lemma RotatedBack(rel: int, v: u8, field: u8)
    requires -128 <= rel <= 127 && v == rel % 0x100 && field == v % 0x80 * 2 + v / 0x80
    ensures Signed8(field / 2 + field % 2 * 0x80) == rel
  {
    DivModUnique(rel, 0x100, if rel < 0 then -1 else 0, if rel < 0 then rel + 0x100 else rel);
    DivModUnique(v, 0x80, if rel < 0 then 1 else 0, if rel < 0 then rel + 0x80 else rel);
    DivModUnique(field, 2, v % 0x80, v / 0x80);
  }

  lemma BranchDecoded(p: Profile, cc: u3, field: u8)
    requires cc <= 4
    ensures var rel := Signed8(field / 2 + field % 2 * 0x80);
            DecodeImm(p, cc, 7, field) ==
              Some(if cc == 0 then Branch(BEQZ, rel) else if cc == 1 then Branch(BNEZ, rel) else if cc == 2 then Branch(BLTZ, rel)
                   else if cc == 3 then Branch(BGEZ, rel) else Jmp8(rel))
  {
  }

  lemma RegisterForm(p: Profile, d: u3, a: u3, f: nat, b: u3, x: Insn)
    requires f < 32 && (DecodeReg(p, d, a, f, b) == Some(x) <==> Enabled(p, x))
    ensures MeansOne(p, EncR(d, a, f, b), x)
  {
    hide DecodeReg, EncR, Decode, Enabled;
    forall extension: u16 ensures Decode(p, EncR(d, a, f, b), extension) == Some(x) <==> Enabled(p, x) {
      DecodeR(p, d, a, f, b, extension);
    }
  }

  lemma ImmediateForm(p: Profile, d: u3, op: ImmOp, imm: u8)
    ensures MeansOne(p, EncI(d, ImmField(op), imm), Imm(op, d, imm))
  {
    hide EncI, Decode;
    forall extension: u16 ensures Decode(p, EncI(d, ImmField(op), imm), extension) == Some(Imm(op, d, imm)) <==> Enabled(p, Imm(op, d, imm)) {
      DecodeI(p, d, ImmField(op), imm, extension);
    }
  }

  lemma MemoryForm(p: Profile, store: bool, d: u3, a: u3, disp: int)
    requires -128 <= disp <= 127 && disp % 2 == 0
    ensures MeansOne(p, EncMemI(store, d, a, disp % 0x100), if store then St(d, a, disp) else Ld(d, a, disp))
  {
    hide EncMemI, Decode;
    var x := if store then St(d, a, disp) else Ld(d, a, disp);
    forall extension: u16 ensures Decode(p, EncMemI(store, d, a, disp % 0x100), extension) == Some(x) <==> Enabled(p, x) {
      DecodeMem(p, store, d, a, disp, extension);
    }
  }

  lemma BranchForm(p: Profile, cc: u3, rel: int, x: Insn)
    requires -128 <= rel <= 127
    requires (x == Jmp8(rel) && cc == 4) || (x.Branch? && x.rel == rel && cc == ConditionField(x.cc))
    ensures MeansOne(p, EncBranch(cc, rel % 0x100), x)
  {
    hide EncBranch, Decode;
    forall extension: u16 ensures Decode(p, EncBranch(cc, rel % 0x100), extension) == Some(x) <==> Enabled(p, x) {
      DecodeBranchField(p, cc, rel, extension);
    }
  }

  lemma OneMeans(p: Profile, w: u16, x: Insn)
    requires MeansOne(p, w, x)
    ensures Means(p, [w], [x])
  {
  }

  /** Mnemonics of the register format, with the fields they are packed into. */
  function RegisterFields(i: Source): Option<(u3, u3, nat, u3)> {
    match i
    case RET(sa) => Some((0, sa, 0x1F, 0))
    case RETI(sa) => Some((5, sa, 0x1F, 0))
    case NOP => Some((0, 0, 5, 0))
    case MOV(rd, ra) => Some((rd, ra, 5, ra))
    case SHL1(rd, ra) => Some((rd, ra, 0, ra))
    case FSL1(rd, ra) => Some((rd, ra, 0x11, 0))
    case FSR1(rd, ra) => Some((rd, ra, 0x11, 1))
    case ALU(op, rd, ra, rb) => Some((rd, ra, AluFunc(op), rb))
    case DIVU(rd, ra, rb) => Some((rd, ra, 0x10, rb))
    case MULHU(rd, ra, rb) => Some((rd, ra, 0x14, rb))
    case SHIFT(op, rd, ra, amount) => if 1 <= amount <= 8 then Some((rd, ra, ShiftFunc(op), amount - 1)) else None
    case LDX(rd, ra, rb) => Some((rd, ra, 0x08, rb))
    case LDB(rd, ra) => Some((rd, ra, 0x0A, 0))
    case LDBS(rd, ra) => Some((rd, ra, 0x0E, 0))
    case STB(rd, ra) => Some((rd, ra, 0x0B, 0))
    case JALR(sd, ra) => Some((sd, ra, 0x1F, 1))
    case JMP(ra) => Some((0, ra, 0x1F, 1))
    case IFLUSH => Some((3, 0, 0x1F, 0))
    case CLI => Some((2, 0, 0x1F, 0))
    case STI => Some((7, 0, 0x1F, 0))
    case MFS(rd, sa) => Some((rd, sa, 0x1F, 2))
    case MTS(sd, ra) => Some((sd, ra, 0x1F, 3))
    case MFEPC(rd) => Some((rd, 0, 0x1F, 2))
    case MTEPC(ra) => Some((0, ra, 0x1F, 3))
    case _ => None
  }

  /** The builds of the simulator. */
  predicate Build(p: Profile) {
    exists sysTier, full, mdu, nano, iflush :: p == MakeProfile(sysTier, full, mdu, nano, iflush)
  }

  /** The fields decode to the mnemonic's instruction exactly in the builds that have it. */
  ghost predicate FieldsDecode(i: Source, pc: int, p: Profile)
    requires RegisterFields(i).Some?
  {
    var t := RegisterFields(i).value;
    t.2 < 32 && |Meaning(i, pc)| == 1 && (DecodeReg(p, t.0, t.1, t.2, t.3) == Some(Meaning(i, pc)[0]) <==> Enabled(p, Meaning(i, pc)[0]))
  }

  lemma RegisterDecodes(i: Source, pc: int, p: Profile)
    requires Build(p) && RegisterFields(i).Some?
    ensures FieldsDecode(i, pc, p)
  {
    if i.ALU? || i.SHIFT? || i.NOP? || i.MOV? || i.SHL1? {
      ComputeDecodes(i, pc, p);
    } else {
      SystemDecodes(i, pc, p);
    }
  }

  lemma ComputeDecodes(i: Source, pc: int, p: Profile)
    requires Build(p) && RegisterFields(i).Some? && (i.ALU? || i.SHIFT? || i.NOP? || i.MOV? || i.SHL1?)
    ensures FieldsDecode(i, pc, p)
  {
    hide DecodeSystem;
  }

  lemma SystemDecodes(i: Source, pc: int, p: Profile)
    requires Build(p) && RegisterFields(i).Some? && !(i.ALU? || i.SHIFT? || i.NOP? || i.MOV? || i.SHL1?)
    ensures FieldsDecode(i, pc, p)
  {
    hide DecodeReg, Build, Meaning, FieldsDecode;
    if i.RET? || i.RETI? || i.IFLUSH? || i.CLI? || i.STI? {
      ControlDecodes(i, pc, p);
    } else if i.JALR? || i.JMP? || i.MFS? || i.MTS? || i.MFEPC? || i.MTEPC? {
      MoveDecodes(i, pc, p);
    } else {
      PairDecodes(i, pc, p);
    }
  }

  lemma ControlDecodes(i: Source, pc: int, p: Profile)
    requires i.RET? || i.RETI? || i.IFLUSH? || i.CLI? || i.STI?
    ensures RegisterFields(i).Some? && FieldsDecode(i, pc, p)
  {
    hide DecodeReg;
    SystemForm(p, RegisterFields(i).value.0, RegisterFields(i).value.1, RegisterFields(i).value.3);
  }

  lemma MoveDecodes(i: Source, pc: int, p: Profile)
    requires i.JALR? || i.JMP? || i.MFS? || i.MTS? || i.MFEPC? || i.MTEPC?
    ensures RegisterFields(i).Some? && FieldsDecode(i, pc, p)
  {
    hide DecodeReg;
    SystemForm(p, RegisterFields(i).value.0, RegisterFields(i).value.1, RegisterFields(i).value.3);
  }

  lemma SystemForm(p: Profile, d: u3, a: u3, b: u3)
    ensures DecodeReg(p, d, a, 0x1F, b) == DecodeSystem(p, d, a, b)
  {
    hide DecodeSystem;
  }

  lemma PairDecodes(i: Source, pc: int, p: Profile)
    requires Build(p) && RegisterFields(i).Some?
    requires i.FSL1? || i.FSR1? || i.DIVU? || i.MULHU? || i.LDX? || i.LDB? || i.LDBS? || i.STB?
    ensures FieldsDecode(i, pc, p)
  {
    hide DecodeAlu, DecodeSystem, ShiftAmount, AluFunc, ShiftFunc;
  }

  lemma RegisterEncoded(i: Source, pc: int, iflush: bool)
    requires RegisterFields(i).Some? && EncodeInsn(i, pc, iflush).Ok?
    ensures var t := RegisterFields(i).value; t.2 < 32 && EncodeInsn(i, pc, iflush).value == [EncR(t.0, t.1, t.2, t.3)]
  {
    hide EncR;
  }

  /** What encode_insn accepts is what was written: the words decode to the mnemonic's
  instructions on the same operands in every build that has them, and in no other. */
  lemma EncodedMeans(i: Source, pc: int, iflush: bool, p: Profile)
    requires Build(p) && EncodeInsn(i, pc, iflush).Ok?
    ensures Means(p, EncodeInsn(i, pc, iflush).value, Meaning(i, pc))
  {
    hide EncR, EncI, EncMemI, EncBranch, Decode, MeansOne, Means, Build;
    if RegisterFields(i).Some? {
      var t := RegisterFields(i).value;
      RegisterDecodes(i, pc, p);
      RegisterEncoded(i, pc, iflush);
      RegisterForm(p, t.0, t.1, t.2, t.3, Meaning(i, pc)[0]);
      OneMeans(p, EncR(t.0, t.1, t.2, t.3), Meaning(i, pc)[0]);
    } else {
      OtherMeans(i, pc, iflush, p);
    }
  }

  lemma OtherMeans(i: Source, pc: int, iflush: bool, p: Profile)
    requires EncodeInsn(i, pc, iflush).Ok? && RegisterFields(i).None?
    ensures Means(p, EncodeInsn(i, pc, iflush).value, Meaning(i, pc))
  {
    if i.JALL? || i.JMPL? {
      CallMeans(i, pc, iflush, p);
    } else if i.LDI16? || i.IMM? {
      ConstantMeans(i, pc, iflush, p);
    } else if i.LD? || i.ST? {
      AccessMeans(i, pc, iflush, p);
    } else {
      JumpMeans(i, pc, iflush, p);
    }
  }

  lemma CallMeans(i: Source, pc: int, iflush: bool, p: Profile)
    requires EncodeInsn(i, pc, iflush).Ok? && (i.JALL? || i.JMPL?)
    ensures Means(p, EncodeInsn(i, pc, iflush).value, Meaning(i, pc))
  {
    hide EncR, EncI, EncMemI, EncBranch, EncodeBranch, Decode, MeansOne;
    var sd: u3, target := if i.JALL? then i.sd else 0, Word(i.target);
    DecodeLongForm(p, sd, target);
    LongMeans(p, sd, target);
  }

  lemma ConstantMeans(i: Source, pc: int, iflush: bool, p: Profile)
    requires EncodeInsn(i, pc, iflush).Ok? && (i.LDI16? || i.IMM?)
    ensures Means(p, EncodeInsn(i, pc, iflush).value, Meaning(i, pc))
  {
    hide EncR, EncI, EncMemI, EncBranch, EncodeBranch, Decode, MeansOne, Enabled;
    if i.LDI16? {
      ImmediateForm(p, i.rd, LUI, Word(i.value) / 0x100);
      ImmediateForm(p, i.rd, ORI, Word(i.value) % 0x100);
    } else {
      ImmediateForm(p, i.rd, i.op, i.value % 0x100);
    }
  }

  lemma AccessMeans(i: Source, pc: int, iflush: bool, p: Profile)
    requires EncodeInsn(i, pc, iflush).Ok? && (i.LD? || i.ST?)
    ensures Means(p, EncodeInsn(i, pc, iflush).value, Meaning(i, pc))
  {
    hide EncR, EncI, EncMemI, EncBranch, EncodeBranch, Decode, MeansOne, Enabled;
    MemoryForm(p, i.ST?, i.rd, i.ra, i.disp);
  }

  lemma JumpMeans(i: Source, pc: int, iflush: bool, p: Profile)
    requires EncodeInsn(i, pc, iflush).Ok? && (i.BRANCH? || i.JMP8? || i.HALT?)
    ensures Means(p, EncodeInsn(i, pc, iflush).value, Meaning(i, pc))
  {
    hide EncR, EncI, EncMemI, EncBranch, Decode, MeansOne, Enabled;
    var rel := if i.HALT? then -1 else Displacement(i.target, pc);
    BranchForm(p, if i.BRANCH? then ConditionField(i.cc) else 4, rel, if i.BRANCH? then Branch(i.cc, rel) else Jmp8(rel));
  }

  lemma LongMeans(p: Profile, sd: u3, target: u16)
    requires Decode(p, sd * 0x800 + 0x34, target) == if p.longJall then Some(Jall(sd, target)) else None
    ensures Means(p, [sd * 0x800 + 0x34, target], [Jall(sd, target)])
  {
    hide Decode;
  }

  // ----- executing what was encoded -----

  /** The words lie in memory at pc, and no interrupt is pending. */
  ghost predicate Loaded(p: Profile, st: State, ws: seq<u16>)
    requires st.Valid()
  {
    !Interrupted(p, st) && forall k: nat :: k < |ws| ==> st.mem[(st.pc + k) % 0x8000] == ws[k]
  }

  /** One step on the words of a one-instruction mnemonic has the mnemonic's effect. */
  lemma StepsAsWritten(i: Source, pc: int, iflush: bool, p: Profile, st: State)
    requires Build(p) && st.Valid() && EncodeInsn(i, pc, iflush).Ok? && !i.LDI16?
    requires Loaded(p, st, EncodeInsn(i, pc, iflush).value) && |Meaning(i, pc)| == 1 && Enabled(p, Meaning(i, pc)[0])
    ensures Step(p, st) == Execute(p, Meaning(i, pc)[0], st.(insns := st.insns + 1), Next(st.pc))
  {
    hide EncodeInsn, Meaning, Decode, Execute, Enabled, Build, Loaded;
    var ws := EncodeInsn(i, pc, iflush).value;
    EncodedMeans(i, pc, iflush, p);
    WordCount(i, pc, iflush);
    LoadedWords(p, st, ws);
    if |ws| == 1 { assert MeansOne(p, ws[0], Meaning(i, pc)[0]); }
  }

  lemma LoadedWords(p: Profile, st: State, ws: seq<u16>)
    requires st.Valid() && Loaded(p, st, ws)
    ensures !Interrupted(p, st) && (|ws| > 0 ==> st.mem[st.pc] == ws[0]) && (|ws| > 1 ==> st.mem[Next(st.pc)] == ws[1])
  {
    if |ws| > 0 { assert st.mem[(st.pc + 0) % 0x8000] == ws[0]; }
    if |ws| > 1 { assert st.mem[(st.pc + 1) % 0x8000] == ws[1]; }
  }

  /** The words that insn_size announces. */
  lemma WordCount(i: Source, pc: int, iflush: bool)
    requires EncodeInsn(i, pc, iflush).Ok?
    ensures |EncodeInsn(i, pc, iflush).value| == if i.JALL? || i.JMPL? || i.LDI16? then 2 else 1
  {
    hide EncR, EncI, EncMemI, EncBranch, EncodeLong;
  }

  /** A branch that is taken lands on its label, for every displacement the encoder accepts. */
  lemma BranchLands(target: int, pc: u16, cc: u3)
    requires pc % 2 == 0 && EncodeBranch(cc, target, pc).Ok?
    ensures Offset(Next(WordOf(pc)), Displacement(target, pc)) == target / 2 % 0x8000
    ensures 0 <= target < 0x1_0000 ==> ByteOf(Offset(Next(WordOf(pc)), Displacement(target, pc))) == target
  {
    hide EncodeBranch;
    assert target % 2 == 0 by { BranchReach(target, pc, cc); }
    Lands(target / 2, pc / 2);
  }

  lemma Lands(t: int, k: nat)
    requires k < 0x8000
    ensures ((k + 1) % 0x8000 + (t - k - 1)) % 0x8000 == t % 0x8000
    ensures 0 <= t < 0x8000 ==> t % 0x8000 == t
  {
    var wrap := if k == 0x7fff then 1 else 0;
    DivModUnique(k + 1, 0x8000, wrap, k + 1 - 0x8000 * wrap);
    DivModBasic(t, 0x8000);
    DivModUnique(t - 0x8000 * wrap, 0x8000, t / 0x8000 - wrap, t % 0x8000);
  }

  /** encode_insn rejects exactly the odd and the distant targets. */
  lemma BranchReach(target: int, pc: int, cc: u3)
    ensures EncodeBranch(cc, target, pc).Ok? <==> target % 2 == 0 && -128 <= Displacement(target, pc) <= 127
  {
  }

  /** The LDI16 pair loads any 16-bit constant and changes nothing else. */
  lemma LoadsConstant(rd: u3, value: int, pc: int, iflush: bool, p: Profile, st: State)
    requires Build(p) && st.Valid() && !(p.sysTier && st.ie && st.irqLine)
    requires Loaded(p, st, EncodeInsn(LDI16(rd, value), pc, iflush).value)
    ensures Step(p, st).Some? && Step(p, Step(p, st).value)
         == Some(st.(r := st.r[rd := Word(value)], pc := Next(Next(st.pc)), insns := st.insns + 2))
  {
    hide EncI, Decode, Build, AluResult, Bits.Or, Execute, MeansOne, Step, OrWord, Loaded;
    var ws := EncodeInsn(LDI16(rd, value), pc, iflush).value;
    var high, low := Word(value) / 0x100, Word(value) % 0x100;
    EncodedMeans(LDI16(rd, value), pc, iflush, p);
    LoadedWords(p, st, ws);
    assert MeansOne(p, ws[0], Imm(LUI, rd, high)) && MeansOne(p, ws[1], Imm(ORI, rd, low));
    StepImmediate(p, st, LUI, rd, high);
    StepImmediate(p, Step(p, st).value, ORI, rd, low);
    HighLow(high, low);
    assert high * 0x100 + low == Word(value);
    assert st.r[rd := high * 0x100][rd := Word(value)] == st.r[rd := Word(value)];
  }

  lemma StepImmediate(p: Profile, st: State, op: ImmOp, rd: u3, imm: u8)
    requires st.Valid() && !(p.sysTier && st.ie && st.irqLine) && op != CMPI && MeansOne(p, st.mem[st.pc], Imm(op, rd, imm))
    ensures Step(p, st) == Some(st.(r := st.r[rd := ImmResult(op, st.r[rd], imm)], pc := Next(st.pc), insns := st.insns + 1))
  {
    hide Decode, ImmResult;
    assert Decode(p, st.mem[st.pc], st.mem[Next(st.pc)]) == Some(Imm(op, rd, imm)) <==> Enabled(p, Imm(op, rd, imm));
  }

  lemma HighLow(high: u8, low: u8)
    ensures OrWord(high * 0x100, low) == high * 0x100 + low
  {
    hide Bits.Or, Pow2;
    Pow2Values();
    OrDisjoint(high * 0x100, low, 8);
  }
}
