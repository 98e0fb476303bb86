/** The RISC-C instruction set as the simulator defines it (tools/riscc_sim.py): decoding,
and the effect of each instruction on the architectural state.  Words are natural numbers
below 2^16; memory is addressed by word. */
module Isa {
  import opened Bits

  datatype Option<T> = None | Some(value: T)

  type u3 = x: int | 0 <= x < 8
  type u8 = x: int | 0 <= x < 0x100
  type u15 = x: int | 0 <= x < 0x8000

  const TEST_IRQ: u15 := 0x7FFD
  const RESULT: u15 := 0x7FFF

  /** Which parts of the instruction set a build has. */
  datatype Profile = Profile(nano: bool, sysTier: bool, shifts: bool, longJall: bool, full: bool, mdu: bool, iflush: bool)

  function MakeProfile(sysTier: bool, full: bool, mdu: bool, nano: bool, iflush: bool): Profile {
    Profile(nano, sysTier && !nano, nano || full, sysTier && !nano, full && !nano, mdu && full && !nano, iflush && sysTier && !nano)
  }

  datatype AluOp = ADD | SUB | SLT | SLTU | AND | OR | XOR | MUL
  datatype ShiftOp = SLLI | SRLI | SRAI
  datatype ImmOp = LDI | LUI | ADDI | CMPI | ANDI | ORI | XORI
  datatype Condition = BEQZ | BNEZ | BLTZ | BGEZ

  datatype Insn =
    | Jall(sd: u3, target: u16)
    | Ld(rd: u3, ra: u3, disp: int)
    | St(rd: u3, ra: u3, disp: int)
    | Imm(op: ImmOp, rd: u3, imm: u8)
    | Branch(cc: Condition, rel: int)
    | Jmp8(rel: int)
    | Alu(alu: AluOp, rd: u3, ra: u3, rb: u3)
    | Ldx(rd: u3, ra: u3, rb: u3)
    | Ldb(rd: u3, ra: u3)
    | Ldbs(rd: u3, ra: u3)
    | Stb(rd: u3, ra: u3)
    | Shift(shift: ShiftOp, rd: u3, ra: u3, amount: nat)
    | Divu(rd: u3, ra: u3, rb: u3)
    | Mulhu(rd: u3, ra: u3, rb: u3)
    | Fsl1(rd: u3, ra: u3)
    | Fsr1(rd: u3, ra: u3)
    | Ret(sa: u3)
    | Reti(sa: u3)
    | Iflush
    | Cli
    | Sti
    | Jalr(sd: u3, ra: u3)
    | Mfs(rd: u3, sa: u3)
    | Mts(sd: u3, ra: u3)

  datatype State = State(r: seq<u16>, s: seq<u16>, pc: u15, ie: bool, irqLine: bool, mem: seq<u16>,
                         done: bool, halted: bool, insns: nat, irqTaken: nat) {
    predicate Valid() { |r| == 8 && |s| == 8 && |mem| == 0x8000 }
  }

  // ----- fields -----

  /** The signed value of an 8-bit field. */
  function Signed8(v: u8): (x: int)
    ensures -128 <= x <= 127
  {
    if v >= 0x80 then v - 0x100 else v
  }

  function Signed16(v: u16): int {
    if v >= 0x8000 then v - 0x1_0000 else v
  }

  function Word(x: int): u16 {
    x % 0x1_0000
  }

  function Next(pc: u15): u15 {
    (pc + 1) % 0x8000
  }

  function Offset(pc: u15, rel: int): u15 {
    (pc + rel) % 0x8000
  }

  /** The word a byte address selects. */
  function WordOf(address: u16): u15 {
    address / 2
  }

  function ByteOf(pc: u15): u16 {
    pc * 2
  }

  // ----- decoding -----

  function DecodeImm(p: Profile, rd: u3, op: u3, imm: u8): Option<Insn> {
    if op == 0 then Some(Imm(LDI, rd, imm))
    else if op == 1 then Some(Imm(LUI, rd, imm))
    else if op == 2 then Some(Imm(ADDI, rd, imm))
    else if op == 3 then if p.nano then None else Some(Imm(CMPI, rd, imm))
    else if op == 4 then Some(Imm(ANDI, rd, imm))
    else if op == 5 then Some(Imm(ORI, rd, imm))
    else if op == 6 then Some(Imm(XORI, rd, imm))
    else
      // the displacement field holds the sign in bit 0 and the magnitude bits above it
      var rel := Signed8(imm / 2 + imm % 2 * 0x80);
      if rd == 0 then Some(Branch(BEQZ, rel))
      else if rd == 1 then Some(Branch(BNEZ, rel))
      else if rd == 2 then Some(Branch(BLTZ, rel))
      else if rd == 3 then Some(Branch(BGEZ, rel))
      else if rd == 4 then Some(Jmp8(rel))
      else None
  }

  function DecodeAlu(f: nat): AluOp
    requires f < 8
  {
    if f == 0 then ADD else if f == 1 then SUB else if f == 2 then SLT else if f == 3 then SLTU
    else if f == 4 then AND else if f == 5 then OR else if f == 6 then XOR else MUL
  }

  /** The number of places SRLI and SRAI shift by. */
  function ShiftAmount(p: Profile, b: u3): nat {
    if p.nano || !p.shifts then 1 else b + 1
  }

  function DecodeReg(p: Profile, d: u3, a: u3, f: nat, b: u3): Option<Insn> {
    if f < 8 then if f == 7 && !p.full then None else Some(Alu(DecodeAlu(f), d, a, b))
    else if f == 0x08 then Some(Ldx(d, a, b))
    else if f == 0x0A then if b == 0 then Some(Ldb(d, a)) else None
    else if f == 0x0E then if b == 0 then Some(Ldbs(d, a)) else None
    else if f == 0x0C then Some(Shift(SRLI, d, a, ShiftAmount(p, b)))
    else if f == 0x0D then Some(Shift(SRAI, d, a, ShiftAmount(p, b)))
    else if f == 0x0F then if p.nano || !p.shifts then None else Some(Shift(SLLI, d, a, b + 1))
    else if f == 0x14 then if !p.mdu || d == a then None else Some(Mulhu(d, a, b))
    else if f == 0x10 then if !p.mdu || d == a || d == b || a == b then None else Some(Divu(d, a, b))
    else if f == 0x11 then if b > 1 || p.nano then None else if b == 0 then Some(Fsl1(d, a)) else Some(Fsr1(d, a))
    else if f == 0x0B then if b == 0 then Some(Stb(d, a)) else None
    else if f == 0x1F then DecodeSystem(p, d, a, b)
    else None
  }

  function DecodeSystem(p: Profile, d: u3, a: u3, b: u3): Option<Insn> {
    if p.nano then if b == 1 then Some(Jalr(d, a)) else None
    else if b == 0 then
      if d == 0 then Some(Ret(a))
      else if d == 5 && p.sysTier then Some(Reti(a))
      else if d == 3 && p.iflush then if a == 0 then Some(Iflush) else None
      else if d == 2 && p.sysTier then if a == 0 then Some(Cli) else None
      else if d == 7 && p.sysTier then if a == 0 then Some(Sti) else None
      else None
    else if b == 1 then Some(Jalr(d, a))
    else if b == 2 then Some(Mfs(d, a))
    else if b == 3 then Some(Mts(d, a))
    else None
  }

  /** The instruction at a word, and the word after it; None where the simulator raises Undefined. */
  function Decode(p: Profile, ir: u16, extension: u16): Option<Insn> {
    var opc, d, a, imm := ir / 0x4000, ir / 0x800 % 8, ir / 0x100 % 8, ir % 0x100;
    if opc == 0 && ir % 0x800 == 0x34 then if p.longJall then Some(Jall(d, extension)) else None
    else if opc == 1 then
      var disp := Signed8(imm - imm % 2);
      if imm % 2 == 1 then Some(St(d, a, disp)) else Some(Ld(d, a, disp))
    else if opc == 2 then DecodeImm(p, d, a, imm)
    else DecodeReg(p, d, a, imm / 8, imm % 8)
  }

  // ----- results -----

  lemma {:induction false} LogicRange(a: nat, b: nat, k: nat)
    requires a < Pow2(k) && b < Pow2(k)
    ensures Bits.And(a, b) < Pow2(k) && Bits.Or(a, b) < Pow2(k) && Xor(a, b) < Pow2(k)
  {
    if a > 0 && b > 0 { LogicRange(a / 2, b / 2, k - 1); }
  }

  function AndWord(a: u16, b: u16): u16 { LogicRange16(a, b); Bits.And(a, b) }

  function OrWord(a: u16, b: u16): u16 { LogicRange16(a, b); Bits.Or(a, b) }

  function XorWord(a: u16, b: u16): u16 { LogicRange16(a, b); Xor(a, b) }

  lemma LogicRange16(a: u16, b: u16)
    ensures Bits.And(a, b) < 0x1_0000 && Bits.Or(a, b) < 0x1_0000 && Xor(a, b) < 0x1_0000
  {
    hide Bits.And, Bits.Or, Xor;
    Pow2Values();
    LogicRange(a, b, 16);
  }

  function Flag(b: bool): u16 {
    if b then 1 else 0
  }

  function AluResult(p: Profile, op: AluOp, a: u16, b: u16): u16 {
    match op
    case ADD => Word(a + b)
    case SUB => Word(a - b)
    case SLT => if p.nano then Flag(a < b) else Flag(Signed16(a) < Signed16(b))
    case SLTU => Flag(a < b)
    case AND => AndWord(a, b)
    case OR => OrWord(a, b)
    case XOR => XorWord(a, b)
    case MUL => Word(a * b)
  }

  /** A shift by n places multiplies or divides by 2^n; SRAI divides the signed value, rounding down. */
  function ShiftResult(op: ShiftOp, v: u16, n: nat): u16 {
    match op
    case SLLI => Word(v * Pow2(n))
    case SRLI => Word(v / Pow2(n))
    case SRAI => Word(Signed16(v) / Pow2(n))
  }

  function ImmResult(op: ImmOp, v: u16, imm: u8): u16 {
    match op
    case LDI => imm
    case LUI => imm * 0x100
    case ADDI => Word(v + Signed8(imm))
    case CMPI => Word(v - Signed8(imm))
    case ANDI => AndWord(v, imm)
    case ORI => OrWord(v, imm)
    case XORI => XorWord(v, imm)
  }

  predicate Holds(cc: Condition, v: u16) {
    match cc
    case BEQZ => v == 0
    case BNEZ => v != 0
    case BLTZ => v >= 0x8000
    case BGEZ => v < 0x8000
  }

  // ----- memory -----

  /** A word load; at the test register it acknowledges the interrupt line. */
  function Loaded(st: State, address: u16): u16
    requires st.Valid()
  {
    if WordOf(address) == TEST_IRQ then Flag(st.irqLine) else st.mem[WordOf(address)]
  }

  function AfterLoad(st: State, address: u16): State {
    if WordOf(address) == TEST_IRQ then st.(irqLine := false) else st
  }

  /** A word store, with byte lanes; at the test register it raises the interrupt line, and at
  the result word it ends the run. */
  function Stored(st: State, address: u16, low: Option<u8>, high: Option<u8>): (st': State)
    requires st.Valid()
    ensures st'.Valid() && st'.insns == st.insns
  {
    var w := WordOf(address);
    var was := st.mem[w];
    var value := (if high.Some? then high.value else was / 0x100) * 0x100 + if low.Some? then low.value else was % 0x100;
    st.(mem := st.mem[w := value], irqLine := st.irqLine || w == TEST_IRQ, done := st.done || w == RESULT)
  }

  function LoadedByte(st: State, address: u16): u8
    requires st.Valid()
  {
    var v := st.mem[WordOf(address)];
    if address % 2 == 1 then v / 0x100 else v % 0x100
  }

  function SignExtended(b: u8): u16 {
    if b >= 0x80 then 0xFF00 + b else b
  }

  // ----- effects -----

  function Write(st: State, d: u3, v: u16): (st': State)
    requires st.Valid()
    ensures st'.Valid() && st'.insns == st.insns
  {
    st.(r := st.r[d := v])
  }

  function WriteSystem(st: State, d: u3, v: u16): (st': State)
    requires st.Valid()
    ensures st'.Valid() && st'.insns == st.insns
  {
    st.(s := st.s[d := v])
  }

  /** rd = the word at address. */
  function LoadInto(st: State, rd: u3, address: u16): (st': State)
    requires st.Valid()
    ensures st'.Valid() && st'.insns == st.insns
  {
    Write(AfterLoad(st, address), rd, Loaded(st, address))
  }

  /** The quotient replaces the low word of the dividend, the remainder the high word. */
  function Divide(st: State, rd: u3, ra: u3, rb: u3): (out: Option<State>)
    requires st.Valid()
    ensures out.Some? ==> out.value.Valid() && out.value.insns == st.insns
  {
    var high, low, divisor := st.r[rd], st.r[ra], st.r[rb];
    if divisor == 0 || high >= divisor then None
    else
      DivuRange(high, low, divisor);
      Some(Write(Write(st, ra, Dividend(high, low) / divisor), rd, Dividend(high, low) % divisor))
  }

  function Multiply(st: State, rd: u3, ra: u3, rb: u3): (st': State)
    requires st.Valid()
    ensures st'.Valid() && st'.insns == st.insns
  {
    var product := Product(st.r[ra], st.r[rb]);
    Write(Write(st, rd, Word(product)), ra, Word(product / 0x1_0000))
  }

  /** A call by register: the nano profile links in a general register. */
  function CallRegister(p: Profile, st: State, sd: u3, target: u16, link: u16): (st': State)
    requires st.Valid()
    ensures st'.Valid() && st'.insns == st.insns
  {
    var linked := if sd == 0 then st else if p.nano then Write(st, sd, link) else WriteSystem(st, sd, link);
    linked.(pc := WordOf(target))
  }

  function CallLong(st: State, sd: u3, target: u16, link: u16): (st': State)
    requires st.Valid()
    ensures st'.Valid() && st'.insns == st.insns
  {
    (if sd == 0 then st else WriteSystem(st, sd, link)).(pc := WordOf(target))
  }

  /** One bit moves from the endpoint register into the shifted one. */
  function FunnelLeft(shifted: u16, endpoint: u16): u16 {
    Word(shifted as int * 2 + endpoint / 0x8000)
  }

  function FunnelRight(shifted: u16, endpoint: u16): u16 {
    shifted / 2 + endpoint % 2 * 0x8000
  }

  /** The effect of an instruction, given the address of the instruction after it. */
  function Execute(p: Profile, i: Insn, st: State, next: u15): (out: Option<State>)
    requires st.Valid()
    ensures out.Some? ==> out.value.Valid()
  {
    var on := st.(pc := next);
    match i
    case Jall(sd, target) => Some(CallLong(st, sd, target, ByteOf(Next(next))))
    case Ld(rd, ra, disp) => Some(LoadInto(on, rd, Word(st.r[ra] + disp)))
    case St(rd, ra, disp) => Some(StoreWhole(on, Word(st.r[ra] + disp), st.r[rd]))
    case Imm(op, rd, imm) => Some(Write(on, if op == CMPI then 0 else rd, ImmResult(op, st.r[rd], imm)))
    case Branch(cc, rel) => Some(if Holds(cc, st.r[0]) then st.(pc := Offset(next, rel)) else on)
    case Jmp8(rel) => Some(st.(pc := Offset(next, rel), halted := st.halted || rel == -1))
    case Alu(op, rd, ra, rb) => Some(Write(on, rd, AluResult(p, op, st.r[ra], st.r[rb])))
    case Ldx(rd, ra, rb) => Some(LoadInto(on, rd, Word(st.r[ra] as int + st.r[rb])))
    case Ldb(rd, ra) => Some(Write(on, rd, LoadedByte(st, st.r[ra])))
    case Ldbs(rd, ra) => Some(Write(on, rd, SignExtended(LoadedByte(st, st.r[ra]))))
    case Stb(rd, ra) => Some(StoreByte(on, st.r[ra], st.r[rd] % 0x100))
    case Shift(op, rd, ra, n) => Some(Write(on, rd, ShiftResult(op, st.r[ra], n)))
    case Divu(rd, ra, rb) => Divide(on, rd, ra, rb)
    case Mulhu(rd, ra, rb) => Some(Multiply(on, rd, ra, rb))
    case Fsl1(rd, ra) => Some(Write(on, rd, FunnelLeft(st.r[rd], st.r[ra])))
    case Fsr1(rd, ra) => Some(Write(on, rd, FunnelRight(st.r[rd], st.r[ra])))
    case Ret(sa) => Some(st.(pc := WordOf(st.s[sa])))
    case Reti(sa) => Some(st.(pc := WordOf(st.s[sa]), ie := true))
    case Iflush => Some(on)
    case Cli => Some(on.(ie := false))
    case Sti => Some(on.(ie := true))
    case Jalr(sd, ra) => Some(CallRegister(p, st, sd, st.r[ra], ByteOf(next)))
    case Mfs(rd, sa) => Some(Write(on, rd, st.s[sa]))
    case Mts(sd, ra) => Some(WriteSystem(on, sd, st.r[ra]))
  }

  function Dividend(high: u16, low: u16): nat {
    high as int * 0x1_0000 + low
  }

  function Product(a: u16, b: u16): (p: nat)
    ensures p == a as int * b as int
  {
    ProductNonnegative(a, b);
    a as int * b as int
  }

  lemma ProductNonnegative(a: nat, b: nat)
    ensures a * b >= 0
  {
  }

  function StoreWhole(st: State, address: u16, value: u16): (st': State)
    requires st.Valid()
    ensures st'.Valid() && st'.insns == st.insns
  {
    Stored(st, address, Some(value % 0x100), Some(value / 0x100))
  }

  function StoreByte(st: State, address: u16, value: u8): (st': State)
    requires st.Valid()
    ensures st'.Valid() && st'.insns == st.insns
  {
    if address % 2 == 1 then Stored(st, address, None, Some(value)) else Stored(st, address, Some(value), None)
  }

  /** A quotient of a two-word dividend fits a word when the high word is below the divisor. */
  lemma DivuRange(remainder: u16, quotient: u16, divisor: u16)
    requires remainder < divisor
    ensures 0 <= Dividend(remainder, quotient) / divisor < 0x1_0000
    ensures 0 <= Dividend(remainder, quotient) % divisor < divisor
  {
    hide *;
    var n := Dividend(remainder, quotient);
    DividendIs(remainder, quotient);
    DivModBasic(n, divisor);
    QuotientBelow(divisor, n / divisor, n % divisor, remainder, quotient);
  }

  lemma DividendIs(high: u16, low: u16)
    ensures Dividend(high, low) == high as int * 0x1_0000 + low
  {
  }

  lemma QuotientBelow(d: nat, q: int, r: int, high: u16, low: u16)
    requires high < d && d * q + r == high as int * 0x1_0000 + low && 0 <= r < d
    ensures 0 <= q < 0x1_0000
  {
    hide *;
    if q >= 0x1_0000 {
      MulOrder(d, 0x1_0000, q);
    } else if q < 0 {
      MulOrder(d, q, -1);
    }
  }

  lemma MulOrder(d: nat, x: int, y: int)
    requires x <= y
    ensures d * x <= d * y
  {
  }

  // ----- steps -----

  predicate Interrupted(p: Profile, st: State) {
    p.sysTier && st.ie && st.irqLine
  }

  /** One architectural step: interrupt entry, or the instruction at pc. */
  function Step(p: Profile, st: State): (out: Option<State>)
    requires st.Valid()
    ensures out.Some? ==> out.value.Valid()
  {
    if Interrupted(p, st) then
      Some(st.(s := st.s[0 := ByteOf(st.pc)], ie := false, pc := 2, irqTaken := st.irqTaken + 1))
    else
      match Decode(p, st.mem[st.pc], st.mem[Next(st.pc)])
      case None => None
      case Some(i) => Execute(p, i, st.(insns := st.insns + 1), Next(st.pc))
  }
}
