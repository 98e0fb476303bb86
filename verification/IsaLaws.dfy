/** What the instructions do, said without the functions that compute it: results in congruences,
orders and bits, memory in bytes, and pairs of instructions that undo each other. */
module IsaLaws {
  import opened Bits
  import opened Isa
  import Rounding
  import Sim

  // ----- bits -----

  predicate Bit(x: nat, k: nat) {
    Shr(x, k) % 2 == 1
  }

  lemma BitStep(x: nat, k: nat)
    ensures Bit(x, 0) <==> x % 2 == 1
    ensures Bit(x, k + 1) <==> Bit(x / 2, k)
  {
    hide Pow2;
    assert Pow2(0) == 1 by { Pow2Values(); }
    ShrIs(x, 0);
    ShrIs(x, k + 1);
    ShrIs(x / 2, k);
    Pow2Step(k);
    DivModDouble(x, Pow2(k));
  }

  lemma {:induction false} LogicBits(a: nat, b: nat, k: nat)
    ensures Bit(Bits.And(a, b), k) <==> Bit(a, k) && Bit(b, k)
    ensures Bit(Bits.Or(a, b), k) <==> Bit(a, k) || Bit(b, k)
    ensures Bit(Xor(a, b), k) <==> Bit(a, k) != Bit(b, k)
  {
    hide Bit, Bits.And, Bits.Or, Xor;
    LogicHalves(a, b);
    BitStep(a, if k > 0 then k - 1 else 0);
    BitStep(b, if k > 0 then k - 1 else 0);
    BitStep(Bits.And(a, b), if k > 0 then k - 1 else 0);
    BitStep(Bits.Or(a, b), if k > 0 then k - 1 else 0);
    BitStep(Xor(a, b), if k > 0 then k - 1 else 0);
    if k > 0 { LogicBits(a / 2, b / 2, k - 1); }
  }

  lemma LogicHalves(a: nat, b: nat)
    ensures Bits.And(a, b) / 2 == Bits.And(a / 2, b / 2) && (Bits.And(a, b) % 2 == 1 <==> a % 2 == 1 && b % 2 == 1)
    ensures Bits.Or(a, b) / 2 == Bits.Or(a / 2, b / 2) && (Bits.Or(a, b) % 2 == 1 <==> a % 2 == 1 || b % 2 == 1)
    ensures Xor(a, b) / 2 == Xor(a / 2, b / 2) && (Xor(a, b) % 2 == 1 <==> a % 2 != b % 2)
  {
    AndStep(a, b);
    OrZero(a / 2);
    OrZero(b / 2);
    XorHalves(a, b);
  }

  /** A number below 2^n has no bit from n on. */
  lemma {:induction false} NoHighBit(x: nat, n: nat, k: nat)
    requires x < Pow2(n) && n <= k
    ensures !Bit(x, k)
  {
    hide Bit;
    if k > 0 {
      BitStep(x, k - 1);
      if n == 0 { NoHighBit(x / 2, 0, k - 1); } else { NoHighBit(x / 2, n - 1, k - 1); }
    } else {
      BitStep(x, 0);
    }
  }

  /** A word is determined by its bits. */
  lemma {:induction false} BitsDetermine(x: nat, y: nat, n: nat)
    requires x < Pow2(n) && y < Pow2(n) && forall k: nat :: k < n ==> (Bit(x, k) <==> Bit(y, k))
    ensures x == y
  {
    hide Bit;
    if n > 0 {
      BitStep(x, 0);
      BitStep(y, 0);
      assert Bit(x, 0) <==> Bit(y, 0);
      forall k: nat | k < n - 1 ensures Bit(x / 2, k) <==> Bit(y / 2, k) {
        BitStep(x, k);
        BitStep(y, k);
        assert Bit(x, k + 1) <==> Bit(y, k + 1);
      }
      BitsDetermine(x / 2, y / 2, n - 1);
    }
  }

  lemma WordBit(x: nat, k: nat)
    requires k < 16
    ensures Bit(x % 0x1_0000, k) <==> Bit(x, k)
  {
    hide Bit;
    Pow2Values();
    RemainderBit(x, 16, k);
  }

  lemma {:induction false} RemainderBit(x: nat, n: nat, k: nat)
    requires k < n
    ensures Bit(x % Pow2(n), k) <==> Bit(x, k)
  {
    hide Bit, Pow2;
    Pow2Step(n - 1);
    DivModDouble(x, Pow2(n - 1));
    var y := x % Pow2(n);
    assert y / 2 == x / 2 % Pow2(n - 1) && y % 2 == x % 2;
    if k == 0 {
      BitStep(x, 0);
      BitStep(y, 0);
    } else {
      BitStep(x, k - 1);
      BitStep(y, k - 1);
      RemainderBit(x / 2, n - 1, k - 1);
    }
  }

  // ----- results -----

  /** a is below b as signed words. */
  predicate SignedBelow(a: u16, b: u16) {
    (a + 0x8000) % 0x1_0000 < (b + 0x8000) % 0x1_0000
  }

  /** v is the result of an ALU instruction on a and b. */
  ghost predicate AluGives(p: Profile, op: AluOp, a: u16, b: u16, v: u16) {
    match op
    case ADD => (v - b) % 0x1_0000 == a
    case SUB => (v + b) % 0x1_0000 == a
    case SLT => v == if (if p.nano then a < b else SignedBelow(a, b)) then 1 else 0
    case SLTU => v == if a < b then 1 else 0
    case AND => forall k: nat :: k < 16 ==> (Bit(v, k) <==> Bit(a, k) && Bit(b, k))
    case OR => forall k: nat :: k < 16 ==> (Bit(v, k) <==> Bit(a, k) || Bit(b, k))
    case XOR => forall k: nat :: k < 16 ==> (Bit(v, k) <==> Bit(a, k) != Bit(b, k))
    case MUL => exists q: int :: a * b == Times2To16(q) + v
  }

  function Times2To16(q: int): int { 0x1_0000 * q }

  /** v is the result of an immediate instruction on a and the operand as written. */
  ghost predicate ImmGives(op: ImmOp, a: u16, x: int, v: u16) {
    match op
    case LDI => v < 0x100 && (v - x) % 0x100 == 0
    case LUI => v % 0x100 == 0 && (v / 0x100 - x) % 0x100 == 0
    case ADDI => (v - x) % 0x1_0000 == a
    case CMPI => (v + x) % 0x1_0000 == a
    case ANDI => forall k: nat :: k < 16 ==> (Bit(v, k) <==> Bit(a, k) && Bit(x % 0x100, k))
    case ORI => forall k: nat :: k < 16 ==> (Bit(v, k) <==> Bit(a, k) || Bit(x % 0x100, k))
    case XORI => forall k: nat :: k < 16 ==> (Bit(v, k) <==> Bit(a, k) != Bit(x % 0x100, k))
  }

  /** v is a shifted by n places; SRAI repeats the sign bit. */
  ghost predicate ShiftGives(op: ShiftOp, a: u16, n: nat, v: u16) {
    forall k: nat :: k < 16 ==> (Bit(v, k) <==> match op
                                               case SLLI => k >= n && Bit(a, k - n)
                                               case SRLI => Bit(a, k + n)
                                               case SRAI => Bit(a, if k + n < 16 then k + n else 15))
  }

  lemma AluIs(p: Profile, op: AluOp, a: u16, b: u16)
    ensures AluGives(p, op, a, b, AluResult(p, op, a, b))
  {
    hide *;
    if op.AND? || op.OR? || op.XOR? {
      LogicIs(p, op, a, b);
    } else if op.MUL? {
      MulIs(p, a, b);
    } else {
      ArithmeticIs(p, op, a, b);
    }
  }

  lemma ArithmeticIs(p: Profile, op: AluOp, a: u16, b: u16)
    requires op.ADD? || op.SUB? || op.SLT? || op.SLTU?
    ensures AluGives(p, op, a, b, AluResult(p, op, a, b))
  {
    hide Bit, Bits.And, Bits.Or, Xor, Word, Signed16, SignedBelow;
    SumBack(a, b);
    SignedOrder(a, b);
  }

  lemma SumBack(a: u16, b: u16)
    ensures (Word(a + b) - b) % 0x1_0000 == a && (Word(a - b) + b) % 0x1_0000 == a
  {
  }

  lemma SignedOrder(a: u16, b: u16)
    ensures SignedBelow(a, b) <==> Signed16(a) < Signed16(b)
  {
  }

  lemma LogicIs(p: Profile, op: AluOp, a: u16, b: u16)
    requires op.AND? || op.OR? || op.XOR?
    ensures AluGives(p, op, a, b, AluResult(p, op, a, b))
  {
    hide Bit, Bits.And, Bits.Or, Xor;
    forall k: nat ensures Bit(Bits.And(a, b), k) <==> Bit(a, k) && Bit(b, k) { LogicBits(a, b, k); }
    forall k: nat ensures Bit(Bits.Or(a, b), k) <==> Bit(a, k) || Bit(b, k) { LogicBits(a, b, k); }
    forall k: nat ensures Bit(Xor(a, b), k) <==> Bit(a, k) != Bit(b, k) { LogicBits(a, b, k); }
  }

  lemma MulIs(p: Profile, a: u16, b: u16)
    ensures AluGives(p, MUL, a, b, AluResult(p, MUL, a, b))
  {
    LowProduct(a * b);
  }

  lemma LowProduct(x: int)
    ensures exists q: int :: x == Times2To16(q) + x % 0x1_0000
  {
    assert x == Times2To16(x / 0x1_0000) + x % 0x1_0000;
  }

  /** There is one such result. */
  lemma AluUnique(p: Profile, op: AluOp, a: u16, b: u16, v: u16, w: u16)
    requires AluGives(p, op, a, b, v) && AluGives(p, op, a, b, w)
    ensures v == w
  {
    hide *;
    if op.AND? || op.OR? || op.XOR? {
      LogicUnique(p, op, a, b, v, w);
    } else if op.MUL? {
      MulUnique(p, a, b, v, w);
    } else {
      ArithmeticUnique(p, op, a, b, v, w);
    }
  }

  lemma LogicUnique(p: Profile, op: AluOp, a: u16, b: u16, v: u16, w: u16)
    requires (op.AND? || op.OR? || op.XOR?) && AluGives(p, op, a, b, v) && AluGives(p, op, a, b, w)
    ensures v == w
  {
    hide Bit;
    Pow2Values();
    BitsDetermine(v, w, 16);
  }

  lemma MulUnique(p: Profile, a: u16, b: u16, v: u16, w: u16)
    requires AluGives(p, MUL, a, b, v) && AluGives(p, MUL, a, b, w)
    ensures v == w
  {
    var n: int := a * b;
    var q: int :| n == Times2To16(q) + v;
    var r: int :| n == Times2To16(r) + w;
    DivModUnique(n, 0x1_0000, q, v);
    DivModUnique(n, 0x1_0000, r, w);
  }

  lemma ArithmeticUnique(p: Profile, op: AluOp, a: u16, b: u16, v: u16, w: u16)
    requires (op.ADD? || op.SUB? || op.SLT? || op.SLTU?) && AluGives(p, op, a, b, v) && AluGives(p, op, a, b, w)
    ensures v == w
  {
  }

  lemma ImmIs(op: ImmOp, a: u16, x: int)
    requires op == ADDI || op == CMPI ==> -128 <= x <= 127
    ensures ImmGives(op, a, x, ImmResult(op, a, x % 0x100))
  {
    hide *;
    if op == ANDI || op == ORI || op == XORI {
      ImmLogic(op, a, x);
    } else {
      ImmArithmetic(op, a, x);
    }
  }

  lemma ImmLogic(op: ImmOp, a: u16, x: int)
    requires op == ANDI || op == ORI || op == XORI
    ensures ImmGives(op, a, x, ImmResult(op, a, x % 0x100))
  {
    hide Bit, Bits.And, Bits.Or, Xor;
    var b: u8 := x % 0x100;
    forall k: nat ensures Bit(Bits.And(a, b), k) <==> Bit(a, k) && Bit(b, k) { LogicBits(a, b, k); }
    forall k: nat ensures Bit(Bits.Or(a, b), k) <==> Bit(a, k) || Bit(b, k) { LogicBits(a, b, k); }
    forall k: nat ensures Bit(Xor(a, b), k) <==> Bit(a, k) != Bit(b, k) { LogicBits(a, b, k); }
  }

  lemma ImmArithmetic(op: ImmOp, a: u16, x: int)
    requires !(op == ANDI || op == ORI || op == XORI) && (op == ADDI || op == CMPI ==> -128 <= x <= 127)
    ensures ImmGives(op, a, x, ImmResult(op, a, x % 0x100))
  {
    hide Bit, AndWord, OrWord, XorWord, Word, Signed8;
    if op == ADDI || op == CMPI {
      FieldValue(x);
      WordBack(a, x);
      WordBack(a, -x);
    } else {
      FieldAgain(x);
    }
  }

  lemma FieldAgain(x: int)
    ensures (x % 0x100 - x) % 0x100 == 0 && (x % 0x100 * 0x100) % 0x100 == 0 && (x % 0x100 * 0x100) / 0x100 == x % 0x100
  {
    DivModBasic(x, 0x100);
    DivModUnique(x % 0x100 - x, 0x100, -(x / 0x100), 0);
    MultipleMod(x % 0x100, 0x100);
  }

  lemma FieldValue(x: int)
    requires -128 <= x <= 127
    ensures Signed8(x % 0x100) == x
  {
  }

  lemma WordBack(a: u16, x: int)
    requires -128 <= x <= 128
    ensures (Word(a + x) - x) % 0x1_0000 == a
  {
  }

  // ----- shifts -----

  lemma {:induction false} ShiftIs(op: ShiftOp, a: u16, n: nat)
    ensures ShiftGives(op, a, n, ShiftResult(op, a, n))
  {
    hide *;
    if n == 0 {
      ShiftByNone(op, a);
    } else {
      ShiftIs(op, a, n - 1);
      if op == SLLI {
        LeftAgain(a, n - 1);
      } else {
        RightAgain(op, a, n - 1);
      }
    }
  }

  lemma ShiftByNone(op: ShiftOp, a: u16)
    ensures ShiftGives(op, a, 0, ShiftResult(op, a, 0))
  {
    hide Bit;
    Pow2Values();
    Pow2Values16(a);
  }

  lemma Pow2Values16(a: u16)
    ensures forall k: nat :: k >= 16 ==> !Bit(a, k)
  {
    hide Bit;
    Pow2Values();
    forall k: nat | k >= 16 ensures !Bit(a, k) { NoHighBit(a, 16, k); }
  }

  lemma LeftAgain(a: u16, n: nat)
    requires ShiftGives(SLLI, a, n, ShiftResult(SLLI, a, n))
    ensures ShiftGives(SLLI, a, n + 1, ShiftResult(SLLI, a, n + 1))
  {
    hide *;
    var v, w := ShiftResult(SLLI, a, n), ShiftResult(SLLI, a, n + 1);
    LeftDoubles(a, n);
    forall k: nat | k < 16 ensures Bit(w, k) <==> k >= n + 1 && Bit(a, k - (n + 1)) {
      WordBit(2 * (v as int), k);
      DoubledBit(v, k);
      if k > 0 { ShiftedBit(SLLI, a, n, v, k - 1); }
    }
    ShiftGivenLeft(a, n + 1, w);
  }

  lemma ShiftedBit(op: ShiftOp, a: u16, n: nat, v: u16, k: nat)
    requires ShiftGives(op, a, n, v) && k < 16
    ensures op == SLLI ==> (Bit(v, k) <==> k >= n && Bit(a, k - n))
    ensures op == SRLI ==> (Bit(v, k) <==> Bit(a, k + n))
    ensures op == SRAI ==> (Bit(v, k) <==> Bit(a, if k + n < 16 then k + n else 15))
  {
    hide Bit;
  }

  lemma ShiftGivenLeft(a: u16, n: nat, v: u16)
    requires forall k: nat :: k < 16 ==> (Bit(v, k) <==> k >= n && Bit(a, k - n))
    ensures ShiftGives(SLLI, a, n, v)
  {
    hide Bit;
  }

  lemma ShiftGivenRight(op: ShiftOp, a: u16, n: nat, v: u16)
    requires op != SLLI
    requires forall k: nat :: k < 16 ==> (Bit(v, k) <==> Bit(a, if op == SRLI || k + n < 16 then k + n else 15))
    ensures ShiftGives(op, a, n, v)
  {
    hide Bit;
  }

  lemma DoubledBit(v: nat, k: nat)
    ensures Bit(2 * v, k) <==> k > 0 && Bit(v, k - 1)
  {
    hide Bit;
    BitStep(2 * v, if k > 0 then k - 1 else 0);
  }

  lemma LeftDoubles(a: u16, n: nat)
    ensures ShiftResult(SLLI, a, n + 1) == (2 * ShiftResult(SLLI, a, n)) % 0x1_0000
  {
    hide Pow2;
    Pow2Step(n);
    var x, y := a * Pow2(n), a * Pow2(n + 1);
    assert y == 2 * x by { DoubleProduct(Pow2(n), a); }
    DoubleMod(x);
  }

  lemma DoubleMod(x: int)
    ensures (2 * (x % 0x1_0000)) % 0x1_0000 == (2 * x) % 0x1_0000
  {
    var q, r := x / 0x1_0000, x % 0x1_0000;
    DivModBasic(x, 0x1_0000);
    DivModBasic(2 * r, 0x1_0000);
    DivModUnique(2 * x, 0x1_0000, 2 * q + 2 * r / 0x1_0000, 2 * r % 0x1_0000);
  }

  lemma RightAgain(op: ShiftOp, a: u16, n: nat)
    requires op != SLLI && ShiftGives(op, a, n, ShiftResult(op, a, n))
    ensures ShiftGives(op, a, n + 1, ShiftResult(op, a, n + 1))
  {
    hide *;
    var v, w := ShiftResult(op, a, n), ShiftResult(op, a, n + 1);
    if op == SRLI { Sim.LogicalStep(a, n, v); } else { Sim.ArithmeticStep(a, n, v); }
    Pow2Values16(a);
    SignBit(v);
    forall k: nat | k < 16 ensures Bit(w, k) <==> Bit(a, if op == SRLI || k + (n + 1) < 16 then k + (n + 1) else 15) {
      HalvedBit(v, k);
      if k < 15 { ShiftedBit(op, a, n, v, k + 1); } else { ShiftedBit(op, a, n, v, 15); }
    }
    ShiftGivenRight(op, a, n + 1, w);
  }

  lemma SignBit(v: u16)
    ensures Bit(v, 15) <==> v >= 0x8000
  {
    hide Pow2;
    Pow2Values();
    ShrIs(v, 15);
  }

  lemma HalvedBit(v: u16, k: nat)
    requires k < 16
    ensures Bit(v / 2, k) <==> k < 15 && Bit(v, k + 1)
    ensures Bit(v / 2 + 0x8000, k) <==> k == 15 || Bit(v, k + 1)
  {
    hide Bit, Pow2;
    BitStep(v, k);
    if k == 15 {
      SignBit(v / 2);
      SignBit(v / 2 + 0x8000);
      Pow2Values16(v);
    } else {
      LowBit(v / 2, k);
    }
  }

  lemma LowBit(h: nat, k: nat)
    requires h < 0x8000 && k < 15
    ensures Bit(h + 0x8000, k) <==> Bit(h, k)
  {
    hide Bit, Pow2;
    Pow2Values();
    RemainderBit(h + 0x8000, 15, k);
    DivModUnique(h + 0x8000, 0x8000, 1, h);
  }

  // ----- what a step leaves alone -----

  /** The machine is about to run i. */
  predicate Runs(p: Profile, st: State, i: Insn) {
    st.Valid() && !(p.sysTier && st.ie && st.irqLine) && Decode(p, st.mem[st.pc], st.mem[(st.pc + 1) % 0x8000]) == Some(i)
  }

  /** Where a step ends when control goes to pc and nothing else happens. */
  function Moved(st: State, pc: int): State {
    st.(pc := pc % 0x8000, insns := st.insns + 1)
  }

  /** Of registers and system registers only rd changes, and nothing else but pc and insns. */
  ghost predicate OnlyRegister(st: State, st': State, rd: u3) {
    && st.Valid() && st'.Valid() && (forall k: u3 :: k != rd ==> st'.r[k] == st.r[k])
    && st'.(r := st.r) == Moved(st, st.pc + 1)
  }

  /** Two general registers change. */
  ghost predicate OnlyRegisters(st: State, st': State, rd: u3, ra: u3) {
    && st.Valid() && st'.Valid() && (forall k: u3 :: k != rd && k != ra ==> st'.r[k] == st.r[k])
    && st'.(r := st.r) == Moved(st, st.pc + 1)
  }

  ghost predicate OnlySystem(st: State, st': State, sd: u3) {
    && st.Valid() && st'.Valid() && (forall k: u3 :: k != sd ==> st'.s[k] == st.s[k])
    && st'.(s := st.s) == Moved(st, st.pc + 1)
  }

  lemma Ran(p: Profile, st: State, i: Insn)
    requires Runs(p, st, i)
    ensures Step(p, st) == Execute(p, i, st.(insns := st.insns + 1), Next(st.pc))
  {
    hide Decode, Execute;
  }

  // ----- instructions that compute -----

  lemma AluStep(p: Profile, st: State, op: AluOp, rd: u3, ra: u3, rb: u3)
    requires Runs(p, st, Alu(op, rd, ra, rb))
    ensures var out := Step(p, st);
            out.Some? && OnlyRegister(st, out.value, rd) && AluGives(p, op, st.r[ra], st.r[rb], out.value.r[rd])
  {
    hide Decode, AluGives, AluResult, Step;
    Ran(p, st, Alu(op, rd, ra, rb));
    AluIs(p, op, st.r[ra], st.r[rb]);
  }

  lemma ImmStep(p: Profile, st: State, op: ImmOp, rd: u3, x: int)
    requires Runs(p, st, Imm(op, rd, x % 0x100)) && (op == ADDI || op == CMPI ==> -128 <= x <= 127)
    ensures var out, d := Step(p, st), if op == CMPI then 0 else rd;
            out.Some? && OnlyRegister(st, out.value, d) && ImmGives(op, st.r[rd], x, out.value.r[d])
  {
    hide Decode, ImmGives, ImmResult, Step;
    Ran(p, st, Imm(op, rd, x % 0x100));
    ImmIs(op, st.r[rd], x);
  }

  lemma ShiftStep(p: Profile, st: State, op: ShiftOp, rd: u3, ra: u3, n: nat)
    requires Runs(p, st, Shift(op, rd, ra, n))
    ensures var out := Step(p, st);
            out.Some? && OnlyRegister(st, out.value, rd) && ShiftGives(op, st.r[ra], n, out.value.r[rd])
  {
    hide Decode, ShiftGives, ShiftResult, Step;
    Ran(p, st, Shift(op, rd, ra, n));
    ShiftIs(op, st.r[ra], n);
  }

  /** v is `shifted` moved one place, with the bit that falls off the other register. */
  ghost predicate FunnelGives(left: bool, shifted: u16, endpoint: u16, v: u16) {
    forall k: nat :: k < 16 ==>
      (Bit(v, k) <==> if left then (if k == 0 then Bit(endpoint, 15) else Bit(shifted, k - 1))
                      else if k == 15 then Bit(endpoint, 0) else Bit(shifted, k + 1))
  }

  lemma FunnelStep(p: Profile, st: State, left: bool, rd: u3, ra: u3)
    requires Runs(p, st, if left then Fsl1(rd, ra) else Fsr1(rd, ra))
    ensures var out := Step(p, st);
            out.Some? && OnlyRegister(st, out.value, rd) && FunnelGives(left, st.r[rd], st.r[ra], out.value.r[rd])
  {
    hide Decode, Step, Bit, FunnelLeft, FunnelRight;
    Ran(p, st, if left then Fsl1(rd, ra) else Fsr1(rd, ra));
    forall k: nat | k < 16
      ensures Bit(FunnelLeft(st.r[rd], st.r[ra]), k) <==> if k == 0 then Bit(st.r[ra], 15) else Bit(st.r[rd], k - 1)
      ensures Bit(FunnelRight(st.r[rd], st.r[ra]), k) <==> if k == 15 then Bit(st.r[ra], 0) else Bit(st.r[rd], k + 1)
    {
      FunnelBit(st.r[rd], st.r[ra], k);
    }
  }

  lemma FunnelBit(shifted: u16, endpoint: u16, k: nat)
    requires k < 16
    ensures Bit(FunnelLeft(shifted, endpoint), k) <==> if k == 0 then Bit(endpoint, 15) else Bit(shifted, k - 1)
    ensures Bit(FunnelRight(shifted, endpoint), k) <==> if k == 15 then Bit(endpoint, 0) else Bit(shifted, k + 1)
  {
    hide Bit;
    SignBit(endpoint);
    BitStep(endpoint, 0);
    HalvedBit(shifted, k);
    Pow2Values16(shifted);
    var x: nat := 2 * (shifted as int) + endpoint / 0x8000;
    WordBit(x, k);
    BitStep(x, if k > 0 then k - 1 else 0);
    assert x / 2 == shifted;
  }

  /** The quotient and remainder of the two-word dividend, or no step for a quotient that does not fit a word. */
  ghost predicate DivuGives(st: State, out: Option<State>, rd: u3, ra: u3, rb: u3)
    requires st.Valid()
  {
    var d := st.r[rb];
    && (out.Some? <==> st.r[rd] < d)
    && (out.Some? ==>
          && OnlyRegisters(st, out.value, rd, ra) && out.value.r[rd] < d
          && Times(out.value.r[ra], d) + out.value.r[rd] == st.r[rd] as int * 0x1_0000 + st.r[ra])
  }

  lemma DivuStep(p: Profile, st: State, rd: u3, ra: u3, rb: u3)
    requires Runs(p, st, Divu(rd, ra, rb)) && rd != ra
    ensures DivuGives(st, Step(p, st), rd, ra, rb)
  {
    hide Decode, Step, Dividend;
    Ran(p, st, Divu(rd, ra, rb));
    var high, low, d := st.r[rd], st.r[ra], st.r[rb];
    if high < d {
      DividendIs(high, low);
      DivuRange(high, low, d);
      DividedBack(Dividend(high, low), d);
    }
  }

  function Times(a: nat, b: nat): int { a * b }

  lemma DividedBack(n: nat, d: nat)
    requires d > 0
    ensures n / d >= 0 && Times(n / d, d) + n % d == n
  {
    DivModBasic(n, d);
    DivNonnegative(n, d);
  }

  /** The two words of the product. */
  ghost predicate MulhuGives(st: State, out: Option<State>, rd: u3, ra: u3, rb: u3)
    requires st.Valid()
  {
    out.Some? && OnlyRegisters(st, out.value, rd, ra)
    && out.value.r[ra] as int * 0x1_0000 + out.value.r[rd] == Times(st.r[ra], st.r[rb])
  }

  lemma MulhuStep(p: Profile, st: State, rd: u3, ra: u3, rb: u3)
    requires Runs(p, st, Mulhu(rd, ra, rb)) && rd != ra
    ensures MulhuGives(st, Step(p, st), rd, ra, rb)
  {
    hide Decode, Step, Product;
    Ran(p, st, Mulhu(rd, ra, rb));
    TwoWords(st.r[ra], st.r[rb]);
  }

  lemma TwoWords(a: u16, b: u16)
    ensures var n := Product(a, b); Word(n / 0x1_0000) as int * 0x1_0000 + Word(n) == Times(a, b)
  {
    Rounding.ProductLe(a, 0xFFFF, b);
    var n := Product(a, b);
    assert n <= 0xFFFF * 0xFFFF;
    assert Word(n / 0x1_0000) == n / 0x1_0000;
  }

  // ----- control -----

  predicate Taken(cc: Condition, v: int) {
    match cc case BEQZ => v == 0 case BNEZ => v < 0 || v > 0 case BLTZ => v < 0 case BGEZ => v >= 0
  }

  /** A conditional branch on the signed value v of r0. */
  lemma BranchStep(p: Profile, st: State, cc: Condition, rel: int, v: int)
    requires Runs(p, st, Branch(cc, rel)) && -0x8000 <= v < 0x8000 && v % 0x1_0000 == st.r[0]
    ensures Step(p, st) == Some(Moved(st, if Taken(cc, v) then st.pc + 1 + rel else st.pc + 1))
  {
    hide Decode, Step;
    Ran(p, st, Branch(cc, rel));
    Relative(st.pc, rel);
  }

  lemma Relative(pc: u15, rel: int)
    ensures Offset(Next(pc), rel) == (pc + 1 + rel) % 0x8000
  {
  }

  /** A short jump; the one to itself stops the machine. */
  lemma JumpStep(p: Profile, st: State, rel: int)
    requires Runs(p, st, Jmp8(rel))
    ensures Step(p, st) == Some(Moved(st, st.pc + 1 + rel).(halted := st.halted || (st.pc + 1 + rel) % 0x8000 == st.pc))
  {
    hide Decode, Step;
    Ran(p, st, Jmp8(rel));
    Relative(st.pc, rel);
    RelFits(p, st, rel);
  }

  lemma RelFits(p: Profile, st: State, rel: int)
    requires Runs(p, st, Jmp8(rel))
    ensures (st.pc + 1 + rel) % 0x8000 == st.pc <==> rel == -1
  {
    hide DecodeReg;
    var ir := st.mem[st.pc];
    NoJump(p, ir / 0x800 % 8, ir / 0x100 % 8, ir % 0x100 / 8, ir % 0x100 % 8);
    assert -128 <= rel <= 127;
  }

  /** The register format has no jump by displacement and no long call. */
  lemma NoJump(p: Profile, d: u3, a: u3, f: nat, b: u3)
    ensures var i := DecodeReg(p, d, a, f, b); i.Some? ==> !i.value.Jmp8? && !i.value.Jall?
  {
  }

  /** A call saves the address of the next word, and a return through the register it was saved in goes
  there, whatever ran in between. */
  lemma CallStep(p: Profile, st: State, sd: u3, ra: u3)
    requires Runs(p, st, Jalr(sd, ra))
    ensures var out, back := Step(p, st), (st.pc + 1) % 0x8000;
            && out.Some? && out.value.Valid()
            && out.value.(r := st.r, s := st.s) == Moved(st, st.r[ra] / 2)
            && (sd == 0 || p.nano ==> out.value.s == st.s) && (sd == 0 || !p.nano ==> out.value.r == st.r)
            && (forall k: u3 :: k != sd ==> out.value.r[k] == st.r[k] && out.value.s[k] == st.s[k])
            && (sd != 0 ==> (if p.nano then out.value.r[sd] else out.value.s[sd]) == 2 * back)
  {
    hide Decode, Step;
    Ran(p, st, Jalr(sd, ra));
    LinkFits(st.pc);
  }

  lemma LinkFits(pc: u15)
    ensures 2 * ((pc + 1) % 0x8000) == ByteOf(Next(pc)) && 2 * ((pc + 2) % 0x8000) == ByteOf(Next(Next(pc)))
  {
  }

  lemma LongCallStep(p: Profile, st: State, sd: u3, target: u16)
    requires Runs(p, st, Jall(sd, target))
    ensures var out := Step(p, st);
            && out.Some? && out.value.Valid() && target == st.mem[(st.pc + 1) % 0x8000]
            && out.value.(s := st.s) == Moved(st, target / 2)
            && (sd == 0 ==> out.value.s == st.s) && (forall k: u3 :: k != sd ==> out.value.s[k] == st.s[k])
            && (sd != 0 ==> out.value.s[sd] == 2 * ((st.pc + 2) % 0x8000))
  {
    hide Step, Decode;
    Ran(p, st, Jall(sd, target));
    LinkFits(st.pc);
    TargetFollows(p, st.mem[st.pc], st.mem[(st.pc + 1) % 0x8000]);
  }

  lemma TargetFollows(p: Profile, ir: u16, extension: u16)
    ensures var i := Decode(p, ir, extension); i.Some? && i.value.Jall? ==> i.value.target == extension
  {
    hide DecodeReg;
    NoJump(p, ir / 0x800 % 8, ir / 0x100 % 8, ir % 0x100 / 8, ir % 0x100 % 8);
  }

  /** Returning to where the call came from. */
  lemma CallReturns(p: Profile, st: State, st2: State, sd: u3, ra: u3)
    requires Runs(p, st, Jalr(sd, ra)) && sd != 0 && !p.nano
    requires Runs(p, st2, Ret(sd)) && Step(p, st).Some? && st2.s[sd] == Step(p, st).value.s[sd]
    ensures Step(p, st2) == Some(Moved(st2, st.pc + 1))
  {
    hide Decode, Step;
    CallStep(p, st, sd, ra);
    Ran(p, st2, Ret(sd));
  }

  lemma LongCallReturns(p: Profile, st: State, st2: State, sd: u3, target: u16)
    requires Runs(p, st, Jall(sd, target)) && sd != 0
    requires Runs(p, st2, Ret(sd)) && Step(p, st).Some? && st2.s[sd] == Step(p, st).value.s[sd]
    ensures Step(p, st2) == Some(Moved(st2, st.pc + 2))
  {
    hide Decode, Step;
    LongCallStep(p, st, sd, target);
    Ran(p, st2, Ret(sd));
  }

  /** The nano build links in a general register and returns by a call that does not link. */
  lemma NanoReturns(p: Profile, st: State, st2: State, sd: u3, ra: u3)
    requires Runs(p, st, Jalr(sd, ra)) && sd != 0 && p.nano
    requires Runs(p, st2, Jalr(0, sd)) && Step(p, st).Some? && st2.r[sd] == Step(p, st).value.r[sd]
    ensures Step(p, st2) == Some(Moved(st2, st.pc + 1))
  {
    hide Decode, Step;
    CallStep(p, st, sd, ra);
    CallStep(p, st2, 0, sd);
  }

  /** Entry to the handler at byte address 4, and the return to the interrupted program with interrupts on. */
  lemma InterruptReturns(p: Profile, st: State, st2: State)
    requires st.Valid() && p.sysTier && st.ie && st.irqLine
    ensures var out := Step(p, st);
            && out.Some? && out.value.Valid() && (forall k: u3 :: k != 0 ==> out.value.s[k] == st.s[k])
            && out.value.(s := st.s) == st.(pc := 2, ie := false, irqTaken := st.irqTaken + 1)
            && (Runs(p, st2, Reti(0)) && st2.s[0] == out.value.s[0] ==> Step(p, st2) == Some(Moved(st2, st.pc).(ie := true)))
  {
    hide Decode, Execute;
    ReturnStep(p, st2, 0);
  }

  /** RET and RETI go to the address in a system register. */
  lemma ReturnStep(p: Profile, st: State, sa: u3)
    ensures Runs(p, st, Ret(sa)) ==> Step(p, st) == Some(Moved(st, st.s[sa] / 2))
    ensures Runs(p, st, Reti(sa)) ==> Step(p, st) == Some(Moved(st, st.s[sa] / 2).(ie := true))
  {
    hide Decode, Step;
    if Runs(p, st, Ret(sa)) { Ran(p, st, Ret(sa)); }
    if Runs(p, st, Reti(sa)) { Ran(p, st, Reti(sa)); }
  }

  /** CLI and STI set the flag, IFLUSH does nothing. */
  lemma FlagStep(p: Profile, st: State)
    ensures Runs(p, st, Cli) ==> Step(p, st) == Some(Moved(st, st.pc + 1).(ie := false))
    ensures Runs(p, st, Sti) ==> Step(p, st) == Some(Moved(st, st.pc + 1).(ie := true))
    ensures Runs(p, st, Iflush) ==> Step(p, st) == Some(Moved(st, st.pc + 1))
  {
    hide Decode, Step;
    if Runs(p, st, Cli) { Ran(p, st, Cli); }
    if Runs(p, st, Sti) { Ran(p, st, Sti); }
    if Runs(p, st, Iflush) { Ran(p, st, Iflush); }
  }

  /** A system register is written by MTS and read by MFS. */
  lemma SystemStep(p: Profile, st: State, a: u3, b: u3)
    ensures Runs(p, st, Mts(a, b)) ==> Step(p, st).Some? && OnlySystem(st, Step(p, st).value, a) && Step(p, st).value.s[a] == st.r[b]
    ensures Runs(p, st, Mfs(a, b)) ==> Step(p, st).Some? && OnlyRegister(st, Step(p, st).value, a) && Step(p, st).value.r[a] == st.s[b]
  {
    hide Decode, Step;
    if Runs(p, st, Mts(a, b)) { Ran(p, st, Mts(a, b)); }
    if Runs(p, st, Mfs(a, b)) { Ran(p, st, Mfs(a, b)); }
  }

  // ----- memory -----

  /** The byte at an address: the even one is the low half of its word. */
  function ByteIn(mem: seq<u16>, a: u16): u8
    requires |mem| == 0x8000
  {
    if a % 2 == 0 then mem[a / 2] % 0x100 else mem[a / 2] / 0x100
  }

  /** A register has the word at an address; the interrupt test register reads as the raised line,
  and reading it lowers the line. */
  ghost predicate LoadsWord(st: State, st': State, rd: u3, address: u16) {
    && st.Valid() && st'.Valid() && OnlyRegister(st.(irqLine := st'.irqLine), st', rd)
    && st'.irqLine == (st.irqLine && address / 2 != 0x7FFD)
    && if address / 2 == 0x7FFD then st'.r[rd] == (if st.irqLine then 1 else 0)
       else st'.r[rd] == ByteIn(st.mem, address - address % 2) + 0x100 * ByteIn(st.mem, address - address % 2 + 1)
  }

  /** The bytes of memory from `first` to `last` are those of value, low byte first at an even address,
  and all others are kept.  The test register raises the line, and the last word ends the run. */
  ghost predicate StoresBytes(st: State, st': State, first: u16, last: u16, value: u16) {
    && st.Valid() && st'.Valid()
    && (forall a: u16 :: ByteIn(st'.mem, a) == if first <= a <= last then (if a == last && first < last then value / 0x100 else value % 0x100)
                                               else ByteIn(st.mem, a))
    && st'.(mem := st.mem) == Moved(st, st.pc + 1).(irqLine := st.irqLine || first / 2 == 0x7FFD, done := st.done || first / 2 == 0x7FFF)
  }

  lemma LoadStep(p: Profile, st: State, i: Insn, rd: u3, address: u16)
    requires Runs(p, st, i)
    requires (i.Ld? && i.rd == rd && (address - i.disp) % 0x1_0000 == st.r[i.ra])
          || (i.Ldx? && i.rd == rd && (address - st.r[i.rb]) % 0x1_0000 == st.r[i.ra])
    ensures Step(p, st).Some? && LoadsWord(st, Step(p, st).value, rd, address)
  {
    hide Decode, Step, LoadInto, Word, LoadsWord;
    Ran(p, st, i);
    LoadAddress(st, i, address);
    LoadedInto(st, rd, address);
  }

  lemma LoadedInto(st: State, rd: u3, address: u16)
    requires st.Valid()
    ensures LoadsWord(st, LoadInto(st.(insns := st.insns + 1).(pc := Next(st.pc)), rd, address), rd, address)
  {
    WordBytes(st.mem[address / 2]);
    var even := address - address % 2;
    assert even % 2 == 0 && even / 2 == address / 2 && (even + 1) % 2 == 1 && (even + 1) / 2 == address / 2;
  }

  lemma LoadAddress(st: State, i: Insn, address: u16)
    requires st.Valid()
    ensures i.Ld? && (address - i.disp) % 0x1_0000 == st.r[i.ra] ==> Word(st.r[i.ra] + i.disp) == address
    ensures i.St? && (address - i.disp) % 0x1_0000 == st.r[i.ra] ==> Word(st.r[i.ra] + i.disp) == address
    ensures i.Ldx? && (address - st.r[i.rb]) % 0x1_0000 == st.r[i.ra] ==> Word(st.r[i.ra] as int + st.r[i.rb]) == address
  {
  }

  lemma WordBytes(v: u16)
    ensures v == v % 0x100 + 0x100 * (v / 0x100)
  {
  }

  lemma StoreStep(p: Profile, st: State, rd: u3, ra: u3, disp: int, address: u16)
    requires Runs(p, st, St(rd, ra, disp)) && (address - disp) % 0x1_0000 == st.r[ra]
    ensures Step(p, st).Some? && StoresBytes(st, Step(p, st).value, address - address % 2, address - address % 2 + 1, st.r[rd])
  {
    hide Decode, Step;
    Ran(p, st, St(rd, ra, disp));
    LoadAddress(st, St(rd, ra, disp), address);
  }

  lemma ByteStoreStep(p: Profile, st: State, rd: u3, ra: u3)
    requires Runs(p, st, Stb(rd, ra))
    ensures Step(p, st).Some? && StoresBytes(st, Step(p, st).value, st.r[ra], st.r[ra], st.r[rd])
  {
    hide Decode, Step, StoreByte, StoresBytes;
    Ran(p, st, Stb(rd, ra));
    LaneStored(st, st.r[ra], st.r[rd]);
  }

  lemma LaneStored(st: State, address: u16, value: u16)
    requires st.Valid()
    ensures StoresBytes(st, StoreByte(st.(insns := st.insns + 1).(pc := Next(st.pc)), address, value % 0x100), address, address, value)
  {
    hide ByteIn;
    var st' := StoreByte(st.(insns := st.insns + 1).(pc := Next(st.pc)), address, value % 0x100);
    forall a: u16 ensures ByteIn(st'.mem, a) == if a == address then value % 0x100 else ByteIn(st.mem, a) {
      LaneByte(st.mem, address, value % 0x100, a);
    }
  }

  lemma LaneByte(mem: seq<u16>, address: u16, b: u8, a: u16)
    requires |mem| == 0x8000
    ensures var was := mem[address / 2];
            var v: u16 := if address % 2 == 1 then b * 0x100 + was % 0x100 else was / 0x100 * 0x100 + b;
            ByteIn(mem[address / 2 := v], a) == if a == address then b else ByteIn(mem, a)
  {
    if a / 2 == address / 2 {
      assert a == address || (a % 2 != address % 2);
    }
  }

  /** The high byte repeats the top bit of the low byte. */
  predicate ExtendsSign(b: u8, v: u16) {
    v % 0x100 == b && v / 0x100 == if v / 0x80 % 2 == 1 then 0xFF else 0
  }

  /** LDB extends with zeros and LDBS with the sign. */
  lemma ByteLoadStep(p: Profile, st: State, rd: u3, ra: u3)
    ensures Runs(p, st, Ldb(rd, ra)) ==>
              Step(p, st).Some? && OnlyRegister(st, Step(p, st).value, rd) && Step(p, st).value.r[rd] == ByteIn(st.mem, st.r[ra])
    ensures Runs(p, st, Ldbs(rd, ra)) ==>
              && Step(p, st).Some? && OnlyRegister(st, Step(p, st).value, rd)
              && ExtendsSign(ByteIn(st.mem, st.r[ra]), Step(p, st).value.r[rd])
  {
    hide Decode, Step;
    if Runs(p, st, Ldb(rd, ra)) { Ran(p, st, Ldb(rd, ra)); }
    if Runs(p, st, Ldbs(rd, ra)) { Ran(p, st, Ldbs(rd, ra)); }
  }

  /** LD after ST at the same address gives back what was stored, as long as memory is kept. */
  lemma LoadAfterStore(p: Profile, st: State, st2: State, rd: u3, ra: u3, disp: int, i: Insn, rd2: u3, address: u16)
    requires Runs(p, st, St(rd, ra, disp)) && (address - disp) % 0x1_0000 == st.r[ra] && address / 2 != 0x7FFD
    requires Runs(p, st2, i) && Step(p, st).Some? && st2.mem == Step(p, st).value.mem
    requires (i.Ld? && i.rd == rd2 && (address - i.disp) % 0x1_0000 == st2.r[i.ra])
          || (i.Ldx? && i.rd == rd2 && (address - st2.r[i.rb]) % 0x1_0000 == st2.r[i.ra])
    ensures Step(p, st2).Some? && Step(p, st2).value.r[rd2] == st.r[rd]
  {
    hide Decode, Step, Runs, ByteIn;
    StoreStep(p, st, rd, ra, disp, address);
    LoadStep(p, st2, i, rd2, address);
    WordBytes(st.r[rd]);
  }

  /** LDB after STB gives back the byte stored, and the byte at every other address is as before. */
  lemma ByteAfterByteStore(p: Profile, st: State, st2: State, rd: u3, ra: u3, rd2: u3, ra2: u3)
    requires Runs(p, st, Stb(rd, ra)) && Runs(p, st2, Ldb(rd2, ra2)) && Step(p, st).Some? && st2.mem == Step(p, st).value.mem
    ensures Step(p, st2).Some?
    ensures Step(p, st2).value.r[rd2] == if st2.r[ra2] == st.r[ra] then st.r[rd] % 0x100 else ByteIn(st.mem, st2.r[ra2])
  {
    hide Decode, Step, ByteIn;
    ByteStoreStep(p, st, rd, ra);
    ByteLoadStep(p, st2, rd2, ra2);
  }

  /** Only an undefined word, or a division whose quotient does not fit, stops the machine. */
  lemma StepFails(p: Profile, st: State)
    requires st.Valid()
    ensures Step(p, st).None? <==>
              && !(p.sysTier && st.ie && st.irqLine)
              && var i := Decode(p, st.mem[st.pc], st.mem[(st.pc + 1) % 0x8000]);
                 i.None? || (i.value.Divu? && st.r[i.value.rd] >= st.r[i.value.rb])
  {
    hide Decode;
  }
}
