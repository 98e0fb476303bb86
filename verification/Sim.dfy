/** The simulator (class Sim of tools/riscc_sim.py): its fields, and the methods that update
them, shown to do what the instruction set defines. */
module Sim {
  import opened Bits
  import opened Isa
  import Interrupts

  // ----- masks -----

  lemma Masks(v: nat)
    ensures Bits.And(v, 1) == v % 2 && Bits.And(v, 7) == v % 8 && Bits.And(v, 0x1F) == v % 32 && Bits.And(v, 0xFF) == v % 0x100
  {
    Pow2Values();
    AndMask(v, 1, 1);
    And7(v);
    AndMask(v, 0x1F, 5);
    AndFf(v);
  }

  lemma HighMask(v: u16)
    ensures Bits.And(v, 0xFF00) == v / 0x100 * 0x100
  {
    hide *;
    Pow2Values();
    AndHighMask(v, 0xFF00, 0xFF, 8);
    Bits.ShrIs(v, 8);
    AndFf(v / 0x100);
    Bits.DivModUnique(v / 0x100, 0x100, 0, v / 0x100);
  }

  /** (ir & 0xC7FF) == 0x0034 */
  lemma LongMask(ir: u16)
    ensures Bits.And(ir, 0xC7FF) == 0x0034 <==> ir / 0x4000 == 0 && ir % 0x800 == 0x34
  {
    hide Bits.And;
    Pow2Values();
    AndSplit(ir, 0x18, 0x7FF, 11);
    AndMask(ir % 0x800, 0x7FF, 11);
    AndHighMask(ir / 0x800, 0x18, 3, 3);
    AndMask(ir / 0x800 / 8, 3, 2);
  }

  /** sx8 */
  function Sx8(v: u8): (x: int)
    ensures x == Signed8(v)
  {
    SignBit8(v);
    if Bits.And(v, 0x80) != 0 then v - 256 else v
  }

  lemma SignBit8(v: u8)
    ensures Bits.And(v, 0x80) != 0 <==> v >= 0x80
  {
    Pow2Values();
    AndBit(v, 7);
  }

  /** sx16 */
  function Sx16(v: u16): (x: int)
    ensures x == Signed16(v)
  {
    AndSignBit(v);
    if Bits.And(v, 0x8000) != 0 then v - 0x1_0000 else v
  }

  /** (imm8 >> 1) | ((imm8 & 1) << 7) */
  function Unrotated(imm: u8): (v: u8)
    ensures v == imm / 2 + imm % 2 * 0x80
  {
    hide Bits.And, Bits.Or;
    Masks(imm);
    Pow2Values();
    OrDisjoint(imm % 2 * 0x80, imm / 2, 7);
    OrCommutes(imm % 2 * 0x80, imm / 2);
    Bits.Or(imm / 2, Bits.And(imm, 1) * 0x80)
  }

  lemma Funnels(shifted: u16, endpoint: u16)
    ensures Bits.Or(shifted as int * 2, endpoint / 0x8000) == shifted as int * 2 + endpoint / 0x8000
    ensures Bits.Or(shifted / 2, Bits.And(endpoint, 1) * 0x8000) == FunnelRight(shifted, endpoint)
  {
    hide Bits.And, Bits.Or;
    Masks(endpoint);
    Pow2Values();
    OrDisjoint(shifted as int * 2, endpoint / 0x8000, 1);
    OrDisjoint(endpoint % 2 * 0x8000, shifted / 2, 15);
    OrCommutes(endpoint % 2 * 0x8000, shifted / 2);
  }

  /** (old & 0xFF00) | (val & 0x00FF), and the other lane. */
  lemma Lanes(was: u16, val: u16)
    ensures Bits.Or(Bits.And(was, 0xFF00), Bits.And(val, 0x00FF)) == was / 0x100 * 0x100 + val % 0x100
    ensures Bits.Or(Bits.And(was, 0x00FF), Bits.And(val, 0xFF00)) == val / 0x100 * 0x100 + was % 0x100
  {
    hide Bits.And, Bits.Or, Pow2;
    HighMask(was);
    HighMask(val);
    AndFf(was);
    AndFf(val);
    Pow2Values();
    OrDisjoint(was / 0x100 * 0x100, val % 0x100, 8);
    OrDisjoint(val / 0x100 * 0x100, was % 0x100, 8);
    OrCommutes(val / 0x100 * 0x100, was % 0x100);
  }

  // ----- shifting one place at a time -----

  lemma {:induction false} ShiftStart(op: ShiftOp, v: u16)
    ensures op != SLLI ==> ShiftResult(op, v, 0) == v
  {
  }

  /** v = (v >> 1) | fill */
  lemma ShiftOnce(op: ShiftOp, v: u16, n: nat, w: u16)
    requires op != SLLI && w == ShiftResult(op, v, n)
    ensures var fill := if op == SRAI && Bits.And(w, 0x8000) != 0 then 0x8000 else 0;
            Bits.Or(w / 2, fill) == ShiftResult(op, v, n + 1)
  {
    hide Pow2, Bits.And, Bits.Or, ShiftResult;
    Filled(w);
    if op == SRAI {
      ArithmeticStep(v, n, w);
    } else {
      LogicalStep(v, n, w);
    }
  }

  lemma Filled(w: u16)
    ensures Bits.And(w, 0x8000) != 0 <==> w >= 0x8000
    ensures Bits.Or(w / 2, 0) == w / 2 && Bits.Or(w / 2, 0x8000) == w / 2 + 0x8000
  {
    hide Bits.And, Bits.Or;
    AndSignBit(w);
    OrZero(w / 2);
    Pow2Values();
    OrDisjoint(0x8000, w / 2, 15);
    OrCommutes(0x8000, w / 2);
  }

  lemma LogicalStep(v: u16, n: nat, w: u16)
    requires w == ShiftResult(SRLI, v, n)
    ensures ShiftResult(SRLI, v, n + 1) == w / 2
  {
    hide *;
    Quotients(SRLI, v, n);
    Quotients(SRLI, v, n + 1);
    Pow2Step(n);
    QuotientHalves(v, Pow2(n));
    InRange(v / Pow2(n));
    InRange(v / Pow2(n + 1));
  }

  lemma ArithmeticStep(v: u16, n: nat, w: u16)
    requires w == ShiftResult(SRAI, v, n)
    ensures ShiftResult(SRAI, v, n + 1) == if w >= 0x8000 then w / 2 + 0x8000 else w / 2
  {
    hide *;
    SignedRange(v);
    Quotients(SRAI, v, n);
    Quotients(SRAI, v, n + 1);
    Pow2Step(n);
    QuotientHalves(Signed16(v), Pow2(n));
    InRange(Signed16(v) / Pow2(n));
    InRange(Signed16(v) / Pow2(n + 1));
  }

  lemma SignedRange(v: u16)
    ensures -0x8000 <= Signed16(v) < 0x8000
  {
  }

  lemma InRange(x: int)
    ensures 0 <= x < 0x1_0000 ==> Word(x) == x
    ensures -0x8000 <= x < 0 ==> Word(x) == x + 0x1_0000
  {
  }

  lemma Quotients(op: ShiftOp, v: u16, n: nat)
    ensures op == SRLI ==> ShiftResult(op, v, n) == Word(v / Pow2(n)) && 0 <= v / Pow2(n) <= v
    ensures op == SRAI ==> ShiftResult(op, v, n) == Word(Signed16(v) / Pow2(n))
    ensures Signed16(v) >= 0 ==> 0 <= Signed16(v) / Pow2(n) <= Signed16(v)
    ensures Signed16(v) < 0 ==> Signed16(v) <= Signed16(v) / Pow2(n) < 0
  {
    hide Pow2, Word, Signed16;
    QuotientBounds(v, Pow2(n));
    QuotientBounds(Signed16(v), Pow2(n));
  }

  /** Dividing by d and then by 2, rounding down, for either sign. */
  lemma QuotientHalves(x: int, d: nat)
    requires d > 0
    ensures x / (2 * d) == x / d / 2
  {
    DivModBasic(x, d);
    var q, r := x / d, x % d;
    var m, low := q / 2, q % 2;
    Distribute(d, m, low);
    DivModUnique(x, 2 * d, m, d * low + r);
  }

  lemma Distribute(d: int, m: int, low: int)
    ensures d * (2 * m + low) == 2 * d * m + d * low
  {
  }

  lemma QuotientBounds(x: int, d: int)
    requires d > 0
    ensures x >= 0 ==> 0 <= x / d <= x
    ensures x < 0 ==> x <= x / d < 0
  {
    DivModBasic(x, d);
    var q := x / d;
    if q >= 0 {
      GrowsBy(d, q);
    } else {
      NegativeProduct(d, q);
      if q < x < 0 { ProductBelow(d, q, x); }
    }
    QuotientSign(x, d, q, x % d, d * q);
  }

  lemma QuotientSign(x: int, d: int, q: int, r: int, product: int)
    requires 0 <= r < d && x == product + r
    requires (q >= 0 ==> product >= q) && (q < 0 ==> product <= -d) && (q < x < 0 ==> product <= x - d)
    ensures x >= 0 ==> 0 <= q <= x
    ensures x < 0 ==> x <= q < 0
  {
  }

  lemma GrowsBy(d: int, q: int)
    requires d > 0 && q >= 0
    ensures d * q >= q
  {
  }

  lemma NegativeProduct(d: int, q: int)
    requires d > 0 && q < 0
    ensures d * q <= -d && d * q <= q
  {
    MulAtLeast(d, -q);
    GrowsBy(d, -q);
    assert d * (-q) == -(d * q);
  }

  lemma ProductBelow(d: int, q: int, x: int)
    requires d > 0 && q < x < 0
    ensures d * q <= x - d
  {
    MulAtLeast(d, x - q);
    NegativeProduct(d, x);
    assert d * (x - q) == d * x - d * q;
  }

  // ----- the simulator -----

  class Sim {
    const profile: Profile
    var r: seq<u16>
    var s: seq<u16>
    var pc: u15
    var ie: bool
    var irqLine: bool
    var mem: seq<u16>
    var done: bool
    var halted: bool
    var insns: nat
    var irqTaken: nat

    function State(): State
      reads this
    {
      Isa.State.State(r, s, pc, ie, irqLine, mem, done, halted, insns, irqTaken)
    }

    predicate Valid()
      reads this
    {
      State().Valid()
    }

    /** The image is a little-endian sequence of bytes; what it does not fill is zero. */
    constructor (image: seq<u8>, sysTier: bool, full: bool, mdu: bool, nano: bool, iflush: bool)
      ensures Valid() && profile == MakeProfile(sysTier, full, mdu, nano, iflush)
      ensures profile.nano == nano && (nano ==> profile == Profile(true, false, true, false, false, false, false))
      ensures !nano ==> profile.sysTier == profile.longJall == sysTier && profile.shifts == profile.full == full
                        && (profile.mdu <==> mdu && full) && (profile.iflush <==> iflush && sysTier)
      ensures r == s == [0, 0, 0, 0, 0, 0, 0, 0] && pc == 0 && !ie && !irqLine && !done && !halted && insns == irqTaken == 0
      ensures forall w :: 0 <= w < 0x8000 ==> mem[w] == ByteAt(image, 2 * w) + 0x100 * ByteAt(image, 2 * w + 1)
    {
      profile := MakeProfile(sysTier, full, mdu, nano, iflush);
      r, s := [0, 0, 0, 0, 0, 0, 0, 0], [0, 0, 0, 0, 0, 0, 0, 0];
      pc, ie, irqLine, done, halted, insns, irqTaken := 0, false, false, false, false, 0, 0;
      var words: seq<u16> := seq(0x8000, w => 0);
      var i := 0;
      while i < |image| && i < 0x1_0000
        invariant |words| == 0x8000 && i % 2 == 0
        invariant forall w :: 0 <= w < 0x8000 ==>
                    words[w] == if 2 * w < i then ByteAt(image, 2 * w) + 0x100 * ByteAt(image, 2 * w + 1) else 0
        decreases 0x1_0000 - i
      {
        var high: u8 := if i + 1 < |image| then image[i + 1] else 0;
        words := words[i / 2 := image[i] as int + 0x100 * high];
        i := i + 2;
      }
      mem := words;
    }

    method LoadWord(baddr: u16) returns (value: u16)
      requires Valid()
      modifies this`irqLine
      ensures value == Loaded(old(State()), baddr) && State() == AfterLoad(old(State()), baddr)
    {
      var waddr := baddr / 2;
      if waddr == TEST_IRQ {
        value := if irqLine then 1 else 0;
        irqLine := false;
      } else {
        value := mem[waddr];
      }
    }

    method StoreWord(baddr: u16, val: u16, mask: nat)
      requires Valid()
      modifies this`mem, this`irqLine, this`done
      ensures State() == Stored(old(State()), baddr, if mask % 2 == 1 then Some(val % 0x100) else None,
                                                     if mask / 2 % 2 == 1 then Some(val / 0x100) else None)
    {
      var w := baddr / 2;
      var value := MergeLow(mem[w], val, mask);
      value := MergeHigh(value, val, mask);
      mem := mem[w := value];
      if w == TEST_IRQ {
        irqLine := true;
      }
      if w == RESULT {
        done := true;
      }
    }

    method Ldb(baddr: u16, signed: bool) returns (b: u16)
      requires Valid()
      ensures var byte := LoadedByte(State(), baddr);
              b == if signed then SignExtended(byte) else byte
    {
      hide Bits.And, Bits.Or;
      var w := mem[baddr / 2];
      Masks(w);
      Masks(w / 0x100);
      Masks(baddr);
      b := if Bits.And(baddr, 1) != 0 then Bits.And(w / 0x100, 0xFF) else Bits.And(w, 0xFF);
      SignBit8(b);
      Extend(b);
      if signed && Bits.And(b, 0x80) != 0 {
        b := Bits.Or(b, 0xFF00);
      }
    }

    method Stb(baddr: u16, val: u16)
      requires Valid()
      modifies this`mem, this`irqLine, this`done
      ensures State() == StoreByte(old(State()), baddr, val % 0x100)
    {
      hide Bits.And, Bits.Or, Stored;
      Masks(baddr);
      Masks(val);
      if Bits.And(baddr, 1) != 0 {
        StoreWord(baddr, Bits.And(val, 0xFF) * 0x100, 2);
      } else {
        StoreWord(baddr, Bits.And(val, 0xFF), 1);
      }
    }

    /** opc == 2 */
    method Immediate(ddd: u3, aaa: u3, imm8: u8, next: u15) returns (ok: bool, pcNext: u15)
      requires Valid()
      modifies this`r, this`halted
      ensures Valid() && Does(profile, DecodeImm(profile, ddd, aaa, imm8), old(State()), next, ok, State().(pc := pcNext))
    {
      hide Bits.And, Bits.Or, Xor, Execute, DecodeImm;
      if aaa < 7 { ImmMeaning(profile, ddd, aaa, imm8, State(), next); }
      ok, pcNext := true, next;
      if aaa == 0 {
        r := r[ddd := imm8];
      } else if aaa == 1 {
        r := r[ddd := Word(imm8 * 0x100)];
      } else if aaa == 2 {
        r := r[ddd := Word(r[ddd] + Sx8(imm8))];
      } else if aaa == 3 {
        if profile.nano {
          return false, next;
        }
        r := r[0 := Word(r[ddd] - Sx8(imm8))];
      } else if aaa == 4 {
        r := r[ddd := AndWord(r[ddd], imm8)];
      } else if aaa == 5 {
        r := r[ddd := OrWord(r[ddd], imm8)];
      } else if aaa == 6 {
        r := r[ddd := XorWord(r[ddd], imm8)];
      } else {
        ok, pcNext := BranchGroup(ddd, imm8, next);
      }
    }

    method BranchGroup(ddd: u3, imm8: u8, next: u15) returns (ok: bool, pcNext: u15)
      requires Valid()
      modifies this`halted
      ensures Valid() && Does(profile, DecodeImm(profile, ddd, 7, imm8), old(State()), next, ok, State().(pc := pcNext))
    {
      hide Bits.And, Bits.Or;
      AndSignBit(r[0]);
      var rel := Sx8(Unrotated(imm8));
      ok, pcNext := true, next;
      if ddd < 4 {
        var negative := Bits.And(r[0], 0x8000) != 0;
        var t := [r[0] == 0, r[0] != 0, negative, !negative][ddd];
        if t {
          pcNext := (pcNext + rel) % 0x8000;
        }
      } else if ddd == 4 {
        pcNext := (pcNext + rel) % 0x8000;
        if rel == -1 {
          halted := true;
        }
      } else {
        ok := false;
      }
    }

    /** f5 < 8 */
    method Arithmetic(ddd: u3, aaa: u3, f5: nat, bbb: u3, ghost next: u15) returns (ok: bool)
      requires Valid() && f5 < 8
      modifies this`r
      ensures Valid() && Does(profile, DecodeReg(profile, ddd, aaa, f5, bbb), old(State()), next, ok, State().(pc := next))
    {
      hide Bits.And, Bits.Or, Xor, Execute, DecodeReg;
      AluMeaning(profile, ddd, aaa, f5, bbb, State(), next);
      var a: int, b: int := r[aaa], r[bbb];
      var res: u16;
      ok := true;
      if f5 == 0 {
        res := Word(a + b);
      } else if f5 == 1 {
        res := Word(a - b);
      } else if f5 == 2 {
        if profile.nano {
          res := if a < b then 1 else 0;
        } else {
          res := if Sx16(r[aaa]) < Sx16(r[bbb]) then 1 else 0;
        }
      } else if f5 == 3 {
        res := if a < b then 1 else 0;
      } else if f5 == 4 {
        res := AndWord(r[aaa], r[bbb]);
      } else if f5 == 5 {
        res := OrWord(r[aaa], r[bbb]);
      } else if f5 == 6 {
        res := XorWord(r[aaa], r[bbb]);
      } else {
        if !profile.full {
          return false;
        }
        res := Word(a * b);
      }
      r := r[ddd := res];
    }

    /** SRLI and SRAI, one place at a time. */
    method ShiftRight(ddd: u3, aaa: u3, f5: nat, bbb: u3, ghost next: u15)
      requires Valid() && (f5 == 0x0C || f5 == 0x0D)
      modifies this`r
      ensures Valid() && Does(profile, DecodeReg(profile, ddd, aaa, f5, bbb), old(State()), next, true, State().(pc := next))
    {
      hide Bits.And, Bits.Or, Pow2, ShiftResult;
      var n := if profile.nano then 1 else if profile.shifts then bbb + 1 else 1;
      var v := r[aaa];
      ghost var op := if f5 == 0x0D then SRAI else SRLI;
      ShiftStart(op, v);
      for i := 0 to n
        invariant State() == old(State()) && v == ShiftResult(op, old(r[aaa]), i)
      {
        ShiftOnce(op, old(r[aaa]), i, v);
        var fill := if f5 == 0x0D && Bits.And(v, 0x8000) != 0 then 0x8000 else 0;
        v := Bits.Or(v / 2, fill);
      }
      r := r[ddd := v];
    }

    /** DIVU and MULHU */
    method Paired(ddd: u3, aaa: u3, f5: nat, bbb: u3, ghost next: u15) returns (ok: bool)
      requires Valid() && (f5 == 0x10 || f5 == 0x14)
      modifies this`r
      ensures Valid() && Does(profile, DecodeReg(profile, ddd, aaa, f5, bbb), old(State()), next, ok, State().(pc := next))
    {
      ok := true;
      if !profile.mdu {
        return false;
      }
      if f5 == 0x14 {
        if ddd == aaa {
          return false;
        }
        var product := Product(r[aaa], r[bbb]);
        r := r[ddd := Word(product)];
        r := r[aaa := Word(product / 0x1_0000)];
      } else {
        if |{ddd, aaa, bbb}| != 3 {
          Distinct(ddd, aaa, bbb);
          return false;
        }
        Distinct(ddd, aaa, bbb);
        var remainder, quotient, divisor := r[ddd], r[aaa], r[bbb];
        if divisor == 0 || remainder >= divisor {
          return false;
        }
        DivuRange(remainder, quotient, divisor);
        var dividend := Dividend(remainder, quotient);
        r := r[aaa := dividend / divisor];
        r := r[ddd := dividend % divisor];
      }
    }

    method Funnel(ddd: u3, aaa: u3, bbb: u3, ghost next: u15) returns (ok: bool)
      requires Valid()
      modifies this`r
      ensures Valid() && Does(profile, DecodeReg(profile, ddd, aaa, 0x11, bbb), old(State()), next, ok, State().(pc := next))
    {
      hide Bits.And, Bits.Or;
      if bbb > 1 || profile.nano {
        return false;
      }
      var shifted: int, endpoint: int := r[ddd], r[aaa];
      Funnels(r[ddd], r[aaa]);
      if bbb == 0 {
        r := r[ddd := Word(Bits.Or(shifted * 2, endpoint / 0x8000))];
      } else {
        r := r[ddd := Bits.Or(shifted / 2, Bits.And(endpoint, 1) * 0x8000)];
      }
      ok := true;
    }

    /** LDX, LDB, LDBS and STB */
    method Indexed(ddd: u3, aaa: u3, f5: nat, bbb: u3, ghost next: u15) returns (ok: bool)
      requires Valid() && (f5 == 0x08 || f5 == 0x0A || f5 == 0x0B || f5 == 0x0E)
      modifies this`r, this`irqLine, this`mem, this`done
      ensures Valid() && Does(profile, DecodeReg(profile, ddd, aaa, f5, bbb), old(State()), next, ok, State().(pc := next))
    {
      hide Loaded, AfterLoad, LoadedByte, Stored, SignExtended;
      if f5 == 0x08 {
        PcIndependent(State(), next, Word(r[aaa] as int + r[bbb]), None, None);
        var value := LoadWord(Word(r[aaa] as int + r[bbb]));
        r := r[ddd := value];
        return true;
      }
      if bbb != 0 {
        return false;
      }
      if f5 == 0x0B {
        PcIndependent(State(), next, r[aaa], Some(r[ddd] % 0x100), None);
        PcIndependent(State(), next, r[aaa], None, Some(r[ddd] % 0x100));
        Stb(r[aaa], r[ddd]);
      } else {
        var b := Ldb(r[aaa], f5 == 0x0E);
        r := r[ddd := b];
      }
      ok := true;
    }

    /** Everything else with f5 < 0x1F. */
    method Register(ddd: u3, aaa: u3, f5: nat, bbb: u3, ghost next: u15) returns (ok: bool)
      requires Valid() && f5 < 0x1F
      modifies this`r, this`irqLine, this`mem, this`done
      ensures Valid() && Does(profile, DecodeReg(profile, ddd, aaa, f5, bbb), old(State()), next, ok, State().(pc := next))
    {
      hide Loaded, AfterLoad, LoadedByte, DecodeAlu, StoreWhole, Divide, Multiply, CallRegister, CallLong, AluResult, ImmResult, Holds, FunnelLeft, FunnelRight, Stored;
      ok := true;
      if f5 < 0x08 {
        ok := Arithmetic(ddd, aaa, f5, bbb, next);
      } else if f5 == 0x08 || f5 == 0x0A || f5 == 0x0B || f5 == 0x0E {
        ok := Indexed(ddd, aaa, f5, bbb, next);
      } else if f5 == 0x0C || f5 == 0x0D {
        ShiftRight(ddd, aaa, f5, bbb, next);
      } else if f5 == 0x0F {
        if profile.nano || !profile.shifts {
          return false;
        }
        var v: int := r[aaa];
        r := r[ddd := Word(v * Pow2(bbb + 1))];
      } else if f5 == 0x10 || f5 == 0x14 {
        ok := Paired(ddd, aaa, f5, bbb, next);
      } else if f5 == 0x11 {
        ok := Funnel(ddd, aaa, bbb, next);
      } else {
        ok := false;
      }
    }

    /** f5 == 0x1F */
    method System(ddd: u3, aaa: u3, bbb: u3, next: u15) returns (ok: bool, pcNext: u15)
      requires Valid()
      modifies this`r, this`s, this`ie
      ensures Valid() && Does(profile, DecodeSystem(profile, ddd, aaa, bbb), old(State()), next, ok, State().(pc := pcNext))
    {
      hide LoadInto, StoreWhole, StoreByte, Divide, Multiply, CallLong, AluResult, ImmResult, ShiftResult, Holds, SignExtended, FunnelLeft, FunnelRight, Stored;
      ok, pcNext := true, next;
      if profile.nano {
        if bbb != 1 {
          return false, next;
        }
        var target := r[aaa] / 2;
        if ddd != 0 {
          r := r[ddd := next * 2];
        }
        pcNext := target;
        return;
      }
      if bbb == 0 {
        ok, pcNext := Control(ddd, aaa, next);
      } else if bbb == 1 {
        var target := r[aaa] / 2;
        if ddd != 0 {
          s := s[ddd := next * 2];
        }
        pcNext := target;
      } else if bbb == 2 {
        r := r[ddd := s[aaa]];
      } else if bbb == 3 {
        s := s[ddd := r[aaa]];
      } else {
        ok := false;
      }
    }

    /** bbb == 0: returns, IFLUSH, CLI and STI */
    method Control(ddd: u3, aaa: u3, next: u15) returns (ok: bool, pcNext: u15)
      requires Valid() && !profile.nano
      modifies this`ie
      ensures Valid() && Does(profile, DecodeSystem(profile, ddd, aaa, 0), old(State()), next, ok, State().(pc := pcNext))
    {
      hide Write, LoadInto, StoreWhole, StoreByte, Divide, Multiply, CallRegister, CallLong, AluResult, ImmResult, ShiftResult, Holds, SignExtended, FunnelLeft, FunnelRight, Stored;
      ok, pcNext := true, next;
      if ddd == 0 {
        pcNext := s[aaa] / 2;
      } else if ddd == 5 && profile.sysTier {
        ie := true;
        pcNext := s[aaa] / 2;
      } else if ddd == 3 && profile.iflush {
        ok := aaa == 0;
      } else if (ddd == 2 || ddd == 7) && profile.sysTier {
        if aaa != 0 {
          return false, next;
        }
        ie := ddd == 7;
      } else {
        ok := false;
      }
    }

    /** (ir & 0xC7FF) == 0x0034 */
    method Long(ddd: u3, next: u15) returns (ok: bool, pcNext: u15)
      requires Valid() && next == Next(pc)
      modifies this`s
      ensures Valid()
      ensures Does(profile, if profile.longJall then Some(Jall(ddd, mem[next])) else None, old(State()), next, ok, State().(pc := pcNext))
    {
      if !profile.longJall {
        return false, next;
      }
      var extension := mem[next];
      if ddd != 0 {
        s := s[ddd := (pc + 2) as int * 2 % 0x1_0000];
      }
      return true, extension / 2;
    }

    /** opc == 1 */
    method Memory(ddd: u3, aaa: u3, imm8: u8, ghost next: u15) returns (ok: bool)
      requires Valid()
      modifies this`r, this`irqLine, this`mem, this`done
      ensures Valid()
      ensures var disp := Signed8(imm8 - imm8 % 2);
              Does(profile, Some(if imm8 % 2 == 1 then St(ddd, aaa, disp) else Ld(ddd, aaa, disp)), old(State()), next, ok, State().(pc := next))
    {
      hide Loaded, AfterLoad, Bits.And, StoreByte, Divide, Multiply, CallRegister, CallLong, AluResult, ImmResult, ShiftResult, Holds, SignExtended, FunnelLeft, FunnelRight, Stored;
      AndFe(imm8);
      Masks(imm8);
      var addr := Word(r[aaa] + Sx8(Bits.And(imm8, 0xFE)));
      PcIndependent(State(), next, addr, Some(r[ddd] % 0x100), Some(r[ddd] / 0x100));
      if Bits.And(imm8, 1) != 0 {
        StoreWord(addr, r[ddd], 3);
      } else {
        var value := LoadWord(addr);
        r := r[ddd := value];
      }
      ok := true;
    }

    /** The instruction at pc, by its format. */
    method Instruction(ir: u16, next: u15) returns (ok: bool, pcNext: u15)
      requires Valid() && next == Next(pc)
      modifies this`r, this`s, this`ie, this`irqLine, this`mem, this`done, this`halted
      ensures Valid()
      ensures Does(profile, Decode(profile, ir, old(mem[next])), old(State()), next, ok, State().(pc := pcNext))
    {
      hide *;
      pcNext := next;
      var opc := ir / 0x4000;
      var ddd, aaa, f5, bbb, imm8 := Bits.And(ir / 0x800, 7), Bits.And(ir / 0x100, 7), Bits.And(ir / 8, 0x1F), Bits.And(ir, 7), Bits.And(ir, 0xFF);
      FieldsOf(ir);
      Opened();
      DecodeGroups(profile, ir, mem[next]);
      if Bits.And(ir, 0xC7FF) == 0x0034 {
        ok, pcNext := Long(ddd, pcNext);
      } else if opc == 1 {
        ok := Memory(ddd, aaa, imm8, pcNext);
      } else if opc == 2 {
        ok, pcNext := Immediate(ddd, aaa, imm8, pcNext);
      } else if f5 == 0x1F {
        ok, pcNext := System(ddd, aaa, bbb, pcNext);
      } else {
        ok := Register(ddd, aaa, f5, bbb, pcNext);
      }
    }

    /** One architectural step; false where the simulator raises Undefined. */
    method Step() returns (ok: bool)
      requires Valid()
      modifies this`r, this`s, this`pc, this`ie, this`irqLine, this`mem, this`done, this`halted, this`insns, this`irqTaken
      ensures ok ==> Valid()
      ensures Isa.Step(profile, old(State())) == if ok then Some(State()) else None
    {
      hide *;
      Opened();
      var ir := mem[pc];
      ghost var before := State();
      if profile.sysTier && ie && irqLine {
        InterruptEntry(profile, before);
        s := s[0 := ByteOf(pc)];
        ie := false;
        pc := 2;
        irqTaken := irqTaken + 1;
        Opened();
        return true;
      }
      insns := insns + 1;
      Opened();
      ghost var start, extension, next := State(), mem[Next(pc)], Next(pc);
      var pcNext: u15 := (pc + 1) % 0x8000;
      ok, pcNext := Instruction(ir, pcNext);
      Opened();
      ghost var after := State().(pc := pcNext);
      Stepped(profile, before, start, next, Decode(profile, ir, extension), ok, after);
      if ok {
        pc := pcNext;
      }
      Opened();
    }

    /** Steps until the result word is written, the program halts, or maxInsns instructions are done;
    a number that is not positive is no limit.  Without one the run must end by itself, after at most
    `bound` steps. */
    method Run(maxInsns: int, ghost bound: nat) returns (outcome: Outcome)
      requires Valid() && (maxInsns > 0 || Ends(profile, State(), maxInsns, bound))
      modifies this`r, this`s, this`pc, this`ie, this`irqLine, this`mem, this`done, this`halted, this`insns, this`irqTaken
      ensures exists n :: RunsTo(profile, old(State()), n, maxInsns, outcome, State())
    {
      hide *;
      ghost var start, n := State(), 0;
      Opened();
      NoSteps(profile, start, maxInsns);
      while (maxInsns <= 0 || insns < maxInsns) && !done && !halted
        invariant Valid() && Reached(profile, start, n, maxInsns, State()) && (maxInsns <= 0 ==> n <= bound)
        decreases if maxInsns > 0 then maxInsns - insns else bound - n, if ie then 1 else 0
      {
        ghost var before := State();
        Opened();
        NotStopped(before, maxInsns);
        NotEnded(profile, start, n, maxInsns, before, bound);
        var ok := Step();
        if !ok {
          Fails(profile, start, n, maxInsns, before, State());
          return UNDEFINED;
        }
        OneMore(profile, start, n, maxInsns, before, State());
        Opened();
        n := n + 1;
      }
      Opened();
      outcome := if done then DONE else if halted then HALT else TIMEOUT;
      Finishes(profile, start, n, maxInsns, State(), outcome);
    }

    lemma Opened()
      ensures State() == Isa.State.State(r, s, pc, ie, irqLine, mem, done, halted, insns, irqTaken)
      ensures Valid() <==> State().Valid()
      ensures Valid() <==> |r| == 8 && |s| == 8 && |mem| == 0x8000
      ensures Next(pc) == (pc + 1) % 0x8000
    {
    }
  }

  /** len({ddd, aaa, bbb}) */
  lemma Distinct(a: int, b: int, c: int)
    ensures |{a, b, c}| == 3 <==> a != b && a != c && b != c
  {
    if a != b && a != c && b != c {
      assert {a, b, c} == {a} + {b} + {c};
    } else {
      var s := if a == b then {a, c} else {a, b};
      assert {a, b, c} == s;
    }
  }

  lemma TwoBytes(high: u8, low: u8)
    ensures (high * 0x100 + low) / 0x100 == high && (high * 0x100 + low) % 0x100 == low
  {
  }

  /** if mask & 1: old = (old & 0xFF00) | (val & 0x00FF) */
  function MergeLow(was: u16, val: u16, mask: nat): (v: u16)
    ensures v / 0x100 == was / 0x100 && v % 0x100 == if mask % 2 == 1 then val % 0x100 else was % 0x100
  {
    hide *;
    MaskBits(mask);
    Lanes(was, val);
    TwoBytes(was / 0x100, val % 0x100);
    if Bits.And(mask, 1) != 0 then Bits.Or(Bits.And(was, 0xFF00), Bits.And(val, 0x00FF)) else was
  }

  /** if mask & 2: old = (old & 0x00FF) | (val & 0xFF00) */
  function MergeHigh(was: u16, val: u16, mask: nat): (v: u16)
    ensures v % 0x100 == was % 0x100 && v / 0x100 == if mask / 2 % 2 == 1 then val / 0x100 else was / 0x100
  {
    hide *;
    MaskBits(mask);
    Lanes(was, val);
    TwoBytes(val / 0x100, was % 0x100);
    if Bits.And(mask, 2) != 0 then Bits.Or(Bits.And(was, 0x00FF), Bits.And(val, 0xFF00)) else was
  }

  datatype Outcome = DONE | HALT | TIMEOUT | UNDEFINED

  predicate Stopped(st: Isa.State, max: int) {
    (max > 0 && st.insns >= max) || st.done || st.halted
  }

  /** The run fails or stops within this number of steps. */
  ghost predicate Ends(p: Profile, start: Isa.State, max: int, bound: nat) {
    start.Valid() && (Interrupts.Run(p, start, bound).Some? ==> Stopped(Interrupts.Run(p, start, bound).value, max))
  }

  lemma NotEnded(p: Profile, start: Isa.State, n: nat, max: int, st: Isa.State, bound: nat)
    requires Reached(p, start, n, max, st) && !Stopped(st, max)
    ensures Ends(p, start, max, bound) && n <= bound ==> n < bound
  {
    hide Stopped;
  }

  /** n steps lead to this state, and the run did not stop before. */
  ghost predicate Reached(p: Profile, start: Isa.State, n: nat, max: int, st: Isa.State) {
    && start.Valid() && Interrupts.Run(p, start, n) == Some(st)
    && forall k :: 0 <= k < n && Interrupts.Run(p, start, k).Some? ==> !Stopped(Interrupts.Run(p, start, k).value, max)
  }

  /** The run ends after n steps, for the reason given. */
  ghost predicate RunsTo(p: Profile, start: Isa.State, n: nat, max: int, outcome: Outcome, after: Isa.State) {
    && start.Valid()
    && if outcome == UNDEFINED then
         && Interrupts.Run(p, start, n).Some? && Interrupts.Run(p, start, n + 1).None?
         && Reached(p, start, n, max, Interrupts.Run(p, start, n).value) && !Stopped(Interrupts.Run(p, start, n).value, max)
       else
         && Reached(p, start, n, max, after) && Stopped(after, max)
         && outcome == if after.done then DONE else if after.halted then HALT else TIMEOUT
  }

  lemma NoSteps(p: Profile, start: Isa.State, max: int)
    requires start.Valid()
    ensures Reached(p, start, 0, max, start)
  {
  }

  lemma NotStopped(st: Isa.State, max: int)
    ensures Stopped(st, max) <==> (max > 0 && st.insns >= max) || st.done || st.halted
  {
  }

  lemma Fails(p: Profile, start: Isa.State, n: nat, max: int, st: Isa.State, after: Isa.State)
    requires Reached(p, start, n, max, st) && st.Valid() && !Stopped(st, max) && Isa.Step(p, st).None?
    ensures exists n :: RunsTo(p, start, n, max, UNDEFINED, after)
  {
    assert RunsTo(p, start, n, max, UNDEFINED, after);
  }

  lemma OneMore(p: Profile, start: Isa.State, n: nat, max: int, st: Isa.State, after: Isa.State)
    requires Reached(p, start, n, max, st) && st.Valid() && !Stopped(st, max) && Isa.Step(p, st) == Some(after)
    ensures Reached(p, start, n + 1, max, after)
    ensures after.insns == st.insns + 1 || (after.insns == st.insns && st.ie && !after.ie)
  {
    hide Isa.Step;
    StepCounts(p, st);
  }

  lemma Finishes(p: Profile, start: Isa.State, n: nat, max: int, st: Isa.State, outcome: Outcome)
    requires Reached(p, start, n, max, st) && Stopped(st, max)
    requires outcome == if st.done then DONE else if st.halted then HALT else TIMEOUT
    ensures exists n :: RunsTo(p, start, n, max, outcome, st)
  {
    assert RunsTo(p, start, n, max, outcome, st);
  }

  /** Every step executes an instruction or turns interrupts off. */
  lemma StepCounts(p: Profile, st: Isa.State)
    requires st.Valid() && Isa.Step(p, st).Some?
    ensures var after := Isa.Step(p, st).value;
            after.insns == st.insns + 1 || (after.insns == st.insns && st.ie && !after.ie)
  {
    hide Decode, Execute;
    if !Isa.Interrupted(p, st) {
      var i := Decode(p, st.mem[st.pc], st.mem[Next(st.pc)]);
      if i.Some? {
        ExecuteCounts(p, i.value, st.(insns := st.insns + 1), Next(st.pc));
      }
    }
  }

  lemma ExecuteCounts(p: Profile, i: Insn, st: Isa.State, next: u15)
    requires st.Valid()
    ensures Execute(p, i, st, next).Some? ==> Execute(p, i, st, next).value.insns == st.insns
  {
    hide Stored, StoreWhole, StoreByte, LoadInto, Divide, Multiply, CallRegister, CallLong, Isa.Write, WriteSystem;
    hide AluResult, ImmResult, ShiftResult, LoadedByte, SignExtended, FunnelLeft, FunnelRight, Offset, ByteOf;
  }

  /** Whether a method raised Undefined or reached the state that the instruction leads to. */
  ghost predicate Does(p: Profile, i: Option<Insn>, before: Isa.State, next: u15, ok: bool, after: Isa.State)
    requires before.Valid()
  {
    if i.None? then !ok
    else var out := Execute(p, i.value, before, next); if out.None? then !ok else ok && after == out.value
  }

  function ImmOpOf(a: u3): ImmOp
    requires a < 7
  {
    [LDI, LUI, ADDI, CMPI, ANDI, ORI, XORI][a]
  }

  lemma ImmMeaning(p: Profile, d: u3, a: u3, imm: u8, st: Isa.State, next: u15)
    requires st.Valid() && a < 7
    ensures DecodeImm(p, d, a, imm) == if a == 3 && p.nano then None else Some(Imm(ImmOpOf(a), d, imm))
    ensures Execute(p, Imm(ImmOpOf(a), d, imm), st, next)
         == Some(st.(pc := next, r := st.r[if a == 3 then 0 else d := ImmResult(ImmOpOf(a), st.r[d], imm)]))
  {
    hide ImmResult;
  }

  lemma AluMeaning(p: Profile, d: u3, a: u3, f: nat, b: u3, st: Isa.State, next: u15)
    requires st.Valid() && f < 8
    ensures DecodeReg(p, d, a, f, b) == if f == 7 && !p.full then None else Some(Alu(DecodeAlu(f), d, a, b))
    ensures Execute(p, Alu(DecodeAlu(f), d, a, b), st, next)
         == Some(st.(pc := next, r := st.r[d := AluResult(p, DecodeAlu(f), st.r[a], st.r[b])]))
  {
    hide AluResult;
  }

  lemma FieldsOf(ir: u16)
    ensures Bits.And(ir / 0x800, 7) == ir / 0x800 % 8 && Bits.And(ir / 0x100, 7) == ir / 0x100 % 8
    ensures Bits.And(ir / 8, 0x1F) == ir / 8 % 32 == ir % 0x100 / 8 && Bits.And(ir, 7) == ir % 8 == ir % 0x100 % 8
    ensures Bits.And(ir, 0xFF) == ir % 0x100
    ensures Bits.And(ir, 0xC7FF) == 0x0034 <==> ir / 0x4000 == 0 && ir % 0x800 == 0x34
  {
    hide Bits.And;
    Masks(ir);
    Masks(ir / 8);
    Masks(ir / 0x100);
    Masks(ir / 0x800);
    LongMask(ir);
    var q, r := ir / 0x100, ir % 0x100;
    var a, b := r / 8, r % 8;
    DivModUnique(ir, 8, 32 * q + a, b);
    DivModUnique(32 * q + a, 32, q, a);
  }

  /** Memory accesses do not depend on pc. */
  lemma PcIndependent(st: Isa.State, next: u15, address: u16, low: Option<u8>, high: Option<u8>)
    requires st.Valid()
    ensures var on := st.(pc := next);
            && AfterLoad(on, address) == AfterLoad(st, address).(pc := next) && Loaded(on, address) == Loaded(st, address)
            && Stored(on, address, low, high) == Stored(st, address, low, high).(pc := next)
  {
  }

  lemma DecodeGroups(p: Profile, ir: u16, extension: u16)
    ensures var opc, d, a, imm := ir / 0x4000, ir / 0x800 % 8, ir / 0x100 % 8, ir % 0x100;
            Decode(p, ir, extension) ==
              if opc == 0 && ir % 0x800 == 0x34 then (if p.longJall then Some(Jall(d, extension)) else None)
              else if opc == 1 then Some(if imm % 2 == 1 then St(d, a, Signed8(imm - imm % 2)) else Ld(d, a, Signed8(imm - imm % 2)))
              else if opc == 2 then DecodeImm(p, d, a, imm)
              else if imm / 8 == 0x1F then DecodeSystem(p, d, a, imm % 8)
              else DecodeReg(p, d, a, imm / 8, imm % 8)
  {
    hide DecodeImm, DecodeSystem, Signed8;
  }

  lemma InterruptEntry(p: Profile, st: Isa.State)
    requires st.Valid() && p.sysTier && st.ie && st.irqLine
    ensures Isa.Step(p, st) == Some(st.(s := st.s[0 := ByteOf(st.pc)], ie := false, pc := 2, irqTaken := st.irqTaken + 1))
  {
  }

  lemma Stepped(p: Profile, before: Isa.State, start: Isa.State, next: u15, i: Option<Insn>, ok: bool, after: Isa.State)
    requires before.Valid() && !(p.sysTier && before.ie && before.irqLine)
    requires start == before.(insns := before.insns + 1) && start.Valid() && next == Next(before.pc)
    requires i == Decode(p, before.mem[before.pc], before.mem[next])
    requires Does(p, i, start, next, ok, after)
    ensures Isa.Step(p, before) == (if ok then Some(after) else None) && (ok ==> after.Valid())
  {
    hide Decode, Execute;
  }

  function ByteAt(image: seq<u8>, i: nat): u8 {
    if i < |image| then image[i] else 0
  }

  lemma MaskBits(mask: nat)
    ensures Bits.And(mask, 1) == mask % 2 && (Bits.And(mask, 2) != 0 <==> mask / 2 % 2 == 1)
  {
    Masks(mask);
    Pow2Values();
    AndBit(mask, 1);
  }

  lemma Extend(b: u8)
    ensures Bits.Or(b, 0xFF00) == b + 0xFF00
  {
    Pow2Values();
    OrDisjoint(0xFF00, b, 8);
    OrCommutes(0xFF00, b);
  }
}
