/** What operand expressions are worth, what lies in the image, and what a machine that has loaded the
image does at each instruction of the source. */
module ImageLaws {
  import opened Bits
  import opened Isa
  import opened Assembler
  import opened AsWritten
  import opened IsaLaws
  import opened Layout
  import Sim

  // ----- expressions -----

  /** Numbers and labels stand for themselves; sums, differences and negatives undo one another. */
  lemma ExpressionSums(x: Expr, y: Expr, labels: map<string, int>)
    requires Eval(x, labels).Ok? && Eval(y, labels).Ok?
    ensures forall n: int :: Eval(Num(n), labels) == Ok(n)
    ensures forall name :: Eval(Symbol(name), labels) == if name in labels then Ok(labels[name]) else Error
    ensures var sum := Eval(Binary(PLUS, x, y), labels); sum.Ok? && sum.value - Eval(y, labels).value == Eval(x, labels).value
    ensures var minus := Eval(Binary(MINUS, x, y), labels); minus.Ok? && minus.value + Eval(y, labels).value == Eval(x, labels).value
    ensures var neg := Eval(Neg(x), labels); neg.Ok? && neg.value + Eval(x, labels).value == 0
  {
    hide IntAnd, Pow2;
  }

  /** A left shift doubles once for each place, a right shift undoes it and rounds down; a negative count is an error. */
  lemma ExpressionShifts(x: Expr, y: Expr, labels: map<string, int>)
    requires Eval(x, labels).Ok? && Eval(y, labels).Ok?
    ensures var v, n, left, right := Eval(x, labels).value, Eval(y, labels).value, Eval(Binary(SHIFTLEFT, x, y), labels), Eval(Binary(SHIFTRIGHT, x, y), labels);
            && (left.Ok? <==> n >= 0) && (right.Ok? <==> n >= 0)
            && (n == 0 ==> left.value == v && right.value == v)
            && (n > 0 ==> var once := Eval(Binary(SHIFTLEFT, x, Num(n - 1)), labels); once.Ok? && left.value == 2 * once.value)
            && (n > 0 ==> var once := Eval(Binary(SHIFTRIGHT, x, Num(n - 1)), labels); once.Ok? && 2 * right.value <= once.value <= 2 * right.value + 1)
            && (n >= 0 ==> Eval(Binary(SHIFTRIGHT, Binary(SHIFTLEFT, x, y), y), labels) == Ok(v))
  {
    hide *;
    var v, n := Eval(x, labels).value, Eval(y, labels).value;
    EvalCombines(x, y, labels);
    EvalCombines(Binary(SHIFTLEFT, x, y), y, labels);
    CombinedShifts(v, n);
    if n > 0 {
      NumIs(n - 1, labels);
      EvalCombines(x, Num(n - 1), labels);
    }
  }

  lemma NumIs(n: int, labels: map<string, int>)
    ensures Eval(Num(n), labels) == Ok(n)
  {
  }

  lemma EvalCombines(x: Expr, y: Expr, labels: map<string, int>)
    ensures Eval(x, labels).Ok? && Eval(y, labels).Ok? ==>
              && Eval(Binary(SHIFTLEFT, x, y), labels) == Combine(SHIFTLEFT, Eval(x, labels).value, Eval(y, labels).value)
              && Eval(Binary(SHIFTRIGHT, x, y), labels) == Combine(SHIFTRIGHT, Eval(x, labels).value, Eval(y, labels).value)
  {
    hide Combine;
  }

  lemma CombinedShifts(v: int, n: int)
    ensures (Combine(SHIFTLEFT, v, n).Ok? <==> n >= 0) && (Combine(SHIFTRIGHT, v, n).Ok? <==> n >= 0)
    ensures n == 0 ==> Combine(SHIFTLEFT, v, n) == Ok(v) && Combine(SHIFTRIGHT, v, n) == Ok(v)
    ensures n > 0 ==> var once := Combine(SHIFTLEFT, v, n - 1); once.Ok? && Combine(SHIFTLEFT, v, n) == Ok(2 * once.value)
    ensures n > 0 ==> var once, more := Combine(SHIFTRIGHT, v, n - 1), Combine(SHIFTRIGHT, v, n);
                      once.Ok? && more.Ok? && 2 * more.value <= once.value <= 2 * more.value + 1
    ensures n >= 0 ==> Combine(SHIFTRIGHT, Combine(SHIFTLEFT, v, n).value, n) == Ok(v)
  {
    hide *;
    ShiftMeaning(v, n);
    ShiftMeaning(v, n - 1);
    if n >= 0 {
      ShiftMeaning(v * Pow2(n), n);
      ShiftedBack(v, Pow2(n));
    }
    if n == 0 { PlaceZero(v); }
    if n > 0 { OnePlace(v, n - 1); }
  }

  lemma ShiftMeaning(v: int, n: int)
    ensures Combine(SHIFTLEFT, v, n) == if n >= 0 then Ok(v * Pow2(n)) else Error
    ensures Combine(SHIFTRIGHT, v, n) == if n >= 0 then Ok(v / Pow2(n)) else Error
  {
    hide Pow2;
  }

  lemma PlaceZero(v: int)
    ensures v * Pow2(0) == v && v / Pow2(0) == v
  {
    assert Pow2(0) == 1;
  }

  lemma OnePlace(v: int, n: nat)
    ensures v * Pow2(n + 1) == 2 * (v * Pow2(n)) && 2 * (v / Pow2(n + 1)) <= v / Pow2(n) <= 2 * (v / Pow2(n + 1)) + 1
  {
    hide Pow2;
    var h := Pow2(n);
    Pow2Step(n);
    DoubleProduct(h, v);
    Sim.QuotientHalves(v, h);
  }

  lemma ShiftedBack(v: int, d: int)
    requires d > 0
    ensures v * d / d == v
  {
    DivModUnique(v * d, d, v, 0);
  }

  /** The or of two integers of any sign, bit by bit. */
  lemma ExpressionOr(a: int, b: int)
    ensures Combine(BITOR, a, b).Ok? && Combine(BITOR, a / 2, b / 2).Ok? && Combine(BITAND, a, b) == Ok(IntAnd(a, b))
    ensures var r := Combine(BITOR, a, b).value;
            r % 2 == (if a % 2 == 1 || b % 2 == 1 then 1 else 0) && r / 2 == Combine(BITOR, a / 2, b / 2).value
    ensures Combine(BITOR, 0, b) == Ok(b) && Combine(BITOR, -1, b) == Ok(-1)
  {
    hide IntAnd;
    Complement(a);
    Complement(b);
    IntAndBits(-a - 1, -b - 1);
    Complement(IntAnd(-a - 1, -b - 1));
    OrGround(b);
  }

  lemma OrGround(b: int)
    ensures IntAnd(-1, -b - 1) == -b - 1 && IntAnd(0, -b - 1) == 0
  {
    hide Bits.And, Bits.Or;
    var m := if b >= 0 then b else -b - 1;
    AndZero(m);
    OrZero(m);
  }

  // ----- data -----

  /** The byte of the image at an address. */
  ghost predicate ByteAt(image: seq<u8>, address: nat, b: int) {
    address < |image| && (image[address] - b) % 0x100 == 0
  }

  /** Byte k of a .byte item is its k-th value modulo 2^8, a .word has the low byte of its value first, text is
  its characters with a NUL after .asciz, and .space and .align leave zeros. */
  ghost predicate DataAt(image: seq<u8>, at: nat, item: Item, labels: map<string, int>, k: nat) {
    match item.source
    case Bytes(values) => k < |values| ==> Eval(values[k], labels).Ok? && ByteAt(image, at + k, Eval(values[k], labels).value)
    case Halfwords(values) =>
      k < |values| ==> && Eval(values[k], labels).Ok? && ByteAt(image, at + 2 * k, Eval(values[k], labels).value)
                       && ByteAt(image, at + 2 * k + 1, Eval(values[k], labels).value / 0x100)
    case Ascii(text, zero) => (k < |text| ==> text[k] < 0x100 && ByteAt(image, at + k, text[k])) && (zero ==> ByteAt(image, at + |text|, 0))
    case Space(_) => k < item.size ==> ByteAt(image, at + k, 0)
    case Align(_) => k < item.size ==> ByteAt(image, at + k, 0)
    case _ => true
  }

  lemma DataInImage(image: seq<u8>, items: seq<Item>, j: nat, labels: map<string, int>, bases: seq<nat>, iflush: bool, k: nat)
    requires |bases| == 5 && j < |items| && Layout.Holds(image, items, j, labels, bases, iflush)
    ensures DataAt(image, Address(items[j], bases), items[j], labels, k)
  {
    hide *;
    HeldBytes(image, items, j, labels, bases, iflush);
    var item, at := items[j], Address(items[j], bases);
    if item.source.Bytes? {
      BytesAt(image, at, item, labels, bases, iflush, k);
    } else if item.source.Halfwords? {
      HalfwordsAt(image, at, item, labels, bases, iflush, k);
    } else {
      PlainAt(image, at, item, labels, bases, iflush, k);
    }
  }

  ghost predicate Carries(image: seq<u8>, at: nat, data: Result<seq<u8>>) {
    data.Ok? && forall i: nat :: i < |data.value| ==> at + i < |image| && image[at + i] == data.value[i]
  }

  lemma HeldBytes(image: seq<u8>, items: seq<Item>, j: nat, labels: map<string, int>, bases: seq<nat>, iflush: bool)
    requires |bases| == 5 && j < |items| && Layout.Holds(image, items, j, labels, bases, iflush)
    ensures Carries(image, Address(items[j], bases), EmitItem(items[j], labels, bases, iflush))
  {
    hide EmitItem;
    var data, at := EmitItem(items[j], labels, bases, iflush).value, Address(items[j], bases);
    forall i: nat | i < |data| ensures at + i < |image| && image[at + i] == data[i] {
      assert image[at..at + |data|][i] == data[i];
    }
  }

  lemma BytesAt(image: seq<u8>, at: nat, item: Item, labels: map<string, int>, bases: seq<nat>, iflush: bool, k: nat)
    requires |bases| == 5 && Carries(image, at, EmitItem(item, labels, bases, iflush)) && item.source.Bytes?
    ensures DataAt(image, at, item, labels, k)
  {
    hide Eval, EvalAll;
    var values := item.source.values;
    if k < |values| {
      EvalEach(values, labels, k);
      RemainderOf(Eval(values[k], labels).value);
      assert EmitItem(item, labels, bases, iflush).value[k] == Eval(values[k], labels).value % 0x100;
    }
  }

  lemma RemainderOf(v: int)
    ensures (v % 0x100 - v) % 0x100 == 0
  {
  }

  lemma HalfwordsAt(image: seq<u8>, at: nat, item: Item, labels: map<string, int>, bases: seq<nat>, iflush: bool, k: nat)
    requires |bases| == 5 && Carries(image, at, EmitItem(item, labels, bases, iflush)) && item.source.Halfwords?
    ensures DataAt(image, at, item, labels, k)
  {
    hide Eval, EvalAll, EncodeWords, Word;
    var values := item.source.values;
    if k < |values| { HalfwordAt(values, labels, k); }
  }

  lemma PlainAt(image: seq<u8>, at: nat, item: Item, labels: map<string, int>, bases: seq<nat>, iflush: bool, k: nat)
    requires |bases| == 5 && Carries(image, at, EmitItem(item, labels, bases, iflush)) && !item.source.Bytes? && !item.source.Halfwords?
    ensures DataAt(image, at, item, labels, k)
  {
    hide Eval, EncodeInsn, EncodeWords;
    var data := EmitItem(item, labels, bases, iflush).value;
    if item.source.Ascii? {
      var text := item.source.text;
      if k < |text| { assert data[k] == text[k]; }
      if item.source.zero { assert data[|text|] == 0; }
    } else if (item.source.Space? || item.source.Align?) && k < item.size {
      assert data[k] == 0;
    }
  }

  lemma {:induction false} EvalEach(values: seq<Expr>, labels: map<string, int>, k: nat)
    requires k < |values| && EvalAll(values, labels).Ok?
    ensures Eval(values[k], labels) == Ok(EvalAll(values, labels).value[k])
  {
    hide Eval;
    if k > 0 { EvalEach(values[1..], labels, k - 1); }
  }

  lemma HalfwordAt(values: seq<Expr>, labels: map<string, int>, k: nat)
    requires k < |values| && EvalAll(values, labels).Ok?
    ensures var words := seq(|values|, i requires 0 <= i < |values| => Word(EvalAll(values, labels).value[i]));
            && Eval(values[k], labels).Ok? && (EncodeWords(words)[2 * k] - Eval(values[k], labels).value) % 0x100 == 0
            && (EncodeWords(words)[2 * k + 1] - Eval(values[k], labels).value / 0x100) % 0x100 == 0
  {
    hide Eval, EvalAll, EncodeWords;
    var words: seq<u16> := seq(|values|, i requires 0 <= i < |values| => Word(EvalAll(values, labels).value[i]));
    EvalEach(values, labels, k);
    WordEncoded(words, k);
    HalfwordBytes(Eval(values[k], labels).value);
  }

  lemma {:induction false} WordEncoded(words: seq<u16>, k: nat)
    requires k < |words|
    ensures EncodeWords(words)[2 * k] == words[k] % 0x100 && EncodeWords(words)[2 * k + 1] == words[k] / 0x100
  {
    if k > 0 { WordEncoded(words[1..], k - 1); }
  }

  lemma HalfwordBytes(v: int)
    ensures (Word(v) % 0x100 - v) % 0x100 == 0 && (Word(v) / 0x100 - v / 0x100) % 0x100 == 0
  {
    var q, high, low := v / 0x1_0000, Word(v) / 0x100, Word(v) % 0x100;
    DivModBasic(v, 0x1_0000);
    DivModUnique(v, 0x100, 0x100 * q + high, low);
    DivModUnique(low - v, 0x100, -(0x100 * q + high), 0);
    DivModUnique(high - v / 0x100, 0x100, -q, 0);
  }

  /** What the first pass reserves for data and padding. */
  lemma SpaceReserved(statements: seq<Statement>, items: seq<Item>, labels: map<string, (Section, nat)>, j: nat, n: nat)
    requires Laid(statements, items, labels) && j < |items|
    ensures items[j].source.Bytes? ==> items[j].size == |items[j].source.values|
    ensures items[j].source.Space? ==> Eval(items[j].source.count, map[]) == Ok(items[j].size)
    ensures items[j].source.Align? && Eval(items[j].source.to, map[]) == Ok(Pow2(n)) ==>
              0 <= items[j].size < Pow2(n) && (items[j].offset + items[j].size) % Pow2(n) == 0
  {
    hide Eval, TilesSections, LabelPlaced, AlignEnd, Contents, Pow2;
    assert Follows(items, j, Contents(statements)[j]);
    if items[j].source.Align? { AlignsPowers(items[j].offset, n); }
  }

  /** Statements go to the section of the last section directive before them, and to .text without one. */
  lemma {:induction false} SectionOfLast(statements: seq<Statement>, k: nat)
    requires k <= |statements| && forall i :: k <= i < |statements| ==> !statements[i].InSection?
    ensures k > 0 && statements[k - 1].InSection? ==> SectionAfter(statements) == statements[k - 1].section
    ensures k == 0 ==> SectionAfter(statements) == 1
  {
    if k < |statements| {
      SectionOfLast(statements[..|statements| - 1], k);
    }
  }

  // ----- programs -----

  /** The machine has the image in memory. */
  ghost predicate Holding(st: State, image: seq<u8>) {
    st.Valid() && |image| <= 0x1_0000 && forall a: u16 :: a < |image| ==> ByteIn(st.mem, a) == image[a]
  }

  /** The machine is at an instruction of the source with operand x, in a build that has it, and no interrupt is pending. */
  ghost predicate AtItem(p: Profile, st: State, image: seq<u8>, item: Item, i: Source, x: int, labels: map<string, int>, bases: seq<nat>)
    requires |bases| == 5
  {
    && Holding(st, image) && !(p.sysTier && st.ie && st.irqLine) && Build(p) && HasInsn(p, i, x, 2 * st.pc)
    && item.source.Insn? && item.source.i == i && (TakesOperand(i) ==> Eval(item.source.operand, labels) == Ok(x))
    && Address(item, bases) == 2 * st.pc
  }

  /** The instruction as it is encoded. */
  function Final(i: Source, x: int): Source {
    if TakesOperand(i) then WithOperand(i, x) else i
  }

  ghost predicate HasInsn(p: Profile, i: Source, x: int, pc: int) {
    |Meaning(Final(i, x), pc)| > 0 && forall k: nat :: k < |Meaning(Final(i, x), pc)| ==> Enabled(p, Meaning(Final(i, x), pc)[k])
  }

  /** Every instruction of the image but LDI16 does what is written, in one step. */
  lemma RunsAsWritten(p: Profile, st: State, image: seq<u8>, items: seq<Item>, j: nat, i: Source, x: int,
    labels: map<string, int>, bases: seq<nat>, iflush: bool)
    requires |bases| == 5 && j < |items| && Layout.Holds(image, items, j, labels, bases, iflush)
    requires AtItem(p, st, image, items[j], i, x, labels, bases) && !i.LDI16?
    ensures Computes(p, i, x, st, Step(p, st)) && Transfers(p, i, x, st, Step(p, st))
  {
    hide *;
    var pc := 2 * (st.pc as int);
    WordsInMemory(p, st, image, items, j, i, x, labels, bases, iflush);
    AtItemMeans(p, st, image, items[j], i, x, labels, bases);
    IsReady(p, i, x, pc, iflush, st);
    ComputesAsWritten(p, Final(i, x), pc, iflush, st);
    TransfersAsWritten(p, Final(i, x), pc, iflush, st);
    OperandComputes(p, i, x, st, Step(p, st));
    OperandTransfers(p, i, x, st, Step(p, st));
  }

  lemma AtItemMeans(p: Profile, st: State, image: seq<u8>, item: Item, i: Source, x: int, labels: map<string, int>, bases: seq<nat>)
    requires |bases| == 5 && AtItem(p, st, image, item, i, x, labels, bases)
    ensures st.Valid() && Build(p) && HasInsn(p, i, x, 2 * st.pc)
  {
    hide Build, HasInsn, Eval;
  }

  /** LDI16 loads its operand, modulo 2^16, in two steps. */
  lemma ConstantAsWritten(p: Profile, st: State, image: seq<u8>, items: seq<Item>, j: nat, i: Source, x: int,
    labels: map<string, int>, bases: seq<nat>, iflush: bool)
    requires |bases| == 5 && j < |items| && Layout.Holds(image, items, j, labels, bases, iflush)
    requires AtItem(p, st, image, items[j], i, x, labels, bases) && i.LDI16?
    ensures Step(p, st).Some? && Step(p, Step(p, st).value).Some?
    ensures var st2 := Step(p, Step(p, st).value).value;
            && (st2.r[i.rd] - x) % 0x1_0000 == 0 && (forall k: u3 :: k != i.rd ==> st2.r[k] == st.r[k])
            && st2.(r := st.r) == st.(pc := (st.pc + 2) % 0x8000, insns := st.insns + 2)
  {
    hide EncodeInsn, Decode, Step, Build, EmitItem, Assembler.Loaded;
    WordsInMemory(p, st, image, items, j, i, x, labels, bases, iflush);
    LoadsConstant(i.rd, x, 2 * (st.pc as int), iflush, p, st);
  }

  /** The words of an item where the machine is. */
  lemma WordsInMemory(p: Profile, st: State, image: seq<u8>, items: seq<Item>, j: nat, i: Source, x: int,
    labels: map<string, int>, bases: seq<nat>, iflush: bool)
    requires |bases| == 5 && j < |items| && Layout.Holds(image, items, j, labels, bases, iflush)
    requires AtItem(p, st, image, items[j], i, x, labels, bases)
    ensures st.Valid() && EncodeInsn(Final(i, x), 2 * st.pc, iflush).Ok?
    ensures Assembler.Loaded(p, st, EncodeInsn(Final(i, x), 2 * st.pc, iflush).value)
  {
    hide EncodeInsn, EncodeWords, Eval, HasInsn, Build, WithOperand, ByteIn;
    var at: int := 2 * (st.pc as int);
    var ws := EncodeInsn(Final(i, x), at, iflush).value;
    assert EmitItem(items[j], labels, bases, iflush) == Ok(EncodeWords(ws));
    forall k: nat | k < |ws| ensures st.mem[(st.pc + k) % 0x8000] == ws[k] {
      WordEncoded(ws, k);
      var data := EncodeWords(ws);
      assert image[at..at + |data|][2 * k] == data[2 * k] && image[at..at + |data|][2 * k + 1] == data[2 * k + 1];
      WordHeld(st, image, st.pc + k, ws[k]);
    }
  }

  lemma WordHeld(st: State, image: seq<u8>, w: nat, v: u16)
    requires Holding(st, image) && 2 * w + 1 < |image| && image[2 * w] == v % 0x100 && image[2 * w + 1] == v / 0x100
    ensures w < 0x8000 && st.mem[w] == v
  {
    var even: u16, odd: u16 := 2 * w, 2 * w + 1;
    assert ByteIn(st.mem, even) == image[even] && ByteIn(st.mem, odd) == image[odd];
    assert even / 2 == w && odd / 2 == w && even % 2 == 0 && odd % 2 == 1;
  }

  lemma IsReady(p: Profile, i: Source, x: int, pc: int, iflush: bool, st: State)
    requires !i.LDI16? && st.Valid() && EncodeInsn(Final(i, x), pc, iflush).Ok? && Build(p) && HasInsn(p, i, x, pc) && pc == 2 * st.pc
    requires Assembler.Loaded(p, st, EncodeInsn(Final(i, x), pc, iflush).value)
    ensures Ready(p, Final(i, x), pc, iflush, st)
  {
    hide EncodeInsn, Build, Assembler.Loaded, Enabled;
  }

  /** The operand of the expression is the one that is used. */
  lemma OperandComputes(p: Profile, i: Source, x: int, st: State, out: Option<State>)
    requires st.Valid() && Computes(p, Final(i, x), Operand(Final(i, x)), st, out)
    ensures Computes(p, i, x, st, out)
  {
    hide Leaves, Gives, Goes, AluGives, ImmGives, ShiftGives, FunnelGives, DivuGives, MulhuGives, OnlySystem;
  }

  lemma OperandTransfers(p: Profile, i: Source, x: int, st: State, out: Option<State>)
    requires st.Valid() && Transfers(p, Final(i, x), Operand(Final(i, x)), st, out)
    ensures Transfers(p, i, x, st, out)
  {
    hide Leaves, Gives, Goes, LoadsWord, StoresBytes, ExtendsSign, Calls, Moved, ByteIn;
  }

  /** A negative literal reaches the machine with its sign. */
  lemma NegativeInImage(p: Profile, image: seq<u8>, items: seq<Item>, j: nat, rd: u3, ignored: int, n: int,
    labels: map<string, int>, bases: seq<nat>, iflush: bool, next: u16)
    requires |bases| == 5 && j < |items| && Layout.Holds(image, items, j, labels, bases, iflush)
    requires items[j].source == Insn(IMM(ADDI, rd, ignored), Neg(Num(n)))
    ensures 0 <= n <= 128 || -127 <= n < 0
    ensures var at := Address(items[j], bases);
            && at + 1 < |image|
            && var i := Decode(p, image[at] + 0x100 * (image[at + 1] as int), next);
               i.Some? && i.value.Imm? && i.value.op == ADDI && i.value.rd == rd && Signed8(i.value.imm) == -n
  {
    hide EncodeWords, Decode, EncI, Signed8, EncodeInsn;
    var at := Address(items[j], bases);
    ExpressionSums(Num(n), Num(n), labels);
    assert Eval(Neg(Num(n)), labels) == Ok(-n);
    assert EmitItem(items[j], labels, bases, iflush) == Encoded(IMM(ADDI, rd, -n), at, iflush);
    AddiWord(rd, -n, at, iflush);
    var ws := EncodeInsn(IMM(ADDI, rd, -n), at, iflush).value;
    var data := EncodeWords(ws);
    assert EmitItem(items[j], labels, bases, iflush) == Ok(data);
    WordEncoded(ws, 0);
    assert image[at..at + |data|][0] == data[0] && image[at..at + |data|][1] == data[1];
    DecodeI(p, rd, 2, -n % 0x100, next);
    FieldValue(-n);
  }

  lemma AddiWord(rd: u3, x: int, pc: int, iflush: bool)
    ensures var r := EncodeInsn(IMM(ADDI, rd, x), pc, iflush); r.Ok? ==> -128 <= x <= 127 && r.value == [EncI(rd, 2, x % 0x100)]
  {
    hide EncI;
  }

  // ----- from the source to the machine -----

  lemma ProfileBuilt(sysTier: bool, full: bool, mdu: bool, nano: bool, iflush: bool)
    ensures Build(MakeProfile(sysTier, full, mdu, nano, iflush))
  {
  }

  lemma HoldsBytes(st: State, image: seq<u8>)
    requires st.Valid() && |image| <= 0x1_0000
    requires forall w :: 0 <= w < 0x8000 ==> st.mem[w] == Sim.ByteAt(image, 2 * w) + 0x100 * Sim.ByteAt(image, 2 * w + 1)
    ensures Holding(st, image)
  {
    forall a: u16 | a < |image| ensures ByteIn(st.mem, a) == image[a] {
      var w := a / 2;
      DivModUnique(st.mem[w], 0x100, Sim.ByteAt(image, 2 * w + 1), Sim.ByteAt(image, 2 * w));
    }
  }

  /** A simulator that has loaded a source: its memory holds the image, which holds every item of the source. */
  method AssembleAndLoad(statements: seq<Statement>, sysTier: bool, full: bool, mdu: bool, nano: bool, iflush: bool)
    returns (ok: bool, sim: Sim.Sim, ghost image: seq<u8>, ghost items: seq<Item>, ghost places: map<string, (Section, nat)>, ghost bases: seq<nat>)
    ensures sim.Valid() && |bases| == 5 && sim.pc == 0 && Build(sim.profile)
    ensures ok <==> Accepted(statements) && AllEmit(items, FinalLabels(places, bases), bases, iflush)
    ensures ok ==> Laid(statements, items, places) && Based(bases, items)
    ensures ok && |image| <= 0x1_0000 ==> Holding(sim.State(), image)
    ensures ok ==> forall j: nat :: j < |items| ==> Layout.Holds(image, items, j, FinalLabels(places, bases), bases, iflush)
  {
    hide *;
    var mismatch, bytes, items', labels, bases';
    ok, mismatch, bytes, items', labels, bases' := Assemble(statements, iflush);
    sim := new Sim.Sim(if ok then bytes else [], sysTier, full, mdu, nano, iflush);
    image, items, places, bases := bytes, items', labels, bases';
    ProfileBuilt(sysTier, full, mdu, nano, iflush);
    if ok && |image| <= 0x1_0000 {
      sim.Opened();
      HoldsBytes(sim.State(), image);
    }
  }
}
