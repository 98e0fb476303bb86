/** The two passes of the assembler (parse_source, layout_sections, emit_item and assemble of
tools/riscc_asm.py), on statements that are already split into mnemonics and operands. */
module Layout {
  import opened Bits
  import opened Isa
  import opened Assembler

  /** .VECTORS, .TEXT, .RODATA, .DATA, .BSS */
  type Section = s: int | 0 <= s < 5

  const TEXT: Section := 1

  datatype Operator = PLUS | MINUS | SHIFTLEFT | SHIFTRIGHT | BITOR | BITAND

  /** Operand expressions; labels stand for byte addresses. */
  datatype Expr = Num(n: int) | Symbol(name: string) | Neg(e: Expr) | Binary(op: Operator, left: Expr, right: Expr)

  /** & on integers of any sign, in unbounded two's complement. */
  function IntAnd(a: int, b: int): (r: int)
    ensures a >= 0 || b >= 0 ==> r >= 0
  {
    if a >= 0 && b >= 0 then Bits.And(a, b)
    else if a >= 0 then a - Bits.And(a, -b - 1)
    else if b >= 0 then b - Bits.And(b, -a - 1)
    else -(Bits.Or(-a - 1, -b - 1) as int) - 1
  }

  /** Bit by bit: the lowest bit is set when both are, and the other bits are the & of the halves. */
  lemma IntAndBits(a: int, b: int)
    ensures IntAnd(a, b) % 2 == (if a % 2 == 1 && b % 2 == 1 then 1 else 0) && IntAnd(a, b) / 2 == IntAnd(a / 2, b / 2)
  {
    hide Bits.And, Bits.Or;
    Complement(a);
    Complement(b);
    var bit := if a % 2 == 1 && b % 2 == 1 then 1 else 0;
    if a >= 0 && b >= 0 {
      AndStep(a, b);
    } else if a >= 0 {
      AndStep(a, -b - 1);
    } else if b >= 0 {
      AndStep(b, -a - 1);
    } else {
      OrStep(-a - 1, -b - 1);
    }
    DivModUnique(IntAnd(a, b), 2, IntAnd(a / 2, b / 2), bit);
  }

  lemma Complement(a: int)
    ensures (-a - 1) / 2 == -(a / 2) - 1 && (-a - 1) % 2 == 1 - a % 2 && (a / 2 >= 0 <==> a >= 0)
  {
    DivModUnique(-a - 1, 2, -(a / 2) - 1, 1 - a % 2);
  }

  lemma OrStep(a: nat, b: nat)
    ensures Bits.Or(a, b) == (if a % 2 == 1 || b % 2 == 1 then 1 else 0) + 2 * Bits.Or(a / 2, b / 2)
  {
    OrZero(a);
    OrZero(b);
    OrZero(a / 2);
    OrZero(b / 2);
  }

  /** The binary operators of eval_expr; a negative shift count is an error. */
  function Combine(op: Operator, x: int, y: int): Result<int> {
    match op
    case PLUS => Ok(x + y)
    case MINUS => Ok(x - y)
    case SHIFTLEFT => if y >= 0 then Ok(x * Pow2(y)) else Error
    case SHIFTRIGHT => if y >= 0 then Ok(x / Pow2(y)) else Error
    case BITOR => Ok(-IntAnd(-x - 1, -y - 1) - 1)
    case BITAND => Ok(IntAnd(x, y))
  }

  function Eval(e: Expr, labels: map<string, int>): Result<int> {
    match e
    case Num(n) => Ok(n)
    case Symbol(name) => if name in labels then Ok(labels[name]) else Error
    case Neg(x) => if Eval(x, labels).Ok? then Ok(-Eval(x, labels).value) else Error
    case Binary(op, x, y) =>
      if Eval(x, labels).Ok? && Eval(y, labels).Ok? then Combine(op, Eval(x, labels).value, Eval(y, labels).value) else Error
  }

  datatype Statement =
    | Label(name: string)
    | InSection(section: Section)
    | Bytes(values: seq<Expr>)
    | Halfwords(values: seq<Expr>)
    | Ascii(text: seq<nat>, zero: bool)
    | Space(count: Expr)
    | Align(to: Expr)
    | Insn(i: Source, operand: Expr)

  /** What a statement leaves in its section. */
  datatype Item = Item(section: Section, offset: nat, size: int, source: Statement)

  // ----- sizes -----

  predicate TakesOperand(i: Source) {
    i.JALL? || i.JMPL? || i.LDI16? || i.LD? || i.ST? || i.IMM? || i.BRANCH? || i.JMP8? || i.SHIFT?
  }

  /** The instruction with its evaluated operand in place. */
  function WithOperand(i: Source, v: int): (r: Source)
    ensures (r.LDI16? <==> i.LDI16?) && (r.JMPL? <==> i.JMPL?) && (r.JALL? <==> i.JALL?)
  {
    match i
    case JALL(sd, _) => JALL(sd, v)
    case JMPL(_) => JMPL(v)
    case LDI16(rd, _) => LDI16(rd, v)
    case LD(rd, ra, _) => LD(rd, ra, v)
    case ST(rd, ra, _) => ST(rd, ra, v)
    case IMM(op, rd, _) => IMM(op, rd, v)
    case BRANCH(cc, _) => BRANCH(cc, v)
    case JMP8(_) => JMP8(v)
    case SHIFT(op, rd, ra, _) => SHIFT(op, rd, ra, v)
    case _ => i
  }

  /** insn_size */
  function InsnSize(i: Source): nat {
    if i.LDI16? || i.JMPL? || i.JALL? then 4 else 2
  }

  /** (cur + align - 1) & -align, whatever the sign of align. */
  function AlignEnd(cur: nat, align: int): (e: nat)
    ensures align > 0 ==> cur <= e < cur + align
  {
    hide Bits.And;
    IntAnd(cur + align - 1, -align)
  }

  /** A power of two is really aligned to. */
  lemma AlignsPowers(cur: nat, k: nat)
    ensures AlignEnd(cur, Pow2(k)) % Pow2(k) == 0
  {
    hide Bits.And, Pow2;
    var a := Pow2(k);
    AndLowMask(cur + a - 1, k);
    DivModBasic(cur + a - 1, a);
    DivModUnique(AlignEnd(cur, a), a, (cur + a - 1) / a, 0);
  }

  predicate Emits(st: Statement) {
    !st.Label? && !st.InSection?
  }

  /** Sizes are known before any label is. */
  predicate SizeKnown(st: Statement) {
    match st
    case Space(count) => Eval(count, map[]).Ok? && Eval(count, map[]).value >= 0
    case Align(to) => Eval(to, map[]).Ok?
    case _ => true
  }

  /** The size of a statement's bytes at an offset of its section; a non-positive .align can
  make it negative. */
  function StatementSize(st: Statement, cur: nat): (size: int)
    requires SizeKnown(st)
    ensures cur + size >= 0
  {
    match st
    case Bytes(values) => |values|
    case Halfwords(values) => 2 * |values|
    case Ascii(text, zero) => |text| + if zero then 1 else 0
    case Space(count) => Eval(count, map[]).value
    case Align(to) => AlignEnd(cur, Eval(to, map[]).value) - cur
    case Insn(i, _) => InsnSize(i)
    case _ => 0
  }

  // ----- what a source asks for -----

  /** The section that the next statement goes to. */
  function SectionAfter(statements: seq<Statement>): Section {
    if statements == [] then TEXT
    else
      var last := statements[|statements| - 1];
      if last.InSection? then last.section else SectionAfter(statements[..|statements| - 1])
  }

  /** The statements that emit bytes, with their sections. */
  function Contents(statements: seq<Statement>): seq<(Section, Statement)> {
    if statements == [] then []
    else
      var init, last := statements[..|statements| - 1], statements[|statements| - 1];
      Contents(init) + if Emits(last) then [(SectionAfter(init), last)] else []
  }

  predicate Accepted(statements: seq<Statement>) {
    && (forall k :: 0 <= k < |statements| ==> SizeKnown(statements[k]))
    && (forall j, k :: 0 <= j < k < |statements| && statements[j].Label? && statements[k].Label? ==> statements[j].name != statements[k].name)
  }

  // ----- where things are -----

  /** Bytes that these items take in a section. */
  function SectionSize(items: seq<Item>, s: Section): int {
    if items == [] then 0
    else
      var last := items[|items| - 1];
      SectionSize(items[..|items| - 1], s) + if last.section == s then last.size else 0
  }

  /** Every item starts where the earlier items of its section end. */
  ghost predicate TilesSections(items: seq<Item>) {
    forall j :: 0 <= j < |items| ==> StartsAtEnd(items, j)
  }

  ghost predicate StartsAtEnd(items: seq<Item>, j: nat)
    requires j < |items|
  {
    items[j].offset == SectionSize(items[..j], items[j].section)
  }

  ghost predicate Follows(items: seq<Item>, j: nat, content: (Section, Statement))
    requires j < |items|
  {
    var item := items[j];
    (item.section, item.source) == content && SizeKnown(item.source) && item.size == StatementSize(item.source, item.offset)
  }

  /** A label in the source at statement k has the offset where its section then ends. */
  ghost predicate LabelPlaced(statements: seq<Statement>, k: nat, items: seq<Item>, labels: map<string, (Section, nat)>)
    requires k < |statements|
  {
    statements[k].Label? ==>
      var before := |Contents(statements[..k])|;
      var s := SectionAfter(statements[..k]);
      && statements[k].name in labels && before <= |items|
      && labels[statements[k].name].0 == s && labels[statements[k].name].1 == SectionSize(items[..before], s)
  }

  /** The first pass did what the source asks for. */
  ghost predicate Laid(statements: seq<Statement>, items: seq<Item>, labels: map<string, (Section, nat)>) {
    && |items| == |Contents(statements)|
    && (forall j :: 0 <= j < |items| ==> Follows(items, j, Contents(statements)[j]))
    && TilesSections(items)
    && (forall k :: 0 <= k < |statements| ==> LabelPlaced(statements, k, items, labels))
    && (forall n :: n in labels ==> Label(n) in statements)
  }

  lemma ItemAdded(items: seq<Item>, item: Item)
    requires TilesSections(items) && item.offset == SectionSize(items, item.section)
    ensures TilesSections(items + [item])
    ensures forall s: Section :: SectionSize(items + [item], s) == SectionSize(items, s) + if s == item.section then item.size else 0
  {
    var more := items + [item];
    assert more[..|more| - 1] == items;
    forall j | 0 <= j < |more| ensures StartsAtEnd(more, j) {
      if j < |items| {
        assert StartsAtEnd(items, j) && more[..j] == items[..j];
      } else {
        assert more[..j] == items;
      }
    }
  }

  /** One statement later, what was laid still is. */
  lemma StillLaid(statements: seq<Statement>, st: Statement, items: seq<Item>, more: seq<Item>, labels: map<string, (Section, nat)>)
    requires Laid(statements, items, labels) && items <= more
    ensures forall k :: 0 <= k < |statements| ==> LabelPlaced(statements + [st], k, more, labels)
    ensures forall j :: 0 <= j < |items| ==> Follows(more, j, Contents(statements)[j])
    ensures Contents(statements + [st]) == Contents(statements) + if Emits(st) then [(SectionAfter(statements), st)] else []
    ensures SectionAfter(statements + [st]) == if st.InSection? then st.section else SectionAfter(statements)
  {
    hide SectionSize, Contents, SectionAfter, StatementSize, SizeKnown;
    var longer := statements + [st];
    ContentsGrow(statements, st);
    forall k | 0 <= k < |statements| ensures LabelPlaced(longer, k, more, labels) {
      assert LabelPlaced(statements, k, items, labels) && longer[..k] == statements[..k];
      if statements[k].Label? {
        var before := |Contents(statements[..k])|;
        assert more[..before] == items[..before];
      }
    }
    forall j | 0 <= j < |items| ensures Follows(more, j, Contents(statements)[j]) {
      assert Follows(items, j, Contents(statements)[j]) && more[j] == items[j];
    }
  }

  lemma ContentsGrow(statements: seq<Statement>, st: Statement)
    ensures Contents(statements + [st]) == Contents(statements) + if Emits(st) then [(SectionAfter(statements), st)] else []
    ensures SectionAfter(statements + [st]) == if st.InSection? then st.section else SectionAfter(statements)
  {
    assert (statements + [st])[..|statements + [st]| - 1] == statements;
  }

  lemma LabelAdded(statements: seq<Statement>, name: string, items: seq<Item>, labels: map<string, (Section, nat)>, place: (Section, nat))
    requires Laid(statements, items, labels) && name !in labels
    requires place.0 == SectionAfter(statements) && place.1 == SectionSize(items, place.0)
    ensures Laid(statements + [Label(name)], items, labels[name := place])
    ensures SectionAfter(statements + [Label(name)]) == SectionAfter(statements)
  {
    hide SectionSize, Contents, SectionAfter, StatementSize, SizeKnown, TilesSections, Follows;
    var st := Label(name);
    var longer, all := statements + [st], labels[name := place];
    StillLaid(statements, st, items, items, labels);
    forall k | 0 <= k < |longer| ensures LabelPlaced(longer, k, items, all) {
      if k < |statements| {
        assert LabelPlaced(longer, k, items, labels);
      } else {
        assert longer[..k] == statements && items[..|items|] == items;
      }
    }
    assert longer[|statements|] == st;
    forall n | n in all ensures Label(n) in longer {
    }
  }

  lemma SectionChanged(statements: seq<Statement>, s: Section, items: seq<Item>, labels: map<string, (Section, nat)>)
    requires Laid(statements, items, labels)
    ensures Laid(statements + [InSection(s)], items, labels) && SectionAfter(statements + [InSection(s)]) == s
  {
    hide SectionSize, Contents, SectionAfter, StatementSize, SizeKnown, TilesSections, Follows;
    var st := InSection(s);
    StillLaid(statements, st, items, items, labels);
    NoLabelAdded(statements, st, items, labels);
  }

  lemma NoLabelAdded(statements: seq<Statement>, st: Statement, items: seq<Item>, labels: map<string, (Section, nat)>)
    requires !st.Label? && (forall k :: 0 <= k < |statements| ==> LabelPlaced(statements + [st], k, items, labels))
    ensures forall k :: 0 <= k < |statements + [st]| ==> LabelPlaced(statements + [st], k, items, labels)
  {
    hide SectionSize, Contents, SectionAfter;
    forall k | 0 <= k < |statements + [st]| ensures LabelPlaced(statements + [st], k, items, labels) {
      if k == |statements| { assert (statements + [st])[k] == st; }
    }
  }

  lemma Emitted(statements: seq<Statement>, st: Statement, items: seq<Item>, item: Item, labels: map<string, (Section, nat)>)
    requires Laid(statements, items, labels) && Emits(st) && SizeKnown(st)
    requires item.section == SectionAfter(statements) && item.source == st && item.offset == SectionSize(items, item.section)
    requires item.size == StatementSize(st, item.offset)
    ensures Laid(statements + [st], items + [item], labels) && SectionAfter(statements + [st]) == SectionAfter(statements)
  {
    hide SectionSize, Contents, SectionAfter, StatementSize, SizeKnown, TilesSections;
    var longer, more := statements + [st], items + [item];
    StillLaid(statements, st, items, more, labels);
    NoLabelAdded(statements, st, more, labels);
    ItemAdded(items, item);
    forall j | 0 <= j < |more| ensures Follows(more, j, Contents(longer)[j]) {
      if j < |items| { assert Follows(more, j, Contents(statements)[j]); }
    }
  }

  /** parse_source: the first pass. */
  method ParseSource(statements: seq<Statement>) returns (ok: bool, items: seq<Item>, labels: map<string, (Section, nat)>)
    ensures ok <==> Accepted(statements)
    ensures ok ==> Laid(statements, items, labels)
  {
    hide *;
    items, labels := [], map[];
    var offsets: seq<nat> := [0, 0, 0, 0, 0];
    var section: Section := TEXT;
    NothingLaid();
    for k := 0 to |statements|
      invariant |offsets| == 5 && (forall s: Section :: offsets[s] == SectionSize(items, s))
      invariant Laid(statements[..k], items, labels) && section == SectionAfter(statements[..k])
      invariant Accepted(statements[..k])
    {
      ghost var st := statements[k];
      assert statements[..k + 1] == statements[..k] + [st];
      AcceptedStep(statements, k, items, labels);
      match statements[k] {
        case Label(name) =>
          if name in labels {
            return false, items, labels;
          }
          LabelAdded(statements[..k], name, items, labels, (section, offsets[section]));
          labels := labels[name := (section, offsets[section])];
        case InSection(s) =>
          SectionChanged(statements[..k], s, items, labels);
          section := s;
        case _ =>
          if !SizeKnown(statements[k]) {
            return false, items, labels;
          }
          var size := StatementSize(statements[k], offsets[section]);
          var item := Item(section, offsets[section], size, statements[k]);
          EmitsRest(st);
          Emitted(statements[..k], st, items, item, labels);
          TilesFromLaid(statements[..k], items, labels);
          ItemAdded(items, item);
          items := items + [item];
          offsets := offsets[section := offsets[section] + size];
      }
    }
    assert statements[..|statements|] == statements;
    ok := true;
  }

  lemma NothingLaid()
    ensures Laid([], [], map[]) && SectionAfter([]) == TEXT && Accepted([])
    ensures forall s: Section :: SectionSize([], s) == 0
  {
  }

  lemma EmitsRest(st: Statement)
    ensures Emits(st) <==> !st.Label? && !st.InSection?
  {
  }

  lemma TilesFromLaid(statements: seq<Statement>, items: seq<Item>, labels: map<string, (Section, nat)>)
    requires Laid(statements, items, labels)
    ensures TilesSections(items)
  {
    hide TilesSections, LabelPlaced, Follows, Contents;
  }

  /** A prefix is accepted exactly up to its first duplicate label or unknown size. */
  lemma AcceptedStep(statements: seq<Statement>, k: nat, items: seq<Item>, labels: map<string, (Section, nat)>)
    requires k < |statements| && Accepted(statements[..k]) && Laid(statements[..k], items, labels)
    ensures SizeKnown(statements[k]) && (statements[k].Label? ==> statements[k].name !in labels) ==> Accepted(statements[..k + 1])
    ensures statements[k].Label? && statements[k].name in labels ==> !Accepted(statements)
    ensures !SizeKnown(statements[k]) ==> !Accepted(statements)
    ensures statements[k].Label? || statements[k].InSection? ==> SizeKnown(statements[k])
  {
    hide TilesSections, Follows, Contents, SectionSize, SectionAfter;
    var st, prefix := statements[k], statements[..k];
    if st.Label? {
      if st.name in labels {
        var j :| 0 <= j < k && prefix[j] == Label(st.name);
        assert statements[j].Label? && statements[j].name == statements[k].name;
      } else {
        forall j | 0 <= j < k && statements[j].Label? ensures statements[j].name != st.name {
          assert LabelPlaced(prefix, j, items, labels) && prefix[j] == statements[j];
        }
      }
    }
    if SizeKnown(st) && (st.Label? ==> st.name !in labels) {
      var longer := statements[..k + 1];
      forall i | 0 <= i < |longer| ensures SizeKnown(longer[i]) {
        if i < k { assert longer[i] == prefix[i]; }
      }
      forall i, j | 0 <= i < j < |longer| && longer[i].Label? && longer[j].Label? ensures longer[i].name != longer[j].name {
        assert longer[i] == prefix[i];
        if j < k { assert longer[j] == prefix[j]; }
      }
    }
  }

  // ----- sections -----

  /** The largest item end of a section. */
  function Extent(items: seq<Item>, s: Section): nat {
    if items == [] then 0
    else
      var last, e := items[|items| - 1], Extent(items[..|items| - 1], s);
      if last.section == s && last.offset + last.size > e then last.offset + last.size else e
  }

  lemma {:induction false} ExtentGrows(items: seq<Item>, k: nat, s: Section)
    requires k <= |items|
    ensures Extent(items[..k], s) <= Extent(items, s)
    decreases |items| - k
  {
    if k < |items| {
      assert items[..k + 1][..k] == items[..k];
      ExtentGrows(items, k + 1, s);
    } else {
      assert items[..k] == items;
    }
  }

  ghost predicate NoNegative(items: seq<Item>) {
    forall j :: 0 <= j < |items| ==> items[j].size >= 0
  }

  /** The largest end is the sum of the sizes. */
  lemma {:induction false} ExtentIsSize(items: seq<Item>, s: Section)
    requires TilesSections(items) && NoNegative(items)
    ensures SectionSize(items, s) == Extent(items, s)
  {
    if items != [] {
      var init, k := items[..|items| - 1], |items| - 1;
      forall j | 0 <= j < k ensures StartsAtEnd(init, j) {
        assert StartsAtEnd(items, j) && items[..j] == init[..j];
      }
      assert StartsAtEnd(items, k);
      ExtentIsSize(init, s);
    }
  }

  /** The size of a section is what its items add up to, at every point of the source. */
  lemma SizeWithin(items: seq<Item>, k: nat, s: Section)
    requires TilesSections(items) && k <= |items| && NoNegative(items[..k])
    ensures 0 <= SectionSize(items[..k], s) <= Extent(items, s)
  {
    hide SectionSize, Extent;
    forall j | 0 <= j < k ensures StartsAtEnd(items[..k], j) {
      assert StartsAtEnd(items, j) && items[..k][..j] == items[..j];
    }
    ExtentIsSize(items[..k], s);
    ExtentGrows(items, k, s);
  }

  /** Items of one section follow one another. */
  lemma {:induction false} SizeGrows(items: seq<Item>, j: nat, k: nat, s: Section)
    requires j <= k <= |items| && NoNegative(items)
    ensures SectionSize(items[..j], s) <= SectionSize(items[..k], s)
    decreases k
  {
    if j < k {
      assert items[..k][..k - 1] == items[..k - 1];
      SizeGrows(items, j, k - 1, s);
    }
  }

  /** Where the section before s ends. */
  ghost function EndBefore(bases: seq<nat>, items: seq<Item>, s: nat): nat
    requires s <= 5 && |bases| >= s
  {
    if s == 0 then 0 else bases[s - 1] + Extent(items, s - 1)
  }

  ghost predicate Based(bases: seq<nat>, items: seq<Item>) {
    |bases| == 5 && forall s: Section :: BaseAt(bases, items, s)
  }

  ghost predicate BaseAt(bases: seq<nat>, items: seq<Item>, s: Section)
    requires |bases| > s
  {
    bases[s] == AlignEnd(EndBefore(bases, items, s), 2)
  }

  method SectionSizes(items: seq<Item>) returns (sizes: seq<nat>)
    ensures |sizes| == 5 && forall s: Section :: sizes[s] == Extent(items, s)
  {
    sizes := [0, 0, 0, 0, 0];
    for k := 0 to |items|
      invariant |sizes| == 5 && forall s: Section :: sizes[s] == Extent(items[..k], s)
    {
      var item := items[k];
      assert items[..k + 1][..k] == items[..k];
      if item.offset + item.size > sizes[item.section] {
        sizes := sizes[item.section := item.offset + item.size];
      }
    }
    assert items[..|items|] == items;
  }

  /** layout_sections */
  method LayoutSections(items: seq<Item>) returns (bases: seq<nat>)
    ensures Based(bases, items)
  {
    hide Extent, AlignEnd;
    var sizes := SectionSizes(items);
    bases := [];
    var cursor: nat := 0;
    for s := 0 to 5
      invariant |bases| == s && cursor == EndBefore(bases, items, s)
      invariant forall t: Section :: t < s ==> BaseAt(bases, items, t)
    {
      ghost var before := bases;
      cursor := AlignEnd(cursor, 2);
      bases := bases + [cursor];
      forall t: Section | t < s ensures BaseAt(bases, items, t) {
        assert BaseAt(before, items, t);
      }
      cursor := cursor + sizes[s];
    }
  }

  lemma Evened(cursor: nat)
    ensures AlignEnd(cursor, 2) == cursor + cursor % 2
  {
    hide Bits.And;
    AlignsPowers(cursor, 1);
    assert Pow2(1) == 2;
  }

  /** Sections begin on even addresses, in order and without overlap. */
  lemma {:induction false} SectionsApart(bases: seq<nat>, items: seq<Item>, s: Section, t: Section)
    requires Based(bases, items) && s < t
    ensures bases[s] + Extent(items, s) <= bases[t] && bases[t] % 2 == 0
    decreases t
  {
    hide Extent, AlignEnd;
    assert BaseAt(bases, items, t);
    Evened(EndBefore(bases, items, t));
    if s < t - 1 { SectionsApart(bases, items, s, t - 1); }
  }

  // ----- the second pass -----

  /** encode_word, for each word. */
  function EncodeWords(ws: seq<u16>): (bytes: seq<u8>)
    ensures |bytes| == 2 * |ws|
  {
    if ws == [] then [] else [ws[0] % 0x100, ws[0] / 0x100] + EncodeWords(ws[1..])
  }

  function EvalAll(values: seq<Expr>, labels: map<string, int>): (r: Result<seq<int>>)
    ensures r.Ok? ==> |r.value| == |values|
  {
    if values == [] then Ok([])
    else if Eval(values[0], labels).Ok? && EvalAll(values[1..], labels).Ok? then
      Ok([Eval(values[0], labels).value] + EvalAll(values[1..], labels).value)
    else Error
  }

  function Encoded(i: Source, pc: nat, iflush: bool): Result<seq<u8>> {
    if EncodeInsn(i, pc, iflush).Ok? then Ok(EncodeWords(EncodeInsn(i, pc, iflush).value)) else Error
  }

  /** emit_item */
  function EmitItem(item: Item, labels: map<string, int>, bases: seq<nat>, iflush: bool): Result<seq<u8>>
    requires |bases| == 5
  {
    match item.source
    case Insn(i, operand) =>
      var pc := bases[item.section] + item.offset;
      if pc % 2 == 1 then Error
      else if !TakesOperand(i) then Encoded(i, pc, iflush)
      else if Eval(operand, labels).Ok? then Encoded(WithOperand(i, Eval(operand, labels).value), pc, iflush)
      else Error
    case Bytes(values) =>
      if EvalAll(values, labels).Ok? then Ok(seq(|values|, k requires 0 <= k < |values| => EvalAll(values, labels).value[k] % 0x100)) else Error
    case Halfwords(values) =>
      if EvalAll(values, labels).Ok? then Ok(EncodeWords(seq(|values|, k requires 0 <= k < |values| => Word(EvalAll(values, labels).value[k])))) else Error
    case Ascii(text, zero) =>
      if forall k :: 0 <= k < |text| ==> text[k] < 0x100 then
        Ok(seq(|text|, k requires 0 <= k < |text| => text[k]) + if zero then [0] else [])
      else Error
    case _ => if item.size >= 0 then Ok(seq(item.size, _ => 0)) else Error
  }

  /** The second pass emits the size that the first one reserved. */
  lemma SizesAgree(items: seq<Item>, j: nat, content: (Section, Statement), labels: map<string, int>, bases: seq<nat>, iflush: bool)
    requires j < |items| && Follows(items, j, content) && |bases| == 5
    requires EmitItem(items[j], labels, bases, iflush).Ok?
    ensures |EmitItem(items[j], labels, bases, iflush).value| == items[j].size
  {
    hide Eval, EncodeInsn, WithOperand, AlignEnd;
    var item := items[j];
    match item.source
    case Insn(i, operand) =>
      var pc := bases[item.section] + item.offset;
      var written := if TakesOperand(i) then WithOperand(i, Eval(operand, labels).value) else i;
      WordCount(written, pc, iflush);
    case _ =>
  }

  /** The bytes of the items of a section, one after the other. */
  function SectionBytes(items: seq<Item>, s: Section, labels: map<string, int>, bases: seq<nat>, iflush: bool): seq<u8>
    requires |bases| == 5
  {
    if items == [] then []
    else
      var last := items[|items| - 1];
      SectionBytes(items[..|items| - 1], s, labels, bases, iflush)
      + if last.section == s && EmitItem(last, labels, bases, iflush).Ok? then EmitItem(last, labels, bases, iflush).value else []
  }

  ghost predicate AllEmit(items: seq<Item>, labels: map<string, int>, bases: seq<nat>, iflush: bool)
    requires |bases| == 5
  {
    forall j :: 0 <= j < |items| ==> EmitItem(items[j], labels, bases, iflush).Ok?
  }

  /** The image: each section, after at most one byte that makes its address even. */
  function Image(sections: seq<seq<u8>>): seq<u8> {
    if sections == [] then []
    else
      var init := Image(sections[..|sections| - 1]);
      init + seq(AlignEnd(|init|, 2) - |init|, _ => 0) + sections[|sections| - 1]
  }

  ghost predicate SectionAt(image: seq<u8>, base: nat, bytes: seq<u8>) {
    base + |bytes| <= |image| && image[base..base + |bytes|] == bytes
  }

  /** The bytes of the first k items are in place, and each section has its final size. */
  ghost predicate Filled(blobs: seq<seq<u8>>, items: seq<Item>, k: nat, labels: map<string, int>, bases: seq<nat>, iflush: bool)
    requires |bases| == 5 && k <= |items|
  {
    |blobs| == 5 && forall s: Section :: FilledSection(blobs[s], items, k, s, labels, bases, iflush)
  }

  ghost predicate FilledSection(blob: seq<u8>, items: seq<Item>, k: nat, s: Section, labels: map<string, int>, bases: seq<nat>, iflush: bool)
    requires |bases| == 5 && k <= |items|
  {
    var done := SectionBytes(items[..k], s, labels, bases, iflush);
    |blob| == Extent(items, s) && |done| == SectionSize(items[..k], s) && done <= blob
  }

  /** All items agree with a source. */
  ghost predicate Sized(items: seq<Item>) {
    forall j :: 0 <= j < |items| ==> Follows(items, j, (items[j].section, items[j].source))
  }

  lemma SizedFromLaid(statements: seq<Statement>, items: seq<Item>, labels: map<string, (Section, nat)>)
    requires Laid(statements, items, labels)
    ensures Sized(items) && TilesSections(items)
  {
    hide StatementSize, SizeKnown, Contents, TilesSections, LabelPlaced;
    forall j | 0 <= j < |items| ensures Follows(items, j, (items[j].section, items[j].source)) {
      assert Follows(items, j, Contents(statements)[j]);
    }
  }

  lemma EmittedIsNoNegative(items: seq<Item>, k: nat, labels: map<string, int>, bases: seq<nat>, iflush: bool)
    requires Sized(items) && |bases| == 5 && k <= |items| && AllEmit(items[..k], labels, bases, iflush)
    ensures NoNegative(items[..k])
  {
    hide EmitItem, Follows;
    forall j | 0 <= j < k ensures items[..k][j].size >= 0 {
      assert items[..k][j] == items[j];
      SizesAgree(items, j, (items[j].section, items[j].source), labels, bases, iflush);
    }
  }

  /** One more item in its place. */
  lemma FillStep(blobs: seq<seq<u8>>, items: seq<Item>, k: nat, labels: map<string, int>, bases: seq<nat>, iflush: bool, data: seq<u8>)
    requires Sized(items) && TilesSections(items) && |bases| == 5 && k < |items|
    requires AllEmit(items[..k], labels, bases, iflush) && EmitItem(items[k], labels, bases, iflush) == Ok(data)
    requires Filled(blobs, items, k, labels, bases, iflush)
    ensures AllEmit(items[..k + 1], labels, bases, iflush) && |data| == items[k].size
    ensures items[k].offset + items[k].size <= |blobs[items[k].section]|
    ensures var s, at := items[k].section, items[k].offset;
            Filled(blobs[s := blobs[s][..at] + data + blobs[s][at + items[k].size..]], items, k + 1, labels, bases, iflush)
  {
    hide EmitItem, Follows, Extent, SectionSize, SectionBytes;
    var item := items[k];
    var s, at := item.section, item.offset;
    SizesAgree(items, k, (item.section, item.source), labels, bases, iflush);
    assert items[..k + 1] == items[..k] + [item];
    EmittedIsNoNegative(items, k + 1, labels, bases, iflush);
    SizeWithin(items, k + 1, s);
    assert StartsAtEnd(items, k);
    OneMore(items[..k], item, labels, bases, iflush);
    assert FilledSection(blobs[s], items, k, s, labels, bases, iflush);
    var more := blobs[s := blobs[s][..at] + data + blobs[s][at + item.size..]];
    forall t: Section ensures FilledSection(more[t], items, k + 1, t, labels, bases, iflush) {
      assert FilledSection(blobs[t], items, k, t, labels, bases, iflush);
    }
  }

  lemma OneMore(items: seq<Item>, item: Item, labels: map<string, int>, bases: seq<nat>, iflush: bool)
    requires |bases| == 5 && EmitItem(item, labels, bases, iflush).Ok?
    ensures forall s: Section ::
      && SectionBytes(items + [item], s, labels, bases, iflush)
         == SectionBytes(items, s, labels, bases, iflush) + (if item.section == s then EmitItem(item, labels, bases, iflush).value else [])
      && SectionSize(items + [item], s) == SectionSize(items, s) + (if item.section == s then item.size else 0)
  {
    hide EmitItem;
    assert (items + [item])[..|items + [item]| - 1] == items;
  }

  lemma NothingFilled(blobs: seq<seq<u8>>, items: seq<Item>, labels: map<string, int>, bases: seq<nat>, iflush: bool)
    requires |bases| == 5 && |blobs| == 5 && forall s: Section :: |blobs[s]| == Extent(items, s)
    ensures Filled(blobs, items, 0, labels, bases, iflush) && AllEmit(items[..0], labels, bases, iflush)
  {
    hide EmitItem, Extent;
    forall s: Section ensures FilledSection(blobs[s], items, 0, s, labels, bases, iflush) {
    }
  }

  /** At the end a section is its items' bytes. */
  lemma AllFilled(blobs: seq<seq<u8>>, items: seq<Item>, labels: map<string, int>, bases: seq<nat>, iflush: bool)
    requires Sized(items) && TilesSections(items) && |bases| == 5 && AllEmit(items, labels, bases, iflush)
    requires Filled(blobs, items, |items|, labels, bases, iflush)
    ensures forall s: Section :: blobs[s] == SectionBytes(items, s, labels, bases, iflush)
  {
    hide EmitItem, Follows, Extent, SectionSize, SectionBytes;
    assert items[..|items|] == items;
    EmittedIsNoNegative(items, |items|, labels, bases, iflush);
    forall s: Section ensures blobs[s] == SectionBytes(items, s, labels, bases, iflush) {
      assert FilledSection(blobs[s], items, |items|, s, labels, bases, iflush);
      ExtentIsSize(items, s);
    }
  }

  /** Every section is at its base in the image. */
  lemma {:induction false} ImageHolds(sections: seq<seq<u8>>, k: nat, s: nat, base: nat)
    requires s < k <= |sections| && base == AlignEnd(|Image(sections[..s])|, 2)
    ensures SectionAt(Image(sections[..k]), base, sections[s])
    decreases k
  {
    hide AlignEnd;
    assert sections[..k][..k - 1] == sections[..k - 1];
    var init := Image(sections[..k - 1]);
    if s < k - 1 {
      ImageHolds(sections, k - 1, s, base);
      assert init <= Image(sections[..k]);
    }
  }

  /** The bases that layout_sections computes are those of the image. */
  lemma {:induction false} BasesMatch(sections: seq<seq<u8>>, items: seq<Item>, bases: seq<nat>, s: nat)
    requires Based(bases, items) && |sections| == 5 && s <= 5 && forall t: Section :: |sections[t]| == Extent(items, t)
    ensures |Image(sections[..s])| == EndBefore(bases, items, s)
    ensures forall t: Section :: t < s ==> bases[t] == AlignEnd(|Image(sections[..t])|, 2)
  {
    hide AlignEnd, Extent;
    if s > 0 {
      BasesMatch(sections, items, bases, s - 1);
      assert BaseAt(bases, items, s - 1);
      assert sections[..s][..s - 1] == sections[..s - 1];
    }
  }

  /** A section is as long as its items together. */
  lemma {:induction false} BytesAddUp(items: seq<Item>, k: nat, s: Section, labels: map<string, int>, bases: seq<nat>, iflush: bool)
    requires k <= |items| && |bases| == 5 && Sized(items) && AllEmit(items, labels, bases, iflush)
    ensures |SectionBytes(items[..k], s, labels, bases, iflush)| == SectionSize(items[..k], s)
  {
    hide EmitItem, Follows;
    if k > 0 {
      assert items[..k][..k - 1] == items[..k - 1];
      BytesAddUp(items, k - 1, s, labels, bases, iflush);
      SizesAgree(items, k - 1, (items[k - 1].section, items[k - 1].source), labels, bases, iflush);
    }
  }

  /** An item's bytes within its section. */
  lemma {:induction false} ItemInSection(items: seq<Item>, k: nat, j: nat, labels: map<string, int>, bases: seq<nat>, iflush: bool)
    requires j < k <= |items| && |bases| == 5 && Sized(items) && TilesSections(items) && AllEmit(items, labels, bases, iflush)
    ensures SectionAt(SectionBytes(items[..k], items[j].section, labels, bases, iflush), items[j].offset, EmitItem(items[j], labels, bases, iflush).value)
    decreases k
  {
    hide EmitItem, Follows, SectionSize, Sized, SectionBytes;
    var s := items[j].section;
    assert items[..k] == items[..k - 1] + [items[k - 1]];
    OneMore(items[..k - 1], items[k - 1], labels, bases, iflush);
    if j < k - 1 {
      ItemInSection(items, k - 1, j, labels, bases, iflush);
    } else {
      BytesAddUp(items, j, s, labels, bases, iflush);
      assert StartsAtEnd(items, j);
    }
  }

  /** The byte address of an item. */
  function Address(item: Item, bases: seq<nat>): nat
    requires |bases| == 5
  {
    bases[item.section] + item.offset
  }

  /** The image holds every item's bytes at its address. */
  ghost predicate Holds(image: seq<u8>, items: seq<Item>, j: nat, labels: map<string, int>, bases: seq<nat>, iflush: bool)
    requires |bases| == 5 && j < |items|
  {
    var data := EmitItem(items[j], labels, bases, iflush);
    data.Ok? && |data.value| == items[j].size && SectionAt(image, Address(items[j], bases), data.value)
  }

  lemma ImageHoldsItem(items: seq<Item>, j: nat, sections: seq<seq<u8>>, labels: map<string, int>, bases: seq<nat>, iflush: bool)
    requires Sized(items) && TilesSections(items) && Based(bases, items) && AllEmit(items, labels, bases, iflush) && j < |items|
    requires |sections| == 5 && forall s: Section :: sections[s] == SectionBytes(items, s, labels, bases, iflush) && |sections[s]| == Extent(items, s)
    ensures Holds(Image(sections), items, j, labels, bases, iflush)
  {
    hide EmitItem, Follows, Extent, SectionSize, SectionBytes, AlignEnd, Image, BaseAt, TilesSections;
    var item := items[j];
    var s, data := item.section, EmitItem(item, labels, bases, iflush).value;
    assert items[..|items|] == items && sections[..5] == sections;
    SizesAgree(items, j, (s, item.source), labels, bases, iflush);
    BasesMatch(sections, items, bases, 5);
    ImageHolds(sections, 5, s, bases[s]);
    ItemInSection(items, |items|, j, labels, bases, iflush);
    Nested(Image(sections), bases[s], sections[s], item.offset, data);
  }

  lemma Nested(image: seq<u8>, base: nat, bytes: seq<u8>, at: nat, data: seq<u8>)
    requires SectionAt(image, base, bytes) && SectionAt(bytes, at, data)
    ensures SectionAt(image, base + at, data)
  {
    var inner := image[base + at..base + at + |data|];
    forall k | 0 <= k < |data| ensures inner[k] == data[k] {
      assert bytes[at..at + |data|][k] == bytes[at + k] && image[base..base + |bytes|][at + k] == image[base + at + k];
    }
    assert inner == data;
  }

  /** final_label_map */
  function FinalLabels(labels: map<string, (Section, nat)>, bases: seq<nat>): map<string, int>
    requires |bases| == 5
  {
    map n | n in labels :: bases[labels[n].0] + labels[n].1
  }

  /** assemble, after preprocessing.  mismatch is the internal size check of the second pass. */
  method Assemble(statements: seq<Statement>, iflush: bool)
    returns (ok: bool, mismatch: bool, image: seq<u8>, items: seq<Item>, labels: map<string, (Section, nat)>, bases: seq<nat>)
    ensures !mismatch && |bases| == 5
    ensures ok ==> Accepted(statements) && AllEmit(items, FinalLabels(labels, bases), bases, iflush)
    ensures Accepted(statements) ==> Laid(statements, items, labels) && Based(bases, items)
    ensures Accepted(statements) && AllEmit(items, FinalLabels(labels, bases), bases, iflush) ==> ok
    ensures ok ==> forall j: nat :: j < |items| ==> Holds(image, items, j, FinalLabels(labels, bases), bases, iflush)
    ensures ok ==> |image| == EndBefore(bases, items, 5)
  {
    hide *;
    mismatch, image, bases := false, [], [0, 0, 0, 0, 0];
    ok, items, labels := ParseSource(statements);
    if !ok {
      return;
    }
    SizedFromLaid(statements, items, labels);
    bases := LayoutSections(items);
    BasedMeans(bases, items);
    var final := FinalLabels(labels, bases);
    var sizes := SectionSizes(items);
    var blobs := seq(5, s requires 0 <= s < |sizes| => Zeros(sizes[s]));
    NothingFilled(blobs, items, final, bases, iflush);
    for k := 0 to |items|
      invariant Filled(blobs, items, k, final, bases, iflush) && AllEmit(items[..k], final, bases, iflush) && !mismatch
    {
      var item := items[k];
      var data := EmitItem(item, final, bases, iflush);
      if data.Error? {
        NotAllEmit(items, k, final, bases, iflush);
        return false, mismatch, image, items, labels, bases;
      }
      FillStep(blobs, items, k, final, bases, iflush, data.value);
      FilledMeans(blobs, items, k, final, bases, iflush);
      mismatch := mismatch || |data.value| != item.size;
      var blob := blobs[item.section];
      blobs := blobs[item.section := blob[..item.offset] + data.value + blob[item.offset + item.size..]];
    }
    assert items[..|items|] == items;
    FilledMeans(blobs, items, |items|, final, bases, iflush);
    AllFilled(blobs, items, final, bases, iflush);
    var cursor := 0;
    NoImage(blobs);
    for s := 0 to 5
      invariant cursor == |image| && image == Image(blobs[..s])
    {
      ImageStep(blobs, s);
      var base := AlignEnd(cursor, 2);
      if |image| < base {
        image := image + Zeros(base - |image|);
      }
      image := image + blobs[s];
      cursor := base + |blobs[s]|;
    }
    assert blobs[..5] == blobs;
    BasesMatch(blobs, items, bases, 5);
    forall j: nat | j < |items| ensures Holds(image, items, j, final, bases, iflush) {
      ImageHoldsItem(items, j, blobs, final, bases, iflush);
    }
  }

  function Zeros(n: nat): (z: seq<u8>)
    ensures |z| == n && forall k :: 0 <= k < n ==> z[k] == 0
  {
    seq(n, _ => 0)
  }

  lemma BasedMeans(bases: seq<nat>, items: seq<Item>)
    requires Based(bases, items)
    ensures |bases| == 5
  {
  }

  lemma NotAllEmit(items: seq<Item>, k: nat, labels: map<string, int>, bases: seq<nat>, iflush: bool)
    requires |bases| == 5 && k < |items| && EmitItem(items[k], labels, bases, iflush).Error?
    ensures !AllEmit(items, labels, bases, iflush)
  {
    hide EmitItem;
  }

  lemma FilledMeans(blobs: seq<seq<u8>>, items: seq<Item>, k: nat, labels: map<string, int>, bases: seq<nat>, iflush: bool)
    requires |bases| == 5 && k <= |items| && Filled(blobs, items, k, labels, bases, iflush)
    ensures |blobs| == 5 && forall s: Section :: |blobs[s]| == Extent(items, s)
  {
    hide Extent, SectionBytes, SectionSize;
    forall s: Section ensures |blobs[s]| == Extent(items, s) {
      assert FilledSection(blobs[s], items, k, s, labels, bases, iflush);
    }
  }

  lemma NoImage(blobs: seq<seq<u8>>)
    ensures Image(blobs[..0]) == []
  {
  }

  lemma ImageStep(blobs: seq<seq<u8>>, s: nat)
    requires s < |blobs|
    ensures var init := Image(blobs[..s]);
            Image(blobs[..s + 1]) == init + Zeros(AlignEnd(|init|, 2) - |init|) + blobs[s]
  {
    hide AlignEnd;
    assert blobs[..s + 1][..s] == blobs[..s];
  }

  // ----- what the layout promises -----

  /** Any two items of the image are apart, in one section or in two. */
  lemma ItemsApart(items: seq<Item>, j: nat, k: nat, bases: seq<nat>)
    requires TilesSections(items) && NoNegative(items) && Based(bases, items) && j < k < |items|
    ensures Address(items[j], bases) + items[j].size <= Address(items[k], bases)
         || Address(items[k], bases) + items[k].size <= Address(items[j], bases)
  {
    hide Extent, SectionSize, AlignEnd, BaseAt;
    if items[j].section == items[k].section {
      NextItem(items, j);
      SizeGrows(items, j + 1, k, items[j].section);
      assert StartsAtEnd(items, k);
    } else {
      ItemWithin(items, j);
      ItemWithin(items, k);
      if items[j].section < items[k].section {
        SectionsApart(bases, items, items[j].section, items[k].section);
      } else {
        SectionsApart(bases, items, items[k].section, items[j].section);
      }
    }
  }

  lemma NextItem(items: seq<Item>, j: nat)
    requires TilesSections(items) && j < |items|
    ensures SectionSize(items[..j + 1], items[j].section) == items[j].offset + items[j].size
  {
    assert StartsAtEnd(items, j) && items[..j + 1][..j] == items[..j];
  }

  lemma ItemWithin(items: seq<Item>, j: nat)
    requires TilesSections(items) && NoNegative(items) && j < |items|
    ensures items[j].offset + items[j].size <= Extent(items, items[j].section)
  {
    hide Extent, SectionSize;
    NextItem(items, j);
    SizeWithin(items, j + 1, items[j].section);
  }

  lemma {:induction false} NothingBetween(items: seq<Item>, j: nat, k: nat, s: Section)
    requires j <= k <= |items| && forall i :: j <= i < k ==> items[i].section != s
    ensures SectionSize(items[..j], s) == SectionSize(items[..k], s)
    decreases k
  {
    if j < k {
      assert items[..k][..k - 1] == items[..k - 1] && items[..k][k - 1] == items[k - 1];
      NothingBetween(items, j, k - 1, s);
    }
  }

  /** A label has the address of the item that follows it in its section. */
  lemma LabelAddress(statements: seq<Statement>, at: nat, items: seq<Item>, labels: map<string, (Section, nat)>, bases: seq<nat>, j: nat)
    requires Laid(statements, items, labels) && |bases| == 5 && at < |statements| && statements[at].Label?
    requires |Contents(statements[..at])| <= j < |items| && items[j].section == SectionAfter(statements[..at])
    requires forall k :: |Contents(statements[..at])| <= k < j ==> items[k].section != items[j].section
    ensures statements[at].name in FinalLabels(labels, bases)
    ensures FinalLabels(labels, bases)[statements[at].name] == Address(items[j], bases)
  {
    hide SectionSize, Contents, SectionAfter, StatementSize, SizeKnown, Follows;
    assert LabelPlaced(statements, at, items, labels);
    NothingBetween(items, |Contents(statements[..at])|, j, items[j].section);
    assert StartsAtEnd(items, j);
  }

  /** After the last item of its section it has the address of the end of the section. */
  lemma LabelAtEnd(statements: seq<Statement>, at: nat, items: seq<Item>, labels: map<string, (Section, nat)>, bases: seq<nat>)
    requires Laid(statements, items, labels) && NoNegative(items) && |bases| == 5 && at < |statements| && statements[at].Label?
    requires forall k :: |Contents(statements[..at])| <= k < |items| ==> items[k].section != SectionAfter(statements[..at])
    ensures statements[at].name in FinalLabels(labels, bases)
    ensures FinalLabels(labels, bases)[statements[at].name]
         == bases[SectionAfter(statements[..at])] + Extent(items, SectionAfter(statements[..at]))
  {
    hide SectionSize, Contents, SectionAfter, StatementSize, SizeKnown, Follows, Extent;
    assert LabelPlaced(statements, at, items, labels);
    NothingBetween(items, |Contents(statements[..at])|, |items|, SectionAfter(statements[..at]));
    assert items[..|items|] == items;
    ExtentIsSize(items, SectionAfter(statements[..at]));
  }

  predicate IsJump(i: Source) {
    i.BRANCH? || i.JMP8? || i.JALL? || i.JMPL?
  }

  /** Where control goes when the instruction at pc transfers it. */
  predicate GoesTo(x: Insn, pc: u16, target: nat) {
    match x
    case Branch(_, rel) => ByteOf(Offset(Next(WordOf(pc)), rel)) == target
    case Jmp8(rel) => ByteOf(Offset(Next(WordOf(pc)), rel)) == target
    case Jall(_, t) => t == target && ByteOf(WordOf(t)) == target
    case _ => false
  }

  /** Two passes end to end: what the image holds for a branch, jump or call to a label is the
  encoding of that instruction, decodes to it in every build that has it, and goes to the item
  after the label. */
  lemma JumpFindsLabel(statements: seq<Statement>, at: nat, items: seq<Item>, labels: map<string, (Section, nat)>, bases: seq<nat>, j: nat,
    b: nat, i: Source, iflush: bool, p: Profile)
    requires Laid(statements, items, labels) && |bases| == 5 && at < |statements| && statements[at].Label?
    requires |Contents(statements[..at])| <= j < |items| && items[j].section == SectionAfter(statements[..at])
    requires forall k :: |Contents(statements[..at])| <= k < j ==> items[k].section != items[j].section
    requires b < |items| && IsJump(i) && items[b].source == Insn(i, Symbol(statements[at].name))
    requires EmitItem(items[b], FinalLabels(labels, bases), bases, iflush).Ok? && Build(p)
    requires Address(items[b], bases) < 0x1_0000 && Address(items[j], bases) < 0x1_0000
    ensures var target, pc := Address(items[j], bases), Address(items[b], bases);
            var written := WithOperand(i, target);
            && EncodeInsn(written, pc, iflush).Ok? && |Meaning(written, pc)| == 1
            && EmitItem(items[b], FinalLabels(labels, bases), bases, iflush).value == EncodeWords(EncodeInsn(written, pc, iflush).value)
            && Means(p, EncodeInsn(written, pc, iflush).value, Meaning(written, pc))
            && GoesTo(Meaning(written, pc)[0], pc, target)
  {
    hide *;
    LabelAddress(statements, at, items, labels, bases, j);
    var target, pc := Address(items[j], bases), Address(items[b], bases);
    JumpBytes(items[b], i, statements[at].name, FinalLabels(labels, bases), bases, iflush);
    EncodedMeans(WithOperand(i, target), pc, iflush, p);
    JumpLands(i, target, pc, iflush);
  }

  lemma JumpBytes(item: Item, i: Source, name: string, labels: map<string, int>, bases: seq<nat>, iflush: bool)
    requires |bases| == 5 && IsJump(i) && item.source == Insn(i, Symbol(name)) && name in labels
    requires EmitItem(item, labels, bases, iflush).Ok?
    ensures var pc, written := Address(item, bases), WithOperand(i, labels[name]);
            && pc % 2 == 0 && EncodeInsn(written, pc, iflush).Ok?
            && EmitItem(item, labels, bases, iflush).value == EncodeWords(EncodeInsn(written, pc, iflush).value)
  {
    hide EncodeInsn, EncodeWords;
  }

  lemma JumpLands(i: Source, target: nat, pc: u16, iflush: bool)
    requires IsJump(i) && pc % 2 == 0 && target < 0x1_0000 && EncodeInsn(WithOperand(i, target), pc, iflush).Ok?
    ensures |Meaning(WithOperand(i, target), pc)| == 1 && GoesTo(Meaning(WithOperand(i, target), pc)[0], pc, target)
  {
    hide EncBranch, EncodeLong, EncodeBranch, Displacement, Offset;
    if i.BRANCH? {
      BranchLands(target, pc, ConditionField(i.cc));
    } else if i.JMP8? {
      BranchLands(target, pc, 4);
    } else {
      DivModUnique(target, 0x1_0000, 0, target);
    }
  }
}
