/**
 * The WRAMP instruction table both tools are driven by. Every entry names a
 * mnemonic, the operand shape of its assembly syntax, and its 32-bit layout:
 * a list of segments, most significant first, each either a fixed bit
 * pattern or a variable field. Packing (the assembler's str.format followed by
 * int(_, 2)) and matching/unpacking (the disassembler's regex over the 32
 * binary digits) are both defined from the one layout.
 */
module Isa {
  import opened Base
  import opened Arith

  datatype Mnemonic = Add | Sub | And | Xor | Or | Addi | Subi | Andi | Xori | Ori | Lw | Sw | J | Bnez | Beqz

  function Name(m: Mnemonic): string
  {
    match m
    case Add => "add"  case Sub => "sub"  case And => "and"  case Xor => "xor"  case Or => "or"
    case Addi => "addi"  case Subi => "subi"  case Andi => "andi"  case Xori => "xori"  case Ori => "ori"
    case Lw => "lw"  case Sw => "sw"  case J => "j"  case Bnez => "bnez"  case Beqz => "beqz"
  }

  /** The operand shapes of the assembly syntax. */
  datatype Shape =
    | ThreeRegs       // m $rd,$rs,$rt
    | TwoRegsImm      // m $rd,$rs,imm
    | RegOffsetBase   // m $rd,offset($rs)
    | Target          // j target
    | RegTarget       // m $rs,target

  datatype Segment = Fixed(width: nat, value: nat) | Field(width: nat)

  /** Segments, most significant first. */
  type Layout = seq<Segment>

  datatype Entry = Entry(mnemonic: Mnemonic, shape: Shape, layout: Layout)

  function Init(l: Layout): Layout
    requires |l| > 0
  {
    l[..|l| - 1]
  }

  function Last(l: Layout): Segment
    requires |l| > 0
  {
    l[|l| - 1]
  }

  /** Total number of bits of a layout whose fields all fit. */
  function Width(l: Layout): nat
  {
    if |l| == 0 then 0 else Width(Init(l)) + Last(l).width
  }

  /** The widths of the variable fields, in order. */
  function FieldWidths(l: Layout): seq<nat>
  {
    if |l| == 0 then []
    else if Last(l).Field? then FieldWidths(Init(l)) + [Last(l).width]
    else FieldWidths(Init(l))
  }

  predicate WellFormed(l: Layout)
  {
    forall i | 0 <= i < |l| :: if l[i].Fixed? then l[i].value < Pow2(l[i].width) else l[i].width >= 1
  }

  /** Every operand is non-negative and fits its field. */
  predicate Fits(l: Layout, args: seq<int>)
  {
    |args| == |FieldWidths(l)| && forall i | 0 <= i < |args| :: 0 <= args[i] < Pow2(FieldWidths(l)[i])
  }

  /**
   * The assembler's t_obj.binary_format.format(*args) read back by int(_, 2).
   * '{:0Nb}' of a value with more than N binary digits prints all of them, so
   * such a field widens the string and pushes the fields above it up; a
   * negative value prints a '-' that int(_, 2) rejects with ValueError (every
   * table layout starts with a fixed opcode, so the '-' is never leading).
   */
  function Pack(l: Layout, args: seq<int>): Result<nat>
    requires |args| == |FieldWidths(l)|
  {
    if |l| == 0 then Ok(0)
    else
      match Last(l)
      case Fixed(w, v) =>
        (match Pack(Init(l), args)
         case Err(e) => Err(e)
         case Ok(hi) => Ok(Join(hi, v, w)))
      case Field(w) =>
        var a := args[|args| - 1];
        if a < 0 then Err(ValueError)
        else
          match Pack(Init(l), args[..|args| - 1])
          case Err(e) => Err(e)
          case Ok(hi) => Ok(Join(hi, a, Max(w, BinLen(a))))
  }

  /** Packing a layout extended by a fixed segment of w = log2(p) bits appends that segment's bits. */
  lemma PackFixed(l: Layout, args: seq<int>, w: nat, v: nat, hi: nat, p: nat)
    requires |args| == |FieldWidths(l)| && Pack(l, args) == Ok(hi) && Pow2(w) == p
    ensures |args| == |FieldWidths(l + [Fixed(w, v)])| && Pack(l + [Fixed(w, v)], args) == Ok(hi * p + v)
  {
    assert Init(l + [Fixed(w, v)]) == l;
  }

  /** Packing a layout extended by a field of w = log2(p) bits appends the field's value when it fits them. */
  lemma PackField(l: Layout, args: seq<int>, w: nat, a: nat, hi: nat, p: nat)
    requires |args| == |FieldWidths(l)| && Pack(l, args) == Ok(hi) && w >= 1 && Pow2(w) == p && a < p
    ensures |args + [a]| == |FieldWidths(l + [Field(w)])| && Pack(l + [Field(w)], args + [a]) == Ok(hi * p + a)
  {
    assert Init(l + [Field(w)]) == l;
    assert (args + [a])[..|args|] == args;
    BinLenFits(a, w);
  }

  /** PackField for the first field of a layout. */
  lemma PackFirstField(l: Layout, w: nat, a: nat, hi: nat, p: nat)
    requires |FieldWidths(l)| == 0 && Pack(l, []) == Ok(hi) && w >= 1 && Pow2(w) == p && a < p
    ensures |FieldWidths(l + [Field(w)])| == 1 && Pack(l + [Field(w)], [a]) == Ok(hi * p + a)
  {
    PackField(l, [], w, a, hi, p);
    assert [] + [a] == [a];
  }

  /** The disassembler's regex over the binary digits of w: every fixed segment is present. */
  predicate Matches(l: Layout, w: nat)
  {
    if |l| == 0 then w == 0
    else
      var n := Last(l).width;
      (Last(l).Fixed? ==> Lo(w, n) == Last(l).value) && Matches(Init(l), Hi(w, n))
  }

  /** The regex groups of a matching word, read with int(_, 2): the variable fields in order. */
  function Unpack(l: Layout, w: nat): (fs: seq<nat>)
    ensures |fs| == |FieldWidths(l)|
  {
    if |l| == 0 then []
    else
      var n := Last(l).width;
      if Last(l).Field? then Unpack(Init(l), Hi(w, n)) + [Lo(w, n)] else Unpack(Init(l), Hi(w, n))
  }

  lemma FitsInit(l: Layout, args: seq<int>)
    requires |l| > 0 && Last(l).Field? && Fits(l, args)
    ensures Fits(Init(l), args[..|args| - 1])
    ensures 0 <= args[|args| - 1] < Pow2(Last(l).width)
  {
    assert FieldWidths(l) == FieldWidths(Init(l)) + [Last(l).width];
  }

  /** The facts UnpackOfPack states, for one layout and its operands. */
  predicate PackedWell(l: Layout, args: seq<int>)
  {
    |args| == |FieldWidths(l)| && Pack(l, args).Ok? && Pack(l, args).value < Pow2(Width(l))
    && Matches(l, Pack(l, args).value) && Unpack(l, Pack(l, args).value) == args
  }

  /** Operands that fit their fields pack into a word that matches the layout and unpacks to them. */
  lemma {:induction false} UnpackOfPack(l: Layout, args: seq<int>)
    requires WellFormed(l) && Fits(l, args)
    ensures Pack(l, args).Ok?
    ensures Pack(l, args).value < Pow2(Width(l))
    ensures Matches(l, Pack(l, args).value)
    ensures Unpack(l, Pack(l, args).value) == args
  {
    if |l| > 0 {
      WellFormedInit(l);
      if Last(l).Fixed? {
        assert FieldWidths(l) == FieldWidths(Init(l));
        UnpackOfPack(Init(l), args);
        PackedFixedStep(l, args);
      } else {
        FitsInit(l, args);
        UnpackOfPack(Init(l), args[..|args| - 1]);
        PackedFieldStep(l, args);
      }
    }
    assert PackedWell(l, args);
  }

  /** UnpackOfPack's step for a layout ending in a fixed segment. */
  lemma PackedFixedStep(l: Layout, args: seq<int>)
    requires |l| > 0 && Last(l).Fixed? && Last(l).value < Pow2(Last(l).width)
    requires PackedWell(Init(l), args)
    ensures PackedWell(l, args)
  {
    var init, s := Init(l), Last(l);
    var hi := Pack(init, args).value;
    var w := Join(hi, s.value, s.width);
    assert Pack(l, args) == Ok(w);
    HiLoOfJoin(hi, s.value, s.width);
    JoinBound(hi, s.value, Width(init), s.width);
  }

  /** UnpackOfPack's step for a layout ending in a variable field the last operand fits. */
  lemma PackedFieldStep(l: Layout, args: seq<int>)
    requires |l| > 0 && Last(l).Field? && Last(l).width >= 1 && |args| > 0
    requires 0 <= args[|args| - 1] < Pow2(Last(l).width)
    requires PackedWell(Init(l), args[..|args| - 1])
    ensures PackedWell(l, args)
  {
    var init, s := Init(l), Last(l);
    var rest, low := args[..|args| - 1], args[|args| - 1];
    BinLenFits(low, s.width);
    var hi := Pack(init, rest).value;
    var w := Join(hi, low, s.width);
    assert Pack(l, args) == Ok(w);
    HiLoOfJoin(hi, low, s.width);
    JoinBound(hi, low, Width(init), s.width);
    assert args == rest + [low];
  }

  lemma WellFormedInit(l: Layout)
    requires |l| > 0 && WellFormed(l)
    ensures WellFormed(Init(l))
    ensures Last(l).Fixed? ==> Last(l).value < Pow2(Last(l).width)
    ensures Last(l).Field? ==> Last(l).width >= 1
  {
    assert forall i | 0 <= i < |l| - 1 :: Init(l)[i] == l[i];
    assert Last(l) == l[|l| - 1];
  }

  /** A word that matches a layout is exactly the packing of its own unpacked fields. */
  lemma {:induction false} PackOfUnpack(l: Layout, w: nat)
    requires WellFormed(l) && Matches(l, w)
    ensures Fits(l, Unpack(l, w))
    ensures Pack(l, Unpack(l, w)) == Ok(w)
    ensures w < Pow2(Width(l))
  {
    if |l| > 0 {
      var init, s := Init(l), Last(l);
      WellFormedInit(l);
      var hi, low := Hi(w, s.width), Lo(w, s.width);
      PackOfUnpack(init, hi);
      var fs := Unpack(init, hi);
      JoinOfHiLo(w, s.width);
      JoinBound(hi, low, Width(init), s.width);
      if s.Field? {
        BinLenFits(low, s.width);
        assert Unpack(l, w) == fs + [low];
        assert (fs + [low])[..|fs|] == fs;
        assert FieldWidths(l) == FieldWidths(init) + [s.width];
      } else {
        assert FieldWidths(l) == FieldWidths(init);
      }
    }
  }

  lemma {:induction false} WidthAppend(a: Layout, b: Layout)
    ensures Width(a + b) == Width(a) + Width(b)
  {
    if |b| > 0 {
      assert Init(a + b) == a + Init(b) && Last(a + b) == Last(b);
      WidthAppend(a, Init(b));
    } else {
      assert a + b == a;
    }
  }

  lemma WidthSuffix(l: Layout, k: nat)
    requires k <= |l|
    ensures Width(l[k..]) == Width(l) - Width(l[..k])
  {
    WidthAppend(l[..k], l[k..]);
    assert l[..k] + l[k..] == l;
  }

  /** A fixed segment of a matching word is found at its bit offset. */
  lemma {:induction false} FixedAt(l: Layout, k: nat, w: nat)
    requires k < |l| && l[k].Fixed? && Matches(l, w)
    ensures Lo(Hi(w, Width(l[k + 1..])), l[k].width) == l[k].value
  {
    var init, s := Init(l), Last(l);
    if k == |l| - 1 {
      assert l[k + 1..] == [];
      assert Hi(w, 0) == w;
    } else {
      FixedAt(init, k, Hi(w, s.width));
      assert init[k] == l[k];
      assert l[k + 1..] != [] && Init(l[k + 1..]) == init[k + 1..] && Last(l[k + 1..]) == s;
      HiHi(w, s.width, Width(init[k + 1..]));
    }
  }
}

module IsaTable {
  import opened Base
  import opened Arith
  import opened Isa

  /** R-type: opcode 0000, $rd, $rs, a 16-bit function code whose top four bits select the operation, $rt. */
  function RLayout(sel: nat): Layout
  {
    [Fixed(4, 0x0), Field(4), Field(4), Fixed(4, sel), Fixed(12, 0), Field(4)]
  }

  /** I-type: opcode 0001, $rd, $rs, a 4-bit operation selector, a 16-bit immediate. */
  function ILayout(sel: nat): Layout
  {
    [Fixed(4, 0x1), Field(4), Field(4), Fixed(4, sel), Field(16)]
  }

  /** lw/sw: opcode, $rd, base register $rs, 20-bit offset. */
  function MemLayout(opcode: nat): Layout
  {
    [Fixed(4, opcode), Field(4), Field(4), Field(20)]
  }

  /** j: opcode 0100, eight zero bits, 20-bit target. */
  function JumpLayout(): Layout
  {
    [Fixed(4, 0x4), Fixed(8, 0), Field(20)]
  }

  /** bnez/beqz: opcode, four zero bits, $rs, 20-bit offset. */
  function BranchLayout(opcode: nat): Layout
  {
    [Fixed(4, opcode), Fixed(4, 0), Field(4), Field(20)]
  }

  /**
   * The instruction table. The source holds it as a Python set (so its
   * iteration order is unspecified); here it is a sequence, and
   * TableUnambiguous shows the order cannot matter.
   */
  const Table: seq<Entry> := [
    Entry(Add, ThreeRegs, RLayout(0x0)),
    Entry(Sub, ThreeRegs, RLayout(0x2)),
    Entry(And, ThreeRegs, RLayout(0xB)),
    Entry(Xor, ThreeRegs, RLayout(0xF)),
    Entry(Or, ThreeRegs, RLayout(0xD)),
    Entry(Addi, TwoRegsImm, ILayout(0x0)),
    Entry(Subi, TwoRegsImm, ILayout(0x2)),
    Entry(Andi, TwoRegsImm, ILayout(0xB)),
    Entry(Xori, TwoRegsImm, ILayout(0xF)),
    Entry(Ori, TwoRegsImm, ILayout(0xD)),
    Entry(Lw, RegOffsetBase, MemLayout(0x8)),
    Entry(Sw, RegOffsetBase, MemLayout(0x9)),
    Entry(J, Target, JumpLayout()),
    Entry(Bnez, RegTarget, BranchLayout(0xB)),
    Entry(Beqz, RegTarget, BranchLayout(0xA))
  ]

  /** The field widths each operand shape fills, in layout order. */
  function ShapeWidths(sh: Shape): seq<nat>
  {
    match sh
    case ThreeRegs => [4, 4, 4]
    case TwoRegsImm => [4, 4, 16]
    case RegOffsetBase => [4, 4, 20]
    case Target => [20]
    case RegTarget => [4, 20]
  }

  lemma Step(l: Layout, k: nat)
    requires 0 < k <= |l|
    ensures Width(l[..k]) == Width(l[..k - 1]) + l[k - 1].width
    ensures FieldWidths(l[..k]) == FieldWidths(l[..k - 1]) + (if l[k - 1].Field? then [l[k - 1].width] else [])
  {
    assert Init(l[..k]) == l[..k - 1];
  }

  lemma RLayoutFacts(sel: nat)
    requires sel < 16
    ensures WellFormed(RLayout(sel)) && Width(RLayout(sel)) == 32 && FieldWidths(RLayout(sel)) == [4, 4, 4]
    ensures Width(RLayout(sel)[1..]) == 28 && Width(RLayout(sel)[4..]) == 16
  {
    Pow2Values();
    var l := RLayout(sel);
    assert l[..0] == [];
    Step(l, 1); Step(l, 2); Step(l, 3); Step(l, 4); Step(l, 5); Step(l, 6);
    assert l[..6] == l;
    WidthSuffix(l, 1);
    WidthSuffix(l, 4);
  }

  lemma ILayoutFacts(sel: nat)
    requires sel < 16
    ensures WellFormed(ILayout(sel)) && Width(ILayout(sel)) == 32 && FieldWidths(ILayout(sel)) == [4, 4, 16]
    ensures Width(ILayout(sel)[1..]) == 28 && Width(ILayout(sel)[4..]) == 16
  {
    Pow2Values();
    var l := ILayout(sel);
    assert l[..0] == [];
    Step(l, 1); Step(l, 2); Step(l, 3); Step(l, 4); Step(l, 5);
    assert l[..5] == l;
    WidthSuffix(l, 1);
    WidthSuffix(l, 4);
  }

  lemma MemLayoutFacts(opcode: nat)
    requires opcode < 16
    ensures WellFormed(MemLayout(opcode)) && Width(MemLayout(opcode)) == 32 && FieldWidths(MemLayout(opcode)) == [4, 4, 20]
    ensures Width(MemLayout(opcode)[1..]) == 28
  {
    Pow2Values();
    var l := MemLayout(opcode);
    assert l[..0] == [];
    Step(l, 1); Step(l, 2); Step(l, 3); Step(l, 4);
    assert l[..4] == l;
    WidthSuffix(l, 1);
  }

  lemma JumpLayoutFacts()
    ensures WellFormed(JumpLayout()) && Width(JumpLayout()) == 32 && FieldWidths(JumpLayout()) == [20]
    ensures Width(JumpLayout()[1..]) == 28
  {
    Pow2Values();
    var l := JumpLayout();
    assert l[..0] == [];
    Step(l, 1); Step(l, 2); Step(l, 3);
    assert l[..3] == l;
    WidthSuffix(l, 1);
  }

  lemma BranchLayoutFacts(opcode: nat)
    requires opcode < 16
    ensures WellFormed(BranchLayout(opcode)) && Width(BranchLayout(opcode)) == 32 && FieldWidths(BranchLayout(opcode)) == [4, 20]
    ensures Width(BranchLayout(opcode)[1..]) == 28
  {
    Pow2Values();
    var l := BranchLayout(opcode);
    assert l[..0] == [];
    Step(l, 1); Step(l, 2); Step(l, 3); Step(l, 4);
    assert l[..4] == l;
    WidthSuffix(l, 1);
  }

  /**
   * What the rest of the model needs of a table entry: a well-formed 32-bit
   * layout whose fields are those of its shape, whose top four bits are a
   * fixed opcode, and whose bits 19-16 are a fixed selector for the R- and
   * I-type entries (opcodes 0 and 1).
   */
  predicate EntryOk(e: Entry)
  {
    && WellFormed(e.layout) && Width(e.layout) == 32 && FieldWidths(e.layout) == ShapeWidths(e.shape)
    && KeyedLayout(e.layout)
  }

  predicate KeyedLayout(l: Layout)
  {
    && |l| >= 3 && l[0].Fixed? && l[0].width == 4 && Width(l[1..]) == 28
    && (l[0].value <= 1 ==> |l| >= 5 && l[3].Fixed? && l[3].width == 4 && Width(l[4..]) == 16)
  }

  lemma RegisterRows(i: nat)
    requires i < 5
    ensures EntryOk(Table[i])
  {
    if i == 0 { RegisterEntry(Add, 0x0); }
    else if i == 1 { RegisterEntry(Sub, 0x2); }
    else if i == 2 { RegisterEntry(And, 0xB); }
    else if i == 3 { RegisterEntry(Xor, 0xF); }
    else { RegisterEntry(Or, 0xD); }
  }

  lemma ImmediateRows(i: nat)
    requires 5 <= i < 10
    ensures EntryOk(Table[i])
  {
    if i == 5 { ImmediateEntry(Addi, 0x0); }
    else if i == 6 { ImmediateEntry(Subi, 0x2); }
    else if i == 7 { ImmediateEntry(Andi, 0xB); }
    else if i == 8 { ImmediateEntry(Xori, 0xF); }
    else { ImmediateEntry(Ori, 0xD); }
  }

  lemma JumpRows(i: nat)
    requires 10 <= i < 15
    ensures EntryOk(Table[i])
  {
    if i == 10 { MemEntry(Lw, 0x8); }
    else if i == 11 { MemEntry(Sw, 0x9); }
    else if i == 12 { JumpEntry(); }
    else if i == 13 { BranchEntry(Bnez, 0xB); }
    else { BranchEntry(Beqz, 0xA); }
  }

  lemma RegisterEntry(m: Mnemonic, sel: nat)
    requires sel < 16
    ensures EntryOk(Entry(m, ThreeRegs, RLayout(sel)))
  {
    RLayoutFacts(sel);
  }

  lemma ImmediateEntry(m: Mnemonic, sel: nat)
    requires sel < 16
    ensures EntryOk(Entry(m, TwoRegsImm, ILayout(sel)))
  {
    ILayoutFacts(sel);
  }

  lemma MemEntry(m: Mnemonic, opcode: nat)
    requires 1 < opcode < 16
    ensures EntryOk(Entry(m, RegOffsetBase, MemLayout(opcode)))
  {
    MemLayoutFacts(opcode);
  }

  lemma JumpEntry()
    ensures EntryOk(Entry(J, Target, JumpLayout()))
  {
    JumpLayoutFacts();
  }

  lemma BranchEntry(m: Mnemonic, opcode: nat)
    requires 1 < opcode < 16
    ensures EntryOk(Entry(m, RegTarget, BranchLayout(opcode)))
  {
    BranchLayoutFacts(opcode);
  }

  /** Every layout of the table is well formed, 32 bits wide, and has the fields its shape fills. */
  lemma EntryFacts(i: nat)
    requires i < |Table|
    ensures EntryOk(Table[i])
  {
    if i < 5 { RegisterRows(i); }
    else if i < 10 { ImmediateRows(i); }
    else { JumpRows(i); }
  }

  /** The opcode (bits 31-28) and, for R- and I-type words, the selector (bits 19-16) of a word. */
  function Key(w: nat): (int, int)
  {
    var opcode := Lo(Hi(w, 28), 4);
    (opcode, if opcode <= 1 then Lo(Hi(w, 16), 4) else 0)
  }

  function EntryKey(e: Entry): (int, int)
  {
    if |e.layout| > 0 && e.layout[0].Fixed? then
      var opcode: int := e.layout[0].value;
      (opcode, if opcode <= 1 && |e.layout| > 3 && e.layout[3].Fixed? then e.layout[3].value else 0)
    else (-1, 0)
  }

  lemma KeysDistinct()
    ensures forall i, j | 0 <= i < j < |Table| :: EntryKey(Table[i]) != EntryKey(Table[j])
  {
  }

  /** A word matching a keyed layout carries that layout's opcode and selector. */
  lemma KeyOfLayout(e: Entry, w: nat)
    requires KeyedLayout(e.layout) && Matches(e.layout, w)
    ensures Key(w) == EntryKey(e)
  {
    var l := e.layout;
    FixedAt(l, 0, w);
    if l[0].value <= 1 {
      FixedAt(l, 3, w);
    }
  }

  lemma MatchKey(i: nat, w: nat)
    requires i < |Table| && Matches(Table[i].layout, w)
    ensures Key(w) == EntryKey(Table[i])
  {
    EntryFacts(i);
    KeyOfLayout(Table[i], w);
  }

  /**
   * No word matches two entries of the table, so the result of matching a
   * word against the table does not depend on the order of the entries.
   */
  lemma TableUnambiguous(i: nat, j: nat, w: nat)
    requires i < |Table| && j < |Table|
    requires Matches(Table[i].layout, w) && Matches(Table[j].layout, w)
    ensures i == j
  {
    MatchKey(i, w);
    MatchKey(j, w);
    KeysDistinct();
  }

  /**
   * The disassembler's `for t in instruction_table: if pattern.match(bits)`:
   * the index of the first entry whose bit pattern the word matches.
   */
  function FirstMatch(t: seq<Entry>, w: nat): (r: Option<nat>)
    ensures r.Some? ==> r.value < |t| && Matches(t[r.value].layout, w)
    ensures r.Some? ==> forall j | 0 <= j < r.value :: !Matches(t[j].layout, w)
    ensures r.None? ==> forall j | 0 <= j < |t| :: !Matches(t[j].layout, w)
  {
    if |t| == 0 then None
    else if Matches(t[0].layout, w) then Some(0)
    else
      match FirstMatch(t[1..], w)
      case None => None
      case Some(j) => Some(j + 1)
  }

  /** Against this table, the first matching entry is the only matching entry. */
  lemma FirstMatchIsOnlyMatch(w: nat, i: nat)
    requires i < |Table|
    ensures FirstMatch(Table, w) == Some(i) <==> Matches(Table[i].layout, w)
  {
    var r := FirstMatch(Table, w);
    if Matches(Table[i].layout, w) {
      assert r.Some?;
      TableUnambiguous(r.value, i, w);
    }
  }

  /**
   * The assembler's `for t in instruction_table: if pattern.match(line)`: the
   * index of the first entry whose mnemonic and operand shape the line has.
   */
  function FindEntry(t: seq<Entry>, m: Mnemonic, sh: Shape): (r: Option<nat>)
    ensures r.Some? ==> r.value < |t| && t[r.value].mnemonic == m && t[r.value].shape == sh
    ensures r.Some? ==> forall j | 0 <= j < r.value :: !(t[j].mnemonic == m && t[j].shape == sh)
    ensures r.None? ==> forall j | 0 <= j < |t| :: !(t[j].mnemonic == m && t[j].shape == sh)
  {
    if |t| == 0 then None
    else if t[0].mnemonic == m && t[0].shape == sh then Some(0)
    else
      match FindEntry(t[1..], m, sh)
      case None => None
      case Some(j) => Some(j + 1)
  }

  /** The shape each mnemonic is written with. */
  function ShapeOf(m: Mnemonic): Shape
  {
    match m
    case Add | Sub | And | Xor | Or => ThreeRegs
    case Addi | Subi | Andi | Xori | Ori => TwoRegsImm
    case Lw | Sw => RegOffsetBase
    case J => Target
    case Bnez | Beqz => RegTarget
  }

  /** The row of the table that holds each mnemonic. */
  function Row(m: Mnemonic): (i: nat)
    ensures i < |Table| && Table[i].mnemonic == m && Table[i].shape == ShapeOf(m)
  {
    match m
    case Add => 0  case Sub => 1  case And => 2  case Xor => 3  case Or => 4
    case Addi => 5  case Subi => 6  case Andi => 7  case Xori => 8  case Ori => 9
    case Lw => 10  case Sw => 11  case J => 12  case Bnez => 13  case Beqz => 14
  }

  /** Each row holds a different mnemonic. */
  lemma RowInverse(j: nat)
    requires j < |Table|
    ensures Row(Table[j].mnemonic) == j
  {
  }

  /**
   * Every mnemonic has exactly one entry, written with its own shape, so the
   * assembler's lookup does not depend on the order of the table either.
   */
  lemma FindEntryIsOnlyEntry(m: Mnemonic, sh: Shape)
    ensures FindEntry(Table, m, sh) == (if sh == ShapeOf(m) then Some(Row(m)) else None)
  {
    var r := FindEntry(Table, m, sh);
    var i := Row(m);
    if r.Some? {
      RowInverse(r.value);
    } else {
      assert !(Table[i].mnemonic == m && Table[i].shape == sh);
    }
  }

  /** A word recognised by the table: the row it matched and its fields. */
  datatype Decoded = Decoded(row: nat, fields: seq<nat>)

  /** Match a word against the table and unpack its fields. */
  function Decode(w: nat): (r: Option<Decoded>)
    ensures r.Some? ==> r.value.row < |Table| && |r.value.fields| == |ShapeWidths(Table[r.value.row].shape)|
    ensures r.Some? ==> forall k | 0 <= k < |r.value.fields| :: r.value.fields[k] < Pow2(ShapeWidths(Table[r.value.row].shape)[k])
    ensures r.None? <==> forall j | 0 <= j < |Table| :: !Matches(Table[j].layout, w)
  {
    match FirstMatch(Table, w)
    case None => None
    case Some(i) =>
      EntryFacts(i);
      PackOfUnpack(Table[i].layout, w);
      Some(Decoded(i, Unpack(Table[i].layout, w)))
  }

  /**
   * Round trip from fields: operands that fit the fields of a row pack into a
   * 32-bit word that decodes to that row and those operands.
   */
  lemma DecodeOfPack(i: nat, args: seq<int>)
    requires i < |Table| && Fits(Table[i].layout, args)
    ensures Pack(Table[i].layout, args).Ok?
    ensures Pack(Table[i].layout, args).value < Pow2(32)
    ensures Decode(Pack(Table[i].layout, args).value) == Some(Decoded(i, args))
  {
    EntryFacts(i);
    UnpackOfPack(Table[i].layout, args);
    FirstMatchIsOnlyMatch(Pack(Table[i].layout, args).value, i);
  }

  /** Round trip from words: a decoded word is the packing of its fields, which fit them. */
  lemma PackOfDecode(w: nat)
    requires Decode(w).Some?
    ensures Fits(Table[Decode(w).value.row].layout, Decode(w).value.fields)
    ensures Pack(Table[Decode(w).value.row].layout, Decode(w).value.fields) == Ok(w)
    ensures w < Pow2(32)
  {
    var i := Decode(w).value.row;
    EntryFacts(i);
    PackOfUnpack(Table[i].layout, w);
  }

  /** Two 4-bit fields after a prefix with no fields append their bits to the prefix's. */
  lemma PackTwoNibbles(l: Layout, hi: nat, a: nat, b: nat)
    requires |FieldWidths(l)| == 0 && Pack(l, []) == Ok(hi) && a < 16 && b < 16
    ensures |FieldWidths(l + [Field(4)] + [Field(4)])| == 2
    ensures Pack(l + [Field(4)] + [Field(4)], [a] + [b]) == Ok(hi * 256 + a * 16 + b)
  {
    Pow2Four();
    PackFirstField(l, 4, a, hi, 16);
    PackField(l + [Field(4)], [a], 4, b, hi * 16 + a, 16);
  }

  /** The opcode and the two register fields every R-, I- and lw/sw word begins with. */
  lemma RegisterPrefix(opcode: nat, rd: nat, rs: nat)
    requires opcode < 16 && rd < 16 && rs < 16
    ensures |FieldWidths([Fixed(4, opcode)] + [Field(4)] + [Field(4)])| == 2
    ensures Pack([Fixed(4, opcode)] + [Field(4)] + [Field(4)], [rd] + [rs]) == Ok(opcode * 256 + rd * 16 + rs)
  {
    OpcodePrefix(opcode);
    PackTwoNibbles([Fixed(4, opcode)], opcode, rd, rs);
  }

  /** R-type words are rd<<24 | rs<<20 | sel<<16 | rt, bits 15-4 zero. */
  lemma RFormat(sel: nat, rd: nat, rs: nat, rt: nat)
    requires sel < 16 && rd < 16 && rs < 16 && rt < 16
    ensures |FieldWidths(RLayout(sel))| == 3
    ensures Pack(RLayout(sel), [rd, rs, rt]) == Ok(rd * 0x100_0000 + rs * 0x10_0000 + sel * 0x1_0000 + rt)
  {
    Pow2Values();
    var l3 := [Fixed(4, 0x0)] + [Field(4)] + [Field(4)];
    var l4 := l3 + [Fixed(4, sel)];
    var l5 := l4 + [Fixed(12, 0)];
    RegisterPrefix(0x0, rd, rs);
    PackFixed(l3, [rd] + [rs], 4, sel, rd * 16 + rs, 16);
    PackFixed(l4, [rd] + [rs], 12, 0, rd * 256 + rs * 16 + sel, 0x1000);
    PackField(l5, [rd] + [rs], 4, rt, rd * 0x10_0000 + rs * 0x1_0000 + sel * 0x1000, 16);
    assert [rd] + [rs] + [rt] == [rd, rs, rt];
    assert l5 + [Field(4)] == RLayout(sel);
  }

  /** I-type words are 1<<28 | rd<<24 | rs<<20 | sel<<16 | imm. */
  lemma IFormat(sel: nat, rd: nat, rs: nat, imm: nat)
    requires sel < 16 && rd < 16 && rs < 16 && imm < 0x1_0000
    ensures |FieldWidths(ILayout(sel))| == 3
    ensures Pack(ILayout(sel), [rd, rs, imm]) == Ok(0x1000_0000 + rd * 0x100_0000 + rs * 0x10_0000 + sel * 0x1_0000 + imm)
  {
    Pow2Values();
    var l3 := [Fixed(4, 0x1)] + [Field(4)] + [Field(4)];
    var l4 := l3 + [Fixed(4, sel)];
    RegisterPrefix(0x1, rd, rs);
    PackFixed(l3, [rd] + [rs], 4, sel, 256 + rd * 16 + rs, 16);
    PackField(l4, [rd] + [rs], 16, imm, 0x1000 + rd * 256 + rs * 16 + sel, 0x1_0000);
    assert [rd] + [rs] + [imm] == [rd, rs, imm];
    assert l4 + [Field(16)] == ILayout(sel);
  }

  /** A negative I-type immediate cannot be written in binary digits: ValueError. */
  lemma INegative(sel: nat, rd: nat, rs: nat, imm: int)
    requires sel < 16 && imm < 0
    ensures |FieldWidths(ILayout(sel))| == 3 && Pack(ILayout(sel), [rd, rs, imm]) == Err(ValueError)
  {
    ILayoutFacts(sel);
  }

  /** lw/sw words are opcode<<28 | rd<<24 | base<<20 | offset. */
  lemma MemFormat(opcode: nat, rd: nat, base: nat, offset: nat)
    requires opcode < 16 && rd < 16 && base < 16 && offset < 0x10_0000
    ensures |FieldWidths(MemLayout(opcode))| == 3
    ensures Pack(MemLayout(opcode), [rd, base, offset]) == Ok(opcode * 0x1000_0000 + rd * 0x100_0000 + base * 0x10_0000 + offset)
  {
    Pow2Values();
    var l3 := [Fixed(4, opcode)] + [Field(4)] + [Field(4)];
    RegisterPrefix(opcode, rd, base);
    PackField(l3, [rd] + [base], 20, offset, opcode * 256 + rd * 16 + base, 0x10_0000);
    assert [rd] + [base] + [offset] == [rd, base, offset];
    assert l3 + [Field(20)] == MemLayout(opcode);
  }

  /** A 4-bit opcode, eight zero bits and a 20-bit target field, as in j. */
  lemma TargetFormat(opcode: nat, target: nat)
    requires opcode < 16 && target < 0x10_0000
    ensures |FieldWidths([Fixed(4, opcode), Fixed(8, 0), Field(20)])| == 1
    ensures Pack([Fixed(4, opcode), Fixed(8, 0), Field(20)], [target]) == Ok(opcode * 0x1000_0000 + target)
  {
    var l2 := [Fixed(4, opcode), Fixed(8, 0)];
    OpcodeGapPrefix(opcode);
    Pow2Values();
    PackFirstField(l2, 20, target, opcode * 256, 0x10_0000);
    assert l2 + [Field(20)] == [Fixed(4, opcode), Fixed(8, 0), Field(20)];
  }

  /** The opcode followed by the eight zero bits of a j word. */
  lemma OpcodeGapPrefix(opcode: nat)
    requires opcode < 16
    ensures |FieldWidths([Fixed(4, opcode), Fixed(8, 0)])| == 0
    ensures Pack([Fixed(4, opcode), Fixed(8, 0)], []) == Ok(opcode * 256)
  {
    var l1 := [Fixed(4, opcode)];
    OpcodePrefix(opcode);
    Pow2Values();
    PackFixed(l1, [], 8, 0, opcode, 256);
    assert l1 + [Fixed(8, 0)] == [Fixed(4, opcode), Fixed(8, 0)];
  }

  /** j words are 0100 0000 0000 followed by the 20-bit target. */
  lemma JumpFormat(target: nat)
    requires target < 0x10_0000
    ensures |FieldWidths(JumpLayout())| == 1
    ensures Pack(JumpLayout(), [target]) == Ok(0x4000_0000 + target)
  {
    TargetFormat(0x4, target);
  }

  /** bnez/beqz words are opcode<<28 | rs<<20 | offset, bits 27-24 zero. */
  lemma BranchFormat(opcode: nat, rs: nat, offset: nat)
    requires opcode < 16 && rs < 16 && offset < 0x10_0000
    ensures |FieldWidths(BranchLayout(opcode))| == 2
    ensures Pack(BranchLayout(opcode), [rs, offset]) == Ok(opcode * 0x1000_0000 + rs * 0x10_0000 + offset)
  {
    Pow2Values();
    var l3 := [Fixed(4, opcode), Fixed(4, 0), Field(4)];
    BranchPrefix(opcode, rs);
    PackField(l3, [rs], 20, offset, opcode * 256 + rs, 0x10_0000);
    assert [rs] + [offset] == [rs, offset];
    assert l3 + [Field(20)] == BranchLayout(opcode);
  }

  /** The opcode, four zero bits and the register every bnez/beqz word begins with. */
  lemma BranchPrefix(opcode: nat, rs: nat)
    requires opcode < 16 && rs < 16
    ensures |FieldWidths([Fixed(4, opcode), Fixed(4, 0), Field(4)])| == 1
    ensures Pack([Fixed(4, opcode), Fixed(4, 0), Field(4)], [rs]) == Ok(opcode * 256 + rs)
  {
    var l2 := [Fixed(4, opcode), Fixed(4, 0)];
    OpcodeZeroPrefix(opcode);
    Pow2Four();
    PackFirstField(l2, 4, rs, opcode * 16, 16);
    assert l2 + [Field(4)] == [Fixed(4, opcode), Fixed(4, 0), Field(4)];
  }

  /** The opcode followed by four zero bits. */
  lemma OpcodeZeroPrefix(opcode: nat)
    requires opcode < 16
    ensures |FieldWidths([Fixed(4, opcode), Fixed(4, 0)])| == 0
    ensures Pack([Fixed(4, opcode), Fixed(4, 0)], []) == Ok(opcode * 16)
  {
    var l1 := [Fixed(4, opcode)];
    OpcodePrefix(opcode);
    Pow2Four();
    PackFixed(l1, [], 4, 0, opcode, 16);
    assert l1 + [Fixed(4, 0)] == [Fixed(4, opcode), Fixed(4, 0)];
  }

  /** A layout made of the opcode alone packs to the opcode. */
  lemma OpcodePrefix(opcode: nat)
    requires opcode < 16
    ensures |FieldWidths([Fixed(4, opcode)])| == 0
    ensures Pack([Fixed(4, opcode)], []) == Ok(opcode)
  {
    Pow2Four();
    PackFixed([], [], 4, opcode, 0, 16);
    assert [] + [Fixed(4, opcode)] == [Fixed(4, opcode)];
  }
}
