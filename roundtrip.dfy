/**
 * What the two tools promise each other: an instruction the assembler
 * encodes is printed back by the disassembler as the same instruction, a
 * branch to a label comes back as a branch to that label's word, and some
 * concrete programs with the bytes they assemble to.
 */
module RoundTrip {
  import opened Base
  import opened Arith
  import opened Codec
  import opened Text
  import opened Isa
  import opened IsaTable
  import opened Assembler
  import opened Disassembler

  /** The word an encoded instruction line was written as, or 0 when it emits no word. */
  function EmittedWord(s: Stmt): nat
  {
    var r := EncodeStmt(s);
    if r.Ok? && r.value.Some? then FromBytes(r.value.value) else 0
  }

  /**
   * An instruction written with its mnemonic's own shape, whose operand
   * values fit the fields, is encoded as one word that matches its table
   * row and nothing else, and unpacks to those operand values.
   */
  lemma EncodedInstr(m: Mnemonic, ops: Operands, args: seq<int>)
    requires OperandShape(ops) == ShapeOf(m) && OperandFields(ops) == Ok(args)
    requires Fits(Table[Row(m)].layout, args)
    ensures EncodeStmt(Instr(m, ops)).Ok? && EncodeStmt(Instr(m, ops)).value.Some?
    ensures Decode(EmittedWord(Instr(m, ops))) == Some(Decoded(Row(m), args))
  {
    DecodeOfPack(Row(m), args);
    Pow2Values();
    EncodedWord(m, ops, args, Pack(Table[Row(m)].layout, args).value);
  }

  /** An instruction whose row packs its operand values into a 32-bit v emits the word v. */
  lemma EncodedWord(m: Mnemonic, ops: Operands, args: seq<int>, v: nat)
    requires OperandShape(ops) == ShapeOf(m) && OperandFields(ops) == Ok(args)
    requires |args| == |FieldWidths(Table[Row(m)].layout)| && Pack(Table[Row(m)].layout, args) == Ok(v)
    requires v < 0x1_0000_0000
    ensures EncodeStmt(Instr(m, ops)).Ok? && EncodeStmt(Instr(m, ops)).value.Some?
    ensures EmittedWord(Instr(m, ops)) == v
  {
    FindEntryIsOnlyEntry(m, ShapeOf(m));
    Pow2Values();
  }

  /** Operand values within the field widths of their mnemonic's shape fit its table row. */
  lemma FitsShape(m: Mnemonic, args: seq<int>)
    requires |args| == |ShapeWidths(ShapeOf(m))|
    requires forall k | 0 <= k < |args| :: 0 <= args[k] < Pow2(ShapeWidths(ShapeOf(m))[k])
    ensures Fits(Table[Row(m)].layout, args)
  {
    EntryFacts(Row(m));
  }

  /**
   * The disassembler prints the word of an encodable instruction as the
   * line its own mnemonic and operand values make.
   */
  lemma InstrWord(m: Mnemonic, ops: Operands, args: seq<nat>, lineNum: int)
    requires OperandShape(ops) == ShapeOf(m) && OperandFields(ops) == Ok(args)
    requires Fits(Table[Row(m)].layout, args)
    ensures EncodeStmt(Instr(m, ops)).Ok? && EncodeStmt(Instr(m, ops)).value.Some?
    ensures FieldsFit(ShapeOf(m), args)
    ensures DecodeWord(EmittedWord(Instr(m, ops)), lineNum) == DecodedAs(m, ShapeOf(m), args, lineNum)
  {
    EncodedInstr(m, ops, args);
    DecodedFits(EmittedWord(Instr(m, ops)));
  }

  // ---------------------------------------------------------------------------
  // One instruction: assemble, then disassemble

  /** `m $rd,$rs,$rt` comes back as itself. */
  lemma RegisterRoundTrip(m: Mnemonic, rd: nat, rs: nat, rt: nat, lineNum: int)
    requires ShapeOf(m) == ThreeRegs && rd < 16 && rs < 16 && rt < 16
    ensures EncodeStmt(Instr(m, Regs(rd, rs, rt))).Ok? && EncodeStmt(Instr(m, Regs(rd, rs, rt))).value.Some?
    ensures DecodeWord(EmittedWord(Instr(m, Regs(rd, rs, rt))), lineNum) == DecodedLine(RTypeCommand(m, rd, rs, rt), None)
  {
    var args := [rd, rs, rt];
    Pow2Four();
    FitsShape(m, args);
    InstrWord(m, Regs(rd, rs, rt), args, lineNum);
  }

  /** `m $rd,$rs,imm` with 0 <= imm < 2^16 comes back with the same immediate. */
  lemma ImmediateRoundTrip(m: Mnemonic, rd: nat, rs: nat, imm: Token, lineNum: int)
    requires ShapeOf(m) == TwoRegsImm && rd < 16 && rs < 16
    requires imm.auto.Some? && 0 <= imm.auto.value < 0x1_0000
    ensures EncodeStmt(Instr(m, RegsImm(rd, rs, imm))).Ok? && EncodeStmt(Instr(m, RegsImm(rd, rs, imm))).value.Some?
    ensures DecodeWord(EmittedWord(Instr(m, RegsImm(rd, rs, imm))), lineNum) == DecodedLine(ITypeCommand(m, rd, rs, imm.auto.value), None)
  {
    var args := [rd, rs, imm.auto.value];
    Pow2Values();
    FitsShape(m, args);
    InstrWord(m, RegsImm(rd, rs, imm), args, lineNum);
  }

  /** A negative immediate is not assembled: it raises ValueError. */
  lemma ImmediateNegative(m: Mnemonic, rd: nat, rs: nat, imm: Token)
    requires ShapeOf(m) == TwoRegsImm && imm.auto.Some? && imm.auto.value < 0
    ensures EncodeStmt(Instr(m, RegsImm(rd, rs, imm))) == Err(ValueError)
  {
    var sel := ImmediateRowLayout(m);
    INegative(sel, rd, rs, imm.auto.value);
    PackFails(m, RegsImm(rd, rs, imm), [rd, rs, imm.auto.value]);
  }

  /** The row of an I-type mnemonic is the I-type layout with its selector. */
  lemma ImmediateRowLayout(m: Mnemonic) returns (sel: nat)
    requires ShapeOf(m) == TwoRegsImm
    ensures sel < 16 && Table[Row(m)].layout == ILayout(sel)
  {
    if m == Addi { sel := 0x0; }
    else if m == Subi { sel := 0x2; }
    else if m == Andi { sel := 0xB; }
    else if m == Xori { sel := 0xF; }
    else if m == Ori { sel := 0xD; }
    else { assert false; }
  }

  /** An instruction whose operand values its row cannot pack raises what packing raises. */
  lemma PackFails(m: Mnemonic, ops: Operands, args: seq<int>)
    requires OperandShape(ops) == ShapeOf(m) && OperandFields(ops) == Ok(args)
    requires |args| == |FieldWidths(Table[Row(m)].layout)| && Pack(Table[Row(m)].layout, args).Err?
    ensures EncodeStmt(Instr(m, ops)) == Err(Pack(Table[Row(m)].layout, args).error)
  {
    FindEntryIsOnlyEntry(m, ShapeOf(m));
  }

  /** `m $rd,offset($rs)` with an offset that fits 20 signed bits comes back with the same offset. */
  lemma MemRoundTrip(m: Mnemonic, rd: nat, offset: Token, base: nat, lineNum: int)
    requires ShapeOf(m) == RegOffsetBase && rd < 16 && base < 16
    requires offset.auto.Some? && -0x8_0000 <= offset.auto.value < 0x8_0000
    ensures EncodeStmt(Instr(m, RegOffset(rd, offset, base))).Ok? && EncodeStmt(Instr(m, RegOffset(rd, offset, base))).value.Some?
    ensures DecodeWord(EmittedWord(Instr(m, RegOffset(rd, offset, base))), lineNum) == DecodedLine(MemCommand(m, rd, base, offset.auto.value), None)
  {
    var args := [rd, base, Wrapped(offset, JumpLength)];
    Pow2Values();
    FitsShape(m, args);
    InstrWord(m, RegOffset(rd, offset, base), args, lineNum);
    FromTwosOfToTwos(offset.auto.value, 20);
  }

  /** `j target` comes back as `j` of the target reduced modulo 2^16, which is also the recorded target. */
  lemma JumpRoundTrip(target: Token, lineNum: int)
    requires target.auto.Some?
    ensures EncodeStmt(Instr(J, Dest(target))).Ok? && EncodeStmt(Instr(J, Dest(target))).value.Some?
    ensures DecodeWord(EmittedWord(Instr(J, Dest(target))), lineNum) ==
      DecodedLine(JumpCommand(target.auto.value % 0x1_0000), Some(target.auto.value % 0x1_0000))
  {
    var args := [Wrapped(target, OffsetLength)];
    Pow2Values();
    Pow2Monotone(16, 20);
    FitsShape(J, args);
    InstrWord(J, Dest(target), args, lineNum);
  }

  /**
   * `m $rs,off` at word index lineNum, off within 20 signed bits, comes back
   * as a branch to lineNum + off + 1, the target the disassembler records.
   */
  lemma BranchRoundTrip(m: Mnemonic, rs: nat, off: Token, lineNum: int)
    requires ShapeOf(m) == RegTarget && rs < 16
    requires off.auto.Some? && -0x8_0000 <= off.auto.value < 0x8_0000
    ensures EncodeStmt(Instr(m, RegDest(rs, off))).Ok? && EncodeStmt(Instr(m, RegDest(rs, off))).value.Some?
    ensures DecodeWord(EmittedWord(Instr(m, RegDest(rs, off))), lineNum) ==
      DecodedLine(BranchCommand(m, rs, lineNum + off.auto.value + 1), Some(lineNum + off.auto.value + 1))
  {
    var f := Wrapped(off, JumpLength);
    var args := [rs, f];
    Pow2Values();
    FitsShape(m, args);
    InstrWord(m, RegDest(rs, off), args, lineNum);
    FromTwosOfToTwos(off.auto.value, 20);
    var target := lineNum + off.auto.value + 1;
    assert lineNum + (FromTwos(f, 20) + 1) == target;
    assert DecodedAs(m, RegTarget, args, lineNum) == DecodedLine(BranchCommand(m, rs, target), Some(target));
  }

  // ---------------------------------------------------------------------------
  // Labels: the assembler's substitution against the disassembler's targets

  /** The word one assembler iteration emits for a statement at pc, or 0 when it emits none. */
  function AssembledWord(s: Stmt, labels: map<string, nat>, pc: int): nat
  {
    var r := AssembleLine(s, labels, pc);
    if r.Ok? && r.value.Some? then FromBytes(r.value.value) else 0
  }

  /**
   * A branch to a label, assembled as statement c (pc = c + 1) and read back
   * as word c, branches to the word the label was defined at: the label's
   * value, which is what the disassembler records as the target.
   */
  lemma BranchLabelRoundTrip(m: Mnemonic, rs: nat, t: Token, labels: map<string, nat>, c: nat)
    requires ShapeOf(m) == RegTarget && rs < 16 && t.auto.None? && t.text in labels
    requires -0x8_0000 <= labels[t.text] - (c + 1) < 0x8_0000
    ensures AssembleLine(Instr(m, RegDest(rs, t)), labels, c + 1).Ok?
    ensures AssembleLine(Instr(m, RegDest(rs, t)), labels, c + 1).value.Some?
    ensures DecodeWord(AssembledWord(Instr(m, RegDest(rs, t)), labels, c + 1), c) ==
      DecodedLine(BranchCommand(m, rs, labels[t.text]), Some(labels[t.text]))
  {
    var s := Instr(m, RegDest(rs, t));
    var v := labels[t.text];
    var off := Numeral(v - (c + 1));
    ReplaceLabelTarget(s, labels, c + 1);
    BranchRoundTrip(m, rs, off, c);
    assert c + off.auto.value + 1 == v;
    SubstitutedLine(s, labels, c + 1, Instr(m, RegDest(rs, off)), c, DecodedLine(BranchCommand(m, rs, v), Some(v)));
  }

  /** A jump to a label below 2^16 is read back as a jump to that label's word. */
  lemma JumpLabelRoundTrip(t: Token, labels: map<string, nat>, pc: int, lineNum: int)
    requires t.decimal.None? && t.text in labels && labels[t.text] < 0x1_0000
    ensures AssembleLine(Instr(J, Dest(t)), labels, pc).Ok? && AssembleLine(Instr(J, Dest(t)), labels, pc).value.Some?
    ensures DecodeWord(AssembledWord(Instr(J, Dest(t)), labels, pc), lineNum) ==
      DecodedLine(JumpCommand(labels[t.text]), Some(labels[t.text]))
  {
    var v := labels[t.text];
    var s' := Instr(J, Dest(Numeral(v)));
    ReplaceLabelTarget(Instr(J, Dest(t)), labels, pc);
    JumpRoundTrip(Numeral(v), lineNum);
    SplitLow(0, v, 0x1_0000);
    SubstitutedLine(Instr(J, Dest(t)), labels, pc, s', lineNum, DecodedLine(JumpCommand(v), Some(v)));
  }

  /** After substitution a statement assembles as the statement it became. */
  lemma SubstitutedLine(s: Stmt, labels: map<string, nat>, pc: int, s': Stmt, lineNum: int, d: DecodedLine)
    requires ReplaceLabel(s, labels, pc) == Ok(s')
    requires EncodeStmt(s').Ok? && EncodeStmt(s').value.Some? && DecodeWord(EmittedWord(s'), lineNum) == d
    ensures AssembleLine(s, labels, pc).Ok? && AssembleLine(s, labels, pc).value.Some?
    ensures DecodeWord(AssembledWord(s, labels, pc), lineNum) == d
  {
  }

  // ---------------------------------------------------------------------------
  // The output file: words written one after another, read back four bytes at a time

  /** The bytes of the output file: every emitted word, in order. */
  function Flatten(ws: seq<seq<byte>>): seq<byte>
  {
    if |ws| == 0 then [] else Flatten(ws[..|ws| - 1]) + ws[|ws| - 1]
  }

  predicate AllWords(ws: seq<seq<byte>>)
  {
    forall j | 0 <= j < |ws| :: |ws[j]| == 4
  }

  lemma {:induction false} FlattenLength(ws: seq<seq<byte>>)
    requires AllWords(ws)
    ensures |Flatten(ws)| == 4 * |ws|
  {
    if |ws| > 0 {
      FlattenLength(ws[..|ws| - 1]);
    }
  }

  /** Word k of the list occupies bytes 4k to 4k + 4 of the file. */
  lemma {:induction false} FlattenChunk(ws: seq<seq<byte>>, k: nat)
    requires AllWords(ws) && k < |ws|
    ensures |Flatten(ws)| == 4 * |ws| && Flatten(ws)[4 * k..4 * k + 4] == ws[k]
  {
    var init := ws[..|ws| - 1];
    FlattenLength(ws);
    FlattenLength(init);
    if k < |ws| - 1 {
      FlattenChunk(init, k);
      assert Flatten(ws)[4 * k..4 * k + 4] == Flatten(init)[4 * k..4 * k + 4];
    } else {
      assert Flatten(ws)[4 * k..4 * k + 4] == ws[k];
    }
  }

  /** The disassembler reads the file of n words as n words, word k being the k-th word written. */
  lemma FlattenWords(ws: seq<seq<byte>>, k: nat)
    requires AllWords(ws) && k < |ws|
    ensures NumWords(|Flatten(ws)|) == |ws|
    ensures WordAt(Flatten(ws), k) == FromBytes(ws[k])
  {
    FlattenChunk(ws, k);
  }

  /**
   * A program whose every statement emits a word assembles to a file that
   * the disassembler reads as one word per statement, word k being
   * statement k encoded at pc = k + 1.
   */
  lemma ProgramImage(cmds: seq<Stmt>, labels: map<string, nat>)
    requires forall k | 0 <= k < |cmds| :: AssembleLine(cmds[k], labels, k + 1).Ok? && AssembleLine(cmds[k], labels, k + 1).value.Some?
    ensures Assembled(cmds, labels).Ok?
    ensures NumWords(|Flatten(Assembled(cmds, labels).value)|) == |cmds|
    ensures forall k | 0 <= k < |cmds| :: WordAt(Flatten(Assembled(cmds, labels).value), k) == AssembledWord(cmds[k], labels, k + 1)
  {
    AssembledInOrder(cmds, labels);
    AssembledWords(cmds, labels);
    var ws := Assembled(cmds, labels).value;
    FlattenLength(ws);
    forall k | 0 <= k < |cmds|
      ensures WordAt(Flatten(ws), k) == AssembledWord(cmds[k], labels, k + 1)
    {
      FlattenWords(ws, k);
    }
  }

  /**
   * In the disassembly of an assembled program, the branch to a label
   * written as statement k decodes, as word k, to a branch to the label's
   * own word, and that word is what the disassembler records as a target.
   */
  lemma ProgramBranch(cmds: seq<Stmt>, labels: map<string, nat>, k: nat, m: Mnemonic, rs: nat, t: Token)
    requires forall j | 0 <= j < |cmds| :: AssembleLine(cmds[j], labels, j + 1).Ok? && AssembleLine(cmds[j], labels, j + 1).value.Some?
    requires k < |cmds| && cmds[k] == Instr(m, RegDest(rs, t))
    requires ShapeOf(m) == RegTarget && rs < 16 && t.auto.None? && t.text in labels
    requires -0x8_0000 <= labels[t.text] - (k + 1) < 0x8_0000
    ensures Assembled(cmds, labels).Ok?
    ensures k < |DecodedImage(Flatten(Assembled(cmds, labels).value))|
    ensures DecodedImage(Flatten(Assembled(cmds, labels).value))[k] ==
      DecodedLine(BranchCommand(m, rs, labels[t.text]), Some(labels[t.text]))
  {
    ProgramImage(cmds, labels);
    var data := Flatten(Assembled(cmds, labels).value);
    ImageAt(data, NumWords(|data|), k, DecodeWord);
    BranchLabelRoundTrip(m, rs, t, labels, k);
  }

  // ---------------------------------------------------------------------------
  // Concrete programs

  /** An instruction whose row packs its operand values into the value of four bytes emits those bytes. */
  lemma EncodedAs(m: Mnemonic, ops: Operands, args: seq<int>, b: seq<byte>)
    requires OperandShape(ops) == ShapeOf(m) && OperandFields(ops) == Ok(args) && |b| == 4
    requires |args| == |FieldWidths(Table[Row(m)].layout)| && Pack(Table[Row(m)].layout, args) == Ok(FromBytes(b))
    ensures EncodeStmt(Instr(m, ops)) == Ok(Some(b))
  {
    FindEntryIsOnlyEntry(m, ShapeOf(m));
    ToBytesOfFromBytes(b);
  }

  /** The layout of a mnemonic's row, for the mnemonics of the examples. */
  lemma RowLayout(m: Mnemonic, l: Layout)
    requires (m == Add && l == RLayout(0x0)) || (m == Addi && l == ILayout(0x0)) || (m == Lw && l == MemLayout(0x8))
    ensures Table[Row(m)].layout == l
  {
  }

  /** The value of four bytes read little-endian. */
  lemma BytesValue(b0: byte, b1: byte, b2: byte, b3: byte)
    ensures FromBytes([b0, b1, b2, b3]) == b0 + 0x100 * b1 + 0x1_0000 * b2 + 0x100_0000 * b3
  {
    var b := [b0, b1, b2, b3];
    assert FromBytes(b[3..]) == b3;
    assert FromBytes(b[2..]) == b2 + 0x100 * b3;
    assert FromBytes(b[1..]) == b1 + 0x100 * b2 + 0x1_0000 * b3;
  }

  /** `add $1,$2,$3` is the word 0x01200003, written 03 00 20 01. */
  lemma AddExample()
    ensures EncodeStmt(Instr(Add, Regs(1, 2, 3))) == Ok(Some([0x03, 0x00, 0x20, 0x01]))
  {
    var l := RLayout(0x0);
    RFormat(0x0, 1, 2, 3);
    BytesValue(0x03, 0x00, 0x20, 0x01);
    RowLayout(Add, l);
    EncodedAs(Add, Regs(1, 2, 3), [1, 2, 3], [0x03, 0x00, 0x20, 0x01]);
  }

  /** `addi $1,$2,5`, the 5 in any notation int(_, 0) reads, is the word 0x11200005, written 05 00 20 11. */
  lemma AddiExample(imm: Token)
    requires imm.auto == Some(5)
    ensures EncodeStmt(Instr(Addi, RegsImm(1, 2, imm))) == Ok(Some([0x05, 0x00, 0x20, 0x11]))
  {
    var l := ILayout(0x0);
    IFormat(0x0, 1, 2, 5);
    BytesValue(0x05, 0x00, 0x20, 0x11);
    RowLayout(Addi, l);
    EncodedAs(Addi, RegsImm(1, 2, imm), [1, 2, 5], [0x05, 0x00, 0x20, 0x11]);
  }

  /** `lw $1,4($2)` is the word 0x81200004, written 04 00 20 81. */
  lemma LoadExample(offset: Token)
    requires offset.auto == Some(4)
    ensures EncodeStmt(Instr(Lw, RegOffset(1, offset, 2))) == Ok(Some([0x04, 0x00, 0x20, 0x81]))
  {
    Pow2Values();
    SplitLow(0, 4, 0x10_0000);
    assert Wrapped(offset, JumpLength) == 4;
    var l := MemLayout(0x8);
    MemFormat(0x8, 1, 2, 4);
    BytesValue(0x04, 0x00, 0x20, 0x81);
    RowLayout(Lw, l);
    EncodedAs(Lw, RegOffset(1, offset, 2), [1, 2, 4], [0x04, 0x00, 0x20, 0x81]);
  }

  /** `j 65541` keeps only the low 16 bits of its target and comes back as `j 5`. */
  lemma JumpWrapExample(target: Token)
    requires target.auto == Some(65541)
    ensures DecodeWord(EmittedWord(Instr(J, Dest(target))), 0) == DecodedLine(JumpCommand(5), Some(5))
  {
    JumpRoundTrip(target, 0);
    SplitLow(1, 5, 0x1_0000);
  }
}
