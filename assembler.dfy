/**
 * The assembler: a label pre-pass over the source lines, label substitution
 * on each retained line, and encoding of each line into four little-endian
 * bytes through the instruction table.
 *
 * Lines arrive already split by the source's regular expressions: a line is
 * blank, a comment, a label definition, or a statement whose operands are
 * the regex groups. A group the source reads with int(text, 0) or int(text)
 * is a Token carrying those two readings.
 */
module Assembler {
  import opened Base
  import opened Arith
  import opened Codec
  import opened Text
  import opened Isa
  import opened IsaTable

  /** JUMP_LENGTH: the width branch and memory offsets are wrapped to. */
  const JumpLength: nat := 20
  /** OFFSET_LENGTH: the width `j` targets are wrapped to. */
  const OffsetLength: nat := 16

  /** An operand as written, with what int(text, 0) and int(text) make of it (None: ValueError). */
  datatype Token = Token(text: string, auto: Option<int>, decimal: Option<int>)

  /** The text str(v) that label substitution writes in place of a label. */
  function Numeral(v: int): (t: Token)
    ensures t.text == Dec(v)
    ensures t.auto == Some(v) && t.decimal == Some(v)
  {
    Token(Dec(v), Some(v), Some(v))
  }

  /** The numeral's int() reading is what int() makes of its text. */
  lemma NumeralReadsBack(v: int)
    ensures Numeral(v).decimal == ParseDecimal(Numeral(v).text)
  {
    ParseDecimalOfDec(v);
  }

  /** The regex groups of an instruction line, by operand shape. */
  datatype Operands =
    | Regs(rd: nat, rs: nat, rt: nat)                // $rd,$rs,$rt
    | RegsImm(rd: nat, rs: nat, imm: Token)          // $rd,$rs,imm
    | RegOffset(rd: nat, offset: Token, base: nat)   // $rd,offset($base)
    | Dest(target: Token)                            // target
    | RegDest(rs: nat, target: Token)                // $rs,target

  function OperandShape(ops: Operands): Shape
  {
    match ops
    case Regs(_, _, _) => ThreeRegs
    case RegsImm(_, _, _) => TwoRegsImm
    case RegOffset(_, _, _) => RegOffsetBase
    case Dest(_) => Target
    case RegDest(_, _) => RegTarget
  }

  datatype Stmt =
    | Instr(mnemonic: Mnemonic, ops: Operands)   // a mnemonic of the table and its operands
    | WordDirective(value: Option<Token>)        // .word and its second word, when there is one
    | Unrecognised(words: seq<Token>, pieces: seq<Token>, headReg: Option<nat>)
      // any other line, as replace_label reads it: words is line.split(), pieces is
      // re.split(",| ", line), and headReg is Some(r) when line.split(',')[0] is
      // the first word followed by " $r"

  datatype SourceLine = Blank | Comment | LabelDef(name: string) | Code(stmt: Stmt)

  // ---------------------------------------------------------------------------
  // The label pre-pass (pre_process)

  /** The statements pre_process keeps, in source order. */
  function Commands(lines: seq<SourceLine>): seq<Stmt>
  {
    if |lines| == 0 then []
    else
      var last := lines[|lines| - 1];
      Commands(lines[..|lines| - 1]) + (if last.Code? then [last.stmt] else [])
  }

  /** The symbol table pre_process builds: a label maps to the number of statements before it; a later definition wins. */
  function Labels(lines: seq<SourceLine>): map<string, nat>
  {
    if |lines| == 0 then map[]
    else
      var init, last := lines[..|lines| - 1], lines[|lines| - 1];
      if last.LabelDef? then Labels(init)[last.name := |Commands(init)|] else Labels(init)
  }

  /**
   * pre_process: one pass that drops blank and comment lines, records each
   * label at the current instruction number, and keeps every other line,
   * counting it.
   */
  method PreProcess(lines: seq<SourceLine>) returns (labels: map<string, nat>, commands: seq<Stmt>)
    ensures labels == Labels(lines) && commands == Commands(lines)
  {
    labels, commands := map[], [];
    var instructionNumber := 0;
    for i := 0 to |lines|
      invariant labels == Labels(lines[..i]) && commands == Commands(lines[..i])
      invariant instructionNumber == |commands|
    {
      assert lines[..i + 1][..i] == lines[..i];
      match lines[i]
      case Blank =>
      case Comment =>
      case LabelDef(name) =>
        labels := labels[name := instructionNumber];
      case Code(stmt) =>
        commands := commands + [stmt];
        instructionNumber := instructionNumber + 1;
    }
    assert lines[..|lines|] == lines;
  }

  /** The number of statements among the first j lines. */
  function CountBefore(lines: seq<SourceLine>, j: nat): nat
    requires j <= |lines|
  {
    |Commands(lines[..j])|
  }

  lemma {:induction false} CommandsPrefix(lines: seq<SourceLine>, j: nat)
    requires j <= |lines|
    ensures Commands(lines[..j]) <= Commands(lines)
  {
    if j < |lines| {
      CommandsPrefix(lines[..|lines| - 1], j);
      assert lines[..|lines| - 1][..j] == lines[..j];
    } else {
      assert lines[..j] == lines;
    }
  }

  /**
   * Every statement keeps its source order: the statement on line j is
   * command number CountBefore(lines, j), and blank, comment and label lines
   * add no command.
   */
  lemma {:induction false} CommandsInOrder(lines: seq<SourceLine>, j: nat)
    requires j < |lines|
    ensures lines[j].Code? ==> CountBefore(lines, j) < |Commands(lines)| && Commands(lines)[CountBefore(lines, j)] == lines[j].stmt
    ensures !lines[j].Code? ==> CountBefore(lines, j + 1) == CountBefore(lines, j)
    ensures lines[j].Code? ==> CountBefore(lines, j + 1) == CountBefore(lines, j) + 1
  {
    assert lines[..j + 1][..j] == lines[..j];
    CommandsPrefix(lines, j + 1);
  }

  /** A name is in the symbol table exactly when some line defines it. */
  lemma {:induction false} LabelsDefined(lines: seq<SourceLine>, name: string)
    ensures name in Labels(lines) <==> exists j | 0 <= j < |lines| :: lines[j] == LabelDef(name)
  {
    if |lines| > 0 {
      var init := lines[..|lines| - 1];
      LabelsDefined(init, name);
      assert forall j | 0 <= j < |init| :: init[j] == lines[j];
    }
  }

  /** A name maps to the number of statements before its last definition. */
  lemma {:induction false} LabelsLast(lines: seq<SourceLine>, name: string, j: nat)
    requires j < |lines| && lines[j] == LabelDef(name)
    requires forall k | j < k < |lines| :: lines[k] != LabelDef(name)
    ensures name in Labels(lines) && Labels(lines)[name] == CountBefore(lines, j)
  {
    var init := lines[..|lines| - 1];
    if j == |lines| - 1 {
      assert lines[..j] == init;
    } else {
      LabelsLast(init, name, j);
      assert init[..j] == lines[..j];
    }
  }

  // ---------------------------------------------------------------------------
  // Label substitution (replace_label)

  /** A line whose first word replace_label treats as a branch. */
  predicate BranchWord(words: seq<Token>)
  {
    |words| > 0 && (words[0].text == "bnez" || words[0].text == "beqz")
  }

  /** A line whose first word replace_label treats as a jump. */
  predicate JumpWord(words: seq<Token>)
  {
    |words| > 0 && words[0].text == "j"
  }

  /**
   * replace_label indexes past the end of a split (IndexError, which it does
   * not catch): a line with no word, a branch with no field 2, a j with no
   * word 1. A line some pattern matches always has those fields.
   */
  predicate MissingOperand(s: Stmt)
  {
    s.Unrecognised? &&
    (|s.words| == 0 || (BranchWord(s.words) && |s.pieces| < 3) || (JumpWord(s.words) && |s.words| < 2))
  }

  /**
   * The name replace_label looks up, if any: the target of a bnez/beqz that
   * int(text, 0) cannot read, or the target of a j that int(text) cannot read.
   * On a line no pattern matches, these are field 2 of re.split(",| ", line)
   * and word 1 of line.split().
   */
  function LabelRef(s: Stmt): Option<string>
  {
    match s
    case Instr(m, RegDest(_, t)) =>
      if (m == Bnez || m == Beqz) && t.auto.None? then Some(t.text) else None
    case Instr(m, Dest(t)) => if m == J && t.decimal.None? then Some(t.text) else None
    case Unrecognised(words, pieces, _) =>
      if BranchWord(words) && |pieces| >= 3 && pieces[2].auto.None? then Some(pieces[2].text)
      else if JumpWord(words) && |words| >= 2 && words[1].decimal.None? then Some(words[1].text)
      else None
    case _ => None
  }

  /**
   * replace_label(line, labels, pc): a branch's symbolic target becomes the
   * offset labels[name] - pc, a jump's the absolute labels[name]; every
   * other line is left alone. An undefined name raises KeyError, a missing
   * field IndexError.
   *
   * A branch is rewritten to line.split(',')[0] + "," + str(offset), which a
   * branch pattern matches exactly when headReg is known; a jump to
   * "j " + str(address), which the j pattern always matches. A branch line
   * that still matches no pattern afterwards stays the same unrecognised
   * statement.
   */
  function ReplaceLabel(s: Stmt, labels: map<string, nat>, pc: int): (r: Result<Stmt>)
    ensures r.Err? <==> MissingOperand(s) || (LabelRef(s).Some? && LabelRef(s).value !in labels)
    ensures r.Err? ==> r.error == if MissingOperand(s) then IndexError else KeyError(LabelRef(s).value)
    ensures r.Ok? && LabelRef(s).None? ==> r.value == s
    ensures r.Ok? && LabelRef(s).Some? ==>
      (r.value.Instr? && LabelRef(r.value).None?) || (s.Unrecognised? && s.headReg.None? && r.value == s)
  {
    match s
    case Instr(m, RegDest(rs, t)) =>
      if (m == Bnez || m == Beqz) && t.auto.None? then
        if t.text in labels then Ok(Instr(m, RegDest(rs, Numeral(labels[t.text] - pc))))
        else Err(KeyError(t.text))
      else Ok(s)
    case Instr(m, Dest(t)) =>
      if m == J && t.decimal.None? then
        if t.text in labels then Ok(Instr(J, Dest(Numeral(labels[t.text])))) else Err(KeyError(t.text))
      else Ok(s)
    case Unrecognised(words, _, _) =>
      if |words| == 0 then Err(IndexError)
      else if BranchWord(words) then SubstituteBranch(s, labels, pc)
      else if JumpWord(words) then SubstituteJump(s, labels, pc)
      else Ok(s)
    case _ => Ok(s)
  }

  /** The mnemonic of a branch line's first word. */
  function BranchMnemonic(words: seq<Token>): Mnemonic
    requires BranchWord(words)
  {
    if words[0].text == "bnez" then Bnez else Beqz
  }

  /** replace_label's bnez/beqz case on a line no pattern matches. */
  function SubstituteBranch(s: Stmt, labels: map<string, nat>, pc: int): Result<Stmt>
    requires s.Unrecognised? && BranchWord(s.words)
  {
    if |s.pieces| < 3 then Err(IndexError)
    else if s.pieces[2].auto.Some? then Ok(s)
    else if s.pieces[2].text !in labels then Err(KeyError(s.pieces[2].text))
    else if s.headReg.None? then Ok(s)
    else Ok(Instr(BranchMnemonic(s.words), RegDest(s.headReg.value, Numeral(labels[s.pieces[2].text] - pc))))
  }

  /** replace_label's j case on a line no pattern matches. */
  function SubstituteJump(s: Stmt, labels: map<string, nat>, pc: int): Result<Stmt>
    requires s.Unrecognised? && JumpWord(s.words)
  {
    if |s.words| < 2 then Err(IndexError)
    else if s.words[1].decimal.Some? then Ok(s)
    else if s.words[1].text in labels then Ok(Instr(J, Dest(Numeral(labels[s.words[1].text]))))
    else Err(KeyError(s.words[1].text))
  }

  /**
   * A defined name is replaced by its address: for j the address itself, for
   * a branch the offset from the branch's own address pc.
   */
  lemma ReplaceLabelTarget(s: Stmt, labels: map<string, nat>, pc: int)
    requires LabelRef(s).Some? && LabelRef(s).value in labels
    ensures s.Instr? || s.Unrecognised?
    ensures s.Instr? ==> s.mnemonic == J || (s.mnemonic in {Bnez, Beqz} && s.ops.RegDest?)
    ensures s.Instr? && s.mnemonic == J ==>
      ReplaceLabel(s, labels, pc) == Ok(Instr(J, Dest(Numeral(labels[LabelRef(s).value]))))
    ensures s.Instr? && s.mnemonic != J ==>
      ReplaceLabel(s, labels, pc) == Ok(Instr(s.mnemonic, RegDest(s.ops.rs, Numeral(labels[LabelRef(s).value] - pc))))
  {
    match s
    case Instr(m, ops) =>
      if ops.Dest? {
        assert m == J && LabelRef(s) == Some(ops.target.text);
      } else {
        assert ops.RegDest? && m in {Bnez, Beqz} && LabelRef(s) == Some(ops.target.text);
      }
    case Unrecognised(_, _, _) =>
    case WordDirective(_) =>
  }

  /**
   * On a line no pattern matches, substitution can make one: a j becomes
   * `j address`, and a branch whose text before the first comma reads
   * `bnez $r` becomes `bnez $r,offset`; any other branch stays unrecognised.
   */
  lemma UnrecognisedLabelTarget(s: Stmt, labels: map<string, nat>, pc: int)
    requires s.Unrecognised? && LabelRef(s).Some? && LabelRef(s).value in labels
    ensures JumpWord(s.words) ==> ReplaceLabel(s, labels, pc) == Ok(Instr(J, Dest(Numeral(labels[LabelRef(s).value]))))
    ensures BranchWord(s.words) && s.headReg.Some? ==>
      ReplaceLabel(s, labels, pc) == Ok(Instr(BranchMnemonic(s.words), RegDest(s.headReg.value, Numeral(labels[LabelRef(s).value] - pc))))
    ensures BranchWord(s.words) && s.headReg.None? ==> ReplaceLabel(s, labels, pc) == Ok(s)
    ensures BranchWord(s.words) || JumpWord(s.words)
  {
    if JumpWord(s.words) {
      assert !BranchWord(s.words) && LabelRef(s) == Some(s.words[1].text);
      assert ReplaceLabel(s, labels, pc) == SubstituteJump(s, labels, pc);
    } else {
      assert BranchWord(s.words) && LabelRef(s) == Some(s.pieces[2].text);
      assert ReplaceLabel(s, labels, pc) == SubstituteBranch(s, labels, pc);
    }
  }

  /** A word no int() reading accepts, such as a label or a register. */
  function Plain(text: string): (t: Token)
    ensures t.text == text && t.auto.None? && t.decimal.None?
  {
    Token(text, None, None)
  }

  /** `bnez $1, loop` as replace_label reads it. */
  function SpacedBranch(): Stmt
  {
    Unrecognised([Plain("bnez"), Plain("$1,"), Plain("loop")], [Plain("bnez"), Plain("$1"), Plain(""), Plain("loop")], Some(1))
  }

  /**
   * `bnez $1, loop` matches no pattern, yet replace_label reads it: the space
   * after the comma leaves field 2 of re.split(",| ") empty, so the name
   * looked up is the empty string, which only a bare ":" line defines; with
   * it defined, UnrecognisedLabelTarget turns the line into `bnez $1,offset`.
   */
  lemma SpacedBranchExample(labels: map<string, nat>, pc: int)
    ensures LabelRef(SpacedBranch()) == Some("")
    ensures "" !in labels ==> ReplaceLabel(SpacedBranch(), labels, pc) == Err(KeyError(""))
  {
    assert SpacedBranch().words[0].text == "bnez" && SpacedBranch().pieces[2] == Plain("");
  }

  /** `beqz r1,foo`: foo is still looked up, and the line emits nothing once it is found. */
  lemma UnprefixedBranchExample(labels: map<string, nat>, pc: int)
    ensures var s := Unrecognised([Plain("beqz"), Plain("r1,foo")], [Plain("beqz"), Plain("r1"), Plain("foo")], None);
      ("foo" !in labels ==> ReplaceLabel(s, labels, pc) == Err(KeyError("foo"))) &&
      ("foo" in labels ==> AssembleLine(s, labels, pc) == Ok(None))
  {
  }

  /** `bnez foo` has no field 2 and a bare `j` no word 1: both raise IndexError. */
  lemma MissingOperandExamples(labels: map<string, nat>, pc: int)
    ensures ReplaceLabel(Unrecognised([Plain("bnez"), Plain("foo")], [Plain("bnez"), Plain("foo")], None), labels, pc) == Err(IndexError)
    ensures ReplaceLabel(Unrecognised([Plain("j")], [Plain("j")], None), labels, pc) == Err(IndexError)
  {
  }

  /** Substituting labels a second time changes nothing. */
  lemma ReplaceLabelIdempotent(s: Stmt, labels: map<string, nat>, pc: int, pc': int)
    requires ReplaceLabel(s, labels, pc).Ok?
    ensures ReplaceLabel(ReplaceLabel(s, labels, pc).value, labels, pc') == ReplaceLabel(s, labels, pc)
  {
  }

  // ---------------------------------------------------------------------------
  // Encoding (process_rtype, process_itype, process_jtype, the .word branch)

  /** convert_twos_compliment(text, n) read back with int(): a failed parse gives 0. */
  function Wrapped(t: Token, n: nat): (v: nat)
    ensures v < Pow2(n)
    ensures t.auto.Some? ==> (t.auto.value - v) % Pow2(n) == 0
    ensures t.auto.None? ==> v == 0
  {
    ToTwos(t.auto, n).GetOr(0)
  }

  /** process_rtype: the three register numbers. */
  function RTypeFields(rd: nat, rs: nat, rt: nat): (args: seq<int>)
    ensures |args| == 3 && args[0] == rd && args[1] == rs && args[2] == rt
  {
    [rd, rs, rt]
  }

  /** process_itype: the registers and the immediate, which int(imm, 0) must read. */
  function ITypeFields(rd: nat, rs: nat, imm: Token): (r: Result<seq<int>>)
    ensures r.Ok? <==> imm.auto.Some?
    ensures r.Err? ==> r.error == ValueError
    ensures r.Ok? ==> r.value == [rd, rs, imm.auto.value]
  {
    match imm.auto
    case None => Err(ValueError)
    case Some(v) => Ok([rd, rs, v])
  }

  /**
   * process_jtype: lw/sw put the destination, the base register and the
   * offset wrapped to 20 bits; j its target wrapped to 16 bits; bnez/beqz the
   * register and the offset wrapped to 20 bits.
   */
  function JTypeFields(ops: Operands): (args: seq<int>)
    requires ops.RegOffset? || ops.Dest? || ops.RegDest?
    ensures |args| == |ShapeWidths(OperandShape(ops))|
    ensures ops.Dest? ==> args[0] == Wrapped(ops.target, OffsetLength) && args[0] < Pow2(OffsetLength)
    ensures ops.RegOffset? ==>
      args[0] == ops.rd && args[1] == ops.base && args[2] == Wrapped(ops.offset, JumpLength) && args[2] < Pow2(JumpLength)
    ensures ops.RegDest? ==> args[0] == ops.rs && args[1] == Wrapped(ops.target, JumpLength) && args[1] < Pow2(JumpLength)
  {
    match ops
    case RegOffset(rd, offset, base) => [rd, base, Wrapped(offset, JumpLength)]
    case Dest(target) => [Wrapped(target, OffsetLength)]
    case RegDest(rs, target) => [rs, Wrapped(target, JumpLength)]
  }

  /** The operand values an instruction line hands to its table entry's format. */
  function OperandFields(ops: Operands): (r: Result<seq<int>>)
    ensures r.Ok? ==> |r.value| == |ShapeWidths(OperandShape(ops))|
  {
    match ops
    case Regs(rd, rs, rt) => Ok(RTypeFields(rd, rs, rt))
    case RegsImm(rd, rs, imm) => ITypeFields(rd, rs, imm)
    case _ => Ok(JTypeFields(ops))
  }

  /** The `.word` branch: bin(int(t, 0))[2:] read back in base 2, where a negative value leaves a 'b' that int() rejects. */
  function EncodeWord(t: Token): Result<Option<seq<byte>>>
  {
    match t.auto
    case None => Err(ValueError)
    case Some(v) =>
      if v < 0 then Err(ValueError)
      else
        match ToBytes(v)
        case Err(e) => Err(e)
        case Ok(b) => Ok(Some(b))
  }

  /**
   * The encoding step of the assembler's loop for one line after label
   * substitution: a `.word v` becomes the bytes of v; a line that matches a
   * table entry becomes the bytes of its packed word; any other line emits
   * nothing (None). Errors are the exceptions that abort the source.
   */
  function EncodeStmt(s: Stmt): (r: Result<Option<seq<byte>>>)
    ensures r.Ok? && r.value.Some? ==> |r.value.value| == 4
    ensures r.Ok? && r.value.None? <==> s.Unrecognised? || (s.Instr? && OperandShape(s.ops) != ShapeOf(s.mnemonic))
  {
    match s
    case WordDirective(None) => Err(IndexError)
    case WordDirective(Some(t)) => EncodeWord(t)
    case Unrecognised(_, _, _) => Ok(None)
    case Instr(m, ops) =>
      FindEntryIsOnlyEntry(m, OperandShape(ops));
      match FindEntry(Table, m, OperandShape(ops))
      case None => Ok(None)
      case Some(i) =>
        EntryFacts(i);
        match OperandFields(ops)
        case Err(e) => Err(e)
        case Ok(args) =>
          match Pack(Table[i].layout, args)
          case Err(e) => Err(e)
          case Ok(v) =>
            match ToBytes(v)
            case Err(e) => Err(e)
            case Ok(b) => Ok(Some(b))
  }

  /** One iteration of the assembler's loop: substitute labels at this pc, then encode. */
  function AssembleLine(s: Stmt, labels: map<string, nat>, pc: int): Result<Option<seq<byte>>>
  {
    match ReplaceLabel(s, labels, pc)
    case Err(e) => Err(e)
    case Ok(s') => EncodeStmt(s')
  }

  function Emitted(o: Option<seq<byte>>): seq<seq<byte>>
  {
    if o.Some? then [o.value] else []
  }

  /** The outcome of each statement of cmds when the first sits at pc. */
  function Outcomes(cmds: seq<Stmt>, labels: map<string, nat>, pc: int): (outs: seq<Result<Option<seq<byte>>>>)
    ensures |outs| == |cmds|
  {
    seq(|cmds|, k requires 0 <= k < |cmds| => AssembleLine(cmds[k], labels, pc + k))
  }

  /** Gathers the emitted words in order; the first exception aborts the run. */
  function Collect(outs: seq<Result<Option<seq<byte>>>>): Result<seq<seq<byte>>>
    decreases |outs|
  {
    if |outs| == 0 then Ok([])
    else
      match outs[0]
      case Err(e) => Err(e)
      case Ok(o) =>
        match Collect(outs[1..])
        case Err(e) => Err(e)
        case Ok(rest) => Ok(Emitted(o) + rest)
  }

  /** What assembler() writes for the pre-processed statements and symbol table, pc counting from 1. */
  function Assembled(cmds: seq<Stmt>, labels: map<string, nat>): Result<seq<seq<byte>>>
  {
    Collect(Outcomes(cmds, labels, 1))
  }

  function Prepend<T>(done: seq<T>, r: Result<seq<T>>): Result<seq<T>>
  {
    match r
    case Err(e) => Err(e)
    case Ok(rest) => Ok(done + rest)
  }

  lemma PrependNothing<T>(r: Result<seq<T>>)
    ensures Prepend([], r) == r
  {
    if r.Ok? {
      assert [] + r.value == r.value;
    }
  }

  lemma PrependTwice<T>(a: seq<T>, b: seq<T>, r: Result<seq<T>>)
    ensures Prepend(a, Prepend(b, r)) == Prepend(a + b, r)
  {
    if r.Ok? {
      assert a + (b + r.value) == a + b + r.value;
    }
  }

  /**
   * The encode loop of assembler(): line inx (from 0) is substituted with
   * pc = inx + 1 and encoded; recognised lines append their four bytes.
   */
  method Assemble(commands: seq<Stmt>, labels: map<string, nat>) returns (r: Result<seq<seq<byte>>>)
    ensures r == Assembled(commands, labels)
  {
    ghost var outs := Outcomes(commands, labels, 1);
    var binInstructions: seq<seq<byte>> := [];
    assert outs[0..] == outs;
    PrependNothing(Collect(outs));
    for inx := 0 to |commands|
      invariant Prepend(binInstructions, Collect(outs[inx..])) == Collect(outs)
    {
      assert outs[inx..][1..] == outs[inx + 1..];
      var pc := inx + 1;
      var line := ReplaceLabel(commands[inx], labels, pc);
      if line.Err? {
        return Err(line.error);
      }
      var encoded := EncodeStmt(line.value);
      if encoded.Err? {
        return Err(encoded.error);
      }
      assert outs[inx] == Ok(encoded.value);
      PrependTwice(binInstructions, Emitted(encoded.value), Collect(outs[inx + 1..]));
      if encoded.value.Some? {
        binInstructions := binInstructions + [encoded.value.value];
      } else {
        assert binInstructions + Emitted(encoded.value) == binInstructions;
      }
    }
    assert outs[|commands|..] == [];
    assert binInstructions + [] == binInstructions;
    return Ok(binInstructions);
  }

  /** A `.word` line emits the four little-endian bytes of its value, and raises when the value is unreadable, negative or 2^32 or more. */
  lemma WordDirectiveBytes(t: Token)
    ensures EncodeStmt(WordDirective(Some(t))).Ok? <==> t.auto.Some? && 0 <= t.auto.value < Pow2(32)
    ensures EncodeStmt(WordDirective(Some(t))).Ok? ==>
      EncodeStmt(WordDirective(Some(t))).value.Some? && FromBytes(EncodeStmt(WordDirective(Some(t))).value.value) == t.auto.value
    ensures t.auto.None? || t.auto.value < 0 ==> EncodeStmt(WordDirective(Some(t))) == Err(ValueError)
    ensures t.auto.Some? && t.auto.value >= Pow2(32) ==> EncodeStmt(WordDirective(Some(t))) == Err(OverflowError)
  {
    assert EncodeStmt(WordDirective(Some(t))) == EncodeWord(t);
    if t.auto.Some? && t.auto.value >= 0 {
      var r := ToBytes(t.auto.value);
      assert EncodeWord(t) == if r.Ok? then Ok(Some(r.value)) else Err(r.error);
    }
  }

  /** A `.word` line with no second word raises IndexError at line.split()[1]. */
  lemma WordWithoutValue()
    ensures EncodeStmt(WordDirective(None)) == Err(IndexError)
  {
  }

  /** Every emitted word is four bytes, and there is at most one per statement. */
  lemma {:induction false} CollectWords(outs: seq<Result<Option<seq<byte>>>>)
    requires forall k | 0 <= k < |outs| :: outs[k].Ok? && outs[k].value.Some? ==> |outs[k].value.value| == 4
    ensures Collect(outs).Ok? ==> |Collect(outs).value| <= |outs| && forall k | 0 <= k < |Collect(outs).value| :: |Collect(outs).value[k]| == 4
    decreases |outs|
  {
    if |outs| > 0 {
      assert forall k | 0 <= k < |outs[1..]| :: outs[1..][k] == outs[k + 1];
      CollectWords(outs[1..]);
    }
  }

  /** The run aborts exactly when some statement raises, and with the first such exception. */
  lemma {:induction false} CollectFails(outs: seq<Result<Option<seq<byte>>>>)
    ensures Collect(outs).Err? <==> exists k | 0 <= k < |outs| :: outs[k].Err?
    ensures forall k | 0 <= k < |outs| && outs[k].Err? && (forall j | 0 <= j < k :: outs[j].Ok?) :: Collect(outs) == Err(outs[k].error)
    decreases |outs|
  {
    if |outs| > 0 {
      var tail := outs[1..];
      CollectFails(tail);
      assert forall k | 0 <= k < |tail| :: tail[k] == outs[k + 1];
      if Collect(tail).Err? {
        var k :| 0 <= k < |tail| && tail[k].Err?;
        assert outs[k + 1].Err?;
      }
      forall k | 0 < k < |outs| && outs[k].Err? && (forall j | 0 <= j < k :: outs[j].Ok?)
        ensures Collect(outs) == Err(outs[k].error)
      {
        assert outs[0].Ok?;
        assert tail[k - 1] == outs[k];
        assert forall j | 0 <= j < k - 1 :: tail[j] == outs[j + 1];
      }
    }
  }

  /** When every statement is recognised and encodes, word k is the encoding of statement k. */
  lemma {:induction false} CollectAllRecognised(outs: seq<Result<Option<seq<byte>>>>)
    requires forall k | 0 <= k < |outs| :: outs[k].Ok? && outs[k].value.Some?
    ensures Collect(outs).Ok? && |Collect(outs).value| == |outs|
    ensures forall k | 0 <= k < |outs| :: Collect(outs).value[k] == outs[k].value.value
    decreases |outs|
  {
    if |outs| > 0 {
      var tail := outs[1..];
      assert forall k | 0 <= k < |tail| :: tail[k] == outs[k + 1];
      CollectAllRecognised(tail);
    }
  }

  /** Each position moved one further on. */
  function Shift(ks: seq<nat>): seq<nat>
  {
    seq(|ks|, i requires 0 <= i < |ks| => ks[i] + 1)
  }

  lemma ShiftMember(ks: seq<nat>, k: nat)
    ensures k + 1 in Shift(ks) <==> k in ks
    ensures 0 !in Shift(ks)
  {
    if k in ks {
      var i :| 0 <= i < |ks| && ks[i] == k;
      assert Shift(ks)[i] == k + 1;
    }
  }

  /** The positions of the outcomes that emit a word, in increasing order. */
  function Kept(outs: seq<Result<Option<seq<byte>>>>): seq<nat>
    decreases |outs|
  {
    if |outs| == 0 then []
    else (if outs[0].Ok? && outs[0].value.Some? then [0] else []) + Shift(Kept(outs[1..]))
  }

  /** Kept lists positions of outs, in increasing order. */
  lemma {:induction false} KeptOrdered(outs: seq<Result<Option<seq<byte>>>>)
    ensures forall i | 0 <= i < |Kept(outs)| :: Kept(outs)[i] < |outs|
    ensures forall i, j | 0 <= i < j < |Kept(outs)| :: Kept(outs)[i] < Kept(outs)[j]
    decreases |outs|
  {
    if |outs| > 0 {
      KeptOrdered(outs[1..]);
    }
  }

  /** A position is kept exactly when its outcome is a word. */
  lemma {:induction false} KeptMembers(outs: seq<Result<Option<seq<byte>>>>)
    ensures forall k | 0 <= k < |outs| :: k in Kept(outs) <==> outs[k].Ok? && outs[k].value.Some?
    decreases |outs|
  {
    if |outs| > 0 {
      var tail := outs[1..];
      KeptMembers(tail);
      ShiftMember(Kept(tail), 0);
      forall k | 0 < k < |outs|
        ensures k in Kept(outs) <==> outs[k].Ok? && outs[k].value.Some?
      {
        ShiftMember(Kept(tail), k - 1);
        assert tail[k - 1] == outs[k];
      }
    }
  }

  /** A run that does not abort writes the words of the kept positions, in order. */
  lemma {:induction false} CollectKept(outs: seq<Result<Option<seq<byte>>>>)
    requires Collect(outs).Ok?
    ensures |Collect(outs).value| == |Kept(outs)|
    ensures forall i | 0 <= i < |Kept(outs)| ::
      Kept(outs)[i] < |outs| && outs[Kept(outs)[i]].Ok? && outs[Kept(outs)[i]].value.Some? &&
      Collect(outs).value[i] == outs[Kept(outs)[i]].value.value
    decreases |outs|
  {
    KeptOrdered(outs);
    if |outs| > 0 {
      var tail := outs[1..];
      CollectKept(tail);
      var rest, words := Kept(tail), Collect(tail).value;
      var head := Emitted(outs[0].value);
      assert Collect(outs).value == head + words;
      assert Kept(outs) == (if outs[0].value.Some? then [0] else []) + Shift(rest);
      forall i | 0 <= i < |Kept(outs)|
        ensures Kept(outs)[i] < |outs| && outs[Kept(outs)[i]].Ok? && outs[Kept(outs)[i]].value.Some?
        ensures Collect(outs).value[i] == outs[Kept(outs)[i]].value.value
      {
        if i >= |head| {
          var i' := i - |head|;
          assert Kept(outs)[i] == rest[i'] + 1;
          assert tail[rest[i']] == outs[rest[i'] + 1];
          assert Collect(outs).value[i] == words[i'];
        }
      }
    }
  }

  /** The lines of cmds that emit a word, in source order. */
  function EmittingLines(cmds: seq<Stmt>, labels: map<string, nat>): seq<nat>
  {
    Kept(Outcomes(cmds, labels, 1))
  }

  /**
   * The program is exactly the words of the lines that emit one, in source
   * order: line k is substituted at pc = k + 1 whether or not an earlier
   * line was skipped as unrecognised.
   */
  lemma AssembledRecognised(cmds: seq<Stmt>, labels: map<string, nat>)
    ensures forall i, j | 0 <= i < j < |EmittingLines(cmds, labels)| :: EmittingLines(cmds, labels)[i] < EmittingLines(cmds, labels)[j]
    ensures forall k | 0 <= k < |cmds| ::
      k in EmittingLines(cmds, labels) <==> AssembleLine(cmds[k], labels, k + 1).Ok? && AssembleLine(cmds[k], labels, k + 1).value.Some?
    ensures Assembled(cmds, labels).Ok? ==>
      |Assembled(cmds, labels).value| == |EmittingLines(cmds, labels)| &&
      forall i | 0 <= i < |EmittingLines(cmds, labels)| ::
        EmittingLines(cmds, labels)[i] < |cmds| &&
        Assembled(cmds, labels).value[i] == AssembleLine(cmds[EmittingLines(cmds, labels)[i]], labels, EmittingLines(cmds, labels)[i] + 1).value.value
  {
    var outs := Outcomes(cmds, labels, 1);
    assert forall k | 0 <= k < |cmds| :: outs[k] == AssembleLine(cmds[k], labels, k + 1);
    KeptOrdered(outs);
    KeptMembers(outs);
    if Collect(outs).Ok? {
      CollectKept(outs);
    }
  }

  /** Every word of an assembled program is four bytes, at most one per statement. */
  lemma AssembledWords(cmds: seq<Stmt>, labels: map<string, nat>)
    ensures Assembled(cmds, labels).Ok? ==>
      |Assembled(cmds, labels).value| <= |cmds| &&
      forall k | 0 <= k < |Assembled(cmds, labels).value| :: |Assembled(cmds, labels).value[k]| == 4
  {
    CollectWords(Outcomes(cmds, labels, 1));
  }

  /** With every statement recognised, word k of the program encodes statement k at pc = k + 1. */
  lemma AssembledInOrder(cmds: seq<Stmt>, labels: map<string, nat>)
    requires forall k | 0 <= k < |cmds| :: AssembleLine(cmds[k], labels, k + 1).Ok? && AssembleLine(cmds[k], labels, k + 1).value.Some?
    ensures Assembled(cmds, labels).Ok? && |Assembled(cmds, labels).value| == |cmds|
    ensures forall k | 0 <= k < |cmds| :: Assembled(cmds, labels).value[k] == AssembleLine(cmds[k], labels, k + 1).value.value
  {
    CollectAllRecognised(Outcomes(cmds, labels, 1));
  }

  /** The whole assembler on in-memory lines: the pre-pass, then the encode loop. */
  method AssembleProgram(lines: seq<SourceLine>) returns (r: Result<seq<seq<byte>>>)
    ensures r == Assembled(Commands(lines), Labels(lines))
  {
    var labels, commands := PreProcess(lines);
    r := Assemble(commands, labels);
  }
}
