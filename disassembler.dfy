/**
 * The disassembler: the binary image is read four bytes at a time, each word
 * is matched against the instruction table and printed as a line of
 * assembly, and branch and jump targets are collected. The label pass then
 * sorts the targets, rewrites qualifying operands to `L<k>` and inserts the
 * `L<k>:` definitions.
 *
 * The module-global target list of the source is threaded here as a value.
 */
module Disassembler {
  import opened Base
  import opened Arith
  import opened Codec
  import opened Text
  import opened Isa
  import opened IsaTable

  // ---------------------------------------------------------------------------
  // Reading the image

  /** The number of read(4) calls that return data: a short trailing chunk counts as a word. */
  function NumWords(size: nat): nat
  {
    (size + 3) / 4
  }

  /** int.from_bytes of the k-th chunk, little-endian; the last chunk may hold fewer than four bytes. */
  function WordAt(data: seq<byte>, k: nat): (w: nat)
    requires k < NumWords(|data|)
    ensures w < Pow2(32)
  {
    var chunk := data[4 * k..Min(4 * k + 4, |data|)];
    Pow2Monotone(8 * |chunk|, 32);
    FromBytes(chunk)
  }

  function Min(a: int, b: int): int { if a <= b then a else b }

  /** The read at byte 4n returns the bytes of word n. */
  lemma ChunkWord(data: seq<byte>, pos: nat, n: nat)
    requires pos == 4 * n && n < NumWords(|data|)
    ensures FromBytes(data[pos..Min(pos + 4, |data|)]) == WordAt(data, n)
  {
  }

  /** A read at byte 4n returns data exactly when n is below the word count. */
  lemma NumWordsBound(size: nat, n: nat)
    ensures 4 * n < size <==> n < NumWords(size)
  {
  }

  // ---------------------------------------------------------------------------
  // Decoding one word (process_rtype_command, process_itype_command, process_jtype_command)

  /** The text of a decoded line and, for j, bnez and beqz, the target it records. */
  datatype DecodedLine = DecodedLine(text: string, target: Option<int>)

  /** A line whose last operand follows its last comma. */
  function WithLast(head: string, last: string): string
  {
    head + "," + last
  }

  /** process_rtype_command: `m $rd,$rs,$rt`. */
  function RTypeCommand(m: Mnemonic, rd: nat, rs: nat, rt: nat): string
  {
    WithLast(Name(m) + " $" + Dec(rd) + ",$" + Dec(rs), "$" + Dec(rt))
  }

  /** process_itype_command: `m $rd,$rs,imm` with the immediate read unsigned. */
  function ITypeCommand(m: Mnemonic, rd: nat, rs: nat, imm: nat): string
  {
    WithLast(Name(m) + " $" + Dec(rd) + ",$" + Dec(rs), Dec(imm))
  }

  /** The lw/sw branch of process_jtype_command: `m $rd,offset($rs)` with a signed offset. */
  function MemCommand(m: Mnemonic, rd: nat, rs: nat, offset: int): string
  {
    WithLast(Name(m) + " $" + Dec(rd), Dec(offset) + "($" + Dec(rs) + ")")
  }

  /** The j branch of process_jtype_command: `j target`, the target absolute and unsigned. */
  function JumpCommand(target: nat): string
  {
    "j " + Dec(target)
  }

  /** The bnez/beqz branch of process_jtype_command: `m $rs,target` with an absolute target. */
  function BranchCommand(m: Mnemonic, rs: nat, target: int): string
  {
    WithLast(Name(m) + " $" + Dec(rs), Dec(target))
  }

  /** ".word 0x" + str(hex(w)): the prefix comes out twice. */
  function WordFallback(w: nat): string
  {
    ".word 0x" + Hex(w)
  }

  /** One field per field of shape sh, and the 20-bit signed fields within their width. */
  predicate FieldsFit(sh: Shape, fs: seq<nat>)
  {
    |fs| == |ShapeWidths(sh)| &&
    (sh == RegOffsetBase ==> fs[2] < Pow2(20)) &&
    (sh == RegTarget ==> fs[1] < Pow2(20))
  }

  /**
   * The line process_*_command prints for a word that matched a table entry
   * of mnemonic m and shape sh, with fields fs, at index lineNum: a
   * branch's target is lineNum + offset + 1.
   */
  function DecodedAs(m: Mnemonic, sh: Shape, fs: seq<nat>, lineNum: int): (d: DecodedLine)
    requires FieldsFit(sh, fs)
    ensures d.target.Some? <==> sh in {Target, RegTarget}
  {
    match sh
    case ThreeRegs => DecodedLine(RTypeCommand(m, fs[0], fs[1], fs[2]), None)
    case TwoRegsImm => DecodedLine(ITypeCommand(m, fs[0], fs[1], fs[2]), None)
    case RegOffsetBase => DecodedLine(MemCommand(m, fs[0], fs[1], FromTwos(fs[2], 20)), None)
    case Target => DecodedLine(JumpCommand(fs[0]), Some(fs[0]))
    case RegTarget =>
      var target := lineNum + (FromTwos(fs[1], 20) + 1);
      DecodedLine(BranchCommand(m, fs[0], target), Some(target))
  }

  /**
   * One iteration of the decode loop for the word at index lineNum: the
   * matching table entry prints the line; a word that matches nothing
   * becomes a `.word` line.
   */
  function DecodeWord(w: nat, lineNum: int): (d: DecodedLine)
    ensures d.target.Some? <==> Decode(w).Some? && Table[Decode(w).value.row].shape in {Target, RegTarget}
    ensures Decode(w).None? ==> d.text == WordFallback(w)
  {
    match Decode(w)
    case None => DecodedLine(WordFallback(w), None)
    case Some(Decoded(i, fs)) =>
      DecodedFits(w);
      DecodedAs(Table[i].mnemonic, Table[i].shape, fs, lineNum)
  }

  /** The fields Decode returns fit the line printer of their entry's shape. */
  lemma DecodedFits(w: nat)
    requires Decode(w).Some?
    ensures FieldsFit(Table[Decode(w).value.row].shape, Decode(w).value.fields)
  {
    FieldsFitOfWidths(Table[Decode(w).value.row].shape, Decode(w).value.fields);
  }

  lemma FieldsFitOfWidths(sh: Shape, fs: seq<nat>)
    requires |fs| == |ShapeWidths(sh)| && forall k | 0 <= k < |fs| :: fs[k] < Pow2(ShapeWidths(sh)[k])
    ensures FieldsFit(sh, fs)
  {
    if sh == RegOffsetBase {
      assert fs[2] < Pow2(ShapeWidths(sh)[2]);
    } else if sh == RegTarget {
      assert fs[1] < Pow2(ShapeWidths(sh)[1]);
    }
  }

  function TargetList(d: DecodedLine): seq<int>
  {
    if d.target.Some? then [d.target.value] else []
  }

  /**
   * The first n words of an image, each decoded with its 0-based index by
   * decode; the disassembler's own decoding is DecodeWord.
   */
  function Image<T>(data: seq<byte>, n: nat, decode: (nat, int) -> T): (ds: seq<T>)
    requires n <= NumWords(|data|)
    ensures |ds| == n
  {
    if n == 0 then [] else Image(data, n - 1, decode) + [decode(WordAt(data, n - 1), n - 1)]
  }

  lemma {:induction false} ImageAt<T>(data: seq<byte>, n: nat, k: nat, decode: (nat, int) -> T)
    requires k < n <= NumWords(|data|)
    ensures Image(data, n, decode)[k] == decode(WordAt(data, k), k)
  {
    if k < n - 1 {
      ImageAt(data, n - 1, k, decode);
    }
  }

  /** Every word of an image decoded with its 0-based index. */
  function DecodedImage(data: seq<byte>): (ds: seq<DecodedLine>)
    ensures |ds| == NumWords(|data|)
  {
    Image(data, NumWords(|data|), DecodeWord)
  }

  /** The text of each decoded line. */
  function Texts(ds: seq<DecodedLine>): (lines: seq<string>)
    ensures |lines| == |ds| && forall k | 0 <= k < |ds| :: lines[k] == ds[k].text
  {
    if |ds| == 0 then [] else Texts(ds[..|ds| - 1]) + [ds[|ds| - 1].text]
  }

  /** The targets decoded lines append to the label list, in order. */
  function TargetsOf(ds: seq<DecodedLine>): seq<int>
  {
    if |ds| == 0 then [] else TargetsOf(ds[..|ds| - 1]) + TargetList(ds[|ds| - 1])
  }

  /** Every recorded target is in the label list, and the list holds nothing else. */
  lemma {:induction false} TargetsOfMeaning(ds: seq<DecodedLine>)
    ensures forall k | 0 <= k < |ds| && ds[k].target.Some? :: ds[k].target.value in TargetsOf(ds)
    ensures forall t | t in TargetsOf(ds) :: exists k | 0 <= k < |ds| :: ds[k].target == Some(t)
  {
    if |ds| > 0 {
      var init := ds[..|ds| - 1];
      TargetsOfMeaning(init);
      assert forall k | 0 <= k < |init| :: init[k] == ds[k];
    }
  }

  /** Decoding word n appends its text to the lines and its target, if any, to the labels. */
  lemma ImageStep(data: seq<byte>, n: nat, decode: (nat, int) -> DecodedLine, lines: seq<string>, labels: seq<int>, d: DecodedLine)
    requires n < NumWords(|data|) && d == decode(WordAt(data, n), n)
    requires lines == Texts(Image(data, n, decode)) && labels == TargetsOf(Image(data, n, decode))
    ensures lines + [d.text] == Texts(Image(data, n + 1, decode))
    ensures (if d.target.Some? then labels + [d.target.value] else labels) == TargetsOf(Image(data, n + 1, decode))
  {
    var image := Image(data, n + 1, decode);
    assert image[..n] == Image(data, n, decode);
    assert labels + TargetList(d) == if d.target.Some? then labels + [d.target.value] else labels;
  }

  /**
   * The decode loop of disassembler(): each chunk read becomes exactly one
   * line, decoded with its 0-based index, and its target, if any, is
   * appended to the label list. The per-word dispatch is the parameter
   * decode; the disassembler passes DecodeWord.
   */
  method DecodeAll(data: seq<byte>, decode: (nat, int) -> DecodedLine) returns (lines: seq<string>, labels: seq<int>)
    ensures lines == Texts(Image(data, NumWords(|data|), decode))
    ensures labels == TargetsOf(Image(data, NumWords(|data|), decode))
  {
    lines, labels := [], [];
    var lineNum := -1;
    var pos := 0;
    while pos < |data|
      invariant pos == 4 * |lines| && |lines| <= NumWords(|data|)
      invariant lineNum == |lines| - 1
      invariant lines == Texts(Image(data, |lines|, decode))
      invariant labels == TargetsOf(Image(data, |lines|, decode))
      decreases |data| - pos
    {
      NumWordsBound(|data|, |lines|);
      lineNum := lineNum + 1;
      var chunk := data[pos..Min(pos + 4, |data|)];
      var word := FromBytes(chunk);
      ChunkWord(data, pos, lineNum);
      var decoded := decode(word, lineNum);
      ImageStep(data, lineNum, decode, lines, labels, decoded);
      lines := lines + [decoded.text];
      if decoded.target.Some? {
        labels := labels + [decoded.target.value];
      }
      pos := pos + 4;
    }
    NumWordsBound(|data|, |lines|);
    assert |lines| == NumWords(|data|);
  }

  // ---------------------------------------------------------------------------
  // Sorting the targets (sorted())

  predicate Sorted(s: seq<int>)
  {
    forall i, j | 0 <= i < j < |s| :: s[i] <= s[j]
  }

  function InsertSorted(x: int, s: seq<int>): (r: seq<int>)
    requires Sorted(s)
    ensures Sorted(r) && multiset(r) == multiset(s) + multiset{x}
    ensures |r| == |s| + 1 && (r[0] == x || (|s| > 0 && r[0] == s[0]))
  {
    if |s| == 0 then [x]
    else if x <= s[0] then
      SortedCons(x, s);
      [x] + s
    else
      SortedTail(s);
      var rest := InsertSorted(x, s[1..]);
      assert s == [s[0]] + s[1..];
      SortedCons(s[0], rest);
      [s[0]] + rest
  }

  /** A sequence stays sorted when an element no greater than its head is put in front. */
  lemma SortedCons(h: int, t: seq<int>)
    requires Sorted(t) && (|t| > 0 ==> h <= t[0])
    ensures Sorted([h] + t)
  {
    var s := [h] + t;
    forall i, j | 0 <= i < j < |s| ensures s[i] <= s[j] {
      if i == 0 && j > 1 {
        assert t[0] <= t[j - 1];
      }
    }
  }

  /** sorted(): the targets in ascending order, duplicates kept. */
  function SortAsc(xs: seq<int>): (r: seq<int>)
    ensures Sorted(r) && multiset(r) == multiset(xs)
  {
    if |xs| == 0 then []
    else
      assert xs == [xs[0]] + xs[1..];
      InsertSorted(xs[0], SortAsc(xs[1..]))
  }

  /** Any two sorted arrangements of the same targets agree, so the sorting algorithm chosen cannot matter. */
  lemma {:induction false} SortedUnique(a: seq<int>, b: seq<int>)
    requires Sorted(a) && Sorted(b) && multiset(a) == multiset(b)
    ensures a == b
  {
    assert |a| == |multiset(a)| == |multiset(b)| == |b|;
    if |a| > 0 {
      assert a[0] == b[0] by {
        assert a[0] in multiset(b);
        assert b[0] in multiset(a);
        SmallestFirst(a, b[0]);
        SmallestFirst(b, a[0]);
      }
      assert multiset(a) == multiset([a[0]]) + multiset(a[1..]) by { assert a == [a[0]] + a[1..]; }
      assert multiset(b) == multiset([b[0]]) + multiset(b[1..]) by { assert b == [b[0]] + b[1..]; }
      assert multiset(a[1..]) == multiset(b[1..]) by {
        forall y ensures multiset(a[1..])[y] == multiset(b[1..])[y] {
          assert multiset(a)[y] == multiset([a[0]])[y] + multiset(a[1..])[y];
          assert multiset(b)[y] == multiset([b[0]])[y] + multiset(b[1..])[y];
        }
      }
      SortedTail(a);
      SortedTail(b);
      SortedUnique(a[1..], b[1..]);
      assert a == [a[0]] + a[1..] && b == [b[0]] + b[1..];
    }
  }

  lemma SortedTail(s: seq<int>)
    requires Sorted(s) && |s| > 0
    ensures Sorted(s[1..])
  {
    forall i, j | 0 <= i < j < |s[1..]| ensures s[1..][i] <= s[1..][j] {
      assert s[1..][i] == s[i + 1] && s[1..][j] == s[j + 1];
    }
  }

  /** Nothing in a sorted sequence is below its first element. */
  lemma SmallestFirst(s: seq<int>, v: int)
    requires Sorted(s) && v in s
    ensures s[0] <= v
  {
  }

  // ---------------------------------------------------------------------------
  // Rewriting operands (is_int, list.index and the rewrite loop)

  /** is_int(value): int(value), or False, which counts as 0, when int() raises. */
  function IsInt(s: string): int
  {
    ParseDecimal(s).GetOr(0)
  }

  /** list.index(v): the first position of v; None stands for the ValueError. */
  function IndexOf(xs: seq<int>, v: int): (r: Option<nat>)
    ensures r.None? <==> v !in xs
    ensures r.Some? ==> r.value < |xs| && xs[r.value] == v && v !in xs[..r.value]
  {
    if |xs| == 0 then None
    else if xs[0] == v then Some(0)
    else
      match IndexOf(xs[1..], v)
      case None => None
      case Some(i) =>
        assert xs[..i + 1] == [xs[0]] + xs[1..][..i];
        Some(i + 1)
  }

  /**
   * One iteration of the rewrite loop: a line with a comma whose last
   * field is a non-zero integer has that field replaced by `L<index>`,
   * index being the value's first position in the sorted targets; a value
   * that is not a target raises ValueError. Other lines are kept.
   */
  function RewriteLine(line: string, labels: seq<int>): (r: Result<string>)
    ensures r.Err? ==> r.error == ValueError
  {
    if ',' !in line then Ok(line)
    else
      var (head, last) := RSplitComma(line);
      var value := IsInt(last);
      if value == 0 then Ok(line)
      else
        match IndexOf(labels, value)
        case None => Err(ValueError)
        case Some(index) => Ok(WithLast(head, "L" + Dec(index)))
  }

  /** The rewrite loop over all lines: every line rewritten, or the first exception. */
  function RewriteAll(lines: seq<string>, labels: seq<int>): (r: Result<seq<string>>)
    ensures r.Err? ==> r.error == ValueError
    ensures r.Ok? ==> |r.value| == |lines|
  {
    if |lines| == 0 then Ok([])
    else
      match RewriteAll(lines[..|lines| - 1], labels)
      case Err(e) => Err(e)
      case Ok(done) =>
        match RewriteLine(lines[|lines| - 1], labels)
        case Err(e) => Err(e)
        case Ok(line) => Ok(done + [line])
  }

  /** The rewrite succeeds exactly when every line does. */
  lemma {:induction false} RewriteAllSucceeds(lines: seq<string>, labels: seq<int>)
    ensures RewriteAll(lines, labels).Ok? <==> forall k | 0 <= k < |lines| :: RewriteLine(lines[k], labels).Ok?
  {
    if |lines| > 0 {
      var init := lines[..|lines| - 1];
      RewriteAllSucceeds(init, labels);
      assert forall k | 0 <= k < |init| :: init[k] == lines[k];
    }
  }

  /** A successful rewrite rewrites each line on its own. */
  lemma {:induction false} RewrittenAt(lines: seq<string>, labels: seq<int>, k: nat)
    requires RewriteAll(lines, labels).Ok? && k < |lines|
    ensures RewriteLine(lines[k], labels).Ok? && RewriteAll(lines, labels).value[k] == RewriteLine(lines[k], labels).value
  {
    var init := lines[..|lines| - 1];
    if k < |lines| - 1 {
      RewrittenAt(init, labels, k);
      assert init[k] == lines[k];
    }
  }

  /** The rewrite loop: ass_instructions[i] is overwritten in place, in order. */
  method RewriteOperands(lines: seq<string>, labels: seq<int>) returns (r: Result<seq<string>>)
    ensures r == RewriteAll(lines, labels)
  {
    var instructions := lines;
    for i := 0 to |lines|
      invariant |instructions| == |lines| && instructions[i..] == lines[i..]
      invariant RewriteAll(lines[..i], labels) == Ok(instructions[..i])
    {
      assert lines[..i + 1][..i] == lines[..i];
      var line := instructions[i];
      var newCommand := RewriteLine(line, labels);
      if newCommand.Err? {
        RewriteAllSucceeds(lines, labels);
        return Err(newCommand.error);
      }
      instructions := instructions[i := newCommand.value];
      assert instructions[..i + 1] == instructions[..i] + [newCommand.value];
    }
    assert lines[..|lines|] == lines && instructions[..|lines|] == instructions;
    return Ok(instructions);
  }

  /**
   * A line ending in `,<str(v)>`: an operand of 0 is left alone, a target
   * becomes the label of its first rank, and any other value raises.
   */
  lemma RewriteNumericLast(head: string, v: int, labels: seq<int>)
    ensures RewriteLine(WithLast(head, Dec(v)), labels) ==
      if v == 0 then Ok(WithLast(head, Dec(v)))
      else if v in labels then Ok(WithLast(head, "L" + Dec(IndexOf(labels, v).value)))
      else Err(ValueError)
  {
    NoCommaInDec(v);
    RSplitCommaOfJoin(head, Dec(v));
    ParseDecimalOfDec(v);
  }

  /** R-type lines end in `$rt`, which int() rejects: they are never rewritten. */
  lemma RewriteKeepsRegisterLine(m: Mnemonic, rd: nat, rs: nat, rt: nat, labels: seq<int>)
    ensures RewriteLine(RTypeCommand(m, rd, rs, rt), labels) == Ok(RTypeCommand(m, rd, rs, rt))
  {
    NoCommaInDec(rt);
    RewriteKeepsRegisterLast(Name(m) + " $" + Dec(rd) + ",$" + Dec(rs), Dec(rt), labels);
  }

  /** A last field `$...` without a comma is not an integer: the line is kept. */
  lemma RewriteKeepsRegisterLast(head: string, digits: string, labels: seq<int>)
    requires ',' !in digits
    ensures RewriteLine(WithLast(head, "$" + digits), labels) == Ok(WithLast(head, "$" + digits))
  {
    var last := "$" + digits;
    assert ',' !in last by { assert forall i | 1 <= i < |last| :: last[i] == digits[i - 1]; }
    RSplitCommaOfJoin(head, last);
  }

  /** lw/sw lines end in `offset($rs)`, which int() rejects: they are never rewritten. */
  lemma RewriteKeepsMemLine(m: Mnemonic, rd: nat, rs: nat, offset: int, labels: seq<int>)
    ensures RewriteLine(MemCommand(m, rd, rs, offset), labels) == Ok(MemCommand(m, rd, rs, offset))
  {
    var last := Dec(offset) + "($" + Dec(rs) + ")";
    NoCommaInDec(offset);
    NoCommaInDec(rs);
    assert ',' !in last by {
      forall i | 0 <= i < |last| ensures last[i] != ',' {
        if i < |Dec(offset)| {
          assert last[i] == Dec(offset)[i];
        } else if i >= |Dec(offset)| + 2 && i < |last| - 1 {
          assert last[i] == Dec(rs)[i - |Dec(offset)| - 2];
        }
      }
    }
    RSplitCommaOfJoin(Name(m) + " $" + Dec(rd), last);
    assert last[|Dec(offset)|] == '(';
    ParseDecimalRejects(last, |Dec(offset)|);
  }

  /** j lines hold no comma: they are never rewritten, though their target gets a label. */
  lemma RewriteKeepsJumpLine(target: nat, labels: seq<int>)
    ensures RewriteLine(JumpCommand(target), labels) == Ok(JumpCommand(target))
  {
    NoCommaInDec(target);
    assert forall i | 2 <= i < |JumpCommand(target)| :: JumpCommand(target)[i] == Dec(target)[i - 2];
  }

  /** `.word 0x0x...` lines hold no comma: they are never rewritten. */
  lemma RewriteKeepsWordFallback(w: nat, labels: seq<int>)
    ensures RewriteLine(WordFallback(w), labels) == Ok(WordFallback(w))
  {
    var digits := HexDigits(w);
    assert ',' !in digits by {
      forall i | 0 <= i < |digits| ensures digits[i] != ',' {
        assert digits[i] in "0123456789abcdef";
      }
    }
    assert WordFallback(w) == ".word 0x0x" + digits;
    assert ',' !in ".word 0x0x";
  }

  /**
   * A branch line whose target is among the labels becomes `m $rs,L<k>`, k
   * the target's first rank; a branch to word 0 keeps its number.
   */
  lemma RewriteBranchLine(m: Mnemonic, rs: nat, target: int, labels: seq<int>)
    requires target in labels
    ensures target == 0 ==> RewriteLine(BranchCommand(m, rs, target), labels) == Ok(BranchCommand(m, rs, target))
    ensures target != 0 ==>
              RewriteLine(BranchCommand(m, rs, target), labels) == Ok(WithLast(Name(m) + " $" + Dec(rs), "L" + Dec(IndexOf(labels, target).value)))
  {
    RewriteNumericLast(Name(m) + " $" + Dec(rs), target, labels);
  }

  /**
   * An I-type line is treated like a branch: a non-zero immediate that is
   * not also a target raises ValueError, one that is gets a label name.
   */
  lemma RewriteImmediateLine(m: Mnemonic, rd: nat, rs: nat, imm: nat, labels: seq<int>)
    ensures imm == 0 ==> RewriteLine(ITypeCommand(m, rd, rs, imm), labels) == Ok(ITypeCommand(m, rd, rs, imm))
    ensures imm != 0 && imm !in labels ==> RewriteLine(ITypeCommand(m, rd, rs, imm), labels) == Err(ValueError)
    ensures imm != 0 && imm in labels ==>
              RewriteLine(ITypeCommand(m, rd, rs, imm), labels) == Ok(WithLast(Name(m) + " $" + Dec(rd) + ",$" + Dec(rs), "L" + Dec(IndexOf(labels, imm).value)))
  {
    RewriteNumericLast(Name(m) + " $" + Dec(rd) + ",$" + Dec(rs), imm, labels);
  }

  /** The words whose decoded line the rewrite rejects: I-type words whose non-zero immediate is not a target. */
  predicate ImmediateNotTarget(w: nat, labels: seq<int>)
  {
    Decode(w).Some? && Table[Decode(w).value.row].shape == TwoRegsImm &&
    Decode(w).value.fields[2] != 0 && Decode(w).value.fields[2] !in labels
  }

  /** The rewrite of a decoded line fails exactly on an I-type immediate that is not a target. */
  lemma RewriteDecodedLine(w: nat, lineNum: int, labels: seq<int>)
    requires DecodeWord(w, lineNum).target.Some? ==> DecodeWord(w, lineNum).target.value in labels
    ensures RewriteLine(DecodeWord(w, lineNum).text, labels).Err? <==> ImmediateNotTarget(w, labels)
  {
    match Decode(w)
    case None => RewriteKeepsWordFallback(w, labels);
    case Some(Decoded(i, fs)) =>
      DecodedFits(w);
      RewriteDecodedAs(Table[i].mnemonic, Table[i].shape, fs, lineNum, labels);
  }

  /** The same, for the line printed from a matched entry. */
  lemma RewriteDecodedAs(m: Mnemonic, sh: Shape, fs: seq<nat>, lineNum: int, labels: seq<int>)
    requires FieldsFit(sh, fs)
    requires DecodedAs(m, sh, fs, lineNum).target.Some? ==> DecodedAs(m, sh, fs, lineNum).target.value in labels
    ensures RewriteLine(DecodedAs(m, sh, fs, lineNum).text, labels).Err? <==> sh == TwoRegsImm && fs[2] != 0 && fs[2] !in labels
  {
    match sh
    case ThreeRegs => RewriteRegistersAs(m, fs, lineNum, labels);
    case TwoRegsImm => RewriteImmediateAs(m, fs, lineNum, labels);
    case RegOffsetBase => RewriteMemAs(m, fs, lineNum, labels);
    case Target => RewriteJumpAs(m, fs, lineNum, labels);
    case RegTarget => RewriteBranchAs(m, fs, lineNum, labels);
  }

  lemma RewriteRegistersAs(m: Mnemonic, fs: seq<nat>, lineNum: int, labels: seq<int>)
    requires FieldsFit(ThreeRegs, fs)
    ensures RewriteLine(DecodedAs(m, ThreeRegs, fs, lineNum).text, labels).Ok?
  {
    RewriteKeepsRegisterLine(m, fs[0], fs[1], fs[2], labels);
  }

  lemma RewriteImmediateAs(m: Mnemonic, fs: seq<nat>, lineNum: int, labels: seq<int>)
    requires FieldsFit(TwoRegsImm, fs)
    ensures RewriteLine(DecodedAs(m, TwoRegsImm, fs, lineNum).text, labels).Err? <==> fs[2] != 0 && fs[2] !in labels
  {
    RewriteImmediateLine(m, fs[0], fs[1], fs[2], labels);
  }

  lemma RewriteMemAs(m: Mnemonic, fs: seq<nat>, lineNum: int, labels: seq<int>)
    requires FieldsFit(RegOffsetBase, fs)
    ensures RewriteLine(DecodedAs(m, RegOffsetBase, fs, lineNum).text, labels).Ok?
  {
    RewriteKeepsMemLine(m, fs[0], fs[1], FromTwos(fs[2], 20), labels);
  }

  lemma RewriteJumpAs(m: Mnemonic, fs: seq<nat>, lineNum: int, labels: seq<int>)
    requires FieldsFit(Target, fs)
    ensures RewriteLine(DecodedAs(m, Target, fs, lineNum).text, labels).Ok?
  {
    RewriteKeepsJumpLine(fs[0], labels);
  }

  lemma RewriteBranchAs(m: Mnemonic, fs: seq<nat>, lineNum: int, labels: seq<int>)
    requires FieldsFit(RegTarget, fs) && DecodedAs(m, RegTarget, fs, lineNum).target.value in labels
    ensures RewriteLine(DecodedAs(m, RegTarget, fs, lineNum).text, labels).Ok?
  {
    var target := lineNum + (FromTwos(fs[1], 20) + 1);
    assert DecodedAs(m, RegTarget, fs, lineNum).text == BranchCommand(m, fs[0], target);
    RewriteBranchLine(m, fs[0], target, labels);
  }

  // ---------------------------------------------------------------------------
  // Inserting label definitions (the insert loop)

  /** list.insert(i, x): a negative index counts from the end, and indexes are clamped to the list. */
  function PyInsert<T>(xs: seq<T>, i: int, x: T): (r: seq<T>)
    ensures |r| == |xs| + 1
    ensures 0 <= i <= |xs| ==> r == xs[..i] + [x] + xs[i..]
  {
    var n := |xs|;
    var j := if i < 0 then (if i + n < 0 then 0 else i + n) else if i > n then n else i;
    xs[..j] + [x] + xs[j..]
  }

  /** The definition line of the label of rank i. */
  function LabelLine(i: nat): string
  {
    "L" + Dec(i) + ":"
  }

  /**
   * The lines after inserting the definitions of the labels of the first k
   * targets in order, define(i) at position targets[i] + i.
   */
  function Inserted<T>(lines: seq<T>, targets: seq<int>, k: nat, define: nat -> T): (r: seq<T>)
    requires k <= |targets|
    ensures |r| == |lines| + k
  {
    if k == 0 then lines
    else PyInsert(Inserted(lines, targets, k - 1, define), targets[k - 1] + (k - 1), define(k - 1))
  }

  /** The insert loop of disassembler(). */
  method InsertLabels(lines: seq<string>, targets: seq<int>) returns (out: seq<string>)
    ensures out == Inserted(lines, targets, |targets|, LabelLine)
  {
    out := lines;
    var i := 0;
    for k := 0 to |targets|
      invariant i == k && out == Inserted(lines, targets, k, LabelLine)
    {
      InsertedStep(lines, targets, k + 1, LabelLine);
      out := PyInsert(out, targets[k] + i, LabelLine(i));
      i := i + 1;
    }
  }

  /** The number of the first k targets at or before word p. */
  function CountUpTo(targets: seq<int>, k: nat, p: int): (c: nat)
    requires k <= |targets|
    ensures c <= k
  {
    if k == 0 then 0 else CountUpTo(targets, k - 1, p) + (if targets[k - 1] <= p then 1 else 0)
  }

  /** Insertions that all land inside the list keep it to the targets' order. */
  predicate Placeable(size: nat, targets: seq<int>)
  {
    Sorted(targets) && forall i | 0 <= i < |targets| :: 0 <= targets[i] <= size
  }

  /**
   * With sorted targets that are word indexes (at most one past the last),
   * the definition of label i sits at targets[i] + i once the first k > i
   * labels are in: right before the line originally at its target, after
   * the labels of lower rank.
   */
  lemma {:induction false} LabelAt<T>(lines: seq<T>, targets: seq<int>, k: nat, i: nat, define: nat -> T)
    requires Placeable(|lines|, targets) && i < k <= |targets|
    ensures targets[i] + i < |Inserted(lines, targets, k, define)| && Inserted(lines, targets, k, define)[targets[i] + i] == define(i)
  {
    var prev := Inserted(lines, targets, k - 1, define);
    if i == k - 1 {
      InsertAt(prev, targets[i] + i, define(i));
    } else {
      LabelAt(lines, targets, k - 1, i, define);
      assert targets[i] <= targets[k - 1];
      InsertKeeps(prev, targets[k - 1] + (k - 1), define(k - 1), targets[i] + i);
    }
  }

  /** Line p of the decoded text ends up pushed down by the labels, among the first k, whose target is at or before p. */
  lemma {:induction false} LineAt<T>(lines: seq<T>, targets: seq<int>, k: nat, p: nat, define: nat -> T)
    requires Placeable(|lines|, targets) && k <= |targets| && p < |lines|
    ensures p + CountUpTo(targets, k, p) < |Inserted(lines, targets, k, define)|
    ensures Inserted(lines, targets, k, define)[p + CountUpTo(targets, k, p)] == lines[p]
  {
    if k > 0 {
      LineAt(lines, targets, k - 1, p, define);
      LineStep(lines, targets, k, p, define);
    }
  }

  /** The inductive step of LineAt: one more insertion keeps line p where the count says. */
  lemma LineStep<T>(lines: seq<T>, targets: seq<int>, k: nat, p: nat, define: nat -> T)
    requires Placeable(|lines|, targets) && 0 < k <= |targets| && p < |lines|
    requires p + CountUpTo(targets, k - 1, p) < |Inserted(lines, targets, k - 1, define)|
    requires Inserted(lines, targets, k - 1, define)[p + CountUpTo(targets, k - 1, p)] == lines[p]
    ensures p + CountUpTo(targets, k, p) < |Inserted(lines, targets, k, define)|
    ensures Inserted(lines, targets, k, define)[p + CountUpTo(targets, k, p)] == lines[p]
  {
    var t := targets[k - 1];
    if t <= p {
      AllCounted(targets, k - 1, p);
    }
    InsertedStep(lines, targets, k, define);
    CountStep(targets, k, p);
    LineShifted(Inserted(lines, targets, k - 1, define), Inserted(lines, targets, k, define), t, k - 1, define(k - 1),
                p, CountUpTo(targets, k - 1, p), CountUpTo(targets, k, p), lines[p]);
  }

  /**
   * One insertion at t + j, after j earlier ones: an element at p + c, c
   * counting the earlier targets at or before p, moves down exactly when
   * t is at or before p.
   */
  lemma LineShifted<T>(prev: seq<T>, next: seq<T>, t: int, j: nat, x: T, p: nat, c: nat, count: nat, v: T)
    requires next == PyInsert(prev, t + j, x) && 0 <= t && t + j <= |prev|
    requires c <= j && (t <= p ==> c == j) && count == c + (if t <= p then 1 else 0)
    requires p + c < |prev| && prev[p + c] == v
    ensures p + count < |next| && next[p + count] == v
  {
    PlacedAfterInsert(prev, next, t + j, x, p + c, p + count);
  }

  /** When each of the first k targets is at most p, all of them count. */
  lemma {:induction false} AllCounted(targets: seq<int>, k: nat, p: int)
    requires k < |targets| && Sorted(targets) && targets[k] <= p
    ensures CountUpTo(targets, k, p) == k
  {
    if k > 0 {
      assert targets[k - 1] <= targets[k];
      AllCounted(targets, k - 1, p);
    }
  }

  /** One more label definition is one more insertion. */
  lemma InsertedStep<T>(lines: seq<T>, targets: seq<int>, k: nat, define: nat -> T)
    requires 0 < k <= |targets|
    ensures Inserted(lines, targets, k, define) == PyInsert(Inserted(lines, targets, k - 1, define), targets[k - 1] + (k - 1), define(k - 1))
  {
  }

  /** One more target adds one to the count when it is at or before p. */
  lemma CountStep(targets: seq<int>, k: nat, p: int)
    requires 0 < k <= |targets|
    ensures CountUpTo(targets, k, p) == CountUpTo(targets, k - 1, p) + if targets[k - 1] <= p then 1 else 0
  {
  }

  /** After an insertion at position at, the element once at k is at k + 1 when at <= k, and at k otherwise. */
  lemma PlacedAfterInsert<T>(prev: seq<T>, next: seq<T>, at: nat, x: T, k: nat, moved: nat)
    requires next == PyInsert(prev, at, x) && at <= |prev| && k < |prev|
    requires moved == if at <= k then k + 1 else k
    ensures moved < |next| && next[moved] == prev[k]
  {
    if at <= k {
      InsertMoves(prev, at, x, k);
    } else {
      InsertKeeps(prev, at, x, k);
    }
  }

  /** An insertion puts its element at its position. */
  lemma InsertAt<T>(xs: seq<T>, at: nat, x: T)
    requires at <= |xs|
    ensures PyInsert(xs, at, x)[at] == x
  {
  }

  /** An insertion keeps the element before its position. */
  lemma InsertKeeps<T>(xs: seq<T>, at: nat, x: T, k: nat)
    requires k < at <= |xs|
    ensures PyInsert(xs, at, x)[k] == xs[k]
  {
  }

  /** An insertion shifts the element at or after its position by one. */
  lemma InsertMoves<T>(xs: seq<T>, at: nat, x: T, k: nat)
    requires at <= k < |xs|
    ensures PyInsert(xs, at, x)[k + 1] == xs[k]
  {
  }

  // ---------------------------------------------------------------------------
  // The whole disassembler

  /** The decoded lines of an image. */
  function DecodedLines(data: seq<byte>): (lines: seq<string>)
    ensures |lines| == NumWords(|data|)
  {
    Texts(DecodedImage(data))
  }

  /** The sorted label list of an image. */
  function SortedTargets(data: seq<byte>): seq<int>
  {
    SortAsc(TargetsOf(DecodedImage(data)))
  }

  /** The two label loops of disassembler() on the decoded lines and the sorted labels: rewrite, then insert. */
  function Labelled(lines: seq<string>, labels: seq<int>): Result<seq<string>>
  {
    match RewriteAll(lines, labels)
    case Err(e) => Err(e)
    case Ok(rewritten) => Ok(Inserted(rewritten, labels, |labels|, LabelLine))
  }

  /** What disassembler() writes, line by line: the decoded lines, rewritten, with label definitions inserted. */
  function Disassembled(data: seq<byte>): Result<seq<string>>
  {
    Labelled(DecodedLines(data), SortedTargets(data))
  }

  /** disassembler() on an in-memory image: decode, sort the targets, rewrite, insert. */
  method Disassemble(data: seq<byte>) returns (r: Result<seq<string>>)
    ensures r == Disassembled(data)
  {
    var assInstructions, labels := DecodeAll(data, DecodeWord);
    assert assInstructions == DecodedLines(data);
    assert labels == TargetsOf(DecodedImage(data));
    labels := SortAsc(labels);
    var rewritten := RewriteOperands(assInstructions, labels);
    if rewritten.Err? {
      return Err(rewritten.error);
    }
    var out := InsertLabels(rewritten.value, labels);
    return Ok(out);
  }

  /** A disassembly holds one line per word and one definition per recorded target. */
  lemma DisassembledLength(data: seq<byte>)
    ensures Disassembled(data).Ok? ==> |Disassembled(data).value| == NumWords(|data|) + |TargetsOf(DecodedImage(data))|
  {
    var labels := SortedTargets(data);
    assert |labels| == |multiset(labels)| == |TargetsOf(DecodedImage(data))|;
  }

  /**
   * A disassembly fails exactly when some word is an I-type instruction whose
   * non-zero immediate is not also a branch or jump target.
   */
  lemma DisassembledFails(data: seq<byte>)
    ensures Disassembled(data).Err? <==>
      exists k | 0 <= k < NumWords(|data|) :: ImmediateNotTarget(WordAt(data, k), SortedTargets(data))
  {
    var labels := SortedTargets(data);
    var lines := DecodedLines(data);
    RewriteAllSucceeds(lines, labels);
    forall k | 0 <= k < NumWords(|data|)
      ensures RewriteLine(lines[k], labels).Err? <==> ImmediateNotTarget(WordAt(data, k), labels)
    {
      DecodedLineFails(data, k);
    }
  }

  /** The decoded line of word k fails to rewrite exactly when it is an I-type line with a stray immediate. */
  lemma DecodedLineFails(data: seq<byte>, k: nat)
    requires k < NumWords(|data|)
    ensures RewriteLine(DecodedLines(data)[k], SortedTargets(data)).Err? <==> ImmediateNotTarget(WordAt(data, k), SortedTargets(data))
  {
    var image := DecodedImage(data);
    TargetsOfMeaning(image);
    ImageAt(data, NumWords(|data|), k, DecodeWord);
    if image[k].target.Some? {
      assert image[k].target.value in multiset(TargetsOf(image));
    }
    RewriteDecodedLine(WordAt(data, k), k, SortedTargets(data));
  }

  /** With labels that all lie within the lines, the definition `L<i>:` of the label of rank i stands at its target t plus i. */
  lemma LabelledLabel(lines: seq<string>, labels: seq<int>, i: nat, t: int)
    requires Labelled(lines, labels).Ok? && Placeable(|lines|, labels) && i < |labels| && labels[i] == t
    ensures t + i < |Labelled(lines, labels).value|
    ensures Labelled(lines, labels).value[t + i] == LabelLine(i)
  {
    LabelAt(RewriteAll(lines, labels).value, labels, |labels|, i, LabelLine);
  }

  /** With labels that all lie within the lines, line k, rewritten, stands at k plus the number of labels at or before k. */
  lemma LabelledLine(lines: seq<string>, labels: seq<int>, k: nat)
    requires Labelled(lines, labels).Ok? && Placeable(|lines|, labels) && k < |lines|
    ensures RewriteLine(lines[k], labels).Ok?
    ensures k + CountUpTo(labels, |labels|, k) < |Labelled(lines, labels).value|
    ensures Labelled(lines, labels).value[k + CountUpTo(labels, |labels|, k)] == RewriteLine(lines[k], labels).value
  {
    RewrittenAt(lines, labels, k);
    LineAt(RewriteAll(lines, labels).value, labels, |labels|, k, LabelLine);
  }

  /**
   * A branch line `m $rs,t` at index k with a non-zero target t, r its first
   * rank among the labels, becomes `m $rs,L<r>` at k plus the number of
   * labels at or before k, and `L<r>:` stands at t + r.
   */
  lemma LabelledBranch(lines: seq<string>, labels: seq<int>, k: nat, m: Mnemonic, rs: nat, t: int, r: nat)
    requires Labelled(lines, labels).Ok? && Placeable(|lines|, labels)
    requires k < |lines| && lines[k] == BranchCommand(m, rs, t) && t != 0 && IndexOf(labels, t) == Some(r)
    ensures t + r < |Labelled(lines, labels).value| && Labelled(lines, labels).value[t + r] == LabelLine(r)
    ensures k + CountUpTo(labels, |labels|, k) < |Labelled(lines, labels).value|
    ensures Labelled(lines, labels).value[k + CountUpTo(labels, |labels|, k)] == WithLast(Name(m) + " $" + Dec(rs), "L" + Dec(r))
  {
    RewriteBranchLine(m, rs, t, labels);
    LabelledLine(lines, labels, k);
    LabelledLabel(lines, labels, r, t);
  }

  /** The target of every decoded branch or jump is among the sorted labels. */
  lemma TargetIsLabel(data: seq<byte>, k: nat)
    requires k < NumWords(|data|) && DecodeWord(WordAt(data, k), k).target.Some?
    ensures DecodeWord(WordAt(data, k), k).target.value in SortedTargets(data)
  {
    var image := DecodedImage(data);
    ImageAt(data, NumWords(|data|), k, DecodeWord);
    TargetsOfMeaning(image);
    assert image[k].target.value in multiset(TargetsOf(image));
  }
}
