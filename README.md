# WRAMP assembler and disassembler, modelled in Dafny

This project models the two tools of the WRAMP toolchain, `assembler.py` and
`disassembler.py`, and proves what they promise each other.

**Assembler.** A pre-pass (`pre_process`) drops blank and comment lines. It
records every label at the current instruction number and keeps every other
line. The encode loop then takes each kept line at pc = index + 1. It
substitutes labels (`replace_label`). A `.word` value is written as four
little-endian bytes. Any other line goes through the instruction table and its
bit format. The result is packed into a 32-bit word and serialised as four
little-endian bytes (`convert_to_bin`).

**Disassembler.** The image is read four bytes at a time. Each word is matched
against the table's bit patterns and printed as a line of assembly. A word that
matches nothing becomes a `.word` line. Branch and jump targets are collected
into a list. The list is sorted. Every line whose last comma-separated field is
a non-zero integer has that field replaced by `L<rank>`. Then one `L<rank>:`
definition line is inserted per collected target.

Module layout:

- `Base`: `Option`, `Result` and the Python exceptions the tools can raise.
- `Arith`: powers of two, bit slicing and the binary length of a number.
- `Codec`: two's complement at a field width, both directions, and the
  4-byte little-endian word.
- `Text`: decimal and hexadecimal printing, `int()` of a decimal string, and
  `rsplit(',', 1)`.
- `Isa`: layouts, made of fixed bit segments and variable fields. Packing is
  `str.format` followed by `int(_, 2)`. Matching and unpacking is the regex
  over the 32 binary digits.
- `IsaTable`: the fifteen-entry instruction table, and proofs that it is
  unambiguous.
- `Assembler` and `Disassembler`: the two tools. Each loop of the source is a
  method, proved against a function.
- `RoundTrip`: assembling and then disassembling, one instruction at a time
  and for a whole program. It also holds concrete encodings.

Behaviour of the code worth knowing:

- The instruction table is a Python set. `IsaTable.TableUnambiguous` and
  `IsaTable.FindEntryIsOnlyEntry` show that its iteration order cannot change
  a result.
- The disassembler decodes a short trailing chunk of the image as a word.
- Every collected target gets its own `L<k>:` line, repeated targets
  included. A rewritten operand always names the first rank of its value.
- A `j` line has no comma, so its operand is never rewritten. Its target
  still gets a label definition.
- The I-type immediate is printed unsigned.
- The assembler rejects a negative I-type immediate with `ValueError`, since
  `{:016b}` prints a '-'. It does not wrap the immediate.
- A register number of 16 or more widens its field.
- A `j` target is wrapped to 16 bits (`OFFSET_LENGTH`). Branch and memory
  offsets are wrapped to 20 bits (`JUMP_LENGTH`).
- Label substitution runs before a line is matched against the table. A line
  that begins with `bnez`, `beqz` or `j` but matches no pattern is still
  read: it can abort the run with `KeyError` or `IndexError`
  (`bnez $1, loop` looks up the empty name), or turn into a recognised
  branch or jump.
- An unrecognised line emits nothing, but it still counts towards the pc of
  the lines after it.
- An I-type line with a non-zero immediate that is not also a target makes the
  label rewrite raise `ValueError`.
- The fallback line is `".word 0x" + hex(w)`, so it begins `.word 0x0x`.

## Model

| member | source | states |
|---|---|---|
| Codec.ToTwos | assembler.py:30-36 | convert_twos_compliment: `None` exactly when `int(text, 0)` fails. Otherwise an n-bit value congruent to the operand modulo 2^n. |
| Codec.FromTwos | disassembler.py:28-35 | The signed reading of an n-bit field lies in [-2^(n-1), 2^(n-1)). It is negative exactly when the top bit is set, and differs from the field by 0 or 2^n. |
| Codec.FromTwosOfToTwos | assembler.py:30-36 | Every value within n signed bits, wrapped by the assembler, is read back unchanged by the disassembler's signed reading. |
| Codec.ToTwosOfFromTwos | disassembler.py:28-35 | Every n-bit field, read signed and wrapped again, is the same field. |
| Codec.FromBytes | disassembler.py:137 | `int.from_bytes(b, 'little')` is below 2^(8·len b). |
| Codec.ToBytes | assembler.py:40-44 | convert_to_bin: succeeds exactly below 2^32, with four bytes that read back to the value. Otherwise `OverflowError`. |
| Codec.ToBytesOfFromBytes | assembler.py:40-44 | Four bytes read as a word and serialised again are the same four bytes. |
| Codec.BytesInjective | disassembler.py:137 | Two byte strings of one length with the same little-endian value are equal. |
| Text.ParseDecimalOfDec | disassembler.py:21-26 | `is_int(str(n))` reads back n, for every integer n. |
| Text.RSplitComma | disassembler.py:170 | `rsplit(',', 1)` yields a head and a last field that rejoin to the line, with no comma in the last field. |
| Text.RSplitCommaOfJoin | disassembler.py:173-179 | A line `head,last` with no comma in `last` splits back into `head` and `last`. |
| Text.NoCommaInDec | disassembler.py:170 | A printed integer holds no comma. |
| Isa.UnpackOfPack | assembler.py:109-128 | Operands that fit their fields pack into a word below 2^width that matches the layout's bit pattern and unpacks to those operands. |
| Isa.PackOfUnpack | disassembler.py:97-116 | A word that matches a layout is exactly the packing of its unpacked fields, and the fields fit. |
| Isa.FixedAt | disassembler.py:97-116 | Each fixed segment of a matching word is found at its bit offset. |
| IsaTable.EntryFacts | assembler.py:109-128 | Every table layout is well formed and 32 bits wide, with the fields its operand shape fills. Its top four bits are a fixed opcode, and R- and I-type layouts carry a fixed selector in bits 19-16. |
| IsaTable.KeysDistinct | disassembler.py:97-116 | No two entries share opcode and selector. |
| IsaTable.TableUnambiguous | disassembler.py:139-149 | No word matches two entries, so the iteration order of the set cannot matter. |
| IsaTable.FirstMatch | disassembler.py:139-149 | The first entry whose pattern matches, with none before it matching. `None` exactly when no entry matches. |
| IsaTable.FirstMatchIsOnlyMatch | disassembler.py:139-149 | The first match is entry i exactly when the word matches entry i. |
| IsaTable.FindEntry | assembler.py:205-215 | The first entry with the line's mnemonic and operand shape, none before it. `None` exactly when there is none. |
| IsaTable.FindEntryIsOnlyEntry | assembler.py:205-215 | A line finds its mnemonic's one row when written in that mnemonic's shape, and no row otherwise. |
| IsaTable.Row | assembler.py:109-128 | Each mnemonic has a row holding it, with its own shape. |
| IsaTable.RowInverse | assembler.py:109-128 | Distinct rows hold distinct mnemonics. |
| IsaTable.Decode | disassembler.py:137-149 | A decoded word names a row, with one field per field of its shape, each within its width. `None` exactly when no entry matches. |
| IsaTable.DecodeOfPack | disassembler.py:97-116 | Operands that fit a row pack into a 32-bit word that decodes to that row and those operands. |
| IsaTable.PackOfDecode | disassembler.py:97-116 | A decoded word is below 2^32 and is the packing of its decoded fields, which fit. |
| IsaTable.RFormat | assembler.py:111-115 | R-type words are `rd<<24 + rs<<20 + sel<<16 + rt`. |
| IsaTable.IFormat | assembler.py:117-121 | I-type words are `1<<28 + rd<<24 + rs<<20 + sel<<16 + imm`. |
| IsaTable.INegative | assembler.py:73 | A negative I-type immediate raises `ValueError`. |
| IsaTable.MemFormat | assembler.py:123-124 | lw/sw words are `opcode<<28 + rd<<24 + base<<20 + offset`. |
| IsaTable.JumpFormat | assembler.py:125 | j words are `0x40000000 + target`. |
| IsaTable.BranchFormat | assembler.py:126-127 | bnez/beqz words are `opcode<<28 + rs<<20 + offset`, with bits 27-24 zero. |
| Assembler.Numeral | assembler.py:172 | The text written is `str(v)`, and both the `int(_, 0)` and the `int()` readings of the rewritten operand are v. |
| Assembler.NumeralReadsBack | assembler.py:172-178 | Reading the written text `str(v)` back with `int()` gives the value the rewritten line carries. |
| Assembler.PreProcess | assembler.py:131-153 | The pre-pass loop builds the specified symbol table and statement list. |
| Assembler.CommandsInOrder | assembler.py:139-152 | The statement on line j is command number CountBefore(j). Non-statement lines add no command. |
| Assembler.LabelsDefined | assembler.py:146-148 | A name is in the symbol table exactly when some line defines it. |
| Assembler.LabelsLast | assembler.py:146-148 | A name maps to the number of statements before its last definition. |
| Assembler.ReplaceLabel | assembler.py:163-180 | `IndexError` exactly when the line lacks the field replace_label reads. `KeyError(name)` exactly when a branch or jump names an undefined label. A line with no name to look up is unchanged. Otherwise the result is an instruction with no symbolic target left, or an unrecognised branch left as it was. |
| Assembler.ReplaceLabelTarget | assembler.py:166-178 | A defined label becomes `labels[name] - pc` in a branch and `labels[name]` in a jump. |
| Assembler.UnrecognisedLabelTarget | assembler.py:166-178 | On a line no pattern matches, a j with a defined label becomes `j labels[name]`. A branch whose text before the comma is `m $r` becomes `m $r,labels[name] - pc`. Any other branch stays unrecognised. |
| Assembler.SpacedBranchExample | assembler.py:166-171 | `bnez $1, loop` looks up the empty name, and raises `KeyError('')` when no bare `:` line defines it. |
| Assembler.UnprefixedBranchExample | assembler.py:166-172 | `beqz r1,foo` raises `KeyError('foo')` when foo is undefined, and emits nothing when it is defined. |
| Assembler.MissingOperandExamples | assembler.py:164-175 | `bnez foo` and a bare `j` raise `IndexError`. |
| Assembler.ReplaceLabelIdempotent | assembler.py:163-180 | Substituting a second time changes nothing. |
| Assembler.Wrapped | assembler.py:85-86 | The operand wrapped to n bits, congruent to it modulo 2^n. An unreadable operand gives 0. |
| Assembler.ITypeFields | assembler.py:66-74 | process_itype: `ValueError` exactly when `int(imm, 0)` fails. Otherwise rd, rs and the immediate. |
| Assembler.JTypeFields | assembler.py:76-104 | process_jtype: lw/sw give rd, base and the offset wrapped to 20 bits, in that order. j gives the target wrapped to 16 bits. bnez/beqz give rs and the offset wrapped to 20 bits. |
| Assembler.EncodeStmt | assembler.py:196-215 | An emitted word is four bytes. Nothing is emitted exactly for a line no table entry matches. |
| Assembler.WordDirectiveBytes | assembler.py:197-201 | `.word v` emits the bytes of v exactly when 0 <= v < 2^32. An unreadable or negative v raises `ValueError`; a larger one raises `OverflowError`. |
| Assembler.WordWithoutValue | assembler.py:199 | A `.word` line with no value raises `IndexError`. |
| Assembler.Assemble | assembler.py:182-219 | The encode loop returns the specified output, or the first exception. |
| Assembler.CollectFails | assembler.py:191-215 | The run aborts exactly when some line raises, with the first such exception. |
| Assembler.AssembledWords | assembler.py:204-219 | At most one four-byte word per statement. |
| Assembler.KeptOrdered | assembler.py:191-215 | The positions kept are positions of the run, in increasing order. |
| Assembler.KeptMembers | assembler.py:204-219 | A position is kept exactly when its line emits a word. |
| Assembler.CollectKept | assembler.py:191-219 | A run that does not abort writes exactly the words of the kept positions, in order. |
| Assembler.AssembledRecognised | assembler.py:191-219 | The program is exactly the words of the lines that emit one, in source order, line k encoded at pc = k + 1 whether or not earlier lines were skipped. |
| Assembler.AssembledInOrder | assembler.py:191-215 | With every line recognised, word k encodes statement k at pc = k + 1. |
| Assembler.AssembleProgram | assembler.py:186-194 | The pre-pass followed by the encode loop. |
| Disassembler.WordAt | disassembler.py:132-137 | Each chunk read, even a short last one, is a word below 2^32. |
| Disassembler.NumWordsBound | disassembler.py:132-159 | A read at byte 4n returns data exactly when n is below the word count. |
| Disassembler.DecodedAs | disassembler.py:65-93 | A line records a target exactly when it is a j or a branch. |
| Disassembler.DecodeWord | disassembler.py:139-156 | A target is recorded exactly for a j or branch word. An unmatched word prints `.word 0x0x…`. |
| Disassembler.TargetsOfMeaning | disassembler.py:85-90 | The label list holds every recorded target and nothing else. |
| Disassembler.DecodeAll | disassembler.py:129-159 | The read loop yields one line per chunk, decoded with its 0-based index, and appends each target in order. |
| Disassembler.InsertSorted | disassembler.py:163 | Inserting into a sorted list keeps it sorted and adds exactly that element. |
| Disassembler.SortAsc | disassembler.py:163 | `sorted()`: ascending, and a permutation of its input. |
| Disassembler.SortedUnique | disassembler.py:163 | Two sorted permutations of one list are equal, so the sorting algorithm cannot matter. |
| Disassembler.IndexOf | disassembler.py:173 | `list.index`: the first position of the value. `None` (ValueError) exactly when absent. |
| Disassembler.RewriteLine | disassembler.py:167-180 | The only exception it raises is `ValueError`. |
| Disassembler.RewriteNumericLast | disassembler.py:170-179 | A line ending `,str(v)` is kept when v = 0. It becomes `,L<first rank>` when v is a target, and otherwise raises `ValueError`. |
| Disassembler.RewriteKeepsRegisterLine | disassembler.py:170-171 | R-type lines are never rewritten. |
| Disassembler.RewriteKeepsMemLine | disassembler.py:170-171 | lw/sw lines are never rewritten. |
| Disassembler.RewriteKeepsJumpLine | disassembler.py:170-171 | j lines are never rewritten. |
| Disassembler.RewriteKeepsWordFallback | disassembler.py:152-156 | `.word` fallback lines are never rewritten. |
| Disassembler.RewriteBranchLine | disassembler.py:173-180 | A branch to a listed target becomes `m $rs,L<first rank>`. A branch to word 0 keeps its number. |
| Disassembler.RewriteImmediateLine | disassembler.py:170-180 | An I-type line is kept for immediate 0, renamed when the immediate is a target, and raises `ValueError` otherwise. |
| Disassembler.RewriteDecodedLine | disassembler.py:166-180 | A decoded line fails to rewrite exactly when it is I-type with a non-zero immediate that is not a target. |
| Disassembler.RewriteAll | disassembler.py:166-180 | Same length as the input, or `ValueError`. |
| Disassembler.RewriteAllSucceeds | disassembler.py:166-180 | The rewrite succeeds exactly when every line does. |
| Disassembler.RewrittenAt | disassembler.py:166-180 | A successful rewrite rewrites each line on its own. |
| Disassembler.RewriteOperands | disassembler.py:166-180 | The in-place rewrite loop returns the specified result. |
| Disassembler.PyInsert | disassembler.py:185 | `list.insert`: one element longer, and exactly a splice for an index inside the list. |
| Disassembler.InsertLabels | disassembler.py:183-186 | The insert loop inserts `L<i>:` at `targets[i] + i`, in order. |
| Disassembler.LabelAt | disassembler.py:183-186 | With sorted in-range targets, `L<i>:` stands at `targets[i] + i`. |
| Disassembler.LineAt | disassembler.py:183-186 | Line p moves down by the number of targets at or before p. |
| Disassembler.Disassemble | disassembler.py:123-186 | The whole disassembler returns the specified lines, or `ValueError`. |
| Disassembler.DisassembledLength | disassembler.py:123-186 | The output holds one line per word and one definition per recorded target. |
| Disassembler.DisassembledFails | disassembler.py:166-180 | Disassembly fails exactly when some word is I-type with a non-zero immediate that is not a target. |
| Disassembler.LabelledLabel | disassembler.py:183-186 | In the output, `L<i>:` stands at its target plus i. |
| Disassembler.LabelledLine | disassembler.py:166-186 | In the output, rewritten line k stands at k plus the number of labels at or before k. |
| Disassembler.LabelledBranch | disassembler.py:79-86 | A branch to t becomes `m $rs,L<r>`, and `L<r>:` stands at t + r. |
| Disassembler.TargetIsLabel | disassembler.py:163 | Every recorded target is in the sorted label list. |
| RoundTrip.EncodedInstr | assembler.py:205-215 | An instruction in its own shape with fitting operands emits a word that decodes to its row and operands. |
| RoundTrip.InstrWord | disassembler.py:139-149 | The disassembler prints that word as the line its mnemonic and operands make. |
| RoundTrip.RegisterRoundTrip | assembler.py:54-63 | `m $rd,$rs,$rt` comes back as itself. |
| RoundTrip.ImmediateRoundTrip | assembler.py:66-74 | `m $rd,$rs,imm` with 0 <= imm < 2^16 comes back with the same immediate. |
| RoundTrip.ImmediateNegative | assembler.py:73 | A negative immediate raises `ValueError`. |
| RoundTrip.MemRoundTrip | assembler.py:91-98 | `m $rd,off($rs)` with the offset within 20 signed bits comes back with the same offset. |
| RoundTrip.JumpRoundTrip | assembler.py:100-104 | `j t` comes back as `j (t mod 2^16)`, which is also the recorded target. |
| RoundTrip.BranchRoundTrip | assembler.py:82-89 | A branch with offset off at word c comes back as a branch to c + off + 1. |
| RoundTrip.BranchLabelRoundTrip | assembler.py:166-172 | A branch to a label, assembled at pc = c + 1, decodes at word c to a branch to the label's own word. |
| RoundTrip.JumpLabelRoundTrip | assembler.py:173-178 | A jump to a label below 2^16 decodes to a jump to the label's word. |
| RoundTrip.FlattenWords | assembler.py:222-224 | The written file of n words reads back as n words, word k being the k-th written. |
| RoundTrip.ProgramImage | assembler.py:182-224 | A fully recognised program reads back one word per statement, word k being statement k at pc = k + 1. |
| RoundTrip.ProgramBranch | disassembler.py:79-86 | In an assembled program, the label branch at statement k decodes as word k to a branch to the label's word. |
| RoundTrip.AddExample | assembler.py:111 | `add $1,$2,$3` is written `03 00 20 01`. |
| RoundTrip.AddiExample | assembler.py:117 | `addi $1,$2,5` is written `05 00 20 11`. |
| RoundTrip.LoadExample | assembler.py:123 | `lw $1,4($2)` is written `04 00 20 81`. |
| RoundTrip.JumpWrapExample | assembler.py:101 | `j 65541` comes back as `j 5`. |

## Left out

- File input and output, `main` and the command line: the assembler takes
  its lines, and the disassembler its bytes, as values. The disassembler
  returns its list of lines; joining them with `os.linesep` and the final
  newline are not modelled.
- The regular expressions that classify and split source lines
  (`WHITESPACE_PATTERN`, `COMMENT_PATTERN`, `LABEL_PATTERN`, `WORD_PATTERN`,
  the `ass_pattern` groups): a line arrives already classified. A line no
  pattern matches carries the splits replace_label reads (`line.split()`,
  `re.split(",| ", line)`) and the register of a `bnez $r` head. Each operand
  is a token carrying what `int(text, 0)` and `int(text)` make of it, so
  Python's integer-literal syntax is not modelled.
- The "Unrecognised command" message (assembler.py:217-219): such a line
  emits no word, and the message is not modelled.
- `Assembler.Numeral`: that `int(str(v), 0)` is v is taken as given, since
  `int(_, 0)` is not modelled. The `int()` reading is proved, in
  `Assembler.NumeralReadsBack`.
- `Assembler.ReplaceLabel`: an unrecognised branch line whose label is
  substituted and that still matches no pattern is kept as the same
  statement. The source rewrites its text, which only the skip message
  prints; the line emits nothing either way.
- `Assembler.ReplaceLabel`: for a recognised bnez/beqz line, the field it
  reads is taken to be the pattern's target group. The two differ only when
  the target text holds a comma or is followed by a tab.
- An `Instr` whose operands are not in its mnemonic's shape stands for no
  source line, since each pattern fixes its shape. The model encodes it as
  nothing and does not substitute labels in it.
- The `xori` entry (assembler.py:120) lacks the comma between its pattern and
  its format. As written, `COMMAND_STRUCT` then gets two arguments and
  raises `TypeError` when the module loads. The model uses the evidently
  intended entry, selector 1111.
- The module-global `LABELS` list persists across calls to `disassembler()`
  in one process. The model starts every disassembly with an empty list.
- `index == -1` (disassembler.py:175) can never hold, because `list.index`
  raises instead. The model has no such branch.
- `Disassembler.DecodeAll` takes the per-word decoder as a parameter, and
  `Disassembler.Disassemble` passes `DecodeWord`. The generic lemmas about
  the image (`ImageAt`, `Inserted`, `LabelAt`, `LineAt`) are likewise stated
  for any decoder and any label line.
- `Disassembler.RewriteLine`: its own contract states only that its one
  exception is `ValueError`. What it does to each kind of decoded line is
  stated by `RewriteNumericLast`, the `RewriteKeeps…` lemmas,
  `RewriteBranchLine`, `RewriteImmediateLine` and `RewriteDecodedLine`.
- `Disassembler.RewriteAll`: its own contract states only the length and the
  exception. Its meaning is `RewriteAllSucceeds` and `RewrittenAt`.
- The round-trip lemmas assume register numbers below 16 and operands within
  their fields. Wider operands are modelled by `Isa.Pack` but have no round
  trip, because they change the opcode bits.
