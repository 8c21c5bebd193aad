# FPGA branch-verification tools: assembler, branch extractor, branch table

This project models the core of `src/fpgagen.py`, a tool that prepares the
memory images for a hardware-in-the-loop test of a RISC-V branch predictor:

- `RISCVAssembler.assemble` turns RISC-V assembly text into 32-bit machine
  words. It is a two-pass assembler. The first pass collects labels. The second
  pass encodes `beq/bne/blt/bge`, `jal/jalr`, `add/sub/and/or/xor` and
  `addi/andi/ori/xori`. It writes `nop` and every unknown mnemonic as
  `addi x0, x0, 0`. The model covers the helpers `_encode_branch`,
  `_encode_jump`, `_encode_rtype`, `_encode_itype` and `_parse_register`.
- `BranchTraceParser.generate_from_assembly` walks the machine words. It
  reports each conditional branch (taken when its word index is even) and
  each JAL (always taken), with the target decoded from the word.
- The table loop of `generate_branch_mem` packs each reported branch into a
  66-bit row `valid | taken | pc | target`. It stores the rows in a 256-entry
  direct-mapped table indexed by pc bits 9..2, where the later branch on a row
  wins.

Python's unbounded integers and its `&`, `|`, `<<` and `>>` are modelled
literally in module `Bits`. They are written out bit by bit and then related
to field arithmetic by proved lemmas. Python's string methods (`strip`,
`split`, `replace`, `lower`) are modelled over `seq<char>` in module `Text`.
Python's exceptions become the `Fault` cases of a `Result`. Python's `int()`
is a parameter of type `Numerals`: a pair of functions from text to an
optional number, where `None` stands for a `ValueError`.

Modules, following the structure of the program:

| module | what it holds |
|---|---|
| `Bits` | Python's integer bit operators, and fields of a number |
| `Text` | `strip`, `split('\n')`, `split()`, `replace`, `lower` |
| `Outcome` | `Option`, `Result` and the assembler's `Fault`s |
| `Encoding` | the five encoders as written, plus the RV32I placements of the branch and JAL immediates |
| `Registers` | `_parse_register` and its ABI name table |
| `Assembler` | both passes of `assemble` and the operand reading of each `_encode_*` |
| `Extraction` | `generate_from_assembly`, against the RV32I B- and J-immediates as reference |
| `RoundTrip` | what the parser reads back out of the assembler's words |
| `BranchMemory` | the table loop of `generate_branch_mem` |
| `Pipeline` | assembly text to trace entries to table rows, end to end |

`Assembler.Assemble` is `assemble` as written. `Assembler.AssembleWith` takes
a `Layout`:

- `AsWritten` gives the assembler's own bit placements.
- `Standard` places the branch and JAL immediates as section 2.3 of the
  RISC-V Unprivileged ISA specifies.

The two findings below are stated against both layouts.

## Model

| member | source | states |
|---|---|---|
| Text.StripUnique | src/fpgagen.py:30 | `strip()` of whitespace, then text with no whitespace at either end, then whitespace, is exactly that middle text |
| Text.StripIdempotent | src/fpgagen.py:30 | stripping an already stripped line changes nothing |
| Text.JoinSplit | src/fpgagen.py:25 | the pieces of `split('\n')` joined with newlines give the text back, so no character is lost or invented |
| Text.SplitJoin | src/fpgagen.py:25 | splitting newline-free lines joined with newlines gives exactly those lines back |
| Text.WordsOfJoin | src/fpgagen.py:48 | `split()` with no argument, applied to words joined by single spaces, returns those words |
| Text.WordsAfterSpace | src/fpgagen.py:48 | leading whitespace does not change the tokens of a line |
| Text.BeforeFirst | src/fpgagen.py:34 | `line.split(':')[0]` is a prefix of the line without `:`, followed by the first `:` when there is one |
| Assembler.Tokens | src/fpgagen.py:48 | after `replace(',', ' ').split()` every token is non-empty, holds no whitespace and holds no comma |
| Assembler.TokensOfJoin | src/fpgagen.py:48 | comma-free words separated by single spaces come back from `replace(',', ' ').split()` as exactly those words, in order |
| Registers.ReadName | src/fpgagen.py:137-150 | a name fails exactly when it starts with `x` and the rest is not a number in 0..31; the failure is `NotANumber` exactly when `int()` raises |
| Registers.ParseNumbered | src/fpgagen.py:136-138 | `x` followed by digits names the register the digits denote |
| Registers.ParsePlainName | src/fpgagen.py:139-150 | a lower-case name not starting with `x` is looked up in `reg_map`, and a name the map lacks is register 0 |
| Registers.ParseNormalised | src/fpgagen.py:136 | lower-casing and stripping an operand first does not change which register it names |
| Registers.NormaliseIdempotent | src/fpgagen.py:136 | lower-casing and stripping twice is the same as doing it once |
| Registers.NamesToTable | src/fpgagen.py:140-149 | `reg_map` maps the ABI name of each register 0..31, in calling-convention order, to that register's number |
| Encoding.RTypeFields | src/fpgagen.py:109-121 | the R-type word fits 32 bits, and opcode 0x33, rd, funct3, rs1, rs2 and funct7 each read back from their fields |
| Encoding.AddSubBit30 | src/fpgagen.py:115-121 | `add` and `sub` with the same operands differ exactly in bit 30 |
| Encoding.ITypeFields | src/fpgagen.py:123-132 | the I-type word fits 32 bits, its fields read back, and its immediate field is the immediate modulo 4096, negative immediates included |
| Encoding.JalrFields | src/fpgagen.py:103-107 | the JALR word is opcode 0x67 with rd, funct3 0, rs1 and the offset modulo 4096 |
| Encoding.BranchFields | src/fpgagen.py:82-91 | the branch word has opcode 0x63, its registers and offset bits 11, 4..1 and 10..5 in place; bit 12 is funct3 bit 0 ORed with offset bit 12; bit 31 is clear |
| Encoding.JalFields | src/fpgagen.py:102 | the JAL word is opcode 0x6F, rd, and offset bits 31..12 copied unmoved |
| Encoding.BranchStdWord | src/fpgagen.py:82-91 | the corrected branch word keeps funct3 whole and puts offset bit 12 at word bit 31 |
| Encoding.JalStdWord | src/fpgagen.py:102 | the corrected JAL word puts offset bits 19..12, 11, 10..1 and 20 at word bits 12, 20, 21 and 31 |
| Assembler.DecodeJalrLine | src/fpgagen.py:103-106 | a `jalr` line reads rd and rs1 as registers, then its third operand with `int(s, 0)` when there is one and 0 when there is none |
| Assembler.Decode | src/fpgagen.py:52-63 | an instruction is `nop` exactly when its mnemonic is none of the fifteen the assembler knows |
| Assembler.Classify | src/fpgagen.py:30-46 | a line emits a word exactly when its stripped text is non-empty, does not start with `#` and holds no `:`, and the text encoded is the stripped line; it is a label line exactly when the stripped text is non-empty, not a comment and holds `:`, and its label is the stripped text before the first `:`, itself stripped |
| Assembler.LabelOfLine | src/fpgagen.py:30-35 | a line `name:` with a non-empty, stripped, `:`-free name not starting with `#` is a label line defining exactly `name` |
| Assembler.EncodeLine | src/fpgagen.py:48-63 | a line of only commas raises `IndexError`; an unknown mnemonic gives the `nop` word |
| Pipeline.EncodeLineOf | src/fpgagen.py:48-65 | a line whose lower-cased mnemonic and operands are read as an instruction is encoded as that instruction's word |
| Assembler.Assemble | src/fpgagen.py:23-68 | a successful run returns exactly one word per instruction line |
| Assembler.LabelsDefined | src/fpgagen.py:28-37 | a label is defined exactly when some label line names it |
| Assembler.LabelsLast | src/fpgagen.py:33-35 | the last definition of a label wins and gives four times the number of instruction lines above it |
| Assembler.LabelMarksNextWord | src/fpgagen.py:28-37 | a label's address is the address of the first instruction after its last definition |
| Assembler.LabelsAligned | src/fpgagen.py:28-37 | every label address is a non-negative multiple of four, at most just past the last instruction |
| Assembler.SecondPassAt | src/fpgagen.py:39-68 | the n-th word of a successful run is the encoding of the n-th instruction line at pc 4n |
| Assembler.SecondPassError | src/fpgagen.py:39-68 | a failed run fails with the error of the first instruction line that raises |
| Assembler.CollectLabels | src/fpgagen.py:28-37 | the first loop computes the label table of the pass, and its pc ends at four times the number of instructions |
| Assembler.EmitWords | src/fpgagen.py:39-68 | the second loop returns the words of the pass, and stops at the first error |
| Assembler.RunAssembler | src/fpgagen.py:23-68 | the two loops of `assemble` compute what the two passes define |
| Assembler.DecodeBranchToLabel | src/fpgagen.py:70-80 | a branch to a defined label is read as the branch whose offset is the label's distance from pc |
| Assembler.DecodeJalToLabel | src/fpgagen.py:95-101 | a `jal` to a defined label is read as the jump whose offset is the label's distance from pc |
| Assembler.DecodeRTypeLine | src/fpgagen.py:109-113 | an R-type line reads rd, rs1 and rs2 in that order |
| Assembler.DecodeITypeLine | src/fpgagen.py:123-127 | an I-type line reads rd, rs1 and an immediate from `int(s, 0)` |
| Assembler.NopIsAddi | src/fpgagen.py:60-63 | the `nop` word 0x13 is the I-type encoding of `addi x0, x0, 0` |
| Extraction.WrapOffset | src/fpgagen.py:211 | adding the 32-bit pattern of a signed offset and masking to 32 bits is adding the offset modulo 2^32 |
| Extraction.BranchTarget | src/fpgagen.py:200-211 | the parser's branch target is pc plus the RV32I B-immediate of the word, modulo 2^32 |
| Extraction.JalTarget | src/fpgagen.py:219-229 | the parser's JAL target is pc plus the RV32I J-immediate of the word, modulo 2^32 |
| Extraction.EntryAtDescribes | src/fpgagen.py:196-232 | a word contributes an entry exactly when it is a branch or JAL, at pc 4i, taken on even i for branches and always for JAL, with the reference target |
| Extraction.ExtractMembers | src/fpgagen.py:188-234 | the extracted list holds exactly the entries that describe some branch or JAL word of the code |
| Extraction.ExtractOrdered | src/fpgagen.py:188-234 | the entries follow program order: their pcs strictly increase and lie inside the code |
| Extraction.ExtractLength | src/fpgagen.py:188-234 | there is one entry per branch or JAL word and none for other words |
| Extraction.GenerateFromAssembly | src/fpgagen.py:188-234 | the loop with pc stepping by four returns the extracted list, whose members are exactly the described entries |
| RoundTrip.BranchImmAsWritten | src/fpgagen.py:86-91 | the assembler's branch word decodes to the offset's bits 11..1 only: even, and in [0, 4096) |
| RoundTrip.BranchFunct3AsWritten | src/fpgagen.py:86-91 | offset bit 12 sets funct3 bit 0, so the written funct3 is the mnemonic's with bit 0 forced on |
| RoundTrip.BranchTargetAsWritten | src/fpgagen.py:70-91 | the parser reads the assembler's branch as going to pc plus the kept offset bits: never backwards |
| RoundTrip.BackwardBranchAsWritten | src/fpgagen.py:86-91 | a backward branch in reach is decoded 4096 bytes further on |
| RoundTrip.BackwardBranchExample | src/fpgagen.py:86-91 | `bne x1, x0, -8` at pc 16 targets pc 8 but is decoded as going to 4104 |
| RoundTrip.BackwardBeqBecomesBne | src/fpgagen.py:83-91 | `beq x0, x0, -4` is written with the funct3 of `bne` |
| RoundTrip.BranchStdRoundTrip | src/fpgagen.py:86-91 | with the corrected placement every even offset in [-4096, 4096) decodes back to itself |
| RoundTrip.BranchStdTarget | src/fpgagen.py:200-211 | with the corrected placement the parser's target is pc plus the offset, modulo 2^32 |
| RoundTrip.JalAsWritten | src/fpgagen.py:102 | the assembler's JAL word is decoded with offset bits 31..12 scrambled into the J-immediate |
| RoundTrip.ShortJalImm | src/fpgagen.py:102 | a forward JAL by less than 4096 bytes decodes to immediate 0 |
| RoundTrip.ShortJalDecodesToItself | src/fpgagen.py:219-229 | such a JAL is reported as a jump to its own pc |
| RoundTrip.ForwardJalExample | src/fpgagen.py:102 | `jal x0, 8` at pc 36 targets 44 but is decoded as going to 36 |
| RoundTrip.JalStdRoundTrip | src/fpgagen.py:102 | with the J-type placement every even offset in [-2^20, 2^20) decodes back to itself |
| RoundTrip.JalStdTarget | src/fpgagen.py:219-229 | with the J-type placement the parser's target is pc plus the offset, modulo 2^32 |
| BranchMemory.IndexBits | src/fpgagen.py:258 | the row index is pc bits 9..2, that is, the word number modulo 256 |
| BranchMemory.PackValue | src/fpgagen.py:259-261 | with a 32-bit pc and target the four fields do not overlap, so the ORs are a sum |
| BranchMemory.UnpackPack | src/fpgagen.py:252-261 | a packed row reads back its valid bit set, its taken flag, its pc and its target |
| BranchMemory.PackPositive | src/fpgagen.py:259-262 | every row a branch writes is non-zero, so it cannot be confused with an empty row |
| BranchMemory.StoreKeys | src/fpgagen.py:255-262 | a row is in the dict exactly when some assignment wrote to it |
| BranchMemory.StoreLast | src/fpgagen.py:262 | a row holds the entry of the last assignment to it |
| BranchMemory.TableFilled | src/fpgagen.py:255-272 | row i of the table is non-zero exactly when some branch's pc has index i |
| BranchMemory.TableLast | src/fpgagen.py:255-272 | row i holds the packed last branch whose pc has index i |
| BranchMemory.FillTable | src/fpgagen.py:255-262 | the loop builds the dict of the last write to each row |
| BranchMemory.WriteRows | src/fpgagen.py:266-272 | the output loop writes 256 rows: the dict's entry where there is one, and 0 elsewhere |
| BranchMemory.BuildTable | src/fpgagen.py:249-272 | `generate_branch_mem` without the file output computes the table of the branches |
| Pipeline.EncodeFits | src/fpgagen.py:70-132 | every instruction encodes to a word below 2^32, under either layout |
| Pipeline.AssembledWordsFit | src/fpgagen.py:23-68 | every word `assemble` returns fits the 32-bit program memory |
| Pipeline.AssembledBranch | src/fpgagen.py:39-91 | a branch line to a label becomes, at its word index, the branch word with the offset to the label, and the label is word-aligned |
| Pipeline.AssembledJal | src/fpgagen.py:39-102 | a `jal` line to a label becomes, at its word index, the JAL word with the offset to the label |
| Pipeline.StdBranchReachesLabel | src/fpgagen.py:200-216 | with the corrected encoders a branch to a label in reach is reported as going from its own address to the label |
| Pipeline.BackwardBranchMissesLabel | src/fpgagen.py:86-91 | with the assembler's encoder a branch back to a label in reach is reported as going 4096 bytes past the label |
| Pipeline.StdJalReachesLabel | src/fpgagen.py:219-230 | with the corrected encoders a jump to a label in reach is reported as a taken jump to the label |
| Pipeline.ShortJalMissesLabel | src/fpgagen.py:102 | with the assembler's encoder a jump forward by less than 4096 bytes is reported as a jump to itself |
| Pipeline.ExtractWellFormed | src/fpgagen.py:188-234 | every reported entry has a pc inside the code and a target below 2^32, so it can be packed |
| Pipeline.ProgramTableFilled | src/fpgagen.py:249-272 | row r of a program's table is filled exactly when some branch or JAL word sits at an index congruent to r modulo 256 |

## Left out

- File output is not modelled: the hexadecimal text of `generate_program_mem` and `generate_branch_mem` (`{entry:018X}`, the all-zero line). The table is returned as its 256 numbers.
- The `print` calls are not modelled.
- `parse_trace` is not modelled, because it only reads a trace file.
- `main` and its argument parsing are not modelled.
- The repository's Verilog instruction-fetch unit, which reads these memory images, is not part of this model.
- `int(text)` and `int(text, 0)` are not modelled. They are the `Numerals` parameter, taken as given; `None` stands for `ValueError`.
- `str.lower()` is modelled on the ASCII letters only. Non-ASCII upper-case letters in an operand are left unchanged.
- Registers.ReadName: a register `x<n>` with n outside 0..31 is a `RegisterOutOfRange` error. The Python code would shift the number unmasked into the word and corrupt the neighbouring fields; the model refuses it instead, which keeps `Reg` below 32.
- BranchMemory.UnpackPack: requires pc and target below 2^32, which every entry of `generate_from_assembly` meets (`Pipeline.ExtractWellFormed`). Wider values would overlap the flag bits in Python.
- BranchMemory.Table: takes only branches with non-negative pc and target (`Packable`). Python's `|` on negative numbers is not modelled there, and `generate_from_assembly` never produces them.
- Registers.NamesToTable: states one direction only, that each ABI name maps to its register. It does not state that `reg_map` holds no other names; the extra entry `fp` (also register 8) is visible in the table itself.
- The assembler object's state across calls is not modelled: `self.labels` persists between `assemble` calls in Python. Each `Assemble` starts from an empty label table, as a fresh assembler does.

## Findings

| source | as written | input that shows it | evidently intended | confidence | as-written member | corrected member |
|---|---|---|---|---|---|---|
| src/fpgagen.py:86-91 | `imm12 = offset & 0x1000` is ORed in at word bit 12, on top of funct3 bit 0, and word bit 31 stays clear | `bne x1, x0, -8` at pc 16: the parser reads the target as 4104 instead of 8; `beq x0, x0, -4` is written with funct3 1 (`bne`) | offset bit 12 shifted to word bit 31 (`(offset & 0x1000) << 19`), as the B-type format and the parser at line 202 expect | not executed | RoundTrip.BackwardBranchExample | RoundTrip.BranchStdTarget |
| src/fpgagen.py:102 | `offset & 0xFFFFF000` copies offset bits 31..12 into the word unmoved | `jal x0, 8` at pc 36: the parser reads the target as 36 instead of 44 | the J-type scramble of bits 20, 10..1, 11 and 19..12 that the parser at lines 220-225 undoes | not executed | RoundTrip.ForwardJalExample | RoundTrip.JalStdTarget |

The end-to-end forms of both findings are `Pipeline.BackwardBranchMissesLabel` and
`Pipeline.ShortJalMissesLabel` (as written), and `Pipeline.StdBranchReachesLabel` and
`Pipeline.StdJalReachesLabel` (corrected, on `AssembleWith(Standard, …)`).
