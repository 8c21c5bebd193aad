/**
 The tool end to end: assembly text through `RISCVAssembler.assemble`, the
 words through `BranchTraceParser.generate_from_assembly`, and the branches
 through the table loop of `generate_branch_mem`.  The lemmas here say what
 a branch or jump to a label becomes at the end of that chain, under the
 assembler's own encoders and under the standard ones.
 */
module Pipeline {
  import opened Bits
  import opened Outcome
  import opened Text
  import opened Encoding
  import opened Registers
  import opened Assembler
  import opened Extraction
  import opened RoundTrip
  import opened BranchMemory

  // ---------------------------------------------------------------------------
  // Every word is a 32-bit word
  // ---------------------------------------------------------------------------

  /** Every instruction encodes to a word below 2^32, under either layout. */
  lemma EncodeFits(layout: Layout, inst: Instruction)
    ensures Encode(layout, inst) < 0x1_0000_0000
  {
    match inst {
      case Branch(op, rs1, rs2, offset) =>
        assert EncodeBranch(op, rs1, rs2, offset) < 0x1_0000_0000 by {
          BranchFields(op, rs1, rs2, offset);
        }
        assert EncodeBranchStd(op, rs1, rs2, offset) < 0x1_0000_0000 by {
          BranchStdFields(op, rs1, rs2, offset);
        }
      case Jal(rd, offset) =>
        assert EncodeJal(rd, offset) < 0x1_0000_0000 by {
          JalFields(rd, offset);
        }
        assert EncodeJalStd(rd, offset) < 0x1_0000_0000 by {
          JalStdFields(rd, offset);
        }
      case Jalr(rd, base, offset) =>
        assert EncodeJalr(rd, base, offset) < 0x1_0000_0000 by {
          JalrFields(rd, base, offset);
        }
      case RType(op, rd, rs1, rs2) =>
        assert EncodeRType(op, rd, rs1, rs2) < 0x1_0000_0000 by {
          RTypeFields(op, rd, rs1, rs2);
        }
      case IType(op, rd, rs1, imm) =>
        assert EncodeIType(op, rd, rs1, imm) < 0x1_0000_0000 by {
          ITypeFields(op, rd, rs1, imm);
        }
      case Nop =>
    }
  }

  /** A line that encodes gives a word below 2^32. */
  lemma EncodeLineFits(layout: Layout, text: string, labels: map<string, int>, pc: int, num: Numerals)
    ensures EncodeLine(layout, text, labels, pc, num).Ok? ==> EncodeLine(layout, text, labels, pc, num).value < 0x1_0000_0000
  {
    var parts := Tokens(text);
    if parts != [] {
      var inst := Decode(Lower(parts[0]), parts[1..], labels, pc, num);
      if inst.Ok? {
        EncodeFits(layout, inst.value);
      }
    }
  }

  /** When every line's encoding is below `bound`, so is every word of the second pass. */
  lemma {:induction false} SecondPassBounded(kinds: seq<LineKind>, encode: LineEncoder, bound: int)
    requires forall text, pc :: encode(text, pc).Ok? ==> encode(text, pc).value < bound
    requires SecondPass(kinds, encode).Ok?
    ensures forall n :: 0 <= n < |SecondPass(kinds, encode).value| ==> SecondPass(kinds, encode).value[n] < bound
  {
    if kinds != [] {
      SecondPassBounded(kinds[..|kinds| - 1], encode, bound);
    }
  }

  /** Every word `assemble` returns fits the 32-bit instruction memory. */
  lemma AssembledWordsFit(layout: Layout, code: string, num: Numerals)
    requires AssembleWith(layout, code, num).Ok?
    ensures forall n :: 0 <= n < |AssembleWith(layout, code, num).value| ==> AssembleWith(layout, code, num).value[n] < 0x1_0000_0000
  {
    var kinds := Kinds(SourceLines(code));
    var encode := Encoder(layout, Labels(kinds), num);
    forall text, pc
      ensures encode(text, pc).Ok? ==> encode(text, pc).value < 0x1_0000_0000
    {
      EncodeLineFits(layout, text, Labels(kinds), pc, num);
    }
    SecondPassBounded(kinds, encode, 0x1_0000_0000);
  }

  // ---------------------------------------------------------------------------
  // One word and its entry
  // ---------------------------------------------------------------------------

  /** The entry for a branch word at index i whose B-immediate leads to `target`. */
  lemma BranchWordEntry(code: seq<int>, i: nat, imm: int, target: int)
    requires i < |code| && Opcode(code[i]) == 0x63 && BImm(code[i]) == imm && target == 4 * i + imm
    ensures Extraction.Branch(4 * i, i % 2 == 0, target % 0x1_0000_0000) in Extract(code)
  {
    var e := Extraction.Branch(4 * i, i % 2 == 0, target % 0x1_0000_0000);
    assert DescribesWord(code[i], i, e);
    assert Describes(code, i, e);
    ExtractMembers(code, e);
  }

  /** The entry for a JAL word at index i whose J-immediate leads to `target`. */
  lemma JalWordEntry(code: seq<int>, i: nat, imm: int, target: int)
    requires i < |code| && Opcode(code[i]) == 0x6F && JImm(code[i]) == imm && target == 4 * i + imm
    ensures Extraction.Branch(4 * i, true, target % 0x1_0000_0000) in Extract(code)
  {
    var e := Extraction.Branch(4 * i, true, target % 0x1_0000_0000);
    assert DescribesWord(code[i], i, e);
    assert Describes(code, i, e);
    ExtractMembers(code, e);
  }

  /** A standard branch word with an in-reach even offset has branch opcode and carries the offset as its B-immediate. */
  lemma StdBranchWordFields(w: int, op: BranchOp, a: Reg, b: Reg, off: int)
    requires w == Encode(Standard, Instruction.Branch(op, a, b, off))
    requires -0x1000 <= off < 0x1000
    requires off % 2 == 0
    ensures Opcode(w) == 0x63 && BImm(w) == off
  {
    BranchStdShape(op, a, b, off);
    BranchStdRoundTrip(op, a, b, off);
  }

  /** The assembler's own branch word with a backward offset in reach carries the offset plus 4096 as its B-immediate. */
  lemma BackwardBranchWordFields(w: int, op: BranchOp, a: Reg, b: Reg, off: int)
    requires w == Encode(AsWritten, Instruction.Branch(op, a, b, off)) && -0x1000 <= off < 0 && off % 2 == 0
    ensures Opcode(w) == 0x63 && BImm(w) == off + 0x1000
  {
    BranchShapeAsWritten(op, a, b, off);
    BranchImmAsWritten(op, a, b, off);
    BackwardBranchAsWritten(op, a, b, off, 0);
  }

  /** A standard JAL word with an in-reach even offset has JAL opcode and carries the offset as its J-immediate. */
  lemma StdJalWordFields(w: int, rd: Reg, off: int)
    requires w == Encode(Standard, Jal(rd, off)) && -0x10_0000 <= off < 0x10_0000 && off % 2 == 0
    ensures Opcode(w) == 0x6F && JImm(w) == off
  {
    JalStdShape(rd, off);
    JalStdRoundTrip(rd, off);
  }

  /** The assembler's own JAL word with a forward offset below 4096 has J-immediate 0. */
  lemma ShortJalWordFields(w: int, rd: Reg, off: int)
    requires w == Encode(AsWritten, Jal(rd, off)) && 0 <= off < 0x1000
    ensures Opcode(w) == 0x6F && JImm(w) == 0
  {
    JalAsWritten(rd, off);
    ShortJalImm(rd, off);
  }

  /** The wrapped address 4096 bytes past `target`. */
  lemma WrapPast(target: int)
    ensures WrapTarget(target, 0x1000) == (target + 0x1000) % 0x1_0000_0000
  {
    WrapTargetMod(target, 0x1000);
  }

  /** The offset between two word addresses is even. */
  lemma AlignedOffset(n: int, off: int, target: int)
    requires target % 4 == 0 && target == 4 * n + off
    ensures off % 2 == 0
  {
    assert off % 4 == 0;
    var q := off / 4;
    assert off == 4 * q;
    assert off == 2 * (2 * q) + 0;
  }

  // ---------------------------------------------------------------------------
  // One line and its word
  // ---------------------------------------------------------------------------

  /** A line whose tokens decode to `inst` is encoded as `inst`'s word. */
  lemma EncodeLineOf(layout: Layout, text: string, labels: map<string, int>, pc: int, num: Numerals, inst: Instruction)
    requires Tokens(text) != []
    requires Decode(Lower(Tokens(text)[0]), Tokens(text)[1..], labels, pc, num) == Ok(inst)
    ensures EncodeLine(layout, text, labels, pc, num) == Ok(Encode(layout, inst))
  {
  }

  /** The tokens of a line: `op rs1, rs2, name`, a branch to a defined label. */
  predicate BranchText(text: string, labels: map<string, int>, num: Numerals, op: BranchOp, a: Reg, b: Reg, name: string)
  {
    var parts := Tokens(text);
    parts != [] && BranchToLabel(Lower(parts[0]), parts[1..], labels, num, op, a, b, name)
  }

  /** The tokens of a line: `jal rd, name`, a jump to a defined label. */
  predicate JalText(text: string, labels: map<string, int>, num: Numerals, rd: Reg, name: string)
  {
    var parts := Tokens(text);
    parts != [] && JalToLabel(Lower(parts[0]), parts[1..], labels, num, rd, name)
  }

  /** A branch to a label at `pc` is encoded as the branch word with the label's distance from `pc`. */
  lemma BranchTextEncodes(layout: Layout, text: string, labels: map<string, int>, pc: int, num: Numerals,
                          op: BranchOp, a: Reg, b: Reg, name: string, off: int)
    requires BranchText(text, labels, num, op, a, b, name) && off == labels[name] - pc
    ensures EncodeLine(layout, text, labels, pc, num) == Ok(Encode(layout, Instruction.Branch(op, a, b, off)))
  {
    var parts := Tokens(text);
    var m, ops := Lower(parts[0]), parts[1..];
    var inst := Instruction.Branch(op, a, b, off);
    DecodeBranchToLabel(m, ops, labels, pc, num, op, a, b, name, off);
    EncodeLineOf(layout, text, labels, pc, num, inst);
  }

  /** A jump to a label at `pc` is encoded as the JAL word with the label's distance from `pc`. */
  lemma JalTextEncodes(layout: Layout, text: string, labels: map<string, int>, pc: int, num: Numerals,
                       rd: Reg, name: string, off: int)
    requires JalText(text, labels, num, rd, name) && off == labels[name] - pc
    ensures EncodeLine(layout, text, labels, pc, num) == Ok(Encode(layout, Jal(rd, off)))
  {
    var parts := Tokens(text);
    var m, ops := Lower(parts[0]), parts[1..];
    var inst := Jal(rd, off);
    DecodeJalToLabel(m, ops, labels, pc, num, rd, name, off);
    EncodeLineOf(layout, text, labels, pc, num, inst);
  }

  // ---------------------------------------------------------------------------
  // One line of assembly and its entry
  // ---------------------------------------------------------------------------

  /** The word index of instruction line j: the number of instruction lines above it. */
  function WordIndex(code: string, j: nat): nat
    requires j <= |Kinds(SourceLines(code))|
  {
    InstructionCount(Kinds(SourceLines(code))[..j])
  }

  /** Line j of the program, when it is a branch to a label. */
  predicate BranchLine(code: string, num: Numerals, j: nat, op: BranchOp, a: Reg, b: Reg, name: string)
  {
    var kinds := Kinds(SourceLines(code));
    j < |kinds| && kinds[j].InstructionLine? && BranchText(kinds[j].text, Labels(kinds), num, op, a, b, name)
  }

  /** Line j of the program, when it is a jump to a label. */
  predicate JalLine(code: string, num: Numerals, j: nat, rd: Reg, name: string)
  {
    var kinds := Kinds(SourceLines(code));
    j < |kinds| && kinds[j].InstructionLine? && JalText(kinds[j].text, Labels(kinds), num, rd, name)
  }

  /** The address a label of the program stands for. */
  function LabelAddress(code: string, name: string): int
  {
    var labels := Labels(Kinds(SourceLines(code)));
    if name in labels then labels[name] else 0
  }

  /** Instruction line j of an assembled program is word `WordIndex(code, j)`, encoded at four times that index. */
  lemma AssembledLine(layout: Layout, code: string, num: Numerals, j: nat)
    requires AssembleWith(layout, code, num).Ok?
    requires j < |Kinds(SourceLines(code))| && Kinds(SourceLines(code))[j].InstructionLine?
    ensures var kinds, words, n := Kinds(SourceLines(code)), AssembleWith(layout, code, num).value, WordIndex(code, j);
      n < |words| && EncodeLine(layout, kinds[j].text, Labels(kinds), 4 * n, num) == Ok(words[n])
  {
    var kinds := Kinds(SourceLines(code));
    SecondPassAt(kinds, Encoder(layout, Labels(kinds), num), j);
  }

  /** A label used by a line of the program is word-aligned and not negative. */
  lemma LabelAligned(code: string, name: string)
    requires name in Labels(Kinds(SourceLines(code)))
    ensures LabelAddress(code, name) % 4 == 0 && LabelAddress(code, name) >= 0
  {
    LabelsAligned(Kinds(SourceLines(code)), name);
  }

  /** A branch to a label is assembled, at its word index, into the branch word with the offset to the label. */
  lemma AssembledBranch(layout: Layout, code: string, num: Numerals, j: nat, op: BranchOp, a: Reg, b: Reg, name: string, off: int)
    requires AssembleWith(layout, code, num).Ok? && BranchLine(code, num, j, op, a, b, name)
    requires off == LabelAddress(code, name) - 4 * WordIndex(code, j)
    ensures var words, n := AssembleWith(layout, code, num).value, WordIndex(code, j);
      n < |words| && words[n] == Encode(layout, Instruction.Branch(op, a, b, off))
    ensures LabelAddress(code, name) % 4 == 0 && LabelAddress(code, name) >= 0
  {
    var kinds := Kinds(SourceLines(code));
    var labels := Labels(kinds);
    var text := kinds[j].text;
    var pc := 4 * WordIndex(code, j);
    AssembledLine(layout, code, num, j);
    BranchTextEncodes(layout, text, labels, pc, num, op, a, b, name, off);
    LabelAligned(code, name);
  }

  /** A jump to a label is assembled, at its word index, into the JAL word with the offset to the label. */
  lemma AssembledJal(layout: Layout, code: string, num: Numerals, j: nat, rd: Reg, name: string, off: int)
    requires AssembleWith(layout, code, num).Ok? && JalLine(code, num, j, rd, name)
    requires off == LabelAddress(code, name) - 4 * WordIndex(code, j)
    ensures var words, n := AssembleWith(layout, code, num).value, WordIndex(code, j);
      n < |words| && words[n] == Encode(layout, Jal(rd, off))
    ensures LabelAddress(code, name) % 4 == 0 && LabelAddress(code, name) >= 0
  {
    var kinds := Kinds(SourceLines(code));
    var labels := Labels(kinds);
    var text := kinds[j].text;
    var pc := 4 * WordIndex(code, j);
    AssembledLine(layout, code, num, j);
    JalTextEncodes(layout, text, labels, pc, num, rd, name, off);
    LabelAligned(code, name);
  }

  /** A standard branch word at index n with the offset to `target` is traced as a branch from its address to `target`. */
  lemma StdBranchWord(words: seq<int>, n: nat, op: BranchOp, a: Reg, b: Reg, off: int, target: int)
    requires n < |words| && words[n] == Encode(Standard, Instruction.Branch(op, a, b, off))
    requires target % 4 == 0 && target == 4 * n + off && -0x1000 <= off < 0x1000
    ensures Extraction.Branch(4 * n, n % 2 == 0, target % 0x1_0000_0000) in Extract(words)
  {
    var w := words[n];
    AlignedOffset(n, off, target);
    StdBranchWordFields(w, op, a, b, off);
    BranchWordEntry(words, n, off, target);
  }

  /** A backward branch word of the assembler's own encoder is traced as a branch 4096 bytes past `target`. */
  lemma BackwardBranchWord(words: seq<int>, n: nat, op: BranchOp, a: Reg, b: Reg, off: int, target: int)
    requires n < |words| && words[n] == Encode(AsWritten, Instruction.Branch(op, a, b, off))
    requires target % 4 == 0 && target == 4 * n + off && -0x1000 <= off < 0
    ensures Extraction.Branch(4 * n, n % 2 == 0, WrapTarget(target, 0x1000)) in Extract(words)
  {
    var w := words[n];
    var imm, past := off + 0x1000, target + 0x1000;
    WrapPast(target);
    AlignedOffset(n, off, target);
    BackwardBranchWordFields(w, op, a, b, off);
    BranchWordEntry(words, n, imm, past);
  }

  /** A standard JAL word at index n with the offset to `target` is traced as a taken jump to `target`. */
  lemma StdJalWord(words: seq<int>, n: nat, rd: Reg, off: int, target: int)
    requires n < |words| && words[n] == Encode(Standard, Jal(rd, off))
    requires target % 4 == 0 && target == 4 * n + off && -0x10_0000 <= off < 0x10_0000
    ensures Extraction.Branch(4 * n, true, target % 0x1_0000_0000) in Extract(words)
  {
    var w := words[n];
    AlignedOffset(n, off, target);
    StdJalWordFields(w, rd, off);
    JalWordEntry(words, n, off, target);
  }

  /** A JAL word of the assembler's own encoder, forward by less than 4096 bytes, is traced as a jump to itself. */
  lemma ShortJalWord(words: seq<int>, n: nat, rd: Reg, off: int)
    requires n < |words| && words[n] == Encode(AsWritten, Jal(rd, off)) && 0 <= off < 0x1000
    ensures Extraction.Branch(4 * n, true, (4 * n) % 0x1_0000_0000) in Extract(words)
  {
    var w, pc := words[n], 4 * n;
    ShortJalWordFields(w, rd, off);
    JalWordEntry(words, n, 0, pc);
  }

  /**
   With the standard encoders, a branch to a label within reach is traced as a
   branch from its own address to the label's address.
   */
  lemma StdBranchReachesLabel(code: string, num: Numerals, j: nat, op: BranchOp, a: Reg, b: Reg, name: string)
    requires AssembleWith(Standard, code, num).Ok? && BranchLine(code, num, j, op, a, b, name)
    requires -0x1000 <= LabelAddress(code, name) - 4 * WordIndex(code, j) < 0x1000
    ensures var n := WordIndex(code, j);
      Extraction.Branch(4 * n, n % 2 == 0, LabelAddress(code, name) % 0x1_0000_0000)
        in Extract(AssembleWith(Standard, code, num).value)
  {
    var words, n, target := AssembleWith(Standard, code, num).value, WordIndex(code, j), LabelAddress(code, name);
    var off := target - 4 * n;
    assert n < |words| && words[n] == Encode(Standard, Instruction.Branch(op, a, b, off)) && target % 4 == 0 by {
      AssembledBranch(Standard, code, num, j, op, a, b, name, off);
    }
    StdBranchWord(words, n, op, a, b, off, target);
  }

  /**
   With the assembler's own encoder, a branch back to a label within reach is
   traced as a branch 4096 bytes past the label.
   */
  lemma BackwardBranchMissesLabel(code: string, num: Numerals, j: nat, op: BranchOp, a: Reg, b: Reg, name: string)
    requires AssembleWith(AsWritten, code, num).Ok? && BranchLine(code, num, j, op, a, b, name)
    requires -0x1000 <= LabelAddress(code, name) - 4 * WordIndex(code, j) < 0
    ensures var n := WordIndex(code, j);
      Extraction.Branch(4 * n, n % 2 == 0, WrapTarget(LabelAddress(code, name), 0x1000))
        in Extract(AssembleWith(AsWritten, code, num).value)
  {
    var words, n, target := AssembleWith(AsWritten, code, num).value, WordIndex(code, j), LabelAddress(code, name);
    var off := target - 4 * n;
    assert n < |words| && words[n] == Encode(AsWritten, Instruction.Branch(op, a, b, off)) && target % 4 == 0 by {
      AssembledBranch(AsWritten, code, num, j, op, a, b, name, off);
    }
    BackwardBranchWord(words, n, op, a, b, off, target);
  }

  /** With the standard encoders, a jump to a label within reach is traced as a taken jump to the label. */
  lemma StdJalReachesLabel(code: string, num: Numerals, j: nat, rd: Reg, name: string)
    requires AssembleWith(Standard, code, num).Ok? && JalLine(code, num, j, rd, name)
    requires -0x10_0000 <= LabelAddress(code, name) - 4 * WordIndex(code, j) < 0x10_0000
    ensures Extraction.Branch(4 * WordIndex(code, j), true, LabelAddress(code, name) % 0x1_0000_0000)
              in Extract(AssembleWith(Standard, code, num).value)
  {
    var words, n, target := AssembleWith(Standard, code, num).value, WordIndex(code, j), LabelAddress(code, name);
    var off := target - 4 * n;
    assert n < |words| && words[n] == Encode(Standard, Jal(rd, off)) && target % 4 == 0 by {
      AssembledJal(Standard, code, num, j, rd, name, off);
    }
    StdJalWord(words, n, rd, off, target);
  }

  /** With the assembler's own encoder, a jump forward by less than 4096 bytes is traced as a jump to itself. */
  lemma ShortJalMissesLabel(code: string, num: Numerals, j: nat, rd: Reg, name: string)
    requires AssembleWith(AsWritten, code, num).Ok? && JalLine(code, num, j, rd, name)
    requires 0 <= LabelAddress(code, name) - 4 * WordIndex(code, j) < 0x1000
    ensures var n := WordIndex(code, j);
      Extraction.Branch(4 * n, true, (4 * n) % 0x1_0000_0000) in Extract(AssembleWith(AsWritten, code, num).value)
  {
    var words, n, target := AssembleWith(AsWritten, code, num).value, WordIndex(code, j), LabelAddress(code, name);
    var off := target - 4 * n;
    assert n < |words| && words[n] == Encode(AsWritten, Jal(rd, off)) && target % 4 == 0 by {
      AssembledJal(AsWritten, code, num, j, rd, name, off);
    }
    ShortJalWord(words, n, rd, off);
  }

  // ---------------------------------------------------------------------------
  // The branch table of a program
  // ---------------------------------------------------------------------------

  /** Every entry the parser produces has a non-negative pc below `4 * |code|` and a 32-bit target. */
  lemma ExtractWellFormed(code: seq<int>)
    ensures forall k :: 0 <= k < |Extract(code)| ==>
      Packable(Extract(code)[k]) && Extract(code)[k].pc < 4 * |code| && Extract(code)[k].target < 0x1_0000_0000
  {
    ExtractOrdered(code);
    forall k | 0 <= k < |Extract(code)|
      ensures 0 <= Extract(code)[k].target < 0x1_0000_0000
    {
      var e := Extract(code)[k];
      ExtractMembers(code, e);
    }
  }

  /** The table `generate_branch_mem` writes for the words `generate_from_assembly` parses. */
  function ProgramTable(code: seq<int>): (rows: seq<nat>)
    ensures |rows| == TableSize
  {
    ExtractWellFormed(code);
    Table(Extract(code))
  }

  /** The row of the word at index i is i mod 256. */
  lemma WordRow(i: int, pc: int)
    requires pc == 4 * i
    ensures Index(pc) == i % 256
  {
    IndexBits(pc);
    assert pc / 4 == i;
  }

  /** Every traced branch comes from a branch or JAL word whose index lands on the branch's row. */
  lemma EntryFromWord(code: seq<int>, e: Extraction.Branch)
    requires e in Extract(code)
    ensures exists i :: 0 <= i < |code| && IsControl(code[i]) && i % 256 == Index(e.pc)
  {
    ExtractMembers(code, e);
    var i :| Describes(code, i, e);
    WordRow(i, e.pc);
  }

  /** Every branch or JAL word is traced by a branch on its row. */
  lemma WordToEntry(code: seq<int>, i: int)
    requires 0 <= i < |code| && IsControl(code[i])
    ensures exists k :: 0 <= k < |Extract(code)| && Index(Extract(code)[k].pc) == i % 256
  {
    var e := EntryAt(code[i], i)[0];
    EntryAtDescribes(code[i], i, e);
    assert Describes(code, i, e);
    ExtractMembers(code, e);
    var k :| 0 <= k < |Extract(code)| && Extract(code)[k] == e;
    WordRow(i, e.pc);
  }

  /** Row r of a program's table is filled exactly when some branch or JAL word sits at an index congruent to r mod 256. */
  lemma ProgramTableFilled(code: seq<int>, r: nat)
    requires r < TableSize
    ensures ProgramTable(code)[r] != 0 <==> exists i :: 0 <= i < |code| && IsControl(code[i]) && i % 256 == r
  {
    var bs := Extract(code);
    ExtractWellFormed(code);
    TableFilled(bs, r);
    if exists k :: 0 <= k < |bs| && Index(bs[k].pc) == r {
      var k :| 0 <= k < |bs| && Index(bs[k].pc) == r;
      EntryFromWord(code, bs[k]);
    }
    if exists i :: 0 <= i < |code| && IsControl(code[i]) && i % 256 == r {
      var i :| 0 <= i < |code| && IsControl(code[i]) && i % 256 == r;
      WordToEntry(code, i);
    }
  }
}
