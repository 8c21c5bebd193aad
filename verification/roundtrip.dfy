/**
 What the trace parser reads back out of the assembler's words.

 The assembler's branch encoder puts offset bit 12 at word bit 12, on top of
 funct3 bit 0, instead of at bit 31; its JAL encoder copies offset bits 31..12
 into the word unscrambled.  The lemmas here state what the parser therefore
 decodes from those words, exhibit concrete programs where that differs from
 the label's address, and prove that the standard placements
 (`EncodeBranchStd`, `EncodeJalStd`) round-trip every even offset in range.
 */
module RoundTrip {
  import opened Bits
  import opened Encoding
  import opened Extraction

  // ---------------------------------------------------------------------------
  // Offsets as bit fields
  // ---------------------------------------------------------------------------

  /** The opcode the parser tests is the low seven bits of the word. */
  lemma OpcodeField(inst: int)
    ensures Opcode(inst) == Field(inst, 0, 7)
  {
    Pow2Word();
    AndLowMask(inst, 7);
  }

  /** The low twelve bits of an offset, split as the B-type format splits them. */
  lemma OffsetBits12(off: int)
    ensures off % 0x1000 == off % 2 + Field(off, 1, 4) * 2 + Field(off, 5, 6) * 0x20 + Field(off, 11, 1) * 0x800
  {
    Pow2Word();
    FieldConcat(off, 0, 1, 11);
    FieldConcat(off, 1, 4, 7);
    FieldConcat(off, 5, 6, 1);
    assert Field(off, 0, 12) == off % 0x1000;
    assert Field(off, 0, 1) == off % 2;
  }

  /** A 13-bit two's-complement offset is its low bits minus 2^13 when bit 12 is set. */
  lemma Signed13(off: int)
    requires -0x1000 <= off < 0x1000
    ensures off == off % 0x1000 + Field(off, 12, 1) * 0x1000 - (if Field(off, 12, 1) == 1 then 0x2000 else 0)
  {
    Pow2Word();
    FieldConcat(off, 0, 12, 1);
    assert Field(off, 0, 13) == off % 0x2000;
    assert Field(off, 0, 12) == off % 0x1000;
    if off >= 0 {
      DivModUnique(off, 0x2000, 0, off);
      DivModUnique(off, 0x1000, 0, off);
    } else {
      DivModUnique(off, 0x2000, -1, off + 0x2000);
      DivModUnique(off, 0x1000, -1, off + 0x1000);
    }
  }

  /** The low 21 bits of an offset, split as the J-type format splits them. */
  lemma OffsetBits21(off: int)
    ensures off % 0x20_0000
            == off % 2 + Field(off, 1, 10) * 2 + Field(off, 11, 1) * 0x800 + Field(off, 12, 8) * 0x1000
               + Field(off, 20, 1) * 0x10_0000
  {
    Pow2Word();
    FieldConcat(off, 0, 1, 20);
    FieldConcat(off, 1, 10, 10);
    FieldConcat(off, 11, 1, 9);
    FieldConcat(off, 12, 8, 1);
    assert Field(off, 0, 21) == off % 0x20_0000;
    assert Field(off, 0, 1) == off % 2;
  }

  /** A 21-bit two's-complement offset is its low bits minus 2^21 when bit 20 is set. */
  lemma Signed21(off: int)
    requires -0x10_0000 <= off < 0x10_0000
    ensures off == off % 0x10_0000 + Field(off, 20, 1) * 0x10_0000 - (if Field(off, 20, 1) == 1 then 0x20_0000 else 0)
    ensures off % 0x20_0000 == off % 0x10_0000 + Field(off, 20, 1) * 0x10_0000
  {
    Pow2Word();
    FieldConcat(off, 0, 20, 1);
    assert Field(off, 0, 21) == off % 0x20_0000;
    assert Field(off, 0, 20) == off % 0x10_0000;
    if off >= 0 {
      DivModUnique(off, 0x20_0000, 0, off);
      DivModUnique(off, 0x10_0000, 0, off);
    } else {
      DivModUnique(off, 0x20_0000, -1, off + 0x20_0000);
      DivModUnique(off, 0x10_0000, -1, off + 0x10_0000);
    }
  }

  /** The bits of a 20-bit upper part, split as the J-type decoder reads them. */
  lemma UpperBits(off: int)
    ensures Field(off, 12, 20)
            == Field(off, 12, 8) + Field(off, 20, 1) * 0x100 + Field(off, 21, 10) * 0x200 + Field(off, 31, 1) * 0x8_0000
    ensures Field(off, 12, 8) < 0x100 && Field(off, 20, 1) < 2 && Field(off, 21, 10) < 0x400 && Field(off, 31, 1) < 2
  {
    Pow2Word();
    FieldConcat(off, 12, 8, 12);
    FieldConcat(off, 20, 1, 11);
    FieldConcat(off, 21, 10, 1);
  }

  // ---------------------------------------------------------------------------
  // Reading words in the J-type and standard B-type layouts
  // ---------------------------------------------------------------------------

  /** Reading back the fields of a word laid out in the J-type format. */
  lemma JTypeFields(w: nat, rd: nat, a: nat, b: nat, c: nat, d: nat)
    requires rd < 32 && a < 0x100 && b < 2 && c < 0x400 && d < 2
    requires w == 0x6F + rd * 0x80 + a * 0x1000 + b * 0x10_0000 + c * 0x20_0000 + d * 0x8000_0000
    ensures w < 0x1_0000_0000 && Field(w, 0, 7) == 0x6F && Field(w, 7, 5) == rd
    ensures Field(w, 12, 8) == a && Field(w, 20, 1) == b && Field(w, 21, 10) == c && Field(w, 31, 1) == d
  {
    Pow2Word();
    FieldOfParts(w, rd + a * 32 + b * 0x2000 + c * 0x4000 + d * 0x100_0000, 0x6F, 0, 0, 7);
    FieldOfParts(w, a + b * 256 + c * 512 + d * 0x8_0000, rd, 0x6F, 7, 5);
    FieldOfParts(w, b + c * 2 + d * 0x800, a, 0x6F + rd * 0x80, 12, 8);
    FieldOfParts(w, c + d * 0x400, b, 0x6F + rd * 0x80 + a * 0x1000, 20, 1);
    FieldOfParts(w, d, c, 0x6F + rd * 0x80 + a * 0x1000 + b * 0x10_0000, 21, 10);
    FieldOfParts(w, 0, d, 0x6F + rd * 0x80 + a * 0x1000 + b * 0x10_0000 + c * 0x20_0000, 31, 1);
  }

  /** The standard B-type word assembled from its fields. */
  predicate IsBTypeWord(w: int, b7: nat, b8: nat, f3: nat, rs1: nat, rs2: nat, b25: nat, b31: nat)
  {
    && b7 < 2 && b8 < 16 && f3 < 8 && rs1 < 32 && rs2 < 32 && b25 < 64 && b31 < 2
    && w == 0x63 + b7 * 0x80 + b8 * 0x100 + f3 * 0x1000 + rs1 * 0x8000 + rs2 * 0x10_0000
            + b25 * 0x200_0000 + b31 * 0x8000_0000
  }

  /** Reading back opcode, offset bits 11 and 4..1, and funct3 of a standard B-type word. */
  lemma BTypeLowFields(w: int, b7: nat, b8: nat, f3: nat, rs1: nat, rs2: nat, b25: nat, b31: nat)
    requires IsBTypeWord(w, b7, b8, f3, rs1, rs2, b25, b31)
    ensures Field(w, 0, 7) == 0x63 && Field(w, 7, 1) == b7 && Field(w, 8, 4) == b8 && Field(w, 12, 3) == f3
  {
    Pow2Word();
    var hi12 := rs1 * 8 + rs2 * 256 + b25 * 8192 + b31 * 0x8_0000;
    FieldOfParts(w, b7 + b8 * 2 + f3 * 32 + hi12 * 32, 0x63, 0, 0, 7);
    FieldOfParts(w, b8 + f3 * 16 + hi12 * 16, b7, 0x63, 7, 1);
    FieldOfParts(w, f3 + hi12, b8, 0x63 + b7 * 0x80, 8, 4);
    FieldOfParts(w, hi12 / 8, f3, 0x63 + b7 * 0x80 + b8 * 0x100, 12, 3);
  }

  /** Reading back the registers and offset bits 10..5 and 12 of a standard B-type word. */
  lemma BTypeHighFields(w: int, b7: nat, b8: nat, f3: nat, rs1: nat, rs2: nat, b25: nat, b31: nat)
    requires IsBTypeWord(w, b7, b8, f3, rs1, rs2, b25, b31)
    ensures 0 <= w < 0x1_0000_0000
    ensures Field(w, 15, 5) == rs1 && Field(w, 20, 5) == rs2 && Field(w, 25, 6) == b25 && Field(w, 31, 1) == b31
  {
    Pow2Word();
    var low15 := 0x63 + b7 * 0x80 + b8 * 0x100 + f3 * 0x1000;
    FieldOfParts(w, rs2 + b25 * 32 + b31 * 0x800, rs1, low15, 15, 5);
    FieldOfParts(w, b25 + b31 * 64, rs2, low15 + rs1 * 0x8000, 20, 5);
    var low25 := low15 + rs1 * 0x8000 + rs2 * 0x10_0000;
    FieldOfParts(w, b31, b25, low25, 25, 6);
    FieldOfParts(w, 0, b31, low25 + b25 * 0x200_0000, 31, 1);
  }

  // ---------------------------------------------------------------------------
  // Branches as the assembler writes them
  // ---------------------------------------------------------------------------

  /** The funct3 field of a word, read from the bit-12 and bits-14..13 fields. */
  lemma Funct3Split(w: int)
    ensures Field(w, 12, 3) == Field(w, 12, 1) + Field(w, 13, 2) * 2
  {
    Pow2Word();
    FieldConcat(w, 12, 1, 2);
  }

  /** A sum already inside [0, 2^32) is its own 32-bit wrap. */
  lemma WrapSmall(pc: int, k: int)
    requires 0 <= pc + k < 0x1_0000_0000
    ensures (pc + k) % 0x1_0000_0000 == pc + k
  {
  }

  /** The parser's branch target for any word whose B-immediate is `imm`. */
  lemma BranchTargetOf(inst: int, imm: int, pc: int)
    requires BImm(inst) == imm
    ensures WrapTarget(pc, BranchOffset(inst)) == (pc + imm) % 0x1_0000_0000
  {
    BranchTarget(pc, inst);
  }

  /** The parser's JAL target for any word whose J-immediate is `imm`. */
  lemma JalTargetOf(inst: int, imm: int, pc: int)
    requires JImm(inst) == imm
    ensures WrapTarget(pc, JalOffset(inst)) == (pc + imm) % 0x1_0000_0000
  {
    JalTarget(pc, inst);
  }

  /** A JAL word whose J-immediate is 0 is decoded as a jump to its own pc. */
  lemma JalTargetZero(inst: int, pc: int)
    requires JImm(inst) == 0
    ensures WrapTarget(pc, JalOffset(inst)) == pc % 0x1_0000_0000
  {
    JalTarget(pc, inst);
  }

  /** The funct3 field read from its bit-12 and bits-14..13 parts. */
  lemma Funct3Of(w: int, b12: nat, b13: nat)
    requires Field(w, 12, 1) == b12 && Field(w, 13, 2) == b13
    ensures Field(w, 12, 3) == b12 + b13 * 2
  {
    Funct3Split(w);
  }

  /** Bit 12 of the word is funct3's bit 0 ORed with offset bit `b`; bits 13..14 are funct3's upper bits. */
  lemma Funct3Merge(w: int, f3: nat, b: int)
    requires f3 < 8
    requires Field(w, 12, 1) == (if f3 % 2 == 1 || b == 1 then 1 else 0) && Field(w, 13, 2) == f3 / 2
    ensures Field(w, 12, 3) == (if b == 1 then f3 / 2 * 2 + 1 else f3)
  {
    Funct3Of(w, if f3 % 2 == 1 || b == 1 then 1 else 0, f3 / 2);
  }

  /** The assembler's branch word keeps opcode, registers and bit 31 clear. */
  lemma BranchShapeAsWritten(op: BranchOp, rs1: Reg, rs2: Reg, off: int)
    ensures var w := EncodeBranch(op, rs1, rs2, off);
      w < 0x8000_0000 && Opcode(w) == 0x63 && Field(w, 15, 5) == rs1 && Field(w, 20, 5) == rs2
  {
    BranchFields(op, rs1, rs2, off);
    OpcodeField(EncodeBranch(op, rs1, rs2, off));
  }

  /** Offset bits 11..1, bit 0 clear: the part of a branch offset the assembler's word keeps. */
  function KeptBranchOffset(off: int): int
  {
    off % 0x1000 - off % 2
  }

  /** The assembler's branch word decodes to the offset's low twelve bits, made even and never negative. */
  lemma BranchImmAsWritten(op: BranchOp, rs1: Reg, rs2: Reg, off: int)
    ensures BImm(EncodeBranch(op, rs1, rs2, off)) == KeptBranchOffset(off)
    ensures 0 <= KeptBranchOffset(off) < 0x1000
  {
    BranchFields(op, rs1, rs2, off);
    OffsetBits12(off);
  }

  /** The assembler's branch word gains funct3 bit 0 whenever offset bit 12 is set. */
  lemma BranchFunct3AsWritten(op: BranchOp, rs1: Reg, rs2: Reg, off: int)
    ensures Field(EncodeBranch(op, rs1, rs2, off), 12, 3)
            == (if Field(off, 12, 1) == 1 then BranchFunct3(op) / 2 * 2 + 1 else BranchFunct3(op))
  {
    BranchFields(op, rs1, rs2, off);
    Funct3Merge(EncodeBranch(op, rs1, rs2, off), BranchFunct3(op), Field(off, 12, 1));
  }

  /** Where the parser says the assembler's branch goes: `pc` plus the kept offset bits, never backwards. */
  lemma BranchTargetAsWritten(op: BranchOp, rs1: Reg, rs2: Reg, off: int, pc: int)
    ensures WrapTarget(pc, BranchOffset(EncodeBranch(op, rs1, rs2, off))) == (pc + KeptBranchOffset(off)) % 0x1_0000_0000
  {
    BranchImmAsWritten(op, rs1, rs2, off);
    BranchTargetOf(EncodeBranch(op, rs1, rs2, off), KeptBranchOffset(off), pc);
  }

  /** A backward branch (even offset in [-4096, 0)) is decoded 4096 bytes further on: never backwards. */
  lemma BackwardBranchAsWritten(op: BranchOp, rs1: Reg, rs2: Reg, off: int, pc: int)
    requires -0x1000 <= off < 0 && off % 2 == 0
    ensures KeptBranchOffset(off) == off + 0x1000
    ensures WrapTarget(pc, BranchOffset(EncodeBranch(op, rs1, rs2, off))) == (pc + KeptBranchOffset(off)) % 0x1_0000_0000
  {
    DivModUnique(off, 0x1000, -1, off + 0x1000);
    BranchTargetAsWritten(op, rs1, rs2, off, pc);
  }

  /** `bne x1, x0, -8` at pc 16 (a loop back to pc 8) is decoded as a jump forward to 4104. */
  lemma BackwardBranchExample()
    ensures WrapTarget(16, BranchOffset(EncodeBranch(Bne, 1, 0, -8))) == 4104
  {
    BackwardBranchAsWritten(Bne, 1, 0, -8, 16);
    WrapSmall(16, KeptBranchOffset(-8));
  }

  /** `beq x0, x0, -4` is written with funct3 1, the encoding of `bne`. */
  lemma BackwardBeqBecomesBne()
    ensures Field(EncodeBranch(Beq, 0, 0, -4), 12, 3) == BranchFunct3(Bne)
  {
    Pow2Word();
    BranchFunct3AsWritten(Beq, 0, 0, -4);
    assert Field(-4, 12, 1) == 1 by {
      Signed13(-4);
    }
  }

  // ---------------------------------------------------------------------------
  // Branches in the standard layout
  // ---------------------------------------------------------------------------

  /** The fields of the standard branch word: funct3 intact, offset bit 12 at bit 31. */
  lemma BranchStdFields(op: BranchOp, rs1: Reg, rs2: Reg, off: int)
    ensures var w := EncodeBranchStd(op, rs1, rs2, off);
      && w < 0x1_0000_0000 && Field(w, 0, 7) == 0x63 && Field(w, 12, 3) == BranchFunct3(op)
      && Field(w, 15, 5) == rs1 && Field(w, 20, 5) == rs2
      && Field(w, 7, 1) == Field(off, 11, 1) && Field(w, 8, 4) == Field(off, 1, 4)
      && Field(w, 25, 6) == Field(off, 5, 6) && Field(w, 31, 1) == Field(off, 12, 1)
  {
    BranchStdWord(op, rs1, rs2, off);
    BranchImmPieces(off);
    var w := EncodeBranchStd(op, rs1, rs2, off);
    assert IsBTypeWord(w, Field(off, 11, 1), Field(off, 1, 4), BranchFunct3(op), rs1, rs2, Field(off, 5, 6),
                       Field(off, 12, 1));
    BTypeLowFields(w, Field(off, 11, 1), Field(off, 1, 4), BranchFunct3(op), rs1, rs2, Field(off, 5, 6),
                   Field(off, 12, 1));
    BTypeHighFields(w, Field(off, 11, 1), Field(off, 1, 4), BranchFunct3(op), rs1, rs2, Field(off, 5, 6),
                    Field(off, 12, 1));
  }

  /** The standard branch word keeps opcode, funct3 and both registers. */
  lemma BranchStdShape(op: BranchOp, rs1: Reg, rs2: Reg, off: int)
    ensures var w := EncodeBranchStd(op, rs1, rs2, off);
      && w < 0x1_0000_0000 && Opcode(w) == 0x63 && Field(w, 12, 3) == BranchFunct3(op)
      && Field(w, 15, 5) == rs1 && Field(w, 20, 5) == rs2
  {
    BranchStdFields(op, rs1, rs2, off);
    OpcodeField(EncodeBranchStd(op, rs1, rs2, off));
  }

  /** Every even offset in [-4096, 4096) survives the standard branch word. */
  lemma BranchStdRoundTrip(op: BranchOp, rs1: Reg, rs2: Reg, off: int)
    requires -0x1000 <= off < 0x1000 && off % 2 == 0
    ensures BImm(EncodeBranchStd(op, rs1, rs2, off)) == off
  {
    BranchStdFields(op, rs1, rs2, off);
    OffsetBits12(off);
    Signed13(off);
  }

  /** With the standard branch word the parser's target is `pc + offset`, modulo 2^32. */
  lemma BranchStdTarget(op: BranchOp, rs1: Reg, rs2: Reg, off: int, pc: int)
    requires -0x1000 <= off < 0x1000 && off % 2 == 0
    ensures WrapTarget(pc, BranchOffset(EncodeBranchStd(op, rs1, rs2, off))) == (pc + off) % 0x1_0000_0000
  {
    BranchStdRoundTrip(op, rs1, rs2, off);
    BranchTargetOf(EncodeBranchStd(op, rs1, rs2, off), off, pc);
  }

  // ---------------------------------------------------------------------------
  // JAL as the assembler writes it
  // ---------------------------------------------------------------------------

  /** The fields of the assembler's JAL word, as the J-type decoder reads them. */
  lemma JalFieldsAsWritten(rd: Reg, off: int)
    ensures var w := EncodeJal(rd, off);
      && w < 0x1_0000_0000 && Field(w, 0, 7) == 0x6F && Field(w, 7, 5) == rd
      && Field(w, 12, 8) == Field(off, 12, 8) && Field(w, 20, 1) == Field(off, 20, 1)
      && Field(w, 21, 10) == Field(off, 21, 10) && Field(w, 31, 1) == Field(off, 31, 1)
  {
    JalWord(rd, off);
    UpperBits(off);
    JTypeFields(EncodeJal(rd, off), rd, Field(off, 12, 8), Field(off, 20, 1), Field(off, 21, 10), Field(off, 31, 1));
  }

  /**
   The assembler's JAL word carries offset bits 31..12 where the J-type format
   expects bits 20, 10..1, 11 and 19..12, so the parser reads them scrambled.
   */
  lemma JalAsWritten(rd: Reg, off: int)
    ensures var w := EncodeJal(rd, off);
      && w < 0x1_0000_0000 && Opcode(w) == 0x6F && Field(w, 7, 5) == rd
      && JImm(w) == Field(off, 12, 8) * 0x1000 + Field(off, 20, 1) * 0x800 + Field(off, 21, 10) * 2
                    - Field(off, 31, 1) * 0x10_0000
  {
    JalFieldsAsWritten(rd, off);
    OpcodeField(EncodeJal(rd, off));
  }

  /** A JAL forward by less than 4096 bytes is decoded with offset 0. */
  lemma ShortJalImm(rd: Reg, off: int)
    requires 0 <= off < 0x1000
    ensures JImm(EncodeJal(rd, off)) == 0
  {
    Pow2Word();
    JalFieldsAsWritten(rd, off);
    FieldAbove(off, 12, 20);
    UpperBits(off);
  }

  /** A JAL forward by less than 4096 bytes is decoded as a jump to itself. */
  lemma ShortJalDecodesToItself(rd: Reg, off: int, pc: int)
    requires 0 <= off < 0x1000
    ensures WrapTarget(pc, JalOffset(EncodeJal(rd, off))) == pc % 0x1_0000_0000
  {
    ShortJalImm(rd, off);
    JalTargetZero(EncodeJal(rd, off), pc);
  }

  /** `jal x0, 8` at pc 36 (a jump to 44) is decoded as a jump to 36. */
  lemma ForwardJalExample()
    ensures WrapTarget(36, JalOffset(EncodeJal(0, 8))) == 36
  {
    var pc := 36;
    ShortJalDecodesToItself(0, 8, pc);
    WrapSmall(pc, 0);
  }

  // ---------------------------------------------------------------------------
  // JAL in the standard layout
  // ---------------------------------------------------------------------------

  /** The fields of the standard JAL word. */
  lemma JalStdFields(rd: Reg, off: int)
    ensures var w := EncodeJalStd(rd, off);
      && w < 0x1_0000_0000 && Field(w, 0, 7) == 0x6F && Field(w, 7, 5) == rd
      && Field(w, 12, 8) == Field(off, 12, 8) && Field(w, 20, 1) == Field(off, 11, 1)
      && Field(w, 21, 10) == Field(off, 1, 10) && Field(w, 31, 1) == Field(off, 20, 1)
  {
    JalStdWord(rd, off);
    JalStdPieces(off);
    JalStdBit20(off);
    JTypeFields(EncodeJalStd(rd, off), rd, Field(off, 12, 8), Field(off, 11, 1), Field(off, 1, 10), Field(off, 20, 1));
  }

  /** The standard JAL word keeps opcode and rd. */
  lemma JalStdShape(rd: Reg, off: int)
    ensures var w := EncodeJalStd(rd, off);
      w < 0x1_0000_0000 && Opcode(w) == 0x6F && Field(w, 7, 5) == rd
  {
    JalStdFields(rd, off);
    OpcodeField(EncodeJalStd(rd, off));
  }

  /** Every even offset in [-2^20, 2^20) survives the standard JAL word. */
  lemma JalStdRoundTrip(rd: Reg, off: int)
    requires -0x10_0000 <= off < 0x10_0000 && off % 2 == 0
    ensures JImm(EncodeJalStd(rd, off)) == off
  {
    JalStdFields(rd, off);
    OffsetBits21(off);
    Signed21(off);
  }

  /** With the standard JAL word the parser's target is `pc + offset`, modulo 2^32. */
  lemma JalStdTarget(rd: Reg, off: int, pc: int)
    requires -0x10_0000 <= off < 0x10_0000 && off % 2 == 0
    ensures WrapTarget(pc, JalOffset(EncodeJalStd(rd, off))) == (pc + off) % 0x1_0000_0000
  {
    JalStdRoundTrip(rd, off);
    JalTargetOf(EncodeJalStd(rd, off), off, pc);
  }
}
