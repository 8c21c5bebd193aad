/**
 The instruction encoders of `RISCVAssembler`: R-type, I-type, branch (B-type)
 and the two jumps.  Each encoder is written the way the assembler writes it,
 as a chain of Python `|`, `&` and `<<` over the operands; the lemmas give the
 word as a sum of fields and read every field back.

 Two encoders differ from the RV32I base formats (section 2.3 of the RISC-V
 Unprivileged ISA): the branch encoder leaves immediate bit 12 at word bit 12,
 and the JAL encoder packs `offset & 0xFFFFF000` without the J-type bit
 scramble.  `EncodeBranch` and `EncodeJal` keep that behaviour; `EncodeBranchStd`
 and `EncodeJalStd` place the bits as the base formats do.
 */
module Encoding {
  import opened Bits

  /** A register number as it appears in an encoded word. */
  type Reg = r: nat | r < 32

  datatype BranchOp = Beq | Bne | Blt | Bge
  datatype ROp = RAdd | RSub | RAnd | ROr | RXor
  datatype IOp = IAddi | IAndi | IOri | IXori

  /** The `funct3_map` of `_encode_branch`. */
  function BranchFunct3(op: BranchOp): (f: nat)
    ensures f < 8
  {
    match op
    case Beq => 0
    case Bne => 1
    case Blt => 4
    case Bge => 5
  }

  /** The `funct3_map` of `_encode_rtype`. */
  function RFunct3(op: ROp): (f: nat)
    ensures f < 8
  {
    match op
    case RAdd => 0
    case RSub => 0
    case RAnd => 7
    case ROr => 6
    case RXor => 4
  }

  /** The `funct7_map` of `_encode_rtype`. */
  function RFunct7(op: ROp): (f: nat)
    ensures f < 128
  {
    match op
    case RSub => 0x20
    case _ => 0
  }

  /** The `funct3_map` of `_encode_itype`. */
  function IFunct3(op: IOp): (f: nat)
    ensures f < 8
  {
    match op
    case IAddi => 0
    case IAndi => 7
    case IOri => 6
    case IXori => 4
  }

  // ---------------------------------------------------------------------------
  // The encoders, as written
  // ---------------------------------------------------------------------------

  /** `_encode_rtype`. */
  function EncodeRType(op: ROp, rd: Reg, rs1: Reg, rs2: Reg): nat
  {
    Or(Or(Or(Or(Or(0x33, Shl(rd, 7)), Shl(RFunct3(op), 12)), Shl(rs1, 15)), Shl(rs2, 20)),
       Shl(RFunct7(op), 25))
  }

  /** `_encode_itype`; the immediate is any integer and is masked to 12 bits. */
  function EncodeIType(op: IOp, rd: Reg, rs1: Reg, imm: int): nat
  {
    Or(Or(Or(Or(0x13, Shl(rd, 7)), Shl(IFunct3(op), 12)), Shl(rs1, 15)), Shl(And(imm, 0xFFF), 20))
  }

  /** `_encode_branch` once the offset is known. */
  function EncodeBranch(op: BranchOp, rs1: Reg, rs2: Reg, offset: int): nat
  {
    var imm12 := And(offset, 0x1000);
    var imm10_5 := Shl(And(offset, 0x7E0), 20);
    var imm4_1 := Shl(And(offset, 0x1E), 7);
    var imm11 := Shr(And(offset, 0x800), 4);
    Or(Or(Or(Or(Or(Or(Or(0x63, Shl(BranchFunct3(op), 12)), Shl(rs1, 15)), Shl(rs2, 20)),
                imm4_1), imm11), imm10_5), imm12)
  }

  /** The `jal` arm of `_encode_jump` once the offset is known. */
  function EncodeJal(rd: Reg, offset: int): nat
  {
    Or(Or(0x6F, Shl(rd, 7)), And(offset, 0xFFFFF000))
  }

  /** The `jalr` arm of `_encode_jump`; the caller passes 0 when the offset is omitted. */
  function EncodeJalr(rd: Reg, rs1: Reg, offset: int): nat
  {
    Or(Or(Or(Or(0x67, Shl(rd, 7)), Shl(0, 12)), Shl(rs1, 15)), Shl(And(offset, 0xFFF), 20))
  }

  // ---------------------------------------------------------------------------
  // The words as sums of fields
  // ---------------------------------------------------------------------------

  /** Or-ing rd, a funct3 and rs1 in above a 7-bit opcode. */
  lemma PackLow(opc: nat, rd: Reg, f3: nat, rs1: Reg)
    requires opc < 128 && f3 < 8
    ensures Or(Or(Or(opc, Shl(rd, 7)), Shl(f3, 12)), Shl(rs1, 15))
            == opc + rd * 0x80 + f3 * 0x1000 + rs1 * 0x8000
  {
    Pow2Word();
    var a1 := Or(opc, Shl(rd, 7));
    OrAbove(opc, Shl(rd, 7), rd, 7);
    OrAbove(a1, Shl(f3, 12), f3, 12);
    OrAbove(Or(a1, Shl(f3, 12)), Shl(rs1, 15), rs1, 15);
  }

  /** The R-type word is opcode 0x33, rd, funct3, rs1, rs2 and funct7 side by side. */
  lemma RTypeWord(op: ROp, rd: Reg, rs1: Reg, rs2: Reg)
    ensures EncodeRType(op, rd, rs1, rs2)
            == 0x33 + rd * 0x80 + RFunct3(op) * 0x1000 + rs1 * 0x8000 + rs2 * 0x10_0000
               + RFunct7(op) * 0x200_0000
  {
    Pow2Word();
    var low := Or(Or(Or(0x33, Shl(rd, 7)), Shl(RFunct3(op), 12)), Shl(rs1, 15));
    PackLow(0x33, rd, RFunct3(op), rs1);
    OrAbove(low, Shl(rs2, 20), rs2, 20);
    OrAbove(Or(low, Shl(rs2, 20)), Shl(RFunct7(op), 25), RFunct7(op), 25);
  }

  /** Every field of the R-type word reads back what was packed, and the word fits 32 bits. */
  lemma RTypeFields(op: ROp, rd: Reg, rs1: Reg, rs2: Reg)
    ensures var w := EncodeRType(op, rd, rs1, rs2);
      && w < 0x1_0000_0000
      && Field(w, 0, 7) == 0x33 && Field(w, 7, 5) == rd && Field(w, 12, 3) == RFunct3(op)
      && Field(w, 15, 5) == rs1 && Field(w, 20, 5) == rs2 && Field(w, 25, 7) == RFunct7(op)
  {
    RTypeWord(op, rd, rs1, rs2);
    RFields(EncodeRType(op, rd, rs1, rs2), 0x33, rd, RFunct3(op), rs1, rs2, RFunct7(op));
  }

  /** Reading back the fields of a word laid out in the R-type format. */
  lemma RFields(w: nat, opc: nat, rd: nat, f3: nat, rs1: nat, rs2: nat, f7: nat)
    requires opc < 128 && rd < 32 && f3 < 8 && rs1 < 32 && rs2 < 32 && f7 < 128
    requires w == opc + rd * 0x80 + f3 * 0x1000 + rs1 * 0x8000 + rs2 * 0x10_0000 + f7 * 0x200_0000
    ensures w < 0x1_0000_0000
    ensures Field(w, 0, 7) == opc && Field(w, 7, 5) == rd && Field(w, 12, 3) == f3
    ensures Field(w, 15, 5) == rs1 && Field(w, 20, 5) == rs2 && Field(w, 25, 7) == f7
  {
    Pow2Word();
    FieldOfParts(w, rd + f3 * 32 + rs1 * 256 + rs2 * 8192 + f7 * 262144, opc, 0, 0, 7);
    FieldOfParts(w, f3 + rs1 * 8 + rs2 * 256 + f7 * 8192, rd, opc, 7, 5);
    FieldOfParts(w, rs1 + rs2 * 32 + f7 * 1024, f3, opc + rd * 128, 12, 3);
    FieldOfParts(w, rs2 + f7 * 32, rs1, opc + rd * 128 + f3 * 4096, 15, 5);
    FieldOfParts(w, f7, rs2, opc + rd * 128 + f3 * 4096 + rs1 * 32768, 20, 5);
    FieldOfParts(w, 0, f7, opc + rd * 128 + f3 * 4096 + rs1 * 32768 + rs2 * 0x10_0000, 25, 7);
  }

  /** `add` and `sub` with the same operands differ exactly in bit 30. */
  lemma AddSubBit30(rd: Reg, rs1: Reg, rs2: Reg)
    ensures EncodeRType(RSub, rd, rs1, rs2) == EncodeRType(RAdd, rd, rs1, rs2) + Pow2(30)
    ensures Field(EncodeRType(RSub, rd, rs1, rs2), 30, 1) == 1
    ensures Field(EncodeRType(RAdd, rd, rs1, rs2), 30, 1) == 0
  {
    Pow2Word();
    var w := EncodeRType(RAdd, rd, rs1, rs2);
    RTypeWord(RAdd, rd, rs1, rs2);
    RTypeWord(RSub, rd, rs1, rs2);
    FieldOfParts(w, 0, 0, w, 30, 1);
    FieldOfParts(w + Pow2(30), 0, 1, w, 30, 1);
  }

  /** Python `x & 0xFFF` is `x mod 4096`, also for negative `x`. */
  lemma LowMask12(x: int)
    ensures And(x, 0xFFF) == x % 4096
  {
    Pow2Word();
    AndLowMask(x, 12);
  }

  /** The I-type word is opcode 0x13, rd, funct3, rs1 and the immediate modulo 4096. */
  lemma ITypeWord(op: IOp, rd: Reg, rs1: Reg, imm: int)
    ensures EncodeIType(op, rd, rs1, imm)
            == 0x13 + rd * 0x80 + IFunct3(op) * 0x1000 + rs1 * 0x8000 + (imm % 4096) * 0x10_0000
  {
    Pow2Word();
    var low := Or(Or(Or(0x13, Shl(rd, 7)), Shl(IFunct3(op), 12)), Shl(rs1, 15));
    var i := And(imm, 0xFFF);
    PackLow(0x13, rd, IFunct3(op), rs1);
    LowMask12(imm);
    OrAbove(low, Shl(i, 20), i, 20);
  }

  /** Every field of the I-type word reads back; the immediate field is `imm mod 4096`. */
  lemma ITypeFields(op: IOp, rd: Reg, rs1: Reg, imm: int)
    ensures var w := EncodeIType(op, rd, rs1, imm);
      && w < 0x1_0000_0000
      && Field(w, 0, 7) == 0x13 && Field(w, 7, 5) == rd && Field(w, 12, 3) == IFunct3(op)
      && Field(w, 15, 5) == rs1 && Field(w, 20, 12) == imm % 4096
  {
    ITypeWord(op, rd, rs1, imm);
    IFields(EncodeIType(op, rd, rs1, imm), 0x13, rd, IFunct3(op), rs1, imm % 4096);
  }

  /** Reading back the fields of a word laid out in the I-type format. */
  lemma IFields(w: nat, opc: nat, rd: nat, f3: nat, rs1: nat, i: nat)
    requires opc < 128 && rd < 32 && f3 < 8 && rs1 < 32 && i < 4096
    requires w == opc + rd * 0x80 + f3 * 0x1000 + rs1 * 0x8000 + i * 0x10_0000
    ensures w < 0x1_0000_0000
    ensures Field(w, 0, 7) == opc && Field(w, 7, 5) == rd && Field(w, 12, 3) == f3
    ensures Field(w, 15, 5) == rs1 && Field(w, 20, 12) == i
  {
    Pow2Word();
    FieldOfParts(w, rd + f3 * 32 + rs1 * 256 + i * 8192, opc, 0, 0, 7);
    FieldOfParts(w, f3 + rs1 * 8 + i * 256, rd, opc, 7, 5);
    FieldOfParts(w, rs1 + i * 32, f3, opc + rd * 128, 12, 3);
    FieldOfParts(w, i, rs1, opc + rd * 128 + f3 * 4096, 15, 5);
    FieldOfParts(w, 0, i, opc + rd * 128 + f3 * 4096 + rs1 * 32768, 20, 12);
  }

  /** The masks the branch encoder applies, as fields of the offset. */
  lemma OffsetMasks(x: int)
    ensures And(x, 0x1E) == Field(x, 1, 4) * 2
    ensures And(x, 0x7E0) == Field(x, 5, 6) * 32
    ensures And(x, 0x800) == Field(x, 11, 1) * 0x800
    ensures And(x, 0x1000) == Field(x, 12, 1) * 0x1000
  {
    Pow2Word();
    AndMask(x, 1, 4);
    AndMask(x, 5, 6);
    AndMask(x, 11, 1);
    AndMask(x, 12, 1);
  }

  /** The mask of `_encode_jump` for `jal` keeps offset bits 31..12 in place. */
  lemma UpperMask(x: int)
    ensures And(x, 0xFFFFF000) == Field(x, 12, 20) * 0x1000
  {
    Pow2Word();
    AndMask(x, 12, 20);
  }

  /** The four immediate pieces of `_encode_branch`, each already shifted into place. */
  lemma BranchImmPieces(offset: int)
    ensures Shl(And(offset, 0x1E), 7) == Field(offset, 1, 4) * 0x100
    ensures Shr(And(offset, 0x800), 4) == Field(offset, 11, 1) * 0x80
    ensures Shl(And(offset, 0x7E0), 20) == Field(offset, 5, 6) * 0x200_0000
    ensures And(offset, 0x1000) == Field(offset, 12, 1) * 0x1000
    ensures Field(offset, 1, 4) < 16 && Field(offset, 11, 1) < 2 && Field(offset, 5, 6) < 64
    ensures Field(offset, 12, 1) < 2
  {
    Imm41Piece(offset);
    Imm11Piece(offset);
    Imm105Piece(offset);
    Imm12Piece(offset);
  }

  /** Offset bits 4..1, masked and shifted left by 7, land in word bits 11..8. */
  lemma Imm41Piece(offset: int)
    ensures Shl(And(offset, 0x1E), 7) == Field(offset, 1, 4) * 0x100 && Field(offset, 1, 4) < 16
  {
    OffsetMasks(offset);
    Pow2Word();
  }

  /** Offset bit 11, masked and shifted right by 4, lands in word bit 7. */
  lemma Imm11Piece(offset: int)
    ensures Shr(And(offset, 0x800), 4) == Field(offset, 11, 1) * 0x80 && Field(offset, 11, 1) < 2
  {
    var f := Field(offset, 11, 1);
    OffsetMasks(offset);
    Pow2Word();
    assert And(offset, 0x800) == Shl(f * 0x80, 4);
    ShrShl(f * 0x80, 4);
  }

  /** Offset bits 10..5, masked and shifted left by 20, land in word bits 30..25. */
  lemma Imm105Piece(offset: int)
    ensures Shl(And(offset, 0x7E0), 20) == Field(offset, 5, 6) * 0x200_0000 && Field(offset, 5, 6) < 64
  {
    OffsetMasks(offset);
    Pow2Word();
  }

  /** Offset bit 12, masked, stays at bit 12. */
  lemma Imm12Piece(offset: int)
    ensures And(offset, 0x1000) == Field(offset, 12, 1) * 0x1000 && Field(offset, 12, 1) < 2
  {
    OffsetMasks(offset);
    Pow2Word();
  }

  /** Or-ing funct3 and both source registers above the branch opcode. */
  lemma BranchRegs(f3: nat, rs1: Reg, rs2: Reg)
    requires f3 < 8
    ensures Or(Or(Or(0x63, Shl(f3, 12)), Shl(rs1, 15)), Shl(rs2, 20))
            == 0x63 + f3 * 0x1000 + rs1 * 0x8000 + rs2 * 0x10_0000
  {
    Pow2Word();
    var a1 := Or(0x63, Shl(f3, 12));
    OrAbove(0x63, Shl(f3, 12), f3, 12);
    OrAbove(a1, Shl(rs1, 15), rs1, 15);
    OrAbove(Or(a1, Shl(rs1, 15)), Shl(rs2, 20), rs2, 20);
  }

  /** Offset bits 4..1 go into the empty word bits 11..8. */
  lemma OrImm41(a: nat, b: nat, hi: nat, f: nat)
    requires f < 16 && b == f * 0x100 && a == 0x63 + hi * 0x1000
    ensures Or(a, b) == a + b
  {
    Pow2Word();
    FieldOfParts(a, hi, 0, 0x63, 8, 4);
    OrInsert(a, b, f, 8, 4);
  }

  /** Offset bit 11 goes into the empty word bit 7. */
  lemma OrImm11(a: nat, b: nat, hi: nat, f: nat)
    requires f < 2 && b == f * 0x80 && a == 0x63 + hi * 0x100
    ensures Or(a, b) == a + b
  {
    Pow2Word();
    FieldOfParts(a, hi, 0, 0x63, 7, 1);
    OrInsert(a, b, f, 7, 1);
  }

  /** Offset bits 10..5 go above everything else, at word bits 30..25. */
  lemma OrImm105(a: nat, b: nat, f: nat)
    requires a < 0x200_0000 && b == f * 0x200_0000
    ensures Or(a, b) == a + b
  {
    Pow2Word();
    OrAbove(a, b, f, 25);
  }

  /** Offset bit 12 goes to word bit 12, where funct3 bit 0 already sits. */
  lemma OrImm12(a: nat, b: nat, low: nat, f3: nat, hi: nat, f12: nat)
    requires low < 0x1000 && f3 < 8 && a == low + f3 * 0x1000 + hi * 0x8000
    requires f12 < 2 && b == f12 * 0x1000
    ensures Or(a, b) == low + (if f3 % 2 == 1 || f12 == 1 then 0x1000 else 0) + (f3 / 2) * 0x2000 + hi * 0x8000
  {
    Pow2Word();
    FieldOfParts(a, f3 / 2 + hi * 4, f3 % 2, low, 12, 1);
    OrBit(a, b, 12);
  }

  /** The branch word before immediate bits 10..5 and 12 are or-ed in. */
  lemma BranchLowWord(f3: nat, rs1: Reg, rs2: Reg, offset: int)
    requires f3 < 8
    ensures Or(Or(Or(Or(Or(0x63, Shl(f3, 12)), Shl(rs1, 15)), Shl(rs2, 20)),
                  Shl(And(offset, 0x1E), 7)), Shr(And(offset, 0x800), 4))
            == 0x63 + Field(offset, 11, 1) * 0x80 + Field(offset, 1, 4) * 0x100 + f3 * 0x1000
               + rs1 * 0x8000 + rs2 * 0x10_0000
  {
    var f11, f41 := Field(offset, 11, 1), Field(offset, 1, 4);
    var regs := Or(Or(Or(0x63, Shl(f3, 12)), Shl(rs1, 15)), Shl(rs2, 20));
    var b41, b11 := Shl(And(offset, 0x1E), 7), Shr(And(offset, 0x800), 4);
    BranchRegs(f3, rs1, rs2);
    BranchImmPieces(offset);
    OrImm41(regs, b41, f3 + rs1 * 8 + rs2 * 256, f41);
    OrImm11(Or(regs, b41), b11, f41 + f3 * 16 + rs1 * 128 + rs2 * 4096, f11);
  }

  /**
   The branch word as fields.  Word bit 12 holds funct3 bit 0 or-ed with
   offset bit 12, and bit 31 stays clear.
   */
  lemma BranchWord(op: BranchOp, rs1: Reg, rs2: Reg, offset: int)
    ensures var f3 := BranchFunct3(op);
      EncodeBranch(op, rs1, rs2, offset)
      == 0x63 + Field(offset, 11, 1) * 0x80 + Field(offset, 1, 4) * 0x100
         + (if f3 % 2 == 1 || Field(offset, 12, 1) == 1 then 0x1000 else 0)
         + (f3 / 2) * 0x2000 + rs1 * 0x8000 + rs2 * 0x10_0000 + Field(offset, 5, 6) * 0x200_0000
  {
    var f3 := BranchFunct3(op);
    var f11, f41, f105 := Field(offset, 11, 1), Field(offset, 1, 4), Field(offset, 5, 6);
    var low := Or(Or(Or(Or(Or(0x63, Shl(f3, 12)), Shl(rs1, 15)), Shl(rs2, 20)),
                     Shl(And(offset, 0x1E), 7)), Shr(And(offset, 0x800), 4));
    var b105, b12 := Shl(And(offset, 0x7E0), 20), And(offset, 0x1000);
    BranchLowWord(f3, rs1, rs2, offset);
    BranchImmPieces(offset);
    OrImm105(low, b105, f105);
    OrImm12(Or(low, b105), b12, 0x63 + f11 * 0x80 + f41 * 0x100, f3, rs1 + rs2 * 32 + f105 * 1024,
            Field(offset, 12, 1));
  }

  /** Reading back the fields of a branch word. */
  lemma BranchFields(op: BranchOp, rs1: Reg, rs2: Reg, offset: int)
    ensures var w, f3 := EncodeBranch(op, rs1, rs2, offset), BranchFunct3(op);
      && w < 0x8000_0000 && Field(w, 31, 1) == 0
      && Field(w, 0, 7) == 0x63 && Field(w, 7, 1) == Field(offset, 11, 1)
      && Field(w, 8, 4) == Field(offset, 1, 4) && Field(w, 25, 6) == Field(offset, 5, 6)
      && Field(w, 12, 1) == (if f3 % 2 == 1 || Field(offset, 12, 1) == 1 then 1 else 0)
      && Field(w, 13, 2) == f3 / 2 && Field(w, 15, 5) == rs1 && Field(w, 20, 5) == rs2
  {
    var f3 := BranchFunct3(op);
    Pow2Word();
    BranchWord(op, rs1, rs2, offset);
    BFields(EncodeBranch(op, rs1, rs2, offset), Field(offset, 11, 1), Field(offset, 1, 4),
            if f3 % 2 == 1 || Field(offset, 12, 1) == 1 then 1 else 0, f3 / 2, rs1, rs2, Field(offset, 5, 6));
  }

  /** Reading back the fields of a word laid out in the B-type format with bit 31 clear. */
  lemma BFields(w: nat, b7: nat, b8: nat, b12: nat, b13: nat, rs1: nat, rs2: nat, b25: nat)
    requires b7 < 2 && b8 < 16 && b12 < 2 && b13 < 4 && rs1 < 32 && rs2 < 32 && b25 < 64
    requires w == 0x63 + b7 * 0x80 + b8 * 0x100 + b12 * 0x1000 + b13 * 0x2000 + rs1 * 0x8000
                  + rs2 * 0x10_0000 + b25 * 0x200_0000
    ensures w < 0x8000_0000 && Field(w, 31, 1) == 0
    ensures Field(w, 0, 7) == 0x63 && Field(w, 7, 1) == b7 && Field(w, 8, 4) == b8
    ensures Field(w, 12, 1) == b12 && Field(w, 13, 2) == b13 && Field(w, 15, 5) == rs1
    ensures Field(w, 20, 5) == rs2 && Field(w, 25, 6) == b25
  {
    Pow2Word();
    var hi7 := b7 + b8 * 2 + b12 * 32 + b13 * 64 + rs1 * 256 + rs2 * 8192 + b25 * 262144;
    FieldOfParts(w, hi7, 0x63, 0, 0, 7);
    FieldOfParts(w, b8 + b12 * 16 + b13 * 32 + rs1 * 128 + rs2 * 4096 + b25 * 131072, b7, 0x63, 7, 1);
    FieldOfParts(w, b12 + b13 * 2 + rs1 * 8 + rs2 * 256 + b25 * 8192, b8, 0x63 + b7 * 0x80, 8, 4);
    FieldOfParts(w, b13 + rs1 * 4 + rs2 * 128 + b25 * 4096, b12, 0x63 + b7 * 0x80 + b8 * 0x100, 12, 1);
    var low13 := 0x63 + b7 * 0x80 + b8 * 0x100 + b12 * 0x1000;
    FieldOfParts(w, rs1 + rs2 * 32 + b25 * 1024, b13, low13, 13, 2);
    FieldOfParts(w, rs2 + b25 * 32, rs1, low13 + b13 * 0x2000, 15, 5);
    FieldOfParts(w, b25, rs2, low13 + b13 * 0x2000 + rs1 * 0x8000, 20, 5);
    var low25 := low13 + b13 * 0x2000 + rs1 * 0x8000 + rs2 * 0x10_0000;
    FieldOfParts(w, 0, b25, low25, 25, 6);
    FieldOfParts(w, 0, 0, w, 31, 1);
  }

  /** The JAL word is opcode 0x6F, rd, and offset bits 31..12 unmoved. */
  lemma JalWord(rd: Reg, offset: int)
    ensures EncodeJal(rd, offset) == 0x6F + rd * 0x80 + Field(offset, 12, 20) * 0x1000
  {
    Pow2Word();
    OrAbove(0x6F, Shl(rd, 7), rd, 7);
    UpperMask(offset);
    OrAbove(Or(0x6F, Shl(rd, 7)), And(offset, 0xFFFFF000), Field(offset, 12, 20), 12);
  }

  /** Reading back the fields of the JAL word. */
  lemma JalFields(rd: Reg, offset: int)
    ensures var w := EncodeJal(rd, offset);
      && w < 0x1_0000_0000 && Field(w, 0, 7) == 0x6F && Field(w, 7, 5) == rd
      && Field(w, 12, 20) == Field(offset, 12, 20)
  {
    Pow2Word();
    JalWord(rd, offset);
    JFields(EncodeJal(rd, offset), rd, Field(offset, 12, 20));
  }

  /** Reading back the fields of a word laid out as opcode 0x6F, rd and a 20-bit upper part. */
  lemma JFields(w: nat, rd: nat, f: nat)
    requires rd < 32 && f < 0x10_0000 && w == 0x6F + rd * 0x80 + f * 0x1000
    ensures w < 0x1_0000_0000 && Field(w, 0, 7) == 0x6F && Field(w, 7, 5) == rd && Field(w, 12, 20) == f
  {
    Pow2Word();
    FieldOfParts(w, rd + f * 32, 0x6F, 0, 0, 7);
    FieldOfParts(w, f, rd, 0x6F, 7, 5);
    FieldOfParts(w, 0, f, 0x6F + rd * 0x80, 12, 20);
  }

  /** The JALR word is the I-type layout with opcode 0x67 and funct3 0. */
  lemma JalrWord(rd: Reg, rs1: Reg, offset: int)
    ensures EncodeJalr(rd, rs1, offset) == 0x67 + rd * 0x80 + rs1 * 0x8000 + (offset % 4096) * 0x10_0000
  {
    Pow2Word();
    var low := Or(Or(Or(0x67, Shl(rd, 7)), Shl(0, 12)), Shl(rs1, 15));
    var i := And(offset, 0xFFF);
    PackLow(0x67, rd, 0, rs1);
    LowMask12(offset);
    OrAbove(low, Shl(i, 20), i, 20);
  }

  /** Reading back the fields of the JALR word; funct3 is 0. */
  lemma JalrFields(rd: Reg, rs1: Reg, offset: int)
    ensures var w := EncodeJalr(rd, rs1, offset);
      && w < 0x1_0000_0000
      && Field(w, 0, 7) == 0x67 && Field(w, 7, 5) == rd && Field(w, 12, 3) == 0
      && Field(w, 15, 5) == rs1 && Field(w, 20, 12) == offset % 4096
  {
    JalrWord(rd, rs1, offset);
    IFields(EncodeJalr(rd, rs1, offset), 0x67, rd, 0, rs1, offset % 4096);
  }

  // ---------------------------------------------------------------------------
  // Standard placements of the branch and JAL immediates
  // ---------------------------------------------------------------------------

  /** `_encode_branch` with offset bit 12 moved to word bit 31, as the B-type format places it. */
  function EncodeBranchStd(op: BranchOp, rs1: Reg, rs2: Reg, offset: int): nat
  {
    var imm12 := Shl(And(offset, 0x1000), 19);
    var imm10_5 := Shl(And(offset, 0x7E0), 20);
    var imm4_1 := Shl(And(offset, 0x1E), 7);
    var imm11 := Shr(And(offset, 0x800), 4);
    Or(Or(Or(Or(Or(Or(Or(0x63, Shl(BranchFunct3(op), 12)), Shl(rs1, 15)), Shl(rs2, 20)),
                imm4_1), imm11), imm10_5), imm12)
  }

  /** JAL with the J-type immediate: offset bits 20, 10..1, 11 and 19..12 from word bit 31 down. */
  function EncodeJalStd(rd: Reg, offset: int): nat
  {
    Or(Or(Or(Or(Or(0x6F, Shl(rd, 7)), And(offset, 0xFF000)), Shl(And(offset, 0x800), 9)),
          Shl(And(offset, 0x7FE), 20)), Shl(And(offset, 0x10_0000), 11))
  }

  /** Offset bit 12 of the standard branch word, shifted to bit 31. */
  lemma BranchStdBit31(offset: int)
    ensures Shl(And(offset, 0x1000), 19) == Field(offset, 12, 1) * 0x8000_0000
    ensures Field(offset, 12, 1) < 2
  {
    Pow2Word();
    OffsetMasks(offset);
  }

  /** The standard branch word: funct3 intact at bits 14..12 and offset bit 12 at bit 31. */
  lemma BranchStdWord(op: BranchOp, rs1: Reg, rs2: Reg, offset: int)
    ensures EncodeBranchStd(op, rs1, rs2, offset)
            == 0x63 + Field(offset, 11, 1) * 0x80 + Field(offset, 1, 4) * 0x100 + BranchFunct3(op) * 0x1000
               + rs1 * 0x8000 + rs2 * 0x10_0000 + Field(offset, 5, 6) * 0x200_0000
               + Field(offset, 12, 1) * 0x8000_0000
  {
    var f3 := BranchFunct3(op);
    var f105 := Field(offset, 5, 6);
    var low := Or(Or(Or(Or(Or(0x63, Shl(f3, 12)), Shl(rs1, 15)), Shl(rs2, 20)),
                     Shl(And(offset, 0x1E), 7)), Shr(And(offset, 0x800), 4));
    var b105, b12 := Shl(And(offset, 0x7E0), 20), Shl(And(offset, 0x1000), 19);
    BranchLowWord(f3, rs1, rs2, offset);
    BranchImmPieces(offset);
    BranchStdBit31(offset);
    OrImm105(low, b105, f105);
    OrTop(Or(low, b105), b12, Field(offset, 12, 1));
  }

  /** Or-ing one bit into word bit 31 above a number below 2^31. */
  lemma OrTop(a: nat, b: nat, f: nat)
    requires a < 0x8000_0000 && b == f * 0x8000_0000
    ensures Or(a, b) == a + b
  {
    Pow2Word();
    OrAbove(a, b, f, 31);
  }

  /** The masked offset pieces of the standard JAL encoding, shifted into place. */
  lemma JalStdPieces(offset: int)
    ensures And(offset, 0xFF000) == Field(offset, 12, 8) * 0x1000
    ensures Shl(And(offset, 0x7FE), 20) == Field(offset, 1, 10) * 0x20_0000
    ensures Shl(And(offset, 0x10_0000), 11) == Field(offset, 20, 1) * 0x8000_0000
    ensures Field(offset, 12, 8) < 256 && Field(offset, 1, 10) < 1024 && Field(offset, 20, 1) < 2
  {
    Pow2Word();
    JalStdMasks(offset);
  }

  /** Offset bit 11 of the standard JAL encoding, shifted to word bit 20. */
  lemma JalStdBit20(offset: int)
    ensures Shl(And(offset, 0x800), 9) == Field(offset, 11, 1) * 0x10_0000
    ensures Field(offset, 11, 1) < 2
  {
    Pow2Word();
    OffsetMasks(offset);
  }

  /** The masks of the standard JAL encoding, as fields of the offset. */
  lemma JalStdMasks(x: int)
    ensures And(x, 0xFF000) == Field(x, 12, 8) * 0x1000
    ensures And(x, 0x7FE) == Field(x, 1, 10) * 2
    ensures And(x, 0x10_0000) == Field(x, 20, 1) * 0x10_0000
  {
    Pow2Word();
    AndMask(x, 12, 8);
    AndMask(x, 1, 10);
    AndMask(x, 20, 1);
  }

  /** The standard JAL word: offset bits 19..12, 11, 10..1 and 20 at word bits 12, 20, 21 and 31. */
  lemma JalStdWord(rd: Reg, offset: int)
    ensures EncodeJalStd(rd, offset)
            == 0x6F + rd * 0x80 + Field(offset, 12, 8) * 0x1000 + Field(offset, 11, 1) * 0x10_0000
               + Field(offset, 1, 10) * 0x20_0000 + Field(offset, 20, 1) * 0x8000_0000
  {
    Pow2Word();
    var a1 := Or(0x6F, Shl(rd, 7));
    var a2 := Or(a1, And(offset, 0xFF000));
    var a3 := Or(a2, Shl(And(offset, 0x800), 9));
    var a4 := Or(a3, Shl(And(offset, 0x7FE), 20));
    JalStdPieces(offset);
    JalStdBit20(offset);
    OrAbove(0x6F, Shl(rd, 7), rd, 7);
    OrAbove(a1, And(offset, 0xFF000), Field(offset, 12, 8), 12);
    OrAbove(a2, Shl(And(offset, 0x800), 9), Field(offset, 11, 1), 20);
    OrAbove(a3, Shl(And(offset, 0x7FE), 20), Field(offset, 1, 10), 21);
    OrTop(a4, Shl(And(offset, 0x10_0000), 11), Field(offset, 20, 1));
  }
}
