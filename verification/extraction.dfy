/**
 `BranchTraceParser.generate_from_assembly`: static extraction of the branch
 and JAL instructions of a machine-code list, with the decoded target of each.

 The decoders are written as the parser writes them (shifts, masks, `|`).
 `BImm` and `JImm` are the B-type and J-type immediates as section 2.3 of the
 RISC-V Unprivileged ISA defines them; the lemmas show that the parser's
 target is `pc` plus that immediate, wrapped to 32 bits, and what comes back
 out of the assembler's own encoders.
 */
module Extraction {
  import opened Bits
  import opened Encoding

  /** One `(pc, taken, target)` tuple of the parser's result. */
  datatype Branch = Branch(pc: int, taken: bool, target: int)

  /** `inst & 0x7F`. */
  function Opcode(inst: int): nat
  {
    And(inst, 0x7F)
  }

  /** The branch immediate as the parser reassembles it, sign-extension included. */
  function BranchOffset(inst: int): nat
  {
    var imm12 := And(Shr(inst, 31), 0x1);
    var imm10_5 := And(Shr(inst, 25), 0x3F);
    var imm4_1 := And(Shr(inst, 8), 0xF);
    var imm11 := And(Shr(inst, 7), 0x1);
    var offset := Or(Or(Or(Shl(imm12, 12), Shl(imm11, 11)), Shl(imm10_5, 5)), Shl(imm4_1, 1));
    if imm12 != 0 then Or(offset, 0xFFFF_E000) else offset
  }

  /** The JAL immediate as the parser reassembles it, sign-extension included. */
  function JalOffset(inst: int): nat
  {
    var imm20 := And(Shr(inst, 31), 0x1);
    var imm10_1 := And(Shr(inst, 21), 0x3FF);
    var imm11 := And(Shr(inst, 20), 0x1);
    var imm19_12 := And(Shr(inst, 12), 0xFF);
    var offset := Or(Or(Or(Shl(imm20, 20), Shl(imm19_12, 12)), Shl(imm11, 11)), Shl(imm10_1, 1));
    if imm20 != 0 then Or(offset, 0xFFE0_0000) else offset
  }

  /** `(pc + offset) & 0xFFFFFFFF`: the sum reduced to 32 bits. */
  function WrapTarget(pc: int, offset: int): int
  {
    And(pc + offset, 0xFFFF_FFFF)
  }

  /** The entry the parser appends for word `inst` at index `i`, if any. */
  function EntryAt(inst: int, i: nat): seq<Branch>
  {
    var pc := 4 * i;
    if Opcode(inst) == 0x63 then [Branch(pc, i % 2 == 0, WrapTarget(pc, BranchOffset(inst)))]
    else if Opcode(inst) == 0x6F then [Branch(pc, true, WrapTarget(pc, JalOffset(inst)))]
    else []
  }

  /** The parser's loop shape: `step` applied to every word with its index, results appended in order. */
  function Collect(code: seq<int>, step: (int, nat) -> seq<Branch>): seq<Branch>
  {
    if |code| == 0 then []
    else Collect(code[..|code| - 1], step) + step(code[|code| - 1], |code| - 1)
  }

  /** `generate_from_assembly` on a list of machine words. */
  function Extract(code: seq<int>): seq<Branch>
  {
    Collect(code, EntryAt)
  }

  // ---------------------------------------------------------------------------
  // Reference definitions: the RV32I immediates
  // ---------------------------------------------------------------------------

  /** The B-type immediate of `inst`: imm[12|10:5] in bits 31..25, imm[4:1|11] in bits 11..7. */
  function BImm(inst: int): int
  {
    var u := Field(inst, 31, 1) * 0x1000 + Field(inst, 7, 1) * 0x800 + Field(inst, 25, 6) * 0x20
             + Field(inst, 8, 4) * 2;
    if Field(inst, 31, 1) == 1 then u - 0x2000 else u
  }

  /** The J-type immediate of `inst`: imm[20|10:1|11|19:12] in bits 31..12. */
  function JImm(inst: int): int
  {
    var u := Field(inst, 31, 1) * 0x10_0000 + Field(inst, 12, 8) * 0x1000 + Field(inst, 20, 1) * 0x800
             + Field(inst, 21, 10) * 2;
    if Field(inst, 31, 1) == 1 then u - 0x20_0000 else u
  }

  /** The words the parser reports: conditional branches and JAL. */
  predicate IsControl(inst: int)
  {
    Opcode(inst) == 0x63 || Opcode(inst) == 0x6F
  }

  /** What the entry for word `inst` at index `i` holds, stated through the reference immediates. */
  predicate DescribesWord(inst: int, i: int, e: Branch)
  {
    && IsControl(inst)
    && e.pc == 4 * i
    && e.taken == (Opcode(inst) == 0x6F || i % 2 == 0)
    && (Opcode(inst) == 0x63 ==> e.target == (4 * i + BImm(inst)) % 0x1_0000_0000)
    && (Opcode(inst) == 0x6F ==> e.target == (4 * i + JImm(inst)) % 0x1_0000_0000)
  }

  /** `e` is the entry for word `i` of `code`. */
  predicate Describes(code: seq<int>, i: int, e: Branch)
  {
    0 <= i < |code| && DescribesWord(code[i], i, e)
  }

  // ---------------------------------------------------------------------------
  // The decoders against the reference immediates
  // ---------------------------------------------------------------------------

  /** `(x & 0xFFFFFFFF)` is `x mod 2^32`. */
  lemma WrapIsMod()
    ensures forall x: int :: And(x, 0xFFFF_FFFF) == x % 0x1_0000_0000
  {
    forall x: int
      ensures And(x, 0xFFFF_FFFF) == x % 0x1_0000_0000
    {
      Pow2Word();
      AndLowMask(x, 32);
    }
  }

  /** The four fields the branch decoder reads. */
  lemma BranchFieldReads(inst: int)
    ensures And(Shr(inst, 31), 0x1) == Field(inst, 31, 1)
    ensures And(Shr(inst, 25), 0x3F) == Field(inst, 25, 6)
    ensures And(Shr(inst, 8), 0xF) == Field(inst, 8, 4)
    ensures And(Shr(inst, 7), 0x1) == Field(inst, 7, 1)
  {
    Pow2Word();
    ShrAnd(inst, 31, 1);
    ShrAnd(inst, 25, 6);
    ShrAnd(inst, 8, 4);
    ShrAnd(inst, 7, 1);
  }

  /** The four fields the JAL decoder reads. */
  lemma JalFieldReads(inst: int)
    ensures And(Shr(inst, 31), 0x1) == Field(inst, 31, 1)
    ensures And(Shr(inst, 21), 0x3FF) == Field(inst, 21, 10)
    ensures And(Shr(inst, 20), 0x1) == Field(inst, 20, 1)
    ensures And(Shr(inst, 12), 0xFF) == Field(inst, 12, 8)
  {
    Pow2Word();
    ShrAnd(inst, 31, 1);
    ShrAnd(inst, 21, 10);
    ShrAnd(inst, 20, 1);
    ShrAnd(inst, 12, 8);
  }

  /** The parser's or-chain for a branch immediate adds its four disjoint pieces. */
  lemma BranchJoin(b12: nat, b11: nat, b105: nat, b41: nat)
    requires b12 < 2 && b11 < 2 && b105 < 64 && b41 < 16
    ensures Or(Or(Or(Shl(b12, 12), Shl(b11, 11)), Shl(b105, 5)), Shl(b41, 1))
            == b12 * 0x1000 + b11 * 0x800 + b105 * 0x20 + b41 * 2
  {
    Pow2Word();
    var h1 := Or(Shl(b12, 12), Shl(b11, 11));
    OrDisjointAt(Shl(b11, 11), Shl(b12, 12), b12, 12);
    OrDisjointAt(Shl(b105, 5), h1, b12 * 2 + b11, 11);
    OrDisjointAt(Shl(b41, 1), Or(h1, Shl(b105, 5)), b12 * 128 + b11 * 64 + b105, 5);
  }

  /** The parser's or-chain for a JAL immediate adds its four disjoint pieces. */
  lemma JalJoin(b20: nat, b1912: nat, b11: nat, b101: nat)
    requires b20 < 2 && b1912 < 256 && b11 < 2 && b101 < 1024
    ensures Or(Or(Or(Shl(b20, 20), Shl(b1912, 12)), Shl(b11, 11)), Shl(b101, 1))
            == b20 * 0x10_0000 + b1912 * 0x1000 + b11 * 0x800 + b101 * 2
  {
    Pow2Word();
    var h1 := Or(Shl(b20, 20), Shl(b1912, 12));
    OrDisjointAt(Shl(b1912, 12), Shl(b20, 20), b20, 20);
    OrDisjointAt(Shl(b11, 11), h1, b20 * 256 + b1912, 12);
    OrDisjointAt(Shl(b101, 1), Or(h1, Shl(b11, 11)), b20 * 512 + b1912 * 2 + b11, 11);
  }

  /** Or-ing the sign bits 31..13 onto a 13-bit offset adds them. */
  lemma SignExtend13(x: nat)
    requires x < 0x2000
    ensures Or(x, 0xFFFF_E000) == x + 0xFFFF_E000
  {
    Pow2Word();
    OrDisjointAt(x, 0xFFFF_E000, 0x7FFFF, 13);
  }

  /** Or-ing the sign bits 31..21 onto a 21-bit offset adds them. */
  lemma SignExtend21(x: nat)
    requires x < 0x20_0000
    ensures Or(x, 0xFFE0_0000) == x + 0xFFE0_0000
  {
    Pow2Word();
    OrDisjointAt(x, 0xFFE0_0000, 0x7FF, 21);
  }

  /** The parser's branch offset is the B-immediate, sign bits as a 32-bit pattern. */
  lemma BranchOffsetValue(inst: int)
    ensures BranchOffset(inst) == BImm(inst) + (if Field(inst, 31, 1) == 1 then 0x1_0000_0000 else 0)
  {
    Pow2Word();
    var b12, b11, b105, b41 := Field(inst, 31, 1), Field(inst, 7, 1), Field(inst, 25, 6), Field(inst, 8, 4);
    BranchFieldReads(inst);
    BranchJoin(b12, b11, b105, b41);
    var raw := b12 * 0x1000 + b11 * 0x800 + b105 * 0x20 + b41 * 2;
    if b12 != 0 {
      SignExtend13(raw);
    }
  }

  /** The parser's JAL offset is the J-immediate, sign bits as a 32-bit pattern. */
  lemma JalOffsetValue(inst: int)
    ensures JalOffset(inst) == JImm(inst) + (if Field(inst, 31, 1) == 1 then 0x1_0000_0000 else 0)
  {
    Pow2Word();
    var b20, b1912, b11, b101 := Field(inst, 31, 1), Field(inst, 12, 8), Field(inst, 20, 1), Field(inst, 21, 10);
    JalFieldReads(inst);
    JalJoin(b20, b1912, b11, b101);
    var raw := b20 * 0x10_0000 + b1912 * 0x1000 + b11 * 0x800 + b101 * 2;
    if b20 != 0 {
      SignExtend21(raw);
    }
  }

  /** The 32-bit mask of a sum is the sum modulo 2^32. */
  lemma WrapTargetMod(pc: int, off: int)
    ensures WrapTarget(pc, off) == (pc + off) % 0x1_0000_0000
  {
    WrapIsMod();
  }

  /** Adding a multiple of 2^32 does not change a 32-bit wrapped value. */
  lemma WrapShift(x: int, y: int)
    requires y == x + 0x1_0000_0000
    ensures y % 0x1_0000_0000 == x % 0x1_0000_0000
  {
    DivModUnique(y, 0x1_0000_0000, x / 0x1_0000_0000 + 1, x % 0x1_0000_0000);
  }

  /** Adding a 32-bit pattern of a signed offset and wrapping is adding the offset modulo 2^32. */
  lemma WrapOffset(pc: int, off: int, imm: int)
    requires off == imm || off == imm + 0x1_0000_0000
    ensures WrapTarget(pc, off) == (pc + imm) % 0x1_0000_0000
  {
    WrapTargetMod(pc, off);
    if off != imm {
      WrapShift(pc + imm, pc + off);
    }
  }

  /** The decoded branch target is `pc` plus the B-immediate, modulo 2^32. */
  lemma BranchTarget(pc: int, inst: int)
    ensures WrapTarget(pc, BranchOffset(inst)) == (pc + BImm(inst)) % 0x1_0000_0000
  {
    BranchOffsetValue(inst);
    WrapOffset(pc, BranchOffset(inst), BImm(inst));
  }

  /** The decoded JAL target is `pc` plus the J-immediate, modulo 2^32. */
  lemma JalTarget(pc: int, inst: int)
    ensures WrapTarget(pc, JalOffset(inst)) == (pc + JImm(inst)) % 0x1_0000_0000
  {
    JalOffsetValue(inst);
    WrapOffset(pc, JalOffset(inst), JImm(inst));
  }

  // ---------------------------------------------------------------------------
  // The extracted list
  // ---------------------------------------------------------------------------

  /** The entry the parser appends for a branch describes it. */
  lemma BranchEntrySound(inst: int, i: nat, e: Branch)
    requires Opcode(inst) == 0x63 && e in EntryAt(inst, i)
    ensures DescribesWord(inst, i, e)
  {
    BranchTarget(4 * i, inst);
  }

  /** The entry the parser appends for a JAL describes it. */
  lemma JalEntrySound(inst: int, i: nat, e: Branch)
    requires Opcode(inst) == 0x6F && e in EntryAt(inst, i)
    ensures DescribesWord(inst, i, e)
  {
    JalTarget(4 * i, inst);
  }

  /** What describes a branch is the entry the parser appends for it. */
  lemma BranchEntryComplete(inst: int, i: nat, e: Branch)
    requires Opcode(inst) == 0x63 && DescribesWord(inst, i, e)
    ensures EntryAt(inst, i) == [e]
  {
    BranchTarget(4 * i, inst);
    assert e.target == WrapTarget(4 * i, BranchOffset(inst));
  }

  /** What describes a JAL is the entry the parser appends for it. */
  lemma JalEntryComplete(inst: int, i: nat, e: Branch)
    requires Opcode(inst) == 0x6F && DescribesWord(inst, i, e)
    ensures EntryAt(inst, i) == [e]
  {
    JalTarget(4 * i, inst);
    assert e.target == WrapTarget(4 * i, JalOffset(inst));
  }

  /** A word contributes exactly the entries that describe it. */
  lemma EntryAtDescribes(inst: int, i: nat, e: Branch)
    ensures e in EntryAt(inst, i) <==> DescribesWord(inst, i, e)
  {
    if Opcode(inst) == 0x63 {
      if e in EntryAt(inst, i) {
        BranchEntrySound(inst, i, e);
      }
      if DescribesWord(inst, i, e) {
        BranchEntryComplete(inst, i, e);
      }
    } else if Opcode(inst) == 0x6F {
      if e in EntryAt(inst, i) {
        JalEntrySound(inst, i, e);
      }
      if DescribesWord(inst, i, e) {
        JalEntryComplete(inst, i, e);
      }
    }
  }

  /** What `Collect` holds is exactly what the single steps contribute. */
  lemma {:induction false} CollectMembers(code: seq<int>, step: (int, nat) -> seq<Branch>, e: Branch)
    ensures e in Collect(code, step) <==> exists i :: 0 <= i < |code| && e in step(code[i], i)
    decreases |code|
  {
    if |code| > 0 {
      var n := |code| - 1;
      var prefix := code[..n];
      CollectMembers(prefix, step, e);
      if i :| 0 <= i < |code| && e in step(code[i], i) {
        if i < n {
          assert prefix[i] == code[i];
        }
      }
      if i :| 0 <= i < n && e in step(prefix[i], i) {
        assert prefix[i] == code[i];
      }
    }
  }

  /** Steps that give at most one entry, at pc `4 * i`, are collected in strictly increasing pc order. */
  lemma {:induction false} CollectOrdered(code: seq<int>, step: (int, nat) -> seq<Branch>)
    requires forall w: int, i: nat :: |step(w, i)| <= 1
    requires forall w: int, i: nat, e: Branch :: e in step(w, i) ==> e.pc == 4 * i
    ensures forall k :: 0 <= k < |Collect(code, step)| ==> 0 <= Collect(code, step)[k].pc < 4 * |code|
    ensures forall j, k :: 0 <= j < k < |Collect(code, step)| ==> Collect(code, step)[j].pc < Collect(code, step)[k].pc
    decreases |code|
  {
    if |code| > 0 {
      var n := |code| - 1;
      CollectOrdered(code[..n], step);
      var last := step(code[n], n);
      if |last| == 1 {
        assert last[0] in last;
      }
    }
  }

  /** The entries of the extracted list are exactly those the single words contribute. */
  lemma ExtractAt(code: seq<int>, e: Branch)
    ensures e in Extract(code) <==> exists i :: 0 <= i < |code| && e in EntryAt(code[i], i)
  {
    CollectMembers(code, EntryAt, e);
  }

  /** The parser reports an entry exactly for each branch or JAL word, described by the reference immediates. */
  lemma ExtractMembers(code: seq<int>, e: Branch)
    ensures e in Extract(code) <==> exists i :: Describes(code, i, e)
  {
    ExtractAt(code, e);
    if e in Extract(code) {
      var i :| 0 <= i < |code| && e in EntryAt(code[i], i);
      EntryAtDescribes(code[i], i, e);
      assert Describes(code, i, e);
    }
    if i :| Describes(code, i, e) {
      EntryAtDescribes(code[i], i, e);
    }
  }

  /** A word gives one entry when it is a branch or JAL, and none otherwise. */
  lemma EntryAtShape(inst: int, i: nat)
    ensures |EntryAt(inst, i)| == (if IsControl(inst) then 1 else 0)
    ensures forall e :: e in EntryAt(inst, i) ==> e.pc == 4 * i
  {
  }

  /** The parser's entries follow program order: their pcs strictly increase and stay inside the code. */
  lemma ExtractOrdered(code: seq<int>)
    ensures forall k :: 0 <= k < |Extract(code)| ==> 0 <= Extract(code)[k].pc < 4 * |code|
    ensures forall j, k :: 0 <= j < k < |Extract(code)| ==> Extract(code)[j].pc < Extract(code)[k].pc
  {
    forall w: int, i: nat
      ensures |EntryAt(w, i)| <= 1
      ensures forall e :: e in EntryAt(w, i) ==> e.pc == 4 * i
    {
      EntryAtShape(w, i);
    }
    CollectOrdered(code, EntryAt);
  }

  /** The number of branch and JAL words in `code`. */
  function ControlCount(code: seq<int>): nat
  {
    if |code| == 0 then 0
    else ControlCount(code[..|code| - 1]) + (if IsControl(code[|code| - 1]) then 1 else 0)
  }

  /** One entry per branch or JAL word, none for anything else. */
  lemma {:induction false} ExtractLength(code: seq<int>)
    ensures |Extract(code)| == ControlCount(code)
    ensures |Extract(code)| <= |code|
    decreases |code|
  {
    if |code| > 0 {
      var n := |code| - 1;
      ExtractLength(code[..n]);
      EntryAtShape(code[n], n);
    }
  }

  /** `generate_from_assembly` as the loop the parser runs, `pc` stepping by four. */
  method GenerateFromAssembly(code: seq<int>) returns (branches: seq<Branch>)
    ensures branches == Extract(code)
    ensures forall e :: e in branches <==> exists i :: Describes(code, i, e)
  {
    branches := [];
    var pc := 0;
    var i := 0;
    while i < |code|
      invariant 0 <= i <= |code|
      invariant pc == 4 * i
      invariant branches == Extract(code[..i])
    {
      var inst := code[i];
      assert code[..i + 1][..i] == code[..i];
      if Opcode(inst) == 0x63 {
        branches := branches + [Branch(pc, i % 2 == 0, WrapTarget(pc, BranchOffset(inst)))];
      } else if Opcode(inst) == 0x6F {
        branches := branches + [Branch(pc, true, WrapTarget(pc, JalOffset(inst)))];
      }
      pc := pc + 4;
      i := i + 1;
    }
    assert code[..i] == code;
    forall e
      ensures e in branches <==> exists i :: Describes(code, i, e)
    {
      ExtractMembers(code, e);
    }
  }
}
