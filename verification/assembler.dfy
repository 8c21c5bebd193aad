/**
 `RISCVAssembler.assemble`: a two-pass assembler over source text.

 Every line is stripped.  Empty lines and lines starting with `#` are skipped,
 and a line holding `:` is a label line.  The first pass maps each label (the
 stripped text before the first `:`) to four times the number of instruction
 lines before it; a later definition of the same label replaces an earlier
 one.  The second pass turns each instruction line into one word, with the pc
 being four times the number of words already emitted.

 The first operand-handling step of each `_encode_*` method (reading registers,
 resolving a label or a number) is `Decode*` here and yields an `Instruction`;
 `Encode` then packs it with the encoders of `Encoding`.  `Layout` chooses the
 assembler's own branch and JAL layouts (`AsWritten`, what `assemble` does) or
 the RV32I ones (`Standard`).
 */
module Assembler {
  import opened Outcome
  import opened Text
  import opened Encoding
  import opened Registers

  /** The bit layout of branch and JAL words. */
  datatype Layout = AsWritten | Standard

  /** What one instruction line asks for, once its operands are read. */
  datatype Instruction =
    | Branch(op: BranchOp, rs1: Reg, rs2: Reg, offset: int)
    | Jal(rd: Reg, offset: int)
    | Jalr(rd: Reg, base: Reg, offset: int)
    | RType(rop: ROp, rd: Reg, rs1: Reg, rs2: Reg)
    | IType(iop: IOp, rd: Reg, rs1: Reg, imm: int)
    | Nop                                   // `nop`, and every mnemonic the assembler does not know

  /** The word `0x00000013` (`addi x0, x0, 0`) written for `nop` and unknown mnemonics. */
  const NopWord: nat := 0x13

  // ---------------------------------------------------------------------------
  // Mnemonics
  // ---------------------------------------------------------------------------

  /** The mnemonic groups the second pass dispatches on. */
  datatype Mnemonic =
    | BranchMnemonic(op: BranchOp)
    | JalMnemonic
    | JalrMnemonic
    | RMnemonic(rop: ROp)
    | IMnemonic(iop: IOp)
    | OtherMnemonic                          // `nop` and every unknown mnemonic

  /** The `opcode in [...]` tests of `assemble`, in their order. */
  function MnemonicOf(m: string): Mnemonic
  {
    if m == "beq" then BranchMnemonic(Beq) else if m == "bne" then BranchMnemonic(Bne)
    else if m == "blt" then BranchMnemonic(Blt) else if m == "bge" then BranchMnemonic(Bge)
    else if m == "jal" then JalMnemonic else if m == "jalr" then JalrMnemonic
    else if m == "add" then RMnemonic(RAdd) else if m == "sub" then RMnemonic(RSub)
    else if m == "and" then RMnemonic(RAnd) else if m == "or" then RMnemonic(ROr)
    else if m == "xor" then RMnemonic(RXor)
    else if m == "addi" then IMnemonic(IAddi) else if m == "andi" then IMnemonic(IAndi)
    else if m == "ori" then IMnemonic(IOri) else if m == "xori" then IMnemonic(IXori)
    else OtherMnemonic
  }

  // ---------------------------------------------------------------------------
  // Operands
  // ---------------------------------------------------------------------------

  /** `operands[k]`, which raises IndexError past the end. */
  function Operand(ops: seq<string>, k: nat): (r: Result<string, Fault>)
    ensures r.Ok? <==> k < |ops|
    ensures r.Ok? ==> r.value == ops[k]
    ensures r.Err? ==> r.error == MissingOperand(k)
  {
    if k < |ops| then Ok(ops[k]) else Err(MissingOperand(k))
  }

  /** `_parse_register(operands[k])`. */
  function RegisterOperand(ops: seq<string>, k: nat, num: Numerals): Result<Reg, Fault>
  {
    var s :- Operand(ops, k);
    ParseRegister(s, num)
  }

  /** `int(s, 0)`. */
  function Number(s: string, num: Numerals): (r: Result<int, Fault>)
    ensures r.Ok? <==> num.literal(s).Some?
    ensures r.Ok? ==> r.value == num.literal(s).value
  {
    match num.literal(s)
    case Some(v) => Ok(v)
    case None => Err(NotANumber(s))
  }

  /** A branch or JAL target: a label's distance from `pc`, or else a number read with `int(target, 0)`. */
  function TargetOffset(target: string, labels: map<string, int>, pc: int, num: Numerals): (r: Result<int, Fault>)
    ensures target in labels ==> r == Ok(labels[target] - pc)
    ensures target !in labels ==> r == Number(target, num)
  {
    if target in labels then Ok(labels[target] - pc) else Number(target, num)
  }

  // ---------------------------------------------------------------------------
  // The operand-reading part of each `_encode_*` method
  // ---------------------------------------------------------------------------

  /** `_encode_branch` up to the packing: `rs1`, `rs2`, then the target. */
  function DecodeBranch(op: BranchOp, ops: seq<string>, labels: map<string, int>, pc: int, num: Numerals)
    : (r: Result<Instruction, Fault>)
    ensures r.Ok? ==> r.value.Branch? && r.value.op == op && 3 <= |ops|
  {
    var rs1 :- RegisterOperand(ops, 0, num);
    var rs2 :- RegisterOperand(ops, 1, num);
    var target :- Operand(ops, 2);
    var offset :- TargetOffset(target, labels, pc, num);
    Ok(Branch(op, rs1, rs2, offset))
  }

  /** `_encode_jump` for `jal`: `rd`, then the target. */
  function DecodeJal(ops: seq<string>, labels: map<string, int>, pc: int, num: Numerals): (r: Result<Instruction, Fault>)
    ensures r.Ok? ==> r.value.Jal? && 2 <= |ops|
  {
    var rd :- RegisterOperand(ops, 0, num);
    var target :- Operand(ops, 1);
    var offset :- TargetOffset(target, labels, pc, num);
    Ok(Jal(rd, offset))
  }

  /** `_encode_jump` for `jalr`: `rd`, `rs1`, and an offset that is 0 when omitted. */
  function DecodeJalr(ops: seq<string>, num: Numerals): (r: Result<Instruction, Fault>)
    ensures r.Ok? ==> r.value.Jalr? && 2 <= |ops|
    ensures r.Ok? && |ops| == 2 ==> r.value.offset == 0
  {
    var rd :- RegisterOperand(ops, 0, num);
    var base :- RegisterOperand(ops, 1, num);
    var offset :- if |ops| > 2 then Number(ops[2], num) else Ok(0);
    Ok(Jalr(rd, base, offset))
  }

  /** `_encode_rtype`: `rd`, `rs1`, `rs2`. */
  function DecodeRType(rop: ROp, ops: seq<string>, num: Numerals): (r: Result<Instruction, Fault>)
    ensures r.Ok? ==> r.value.RType? && r.value.rop == rop && 3 <= |ops|
  {
    var rd :- RegisterOperand(ops, 0, num);
    var rs1 :- RegisterOperand(ops, 1, num);
    var rs2 :- RegisterOperand(ops, 2, num);
    Ok(RType(rop, rd, rs1, rs2))
  }

  /** `_encode_itype`: `rd`, `rs1`, then the immediate read with `int(s, 0)`. */
  function DecodeIType(iop: IOp, ops: seq<string>, num: Numerals): (r: Result<Instruction, Fault>)
    ensures r.Ok? ==> r.value.IType? && r.value.iop == iop && 3 <= |ops|
  {
    var rd :- RegisterOperand(ops, 0, num);
    var rs1 :- RegisterOperand(ops, 1, num);
    var text :- Operand(ops, 2);
    var imm :- Number(text, num);
    Ok(IType(iop, rd, rs1, imm))
  }

  /** The dispatch of the second pass on the lower-cased mnemonic `m`. */
  function Decode(m: string, ops: seq<string>, labels: map<string, int>, pc: int, num: Numerals)
    : (r: Result<Instruction, Fault>)
    ensures MnemonicOf(m) == OtherMnemonic <==> r == Ok(Nop)
  {
    match MnemonicOf(m)
    case BranchMnemonic(op) => DecodeBranch(op, ops, labels, pc, num)
    case JalMnemonic => DecodeJal(ops, labels, pc, num)
    case JalrMnemonic => DecodeJalr(ops, num)
    case RMnemonic(rop) => DecodeRType(rop, ops, num)
    case IMnemonic(iop) => DecodeIType(iop, ops, num)
    case OtherMnemonic => Ok(Nop)
  }

  /** The word for an instruction, packed by the encoder `_encode_*` uses, or by its RV32I counterpart. */
  function Encode(layout: Layout, inst: Instruction): nat
  {
    match inst
    case Branch(op, rs1, rs2, offset) =>
      if layout == AsWritten then EncodeBranch(op, rs1, rs2, offset) else EncodeBranchStd(op, rs1, rs2, offset)
    case Jal(rd, offset) =>
      if layout == AsWritten then EncodeJal(rd, offset) else EncodeJalStd(rd, offset)
    case Jalr(rd, base, offset) => EncodeJalr(rd, base, offset)
    case RType(rop, rd, rs1, rs2) => EncodeRType(rop, rd, rs1, rs2)
    case IType(iop, rd, rs1, imm) => EncodeIType(iop, rd, rs1, imm)
    case Nop => NopWord
  }

  // ---------------------------------------------------------------------------
  // Lines
  // ---------------------------------------------------------------------------

  /** What a source line is to both passes. */
  datatype LineKind = Skipped | LabelLine(name: string) | InstructionLine(text: string)

  /** The tests both passes apply to a stripped line, in their order. */
  function Classify(line: string): (k: LineKind)
    ensures k.InstructionLine? <==> Strip(line) != [] && !("#" <= Strip(line)) && ':' !in Strip(line)
    ensures k.LabelLine? <==> Strip(line) != [] && !("#" <= Strip(line)) && ':' in Strip(line)
    ensures k.InstructionLine? ==> k.text == Strip(line) && k.text != [] && ':' !in k.text && IsTrimmed(k.text)
    ensures k.LabelLine? ==> k.name == Strip(BeforeFirst(Strip(line), ':')) && IsTrimmed(k.name) && ':' !in k.name
  {
    var t := Strip(line);
    if t == [] || "#" <= t then Skipped
    else if ':' in t then LabelLine(Strip(BeforeFirst(t, ':')))
    else InstructionLine(t)
  }

  /** The line `name:` defines the label `name`. */
  lemma LabelOfLine(name: string)
    requires name != [] && IsTrimmed(name) && ':' !in name && name[0] != '#'
    ensures Classify(name + ":") == LabelLine(name)
  {
    var line := name + ":";
    StripLabel(name);
    BeforeSeparator(name, ':');
    assert [] + name + [] == name;
    StripUnique([], name, []);
    assert line[0] == name[0] && line[|name|] == ':';
    assert !("#" <= line);
  }

  /** `name:` is already stripped when `name` is. */
  lemma StripLabel(name: string)
    requires name != [] && IsTrimmed(name)
    ensures Strip(name + ":") == name + ":"
  {
    var line := name + ":";
    assert line[0] == name[0] && line[|name|] == ':';
    assert !IsSpace(':');
    assert [] + line + [] == line;
    StripUnique([], line, []);
  }

  /** Cutting `name` followed by `sep` at the first `sep` gives back `name`. */
  lemma BeforeSeparator(name: string, sep: char)
    requires sep !in name
    ensures BeforeFirst(name + [sep], sep) == name
  {
    var line := name + [sep];
    var b := BeforeFirst(line, sep);
    assert line[|name|] == sep;
    assert b == line[..|b|] == name[..|b|];
  }

  /** `line.replace(',', ' ').split()`. */
  function Tokens(text: string): (parts: seq<string>)
    ensures forall i :: 0 <= i < |parts| ==> IsWord(parts[i]) && ',' !in parts[i]
  {
    var spaced := Replace(text, ',', ' ');
    assert ',' !in spaced;
    WordsWithout(spaced, ',');
    Words(spaced)
  }

  /** Words free of commas, joined by single spaces, tokenise back to themselves, in order. */
  lemma TokensOfJoin(ws: seq<string>)
    requires forall i :: 0 <= i < |ws| ==> IsWord(ws[i]) && ',' !in ws[i]
    ensures Tokens(Join(ws, ' ')) == ws
  {
    var s := Join(ws, ' ');
    JoinAvoids(ws, ' ', ',');
    assert Replace(s, ',', ' ') == s;
    WordsOfJoin(ws);
  }

  /** The body of the second pass for one instruction line at `pc`. */
  function EncodeLine(layout: Layout, text: string, labels: map<string, int>, pc: int, num: Numerals)
    : (r: Result<nat, Fault>)
    ensures Tokens(text) == [] ==> r == Err(EmptyInstruction)
    ensures Tokens(text) != [] && MnemonicOf(Lower(Tokens(text)[0])) == OtherMnemonic ==> r == Ok(NopWord)
  {
    var parts := Tokens(text);
    if parts == [] then Err(EmptyInstruction)
    else
      var inst :- Decode(Lower(parts[0]), parts[1..], labels, pc, num);
      Ok(Encode(layout, inst))
  }

  /** Every line classified. */
  function Kinds(lines: seq<string>): (kinds: seq<LineKind>)
    ensures |kinds| == |lines|
    ensures forall i :: 0 <= i < |lines| ==> kinds[i] == Classify(lines[i])
  {
    seq(|lines|, i requires 0 <= i < |lines| => Classify(lines[i]))
  }

  /** The number of instruction lines. */
  function InstructionCount(kinds: seq<LineKind>): (n: nat)
    ensures n <= |kinds|
  {
    if kinds == [] then 0
    else InstructionCount(kinds[..|kinds| - 1]) + (if kinds[|kinds| - 1].InstructionLine? then 1 else 0)
  }

  /** The first pass: each label mapped to the address of the next instruction, later definitions winning. */
  function Labels(kinds: seq<LineKind>): map<string, int>
  {
    if kinds == [] then map[]
    else
      var init := kinds[..|kinds| - 1];
      match kinds[|kinds| - 1]
      case LabelLine(name) => Labels(init)[name := 4 * InstructionCount(init)]
      case _ => Labels(init)
  }

  /** How the second pass encodes the instruction line `text` at `pc`. */
  type LineEncoder = (string, int) -> Result<nat, Fault>

  /** The second pass: one word per instruction line, stopping at the first line that raises. */
  function SecondPass(kinds: seq<LineKind>, encode: LineEncoder): (r: Result<seq<nat>, Fault>)
    ensures r.Ok? ==> |r.value| == InstructionCount(kinds)
  {
    if kinds == [] then Ok([])
    else
      var words :- SecondPass(kinds[..|kinds| - 1], encode);
      match kinds[|kinds| - 1]
      case InstructionLine(text) =>
        var w :- encode(text, 4 * |words|);
        Ok(words + [w])
      case _ => Ok(words)
  }

  /** `EncodeLine` with the layout, the labels and the number reader fixed. */
  function Encoder(layout: Layout, labels: map<string, int>, num: Numerals): LineEncoder
  {
    (text, pc) => EncodeLine(layout, text, labels, pc, num)
  }

  /** `assembly_code.strip().split('\n')`. */
  function SourceLines(code: string): seq<string>
  {
    Split(Strip(code), '\n')
  }

  /** `assemble` with the given branch and JAL layout, on a fresh assembler (no labels yet). */
  function AssembleWith(layout: Layout, code: string, num: Numerals): (r: Result<seq<nat>, Fault>)
    ensures r.Ok? ==> |r.value| == InstructionCount(Kinds(SourceLines(code)))
  {
    var kinds := Kinds(SourceLines(code));
    SecondPass(kinds, Encoder(layout, Labels(kinds), num))
  }

  /** `assemble` as written. */
  function Assemble(code: string, num: Numerals): (r: Result<seq<nat>, Fault>)
    ensures r.Ok? ==> |r.value| == InstructionCount(Kinds(SourceLines(code)))
  {
    AssembleWith(AsWritten, code, num)
  }

  // ---------------------------------------------------------------------------
  // The first pass
  // ---------------------------------------------------------------------------

  /** A label is defined exactly when some line is a label line naming it. */
  lemma {:induction false} LabelsDefined(kinds: seq<LineKind>, name: string)
    ensures name in Labels(kinds) <==> exists j :: 0 <= j < |kinds| && kinds[j] == LabelLine(name)
  {
    if kinds != [] {
      var init := kinds[..|kinds| - 1];
      LabelsDefined(init, name);
      if name in Labels(init) {
        var j :| 0 <= j < |init| && init[j] == LabelLine(name);
        assert kinds[j] == init[j];
      }
    }
  }

  /** The last definition of a label wins, and gives four times the number of instruction lines above it. */
  lemma {:induction false} LabelsLast(kinds: seq<LineKind>, name: string, j: int)
    requires 0 <= j < |kinds| && kinds[j] == LabelLine(name)
    requires forall k :: j < k < |kinds| ==> kinds[k] != LabelLine(name)
    ensures name in Labels(kinds) && Labels(kinds)[name] == 4 * InstructionCount(kinds[..j])
  {
    var init := kinds[..|kinds| - 1];
    if j < |kinds| - 1 {
      LabelsLast(init, name, j);
      assert init[..j] == kinds[..j];
    } else {
      assert init == kinds[..j];
    }
  }

  /** Lines that are not instruction lines do not move the address. */
  lemma {:induction false} CountAcrossSkips(kinds: seq<LineKind>, j: int, next: int)
    requires 0 <= j <= next <= |kinds|
    requires forall k :: j <= k < next ==> !kinds[k].InstructionLine?
    ensures InstructionCount(kinds[..next]) == InstructionCount(kinds[..j])
    decreases next
  {
    if next > j {
      CountAcrossSkips(kinds, j, next - 1);
      assert kinds[..next][..next - 1] == kinds[..next - 1];
    }
  }

  /** A label's address is the address of the first instruction line after its last definition. */
  lemma LabelMarksNextWord(kinds: seq<LineKind>, name: string, j: int, next: int)
    requires 0 <= j < next < |kinds| && kinds[j] == LabelLine(name)
    requires forall k :: j < k < |kinds| ==> kinds[k] != LabelLine(name)
    requires forall k :: j <= k < next ==> !kinds[k].InstructionLine?
    ensures name in Labels(kinds) && Labels(kinds)[name] == 4 * InstructionCount(kinds[..next])
  {
    LabelsLast(kinds, name, j);
    CountAcrossSkips(kinds, j, next);
  }

  /** Every label address is a multiple of four, at most just past the last instruction. */
  lemma {:induction false} LabelsAligned(kinds: seq<LineKind>, name: string)
    requires name in Labels(kinds)
    ensures 0 <= Labels(kinds)[name] <= 4 * InstructionCount(kinds) && Labels(kinds)[name] % 4 == 0
  {
    var init := kinds[..|kinds| - 1];
    if kinds[|kinds| - 1] != LabelLine(name) {
      LabelsAligned(init, name);
    }
  }

  // ---------------------------------------------------------------------------
  // The second pass
  // ---------------------------------------------------------------------------

  /**
   When the second pass succeeds, the word at index n is the encoding of the
   n-th instruction line at pc 4n.
   */
  lemma {:induction false} SecondPassAt(kinds: seq<LineKind>, encode: LineEncoder, j: int)
    requires SecondPass(kinds, encode).Ok?
    requires 0 <= j < |kinds| && kinds[j].InstructionLine?
    ensures var words, n := SecondPass(kinds, encode).value, InstructionCount(kinds[..j]);
      n < |words| && encode(kinds[j].text, 4 * n) == Ok(words[n])
  {
    var init := kinds[..|kinds| - 1];
    if j == |kinds| - 1 {
      assert init == kinds[..j];
    } else {
      SecondPassAt(init, encode, j);
      assert init[..j] == kinds[..j];
    }
  }

  /**
   When the second pass fails, its error is that of an instruction line all of
   whose predecessors encode: the first line that raises.
   */
  lemma {:induction false} SecondPassError(kinds: seq<LineKind>, encode: LineEncoder)
    requires SecondPass(kinds, encode).Err?
    ensures exists j :: (0 <= j < |kinds| && kinds[j].InstructionLine? && SecondPass(kinds[..j], encode).Ok?
                         && encode(kinds[j].text, 4 * InstructionCount(kinds[..j])) == Err(SecondPass(kinds, encode).error))
  {
    var init := kinds[..|kinds| - 1];
    var e := SecondPass(kinds, encode).error;
    if SecondPass(init, encode).Err? {
      SecondPassError(init, encode);
      var j :| 0 <= j < |init| && init[j].InstructionLine? && SecondPass(init[..j], encode).Ok?
        && encode(init[j].text, 4 * InstructionCount(init[..j])) == Err(e);
      assert init[..j] == kinds[..j];
    } else {
      assert init == kinds[..|kinds| - 1];
    }
  }

  /** Once the second pass has failed on a prefix, it fails with that error on every longer prefix. */
  lemma {:induction false} SecondPassErrorSticks(kinds: seq<LineKind>, encode: LineEncoder, i: int)
    requires 0 <= i <= |kinds| && SecondPass(kinds[..i], encode).Err?
    ensures SecondPass(kinds, encode) == SecondPass(kinds[..i], encode)
    decreases |kinds| - i
  {
    if i < |kinds| {
      assert kinds[..i + 1][..i] == kinds[..i];
      SecondPassErrorSticks(kinds, encode, i + 1);
    } else {
      assert kinds[..i] == kinds;
    }
  }

  /** The first loop of `assemble`: the label table and the address just past the last instruction. */
  method CollectLabels(kinds: seq<LineKind>) returns (labels: map<string, int>, pc: int)
    ensures labels == Labels(kinds) && pc == 4 * InstructionCount(kinds)
  {
    labels := map[];
    pc := 0;
    var i := 0;
    while i < |kinds|
      invariant 0 <= i <= |kinds|
      invariant labels == Labels(kinds[..i]) && pc == 4 * InstructionCount(kinds[..i])
    {
      assert kinds[..i + 1][..i] == kinds[..i];
      match kinds[i] {
        case LabelLine(name) => labels := labels[name := pc];
        case InstructionLine(_) => pc := pc + 4;
        case Skipped =>
      }
      i := i + 1;
    }
    assert kinds[..i] == kinds;
  }

  /** The second loop of `assemble`: encode each instruction line at the current pc, stopping at the first error. */
  method EmitWords(kinds: seq<LineKind>, encode: LineEncoder) returns (r: Result<seq<nat>, Fault>)
    ensures r == SecondPass(kinds, encode)
  {
    var words: seq<nat> := [];
    var i := 0;
    while i < |kinds|
      invariant 0 <= i <= |kinds|
      invariant SecondPass(kinds[..i], encode) == Ok(words)
    {
      assert kinds[..i + 1][..i] == kinds[..i];
      match kinds[i] {
        case InstructionLine(text) =>
          var w := encode(text, 4 * |words|);
          if w.Err? {
            SecondPassErrorSticks(kinds, encode, i + 1);
            return Err(w.error);
          }
          words := words + [w.value];
        case _ =>
      }
      i := i + 1;
    }
    assert kinds[..i] == kinds;
    return Ok(words);
  }

  /** `assemble` as the Python code runs it: one loop per pass over the classified lines. */
  method RunAssembler(layout: Layout, code: string, num: Numerals) returns (r: Result<seq<nat>, Fault>)
    ensures r == AssembleWith(layout, code, num)
  {
    var kinds := Kinds(SourceLines(code));
    var labels, _ := CollectLabels(kinds);
    r := EmitWords(kinds, Encoder(layout, labels, num));
  }

  // ---------------------------------------------------------------------------
  // Reading operands
  // ---------------------------------------------------------------------------

  /** A branch line reads `rs1` and `rs2` as registers and its third operand as a label or a number. */
  lemma DecodeBranchLine(m: string, ops: seq<string>, labels: map<string, int>, pc: int, num: Numerals,
                         op: BranchOp, a: Reg, b: Reg, off: int)
    requires MnemonicOf(m) == BranchMnemonic(op) && 3 <= |ops|
    requires ParseRegister(ops[0], num) == Ok(a) && ParseRegister(ops[1], num) == Ok(b)
    requires TargetOffset(ops[2], labels, pc, num) == Ok(off)
    ensures Decode(m, ops, labels, pc, num) == Ok(Branch(op, a, b, off))
  {
  }

  /** A `jal` line reads `rd` and a label or number. */
  lemma DecodeJalLine(m: string, ops: seq<string>, labels: map<string, int>, pc: int, num: Numerals, rd: Reg, off: int)
    requires MnemonicOf(m) == JalMnemonic && 2 <= |ops| && ParseRegister(ops[0], num) == Ok(rd)
    requires TargetOffset(ops[1], labels, pc, num) == Ok(off)
    ensures Decode(m, ops, labels, pc, num) == Ok(Jal(rd, off))
  {
  }

  /** The operands of `op rs1, rs2, name`: a branch to a defined label. */
  predicate BranchToLabel(m: string, ops: seq<string>, labels: map<string, int>, num: Numerals,
                          op: BranchOp, a: Reg, b: Reg, name: string)
  {
    && MnemonicOf(m) == BranchMnemonic(op) && 3 <= |ops|
    && ParseRegister(ops[0], num) == Ok(a) && ParseRegister(ops[1], num) == Ok(b)
    && ops[2] == name && name in labels
  }

  /** The operands of `jal rd, name`: a jump to a defined label. */
  predicate JalToLabel(m: string, ops: seq<string>, labels: map<string, int>, num: Numerals, rd: Reg, name: string)
  {
    && MnemonicOf(m) == JalMnemonic && 2 <= |ops|
    && ParseRegister(ops[0], num) == Ok(rd) && ops[1] == name && name in labels
  }

  /** A defined label stands for its distance from `pc`. */
  lemma LabelOffset(name: string, labels: map<string, int>, pc: int, num: Numerals, off: int)
    requires name in labels && off == labels[name] - pc
    ensures TargetOffset(name, labels, pc, num) == Ok(off)
  {
  }

  /** A branch to a label at `pc` decodes to the branch whose offset is the label's distance from `pc`. */
  lemma DecodeBranchToLabel(m: string, ops: seq<string>, labels: map<string, int>, pc: int, num: Numerals,
                            op: BranchOp, a: Reg, b: Reg, name: string, off: int)
    requires BranchToLabel(m, ops, labels, num, op, a, b, name) && off == labels[name] - pc
    ensures Decode(m, ops, labels, pc, num) == Ok(Branch(op, a, b, off))
  {
    LabelOffset(name, labels, pc, num, off);
    DecodeBranchLine(m, ops, labels, pc, num, op, a, b, off);
  }

  /** A jump to a label at `pc` decodes to the JAL whose offset is the label's distance from `pc`. */
  lemma DecodeJalToLabel(m: string, ops: seq<string>, labels: map<string, int>, pc: int, num: Numerals,
                         rd: Reg, name: string, off: int)
    requires JalToLabel(m, ops, labels, num, rd, name) && off == labels[name] - pc
    ensures Decode(m, ops, labels, pc, num) == Ok(Jal(rd, off))
  {
    LabelOffset(name, labels, pc, num, off);
    DecodeJalLine(m, ops, labels, pc, num, rd, off);
  }

  /** A `jalr` line reads `rd`, `rs1` and an optional offset that defaults to 0. */
  lemma DecodeJalrLine(m: string, ops: seq<string>, labels: map<string, int>, pc: int, num: Numerals,
                       rd: Reg, base: Reg)
    requires MnemonicOf(m) == JalrMnemonic && 2 <= |ops|
    requires ParseRegister(ops[0], num) == Ok(rd) && ParseRegister(ops[1], num) == Ok(base)
    requires |ops| > 2 ==> num.literal(ops[2]).Some?
    ensures Decode(m, ops, labels, pc, num)
            == Ok(Jalr(rd, base, if |ops| > 2 then num.literal(ops[2]).value else 0))
  {
  }

  /** An R-type line reads three registers. */
  lemma DecodeRTypeLine(m: string, ops: seq<string>, labels: map<string, int>, pc: int, num: Numerals,
                        rop: ROp, rd: Reg, a: Reg, b: Reg)
    requires MnemonicOf(m) == RMnemonic(rop) && 3 <= |ops|
    requires ParseRegister(ops[0], num) == Ok(rd) && ParseRegister(ops[1], num) == Ok(a)
    requires ParseRegister(ops[2], num) == Ok(b)
    ensures Decode(m, ops, labels, pc, num) == Ok(RType(rop, rd, a, b))
  {
  }

  /** An I-type line reads two registers and a number. */
  lemma DecodeITypeLine(m: string, ops: seq<string>, labels: map<string, int>, pc: int, num: Numerals,
                        iop: IOp, rd: Reg, a: Reg)
    requires MnemonicOf(m) == IMnemonic(iop) && 3 <= |ops|
    requires ParseRegister(ops[0], num) == Ok(rd) && ParseRegister(ops[1], num) == Ok(a)
    requires num.literal(ops[2]).Some?
    ensures Decode(m, ops, labels, pc, num) == Ok(IType(iop, rd, a, num.literal(ops[2]).value))
  {
  }

  /** The word for `nop` and unknown mnemonics is `addi x0, x0, 0`. */
  lemma NopIsAddi()
    ensures EncodeIType(IAddi, 0, 0, 0) == NopWord
  {
    ITypeWord(IAddi, 0, 0, 0);
  }
}
