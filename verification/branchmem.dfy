/**
 The table-building loop of `generate_branch_mem`: a direct-mapped table of
 256 rows indexed by pc bits 9..2.  Each branch is packed into one 66-bit row
 `valid(1) | taken(1) | pc(32) | target(32)`, and a later branch whose pc has
 the same index overwrites an earlier one.  Rows no branch reaches are 0.

 Writing the rows as hexadecimal text is not modelled; the table is returned
 as its 256 numbers.
 */
module BranchMemory {
  import opened Bits
  import opened Extraction

  /** The number of rows written. */
  const TableSize: nat := 256

  /** `(pc >> 2) & 0xFF`. */
  function Index(pc: int): nat
  {
    And(Shr(pc, 2), 0xFF)
  }

  /** `int(taken)`. */
  function Bit(b: bool): nat
  {
    if b then 1 else 0
  }

  /** `(valid << 65) | (int(taken) << 64) | (pc << 32) | target` with `valid = 1`. */
  function Pack(pc: nat, taken: bool, target: nat): nat
  {
    Or(Or(Or(Shl(1, 65), Shl(Bit(taken), 64)), Shl(pc, 32)), target)
  }

  /** A branch whose pc and target are not negative, as `generate_from_assembly` produces. */
  predicate Packable(b: Branch)
  {
    b.pc >= 0 && b.target >= 0
  }

  /** The packed row of a branch. */
  function Entry(b: Branch): nat
    requires Packable(b)
  {
    Pack(b.pc, b.taken, b.target)
  }

  /** One `branch_table[index] = entry` assignment of the loop. */
  datatype Write = Write(row: nat, entry: nat)

  /** The assignment a branch makes. */
  function WriteOf(b: Branch): Write
    requires Packable(b)
  {
    Write(Index(b.pc), Entry(b))
  }

  /** The assignments the loop makes, in order. */
  function Writes(branches: seq<Branch>): (ws: seq<Write>)
    requires forall j :: 0 <= j < |branches| ==> Packable(branches[j])
    ensures |ws| == |branches|
    ensures forall j :: 0 <= j < |branches| ==> ws[j] == WriteOf(branches[j])
  {
    seq(|branches|, j requires 0 <= j < |branches| => WriteOf(branches[j]))
  }

  /** The dict after a run of assignments: each row holds what was written to it last. */
  function Store(ws: seq<Write>): map<nat, nat>
  {
    if ws == [] then map[]
    else Store(ws[..|ws| - 1])[ws[|ws| - 1].row := ws[|ws| - 1].entry]
  }

  /** The 256 rows written out: the dict's entry where there is one, and 0 elsewhere. */
  function Rows(m: map<nat, nat>): (rows: seq<nat>)
    ensures |rows| == TableSize
  {
    seq(TableSize, i requires 0 <= i < TableSize => if i in m then m[i] else 0)
  }

  /** The branch table `generate_branch_mem` writes for a list of branches. */
  function Table(branches: seq<Branch>): (rows: seq<nat>)
    requires forall j :: 0 <= j < |branches| ==> Packable(branches[j])
    ensures |rows| == TableSize
  {
    Rows(Store(Writes(branches)))
  }

  // ---------------------------------------------------------------------------
  // The index
  // ---------------------------------------------------------------------------

  /** The index is pc bits 9..2: the word number modulo 256. */
  lemma IndexBits(pc: int)
    ensures Index(pc) == Field(pc, 2, 8) == (pc / 4) % 256
    ensures Index(pc) < TableSize
  {
    Pow2Byte();
    AndLowMask(Shr(pc, 2), 8);
    ShrDiv(pc, 2);
    assert Shr(Shr(pc, 2), 0) == Shr(pc, 2);
  }

  // ---------------------------------------------------------------------------
  // Packing
  // ---------------------------------------------------------------------------

  /** The row's fields stacked by multiplication: the arithmetic behind `Stack`. */
  lemma Stacked(t: nat, pc: nat, w: nat, d: nat, v: nat)
    requires d == w * w && v == 2 * d
    ensures (2 + t) * d == v + t * d
    ensures ((2 + t) * w + pc) * w == v + t * d + pc * w
  {
  }

  /** A number below `w` shifted up by `w` stays below `w * w`. */
  lemma HighWord(x: nat, y: nat, w: nat)
    requires x < w && y < w
    ensures x * w + y < w * w
  {
    assert x * w <= (w - 1) * w;
  }

  /** The value of a row of width k: valid flag at bit 2k+1, taken flag at 2k, pc above bit k, target below. */
  function Row(pc: nat, t: nat, target: nat, k: nat): nat
  {
    Pow2(2 * k + 1) + t * Pow2(2 * k) + pc * Pow2(k) + target
  }

  /** `Pack` for fields of any width k: one flag at 2k+1, one at 2k, and two k-bit fields, ORed as a sum. */
  lemma Stack(pc: nat, t: nat, target: nat, k: nat)
    requires t < 2 && pc < Pow2(k) && target < Pow2(k)
    ensures Or(Or(Or(Shl(1, 2 * k + 1), Shl(t, 2 * k)), Shl(pc, k)), target) == Row(pc, t, target, k)
  {
    var w, d, v := Pow2(k), Pow2(2 * k), Pow2(2 * k + 1);
    var a := Or(Shl(1, 2 * k + 1), Shl(t, 2 * k));
    var b := Or(a, Shl(pc, k));
    assert d == w * w && v == 2 * d by {
      Pow2Add(k, k);
      Pow2Add(2 * k, 1);
      assert Pow2(1) == 2;
    }
    Stacked(t, pc, w, d, v);
    assert a == v + t * d by {
      assert t * d < v;
      OrDisjointAt(t * d, v, 1, 2 * k + 1);
    }
    assert b == v + t * d + pc * w by {
      HighWord(pc, 0, w);
      OrDisjointAt(pc * w, v + t * d, 2 + t, 2 * k);
    }
    assert pc * w + target < d by {
      HighWord(pc, target, w);
    }
    OrDisjointAt(target, b, (2 + t) * w + pc, k);
  }

  /** With a 32-bit pc and target the four fields do not overlap, so the ORs are sums. */
  lemma PackValue(pc: nat, taken: bool, target: nat)
    requires pc < Pow2(32) && target < Pow2(32)
    ensures Pack(pc, taken, target) == Pow2(65) + Bit(taken) * Pow2(64) + pc * Pow2(32) + target
  {
    var k := 32;
    Stack(pc, Bit(taken), target, k);
  }

  /** Bit 65 of a row: the valid flag. */
  function ValidOf(entry: nat): bool { Field(entry, 65, 1) == 1 }

  /** Bit 64 of a row: the taken flag. */
  function TakenOf(entry: nat): bool { Field(entry, 64, 1) == 1 }

  /** Bits 63..32 of a row: the branch's pc. */
  function PcOf(entry: nat): nat { Field(entry, 32, 32) }

  /** Bits 31..0 of a row: the branch's target. */
  function TargetOf(entry: nat): nat { Field(entry, 0, 32) }

  /** The two k-bit fields of a stacked row of width k read back as stacked. */
  lemma UnstackWords(e: nat, pc: nat, t: nat, target: nat, k: nat)
    requires t < 2 && pc < Pow2(k) && target < Pow2(k)
    requires e == Row(pc, t, target, k)
    ensures Field(e, k, k) == pc && Field(e, 0, k) == target
  {
    var w, d, v := Pow2(k), Pow2(2 * k), Pow2(2 * k + 1);
    Pow2Add(k, k);
    Pow2Add(2 * k, 1);
    assert Pow2(0) == 1 && Pow2(1) == 2;
    Stacked(t, pc, w, d, v);
    FieldOfParts(e, (2 + t) * w + pc, target, 0, 0, k);
    FieldOfParts(e, 2 + t, pc, target, k, k);
  }

  /** Two one-bit flags at bits j+1 and j above a j-bit remainder read back as stacked. */
  lemma Flags(e: nat, t: nat, low: nat, j: nat)
    requires t < 2 && low < Pow2(j)
    requires e == Pow2(j + 1) + t * Pow2(j) + low
    ensures Field(e, j + 1, 1) == 1 && Field(e, j, 1) == t
  {
    var d := Pow2(j);
    Pow2Add(j, 1);
    assert Pow2(1) == 2;
    FieldOfParts(e, 1, t, low, j, 1);
    assert t * d + low < 2 * d by {
      if t == 0 {
      } else {
      }
    }
    FieldOfParts(e, 0, 1, t * d + low, j + 1, 1);
  }

  /** A packed row is its two flags above a 64-bit remainder. */
  lemma PackLow(pc: nat, taken: bool, target: nat) returns (low: nat)
    requires pc < Pow2(32) && target < Pow2(32)
    ensures low < Pow2(64) && Pack(pc, taken, target) == Pow2(65) + Bit(taken) * Pow2(64) + low
  {
    var k := 32;
    Stack(pc, Bit(taken), target, k);
    low := pc * Pow2(k) + target;
    Pow2Add(k, k);
    HighWord(pc, target, Pow2(k));
  }

  /** The pc and target words of a packed row read back as packed. */
  lemma PackWords(pc: nat, taken: bool, target: nat)
    requires pc < Pow2(32) && target < Pow2(32)
    ensures PcOf(Pack(pc, taken, target)) == pc && TargetOf(Pack(pc, taken, target)) == target
  {
    var k, t := 32, Bit(taken);
    Stack(pc, t, target, k);
    UnstackWords(Pack(pc, taken, target), pc, t, target, k);
  }

  /** The flags of a packed row: valid set, taken as packed. */
  lemma PackFlags(pc: nat, taken: bool, target: nat)
    requires pc < Pow2(32) && target < Pow2(32)
    ensures ValidOf(Pack(pc, taken, target)) && TakenOf(Pack(pc, taken, target)) == taken
  {
    var low := PackLow(pc, taken, target);
    if taken {
      Flags(Pack(pc, taken, target), 1, low, 64);
    } else {
      Flags(Pack(pc, taken, target), 0, low, 64);
    }
  }

  /** A packed row reads back as the branch it was packed from, with the valid bit set. */
  lemma UnpackPack(pc: nat, taken: bool, target: nat)
    requires pc < Pow2(32) && target < Pow2(32)
    ensures var e := Pack(pc, taken, target);
      ValidOf(e) && TakenOf(e) == taken && PcOf(e) == pc && TargetOf(e) == target
  {
    PackWords(pc, taken, target);
    PackFlags(pc, taken, target);
  }

  /** OR with a positive left operand is positive. */
  lemma {:induction false} OrPositive(a: nat, b: nat)
    requires a > 0
    ensures Or(a, b) > 0
    decreases a + b
  {
    if a % 2 == 0 {
      OrPositive(a / 2, b / 2);
    }
  }

  /** Every row that holds a branch is non-zero, whatever the width of pc and target. */
  lemma PackPositive(pc: nat, taken: bool, target: nat)
    ensures Pack(pc, taken, target) > 0
  {
    var v := Shl(1, 65);
    OrPositive(v, Shl(Bit(taken), 64));
    OrPositive(Or(v, Shl(Bit(taken), 64)), Shl(pc, 32));
    OrPositive(Or(Or(v, Shl(Bit(taken), 64)), Shl(pc, 32)), target);
  }

  // ---------------------------------------------------------------------------
  // The table
  // ---------------------------------------------------------------------------

  /** A row is in the dict exactly when some assignment wrote to it. */
  lemma {:induction false} StoreKeys(ws: seq<Write>, i: nat)
    ensures i in Store(ws) <==> exists j :: 0 <= j < |ws| && ws[j].row == i
  {
    if ws != [] {
      var init := ws[..|ws| - 1];
      StoreKeys(init, i);
      if i in Store(init) {
        var j :| 0 <= j < |init| && init[j].row == i;
        assert ws[j] == init[j];
      }
      if exists j :: 0 <= j < |ws| && ws[j].row == i {
        var j :| 0 <= j < |ws| && ws[j].row == i;
        if j < |init| {
          assert init[j] == ws[j];
        }
      }
    }
  }

  /** A row holds the entry of the last assignment to it. */
  lemma {:induction false} StoreLast(ws: seq<Write>, j: int)
    requires 0 <= j < |ws|
    requires forall k :: j < k < |ws| ==> ws[k].row != ws[j].row
    ensures ws[j].row in Store(ws) && Store(ws)[ws[j].row] == ws[j].entry
  {
    var init := ws[..|ws| - 1];
    if j < |ws| - 1 {
      assert init[j] == ws[j];
      StoreLast(init, j);
    }
  }

  /** When every assignment writes a non-zero entry, every row in the dict is non-zero. */
  lemma {:induction false} StorePositive(ws: seq<Write>, i: nat)
    requires forall j :: 0 <= j < |ws| ==> ws[j].entry > 0
    requires i in Store(ws)
    ensures Store(ws)[i] > 0
  {
    var init := ws[..|ws| - 1];
    if ws[|ws| - 1].row != i {
      StorePositive(init, i);
    }
  }

  /** Every branch's row is non-zero, so a zero row is one no branch reached. */
  lemma EntriesPositive(branches: seq<Branch>)
    requires forall k :: 0 <= k < |branches| ==> Packable(branches[k])
    ensures forall j :: 0 <= j < |branches| ==> Writes(branches)[j].entry > 0
  {
    forall j | 0 <= j < |branches|
      ensures Writes(branches)[j].entry > 0
    {
      var b := branches[j];
      PackPositive(b.pc, b.taken, b.target);
    }
  }

  /** Row i of the table is non-zero exactly when some branch's pc has index i. */
  lemma TableFilled(branches: seq<Branch>, i: nat)
    requires forall k :: 0 <= k < |branches| ==> Packable(branches[k])
    requires i < TableSize
    ensures Table(branches)[i] != 0 <==> exists j :: 0 <= j < |branches| && Index(branches[j].pc) == i
  {
    var ws := Writes(branches);
    var m := Store(ws);
    assert Table(branches)[i] == if i in m then m[i] else 0;
    StoreKeys(ws, i);
    if i in m {
      EntriesPositive(branches);
      StorePositive(ws, i);
    }
    if exists j :: 0 <= j < |branches| && Index(branches[j].pc) == i {
      var j :| 0 <= j < |branches| && Index(branches[j].pc) == i;
      assert ws[j].row == i;
    }
    if exists j :: 0 <= j < |ws| && ws[j].row == i {
      var j :| 0 <= j < |ws| && ws[j].row == i;
      assert Index(branches[j].pc) == i;
    }
  }

  /** Row i of the table holds the packed last branch whose pc has index i. */
  lemma TableLast(branches: seq<Branch>, j: nat)
    requires forall k :: 0 <= k < |branches| ==> Packable(branches[k])
    requires j < |branches|
    requires forall k :: j < k < |branches| ==> Index(branches[k].pc) != Index(branches[j].pc)
    ensures Index(branches[j].pc) < TableSize
    ensures Table(branches)[Index(branches[j].pc)] == Entry(branches[j])
  {
    var ws := Writes(branches);
    IndexBits(branches[j].pc);
    assert forall k :: j < k < |ws| ==> ws[k].row != ws[j].row;
    StoreLast(ws, j);
  }

  /** The loop of `generate_branch_mem`: the dict after every branch has been stored. */
  method FillTable(branches: seq<Branch>) returns (table: map<nat, nat>)
    requires forall k :: 0 <= k < |branches| ==> Packable(branches[k])
    ensures table == Store(Writes(branches))
  {
    ghost var ws := Writes(branches);
    table := map[];
    var n := 0;
    while n < |branches|
      invariant 0 <= n <= |branches|
      invariant table == Store(ws[..n])
    {
      var b := branches[n];
      assert ws[..n + 1][..n] == ws[..n];
      table := table[Index(b.pc) := Pack(b.pc, b.taken, b.target)];
      n := n + 1;
    }
    assert ws[..n] == ws;
  }

  /** The loop that writes the 256 rows, 0 where the dict has no entry. */
  method WriteRows(table: map<nat, nat>) returns (rows: seq<nat>)
    ensures rows == Rows(table)
  {
    rows := [];
    var i := 0;
    while i < TableSize
      invariant 0 <= i <= TableSize && |rows| == i
      invariant forall k :: 0 <= k < i ==> rows[k] == if k in table then table[k] else 0
    {
      var row := if i in table then table[i] else 0;
      rows := rows + [row];
      i := i + 1;
    }
  }

  /** `generate_branch_mem` without the file output: the table for a list of branches. */
  method BuildTable(branches: seq<Branch>) returns (rows: seq<nat>)
    requires forall k :: 0 <= k < |branches| ==> Packable(branches[k])
    ensures rows == Table(branches)
  {
    var table := FillTable(branches);
    rows := WriteRows(table);
  }
}
