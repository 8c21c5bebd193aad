/**
 `RISCVAssembler._parse_register`: a register operand is lower-cased and
 stripped; `x<n>` is read as the decimal number n, and any other name is looked
 up in the ABI table, with names the table lacks read as register 0.

 Python's `int()` on the digits is not modelled; it is the `decimal` field of a
 `Numerals` parameter, `None` standing for the ValueError it raises.
 */
module Registers {
  import opened Outcome
  import opened Text
  import opened Encoding

  /** Python's `int(text)` and `int(text, 0)`, taken as given: `None` where Python raises ValueError. */
  datatype Numerals = Numerals(decimal: string -> Option<int>, literal: string -> Option<int>)

  /** The `reg_map` table of ABI register names. */
  const AbiRegisters: map<string, Reg> := map[
    "zero" := 0, "ra" := 1, "sp" := 2, "gp" := 3, "tp" := 4,
    "t0" := 5, "t1" := 6, "t2" := 7, "s0" := 8, "fp" := 8,
    "s1" := 9, "a0" := 10, "a1" := 11, "a2" := 12, "a3" := 13,
    "a4" := 14, "a5" := 15, "a6" := 16, "a7" := 17,
    "s2" := 18, "s3" := 19, "s4" := 20, "s5" := 21,
    "s6" := 22, "s7" := 23, "s8" := 24, "s9" := 25,
    "s10" := 26, "s11" := 27, "t3" := 28, "t4" := 29,
    "t5" := 30, "t6" := 31]

  /**
   The ABI name of each register in the order of the RISC-V calling
   convention (register 8 under its name `s0`): a reference the table is
   checked against.
   */
  const AbiNames: seq<string> := [
    "zero", "ra", "sp", "gp", "tp", "t0", "t1", "t2",
    "s0", "s1", "a0", "a1", "a2", "a3", "a4", "a5",
    "a6", "a7", "s2", "s3", "s4", "s5", "s6", "s7",
    "s8", "s9", "s10", "s11", "t3", "t4", "t5", "t6"]

  /** `_parse_register(reg)`: the operand is lower-cased and stripped, then read as a name. */
  function ParseRegister(reg: string, num: Numerals): (r: Result<Reg, Fault>)
    ensures r.Err? ==> "x" <= Normalise(reg)
  {
    ReadName(Normalise(reg), num)
  }

  /** `reg.lower().strip()`. */
  function Normalise(reg: string): string
  {
    Strip(Lower(reg))
  }

  /** The rest of `_parse_register`, on the normalised operand: `x<n>`, an ABI name, or register 0. */
  function ReadName(name: string, num: Numerals): (r: Result<Reg, Fault>)
    ensures r.Err? <==> "x" <= name && !(num.decimal(name[1..]).Some? && 0 <= num.decimal(name[1..]).value < 32)
    ensures r.Err? ==> "x" <= name && (r.error == NotANumber(name[1..]) <==> num.decimal(name[1..]).None?)
  {
    if "x" <= name then
      match num.decimal(name[1..])
      case None => Err(NotANumber(name[1..]))
      case Some(n) => if 0 <= n < 32 then Ok(n) else Err(RegisterOutOfRange(n))
    else if name in AbiRegisters then Ok(AbiRegisters[name])
    else Ok(0)
  }

  /** A name of lower-case letters and digits: what lower-casing and stripping leave alone. */
  predicate IsPlainName(s: string)
  {
    forall i :: 0 <= i < |s| ==> 'a' <= s[i] <= 'z' || '0' <= s[i] <= '9'
  }

  /** Lower-casing and stripping leave a plain name as it is. */
  lemma PlainNormalised(s: string)
    requires IsPlainName(s)
    ensures Normalise(s) == s
  {
    LowerUnchanged(s);
    assert IsTrimmed(s) by {
      if s != [] {
        PlainNotSpace(s[0]);
        PlainNotSpace(s[|s| - 1]);
      }
    }
    assert [] + s + [] == s;
    StripUnique([], s, []);
  }

  /** A lower-case letter or a digit is not whitespace. */
  lemma PlainNotSpace(c: char)
    requires 'a' <= c <= 'z' || '0' <= c <= '9'
    ensures !IsSpace(c)
  {
  }

  /** `x` followed by decimal digits names the register the digits denote, and is an error outside 0..31. */
  lemma ParseNumbered(digits: string, n: int, num: Numerals)
    requires forall i :: 0 <= i < |digits| ==> '0' <= digits[i] <= '9'
    requires num.decimal(digits) == Some(n)
    ensures 0 <= n < 32 ==> ParseRegister("x" + digits, num) == Ok(n)
    ensures !(0 <= n < 32) ==> ParseRegister("x" + digits, num) == Err(RegisterOutOfRange(n))
  {
    var s := "x" + digits;
    assert forall i :: 1 <= i < |s| ==> s[i] == digits[i - 1];
    PlainNormalised(s);
    assert s[1..] == digits;
  }

  /** A plain name not starting with `x` is read from the ABI table, and as register 0 when the table lacks it. */
  lemma ParsePlainName(name: string, num: Numerals)
    requires IsPlainName(name) && !("x" <= name)
    ensures name in AbiRegisters ==> ParseRegister(name, num) == Ok(AbiRegisters[name])
    ensures name !in AbiRegisters ==> ParseRegister(name, num) == Ok(0)
  {
    PlainNormalised(name);
  }

  /** Normalising twice is normalising once. */
  lemma NormaliseIdempotent(reg: string)
    ensures Normalise(Normalise(reg)) == Normalise(reg)
  {
    var t := Lower(reg);
    var s := Strip(t);
    NoUpperSlice(reg, LeadingSpaces(t), s);
    LowerUnchanged(s);
    StripIdempotent(t);
  }

  /** A slice of lower-cased text holds no upper-case letter. */
  lemma NoUpperSlice(reg: string, a: nat, s: string)
    requires a + |s| <= |reg| && s == Lower(reg)[a..a + |s|]
    ensures forall i :: 0 <= i < |s| ==> !('A' <= s[i] <= 'Z')
  {
    assert forall i :: 0 <= i < |s| ==> s[i] == LowerChar(reg[a + i]);
  }

  /** Case and surrounding whitespace do not change what a register operand names. */
  lemma ParseNormalised(reg: string, num: Numerals)
    ensures ParseRegister(Normalise(reg), num) == ParseRegister(reg, num)
  {
    NormaliseIdempotent(reg);
  }

  /** The table gives each register's ABI name that register's number. */
  lemma NamesToTable(n: nat)
    requires n < 32
    ensures AbiNames[n] in AbiRegisters && AbiRegisters[AbiNames[n]] == n
  {
    if n < 4 {
      NamesToTable0(n);
    } else if n < 8 {
      NamesToTable1(n);
    } else if n < 16 {
      NamesToTable2(n);
    } else if n < 24 {
      NamesToTable3(n);
    } else {
      NamesToTable4(n);
    }
  }

  /** `NamesToTable` for registers 0 to 3. */
  lemma NamesToTable0(n: nat)
    requires 0 <= n < 4
    ensures AbiNames[n] in AbiRegisters && AbiRegisters[AbiNames[n]] == n
  {
    assert n == 0 || n == 1 || n == 2 || n == 3;
  }

  /** `NamesToTable` for registers 4 to 7. */
  lemma NamesToTable1(n: nat)
    requires 4 <= n < 8
    ensures AbiNames[n] in AbiRegisters && AbiRegisters[AbiNames[n]] == n
  {
    assert n == 4 || n == 5 || n == 6 || n == 7;
  }

  /** `NamesToTable` for registers 8 to 15. */
  lemma NamesToTable2(n: nat)
    requires 8 <= n < 16
    ensures AbiNames[n] in AbiRegisters && AbiRegisters[AbiNames[n]] == n
  {
    assert n == 8 || n == 9 || n == 10 || n == 11 || n == 12 || n == 13 || n == 14 || n == 15;
  }

  /** `NamesToTable` for registers 16 to 23. */
  lemma NamesToTable3(n: nat)
    requires 16 <= n < 24
    ensures AbiNames[n] in AbiRegisters && AbiRegisters[AbiNames[n]] == n
  {
    assert n == 16 || n == 17 || n == 18 || n == 19 || n == 20 || n == 21 || n == 22 || n == 23;
  }

  /** `NamesToTable` for registers 24 to 31. */
  lemma NamesToTable4(n: nat)
    requires 24 <= n < 32
    ensures AbiNames[n] in AbiRegisters && AbiRegisters[AbiNames[n]] == n
  {
    assert n == 24 || n == 25 || n == 26 || n == 27 || n == 28 || n == 29 || n == 30 || n == 31;
  }
}
