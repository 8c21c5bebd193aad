/**
 Python's integer bit operations on unbounded integers.

 Python integers behave as two's-complement numbers with infinitely many
 sign bits: `x >> n` is floor division by 2^n, and `x & m` with `m >= 0` is
 a non-negative number even when `x` is negative.  `Shl`, `Shr`, `And` and
 `Or` below are those operators written out bit by bit; `Field` reads a bit
 range as a number, and the lemmas turn the operators into field arithmetic.
 */
module Bits {

  /** 2^n. */
  function Pow2(n: nat): (r: nat)
    ensures r >= 1
  {
    if n == 0 then 1 else 2 * Pow2(n - 1)
  }

  /** Python `x << n`. */
  function Shl(x: nat, n: nat): nat
  {
    x * Pow2(n)
  }

  /** Python `x >> n`: `n` floor-halvings (Dafny's `/` by 2 floors, also below zero). */
  function Shr(x: int, n: nat): (r: int)
    ensures x >= 0 ==> r >= 0
    decreases n
  {
    if n == 0 then x else Shr(x / 2, n - 1)
  }

  /** Python `x & m` for a non-negative mask `m`, bit by bit from the lowest. */
  function And(x: int, m: nat): nat
    decreases m
  {
    if m == 0 then 0
    else 2 * And(x / 2, m / 2) + (if x % 2 == 1 && m % 2 == 1 then 1 else 0)
  }

  /** Python `a | b` for non-negative operands, bit by bit from the lowest. */
  function Or(a: nat, b: nat): nat
    decreases a + b
  {
    if a == 0 && b == 0 then 0
    else 2 * Or(a / 2, b / 2) + (if a % 2 == 1 || b % 2 == 1 then 1 else 0)
  }

  /** Bits lo .. lo+w-1 of `x` read as a number. */
  function Field(x: int, lo: nat, w: nat): nat
  {
    Shr(x, lo) % Pow2(w)
  }

  /** The powers of two up to a byte, by evaluation. */
  lemma Pow2Byte()
    ensures Pow2(1) == 2 && Pow2(2) == 4 && Pow2(3) == 8 && Pow2(4) == 16 && Pow2(5) == 32
    ensures Pow2(6) == 64 && Pow2(7) == 128 && Pow2(8) == 256
  {
  }

  /** The powers of two that instruction fields use, up to the 32-bit word. */
  lemma Pow2Word()
    ensures Pow2(1) == 2 && Pow2(3) == 8 && Pow2(4) == 16 && Pow2(5) == 32 && Pow2(6) == 64
    ensures Pow2(7) == 0x80 && Pow2(8) == 0x100 && Pow2(9) == 0x200 && Pow2(10) == 0x400
    ensures Pow2(11) == 0x800
    ensures Pow2(12) == 0x1000 && Pow2(13) == 0x2000 && Pow2(15) == 0x8000 && Pow2(19) == 0x8_0000
    ensures Pow2(20) == 0x10_0000 && Pow2(21) == 0x20_0000 && Pow2(25) == 0x200_0000
    ensures Pow2(30) == 0x4000_0000 && Pow2(31) == 0x8000_0000 && Pow2(32) == 0x1_0000_0000
  {
    Pow2Byte();
    Pow2Add(8, 1);
    Pow2Add(8, 2);
    Pow2Add(8, 3);
    Pow2Add(8, 4);
    Pow2Add(8, 5);
    Pow2Add(8, 7);
    Pow2Add(15, 4);
    Pow2Add(15, 5);
    Pow2Add(15, 6);
    Pow2Add(20, 5);
    Pow2Add(25, 5);
    Pow2Add(25, 6);
    Pow2Add(25, 7);
  }

  // ---------------------------------------------------------------------------
  // Arithmetic facts about division and remainder
  // ---------------------------------------------------------------------------

  lemma {:induction false} Pow2Add(a: nat, b: nat)
    ensures Pow2(a + b) == Pow2(a) * Pow2(b)
  {
    if a > 0 {
      Pow2Add(a - 1, b);
      assert Pow2(a + b) == 2 * Pow2(a - 1 + b);
    }
  }

  lemma MulSign(k: int, d: int)
    ensures k >= 1 && d > 0 ==> k * d >= d
    ensures k >= 0 && d >= 0 ==> k * d >= 0
  {
  }

  /** A multiple of `d` strictly between `-d` and `d` is zero. */
  lemma MulSmall(k: int, d: int)
    requires d > 0 && -d < k * d < d
    ensures k == 0
  {
    MulSign(k, d);
    MulSign(-k, d);
  }

  /** Euclidean division is determined by any quotient/remainder pair. */
  lemma DivModUnique(x: int, d: int, q: int, r: int)
    requires d > 0 && 0 <= r < d && x == q * d + r
    ensures x / d == q && x % d == r
  {
    var q0, r0 := x / d, x % d;
    assert (q0 - q) * d == r - r0;
    MulSmall(q0 - q, d);
  }

  lemma MulTwo(x: int, p: int)
    ensures x * (2 * p) == 2 * (x * p)
  {
  }

  lemma MulLeft(a: int, b: int, c: int)
    ensures a * (b + c) == a * b + a * c
  {
  }

  lemma MulBound(a: int, m: int, b: int)
    requires a > 0 && 0 <= m <= b - 1
    ensures a * m <= a * b - a
  {
    MulSign(a, b - 1 - m);
    MulLeft(a, b - 1 - m, m);
  }

  /** Dividing by `a` then by `b` is dividing by `a * b`, and the remainder splits likewise. */
  lemma DivDiv(x: int, a: int, b: int)
    requires a > 0 && b > 0
    ensures a * b > 0
    ensures (x / a) / b == x / (a * b)
    ensures x % (a * b) == x % a + a * ((x / a) % b)
  {
    MulSign(b, a);
    var y, r1 := x / a, x % a;
    var q, r2 := y / b, y % b;
    assert x == a * y + r1;
    assert y == b * q + r2;
    MulLeft(a, b * q, r2);
    assert a * (b * q) == (a * b) * q;
    assert x == (a * b) * q + (a * r2 + r1);
    MulBound(a, r2, b);
    DivModUnique(x, a * b, q, a * r2 + r1);
  }

  lemma DivModParts(x: int, hi: int, f: int, low: int, p: int, q: int)
    requires p > 0 && q > 0 && 0 <= f < q && 0 <= low < p
    requires x == (hi * q + f) * p + low
    ensures (x / p) % q == f
  {
    DivModUnique(x, p, hi * q + f, low);
    DivModUnique(hi * q + f, q, hi, f);
  }

  // ---------------------------------------------------------------------------
  // Shifts and fields
  // ---------------------------------------------------------------------------

  /** `x >> n` is floor division by 2^n. */
  lemma {:induction false} ShrDiv(x: int, n: nat)
    decreases n
    ensures Shr(x, n) == x / Pow2(n)
  {
    if n > 0 {
      ShrDiv(x / 2, n - 1);
      DivDiv(x, 2, Pow2(n - 1));
    }
  }

  /** Shifting by `a` and then by `b` is shifting by `a + b`. */
  lemma {:induction false} ShrShr(x: int, a: nat, b: nat)
    decreases a
    ensures Shr(Shr(x, a), b) == Shr(x, a + b)
  {
    if a > 0 {
      ShrShr(x / 2, a - 1, b);
    }
  }

  /** Shifting a shifted value back down recovers it. */
  lemma ShrShl(f: nat, n: nat)
    ensures Shr(Shl(f, n), n) == f && Field(Shl(f, n), 0, n) == 0
  {
    ShrDiv(f * Pow2(n), n);
    DivModUnique(f * Pow2(n), Pow2(n), f, 0);
  }

  /** A number below 2^n shifts down to zero and is its own low field. */
  lemma ShrSmall(x: nat, n: nat)
    requires x < Pow2(n)
    ensures Shr(x, n) == 0 && Field(x, 0, n) == x
  {
    ShrDiv(x, n);
    DivModUnique(x, Pow2(n), 0, x);
  }

  /** `x` is its bits above `n` followed by its low `n` bits. */
  lemma ShrRecompose(x: int, n: nat)
    ensures x == Shr(x, n) * Pow2(n) + Field(x, 0, n)
  {
    ShrDiv(x, n);
  }

  /** A number assembled from a high part, a `w`-bit field at `lo` and a low part reads back that field. */
  lemma FieldOfParts(x: int, hi: int, f: int, low: int, lo: nat, w: nat)
    requires 0 <= f < Pow2(w) && 0 <= low < Pow2(lo)
    requires x == hi * Pow2(lo + w) + f * Pow2(lo) + low
    ensures Field(x, lo, w) == f
  {
    var p, q := Pow2(lo), Pow2(w);
    Pow2Add(lo, w);
    assert hi * (p * q) == (hi * q) * p;
    assert (hi * q + f) * p == (hi * q) * p + f * p;
    ShrDiv(x, lo);
    DivModParts(x, hi, f, low, p, q);
  }

  /** Two adjacent fields make one wider field. */
  lemma FieldConcat(x: int, lo: nat, a: nat, b: nat)
    ensures Field(x, lo, a + b) == Field(x, lo, a) + Pow2(a) * Field(x, lo + a, b)
  {
    var y := Shr(x, lo);
    ShrShr(x, lo, a);
    ShrDiv(y, a);
    Pow2Add(a, b);
    DivDiv(y, Pow2(a), Pow2(b));
  }

  // ---------------------------------------------------------------------------
  // And
  // ---------------------------------------------------------------------------

  /** Dropping the lowest bit, then taking the remainder modulo p, is taking the remainder modulo 2p without that bit. */
  lemma HalfMod(x: int, p: int, r: int)
    requires p > 0 && r == (x / 2) % p
    ensures x % (2 * p) == 2 * r + x % 2
  {
    DivDiv(x, 2, p);
  }

  /** The field at bit 0 is the remainder modulo 2^w. */
  lemma LowField(x: int, w: nat)
    ensures Field(x, 0, w) == x % Pow2(w)
  {
    assert Shr(x, 0) == x;
  }

  /** `x & (2^w - 1)` is the low `w` bits of `x`, also for negative `x`. */
  lemma {:induction false} AndLowMask(x: int, w: nat)
    decreases w
    ensures And(x, Pow2(w) - 1) == Field(x, 0, w)
  {
    if w > 0 {
      var p, q := Pow2(w - 1), Pow2(w);
      assert q == 2 * p;
      AndLowMask(x / 2, w - 1);
      var r := Field(x / 2, 0, w - 1);
      assert r == (x / 2) % p by {
        LowField(x / 2, w - 1);
      }
      assert And(x, q - 1) == 2 * r + x % 2 by {
        assert (q - 1) / 2 == p - 1 && (q - 1) % 2 == 1;
      }
      assert Field(x, 0, w) == 2 * r + x % 2 by {
        LowField(x, w);
        HalfMod(x, p, r);
      }
    }
  }

  /** `x & ((2^w - 1) << lo)` keeps bits lo .. lo+w-1 of `x` in place. */
  lemma {:induction false} AndMask(x: int, lo: nat, w: nat)
    decreases lo
    ensures And(x, (Pow2(w) - 1) * Pow2(lo)) == Field(x, lo, w) * Pow2(lo)
  {
    if lo == 0 {
      AndLowMask(x, w);
    } else if w == 0 {
      assert (Pow2(w) - 1) * Pow2(lo) == 0;
    } else {
      var c, p := Pow2(w) - 1, Pow2(lo - 1);
      var m := c * Pow2(lo);
      assert Pow2(lo) == 2 * p;
      MulTwo(c, p);
      assert m / 2 == c * p && m % 2 == 0;
      MulSign(c, Pow2(lo));
      AndMask(x / 2, lo - 1, w);
      var f := Field(x, lo, w);
      assert f == Field(x / 2, lo - 1, w);
      assert And(x, m) == 2 * (f * p);
      MulTwo(f, p);
    }
  }

  /** `(x >> lo) & (2^w - 1)` is the field at `lo`. */
  lemma ShrAnd(x: int, lo: nat, w: nat)
    ensures And(Shr(x, lo), Pow2(w) - 1) == Field(x, lo, w)
  {
    AndLowMask(Shr(x, lo), w);
  }

  // ---------------------------------------------------------------------------
  // Or
  // ---------------------------------------------------------------------------

  lemma {:induction false} OrZero(a: nat)
    ensures Or(a, 0) == a && Or(0, a) == a
  {
    if a > 0 {
      OrZero(a / 2);
    }
  }

  /** One step of `Or`: the lowest bit, and the rest shifted down by one. */
  lemma OrStep(a: nat, b: nat)
    ensures Or(a, b) == 2 * Or(a / 2, b / 2) + (if a % 2 == 1 || b % 2 == 1 then 1 else 0)
  {
    if a == 0 && b == 0 {
      assert Or(a / 2, b / 2) == 0;
    }
  }

  /** Or works on the bits below 2^k and the bits above independently. */
  lemma {:induction false} OrSplit(a: nat, b: nat, k: nat)
    decreases k
    ensures Or(a, b) == Or(Shr(a, k), Shr(b, k)) * Pow2(k) + Or(Field(a, 0, k), Field(b, 0, k))
  {
    if k == 0 {
      OrZero(0);
    } else {
      var p := Pow2(k - 1);
      OrSplit(a / 2, b / 2, k - 1);
      DivDiv(a, 2, p);
      DivDiv(b, 2, p);
      var u, v := Field(a, 0, k), Field(b, 0, k);
      assert u == Field(a / 2, 0, k - 1) * 2 + a % 2;
      assert v == Field(b / 2, 0, k - 1) * 2 + b % 2;
      OrStep(a, b);
      OrStep(u, v);
      var x := Or(Shr(a, k), Shr(b, k));
      var y := Or(Field(a / 2, 0, k - 1), Field(b / 2, 0, k - 1));
      assert u / 2 == Field(a / 2, 0, k - 1) && u % 2 == a % 2;
      assert v / 2 == Field(b / 2, 0, k - 1) && v % 2 == b % 2;
      assert Or(a / 2, b / 2) == x * p + y;
      assert Or(u, v) == 2 * y + (if a % 2 == 1 || b % 2 == 1 then 1 else 0);
      var c := if a % 2 == 1 || b % 2 == 1 then 1 else 0;
      assert Or(a, b) == 2 * (x * p + y) + c;
      assert Pow2(k) == 2 * p;
      MulTwo(x, p);
      assert Or(a, b) == x * Pow2(k) + Or(u, v);
    }
  }

  /** Or of a low part below 2^k and a multiple of 2^k is their sum, in either order. */
  lemma OrDisjoint(low: nat, high: nat, k: nat)
    requires low < Pow2(k) && high % Pow2(k) == 0
    ensures Or(low, high) == low + high && Or(high, low) == low + high
  {
    OrSplit(low, high, k);
    OrSplit(high, low, k);
    ShrSmall(low, k);
    ShrRecompose(high, k);
    OrZero(low);
    OrZero(Shr(high, k));
  }

  /** Or-ing a `w`-bit value into bits lo .. lo+w-1 of `a`, all zero, adds it. */
  lemma OrInsert(a: nat, b: nat, f: nat, lo: nat, w: nat)
    requires f < Pow2(w) && Field(a, lo, w) == 0 && b == f * Pow2(lo)
    ensures Or(a, b) == a + b
  {
    var p, c, low := Pow2(lo), Shr(a, lo), Field(a, 0, lo);
    assert Or(a, b) == Or(c, Shr(b, lo)) * p + Or(low, Field(b, 0, lo)) by {
      OrSplit(a, b, lo);
    }
    assert Shr(b, lo) == f && Field(b, 0, lo) == 0 by {
      assert Shl(f, lo) == b;
      ShrShl(f, lo);
    }
    assert Or(low, 0) == low by {
      OrZero(low);
    }
    assert Or(c, f) == c + f by {
      OrDisjoint(f, c, w);
    }
    assert a == c * p + low by {
      ShrRecompose(a, lo);
    }
    Recombine(Or(a, b), a, b, c, f, p, low);
  }

  /** The arithmetic that finishes `OrInsert`. */
  lemma Recombine(o: int, a: int, b: int, c: int, f: int, p: int, low: int)
    requires o == (c + f) * p + low && a == c * p + low && b == f * p
    ensures o == a + b
  {
    MulLeft(p, c, f);
  }

  /** Or-ing 0 or 1 into `c` sets its lowest bit unless it was already set. */
  lemma OrLowBit(c: nat, f: nat)
    requires f <= 1
    ensures Or(c, f) == c + (if f == 1 && c % 2 == 0 then 1 else 0)
  {
    if f == 0 {
      OrZero(c);
    } else if c % 2 == 0 {
      OrDisjoint(1, c, 1);
    } else {
      OrStep(c, 1);
      OrZero(c / 2);
    }
  }

  /** Or-ing a single bit at `k` into `a` sets it unless it was already set. */
  lemma OrBit(a: nat, b: nat, k: nat)
    requires b == 0 || b == Pow2(k)
    ensures Or(a, b) == a + (if b != 0 && Field(a, k, 1) == 0 then b else 0)
  {
    if b == 0 {
      OrZero(a);
    } else if Field(a, k, 1) == 0 {
      OrInsert(a, b, 1, k, 1);
    } else {
      OrBitSet(a, k);
    }
  }

  /** Or-ing a bit that is already set changes nothing. */
  lemma OrBitSet(a: nat, k: nat)
    requires Field(a, k, 1) == 1
    ensures Or(a, Pow2(k)) == a
  {
    var p, c, low := Pow2(k), Shr(a, k), Field(a, 0, k);
    OrSplit(a, p, k);
    ShrShl(1, k);
    OrZero(low);
    ShrRecompose(a, k);
    assert Or(a, p) == Or(c, 1) * p + low;
    OrLowBit(c, 1);
  }

  /** A number below 2^lo has no bits at lo or above. */
  lemma FieldAbove(x: nat, lo: nat, w: nat)
    requires x < Pow2(lo)
    ensures Field(x, lo, w) == 0
  {
    ShrSmall(x, lo);
  }

  /** Or-ing a multiple of 2^lo onto a number below 2^lo adds them. */
  lemma OrAbove(a: nat, b: nat, f: nat, lo: nat)
    requires a < Pow2(lo) && b == f * Pow2(lo)
    ensures Or(a, b) == a + b
  {
    ShrShl(f, lo);
    assert (f * Pow2(lo)) % Pow2(lo) == Field(Shl(f, lo), 0, lo);
    OrDisjoint(a, f * Pow2(lo), lo);
  }

  /** Or of a number below 2^k and a multiple of 2^k is their sum, in either order. */
  lemma OrDisjointAt(low: nat, high: nat, m: nat, k: nat)
    requires low < Pow2(k) && high == m * Pow2(k)
    ensures Or(low, high) == low + high && Or(high, low) == low + high
  {
    ShrShl(m, k);
    assert high % Pow2(k) == Field(Shl(m, k), 0, k);
    OrDisjoint(low, high, k);
  }
}
