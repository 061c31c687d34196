/**
 Shifts: what SHL, SHR and SAR compute for every count, and that result and
 CF are those of a machine moving one bit at a time.
 */
module Shifts {
  import opened Words
  import opened Flags
  import opened Alu

  lemma ModulusIsPow2(w: Width)
    ensures Modulus(w) == Pow2(Bits(w))
  {
    Pow2Values();
  }

  lemma Pow2Grows(m: nat, n: nat)
    requires m <= n
    ensures Pow2(m) <= Pow2(n) && Pow2(n) == Pow2(m) * Pow2(n - m)
  {
    Pow2Add(m, n - m);
    Grows(Pow2(m), Pow2(n - m) - 1);
  }

  /** Division by two to the count, rounding down. */
  function Quot(v: int, count: nat): int {
    v / Pow2(count)
  }

  lemma LoOfMultiple(q: int, w: Width)
    ensures Lo(Modulus(w) * q, w) == 0
  {
    LoShift(0, q, w);
  }

  /** SHL multiplies by two to the count, at the width; counts past the width leave nothing. */
  lemma ShlMeaning(a: Word, count: nat, w: Width)
    requires count <= 31
    ensures ShiftResult(SHL, a, count, w) == Lo(a * Pow2(count), w)
  {
    hide Lo, Pow2;
    if count >= Bits(w) {
      ModulusIsPow2(w);
      Pow2Grows(Bits(w), count);
      var q := a * Pow2(count - Bits(w));
      assert a * Pow2(count) == Modulus(w) * q;
      LoOfMultiple(q, w);
    }
  }

  lemma ShrVanishes(a: Word, count: nat, w: Width)
    requires Fits(a, w) && count >= Bits(w)
    ensures Words.Shr(a, count) == 0
  {
    hide Pow2;
    ModulusIsPow2(w);
    Pow2Grows(Bits(w), count);
    ModUnique(a, Pow2(count), 0, a);
  }

  /** SHR divides by two to the count. */
  lemma ShrMeaning(a: Word, count: nat, w: Width)
    requires count <= 31 && Fits(a, w)
    ensures ShiftResult(SHR, a, count, w) == Words.Shr(a, count)
  {
    hide Lo, Words.Shr;
    if count >= Bits(w) {
      ShrVanishes(a, count, w);
    } else {
      LoOfFits(Words.Shr(a, count), w);
    }
  }

  /** The quotient of a value reduced by the modulus, by a power of two within it. */
  lemma ShiftedQuotient(a: Word, count: nat, w: Width)
    requires Fits(a, w) && count < Bits(w)
    ensures Quot(a - Modulus(w), count) == Words.Shr(a, count) - Pow2(Bits(w) - count)
  {
    hide Pow2;
    ModulusIsPow2(w);
    Pow2Grows(count, Bits(w));
    var p, q := Pow2(count), Pow2(Bits(w) - count);
    assert p * (a / p - q) == p * (a / p) - p * q;
    ModUnique(a - Modulus(w), p, a / p - q, a % p);
  }

  /** SAR divides the signed value by two to the count, rounding down, however large the count. */
  lemma SarMeaning(a: Word, count: nat, w: Width)
    requires count <= 31 && Fits(a, w)
    ensures ShiftResult(SAR, a, count, w) == Lo(Quot(Signed(a, w), count), w)
  {
    hide Lo, Pow2, Msb, Signed, Modulus, Quot;
    SignedFits(a, w);
    MsbFits(a, w);
    if count < Bits(w) {
      if Msb(a, w) {
        ShiftedQuotient(a, count, w);
        LoShift(Words.Shr(a, count) - Pow2(Bits(w) - count), 1, w);
      } else {
        ShrIs(a, count);
      }
    } else {
      SarSaturates(a, count, w);
    }
  }

  lemma SarSaturates(a: Word, count: nat, w: Width)
    requires Fits(a, w) && count >= Bits(w)
    ensures Quot(Signed(a, w), count) == if Msb(a, w) then -1 else 0
    ensures Lo(0, w) == 0
  {
    hide Pow2, Msb, Signed;
    SignedFits(a, w);
    MsbFits(a, w);
    ModulusIsPow2(w);
    Pow2Grows(Bits(w), count);
    var p := Pow2(count);
    if Msb(a, w) {
      ModUnique(Signed(a, w), p, -1, Signed(a, w) + p);
    } else {
      ModUnique(a, p, 0, a);
    }
  }

  // ---- one bit at a time ----

  /** The value and the last bit moved out of it. */
  datatype Shifting = Shifting(r: Word, out: bool)

  function ShiftStep(op: Op, s: Shifting, w: Width): Shifting
    requires IsShiftOp(op)
  {
    match op
    case SHL => Shifting(Lo(2 * s.r, w), Msb(s.r, w))
    case SHR => Shifting(s.r / 2, s.r % 2 == 1)
    case SAR => Shifting(Lo(s.r / 2 + (if Msb(s.r, w) then Half(w) else 0), w), s.r % 2 == 1)
  }

  function ShiftSteps(op: Op, a: Word, count: nat, w: Width): Shifting
    requires IsShiftOp(op)
  {
    if count == 0 then Shifting(a, false) else ShiftStep(op, ShiftSteps(op, a, count - 1, w), w)
  }

  lemma MsbIsBit(v: Word, w: Width)
    ensures Msb(v, w) == Bit(v, Bits(w) - 1)
  {
    hide Pow2;
    BitShift(v, Bits(w) - 1, 0);
    Pow2Values();
    Pow2Add(1, 7);
    Pow2Add(1, 15);
    Pow2Add(1, 31);
    assert Pow2(1) == 2 * Pow2(0) && Pow2(0) == 1 by { Pow2Small(); }
  }

  lemma Pow2Small()
    ensures Pow2(0) == 1 && Pow2(1) == 2
  {
  }

  lemma {:induction false} BitOfMultiple(q: nat, n: nat, r: nat, i: nat)
    requires i < n
    ensures Bit(Pow2(n) * q + r, i) == Bit(r, i)
  {
    assert Pow2(n) * q == 2 * (Pow2(n - 1) * q);
    if i > 0 {
      assert (2 * (Pow2(n - 1) * q) + r) / 2 == Pow2(n - 1) * q + r / 2;
      BitOfMultiple(q, n - 1, r / 2, i - 1);
    }
  }

  /** Reducing to a width keeps the bits below it. */
  lemma LoBit(v: nat, w: Width, i: nat)
    requires i < Bits(w)
    ensures Bit(Lo(v, w), i) == Bit(v, i)
  {
    hide Pow2, Bit;
    ModulusIsPow2(w);
    var q := v / Modulus(w);
    assert v == Modulus(w) * q + Lo(v, w);
    BitOfMultiple(q, Bits(w), Lo(v, w), i);
  }

  lemma {:induction false} BitOfProduct(a: nat, k: nat, i: nat)
    ensures Bit(a * Pow2(k), i) == (i >= k && Bit(a, i - k))
    decreases k
  {
    if k > 0 {
      var h := a * Pow2(k - 1);
      assert a * Pow2(k) == 2 * h;
      if i > 0 {
        BitOfProduct(a, k - 1, i - 1);
        assert Bit(2 * h, i) == Bit(h, i - 1);
      }
    }
  }

  lemma {:induction false} BitsAbove(a: Word, w: Width, i: nat)
    requires Fits(a, w) && i >= Bits(w)
    ensures !Bit(a, i)
  {
    hide Pow2, Words.Shr;
    BitShift(a, i, 0);
    ShrVanishes(a, i, w);
  }

  lemma LoDouble(v: int, w: Width)
    ensures Lo(2 * Lo(v, w), w) == Lo(2 * v, w)
  {
    hide Lo;
    match w {
      case W1 => assert 2 * Lo(v, W1) == 2 * v - 0x100 * (2 * (v / 0x100)) by { LoIs(v, w); } LoShift(2 * v, 0 - 2 * (v / 0x100), W1);
      case W2 => assert 2 * Lo(v, W2) == 2 * v - 0x1_0000 * (2 * (v / 0x1_0000)) by { LoIs(v, w); } LoShift(2 * v, 0 - 2 * (v / 0x1_0000), W2);
      case W4 => assert 2 * Lo(v, W4) == 2 * v - 0x1_0000_0000 * (2 * (v / 0x1_0000_0000)) by { LoIs(v, w); } LoShift(2 * v, 0 - 2 * (v / 0x1_0000_0000), W4);
    }
  }

  lemma LoIs(v: int, w: Width)
    ensures Lo(v, w) == v - Modulus(w) * (v / Modulus(w))
  {
  }

  lemma {:induction false} ShlSteps(a: Word, count: nat, w: Width)
    requires Fits(a, w) && count <= 31
    ensures var s := ShiftSteps(SHL, a, count, w);
      s.r == Lo(a * Pow2(count), w) && (count > 0 ==> s.out == ShiftOut(Kind.Shl, a, count, w))
  {
    hide Lo, Bit, Msb, Pow2;
    if count == 0 {
      Pow2Small();
      LoOfFits(a, w);
    } else {
      ShlSteps(a, count - 1, w);
      var v := a * Pow2(count - 1);
      Pow2Add(1, count - 1);
      Pow2Small();
      assert a * Pow2(count) == 2 * v;
      LoDouble(v, w);
      MsbIsBit(Lo(v, w), w);
      LoBit(v, w, Bits(w) - 1);
      BitOfProduct(a, count - 1, Bits(w) - 1);
    }
  }

  lemma {:induction false} ShrSteps(a: Word, count: Word, w: Width)
    requires Fits(a, w)
    ensures var s := ShiftSteps(SHR, a, count, w);
      s.r == Words.Shr(a, count) && (count > 0 ==> s.out == ShiftOut(Kind.Shr, a, count, w))
  {
    hide Lo, Bit, Msb, Pow2, Words.Shr;
    if count == 0 {
      ShrZero(a);
    } else {
      ShrSteps(a, count - 1, w);
      ShrOnce(a, count - 1);
      LowBit(Words.Shr(a, count - 1));
      BitShift(a, count - 1, 0);
      if count > Bits(w) { BitsAbove(a, w, count - 1); }
    }
  }

  lemma LowBit(v: nat)
    ensures Bit(v, 0) == (v % 2 == 1)
  {
  }

  lemma ShrZero(a: nat)
    ensures Words.Shr(a, 0) == a
  {
  }

  lemma ShrOnce(a: nat, k: nat)
    ensures Words.Shr(a, k + 1) == Words.Shr(a, k) / 2
  {
    var p := Pow2(k);
    var q := a / p;
    assert a == (2 * p) * (q / 2) + (p * (q % 2) + a % p) by { assert q == 2 * (q / 2) + q % 2; }
    if q % 2 == 1 { assert p * (q % 2) == p; } else { assert p * (q % 2) == 0; }
    ModUnique(a, 2 * p, q / 2, p * (q % 2) + a % p);
  }

  /** One SAR step halves the signed reading, rounding down. */
  lemma SarStep(r: Word, w: Width)
    requires Fits(r, w)
    ensures var s := ShiftStep(SAR, Shifting(r, false), w).r;
      Fits(s, w) && Signed(s, w) == Signed(r, w) / 2 && (Signed(r, w) % 2 == 1 <==> r % 2 == 1)
  {
    hide Lo, Msb, Signed;
    SignedFits(r, w);
    MsbFits(r, w);
    var t := r / 2 + (if Msb(r, w) then Half(w) else 0);
    LoOfFits(t, w);
    SignedFits(t, w);
  }

  lemma FloorOnce(v: int, k: nat)
    ensures Quot(v, k + 1) == Quot(v, k) / 2
  {
    var p := Pow2(k);
    var q := v / p;
    assert v == (2 * p) * (q / 2) + (p * (q % 2) + v % p) by { assert q == 2 * (q / 2) + q % 2; }
    if q % 2 == 1 { assert p * (q % 2) == p; } else { assert p * (q % 2) == 0; }
    ModUnique(v, 2 * p, q / 2, p * (q % 2) + v % p);
  }

  lemma QuotByOne(v: int)
    ensures Quot(v, 0) == v
  {
  }

  lemma {:induction false} SarSteps(a: Word, count: nat, w: Width)
    requires Fits(a, w)
    ensures var s := ShiftSteps(SAR, a, count, w);
      && Fits(s.r, w) && Signed(s.r, w) == Quot(Signed(a, w), count)
      && (count > 0 ==> s.out == (Quot(Signed(a, w), count - 1) % 2 == 1))
  {
    hide Lo, Bit, Msb, Pow2, Signed, Quot;
    if count == 0 {
      QuotByOne(Signed(a, w));
    } else {
      SarSteps(a, count - 1, w);
      FloorOnce(Signed(a, w), count - 1);
      SarStep(ShiftSteps(SAR, a, count - 1, w).r, w);
    }
  }

  /** The bit below a floor quotient of the signed reading is the operand's bit, or its sign past the width. */
  lemma SarOut(a: Word, count: Word, w: Width)
    requires Fits(a, w) && count > 0
    ensures (Quot(Signed(a, w), count - 1) % 2 == 1) == ShiftOut(Sar, a, count, w)
  {
    hide Lo, Bit, Msb, Pow2, Signed, Words.Shr, Quot;
    SignedFits(a, w);
    MsbFits(a, w);
    if count > Bits(w) {
      SarSaturates(a, count - 1, w);
    } else {
      BitShift(a, count - 1, 0);
      LowBit(Words.Shr(a, count - 1));
      ShrIs(a, count - 1);
      if Msb(a, w) {
        ShiftedQuotient(a, count - 1, w);
        Pow2Add(1, Bits(w) - count);
        Pow2Small();
      }
    }
  }

  lemma ShrIs(a: nat, k: nat)
    ensures Words.Shr(a, k) == Quot(a, k)
  {
  }

  lemma SignedLo(v: Word, w: Width)
    requires Fits(v, w)
    ensures Lo(Signed(v, w), w) == v
  {
    hide Lo, Signed;
    SignedFits(v, w);
    LoOfFits(v, w);
    LoShift(v, -1, w);
  }

  /** For every count the architecture can ask for, result and CF are those of that many single-bit steps. */
  lemma ShiftIsSteps(op: Op, a: Word, b: Word, w: Width, f: Tuple)
    requires IsShiftOp(op) && Fits(a, w)
    ensures var out := Shift(op, a, b, w, f);
            var s := ShiftSteps(op, a, Count(b), w);
      out.r == s.r && (Count(b) > 0 ==> Cf(out.f) == s.out)
  {
    var count := Count(b);
    if count > 0 {
      if op == SHL {
        ShlMeaning(a, count, w);
        ShlSteps(a, count, w);
      } else if op == SHR {
        ShrMeaning(a, count, w);
        ShrSteps(a, count, w);
      } else {
        SarMeaning(a, count, w);
        SarSteps(a, count, w);
        SarOut(a, count, w);
        SignedLo(ShiftSteps(SAR, a, count, w).r, w);
      }
    }
    hide ShiftResult, Lo, ShiftOut, Pow2, ShiftSteps, Signed, Words.Shr, Quot;
  }
}
