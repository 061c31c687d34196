/** What every operation of the unit leaves in its result and in each of the six flags, in arithmetic. */
module FlagMeaning {
  import opened Words
  import opened Flags
  import opened Alu
  import opened Shifts
  import opened Rotates
  import opened BitMoves

  /** The flags of an exact sum `full` whose low digits sum to `low`, and whose signed reading is `signed`. */
  predicate SumFlags(s: Six, r: Word, full: int, low: int, signed: int, w: Width) {
    && (s.cf <==> full >= Modulus(w)) && (s.of <==> Signed(r, w) != signed) && (s.af <==> low > 15)
    && (s.zf <==> r == 0) && (s.sf <==> Signed(r, w) < 0) && s.pf == EvenParity(r)
  }

  predicate DifferenceFlags(s: Six, r: Word, full: int, low: int, signed: int, w: Width) {
    && (s.cf <==> full < 0) && (s.of <==> Signed(r, w) != signed) && (s.af <==> low < 0)
    && (s.zf <==> r == 0) && (s.sf <==> Signed(r, w) < 0) && s.pf == EvenParity(r)
  }

  /** A result that carries nothing out: AND, OR, XOR and TEST. */
  predicate LogicFlags(s: Six, r: Word, w: Width) {
    !s.cf && !s.of && !s.af && (s.zf <==> r == 0) && (s.sf <==> Signed(r, w) < 0) && s.pf == EvenParity(r)
  }

  /** The word has the flags at their places, bits 1 and 9 set, and nothing else. */
  lemma WordByBits(s: Six)
    ensures var v := WordOf(s);
      && v < 0x1000 && (v % 2 == 1 <==> s.cf) && v / 2 % 2 == 1 && (v / 4 % 2 == 1 <==> s.pf) && v / 8 % 2 == 0
      && (v / 0x10 % 2 == 1 <==> s.af) && v / 0x20 % 2 == 0 && (v / 0x40 % 2 == 1 <==> s.zf) && (v / 0x80 % 2 == 1 <==> s.sf)
      && v / 0x100 % 2 == 0 && v / 0x200 % 2 == 1 && v / 0x400 % 2 == 0 && (v / 0x800 % 2 == 1 <==> s.of)
  {
    WordRoundTrip(s);
    hide WordOf;
    LowFixedBits(s);
    HighFixedBits(s);
  }

  /** Each flag read by itself is the one in the word, and where nothing was recorded all six are clear. */
  lemma ReadersAgree(f: Tuple)
    ensures Cf(f) == Derive(f).cf && Of(f) == Derive(f).of && Af(f) == Derive(f).af
    ensures f.kind == None ==> Eflags(f) == 0x202
  {
    hide ShiftOut, AddOverflow, SubOverflow, HalfCarry, EvenParity, SixOf, IsZero, Msb, Below, IsMostNegative;
    SixReads(f.a);
  }

  lemma SixReads(v: Word)
    ensures HasCf(v) == SixOf(v).cf
  {
  }

  lemma LowFixedBits(s: Six)
    ensures WordOf(s) / 2 % 2 == 1 && WordOf(s) / 8 % 2 == 0 && WordOf(s) / 0x20 % 2 == 0
  {
    var low := 2 + Num(s.cf) + 4 * Num(s.pf) + 0x10 * Num(s.af);
    assert WordOf(s) == 0x200 + 0x40 * (Num(s.zf) + 2 * Num(s.sf) + 0x20 * Num(s.of)) + low;
  }

  lemma HighFixedBits(s: Six)
    ensures WordOf(s) < 0x1000 && WordOf(s) / 0x100 % 2 == 0 && WordOf(s) / 0x200 % 2 == 1 && WordOf(s) / 0x400 % 2 == 0
  {
    var low := 2 + Num(s.cf) + 4 * Num(s.pf) + 0x10 * Num(s.af) + 0x40 * Num(s.zf) + 0x80 * Num(s.sf);
    assert low < 0x100 && WordOf(s) == 0x800 * Num(s.of) + 0x200 + low;
  }

  /** Zero and sign of a value of the width. */
  lemma ZeroAndSign(r: Word, w: Width)
    requires Fits(r, w)
    ensures (IsZero(r, w) <==> r == 0) && (Msb(r, w) <==> Signed(r, w) < 0)
  {
    hide Lo, Msb, Signed, Modulus, Half;
    LoOfFits(r, w);
    Signs(r, r, r, w);
  }

  // ---- adding and subtracting ----

  /** The bit carried out of the low digit: with the digits' own bits it makes the fifth bit of the result. */
  lemma HalfCarrySum(a: Word, b: Word, cin: Word, full: int, w: Width)
    requires Fits(a, w) && Fits(b, w) && cin <= 1 && full == a + b + cin
    ensures HalfCarry(a, b, Lo(full, w)) <==> a % 16 + b % 16 + cin > 15
  {
    hide Lo;
    FifthBit(full, w);
    var low := a % 16 + b % 16 + cin;
    var c := if low > 15 then 1 else 0;
    ModUnique(full, 16, a / 16 + b / 16 + c, low - 16 * c);
    SameParitySum(a / 16, b / 16, Lo(full, w) / 16, c);
  }

  lemma SameParitySum(x: nat, y: nat, z: nat, c: nat)
    requires c <= 1 && z % 2 == (x + y + c) % 2
    ensures (x + y + z) % 2 == 1 <==> c == 1
  {
  }

  lemma HalfCarryDifference(a: Word, b: Word, cin: Word, full: int, w: Width)
    requires Fits(a, w) && Fits(b, w) && cin <= 1 && full == a - b - cin
    ensures HalfCarry(a, b, Lo(full, w)) <==> a % 16 - b % 16 - cin < 0
  {
    hide Lo;
    FifthBit(full, w);
    var low := a % 16 - b % 16 - cin;
    var c := if low < 0 then 1 else 0;
    ModUnique(full, 16, a / 16 - b / 16 - c, low + 16 * c);
    SameParity(a / 16, b / 16, Lo(full, w) / 16, c);
  }

  lemma SameParity(x: nat, y: nat, z: nat, c: nat)
    requires c <= 1 && z % 2 == (x - y - c) % 2
    ensures (x + y + z) % 2 == 1 <==> c == 1
  {
  }

  /** Reducing to a width keeps the parity of what lies above the low digit. */
  lemma FifthBit(full: int, w: Width)
    ensures Lo(full, w) / 16 % 2 == full / 16 % 2
  {
    match w {
      case W1 => Above(8 * (full / 0x100), Lo(full, W1));
      case W2 => Above(0x800 * (full / 0x1_0000), Lo(full, W2));
      case W4 => Above(0x800_0000 * (full / 0x1_0000_0000), Lo(full, W4));
    }
  }

  lemma Above(x: int, r: nat)
    ensures (32 * x + r) / 16 % 2 == r / 16 % 2 && (32 * x + r) % 32 == r % 32
  {
    ModUnique(32 * x + r, 16, 2 * x + r / 16, r % 16);
    ModUnique(2 * x + r / 16, 2, x + r / 16 / 2, r / 16 % 2);
    ModUnique(32 * x + r, 32, x + r / 32, r % 32);
  }

  lemma SumMeans(a: Word, b: Word, cin: bool, w: Width)
    requires Fits(a, w) && Fits(b, w)
    ensures var full := a + b + Num(cin);
      var r := Lo(full, w);
      SumFlags(AdcFlags(a, b, cin, r, w), r, full, a % 16 + b % 16 + Num(cin), Signed(a, w) + Signed(b, w) + Num(cin), w)
  {
    hide Lo, Msb, Signed, Modulus, Half, EvenParity, HalfCarry, AddOverflow, IsZero;
    var full := a + b + Num(cin);
    LoFits(full, w);
    LoOfFits(a, w);
    LoOfFits(b, w);
    LoOfFits(Lo(full, w), w);
    AdcMeaning(a, b, cin, w);
    HalfCarrySum(a, b, Num(cin), full, w);
    ZeroAndSign(Lo(full, w), w);
  }

  lemma DifferenceMeans(a: Word, b: Word, cin: bool, w: Width)
    requires Fits(a, w) && Fits(b, w)
    ensures var full := a - b - Num(cin);
      var r := Lo(full, w);
      DifferenceFlags(SbbFlags(a, b, cin, r, w), r, full, a % 16 - b % 16 - Num(cin), Signed(a, w) - Signed(b, w) - Num(cin), w)
  {
    hide Lo, Msb, Signed, Modulus, Half, EvenParity, HalfCarry, SubOverflow, IsZero;
    var full := a - b - Num(cin);
    LoFits(full, w);
    LoOfFits(a, w);
    LoOfFits(b, w);
    LoOfFits(Lo(full, w), w);
    SbbMeaning(a, b, cin, w);
    HalfCarryDifference(a, b, Num(cin), full, w);
    ZeroAndSign(Lo(full, w), w);
  }

  /** ADD and ADC: the exact sum reduced to the width, and its flags. */
  lemma AddsExactly(op: Op, a: Word, b: Word, w: Width, f: Tuple)
    requires (op == ADD || op == ADC) && Fits(a, w) && Fits(b, w)
    ensures var out := Binary(op, a, b, w, f);
      var cin := Num(op == ADC && Cf(f));
      var full := a + b + cin;
      out.r == Lo(full, w) && SumFlags(Derive(out.f), out.r, full, a % 16 + b % 16 + cin, Signed(a, w) + Signed(b, w) + cin, w)
  {
    hide Lo, Cf, SumFlags, AdcFlags, SbbFlags, WordOf, SixOf, Modulus, HasCf, Signed, Derive, Binary;
    SumMeans(a, b, op == ADC && Cf(f), w);
    if op == ADD { AddIs(a, b, w, f); } else { AdcIs(a, b, w, f); }
  }

  lemma AddIs(a: Word, b: Word, w: Width, f: Tuple)
    requires Fits(a, w) && Fits(b, w)
    ensures var out := Binary(ADD, a, b, w, f);
      out.r == Lo(a + b, w) && Derive(out.f) == AdcFlags(a, b, false, Lo(a + b, w), w)
  {
    hide Lo, Cf, AdcFlags, SbbFlags, WordOf, SixOf, Modulus, HasCf, Derive, Shift, Rotate, RotateThrough;
    LoOfFits(a, w);
    LoOfFits(b, w);
    LazyIsEager(f, a, b, w);
  }

  lemma AdcIs(a: Word, b: Word, w: Width, f: Tuple)
    requires Fits(a, w) && Fits(b, w)
    ensures var out := Binary(ADC, a, b, w, f);
      var r := Lo(a + b + Num(Cf(f)), w);
      out.r == r && Derive(out.f) == AdcFlags(a, b, Cf(f), r, w)
  {
    hide Lo, Cf, AdcFlags, SbbFlags, WordOf, SixOf, Modulus, HasCf, Shift, Rotate, RotateThrough, Plain;
    LoOfFits(a, w);
    LoOfFits(b, w);
    WordRoundTrip(AdcFlags(a, b, Cf(f), Lo(a + b + Num(Cf(f)), w), w));
  }

  /** SUB, CMP and SBB: the exact difference reduced to the width, and its flags. */
  lemma SubtractsExactly(op: Op, a: Word, b: Word, w: Width, f: Tuple)
    requires (op == SUB || op == CMP || op == SBB) && Fits(a, w) && Fits(b, w)
    ensures var out := Binary(op, a, b, w, f);
      var cin := Num(op == SBB && Cf(f));
      var full := a - b - cin;
      out.r == Lo(full, w) && DifferenceFlags(Derive(out.f), out.r, full, a % 16 - b % 16 - cin, Signed(a, w) - Signed(b, w) - cin, w)
  {
    hide Lo, Cf, DifferenceFlags, AdcFlags, SbbFlags, WordOf, SixOf, Modulus, HasCf, Signed, Derive, Binary;
    DifferenceMeans(a, b, op == SBB && Cf(f), w);
    if op == SBB { SbbIs(a, b, w, f); } else { SubIs(op, a, b, w, f); }
  }

  lemma SubIs(op: Op, a: Word, b: Word, w: Width, f: Tuple)
    requires (op == SUB || op == CMP) && Fits(a, w) && Fits(b, w)
    ensures var out := Binary(op, a, b, w, f);
      out.r == Lo(a - b, w) && Derive(out.f) == SbbFlags(a, b, false, Lo(a - b, w), w)
  {
    hide Lo, Cf, AdcFlags, SbbFlags, WordOf, SixOf, Modulus, HasCf, Derive, Shift, Rotate, RotateThrough;
    LoOfFits(a, w);
    LoOfFits(b, w);
    LazyIsEager(f, a, b, w);
  }

  lemma SbbIs(a: Word, b: Word, w: Width, f: Tuple)
    requires Fits(a, w) && Fits(b, w)
    ensures var out := Binary(SBB, a, b, w, f);
      var r := Lo(a - b - Num(Cf(f)), w);
      out.r == r && Derive(out.f) == SbbFlags(a, b, Cf(f), r, w)
  {
    hide Lo, Cf, AdcFlags, SbbFlags, WordOf, SixOf, Modulus, HasCf, Shift, Rotate, RotateThrough, Plain;
    LoOfFits(a, w);
    LoOfFits(b, w);
    WordRoundTrip(SbbFlags(a, b, Cf(f), Lo(a - b - Num(Cf(f)), w), w));
  }

  /** AND, TEST, OR and XOR: each bit of the result from the operands' bits, and the flags of a value. */
  lemma CombinesBits(op: Op, a: Word, b: Word, w: Width, f: Tuple)
    requires op in {AND, TEST, OR, XOR} && Fits(a, w) && Fits(b, w)
    ensures var out := Binary(op, a, b, w, f);
      && Fits(out.r, w) && LogicFlags(Derive(out.f), out.r, w)
      && (forall i: nat | i < Bits(w) :: Bit(out.r, i) <==>
            if op == OR then Bit(a, i) || Bit(b, i) else if op == XOR then Bit(a, i) != Bit(b, i) else Bit(a, i) && Bit(b, i))
  {
    hide Bit, Binary, PlainResult, LogicFlags;
    LogicIs(op, a, b, w, f);
    forall i: nat | i < Bits(w)
      ensures Bit(PlainResult(op, a, b, w), i) <==>
        if op == OR then Bit(a, i) || Bit(b, i) else if op == XOR then Bit(a, i) != Bit(b, i) else Bit(a, i) && Bit(b, i)
    {
      LogicByBits(op, a, b, w, i);
    }
  }

  lemma LogicIs(op: Op, a: Word, b: Word, w: Width, f: Tuple)
    requires op in {AND, TEST, OR, XOR} && Fits(a, w) && Fits(b, w)
    ensures var out := Binary(op, a, b, w, f);
      out.r == PlainResult(op, a, b, w) && Fits(out.r, w) && LogicFlags(Derive(out.f), out.r, w)
  {
    hide Lo, And, Or, Xor, EvenParity, Msb, IsZero, Modulus, Signed, Shift, Rotate, RotateThrough, Below, ShiftOut, HasCf, Fits;
    LoOfFits(a, w);
    LoOfFits(b, w);
    LogicFits(op, a, b, w);
    ZeroAndSign(PlainResult(op, a, b, w), w);
  }

  lemma LogicFits(op: Op, a: Word, b: Word, w: Width)
    requires op in {AND, TEST, OR, XOR}
    ensures Fits(PlainResult(op, a, b, w), w)
  {
    hide Lo, Bitwise, Pow2;
    LoFits(And(a, b), w);
    LoFits(Or(a, b), w);
    LoFits(Xor(a, b), w);
  }

  // ---- one operand ----

  /** NEG is subtraction from zero; INC and DEC add and subtract one and leave CF. */
  lemma CountsExactly(op: UnaryOp, a: Word, w: Width, f: Tuple)
    requires op != NOT && Fits(a, w)
    ensures var out := Unary(op, a, w, f);
      match op
      case NEG => out.r == Lo(0 - a, w) && DifferenceFlags(Derive(out.f), out.r, 0 - a, 0 - a % 16, 0 - Signed(a, w), w)
      case INC => out.r == Lo(a + 1, w) && Cf(out.f) == Cf(f)
                  && SumFlags(Derive(out.f).(cf := a + 1 >= Modulus(w)), out.r, a + 1, a % 16 + 1, Signed(a, w) + 1, w)
      case DEC => out.r == Lo(a - 1, w) && Cf(out.f) == Cf(f)
                  && DifferenceFlags(Derive(out.f).(cf := a < 1), out.r, a - 1, a % 16 - 1, Signed(a, w) - 1, w)
  {
    LoOfFits(a, w);
    match op {
      case NEG => NegMeans(a, w, f);
      case INC => IncMeans(a, w, f);
      case DEC => DecMeans(a, w, f);
    }
  }

  lemma NothingFits(w: Width)
    ensures Fits(0, w) && Fits(1, w) && Signed(0, w) == 0 && Signed(1, w) == 1
  {
  }

  lemma NegMeans(a: Word, w: Width, f: Tuple)
    requires Fits(a, w)
    ensures var r := Diff(0, a, w);
      DifferenceFlags(Derive(Record(f, Sub, 0, a, r, w)), r, 0 - a, 0 - a % 16, 0 - Signed(a, w), w)
  {
    hide Lo, Cf, DifferenceFlags, SbbFlags, Signed, Fits;
    NothingFits(w);
    DifferenceMeans(0, a, false, w);
    LazyIsEager(f, 0, a, w);
  }

  lemma IncMeans(a: Word, w: Width, f: Tuple)
    requires Fits(a, w)
    ensures var r := Sum(a, 1, w);
      var g := Record(f, Inc, a, 1, r, w);
      Cf(g) == Cf(f) && SumFlags(Derive(g).(cf := a + 1 >= Modulus(w)), r, a + 1, a % 16 + 1, Signed(a, w) + 1, w)
  {
    hide Lo, Msb, Signed, Modulus, Half, EvenParity, HalfCarry, IsMostNegative, IsZero, Fits;
    NothingFits(w);
    LoFits(a + 1, w);
    HalfCarrySum(a, 1, 0, a + 1, w);
    ZeroAndSign(Lo(a + 1, w), w);
    IncDecMeaning(a, w);
  }

  lemma DecMeans(a: Word, w: Width, f: Tuple)
    requires Fits(a, w)
    ensures var r := Diff(a, 1, w);
      var g := Record(f, Dec, a, 1, r, w);
      Cf(g) == Cf(f) && DifferenceFlags(Derive(g).(cf := a < 1), r, a - 1, a % 16 - 1, Signed(a, w) - 1, w)
  {
    hide Lo, Msb, Signed, Modulus, Half, EvenParity, HalfCarry, IsMostNegative, IsZero, Fits;
    NothingFits(w);
    LoFits(a - 1, w);
    HalfCarryDifference(a, 1, 0, a - 1, w);
    ZeroAndSign(Lo(a - 1, w), w);
    IncDecMeaning(a, w);
  }

  // ---- shifts and rotates ----

  /**
   SHL, SHR and SAR by a count that is not zero: CF the last bit moved out, AF
   set, OF for a count of one the sign having changed -- past it the sign
   against CF for SHL, clear for the others -- and the flags of the value.
   */
  lemma ShiftFlags(op: Op, a: Word, b: Word, w: Width, f: Tuple)
    requires IsShiftOp(op) && Fits(a, w)
    ensures var out := Shift(op, a, b, w, f);
      var s := Derive(out.f);
      if Count(b) == 0 then out == Out(a, f)
      else
        && Fits(out.r, w) && s.cf == ShiftSteps(op, a, Count(b), w).out && s.af
        && (s.zf <==> out.r == 0) && (s.sf <==> Signed(out.r, w) < 0) && s.pf == EvenParity(out.r)
        && (Count(b) == 1 ==> (s.of <==> Msb(out.r, w) != Msb(a, w)))
        && (Count(b) != 1 ==> (s.of <==> op == SHL && Msb(out.r, w) != s.cf))
  {
    hide Lo, Msb, Signed, Modulus, Half, EvenParity, IsZero, ShiftResult, ShiftSteps, ShiftOut, Pow2;
    if Count(b) != 0 {
      var count := Count(b);
      var r := ShiftResult(op, a, count, w);
      ShiftIsSteps(op, a, b, w, f);
      ShiftFits(op, a, count, w);
      ZeroAndSign(r, w);
      if count == 1 { OneStep(op, a, w); }
    }
  }

  /** One step moves the top bit out to the left, and to the right takes in a zero or keeps the sign. */
  lemma OneStep(op: Op, a: Word, w: Width)
    requires IsShiftOp(op) && Fits(a, w)
    ensures op == SHL ==> (ShiftOut(Kind.Shl, a, 1, w) <==> Msb(a, w))
    ensures op == SHR ==> !Msb(ShiftResult(op, a, 1, w), w)
    ensures op == SAR ==> Msb(ShiftResult(op, a, 1, w), w) == Msb(a, w)
  {
    match op {
      case SHL => TopBit(a, w);
      case SHR => ShrOne(a, w);
      case SAR => SarOne(a, w);
    }
  }

  lemma TopBit(a: Word, w: Width)
    ensures ShiftOut(Kind.Shl, a, 1, w) <==> Msb(a, w)
  {
    hide Bit, Msb;
    MsbIsBit(a, w);
  }

  lemma ShrOne(a: Word, w: Width)
    requires Fits(a, w)
    ensures !Msb(ShiftResult(SHR, a, 1, w), w)
  {
    hide Lo, Msb, ShiftResult;
    ShrMeaning(a, 1, w);
    ShrOnce(a, 0);
    ShrZero(a);
    MsbFits(a / 2, w);
    ModulusIsTwoHalves(w);
  }

  lemma SarOne(a: Word, w: Width)
    requires Fits(a, w)
    ensures Msb(ShiftResult(SAR, a, 1, w), w) == Msb(a, w)
  {
    hide Lo, Msb, ShiftResult, Signed, Quot, Modulus, Half;
    SarMeaning(a, 1, w);
    FloorOnce(Signed(a, w), 0);
    QuotByOne(Signed(a, w));
    ModulusIsTwoHalves(w);
    SignedFits(a, w);
    MsbFits(a, w);
    var q := Signed(a, w) / 2;
    LoNear(q, w);
    LoFits(q, w);
    MsbFits(Lo(q, w), w);
  }

  lemma CountMasked(b: Word, w: Width)
    ensures Count(Lo(b, w)) == Count(b)
  {
    match w {
      case W1 => Above(8 * (b / 0x100), Lo(b, W1));
      case W2 => Above(0x800 * (b / 0x1_0000), Lo(b, W2));
      case W4 => Above(0x800_0000 * (b / 0x1_0000_0000), Lo(b, W4));
    }
  }

  /** The sign of a rotated value, and what OF says of it: for a count of one, that the sign changed. */
  lemma RotateOverflow(op: Op, a: Word, b: Word, w: Width, f: Tuple)
    requires op in {ROL, ROR, RCL, RCR} && Fits(a, w) && Count(b) != 0
    ensures var out := Binary(op, a, b, w, f);
      var s := Derive(out.f);
      && (s.of <==> Msb(out.r, w) != (if op == ROL || op == RCL then s.cf else Bit(out.r, Bits(w) - 2)))
      && (Count(b) == 1 ==> (s.of <==> Msb(out.r, w) != Msb(a, w)))
      && s == Derive(f).(cf := s.cf, of := s.of)
  {
    hide Lo, Msb, Bit, Derive, RotateSteps, Count, Modulus, Rotate, RotateThrough, Binary;
    RotateMasked(op, a, b, w, f);
    CountMasked(b, w);
    if op == ROL || op == ROR {
      RotateOf(op, a, Lo(b, w), w, f);
      if Count(b) == 1 { RotatedOnce(op, a, Lo(b, w), w, f); }
    } else {
      ThroughFlags(op, a, Lo(b, w), w, f);
      if Count(b) == 1 { ThroughOnce(op, a, Cf(f), w); }
    }
  }

  lemma RotateMasked(op: Op, a: Word, b: Word, w: Width, f: Tuple)
    requires op in {ROL, ROR, RCL, RCR} && Fits(a, w)
    ensures Binary(op, a, b, w, f)
         == if op == ROL || op == ROR then Rotate(op, a, Lo(b, w), w, f) else RotateThrough(op, a, Lo(b, w), w, f)
  {
    hide Lo, Rotate, RotateThrough;
    LoOfFits(a, w);
  }

  lemma RotateOf(op: Op, a: Word, b: Word, w: Width, f: Tuple)
    requires (op == ROL || op == ROR) && Fits(a, w) && Count(b) != 0
    ensures var out := Rotate(op, a, b, w, f);
      var s := Derive(out.f);
      && (s.of <==> Msb(out.r, w) != (if op == ROL then s.cf else Bit(out.r, Bits(w) - 2)))
      && s.cf == (if op == ROL then Bit(out.r, 0) else Msb(out.r, w)) && s == Derive(f).(cf := s.cf, of := s.of)
  {
    hide Lo, Msb, Derive, Words.Shr, Words.Shl, Count, SetCfOf, Bit;
    var r := Rotate(op, a, b, w, f).r;
    LowBit(r);
    var cf := if op == ROL then r % 2 == 1 else Msb(r, w);
    BitMoves.SetBoth(f, cf, Msb(r, w) != (if op == ROL then cf else Bit(r, Bits(w) - 2)));
  }

  lemma RotatedOnce(op: Op, a: Word, b: Word, w: Width, f: Tuple)
    requires (op == ROL || op == ROR) && Fits(a, w) && Count(b) == 1
    ensures var r := Rotate(op, a, b, w, f).r; (if op == ROL then Bit(r, 0) else Bit(r, Bits(w) - 2)) == Msb(a, w)
  {
    hide Lo, Msb, Bit, Rotate, Count;
    MsbIsBit(a, w);
    if op == ROL { RolIsRotation(a, b, w, f, Bits(w) - 1); } else { RorIsRotation(a, b, w, f, Bits(w) - 2); }
  }

  lemma ThroughFlags(op: Op, a: Word, b: Word, w: Width, f: Tuple)
    requires (op == RCL || op == RCR) && Count(b) != 0
    ensures var out := RotateThrough(op, a, b, w, f);
      var s := Derive(out.f);
      var t := RotateSteps(op, Through(a, Cf(f)), ThroughCount(b, w), w);
      && out.r == t.r && s.cf == t.cf && s.of == ThroughOf(op, t, w) && s == Derive(f).(cf := s.cf, of := s.of)
      && (Count(b) == 1 ==> t == RotateStep(op, Through(a, Cf(f)), w))
  {
    hide Lo, Msb, Derive, Bit, SetCfOf, ThroughOf, RotateStep, Cf;
    var t := RotateSteps(op, Through(a, Cf(f)), ThroughCount(b, w), w);
    BitMoves.SetBoth(f, t.cf, ThroughOf(op, t, w));
    if Count(b) == 1 {
      assert ThroughCount(b, w) == 1;
      assert RotateSteps(op, Through(a, Cf(f)), 0, w) == Through(a, Cf(f));
    }
  }

  lemma ThroughOnce(op: Op, a: Word, cf: bool, w: Width)
    requires (op == RCL || op == RCR) && Fits(a, w)
    ensures var t := RotateStep(op, Through(a, cf), w);
      (if op == RCL then t.cf else Bit(t.r, Bits(w) - 2)) == Msb(a, w)
  {
    if op == RCR { ThroughRight(Through(a, cf), w); }
  }

  lemma ThroughRight(t: Through, w: Width)
    requires Fits(t.r, w)
    ensures Bit(RotateStep(RCR, t, w).r, Bits(w) - 2) == Msb(t.r, w)
  {
    hide Lo, Msb, Bit, RotateStep, Wide;
    MsbIsBit(t.r, w);
    assert RotateSteps(RCR, t, 1, w) == RotateStep(RCR, t, w) by { assert RotateSteps(RCR, t, 0, w) == t; }
    RightIsRotation(t, 1, w, Bits(w) - 2);
    WideBit(t, w, Bits(w) - 1);
    WideBit(RotateStep(RCR, t, w), w, Bits(w) - 2);
  }

  lemma WideBit(t: Through, w: Width, i: nat)
    requires i < Bits(w)
    ensures Bit(Wide(t, w), i) == Bit(t.r, i)
  {
    hide Bit, Pow2;
    ModulusIsPow2(w);
    BitOfMultiple(if t.cf then 1 else 0, Bits(w), t.r, i);
  }

  /** A shift or rotate by a count of zero does nothing at all. */
  lemma ZeroCountKeeps(op: Op, a: Word, b: Word, w: Width, f: Tuple)
    requires op in {SHL, SHR, SAR, ROL, ROR, RCL, RCR} && Fits(a, w) && b % 32 == 0
    ensures Binary(op, a, b, w, f) == Out(a, f)
  {
    hide Lo;
    LoOfFits(a, w);
    CountMasked(b, w);
  }
}
