/**
 The integer unit: every operation returns its result together with the flag
 state it leaves. Bits that a rotate or an arithmetic shift ORs together never
 overlap, so they are added.
 */
module Alu {
  import opened Words
  import opened Flags

  datatype Op = ADD | OR | ADC | SBB | AND | SUB | XOR | CMP | TEST
              | SHL | SHR | SAR | ROL | ROR | RCL | RCR

  datatype UnaryOp = NOT | NEG | INC | DEC

  /** A result and the flag state after the operation. */
  datatype Out = Out(r: Word, f: Tuple)

  /** Only CF and OF change: the word is materialised, the two bits replaced and stored explicitly. */
  function SetCfOf(f: Tuple, cf: bool, of: bool): Tuple {
    RecordExplicit(WordOf(Derive(f).(cf := cf, of := of)))
  }

  /** The architectural five-bit count. */
  function Count(b: Word): (c: Word)
    ensures c <= 31
  {
    b % 32
  }

  // ---- plain operations: every flag rewritten from the operands, none read ----

  predicate IsPlain(op: Op) {
    op == ADD || op == SUB || op == CMP || op == OR || op == AND || op == TEST || op == XOR
  }

  function PlainKind(op: Op): Kind
    requires IsPlain(op)
  {
    match op
    case ADD => Add
    case SUB => Sub
    case CMP => Sub
    case _ => Logic
  }

  function PlainResult(op: Op, a: Word, b: Word, w: Width): Word
    requires IsPlain(op)
  {
    match op
    case ADD => Sum(a, b, w)
    case SUB => Diff(a, b, w)
    case CMP => Diff(a, b, w)
    case OR => Lo(Or(a, b), w)
    case AND => Lo(And(a, b), w)
    case TEST => Lo(And(a, b), w)
    case XOR => Lo(Xor(a, b), w)
  }

  function Plain(op: Op, a: Word, b: Word, w: Width, f: Tuple): Out
    requires IsPlain(op)
  {
    var r := PlainResult(op, a, b, w);
    Out(r, Record(f, PlainKind(op), a, b, r, w))
  }

  // ---- shifts ----

  predicate IsShiftOp(op: Op) {
    op == SHL || op == SHR || op == SAR
  }

  function ShiftKind(op: Op): Kind
    requires IsShiftOp(op)
  {
    match op case SHL => Kind.Shl case SHR => Kind.Shr case SAR => Sar
  }

  /** The shifted value for a count of 1 to 31, counts past the width included. */
  function ShiftResult(op: Op, a: Word, count: Word, w: Width): Word
    requires IsShiftOp(op)
  {
    var n := Bits(w);
    match op
    case SHL => if count >= n then 0 else Lo(Words.Shl(a, count), w)
    case SHR => if count >= n then 0 else Lo(Words.Shr(a, count), w)
    case SAR =>
      if count >= n then (if Msb(a, w) then Lo(-1, w) else 0)
      else if Msb(a, w) then Lo(Words.Shr(a, count) + Modulus(w) - Pow2(n - count), w)
      else Lo(Words.Shr(a, count), w)
  }

  function Shift(op: Op, a: Word, b: Word, w: Width, f: Tuple): Out
    requires IsShiftOp(op)
  {
    var count := Count(b);
    if count == 0 then Out(a, f) // no flags are written at all
    else
      var r := ShiftResult(op, a, count, w);
      Out(r, Record(f, ShiftKind(op), a, count, r, w))
  }

  // ---- rotates ----

  function Rotate(op: Op, a: Word, b: Word, w: Width, f: Tuple): Out
    requires op == ROL || op == ROR
  {
    if Count(b) == 0 then Out(a, f)
    else
      var n := Bits(w);
      var count := Count(b) % n;
      // a nonzero multiple of the width keeps the value and still writes CF
      var r := if count == 0 then a
               else if op == ROL then Lo(Words.Shl(a, count) + Words.Shr(a, n - count), w)
               else Lo(Words.Shr(a, count) + Words.Shl(a, n - count), w);
      var cf := if op == ROL then r % 2 == 1 else Msb(r, w);
      var of := Msb(r, w) != (if op == ROL then cf else Bit(r, n - 2));
      Out(r, SetCfOf(f, cf, of))
  }

  /** A value being rotated through CF. */
  datatype Through = Through(r: Word, cf: bool)

  function RotateStep(op: Op, t: Through, w: Width): Through {
    if op == RCL then Through(Lo(2 * t.r + Num(t.cf), w), Msb(t.r, w))
    else Through(Lo(t.r / 2 + (if t.cf then Half(w) else 0), w), t.r % 2 == 1)
  }

  function RotateSteps(op: Op, t: Through, count: nat, w: Width): Through {
    if count == 0 then t else RotateStep(op, RotateSteps(op, t, count - 1, w), w)
  }

  /** The count of a rotate through carry: five bits, then modulo width + 1. */
  function ThroughCount(b: Word, w: Width): nat {
    Count(b) % (Bits(w) + 1)
  }

  predicate ThroughOf(op: Op, t: Through, w: Width) {
    Msb(t.r, w) != (if op == RCL then t.cf else Bit(t.r, Bits(w) - 2))
  }

  function RotateThrough(op: Op, a: Word, b: Word, w: Width, f: Tuple): Out
    requires op == RCL || op == RCR
  {
    if Count(b) == 0 then Out(a, f)
    else
      var t := RotateSteps(op, Through(a, Cf(f)), ThroughCount(b, w), w);
      Out(t.r, SetCfOf(f, t.cf, ThroughOf(op, t, w)))
  }

  // ---- the whole unit ----

  /** The binary operations, on operands masked to the width. */
  function Binary(op: Op, a0: Word, b0: Word, w: Width, f: Tuple): Out {
    var a, b := Lo(a0, w), Lo(b0, w);
    if IsPlain(op) then Plain(op, a, b, w, f)
    else if IsShiftOp(op) then Shift(op, a, b, w, f)
    else if op == ROL || op == ROR then Rotate(op, a, b, w, f)
    else if op == RCL || op == RCR then RotateThrough(op, a, b, w, f)
    else if op == ADC then
      var r := Lo(a + b + Num(Cf(f)), w);
      Out(r, RecordExplicit(WordOf(AdcFlags(a, b, Cf(f), r, w))))
    else
      var r := Lo(a - b - Num(Cf(f)), w);
      Out(r, RecordExplicit(WordOf(SbbFlags(a, b, Cf(f), r, w))))
  }

  function Unary(op: UnaryOp, a0: Word, w: Width, f: Tuple): Out {
    var a := Lo(a0, w);
    match op
    case NOT => Out(Lo(-1 - a, w), f)
    case NEG => var r := Diff(0, a, w); Out(r, Record(f, Sub, 0, a, r, w))
    case INC => var r := Sum(a, 1, w); Out(r, Record(f, Inc, a, 1, r, w))
    case DEC => var r := Diff(a, 1, w); Out(r, Record(f, Dec, a, 1, r, w))
  }

  // ---- every recording operation leaves a well-formed tuple, whatever it found ----

  lemma PlainWellFormed(op: Op, a: Word, b: Word, w: Width, f: Tuple)
    requires IsPlain(op) && Fits(a, w) && Fits(b, w)
    ensures WellFormed(Plain(op, a, b, w, f).f)
    ensures Fits(PlainResult(op, a, b, w), w)
  {
    hide Lo, Modulus, Cf;
    LoFits(a + b, w);
    LoFits(a - b, w);
    LoFits(Or(a, b), w);
    LoFits(And(a, b), w);
    LoFits(Xor(a, b), w);
  }

  lemma ShiftFits(op: Op, a: Word, count: Word, w: Width)
    requires IsShiftOp(op)
    ensures Fits(ShiftResult(op, a, count, w), w)
  {
    hide Lo, Modulus, Msb;
    ModulusIsTwoHalves(w);
    LoFits(Words.Shl(a, count), w);
    LoFits(Words.Shr(a, count), w);
    LoFits(-1, w);
    if count < Bits(w) {
      LoFits(Words.Shr(a, count) + Modulus(w) - Pow2(Bits(w) - count), w);
    }
  }

  lemma ShiftWellFormed(op: Op, a: Word, b: Word, w: Width, f: Tuple)
    requires IsShiftOp(op) && Count(b) != 0 && Fits(a, w)
    ensures WellFormed(Shift(op, a, b, w, f).f)
  {
    hide ShiftResult, Cf, Modulus;
    ShiftFits(op, a, Count(b), w);
  }

  lemma UnaryWellFormed(op: UnaryOp, a0: Word, w: Width, f: Tuple)
    requires op != NOT
    ensures WellFormed(Unary(op, a0, w, f).f)
  {
    hide Lo, Modulus, Cf;
    ModulusIsTwoHalves(w);
    LoFits(a0, w);
    LoFits(0 - Lo(a0, w), w);
    LoFits(Lo(a0, w) + 1, w);
    LoFits(Lo(a0, w) - 1, w);
  }

  /** No operation can tell two flag states apart that differ in a dead `carryIn` only. */
  lemma BinaryCongruent(op: Op, a: Word, b: Word, w: Width, f: Tuple, g: Tuple)
    requires Same(f, g)
    ensures Binary(op, a, b, w, f).r == Binary(op, a, b, w, g).r
    ensures Same(Binary(op, a, b, w, f).f, Binary(op, a, b, w, g).f)
  {
    hide Cf, Derive, Lo, PlainResult, ShiftResult, RotateSteps, AdcFlags, SbbFlags, WordOf;
    SameFlags(f, g);
  }

  lemma UnaryCongruent(op: UnaryOp, a: Word, w: Width, f: Tuple, g: Tuple)
    requires Same(f, g)
    ensures Unary(op, a, w, f).r == Unary(op, a, w, g).r
    ensures Same(Unary(op, a, w, f).f, Unary(op, a, w, g).f)
  {
    hide Cf, Lo;
    SameFlags(f, g);
  }
}
