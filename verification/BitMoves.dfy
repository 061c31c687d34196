/** What AND, OR, XOR, NOT, ROL and ROR do to each bit of their operands. */
module BitMoves {
  import opened Words
  import opened Flags
  import opened Alu
  import opened Shifts
  import opened Rotates

  function BitOpOf(op: Op): BitOp
    requires op in {AND, TEST, OR, XOR}
  {
    if op == OR then OrOp else if op == XOR then XorOp else AndOp
  }

  /** Every bit of a logical result is that operation on the two bits. */
  lemma LogicByBits(op: Op, a: Word, b: Word, w: Width, i: nat)
    requires op in {AND, TEST, OR, XOR} && i < Bits(w)
    ensures Bit(PlainResult(op, a, b, w), i) == OnBits(BitOpOf(op), Bit(a, i), Bit(b, i))
  {
    hide Lo, Bit, Bitwise, Pow2, OnBits;
    LoBit(Bitwise32(BitOpOf(op), a, b), w, i);
    BitwiseBit(BitOpOf(op), a, b, 32, i);
  }

  lemma {:induction false} BitOfOnes(n: nat, i: nat)
    requires i < n
    ensures Bit(Pow2(n) - 1, i)
  {
    OnesHalve(n);
    if i > 0 { BitOfOnes(n - 1, i - 1); }
  }

  /** NOT turns every bit, and touches no flag. */
  lemma NotByBits(a: Word, w: Width, f: Tuple, i: nat)
    requires Fits(a, w) && i < Bits(w)
    ensures var out := Unary(NOT, a, w, f);
      Bit(out.r, i) == !Bit(a, i) && Fits(out.r, w) && out.f == f
  {
    hide Lo, Bit, Bitwise, Pow2, Modulus;
    ModulusIsPow2(w);
    LoFits(-1 - a, w);
    LoOfFits(a, w);
    LoNear(-1 - a, w);
    XorOnes(a, Bits(w));
    BitwiseBit(XorOp, a, Pow2(Bits(w)) - 1, Bits(w), i);
    BitOfOnes(Bits(w), i);
  }

  /** A number of high bits above c low ones. */
  lemma JoinedBit(q: nat, c: nat, r: nat, i: nat)
    requires r < Pow2(c)
    ensures Bit(Pow2(c) * q + r, i) == if i < c then Bit(r, i) else Bit(q, i - c)
  {
    hide Bit, Pow2;
    if i < c {
      BitOfMultiple(q, c, r, i);
    } else {
      ModUnique(Pow2(c) * q + r, Pow2(c), q, r);
      BitShift(Pow2(c) * q + r, c, i - c);
    }
  }

  /** The operand's top c bits brought to the bottom. */
  lemma HighBits(a: Word, c: nat, w: Width)
    requires Fits(a, w) && 0 < c < Bits(w)
    ensures Words.Shr(a, Bits(w) - c) < Pow2(c)
  {
    hide Pow2, Modulus;
    ModulusIsPow2(w);
    Pow2Grows(c, Bits(w));
    var p, q := Pow2(Bits(w) - c), Words.Shr(a, Bits(w) - c);
    assert a == q * p + a % p;
    NotOver(q, Pow2(c), p, a);
  }

  lemma NotOver(q: nat, m: nat, p: nat, a: nat)
    requires q * p <= a < m * p
    ensures q < m
  {
  }

  /** The value of a left rotation by less than the width, bit by bit. */
  lemma TurnedBit(a: Word, c: nat, w: Width, i: nat)
    requires Fits(a, w) && 0 < c < Bits(w) && i < Bits(w)
    ensures Bit(Lo(Words.Shl(a, c) + Words.Shr(a, Bits(w) - c), w), i)
         == if i < c then Bit(a, i + Bits(w) - c) else Bit(a, i - c)
  {
    hide Bit, Pow2, Lo, Words.Shr;
    HighBits(a, c, w);
    var low := Words.Shr(a, Bits(w) - c);
    assert Words.Shl(a, c) == Pow2(c) * a;
    LoBit(Pow2(c) * a + low, w, i);
    JoinedBit(a, c, low, i);
    if i < c { BitShift(a, Bits(w) - c, i); }
  }

  lemma RoundOnce(i: nat, c: nat, w: Width)
    requires i < Bits(w) && c <= 31
    ensures var n, k := Bits(w), c % Bits(w);
      (i + c) % n == if i + k < n then i + k else i + k - n
  {
  }

  lemma RotateValue(op: Op, a: Word, b: Word, w: Width, f: Tuple)
    requires op == ROL || op == ROR
    ensures var n, c := Bits(w), Count(b) % Bits(w);
      Rotate(op, a, b, w, f).r
      == if c == 0 then a
         else if op == ROL then Lo(Words.Shl(a, c) + Words.Shr(a, n - c), w)
         else Lo(Words.Shl(a, n - c) + Words.Shr(a, n - (n - c)), w)
  {
    hide Bit, Lo, Words.Shr, Words.Shl, SetCfOf, Msb, Count;
  }

  /** ROL carries the bit at i to the bit `count` places on, round the width. */
  lemma RolIsRotation(a: Word, b: Word, w: Width, f: Tuple, i: nat)
    requires Fits(a, w) && i < Bits(w)
    ensures Bit(Rotate(ROL, a, b, w, f).r, (i + Count(b)) % Bits(w)) == Bit(a, i)
  {
    hide Bit, Lo, Words.Shr, Words.Shl, Rotate, Count;
    var n, c, j := Bits(w), Count(b) % Bits(w), (i + Count(b)) % Bits(w);
    RotateValue(ROL, a, b, w, f);
    RoundOnce(i, Count(b), w);
    hide Bits;
    if c != 0 { TurnedBit(a, c, w, j); }
  }

  /** ROR brings the bit `count` places on to i. */
  lemma RorIsRotation(a: Word, b: Word, w: Width, f: Tuple, i: nat)
    requires Fits(a, w) && i < Bits(w)
    ensures Bit(Rotate(ROR, a, b, w, f).r, i) == Bit(a, (i + Count(b)) % Bits(w))
  {
    hide Bit, Lo, Words.Shr, Words.Shl, Rotate, Count;
    var n, c, j := Bits(w), Count(b) % Bits(w), (i + Count(b)) % Bits(w);
    RotateValue(ROR, a, b, w, f);
    RoundOnce(i, Count(b), w);
    hide Bits;
    if c != 0 { TurnedBit(a, n - c, w, i); }
  }

  lemma RotateFits(op: Op, a: Word, b: Word, w: Width, f: Tuple)
    requires Fits(a, w) && (op == ROL || op == ROR)
    ensures Fits(Rotate(op, a, b, w, f).r, w)
  {
    hide Lo, Words.Shr, Words.Shl, SetCfOf, Msb, Modulus;
    var c := Count(b) % Bits(w);
    if Count(b) != 0 && c != 0 {
      LoFits(Words.Shl(a, c) + Words.Shr(a, Bits(w) - c), w);
      LoFits(Words.Shr(a, c) + Words.Shl(a, Bits(w) - c), w);
    }
  }

  /** ROR undoes ROL by the same count, multiples of the width included. */
  lemma RorUndoesRol(a: Word, b: Word, w: Width, f: Tuple, g: Tuple)
    requires Fits(a, w)
    ensures Rotate(ROR, Rotate(ROL, a, b, w, f).r, b, w, g).r == a
  {
    hide Bit, Rotate, Pow2, Modulus;
    var there := Rotate(ROL, a, b, w, f).r;
    RotateFits(ROL, a, b, w, f);
    var back := Rotate(ROR, there, b, w, g).r;
    RotateFits(ROR, there, b, w, g);
    ModulusIsPow2(w);
    forall i: nat | i < Bits(w) ensures Bit(back, i) == Bit(a, i) {
      RorIsRotation(there, b, w, g, i);
      RolIsRotation(a, b, w, f, i);
    }
    SameBits(back, a, Bits(w));
  }

  /** CF is the bit that went round last; every flag but CF and OF stays, and a count of zero changes none. */
  lemma RotateFlags(op: Op, a: Word, b: Word, w: Width, f: Tuple)
    requires Fits(a, w) && (op == ROL || op == ROR)
    ensures var out := Rotate(op, a, b, w, f);
      if Count(b) == 0 then out == Out(a, f)
      else Cf(out.f) == Bit(out.r, if op == ROL then 0 else Bits(w) - 1)
           && Derive(out.f) == Derive(f).(cf := Derive(out.f).cf, of := Derive(out.f).of)
  {
    hide Lo, Words.Shr, Words.Shl, Msb, Derive, Bit;
    var out := Rotate(op, a, b, w, f);
    if Count(b) != 0 {
      var cf := if op == ROL then out.r % 2 == 1 else Msb(out.r, w);
      var of := Msb(out.r, w) != (if op == ROL then cf else Bit(out.r, Bits(w) - 2));
      SetCf(f, cf, of);
      SetBoth(f, cf, of);
      LowBit(out.r);
      MsbIsBit(out.r, w);
    }
  }

  lemma SetBoth(f: Tuple, cf: bool, of: bool)
    ensures Derive(SetCfOf(f, cf, of)) == Derive(f).(cf := cf, of := of)
  {
    WordRoundTrip(Derive(f).(cf := cf, of := of));
  }
}
