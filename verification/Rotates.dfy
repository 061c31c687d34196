/** Rotating through carry: RCL and RCR as rotations of the value one bit wider than the operand. */
module Rotates {
  import opened Words
  import opened Flags
  import opened Alu
  import opened Shifts

  /** CF above the operand. */
  function Wide(t: Through, w: Width): nat {
    t.r + (if t.cf then Modulus(w) else 0)
  }

  /** The width of what is rotated. */
  function Turn(w: Width): nat {
    Bits(w) + 1
  }

  lemma WideFits(t: Through, w: Width)
    requires Fits(t.r, w)
    ensures Wide(t, w) < Pow2(Turn(w))
  {
    ModulusIsPow2(w);
    Pow2Add(1, Bits(w));
    Pow2Small();
  }

  lemma StepFits(op: Op, t: Through, w: Width)
    ensures Fits(RotateStep(op, t, w).r, w)
  {
    hide Lo;
    LoFits(2 * t.r + Num(t.cf), w);
    LoFits(t.r / 2 + (if t.cf then Half(w) else 0), w);
  }

  /** One RCL step moves every bit up and the top one to the bottom. */
  lemma LeftStepWide(t: Through, w: Width)
    requires Fits(t.r, w)
    ensures var u := RotateStep(RCL, t, w);
      Wide(u, w) == if t.cf then 2 * Wide(t, w) + 1 - 2 * Modulus(w) else 2 * Wide(t, w)
  {
    hide Lo, Msb;
    MsbFits(t.r, w);
    ModulusIsTwoHalves(w);
    LoNear(2 * t.r + Num(t.cf), w);
  }

  /** RCR undoes RCL one step at a time, and RCL undoes RCR. */
  lemma StepsUndo(t: Through, w: Width)
    requires Fits(t.r, w)
    ensures RotateStep(RCR, RotateStep(RCL, t, w), w) == t
    ensures RotateStep(RCL, RotateStep(RCR, t, w), w) == t
  {
    hide Lo, Msb;
    MsbFits(t.r, w);
    ModulusIsTwoHalves(w);
    LoNear(2 * t.r + Num(t.cf), w);
    var u := Lo(2 * t.r + Num(t.cf), w);
    LoNear(u / 2 + (if Msb(t.r, w) then Half(w) else 0), w);
    var d := t.r / 2 + (if t.cf then Half(w) else 0);
    LoNear(d, w);
    MsbFits(d, w);
    LoNear(2 * d + Num(t.r % 2 == 1), w);
  }

  lemma {:induction false} StepsFit(op: Op, t: Through, count: nat, w: Width)
    requires Fits(t.r, w)
    ensures Fits(RotateSteps(op, t, count, w).r, w)
  {
    if count > 0 { StepFits(op, RotateSteps(op, t, count - 1, w), w); }
  }

  lemma {:induction false} StepFirst(op: Op, t: Through, count: nat, w: Width)
    ensures RotateSteps(op, t, count + 1, w) == RotateSteps(op, RotateStep(op, t, w), count, w)
  {
    hide RotateStep;
    if count > 0 { StepFirst(op, t, count - 1, w); }
  }

  /** RCR by a count undoes RCL by the same count, CF included. */
  lemma {:induction false} RightUndoesLeft(t: Through, count: nat, w: Width)
    requires Fits(t.r, w)
    ensures RotateSteps(RCR, RotateSteps(RCL, t, count, w), count, w) == t
  {
    hide RotateStep;
    if count > 0 {
      var u := RotateSteps(RCL, t, count - 1, w);
      StepsFit(RCL, t, count - 1, w);
      StepFirst(RCR, RotateStep(RCL, u, w), count - 1, w);
      StepsUndo(u, w);
      RightUndoesLeft(t, count - 1, w);
    }
  }

  // ---- bits ----

  /** The bits of 2v and of 2v + 1. */
  lemma DoubleBit(v: nat, low: bool, i: nat)
    ensures Bit(2 * v + Num(low), i) == if i == 0 then low else Bit(v, i - 1)
  {
    if i > 0 { assert (2 * v + Num(low)) / 2 == v; }
  }

  /** The top bit of the wide value is CF. */
  lemma WideTop(t: Through, w: Width)
    requires Fits(t.r, w)
    ensures Bit(Wide(t, w), Bits(w)) == t.cf
  {
    hide Pow2, Bit;
    ModulusIsPow2(w);
    BitShift(Wide(t, w), Bits(w), 0);
    LowBit(Words.Shr(Wide(t, w), Bits(w)));
    ModUnique(Wide(t, w), Pow2(Bits(w)), if t.cf then 1 else 0, t.r);
  }

  /** One RCL step carries the bit at i to the bit after it, round the turn. */
  lemma LeftStepBit(t: Through, w: Width, i: nat)
    requires Fits(t.r, w) && i < Turn(w)
    ensures Bit(Wide(RotateStep(RCL, t, w), w), (i + 1) % Turn(w)) == Bit(Wide(t, w), i)
  {
    hide Pow2, Bit, RotateStep;
    var v := Wide(t, w);
    LeftStepWide(t, w);
    StepFits(RCL, t, w);
    WideTop(t, w);
    if i == Bits(w) {
      NextRound(i, w);
      if t.cf {
        DoubleBit(v - Modulus(w), true, 0);
      } else {
        DoubleBit(v, false, 0);
      }
    } else {
      NextRound(i, w);
      if t.cf {
        DoubleBit(t.r, true, i + 1);
        ModulusIsPow2(w);
        BitOfMultiple(1, Bits(w), t.r, i);
      } else {
        DoubleBit(v, false, i + 1);
      }
    }
  }

  lemma NextRound(i: nat, w: Width)
    requires i < Turn(w)
    ensures (i + 1) % Turn(w) == if i == Bits(w) then 0 else i + 1
  {
  }

  lemma AddRound(i: nat, k: nat, w: Width)
    ensures ((i + k) % Turn(w) + 1) % Turn(w) == (i + k + 1) % Turn(w)
  {
    var m := Turn(w);
    var q := (i + k) / m;
    var r := (i + k) % m;
    if r + 1 == m {
      ModUnique(i + k + 1, m, q + 1, 0);
      ModUnique(r + 1, m, 1, 0);
    } else {
      ModUnique(i + k + 1, m, q, r + 1);
      ModUnique(r + 1, m, 0, r + 1);
    }
  }

  /** RCL by a count is the rotation of CF and the operand together: bit i goes to bit i + count, round the turn. */
  lemma {:induction false} LeftIsRotation(t: Through, count: nat, w: Width, i: nat)
    requires Fits(t.r, w) && i < Turn(w)
    ensures Bit(Wide(RotateSteps(RCL, t, count, w), w), (i + count) % Turn(w)) == Bit(Wide(t, w), i)
  {
    hide Bit, RotateStep, Wide, Pow2;
    if count == 0 {
      ModUnique(i, Turn(w), 0, i);
    } else {
      LeftIsRotation(t, count - 1, w, i);
      StepsFit(RCL, t, count - 1, w);
      LeftStepBit(RotateSteps(RCL, t, count - 1, w), w, (i + count - 1) % Turn(w));
      AddRound(i, count - 1, w);
    }
  }

  /** RCR by a count is the opposite rotation. */
  lemma {:induction false} RightIsRotation(t: Through, count: nat, w: Width, i: nat)
    requires Fits(t.r, w) && i < Turn(w)
    ensures Bit(Wide(RotateSteps(RCR, t, count, w), w), i) == Bit(Wide(t, w), (i + count) % Turn(w))
  {
    hide Bit, RotateStep, Wide, Pow2;
    var u := RotateSteps(RCR, t, count, w);
    StepsFit(RCR, t, count, w);
    LeftUndoesRight(t, count, w);
    LeftIsRotation(u, count, w, i);
  }

  lemma {:induction false} LeftUndoesRight(t: Through, count: nat, w: Width)
    requires Fits(t.r, w)
    ensures RotateSteps(RCL, RotateSteps(RCR, t, count, w), count, w) == t
  {
    hide RotateStep;
    if count > 0 {
      var u := RotateSteps(RCR, t, count - 1, w);
      StepsFit(RCR, t, count - 1, w);
      StepFirst(RCL, RotateStep(RCR, u, w), count - 1, w);
      StepsUndo(u, w);
      LeftUndoesRight(t, count - 1, w);
    }
  }

  lemma {:induction false} SameBits(x: nat, y: nat, n: nat)
    requires x < Pow2(n) && y < Pow2(n) && forall i: nat :: i < n ==> Bit(x, i) == Bit(y, i)
    ensures x == y
  {
    if n > 0 {
      assert Bit(x, 0) == Bit(y, 0);
      forall i: nat | i < n - 1 ensures Bit(x / 2, i) == Bit(y / 2, i) {
        assert Bit(x, i + 1) == Bit(y, i + 1);
      }
      SameBits(x / 2, y / 2, n - 1);
    }
  }

  lemma WideInjective(t: Through, u: Through, w: Width)
    requires Fits(t.r, w) && Fits(u.r, w) && Wide(t, w) == Wide(u, w)
    ensures t == u
  {
  }

  /** A whole turn changes nothing, which is why the count is reduced modulo width + 1. */
  lemma WholeTurn(t: Through, w: Width)
    requires Fits(t.r, w)
    ensures RotateSteps(RCL, t, Turn(w), w) == t && RotateSteps(RCR, t, Turn(w), w) == t
  {
    hide Bit, RotateStep, Wide, Pow2, RotateSteps;
    var u := RotateSteps(RCL, t, Turn(w), w);
    StepsFit(RCL, t, Turn(w), w);
    WideFits(t, w);
    WideFits(u, w);
    forall i: nat | i < Turn(w) ensures Bit(Wide(u, w), i) == Bit(Wide(t, w), i) {
      LeftIsRotation(t, Turn(w), w, i);
      ModUnique(i + Turn(w), Turn(w), 1, i);
    }
    SameBits(Wide(u, w), Wide(t, w), Turn(w));
    WideInjective(u, t, w);
    RightUndoesLeft(t, Turn(w), w);
  }

  lemma {:induction false} StepsAdd(op: Op, t: Through, m: nat, n: nat, w: Width)
    ensures RotateSteps(op, t, m + n, w) == RotateSteps(op, RotateSteps(op, t, m, w), n, w)
  {
    hide RotateStep;
    if n > 0 { StepsAdd(op, t, m, n - 1, w); }
  }

  /** The reduced count gives what rotating by the whole five-bit count would. */
  lemma {:induction false} CountReduces(op: Op, t: Through, count: nat, w: Width)
    requires Fits(t.r, w) && (op == RCL || op == RCR)
    ensures RotateSteps(op, t, count % Turn(w), w) == RotateSteps(op, t, count, w)
  {
    hide RotateStep, RotateSteps;
    if count >= Turn(w) {
      CountReduces(op, t, count - Turn(w), w);
      StepsAdd(op, t, Turn(w), count - Turn(w), w);
      WholeTurn(t, w);
      ModUnique(count, Turn(w), (count - Turn(w)) / Turn(w) + 1, (count - Turn(w)) % Turn(w));
    } else {
      ModUnique(count, Turn(w), 0, count);
    }
  }

  /** The unit's RCL or RCR is that many single-bit steps on CF and the masked operand, result and CF alike. */
  lemma RotateThroughIsSteps(op: Op, a: Word, b: Word, w: Width, f: Tuple)
    requires op == RCL || op == RCR
    ensures var out := Binary(op, a, b, w, f);
      Through(out.r, Cf(out.f)) == RotateSteps(op, Through(Lo(a, w), Cf(f)), Count(Lo(b, w)), w)
  {
    hide Lo, Cf, RotateSteps, Derive, ThroughOf;
    LoFits(a, w);
    var t := Through(Lo(a, w), Cf(f));
    CountReduces(op, t, Count(Lo(b, w)), w);
    if Count(Lo(b, w)) == 0 {
      NoSteps(op, t, w);
    } else {
      var u := RotateSteps(op, t, ThroughCount(Lo(b, w), w), w);
      SetCf(f, u.cf, ThroughOf(op, u, w));
    }
  }

  lemma NoSteps(op: Op, t: Through, w: Width)
    ensures RotateSteps(op, t, 0, w) == t
  {
  }

  lemma SetCf(f: Tuple, cf: bool, of: bool)
    ensures Cf(SetCfOf(f, cf, of)) == cf
  {
    hide Derive;
    WordRoundTrip(Derive(f).(cf := cf, of := of));
  }
}
