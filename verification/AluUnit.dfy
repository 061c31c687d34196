/**
 The integer unit over a flag state updated in place: each operation reads the
 carry it needs before it overwrites the tuple. Specified by Alu's functions,
 whose properties the other modules prove.
 */
module AluUnit {
  import opened Words
  import opened Flags
  import opened Alu
  import MulDiv

  class FlagState {
    var kind: Kind
    var a: Word
    var b: Word
    var r: Word
    var w: Width
    var carryIn: Word

    function Value(): Tuple
      reads this
    {
      Tuple(kind, a, b, r, w, carryIn)
    }

    constructor ()
      ensures Value() == Tuple(None, 0, 0, 0, W4, 0)
    {
      kind, a, b, r, w, carryIn := None, 0, 0, 0, W4, 0;
    }

    /** Record an operation, keeping the CF it found. */
    method Set(k: Kind, x: Word, y: Word, result: Word, width: Width)
      requires IsShift(k) ==> y != 0
      modifies this
      ensures Value() == Record(old(Value()), k, x, y, result, width)
    {
      var kept := Num(Cf(Value()));
      kind, a, b, r, w, carryIn := k, x, y, result, width, kept;
    }

    method SetExplicit(word: Word)
      modifies this
      ensures Value() == RecordExplicit(word)
    {
      kind, a, b, r, w, carryIn := Explicit, word, 0, 0, W4, Num(HasCf(word));
    }

    method SetCfOfOnly(cf: bool, of: bool)
      modifies this
      ensures Value() == SetCfOf(old(Value()), cf, of)
    {
      WordRoundTrip(Derive(Value()));
      hide WordOf, SixOf, Derive, HasCf;
      SetExplicit(WordOf(SixOf(Eflags(Value())).(cf := cf, of := of)));
    }

    /** RCL and RCR: the loop over the value and CF. */
    method RotateLoop(op: Op, x: Word, carry: bool, count: nat, width: Width) returns (t: Through)
      ensures t == RotateSteps(op, Through(x, carry), count, width)
    {
      hide Lo, Msb;
      var value: Word, cf := x, carry;
      for i := 0 to count
        invariant Through(value, cf) == RotateSteps(op, Through(x, carry), i, width)
      {
        if op == RCL {
          var out := Msb(value, width);
          value := Lo(2 * value + Num(cf), width);
          cf := out;
        } else {
          var out := value % 2 == 1;
          value := Lo(value / 2 + (if cf then Half(width) else 0), width);
          cf := out;
        }
      }
      t := Through(value, cf);
    }

    method ApplyShift(op: Op, x: Word, y: Word, width: Width) returns (result: Word)
      requires IsShiftOp(op)
      modifies this
      ensures result == Shift(op, x, y, width, old(Value())).r && Value() == Shift(op, x, y, width, old(Value())).f
    {
      hide Cf, ShiftResult;
      var count := Count(y);
      if count == 0 { return x; } // no flags are written at all
      result := ShiftResult(op, x, count, width);
      Set(ShiftKind(op), x, count, result, width);
    }

    method ApplyRotate(op: Op, x: Word, y: Word, width: Width) returns (result: Word)
      requires op == ROL || op == ROR
      modifies this
      ensures result == Rotate(op, x, y, width, old(Value())).r && Value() == Rotate(op, x, y, width, old(Value())).f
    {
      hide Lo, Msb, Bit, SetCfOf, Words.Shl, Words.Shr;
      if Count(y) == 0 { return x; }
      var n, turn := Bits(width), Count(y) % Bits(width);
      if turn == 0 {
        result := x; // a nonzero multiple of the width still writes CF
      } else if op == ROL {
        result := Lo(Words.Shl(x, turn) + Words.Shr(x, n - turn), width);
      } else {
        result := Lo(Words.Shr(x, turn) + Words.Shl(x, n - turn), width);
      }
      var cf := if op == ROL then result % 2 == 1 else Msb(result, width);
      SetCfOfOnly(cf, Msb(result, width) != (if op == ROL then cf else Bit(result, n - 2)));
    }

    method ApplyThrough(op: Op, x: Word, y: Word, width: Width) returns (result: Word)
      requires op == RCL || op == RCR
      modifies this
      ensures result == RotateThrough(op, x, y, width, old(Value())).r
      ensures Value() == RotateThrough(op, x, y, width, old(Value())).f
    {
      hide Cf, RotateSteps, SetCfOf, ThroughOf;
      if Count(y) == 0 { return x; }
      var t := RotateLoop(op, x, Cf(Value()), Count(y) % (Bits(width) + 1), width);
      result := t.r;
      SetCfOfOnly(t.cf, ThroughOf(op, t, width));
    }

    /** x86p_alu. */
    method Apply(op: Op, x0: Word, y0: Word, width: Width) returns (result: Word)
      modifies this
      ensures result == Binary(op, x0, y0, width, old(Value())).r
      ensures Value() == Binary(op, x0, y0, width, old(Value())).f
    {
      hide Lo, Cf, PlainResult, Shift, Rotate, RotateThrough, WordOf, AdcFlags, SbbFlags, HasCf;
      var x, y := Lo(x0, width), Lo(y0, width);
      var carry := Cf(Value());
      if IsPlain(op) {
        result := PlainResult(op, x, y, width);
        Set(PlainKind(op), x, y, result, width);
      } else if IsShiftOp(op) {
        result := ApplyShift(op, x, y, width);
      } else if op == ROL || op == ROR {
        result := ApplyRotate(op, x, y, width);
      } else if op == RCL || op == RCR {
        result := ApplyThrough(op, x, y, width);
      } else if op == ADC {
        result := Lo(x + y + Num(carry), width);
        SetExplicit(WordOf(AdcFlags(x, y, carry, result, width)));
      } else {
        result := Lo(x - y - Num(carry), width);
        SetExplicit(WordOf(SbbFlags(x, y, carry, result, width)));
      }
    }

    /** x86p_alu_unary. */
    method ApplyUnary(op: UnaryOp, x0: Word, width: Width) returns (result: Word)
      modifies this
      ensures result == Unary(op, x0, width, old(Value())).r
      ensures Value() == Unary(op, x0, width, old(Value())).f
    {
      hide Lo, Cf;
      var x: int := Lo(x0, width);
      match op {
        case NOT => result := Lo(-1 - x, width);
        case NEG => result := Diff(0, x, width); Set(Sub, 0, x, result, width);
        case INC => result := Sum(x, 1, width); Set(Inc, x, 1, result, width);
        case DEC => result := Diff(x, 1, width); Set(Dec, x, 1, result, width);
      }
    }

    /** x86p_alu_mul: both halves, and CF and OF alone. */
    method Multiply(x0: Word, y0: Word, width: Width) returns (lo: Word, hi: Word)
      modifies this
      ensures MulDiv.Product(MulDiv.Halves(lo, hi), Value()) == MulDiv.Mul(x0, y0, width, old(Value()))
    {
      hide Lo, SetCfOf;
      var full: int := Lo(x0, width) * Lo(y0, width);
      lo, hi := Lo(full, width), Lo(full / Modulus(width), width);
      SetCfOfOnly(hi != 0, hi != 0);
    }

    /** x86p_alu_imul. */
    method MultiplySigned(x0: Word, y0: Word, width: Width) returns (lo: Word, hi: Word)
      modifies this
      ensures MulDiv.Product(MulDiv.Halves(lo, hi), Value()) == MulDiv.Imul(x0, y0, width, old(Value()))
    {
      hide Lo, SetCfOf, Signed;
      var full := Signed(Lo(x0, width), width) * Signed(Lo(y0, width), width);
      lo, hi := Lo(full, width), Lo(full / Modulus(width), width);
      var over := Signed(lo, width) != full;
      SetCfOfOnly(over, over);
    }
  }
}
