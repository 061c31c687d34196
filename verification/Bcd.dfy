/** Decimal adjustment: DAA, DAS, AAA, AAS, AAM and AAD, updating AX and the flags step by step. */
module Bcd {
  import opened Words
  import opened Flags
  import opened Alu
  import opened LimbChains
  import FlagMeaning

  type Byte = b: nat | b < 256

  datatype BcdOp = DAA | DAS | AAA | AAS | AAM | AAD

  /** AL, AH and the six flags. */
  datatype Ax = Ax(al: Byte, ah: Byte, s: Six)

  datatype Result = DivideError | Adjusted(v: Ax)

  /** The last adjustment made, whose signed overflow is OF; clear when there was none. */
  datatype Last = NoAdjust | LastAdjust(a: Byte, b: Byte, r: Byte, subtract: bool)

  predicate Negative(b: Byte) {
    b >= 0x80
  }

  predicate LastOf(l: Last) {
    match l
    case NoAdjust => false
    case LastAdjust(a, b, r, subtract) =>
      if subtract then Negative(a) != Negative(b) && Negative(a) != Negative(r)
      else Negative(a) != Negative(r) && Negative(b) != Negative(r)
  }

  function WithResult(s: Six, al: Byte): Six {
    s.(sf := Negative(al), zf := al == 0, pf := EvenParity(al))
  }

  /** The low digit overflowed, or the addition carried out of it. */
  predicate LowAdjusts(v: Ax) {
    v.al % 16 > 9 || v.s.af
  }

  predicate HighAdjusts(v: Ax) {
    v.al > 0x99 || v.s.cf
  }

  /** AL plus or minus an adjustment, wrapped. */
  function Moved(al: Byte, step: Byte, subtract: bool): Byte {
    if subtract then (al - step) % 256 else (al + step) % 256
  }

  /** DAA clears CF when its second test fails; DAS leaves it as its first left it. */
  function Decimal(v: Ax, subtract: bool): Ax {
    var low, high := LowAdjusts(v), HighAdjusts(v);
    var al1 := if low then Moved(v.al, 6, subtract) else v.al;
    var al2 := if high then Moved(al1, 0x60, subtract) else al1;
    var last := if high then LastAdjust(al1, 0x60, al2, subtract) else if low then LastAdjust(v.al, 6, al1, subtract) else NoAdjust;
    var cf := high || (subtract && low && (v.s.cf || v.al < 6)) || (subtract && !low && v.s.cf);
    Ax(al2, v.ah, WithResult(v.s.(cf := cf, af := low), al2).(of := LastOf(last)))
  }

  function AdjustAx(ax: nat, subtract: bool): nat {
    if subtract then (ax - 6) % 0x1_0000 else (ax + 6) % 0x1_0000
  }

  /** The adjustment is on AX: the low byte's carry or borrow reaches AH besides the one added. */
  function Unpacked(v: Ax, subtract: bool): Ax {
    var adjust := LowAdjusts(v);
    var ax := v.al + 256 * v.ah;
    var ax' := if adjust then AdjustAx(ax, subtract) else ax;
    var ah: Byte := if !adjust then v.ah else if subtract then (ax' / 256 + 255) % 256 else (ax' / 256 + 1) % 256;
    var al: Byte := ax' % 256;
    Ax(al % 16, ah, WithResult(v.s.(cf := adjust, af := adjust), al).(sf := Negative(ah), of := false))
  }

  function Aam(v: Ax, imm: Byte): Result {
    if imm == 0 then DivideError
    else
      Shrinks(v.al, imm);
      Adjusted(Ax(v.al % imm, v.al / imm, WithResult(v.s, v.al % imm).(cf := false, af := false, of := false)))
  }

  function Aad(v: Ax, imm: Byte): Ax {
    var addend: Byte := v.ah * imm % 256;
    var sum: Byte := (v.al + addend) % 256;
    Ax(sum, 0, WithResult(v.s.(cf := v.al + addend > 0xFF, af := v.al % 16 + addend % 16 > 0xF,
                               of := Negative(v.al) != Negative(sum) && Negative(addend) != Negative(sum)), sum))
  }

  /** What each operation leaves, or the exception. */
  function Apply(op: BcdOp, v: Ax, imm: Byte): Result {
    match op
    case DAA => Adjusted(Decimal(v, false))
    case DAS => Adjusted(Decimal(v, true))
    case AAA => Adjusted(Unpacked(v, false))
    case AAS => Adjusted(Unpacked(v, true))
    case AAM => Aam(v, imm)
    case AAD => Adjusted(Aad(v, imm))
  }

  /** x86p_bcd_apply's DAA and DAS as they are written: AL and the flags adjusted in turn. */
  method AdjustDecimal(v: Ax, subtract: bool) returns (out: Ax)
    ensures out == Decimal(v, subtract)
  {
    hide WithResult, LastOf, Moved;
    var al, s := v.al, v.s;
    var last: Last := NoAdjust;
    if al % 16 > 9 || v.s.af {
      var carry := if subtract then al < 6 else al > 0xFF - 6;
      var r := Moved(al, 6, subtract);
      last := LastAdjust(al, 6, r, subtract);
      al := r;
      s := s.(cf := v.s.cf || carry, af := true);
    } else {
      s := s.(af := false);
    }
    if v.al > 0x99 || v.s.cf {
      var r := Moved(al, 0x60, subtract);
      last := LastAdjust(al, 0x60, r, subtract);
      al := r;
      s := s.(cf := true);
    } else if !subtract {
      s := s.(cf := false);
    }
    s := WithResult(s, al);
    s := s.(of := LastOf(last));
    out := Ax(al, v.ah, s);
  }

  /** Its AAA and AAS: AX adjusted as a whole, then SF from AX and the rest from AL before its high digit goes. */
  method AdjustUnpacked(v: Ax, subtract: bool) returns (out: Ax)
    ensures out == Unpacked(v, subtract)
  {
    hide WithResult;
    AxParts(v.al, v.ah);
    var al: Byte, ah: Byte, s := v.al, v.ah, v.s;
    if al % 16 > 9 || v.s.af {
      var ax := AdjustAx(al + 256 * ah, subtract);
      ah := (ax / 256 + if subtract then 255 else 1) % 256;
      al := ax % 256;
      s := s.(af := true, cf := true);
    } else {
      s := s.(af := false, cf := false);
    }
    s := WithResult(s, al);
    s := s.(sf := Negative(ah), of := false);
    out := Ax(al % 16, ah, s);
  }

  /** x86p_bcd_apply: only AAM can be refused, for a zero divisor. */
  method Adjust(op: BcdOp, v: Ax, imm: Byte) returns (r: Result)
    ensures r == Apply(op, v, imm)
    ensures r.DivideError? <==> op == AAM && imm == 0
  {
    hide Decimal, Unpacked;
    match op {
      case DAA => var out := AdjustDecimal(v, false); r := Adjusted(out);
      case DAS => var out := AdjustDecimal(v, true); r := Adjusted(out);
      case AAA => var out := AdjustUnpacked(v, false); r := Adjusted(out);
      case AAS => var out := AdjustUnpacked(v, true); r := Adjusted(out);
      case AAM => r := Aam(v, imm);
      case AAD => r := Adjusted(Aad(v, imm));
    }
  }

  // ---- every operand, packed or not ----

  function SignedByte(b: Byte): int {
    if b < 0x80 then b else b - 256
  }

  /** SF, ZF and PF are the value's. */
  predicate ValueFlags(s: Six, v: Byte) {
    (s.sf <==> SignedByte(v) < 0) && (s.zf <==> v == 0) && s.pf == EvenParity(v)
  }

  /**
   DAA and DAS on any AL and flags: 6 for a low digit past 9 or a half carry,
   0x60 for more than 0x99 or a carry, both judged on the AL found; and OF the
   signed overflow of the adjustment made last.
   */
  lemma AdjustsByDigits(op: BcdOp, v: Ax, imm: Byte)
    requires op == DAA || op == DAS
    ensures Apply(op, v, imm).Adjusted?
    ensures var out, subtract := Apply(op, v, imm).v, op == DAS;
      var low, high := v.al % 16 > 9 || v.s.af, v.al > 0x99 || v.s.cf;
      var sign := if subtract then -1 else 1;
      var first := (v.al + sign * (if low then 6 else 0)) % 256;
      && out.al == (first + sign * (if high then 0x60 else 0)) % 256 && out.ah == v.ah
      && (out.s.af <==> low) && (out.s.cf <==> high || (subtract && low && v.al < 6)) && ValueFlags(out.s, out.al)
      && (out.s.of <==> (high && SignedByte(out.al) != SignedByte(first) + sign * 0x60)
                        || (!high && low && SignedByte(out.al) != SignedByte(v.al) + sign * 6))
  {
    hide EvenParity, Moved, LastOf, SignedByte;
    var subtract := op == DAS;
    var low, high := v.al % 16 > 9 || v.s.af, v.al > 0x99 || v.s.cf;
    var sign := if subtract then -1 else 1;
    var first := (v.al + sign * (if low then 6 else 0)) % 256;
    var last := (first + sign * (if high then 0x60 else 0)) % 256;
    OverflowOf(v.al, 6, subtract);
    OverflowOf(first, 0x60, subtract);
    OfValue(v.s.(cf := high || (subtract && low && (v.s.cf || v.al < 6)) || (subtract && !low && v.s.cf), af := low), last);
    assert first == if low then Moved(v.al, 6, subtract) else v.al;
    assert last == if high then Moved(first, 0x60, subtract) else first;
    if high {
      assert Decimal(v, subtract).s.of == LastOf(LastAdjust(first, 0x60, last, subtract));
    } else if low {
      assert Decimal(v, subtract).s.of == LastOf(LastAdjust(v.al, 6, first, subtract));
    } else {
      NoOverflow();
      assert Decimal(v, subtract).s.of == LastOf(NoAdjust);
    }
  }

  lemma NoOverflow()
    ensures !LastOf(NoAdjust)
  {
  }

  lemma OfValue(s: Six, v: Byte)
    ensures ValueFlags(WithResult(s, v), v) && ValueFlags(WithResult(s, v).(of := true), v) && ValueFlags(WithResult(s, v).(of := false), v)
    ensures WithResult(s, v).cf == s.cf && WithResult(s, v).af == s.af
  {
    hide EvenParity;
  }

  lemma OverflowOf(a: Byte, step: Byte, subtract: bool)
    requires step == 6 || step == 0x60
    ensures var r := Moved(a, step, subtract);
      && r == (a + (if subtract then -1 else 1) * step) % 256
      && (LastOf(LastAdjust(a, step, r, subtract)) <==> SignedByte(r) != SignedByte(a) + (if subtract then -1 else 1) * step)
  {
  }

  /** AAA and AAS on any AX: 6 taken on AX as a whole and one more in AH, SF from AX, ZF and PF from AL before its high digit goes. */
  lemma AdjustsUnpacked(op: BcdOp, v: Ax, imm: Byte)
    requires op == AAA || op == AAS
    ensures Apply(op, v, imm).Adjusted?
    ensures var out, subtract := Apply(op, v, imm).v, op == AAS;
      var adjust := v.al % 16 > 9 || v.s.af;
      var ax := AxAdjusted(v, subtract);
      && ax / 256 == out.ah && ax % 256 % 16 == out.al && out.s.cf == out.s.af == adjust && !out.s.of
      && (out.s.sf <==> ax >= 0x8000) && (out.s.zf <==> ax % 256 == 0) && out.s.pf == EvenParity(ax % 256)
  {
    hide AdjustAx, AxAdjusted, EvenParity, Unpacked, LowAdjusts, Negative;
    var subtract := op == AAS;
    var adjust := LowAdjusts(v);
    var d := if !adjust then 0 else if subtract then -6 else 6;
    var one := if !adjust then 0 else if subtract then -1 else 1;
    var c := Outgoing(v.al, d);
    var al: Byte := v.al + d - 256 * c;
    var mid: Byte := (v.ah + c) % 256;
    var ah: Byte := (v.ah + one + c) % 256;
    HalvesAdjusted(v, subtract, adjust, d, one);
    if adjust {
      MovedTwice(v.ah, c, subtract);
    } else {
      SmallMod(v.ah);
    }
    LowTest(v);
    UnpackedLeaves(v, subtract, al, mid, ah);
    AxParts(al, ah);
    TopHalf(al, ah);
  }

  lemma LowTest(v: Ax)
    ensures LowAdjusts(v) == (v.al % 16 > 9 || v.s.af)
  {
  }

  lemma UnpackedLeaves(v: Ax, subtract: bool, al: Byte, mid: Byte, ah: Byte)
    requires LowAdjusts(v) ==> AdjustAx(v.al + 256 * v.ah, subtract) == 256 * mid + al && ah == (mid + (if subtract then 255 else 1)) % 256
    requires !LowAdjusts(v) ==> al == v.al && ah == v.ah
    ensures var out := Unpacked(v, subtract);
      && out.al == al % 16 && out.ah == ah && out.s.cf == out.s.af == LowAdjusts(v) && !out.s.of
      && out.s.sf == Negative(ah) && out.s.zf == (al == 0) && out.s.pf == EvenParity(al)
  {
    hide EvenParity, Negative, AdjustAx, LowAdjusts;
    AxParts(al, mid);
    AxParts(v.al, v.ah);
  }

  /** AX with 0x106 added or taken away when the low digit calls for it. */
  function AxAdjusted(v: Ax, subtract: bool): nat {
    var d := if !LowAdjusts(v) then 0 else if subtract then -0x106 else 0x106;
    (v.al + 256 * v.ah + d) % 0x1_0000
  }

  lemma HalvesAdjusted(v: Ax, subtract: bool, adjust: bool, d: int, one: int)
    requires adjust == LowAdjusts(v)
    requires d == (if !adjust then 0 else if subtract then -6 else 6) && one == (if !adjust then 0 else if subtract then -1 else 1)
    ensures var c := Outgoing(v.al, d);
      && 0 <= v.al + d - 256 * c < 256
      && (adjust ==> AdjustAx(v.al + 256 * v.ah, subtract) == 256 * ((v.ah + c) % 256) + (v.al + d - 256 * c))
      && AxAdjusted(v, subtract) == 256 * ((v.ah + one + c) % 256) + (v.al + d - 256 * c)
  {
    AxMoved(v.ah, v.al, 0, d);
    AxMoved(v.ah, v.al, one, d);
  }

  lemma TopHalf(al: Byte, ah: Byte)
    ensures al + 256 * ah >= 0x8000 <==> Negative(ah)
  {
  }

  function Outgoing(l: Byte, d: int): int {
    if l + d > 255 then 1 else if l + d < 0 then -1 else 0
  }

  /** AX moved by so many in each half: what leaves the lower half goes to the upper. */
  lemma AxMoved(h: Byte, l: Byte, dh: int, dl: int)
    requires -1 <= dh <= 1 && -6 <= dl <= 6
    ensures var c := Outgoing(l, dl);
      (l + 256 * h + 256 * dh + dl) % 0x1_0000 == 256 * ((h + dh + c) % 256) + (l + dl - 256 * c)
  {
    var c := Outgoing(l, dl);
    var sum := h + dh + c;
    var q := if sum < 0 then -1 else if sum > 255 then 1 else 0;
    ModUnique(sum, 256, q, sum - 256 * q);
    ModUnique(l + 256 * h + 256 * dh + dl, 0x1_0000, q, 256 * (sum - 256 * q) + (l + dl - 256 * c));
  }

  lemma MovedTwice(h: Byte, c: int, subtract: bool)
    requires -1 <= c <= 1
    ensures ((h + c) % 256 + (if subtract then 255 else 1)) % 256 == (h + c + (if subtract then -1 else 1)) % 256
  {
  }

  /** AAM: quotient and remainder of AL, the remainder's flags and no carry of any kind. */
  lemma AamDivides(v: Ax, imm: Byte)
    ensures imm == 0 ==> Apply(AAM, v, imm) == DivideError
    ensures imm != 0 ==> var out := Apply(AAM, v, imm);
      && out.Adjusted? && out.v.ah * imm + out.v.al == v.al && out.v.al < imm
      && !out.v.s.cf && !out.v.s.af && !out.v.s.of && ValueFlags(out.v.s, out.v.al)
  {
    hide EvenParity;
  }

  /** AAD is the byte addition of AL and AH times the base, all six flags of it, with AH cleared. */
  lemma AadAdds(v: Ax, imm: Byte)
    ensures Apply(AAD, v, imm).Adjusted?
    ensures var out := Apply(AAD, v, imm).v;
      var scaled: Word := v.ah * imm % 256;
      out.ah == 0 && out.al == (v.al + v.ah * imm) % 256 && out.s == AdcFlags(v.al, scaled, false, out.al, W1)
  {
    hide EvenParity, HalfCarry;
    var scaled: Byte := v.ah * imm % 256;
    ReducedSum(v.al, v.ah * imm);
    ByteSigns(v.al, scaled, (v.al + scaled) % 256);
    FlagMeaning.HalfCarrySum(v.al, scaled, 0, v.al + scaled, W1);
  }

  lemma ReducedSum(a: nat, p: nat)
    ensures (a + p % 256) % 256 == (a + p) % 256
  {
  }

  lemma ByteSigns(a: Byte, b: Byte, r: Byte)
    ensures AddOverflow(a, b, r, W1) <==> Negative(a) != Negative(r) && Negative(b) != Negative(r)
    ensures (Msb(r, W1) <==> Negative(r)) && (IsZero(r, W1) <==> r == 0) && Lo(a, W1) == a && Lo(b, W1) == b && Lo(r, W1) == r
  {
  }

  // ---- packed decimal ----

  predicate IsPacked(b: Byte) {
    b / 16 <= 9 && b % 16 <= 9
  }

  function Dec(b: Byte): nat {
    10 * (b / 16) + b % 16
  }

  /** The flags an ADC or SBB of bytes leaves for the adjustment. */
  function AfterAdc(a: Byte, b: Byte, cin: bool): Ax {
    var r: Byte := (a + b + Num(cin)) % 256;
    Ax(r, 0, AdcFlags(a, b, cin, r, W1))
  }

  function AfterSbb(a: Byte, b: Byte, cin: bool): Ax {
    var r: Byte := (a - b - Num(cin)) % 256;
    Ax(r, 0, SbbFlags(a, b, cin, r, W1))
  }

  /** A byte by its digits. */
  lemma Digits(h: nat, l: nat)
    requires h < 16 && l < 16
    ensures (16 * h + l) / 16 == h && (16 * h + l) % 16 == l
  {
  }

  lemma HalfCarryDigits(ha: nat, la: nat, hb: nat, lb: nat, hr: nat, lr: nat)
    requires ha < 16 && la < 16 && hb < 16 && lb < 16 && hr < 16 && lr < 16
    ensures HalfCarry(Lo(16 * ha + la, W1), Lo(16 * hb + lb, W1), Lo(16 * hr + lr, W1)) == ((ha + hb + hr) % 2 == 1)
  {
    hide Lo;
    LoOfFits(16 * ha + la, W1);
    LoOfFits(16 * hb + lb, W1);
    LoOfFits(16 * hr + lr, W1);
    Digits(ha, la);
    Digits(hb, lb);
    Digits(hr, lr);
  }

  lemma ByDigits(b: Byte)
    ensures b == 16 * (b / 16) + b % 16 && b / 16 < 16
  {
  }

  lemma AdcByDigits(ha: nat, la: nat, hb: nat, lb: nat, cin: bool)
    requires ha <= 9 && la <= 9 && hb <= 9 && lb <= 9
    ensures var v := AfterAdc(16 * ha + la, 16 * hb + lb, cin);
      var high, low := ha + hb, la + lb + Num(cin);
      && v.s.af == (low >= 16) && v.s.cf == (16 * high + low >= 256)
      && v.al == 16 * high + low - (if v.s.cf then 256 else 0)
  {
    hide EvenParity, AddOverflow, Msb, IsZero, HalfCarry, Lo;
    var high, low := ha + hb, la + lb + Num(cin);
    var wraps := 16 * high + low >= 256;
    var hr, lr := high + (if low >= 16 then 1 else 0) - (if wraps then 16 else 0), low - (if low >= 16 then 16 else 0);
    ModUnique(16 * ha + la + (16 * hb + lb) + Num(cin), 256, if wraps then 1 else 0, 16 * hr + lr);
    HalfCarryDigits(ha, la, hb, lb, hr, lr);
    LoOfFits(16 * ha + la, W1);
    LoOfFits(16 * hb + lb, W1);
  }

  /** The binary sum of two packed bytes, by digits: the low digit's carry is AF. */
  lemma AdcDigits(a: Byte, b: Byte, cin: bool)
    requires IsPacked(a) && IsPacked(b)
    ensures var low := a % 16 + b % 16 + Num(cin);
      var high := a / 16 + b / 16;
      var v := AfterAdc(a, b, cin);
      && v.s.af == (low >= 16) && v.s.cf == (16 * high + low >= 256)
      && v.al == 16 * high + low - (if v.s.cf then 256 else 0)
  {
    hide AfterAdc;
    ByDigits(a);
    ByDigits(b);
    AdcByDigits(a / 16, a % 16, b / 16, b % 16, cin);
  }

  /** A binary sum of packed digits, adjusted: the decimal sum's digits, and its carry. */
  lemma DaaDigits(v: Ax, high: nat, low: nat)
    requires high <= 18 && low <= 19
    requires v.s.af == (low >= 16) && v.s.cf == (16 * high + low >= 256)
    requires v.al == 16 * high + low - (if v.s.cf then 256 else 0)
    ensures var out := Decimal(v, false);
      var h := high + (if low >= 10 then 1 else 0);
      && out.s.cf == (h >= 10)
      && out.al == 16 * (if h >= 10 then h - 10 else h) + (if low >= 10 then low - 10 else low)
  {
    hide LastOf, Moved, LowAdjusts, HighAdjusts, EvenParity, Negative;
    DaaTests(v, high, low);
    MovedUp(v.al, 6);
    MovedUp(if low >= 10 then Moved(v.al, 6, false) else v.al, 0x60);
  }

  lemma DaaTests(v: Ax, high: nat, low: nat)
    requires high <= 18 && low <= 19
    requires v.s.af == (low >= 16) && v.s.cf == (16 * high + low >= 256)
    requires v.al == 16 * high + low - (if v.s.cf then 256 else 0)
    ensures LowAdjusts(v) == (low >= 10) && HighAdjusts(v) == (high + (if low >= 10 then 1 else 0) >= 10)
  {
    var hr, lr := high + (if low >= 16 then 1 else 0) - (if v.s.cf then 16 else 0), low - (if low >= 16 then 16 else 0);
    Digits(hr, lr);
    assert v.al == 16 * hr + lr;
  }

  lemma MovedUp(al: Byte, step: Byte)
    ensures Moved(al, step, false) == al + step - (if al + step > 255 then 256 else 0)
    ensures Moved(al, step, true) == al - step + (if al < step then 256 else 0)
  {
  }

  /** ADC then DAA adds packed-decimal bytes: digits, and CF the decimal carry. */
  lemma DaaIsExact(a: Byte, b: Byte, cin: bool)
    requires IsPacked(a) && IsPacked(b)
    ensures var out := Decimal(AfterAdc(a, b, cin), false);
      IsPacked(out.al) && Dec(out.al) + (if out.s.cf then 100 else 0) == Dec(a) + Dec(b) + Num(cin)
  {
    hide Decimal, AfterAdc;
    AdcDigits(a, b, cin);
    var low, high := a % 16 + b % 16 + Num(cin), a / 16 + b / 16;
    DaaDigits(AfterAdc(a, b, cin), high, low);
    var h := high + (if low >= 10 then 1 else 0);
    Digits(if h >= 10 then h - 10 else h, if low >= 10 then low - 10 else low);
  }

  lemma SbbByDigits(ha: nat, la: nat, hb: nat, lb: nat, cin: bool)
    requires ha <= 9 && la <= 9 && hb <= 9 && lb <= 9
    ensures var v := AfterSbb(16 * ha + la, 16 * hb + lb, cin);
      var high, low := ha - hb, la - lb - Num(cin);
      && v.s.af == (low < 0) && v.s.cf == (16 * high + low < 0)
      && v.al == 16 * high + low + (if v.s.cf then 256 else 0)
  {
    hide EvenParity, SubOverflow, Msb, IsZero, HalfCarry, Lo;
    var high, low := ha - hb, la - lb - Num(cin);
    var wraps := 16 * high + low < 0;
    var hr, lr := high - (if low < 0 then 1 else 0) + (if wraps then 16 else 0), low + (if low < 0 then 16 else 0);
    ModUnique(16 * ha + la - (16 * hb + lb) - Num(cin), 256, if wraps then -1 else 0, 16 * hr + lr);
    HalfCarryDigits(ha, la, hb, lb, hr, lr);
    LoOfFits(16 * ha + la, W1);
    LoOfFits(16 * hb + lb, W1);
  }

  lemma SbbDigits(a: Byte, b: Byte, cin: bool)
    requires IsPacked(a) && IsPacked(b)
    ensures var low := a % 16 - b % 16 - Num(cin);
      var high := a / 16 - b / 16;
      var v := AfterSbb(a, b, cin);
      && v.s.af == (low < 0) && v.s.cf == (16 * high + low < 0)
      && v.al == 16 * high + low + (if v.s.cf then 256 else 0)
  {
    hide AfterSbb;
    ByDigits(a);
    ByDigits(b);
    SbbByDigits(a / 16, a % 16, b / 16, b % 16, cin);
  }

  lemma DasDigits(v: Ax, high: int, low: int)
    requires -9 <= high <= 9 && -10 <= low <= 9
    requires v.s.af == (low < 0) && v.s.cf == (16 * high + low < 0)
    requires v.al == 16 * high + low + (if v.s.cf then 256 else 0)
    ensures var out := Decimal(v, true);
      var h := high - (if low < 0 then 1 else 0);
      && out.s.cf == (h < 0)
      && out.al == 16 * (if h < 0 then h + 10 else h) + (if low < 0 then low + 10 else low)
  {
    var hr, lr := high - (if low < 0 then 1 else 0) + (if v.s.cf then 16 else 0), low + (if low < 0 then 16 else 0);
    Digits(hr, lr);
    assert v.al == 16 * hr + lr;
    assert LowAdjusts(v) == (low < 0);
    assert HighAdjusts(v) == (high - (if low < 0 then 1 else 0) < 0);
    MovedUp(v.al, 6);
    MovedUp(if low < 0 then Moved(v.al, 6, true) else v.al, 0x60);
    hide WithResult, LastOf, Moved, LowAdjusts, HighAdjusts;
  }

  /** SBB then DAS subtracts packed-decimal bytes: digits, and CF the decimal borrow. */
  lemma DasIsExact(a: Byte, b: Byte, cin: bool)
    requires IsPacked(a) && IsPacked(b)
    ensures var out := Decimal(AfterSbb(a, b, cin), true);
      IsPacked(out.al) && Dec(out.al) - (if out.s.cf then 100 else 0) == Dec(a) - Dec(b) - Num(cin)
  {
    hide Decimal, AfterSbb;
    SbbDigits(a, b, cin);
    var low, high := a % 16 - b % 16 - Num(cin), a / 16 - b / 16;
    DasDigits(AfterSbb(a, b, cin), high, low);
    var h := high - (if low < 0 then 1 else 0);
    Digits(if h < 0 then h + 10 else h, if low < 0 then low + 10 else low);
  }

  // ---- strings of packed decimal ----

  /** The number little-endian packed bytes stand for. */
  function DecValue(s: seq<Byte>): int {
    if s == [] then 0 else Dec(s[0]) + Times(100, DecValue(s[1..]))
  }

  function Hundreds(n: nat): int {
    if n == 0 then 1 else Times(100, Hundreds(n - 1))
  }

  /** The byte's ADC or SBB on a flag state, then the adjustment of its result, the flags stored explicitly. */
  function DecimalByte(subtract: bool, a: Byte, b: Byte, f: Tuple): Out {
    var out := Binary(if subtract then SBB else ADC, a, b, W1, f);
    var v := Decimal(Ax(Lo(out.r, W1), 0, Derive(out.f)), subtract);
    Out(v.al, RecordExplicit(WordOf(v.s)))
  }

  datatype DecimalString = DecimalString(r: seq<Byte>, f: Tuple)

  function DecimalChain(subtract: bool, a: seq<Byte>, b: seq<Byte>, f: Tuple, between: seq<seq<Between>>): DecimalString
    requires |a| == |b| == |between|
  {
    if a == [] then DecimalString([], f)
    else
      var out := DecimalByte(subtract, a[0], b[0], f);
      var rest := DecimalChain(subtract, a[1..], b[1..], Skip(out.f, between[0]), between[1..]);
      DecimalString([out.r % 256] + rest.r, rest.f)
  }

  ghost predicate AllPacked(a: seq<Byte>, b: seq<Byte>, between: seq<seq<Between>>) {
    && |a| == |b| == |between|
    && (forall i | 0 <= i < |a| :: IsPacked(a[i]) && IsPacked(b[i]))
    && (forall i, j | 0 <= i < |between| && 0 <= j < |between[i]| :: KeepsCarry(between[i][j]))
  }

  /** One byte's exactness, in digits. */
  predicate ExactByte(subtract: bool, a: Byte, b: Byte, r: Byte, c0: bool, c1: bool) {
    if subtract then Dec(r) - (if c1 then 100 else 0) == Dec(a) - Dec(b) - Num(c0)
    else Dec(r) + (if c1 then 100 else 0) == Dec(a) + Dec(b) + Num(c0)
  }

  lemma ByteExact(subtract: bool, a: Byte, b: Byte, f: Tuple)
    requires IsPacked(a) && IsPacked(b)
    ensures var out := DecimalByte(subtract, a, b, f);
      out.r < 256 && IsPacked(out.r) && ExactByte(subtract, a, b, out.r, Cf(f), Cf(out.f))
  {
    var cin := Cf(f);
    ByteIs(subtract, a, b, f);
    hide DecimalByte, Cf, Dec, IsPacked, WordOf, Decimal, AfterAdc, AfterSbb;
    if subtract {
      DasIsExact(a, b, cin);
      ExplicitCarry(Decimal(AfterSbb(a, b, cin), true).s);
    } else {
      DaaIsExact(a, b, cin);
      ExplicitCarry(Decimal(AfterAdc(a, b, cin), false).s);
    }
  }

  lemma LoByte(v: int)
    ensures Lo(v, W1) == v % 256
  {
  }

  lemma AdcByte(a: Byte, b: Byte, f: Tuple)
    ensures var v := AfterAdc(a, b, Cf(f));
      Binary(ADC, a, b, W1, f) == Out(v.al, RecordExplicit(WordOf(v.s)))
  {
    hide Cf, AdcFlags, WordOf, HasCf, Lo, Plain, Shift, Rotate, RotateThrough;
    LoOfFits(a, W1);
    LoOfFits(b, W1);
    LoByte(a + b + Num(Cf(f)));
  }

  lemma SbbByte(a: Byte, b: Byte, f: Tuple)
    ensures var v := AfterSbb(a, b, Cf(f));
      Binary(SBB, a, b, W1, f) == Out(v.al, RecordExplicit(WordOf(v.s)))
  {
    hide Cf, SbbFlags, AdcFlags, WordOf, HasCf, Lo, Plain, Shift, Rotate, RotateThrough, RecordExplicit;
    LoOfFits(a, W1);
    LoOfFits(b, W1);
    LoByte(a - b - Num(Cf(f)));
  }

  lemma ExplicitFlags(s: Six)
    ensures Derive(RecordExplicit(WordOf(s))) == s
  {
    WordRoundTrip(s);
  }

  lemma ByteIs(subtract: bool, a: Byte, b: Byte, f: Tuple)
    ensures var v := Decimal(if subtract then AfterSbb(a, b, Cf(f)) else AfterAdc(a, b, Cf(f)), subtract);
      DecimalByte(subtract, a, b, f) == Out(v.al, RecordExplicit(WordOf(v.s)))
  {
    var v := if subtract then AfterSbb(a, b, Cf(f)) else AfterAdc(a, b, Cf(f));
    assert v.ah == 0;
    LoOfFits(v.al, W1);
    ExplicitFlags(v.s);
    AdcByte(a, b, f);
    SbbByte(a, b, f);
    hide Cf, Decimal, AfterAdc, AfterSbb, WordOf, Derive, Lo, Binary, RecordExplicit;
  }

  lemma DecimalStep(subtract: bool, a: seq<Byte>, b: seq<Byte>, f: Tuple, between: seq<seq<Between>>)
    requires |a| == |b| == |between| && a != []
    ensures var out := DecimalByte(subtract, a[0], b[0], f);
      var rest := DecimalChain(subtract, a[1..], b[1..], Skip(out.f, between[0]), between[1..]);
      out.r < 256 ==> DecimalChain(subtract, a, b, f, between) == DecimalString([out.r] + rest.r, rest.f)
  {
    hide DecimalByte, Skip;
  }

  lemma DecSteps(a: seq<Byte>, r: Byte, rest: seq<Byte>)
    requires a != []
    ensures DecValue(a) == Dec(a[0]) + Times(100, DecValue(a[1..])) && Hundreds(|a|) == Times(100, Hundreds(|a| - 1))
    ensures DecValue([r] + rest) == Dec(r) + Times(100, DecValue(rest))
  {
    hide Dec;
    assert ([r] + rest)[1..] == rest;
  }

  lemma PackedTail(a: seq<Byte>, b: seq<Byte>, between: seq<seq<Between>>)
    requires AllPacked(a, b, between) && a != []
    ensures AllPacked(a[1..], b[1..], between[1..]) && IsPacked(a[0]) && IsPacked(b[0])
    ensures forall j | 0 <= j < |between[0]| :: KeepsCarry(between[0][j])
  {
    hide IsPacked, KeepsCarry;
  }

  /** `r` with the carry or borrow `cn` out of it is the exact result on `a` and `b` with `c0` into it. */
  predicate ExactDecimal(subtract: bool, a: seq<Byte>, b: seq<Byte>, r: seq<Byte>, c0: bool, cn: bool) {
    && |r| == |a| == |b|
    && if subtract then DecValue(r) - (if cn then Hundreds(|a|) else 0) == DecValue(a) - DecValue(b) - Num(c0)
       else DecValue(r) + (if cn then Hundreds(|a|) else 0) == DecValue(a) + DecValue(b) + Num(c0)
  }

  /** Packed-decimal strings of any length: the exact decimal sum or difference, CF the final carry or borrow. */
  lemma {:induction false} DecimalChainIsExact(subtract: bool, a: seq<Byte>, b: seq<Byte>, f: Tuple, between: seq<seq<Between>>)
    requires AllPacked(a, b, between)
    ensures var out := DecimalChain(subtract, a, b, f, between); ExactDecimal(subtract, a, b, out.r, Cf(f), Cf(out.f))
    decreases |a|
  {
    if a != [] {
      PackedTail(a, b, between);
      hide AllPacked, DecimalByte, Skip, Cf, IsPacked, KeepsCarry, DecimalChain, ExactDecimal, ExactByte;
      DecimalStep(subtract, a, b, f, between);
      var out := DecimalByte(subtract, a[0], b[0], f);
      var g := Skip(out.f, between[0]);
      ByteExact(subtract, a[0], b[0], f);
      SkipKeepsCarry(out.f, between[0]);
      var rest := DecimalChain(subtract, a[1..], b[1..], g, between[1..]);
      DecimalChainIsExact(subtract, a[1..], b[1..], g, between[1..]);
      var r: Byte := out.r;
      Joined(subtract, a, b, r, rest.r, Cf(f), Cf(g), Cf(rest.f));
    }
  }

  /** One more byte below a string already exact. */
  lemma Joined(subtract: bool, a: seq<Byte>, b: seq<Byte>, r: Byte, rest: seq<Byte>, c0: bool, c1: bool, cn: bool)
    requires |a| == |b| && a != [] && ExactByte(subtract, a[0], b[0], r, c0, c1)
    requires ExactDecimal(subtract, a[1..], b[1..], rest, c1, cn)
    ensures ExactDecimal(subtract, a, b, [r] + rest, c0, cn)
  {
    DecSteps(a, r, rest);
    DecSteps(b, r, rest);
    hide DecValue, Hundreds, Dec, Times;
    if subtract {
      Borrowed(100, Dec(r), DecValue(rest), Dec(a[0]), Dec(b[0]), DecValue(a[1..]), DecValue(b[1..]), Num(c0), c1, cn, Hundreds(|a| - 1));
    } else {
      Carried(100, Dec(r), DecValue(rest), Dec(a[0]), Dec(b[0]), DecValue(a[1..]), DecValue(b[1..]), Num(c0), c1, cn, Hundreds(|a| - 1));
    }
  }

  // ---- unpacked digits ----

  lemma SmallDigits(a: Byte)
    requires a <= 9
    ensures IsPacked(a) && a / 16 == 0 && a % 16 == a
  {
  }

  /** AAA after adding two digits: the sum's low digit in AL, its carry added to AH. */
  lemma AaaIsExact(a: Byte, b: Byte, ah: Byte, cin: bool)
    requires a <= 9 && b <= 9
    ensures var out := Unpacked(AfterAdc(a, b, cin).(ah := ah), false);
      var sum := a + b + Num(cin);
      out.al == (if sum >= 10 then sum - 10 else sum) && out.ah == (ah + Num(sum >= 10)) % 256 && out.s.cf == (sum >= 10)
  {
    SmallDigits(a);
    SmallDigits(b);
    AdcDigits(a, b, cin);
    hide AfterAdc, IsPacked, Unpacked;
    UnpackedUp(AfterAdc(a, b, cin).(ah := ah));
  }

  lemma AxParts(al: nat, ah: nat)
    requires al < 256
    ensures (al + 256 * ah) / 256 == ah && (al + 256 * ah) % 256 == al
  {
    ModUnique(al + 256 * ah, 256, ah, al);
  }

  lemma AdjustedAx(ax: nat)
    ensures ax + 6 < 0x1_0000 ==> AdjustAx(ax, false) == ax + 6
    ensures 6 <= ax < 0x1_0000 ==> AdjustAx(ax, true) == ax - 6
  {
  }

  lemma UnpackedAdjusts(v: Ax, subtract: bool, al: nat, ah: nat)
    requires LowAdjusts(v) && al < 256 && AdjustAx(v.al + 256 * v.ah, subtract) == al + 256 * ah
    ensures var out := Unpacked(v, subtract);
      out.al == al % 16 && out.ah == (if subtract then (ah + 255) % 256 else (ah + 1) % 256) && out.s.cf
  {
    hide EvenParity, Negative, AdjustAx, LowAdjusts;
    AxParts(al, ah);
  }

  lemma UnpackedKeeps(v: Ax, subtract: bool)
    requires !LowAdjusts(v)
    ensures var out := Unpacked(v, subtract);
      out.al == v.al % 16 && out.ah == v.ah && !out.s.cf
  {
    hide EvenParity, Negative, AdjustAx, LowAdjusts;
    AxParts(v.al, v.ah);
  }

  lemma LowOfSum(v: Ax)
    requires v.al <= 19 && v.s.af == (v.al >= 16)
    ensures LowAdjusts(v) == (v.al >= 10)
  {
  }

  lemma LowOfDifference(v: Ax, difference: int)
    requires -10 <= difference <= 9 && v.s.af == (difference < 0)
    requires v.al == difference + (if difference < 0 then 256 else 0)
    ensures LowAdjusts(v) == (difference < 0)
  {
  }

  lemma UnpackedUp(v: Ax)
    requires v.al <= 19 && v.s.af == (v.al >= 16)
    ensures var out := Unpacked(v, false);
      && out.al == (if v.al >= 10 then v.al - 10 else v.al)
      && out.ah == (v.ah + Num(v.al >= 10)) % 256 && out.s.cf == (v.al >= 10)
  {
    hide Unpacked, AdjustAx, LowAdjusts;
    LowOfSum(v);
    if v.al >= 10 {
      AdjustedAx(v.al + 256 * v.ah);
      UnpackedAdjusts(v, false, v.al + 6, v.ah);
      ModUnique(v.al + 6, 16, 1, v.al - 10);
    } else {
      UnpackedKeeps(v, false);
      ModUnique(v.al, 16, 0, v.al);
      SmallMod(v.ah);
    }
  }

  lemma UnpackedDown(v: Ax, difference: int)
    requires -10 <= difference <= 9 && v.s.af == (difference < 0)
    requires v.al == difference + (if difference < 0 then 256 else 0)
    ensures var out := Unpacked(v, true);
      && out.al == difference + (if difference < 0 then 10 else 0) && out.s.cf == (difference < 0)
      && out.ah == (v.ah - Num(difference < 0)) % 256
  {
    hide Unpacked, AdjustAx, LowAdjusts;
    LowOfDifference(v, difference);
    if difference < 0 {
      AdjustedAx(v.al + 256 * v.ah);
      UnpackedAdjusts(v, true, v.al - 6, v.ah);
      ModUnique(v.al - 6, 16, 15, difference + 10);
      BorrowFrom(v.ah);
    } else {
      UnpackedKeeps(v, true);
      ModUnique(v.al, 16, 0, v.al);
      SmallMod(v.ah);
    }
  }

  /** AAS after subtracting two digits: the difference modulo ten, its borrow taken from AH. */
  lemma AasIsExact(a: Byte, b: Byte, ah: Byte, cin: bool)
    requires a <= 9 && b <= 9
    ensures var out := Unpacked(AfterSbb(a, b, cin).(ah := ah), true);
      var difference := a - b - Num(cin);
      && out.al == difference + (if difference < 0 then 10 else 0) && out.s.cf == (difference < 0)
      && out.ah == (ah - Num(difference < 0)) % 256
  {
    SmallDigits(a);
    SmallDigits(b);
    SbbDigits(a, b, cin);
    hide AfterSbb, IsPacked, Unpacked;
    UnpackedDown(AfterSbb(a, b, cin).(ah := ah), a - b - Num(cin));
  }

  lemma BorrowFrom(ah: Byte)
    ensures (ah + 255) % 256 == (ah - 1) % 256
  {
  }

  /** AAD puts back together what AAM took apart, for every divisor AAM accepts. */
  lemma AadUndoesAam(v: Ax, imm: Byte)
    requires imm != 0
    ensures Aam(v, imm).Adjusted? && Aad(Aam(v, imm).v, imm).al == v.al && !Aad(Aam(v, imm).v, imm).s.cf
  {
    Shrinks(v.al, imm);
    var q, m := v.al / imm, v.al % imm;
    assert m + q * imm == v.al;
    AadSums(Aam(v, imm).v, imm, v.al);
  }

  lemma AadSums(v: Ax, imm: Byte, whole: Byte)
    requires v.al + v.ah * imm == whole
    ensures Aad(v, imm).al == whole && !Aad(v, imm).s.cf
  {
    var p := v.ah * imm;
    SmallMod(p);
    SmallMod(whole);
    hide EvenParity, Negative;
  }

  lemma SmallMod(v: int)
    requires 0 <= v < 256
    ensures v % 256 == v
  {
  }
}
