/** The same conditions as WebAssembly stack code, and their agreement with the ARM64 lowering. */
module WasmCond {
  import opened Words
  import opened Flags
  import opened Cond
  import opened Shifts
  import A64
  import opened A64Cond

  datatype I32 = Shl | And | Or | Xor | Popcnt | Eqz | Eq | Ne | LtS | LtU | GtS | GtU | LeS | LeU | GeS | GeU

  /** `Load` and `LoadCarry` stand for pushing the CPU's address and loading a field of its flags. */
  datatype Instr = I32Const(v: Word) | Load(field: A64.FlagField) | LoadCarry | Op(op: I32)

  // ---- the stack machine ----

  /** The set bits among the low n. */
  function Ones(v: nat, n: nat): (r: nat)
    ensures r <= n
  {
    if n == 0 then 0 else v % 2 + Ones(v / 2, n - 1)
  }

  predicate IsUnary(op: I32) {
    op == Popcnt || op == Eqz
  }

  function Apply1(op: I32, x: Word): Word
    requires IsUnary(op)
  {
    if op == Popcnt then Ones(x, 32) else Num(x == 0)
  }

  function Apply2(op: I32, x: Word, y: Word): Word
    requires !IsUnary(op)
  {
    match op
    case Shl => A64.HostResult(A64.LSLW, x, y)
    case And => Words.And(x, y)
    case Or => Words.Or(x, y)
    case Xor => Words.Xor(x, y)
    case Eq => Num(x == y)
    case Ne => Num(x != y)
    case LtS => Num(Signed(x, W4) < Signed(y, W4))
    case LtU => Num(x < y)
    case GtS => Num(Signed(x, W4) > Signed(y, W4))
    case GtU => Num(x > y)
    case LeS => Num(Signed(x, W4) <= Signed(y, W4))
    case LeU => Num(x <= y)
    case GeS => Num(Signed(x, W4) >= Signed(y, W4))
    case GeU => Num(x >= y)
  }

  /** A stack, or code that validation rejects for taking what is not there. */
  datatype Stack = Invalid | Stack(s: seq<Word>)

  function Execute(i: Instr, s: seq<Word>, f: Tuple): Stack {
    var n := |s|;
    match i
    case I32Const(v) => Stack(s + [v])
    case Load(field) => Stack(s + [A64.Field(f, field)])
    case LoadCarry => Stack(s + [f.carryIn % 0x100])
    case Op(op) =>
      if IsUnary(op) then (if n < 1 then Invalid else Stack(s[..n - 1] + [Apply1(op, s[n - 1])]))
      else if n < 2 then Invalid
      else Stack(s[..n - 2] + [Apply2(op, s[n - 2], s[n - 1])])
  }

  function Eval(code: seq<Instr>, s: seq<Word>, f: Tuple): Stack {
    if code == [] then Stack(s)
    else match Execute(code[0], s, f)
      case Invalid => Invalid
      case Stack(s') => Eval(code[1..], s', f)
  }

  // ---- the emitted code ----

  type Code = seq<Instr>

  function PushNorm(field: A64.FlagField, w: Width): Code {
    if AlignShift(w) != 0 then [Load(field), I32Const(AlignShift(w)), Op(I32.Shl)] else [Load(field)]
  }

  function PushA(w: Width): Code { PushNorm(A64.FA, w) }
  function PushB(w: Width): Code { PushNorm(A64.FB, w) }
  function PushR(w: Width): Code { PushNorm(A64.FR, w) }

  function RAgainstZero(w: Width, op: I32): Code {
    PushR(w) + [I32Const(0)] + [Op(op)]
  }

  function RIsZero(w: Width): Code {
    PushR(w) + [Op(Eqz)]
  }

  function AAgainstB(w: Width, op: I32): Code {
    PushA(w) + PushB(w) + [Op(op)]
  }

  function AAgainst(w: Width, v: Word, op: I32): Code {
    PushA(w) + [I32Const(v)] + [Op(op)]
  }

  function Parity(): Code {
    [Load(A64.FR)] + [I32Const(0xFF)] + [Op(And)] + [Op(Popcnt)] + [I32Const(1)] + [Op(And)]
  }

  function SubOverflowBits(w: Width): Code {
    (PushA(w) + PushB(w) + [Op(Xor)]) + (PushA(w) + PushR(w) + [Op(Xor)]) + [Op(And)]
  }

  function AddOverflowBits(w: Width): Code {
    (PushA(w) + PushR(w) + [Op(Xor)]) + (PushB(w) + PushR(w) + [Op(Xor)]) + [Op(And)]
  }

  function Signedly(bits: Code, op: I32): Code {
    bits + [I32Const(0)] + [Op(op)]
  }

  function AddLess(w: Width): Code {
    Signedly(PushR(w) + AddOverflowBits(w) + [Op(Xor)], LtS)
  }

  function AddCarry(w: Width, op: I32): Code {
    PushR(w) + PushA(w) + [Op(op)]
  }

  function EmitSub(cc: Cc, w: Width): Code {
    match cc
    case O => Signedly(SubOverflowBits(w), LtS)
    case NO => Signedly(SubOverflowBits(w), GeS)
    case B => AAgainstB(w, LtU)
    case NB => AAgainstB(w, GeU)
    case Z => RIsZero(w)
    case NZ => RAgainstZero(w, Ne)
    case BE => AAgainstB(w, LeU)
    case A => AAgainstB(w, GtU)
    case S => RAgainstZero(w, LtS)
    case NS => RAgainstZero(w, GeS)
    case P => Parity() + [Op(Eqz)]
    case NP => Parity()
    case L => AAgainstB(w, LtS)
    case GE => AAgainstB(w, GeS)
    case LE => AAgainstB(w, LeS)
    case G => AAgainstB(w, GtS)
  }

  function EmitLogic(cc: Cc, w: Width): Code {
    match cc
    case O => [I32Const(0)]
    case B => [I32Const(0)]
    case NO => [I32Const(1)]
    case NB => [I32Const(1)]
    case Z => RIsZero(w)
    case BE => RIsZero(w)
    case NZ => RAgainstZero(w, Ne)
    case A => RAgainstZero(w, Ne)
    case S => RAgainstZero(w, LtS)
    case L => RAgainstZero(w, LtS)
    case NS => RAgainstZero(w, GeS)
    case GE => RAgainstZero(w, GeS)
    case P => Parity() + [Op(Eqz)]
    case NP => Parity()
    case LE => RAgainstZero(w, LeS)
    case G => RAgainstZero(w, GtS)
  }

  function EmitAdd(cc: Cc, w: Width): Code {
    match cc
    case O => Signedly(AddOverflowBits(w), LtS)
    case NO => Signedly(AddOverflowBits(w), GeS)
    case B => AddCarry(w, LtU)
    case NB => AddCarry(w, GeU)
    case BE => AddCarry(w, LtU) + RIsZero(w) + [Op(Or)]
    case A => AddCarry(w, GeU) + RAgainstZero(w, Ne) + [Op(And)]
    case L => AddLess(w)
    case GE => AddLess(w) + [Op(Eqz)]
    case LE => AddLess(w) + RIsZero(w) + [Op(Or)]
    case G => (AddLess(w) + [Op(Eqz)]) + RAgainstZero(w, Ne) + [Op(And)]
    case _ => EmitSub(cc, w)
  }

  /** One at the top of the word, and its negation. */
  function One(w: Width): Word {
    match w case W1 => 0x100_0000 case W2 => 0x1_0000 case W4 => 1
  }

  function MinusOne(w: Width): Word {
    0x1_0000_0000 - One(w)
  }

  function EmitIncDec(cc: Cc, w: Width, dec: bool): Code {
    match cc
    case O => (if dec then PushA(w) else PushR(w)) + [I32Const(0x8000_0000)] + [Op(Eq)]
    case NO => (if dec then PushA(w) else PushR(w)) + [I32Const(0x8000_0000)] + [Op(Ne)]
    case B => [LoadCarry]
    case NB => [LoadCarry] + [Op(Eqz)]
    case BE => [LoadCarry] + RIsZero(w) + [Op(Or)]
    case A => ([LoadCarry] + [Op(Eqz)]) + RAgainstZero(w, Ne) + [Op(And)]
    case L => if dec then AAgainst(w, 0, LeS) else AAgainst(w, MinusOne(w), LtS)
    case GE => if dec then AAgainst(w, 0, GtS) else AAgainst(w, MinusOne(w), GeS)
    case LE => AAgainst(w, if dec then One(w) else MinusOne(w), LeS)
    case G => AAgainst(w, if dec then One(w) else MinusOne(w), GtS)
    case _ => EmitSub(cc, w)
  }

  /** The kinds whose conditions are inlined; every other asks x86p_cond. */
  predicate IsInline(k: Kind) {
    k == Sub || k == Logic || k == Add || k == Inc || k == Dec
  }

  function CondCode(k: Kind, cc: Cc, w: Width): Code
    requires IsInline(k)
  {
    match k
    case Sub => EmitSub(cc, w)
    case Logic => EmitLogic(cc, w)
    case Add => EmitAdd(cc, w)
    case _ => EmitIncDec(cc, w, k == Dec)
  }

  // ---- code that pushes a value ----

  /** From any stack, the code runs and leaves that stack with one more value. */
  ghost predicate Pushes(code: Code, v: Word, f: Tuple) {
    forall s: seq<Word> :: Eval(code, s, f) == Stack(s + [v])
  }

  lemma {:induction false} EvalAppend(p: Code, q: Code, s: seq<Word>, f: Tuple)
    ensures Eval(p + q, s, f) == match Eval(p, s, f) case Invalid => Invalid case Stack(s') => Eval(q, s', f)
  {
    hide Execute;
    if p == [] {
      assert p + q == q;
    } else {
      assert (p + q)[0] == p[0] && (p + q)[1..] == p[1..] + q;
      match Execute(p[0], s, f) {
        case Invalid =>
        case Stack(s') => EvalAppend(p[1..], q, s', f);
      }
    }
  }

  lemma EvalOne(i: Instr, s: seq<Word>, f: Tuple)
    ensures Eval([i], s, f) == Execute(i, s, f)
  {
    hide Execute;
    match Execute(i, s, f) {
      case Invalid =>
      case Stack(s') => assert [i][1..] == [] && Eval([], s', f) == Stack(s');
    }
  }

  lemma PushesConst(v: Word, f: Tuple)
    ensures Pushes([I32Const(v)], v, f)
  {
    forall s: seq<Word> ensures Eval([I32Const(v)], s, f) == Stack(s + [v]) {
      EvalOne(I32Const(v), s, f);
    }
  }

  lemma PushesLoad(field: A64.FlagField, f: Tuple)
    ensures Pushes([Load(field)], A64.Field(f, field), f)
  {
    hide A64.Field;
    forall s: seq<Word> ensures Eval([Load(field)], s, f) == Stack(s + [A64.Field(f, field)]) {
      EvalOne(Load(field), s, f);
    }
  }

  lemma PushesCarry(f: Tuple)
    requires IsBit(f.carryIn)
    ensures Pushes([LoadCarry], f.carryIn, f)
  {
    forall s: seq<Word> ensures Eval([LoadCarry], s, f) == Stack(s + [f.carryIn]) {
      EvalOne(LoadCarry, s, f);
    }
  }

  lemma PushesUnary(p: Code, x: Word, op: I32, f: Tuple)
    requires Pushes(p, x, f) && IsUnary(op)
    ensures Pushes(p + [Op(op)], Apply1(op, x), f)
  {
    hide Apply1;
    forall s: seq<Word> ensures Eval(p + [Op(op)], s, f) == Stack(s + [Apply1(op, x)]) {
      EvalAppend(p, [Op(op)], s, f);
      EvalOne(Op(op), s + [x], f);
      assert (s + [x])[..|s|] == s;
    }
  }

  lemma PushesBinary(p: Code, x: Word, q: Code, y: Word, op: I32, f: Tuple)
    requires Pushes(p, x, f) && Pushes(q, y, f) && !IsUnary(op)
    ensures Pushes(p + q + [Op(op)], Apply2(op, x, y), f)
  {
    hide Apply2;
    forall s: seq<Word> ensures Eval(p + q + [Op(op)], s, f) == Stack(s + [Apply2(op, x, y)]) {
      EvalAppend(p + q, [Op(op)], s, f);
      EvalAppend(p, q, s, f);
      EvalOne(Op(op), s + [x] + [y], f);
      assert (s + [x] + [y])[..|s|] == s;
    }
  }

  lemma PushesNorm(field: A64.FlagField, w: Width, f: Tuple)
    requires Fits(A64.Field(f, field), w)
    ensures Pushes(PushNorm(field, w), Up(A64.Field(f, field), w), f)
    ensures 0 <= Up(A64.Field(f, field), w) < 0x1_0000_0000
  {
    var v := A64.Field(f, field);
    AlignIsUp(v, w);
    PushesLoad(field, f);
    hide Pushes, Up, Align;
    if AlignShift(w) != 0 {
      PushesConst(AlignShift(w), f);
      PushesBinary([Load(field)], v, [I32Const(AlignShift(w))], AlignShift(w), I32.Shl, f);
      assert PushNorm(field, w) == [Load(field)] + [I32Const(AlignShift(w))] + [Op(I32.Shl)];
      AlignIsApplied(v, w);
    } else {
      UpNothing(v);
    }
  }

  lemma AlignIsApplied(v: Word, w: Width)
    ensures Apply2(I32.Shl, v, AlignShift(w)) == Align(v, w)
  {
  }

  lemma UpNothing(v: Word)
    ensures Up(v, W4) == v
  {
  }

  // ---- values ----

  /** The three fields as the code sees them. */
  datatype Norm = Norm(a: Word, b: Word, r: Word)

  predicate Normal(n: Norm, f: Tuple) {
    n.a == Up(f.a, f.w) && n.b == Up(f.b, f.w) && n.r == Up(f.r, f.w)
  }

  lemma PushFields(f: Tuple) returns (n: Norm)
    requires Fits(f.a, f.w) && Fits(f.b, f.w) && Fits(f.r, f.w)
    ensures Normal(n, f)
    ensures Pushes(PushA(f.w), n.a, f) && Pushes(PushB(f.w), n.b, f) && Pushes(PushR(f.w), n.r, f)
  {
    hide Pushes, Up, PushNorm;
    PushesNorm(A64.FA, f.w, f);
    PushesNorm(A64.FB, f.w, f);
    PushesNorm(A64.FR, f.w, f);
    n := Norm(Up(f.a, f.w), Up(f.b, f.w), Up(f.r, f.w));
  }

  lemma UpOrder(x: int, y: int, w: Width)
    ensures Up(x, w) < Up(y, w) <==> x < y
    ensures Up(x, w) == Up(y, w) <==> x == y
    ensures Up(0, w) == 0 && Up(1, w) == One(w) && Up(-1, w) == 0 - One(w) && Up(Half(w), w) == 0x8000_0000
  {
  }

  /** The aligned values compare, signed and unsigned, as the narrow ones. */
  lemma Compares(x: Word, y: Word, w: Width)
    requires Fits(x, w) && Fits(y, w) && 0 <= Up(x, w) < 0x1_0000_0000 && 0 <= Up(y, w) < 0x1_0000_0000
    ensures var u, v: Word := Up(x, w), Up(y, w);
      && (Signed(u, W4) < Signed(v, W4) <==> Signed(x, w) < Signed(y, w))
      && (Signed(u, W4) == Signed(v, W4) <==> Signed(x, w) == Signed(y, w))
      && (u < v <==> x < y) && (u == v <==> x == y)
  {
    hide Up, Signed;
    SignedUp(x, w);
    SignedUp(y, w);
    UpOrder(x, y, w);
    UpOrder(Signed(x, w), Signed(y, w), w);
  }

  lemma AgainstZero(x: Word, w: Width)
    requires Fits(x, w) && 0 <= Up(x, w) < 0x1_0000_0000
    ensures var u: Word := Up(x, w);
      && (Signed(u, W4) < 0 <==> Signed(x, w) < 0) && (Signed(u, W4) == 0 <==> Signed(x, w) == 0)
      && (u == 0 <==> x == 0) && Signed(0, W4) == 0
  {
    hide Up, Signed;
    SignedUp(x, w);
    UpOrder(x, 0, w);
    UpOrder(Signed(x, w), 0, w);
    SignedFits(0, W4);
  }

  lemma SignOfWord(x: Word)
    ensures Signed(x, W4) < 0 <==> Bit(x, 31)
  {
    hide Bit, Signed;
    MsbIsBit(x, W4);
    MsbFits(x, W4);
    SignedFits(x, W4);
  }

  lemma SignOfUp(x: Word, w: Width)
    requires Fits(x, w) && 0 <= Up(x, w) < 0x1_0000_0000
    ensures Bit(Up(x, w), 31) == Msb(x, w)
  {
    hide Up, Bit, Msb, Signed;
    SignedUp(x, w);
    MsbFits(x, w);
    var u: Word := Up(x, w);
    MsbIsBit(u, W4);
    MsbFits(u, W4);
  }

  lemma BitOf(op: BitOp, x: Word, y: Word)
    ensures Bit(Bitwise32(op, x, y), 31) == OnBits(op, Bit(x, 31), Bit(y, 31))
  {
    BitwiseBit(op, x, y, 32, 31);
  }

  /** (x ^ y) & (x' ^ z) is negative exactly when both pairs differ in sign. */
  lemma OverflowBits(x: Word, y: Word, z: Word, t: Word)
    ensures Signed(Words.And(Words.Xor(x, y), Words.Xor(z, t)), W4) < 0 <==> Bit(x, 31) != Bit(y, 31) && Bit(z, 31) != Bit(t, 31)
  {
    hide Bit, Bitwise32, Signed;
    BitOf(XorOp, x, y);
    BitOf(XorOp, z, t);
    BitOf(AndOp, Words.Xor(x, y), Words.Xor(z, t));
    SignOfWord(Words.And(Words.Xor(x, y), Words.Xor(z, t)));
  }

  lemma XorSign(x: Word, y: Word)
    ensures Signed(Words.Xor(x, y), W4) < 0 <==> (Signed(x, W4) < 0) != (Signed(y, W4) < 0)
  {
    hide Bit, Bitwise32, Signed;
    BitOf(XorOp, x, y);
    SignOfWord(x);
    SignOfWord(y);
    SignOfWord(Words.Xor(x, y));
  }

  // ---- the logical combination of two answers ----

  lemma {:induction false} BitwiseZero(op: BitOp, n: nat)
    ensures Bitwise(op, 0, 0, n) == 0
  {
    if n > 0 { BitwiseZero(op, n - 1); }
  }

  lemma BitwiseNums(op: BitOp, p: bool, q: bool, n: nat)
    requires n > 0
    ensures Bitwise(op, Num(p), Num(q), n) == Num(OnBits(op, p, q))
  {
    BitwiseZero(op, n - 1);
    assert Num(p) / 2 == 0 && Num(q) / 2 == 0;
  }

  lemma NumLogic(p: bool, q: bool)
    ensures Words.Or(Num(p), Num(q)) == Num(p || q)
    ensures Words.And(Num(p), Num(q)) == Num(p && q)
  {
    hide Bitwise;
    BitwiseNums(OrOp, p, q, 32);
    BitwiseNums(AndOp, p, q, 32);
  }

  // ---- parity ----

  lemma {:induction false} OnesParity(v: nat, n: nat)
    ensures (Ones(v, n) % 2 == 1) == OddOnes(v, n)
  {
    if n > 0 { OnesParity(v / 2, n - 1); }
  }

  lemma {:induction false} OnesOfZero(n: nat)
    ensures Ones(0, n) == 0
  {
    if n > 0 { OnesOfZero(n - 1); }
  }

  /** The bits of the low part, whatever the register above it. */
  lemma {:induction false} OnesLow(v: nat, n: nat, m: nat)
    requires n <= m
    ensures Ones(Low(v, n), m) == Ones(v, n)
  {
    hide Low;
    if n == 0 {
      NoLow(v);
      OnesOfZero(m);
    } else {
      LowStep(v, n);
      OnesLow(v / 2, n - 1, m - 1);
    }
  }

  lemma ParityValue(r: Word)
    ensures Words.And(Ones(Words.And(r, 0xFF), 32), 1) == Num(!EvenParity(r))
  {
    hide Bitwise, OddOnes, Ones;
    Pow2Values();
    assert Pow2(1) == 2;
    AndOnes(r, 8, 32);
    OnesLow(r, 8, 32);
    OnesParity(r, 8);
    AndOnes(Ones(r, 8), 1, 32);
  }

  lemma PushesParity(f: Tuple)
    ensures Pushes(Parity(), Num(!EvenParity(f.r)), f)
    ensures Pushes(Parity() + [Op(Eqz)], Num(EvenParity(f.r)), f)
  {
    var v := Words.And(f.r, 0xFF);
    PushesLoad(A64.FR, f);
    PushesConst(0xFF, f);
    PushesConst(1, f);
    PushesBinary([Load(A64.FR)], f.r, [I32Const(0xFF)], 0xFF, And, f);
    PushesUnary([Load(A64.FR)] + [I32Const(0xFF)] + [Op(And)], v, Popcnt, f);
    PushesBinary([Load(A64.FR)] + [I32Const(0xFF)] + [Op(And)] + [Op(Popcnt)], Ones(v, 32), [I32Const(1)], 1, And, f);
    ParityValue(f.r);
    PushesUnary(Parity(), Num(!EvenParity(f.r)), Eqz, f);
    hide Pushes, EvenParity, Ones, Words.And;
  }

  // ---- conditions as comparisons ----

  /** After ADD, "SF != OF" is the sign of the sum before truncation. */
  lemma AddSigned(a: Word, b: Word, w: Width)
    requires Fits(a, w) && Fits(b, w)
    ensures var r := Sum(a, b, w);
      && (Below(r, a, w) <==> r < a)
      && (Signed(r, w) < 0 <==> Msb(r, w))
  {
    hide Lo, Msb, Signed, Modulus, Half;
    var r := Sum(a, b, w);
    LoFits(a + b, w);
    Signs(a, b, r, w);
    LoOfFits(r, w);
    LoOfFits(a, w);
  }

  lemma IncDecSigned(a: Word, w: Width)
    requires Fits(a, w)
    ensures var r := Sum(a, 1, w);
      (Msb(r, w) != IsMostNegative(r, w) <==> Signed(a, w) < -1) && (r == 0 <==> Signed(a, w) == -1)
    ensures var r := Diff(a, 1, w);
      (Msb(r, w) != IsMostNegative(a, w) <==> Signed(a, w) <= 0) && (r == 0 <==> Signed(a, w) == 1)
  {
    hide Lo, Signed, Msb;
    ModulusIsTwoHalves(w);
    LoNear(a + 1, w);
    LoNear(a - 1, w);
    LoNear(a, w);
    LoNear(Sum(a, 1, w), w);
    SignedFits(a, w);
    MsbFits(Sum(a, 1, w), w);
    MsbFits(Diff(a, 1, w), w);
  }

  lemma ResultSigned(r: Word, w: Width)
    requires Fits(r, w)
    ensures IsZero(r, w) <==> r == 0
    ensures Msb(r, w) <==> Signed(r, w) < 0
    ensures r == 0 <==> Signed(r, w) == 0
  {
    hide Lo, Signed, Msb;
    LoOfFits(r, w);
    SignedFits(r, w);
    MsbFits(r, w);
    ModulusIsTwoHalves(w);
  }

  // ---- each kind ----

  /** The fields recorded by the five inlined kinds are within the width. */
  lemma FieldsFit(f: Tuple)
    requires WellFormed(f) && IsInline(f.kind)
    ensures Fits(f.a, f.w) && Fits(f.b, f.w) && Fits(f.r, f.w)
  {
  }

  /** The conditions that read the result alone: Z, NZ, S, NS, P and NP, and LE and G against zero. */
  lemma PushesResult(f: Tuple)
    requires WellFormed(f) && IsInline(f.kind)
    ensures Pushes(RIsZero(f.w), Num(IsZero(f.r, f.w)), f)
    ensures Pushes(RAgainstZero(f.w, Ne), Num(!IsZero(f.r, f.w)), f)
    ensures Pushes(RAgainstZero(f.w, LtS), Num(Msb(f.r, f.w)), f)
    ensures Pushes(RAgainstZero(f.w, GeS), Num(!Msb(f.r, f.w)), f)
    ensures Pushes(RAgainstZero(f.w, LeS), Num(IsZero(f.r, f.w) || Msb(f.r, f.w)), f)
    ensures Pushes(RAgainstZero(f.w, GtS), Num(!IsZero(f.r, f.w) && !Msb(f.r, f.w)), f)
  {
    FieldsFit(f);
    hide Pushes, Up, PushNorm, WellFormed, Msb, IsZero, Signed, Fits;
    var n := PushFields(f);
    AgainstZero(f.r, f.w);
    ResultSigned(f.r, f.w);
    PushesConst(0, f);
    PushesUnary(PushR(f.w), n.r, Eqz, f);
    PushesBinary(PushR(f.w), n.r, [I32Const(0)], 0, Ne, f);
    PushesBinary(PushR(f.w), n.r, [I32Const(0)], 0, LtS, f);
    PushesBinary(PushR(f.w), n.r, [I32Const(0)], 0, GeS, f);
    PushesBinary(PushR(f.w), n.r, [I32Const(0)], 0, LeS, f);
    PushesBinary(PushR(f.w), n.r, [I32Const(0)], 0, GtS, f);
  }

  lemma PushesUnsigned(f: Tuple)
    requires WellFormed(f) && f.kind == Sub
    ensures Pushes(AAgainstB(f.w, LtU), Num(f.a < f.b), f)
    ensures Pushes(AAgainstB(f.w, GeU), Num(f.a >= f.b), f)
    ensures Pushes(AAgainstB(f.w, LeU), Num(f.a <= f.b), f)
    ensures Pushes(AAgainstB(f.w, GtU), Num(f.a > f.b), f)
  {
    FieldsFit(f);
    hide Pushes, Up, PushNorm, WellFormed, Signed, Fits;
    var n := PushFields(f);
    Compares(f.a, f.b, f.w);
    PushesBinary(PushA(f.w), n.a, PushB(f.w), n.b, LtU, f);
    PushesBinary(PushA(f.w), n.a, PushB(f.w), n.b, GeU, f);
    PushesBinary(PushA(f.w), n.a, PushB(f.w), n.b, LeU, f);
    PushesBinary(PushA(f.w), n.a, PushB(f.w), n.b, GtU, f);
  }

  lemma PushesSigned(f: Tuple)
    requires WellFormed(f) && f.kind == Sub
    ensures Pushes(AAgainstB(f.w, LtS), Num(Signed(f.a, f.w) < Signed(f.b, f.w)), f)
    ensures Pushes(AAgainstB(f.w, GeS), Num(Signed(f.a, f.w) >= Signed(f.b, f.w)), f)
    ensures Pushes(AAgainstB(f.w, LeS), Num(Signed(f.a, f.w) <= Signed(f.b, f.w)), f)
    ensures Pushes(AAgainstB(f.w, GtS), Num(Signed(f.a, f.w) > Signed(f.b, f.w)), f)
  {
    FieldsFit(f);
    hide Pushes, Up, PushNorm, WellFormed, Signed, Fits;
    var n := PushFields(f);
    Compares(f.a, f.b, f.w);
    PushesBinary(PushA(f.w), n.a, PushB(f.w), n.b, LtS, f);
    PushesBinary(PushA(f.w), n.a, PushB(f.w), n.b, GeS, f);
    PushesBinary(PushA(f.w), n.a, PushB(f.w), n.b, LeS, f);
    PushesBinary(PushA(f.w), n.a, PushB(f.w), n.b, GtS, f);
  }

  /** A value whose sign is a condition, read as one. */
  lemma PushesSignedly(bits: Code, x: Word, v: bool, f: Tuple)
    requires Pushes(bits, x, f) && (Signed(x, W4) < 0 <==> v)
    ensures Pushes(Signedly(bits, LtS), Num(v), f)
    ensures Pushes(Signedly(bits, GeS), Num(!v), f)
  {
    SignedFits(0, W4);
    hide Pushes, Signed;
    PushesConst(0, f);
    PushesBinary(bits, x, [I32Const(0)], 0, LtS, f);
    PushesBinary(bits, x, [I32Const(0)], 0, GeS, f);
  }

  lemma PushesSubOverflow(f: Tuple)
    requires WellFormed(f) && f.kind == Sub
    ensures Pushes(Signedly(SubOverflowBits(f.w), LtS), Num(SubOverflow(f.a, f.b, f.r, f.w)), f)
    ensures Pushes(Signedly(SubOverflowBits(f.w), GeS), Num(!SubOverflow(f.a, f.b, f.r, f.w)), f)
  {
    FieldsFit(f);
    hide Pushes, Up, PushNorm, WellFormed, Signed, Fits, Bit, Bitwise32, Msb, Signedly;
    var n := PushFields(f);
    SignOfUp(f.a, f.w);
    SignOfUp(f.b, f.w);
    SignOfUp(f.r, f.w);
    OverflowBits(n.a, n.b, n.a, n.r);
    PushesBinary(PushA(f.w), n.a, PushB(f.w), n.b, Xor, f);
    PushesBinary(PushA(f.w), n.a, PushR(f.w), n.r, Xor, f);
    PushesBinary(PushA(f.w) + PushB(f.w) + [Op(Xor)], Words.Xor(n.a, n.b), PushA(f.w) + PushR(f.w) + [Op(Xor)],
                 Words.Xor(n.a, n.r), And, f);
    PushesSignedly(SubOverflowBits(f.w), Words.And(Words.Xor(n.a, n.b), Words.Xor(n.a, n.r)), SubOverflow(f.a, f.b, f.r, f.w), f);
  }

  lemma SubExact(cc: Cc, f: Tuple)
    requires WellFormed(f) && f.kind == Sub
    ensures Pushes(EmitSub(cc, f.w), Num(Holds(cc, f)), f)
  {
    FieldsFit(f);
    PushesResult(f);
    PushesUnsigned(f);
    PushesSigned(f);
    PushesSubOverflow(f);
    PushesParity(f);
    SubSigned(f.a, f.b, f.w);
    ResultSigned(f.r, f.w);
    hide Pushes, Parity, RIsZero, RAgainstZero, AAgainstB, Signedly, SubOverflowBits, Msb, Signed, IsZero, SubOverflow, EvenParity,
      Below, Diff, Fits, HalfCarry;
  }

  lemma LogicExact(cc: Cc, f: Tuple)
    requires WellFormed(f) && f.kind == Logic
    ensures Pushes(EmitLogic(cc, f.w), Num(Holds(cc, f)), f)
  {
    PushesResult(f);
    PushesParity(f);
    PushesConst(0, f);
    PushesConst(1, f);
    hide Pushes, Parity, RIsZero, RAgainstZero, Msb, IsZero, EvenParity, WellFormed;
  }

  lemma PushesAddOverflow(f: Tuple) returns (x: Word)
    requires WellFormed(f) && f.kind == Add
    ensures Pushes(AddOverflowBits(f.w), x, f) && (Signed(x, W4) < 0 <==> AddOverflow(f.a, f.b, f.r, f.w))
  {
    FieldsFit(f);
    hide Pushes, Up, PushNorm, WellFormed, Signed, Fits, Bit, Bitwise32, Msb;
    var n := PushFields(f);
    SignOfUp(f.a, f.w);
    SignOfUp(f.b, f.w);
    SignOfUp(f.r, f.w);
    OverflowBits(n.a, n.r, n.b, n.r);
    PushesBinary(PushA(f.w), n.a, PushR(f.w), n.r, Xor, f);
    PushesBinary(PushB(f.w), n.b, PushR(f.w), n.r, Xor, f);
    PushesBinary(PushA(f.w) + PushR(f.w) + [Op(Xor)], Words.Xor(n.a, n.r), PushB(f.w) + PushR(f.w) + [Op(Xor)],
                 Words.Xor(n.b, n.r), And, f);
    x := Words.And(Words.Xor(n.a, n.r), Words.Xor(n.b, n.r));
  }

  lemma PushesAddLess(f: Tuple)
    requires WellFormed(f) && f.kind == Add
    ensures Pushes(AddLess(f.w), Num(Msb(f.r, f.w) != AddOverflow(f.a, f.b, f.r, f.w)), f)
    ensures Pushes(AddLess(f.w) + [Op(Eqz)], Num(Msb(f.r, f.w) == AddOverflow(f.a, f.b, f.r, f.w)), f)
    ensures Pushes(Signedly(AddOverflowBits(f.w), LtS), Num(AddOverflow(f.a, f.b, f.r, f.w)), f)
    ensures Pushes(Signedly(AddOverflowBits(f.w), GeS), Num(!AddOverflow(f.a, f.b, f.r, f.w)), f)
  {
    FieldsFit(f);
    hide Pushes, Up, PushNorm, WellFormed, Signed, Fits, Bitwise32, Msb, Signedly, AddOverflowBits, AddOverflow;
    var n := PushFields(f);
    var x := PushesAddOverflow(f);
    AgainstZero(f.r, f.w);
    ResultSigned(f.r, f.w);
    PushesSignedly(AddOverflowBits(f.w), x, AddOverflow(f.a, f.b, f.r, f.w), f);
    PushesBinary(PushR(f.w), n.r, AddOverflowBits(f.w), x, Xor, f);
    XorSign(n.r, x);
    PushesSignedly(PushR(f.w) + AddOverflowBits(f.w) + [Op(Xor)], Words.Xor(n.r, x), Msb(f.r, f.w) != AddOverflow(f.a, f.b, f.r, f.w), f);
    PushesUnary(AddLess(f.w), Num(Msb(f.r, f.w) != AddOverflow(f.a, f.b, f.r, f.w)), Eqz, f);
  }

  lemma PushesAddCarry(f: Tuple)
    requires WellFormed(f) && f.kind == Add
    ensures Pushes(AddCarry(f.w, LtU), Num(Below(f.r, f.a, f.w)), f)
    ensures Pushes(AddCarry(f.w, GeU), Num(!Below(f.r, f.a, f.w)), f)
  {
    FieldsFit(f);
    AddSigned(f.a, f.b, f.w);
    hide Pushes, Up, PushNorm, WellFormed, Signed, Fits, Below, Lo;
    var n := PushFields(f);
    Compares(f.r, f.a, f.w);
    PushesBinary(PushR(f.w), n.r, PushA(f.w), n.a, LtU, f);
    PushesBinary(PushR(f.w), n.r, PushA(f.w), n.a, GeU, f);
  }

  /** Two answers combined. */
  lemma PushesBoth(p: Code, x: bool, q: Code, y: bool, f: Tuple)
    requires Pushes(p, Num(x), f) && Pushes(q, Num(y), f)
    ensures Pushes(p + q + [Op(Or)], Num(x || y), f)
    ensures Pushes(p + q + [Op(And)], Num(x && y), f)
  {
    hide Pushes, Bitwise32;
    NumLogic(x, y);
    PushesBinary(p, Num(x), q, Num(y), Or, f);
    PushesBinary(p, Num(x), q, Num(y), And, f);
  }

  lemma AddExact(cc: Cc, f: Tuple)
    requires WellFormed(f) && f.kind == Add
    ensures Pushes(EmitAdd(cc, f.w), Num(Holds(cc, f)), f)
  {
    hide Pushes, Parity, RIsZero, RAgainstZero, AddLess, AddCarry, Signedly, AddOverflowBits, Msb, IsZero, AddOverflow, EvenParity,
      Below, HalfCarry, WellFormed, SubOverflowBits, AAgainstB;
    PushesResult(f);
    PushesAddLess(f);
    PushesAddCarry(f);
    PushesParity(f);
    var w := f.w;
    var less := Msb(f.r, w) != AddOverflow(f.a, f.b, f.r, w);
    PushesBoth(AddCarry(w, LtU), Below(f.r, f.a, w), RIsZero(w), IsZero(f.r, w), f);
    PushesBoth(AddCarry(w, GeU), !Below(f.r, f.a, w), RAgainstZero(w, Ne), !IsZero(f.r, w), f);
    PushesBoth(AddLess(w), less, RIsZero(w), IsZero(f.r, w), f);
    PushesBoth(AddLess(w) + [Op(Eqz)], !less, RAgainstZero(w, Ne), !IsZero(f.r, w), f);
  }

  lemma OneSigned(w: Width)
    ensures Signed(One(w), W4) == Up(1, w) && Signed(MinusOne(w), W4) == Up(-1, w) && Signed(0, W4) == Up(0, w)
  {
    hide Signed;
    SignedFits(One(w), W4);
    SignedFits(MinusOne(w), W4);
    SignedFits(0, W4);
  }

  lemma PushesAAgainst(v: Word, k: int, op: I32, f: Tuple)
    requires WellFormed(f) && IsInline(f.kind) && Signed(v, W4) == Up(k, f.w)
    ensures Pushes(AAgainst(f.w, v, LtS), Num(Signed(f.a, f.w) < k), f)
    ensures Pushes(AAgainst(f.w, v, GeS), Num(Signed(f.a, f.w) >= k), f)
    ensures Pushes(AAgainst(f.w, v, LeS), Num(Signed(f.a, f.w) <= k), f)
    ensures Pushes(AAgainst(f.w, v, GtS), Num(Signed(f.a, f.w) > k), f)
  {
    FieldsFit(f);
    hide Pushes, Up, PushNorm, WellFormed, Signed, Fits;
    var n := PushFields(f);
    SignedUp(f.a, f.w);
    UpOrder(Signed(f.a, f.w), k, f.w);
    PushesConst(v, f);
    PushesBinary(PushA(f.w), n.a, [I32Const(v)], v, LtS, f);
    PushesBinary(PushA(f.w), n.a, [I32Const(v)], v, GeS, f);
    PushesBinary(PushA(f.w), n.a, [I32Const(v)], v, LeS, f);
    PushesBinary(PushA(f.w), n.a, [I32Const(v)], v, GtS, f);
  }

  lemma MostNegative(v: Word, w: Width)
    requires Fits(v, w)
    ensures IsMostNegative(v, w) <==> Up(v, w) == 0x8000_0000
  {
    hide Up, Lo;
    LoOfFits(v, w);
    UpOrder(v, Half(w), w);
  }

  lemma PushesWrap(f: Tuple)
    requires WellFormed(f) && (f.kind == Inc || f.kind == Dec)
    ensures var p, v := if f.kind == Dec then PushA(f.w) else PushR(f.w), if f.kind == Dec then f.a else f.r;
      && Pushes(p + [I32Const(0x8000_0000)] + [Op(Eq)], Num(IsMostNegative(v, f.w)), f)
      && Pushes(p + [I32Const(0x8000_0000)] + [Op(Ne)], Num(!IsMostNegative(v, f.w)), f)
  {
    FieldsFit(f);
    hide Pushes, Up, PushNorm, WellFormed, Fits, IsMostNegative;
    var n := PushFields(f);
    var p, x := if f.kind == Dec then PushA(f.w) else PushR(f.w), if f.kind == Dec then n.a else n.r;
    MostNegative(f.a, f.w);
    MostNegative(f.r, f.w);
    PushesConst(0x8000_0000, f);
    PushesBinary(p, x, [I32Const(0x8000_0000)], 0x8000_0000, Eq, f);
    PushesBinary(p, x, [I32Const(0x8000_0000)], 0x8000_0000, Ne, f);
  }

  lemma CarryIsNum(f: Tuple)
    requires WellFormed(f) && (f.kind == Inc || f.kind == Dec)
    ensures f.carryIn == Num(Cf(f)) && IsBit(f.carryIn)
    ensures f.kind == Inc ==> f.r == Sum(f.a, 1, f.w)
    ensures f.kind == Dec ==> f.r == Diff(f.a, 1, f.w)
  {
  }

  /** The unsigned conditions read the kept carry. */
  lemma PushesKept(f: Tuple)
    requires WellFormed(f) && (f.kind == Inc || f.kind == Dec)
    ensures Pushes([LoadCarry], Num(Cf(f)), f) && Pushes([LoadCarry] + [Op(Eqz)], Num(!Cf(f)), f)
    ensures Pushes([LoadCarry] + RIsZero(f.w) + [Op(Or)], Num(Cf(f) || IsZero(f.r, f.w)), f)
    ensures Pushes(([LoadCarry] + [Op(Eqz)]) + RAgainstZero(f.w, Ne) + [Op(And)], Num(!Cf(f) && !IsZero(f.r, f.w)), f)
  {
    CarryIsNum(f);
    PushesResult(f);
    PushesCarry(f);
    hide Pushes, RIsZero, RAgainstZero, IsZero, WellFormed, Cf;
    PushesUnary([LoadCarry], Num(Cf(f)), Eqz, f);
    PushesBoth([LoadCarry], Cf(f), RIsZero(f.w), IsZero(f.r, f.w), f);
    PushesBoth([LoadCarry] + [Op(Eqz)], !Cf(f), RAgainstZero(f.w, Ne), !IsZero(f.r, f.w), f);
  }

  /** "SF != OF" as a comparison of the operand with a constant. */
  lemma IncDecOrder(cc: Cc, f: Tuple)
    requires WellFormed(f) && (f.kind == Inc || f.kind == Dec) && cc in {L, GE, LE, G}
    ensures Pushes(EmitIncDec(cc, f.w, f.kind == Dec), Num(Holds(cc, f)), f)
  {
    hide Pushes, AAgainst, Msb, IsZero, IsMostNegative, EvenParity, Signed, Up, One, MinusOne, HalfCarry, WellFormed, Sum, Diff,
      Fits, Cf;
    FieldsFit(f);
    var w := f.w;
    CarryIsNum(f);
    OneSigned(w);
    IncDecSigned(f.a, w);
    ResultSigned(f.r, w);
    PushesAAgainst(0, 0, LeS, f);
    PushesAAgainst(MinusOne(w), -1, LtS, f);
    PushesAAgainst(One(w), 1, LtS, f);
  }

  lemma IncDecExact(cc: Cc, f: Tuple)
    requires WellFormed(f) && (f.kind == Inc || f.kind == Dec)
    ensures Pushes(EmitIncDec(cc, f.w, f.kind == Dec), Num(Holds(cc, f)), f)
  {
    if cc in {L, GE, LE, G} {
      IncDecOrder(cc, f);
    } else {
      PushesResult(f);
      PushesParity(f);
      PushesWrap(f);
      PushesKept(f);
      hide Pushes, Parity, RIsZero, RAgainstZero, AAgainst, Msb, IsZero, IsMostNegative, EvenParity, PushNorm, HalfCarry,
        WellFormed, SubOverflowBits, AAgainstB, Signedly, Cf, One, MinusOne;
    }
  }

  /**
   For the five inlined kinds, at every width and for all sixteen conditions,
   the emitted code leaves the stack as it was with x86p_cond's answer on top.
   */
  lemma CondCodeIsExact(cc: Cc, f: Tuple)
    requires WellFormed(f) && f.kind in {Sub, Logic, Add, Inc, Dec}
    ensures Pushes(CondCode(f.kind, cc, f.w), Num(Holds(cc, f)), f)
  {
    hide Pushes, EmitSub, EmitLogic, EmitAdd, EmitIncDec, Holds, WellFormed;
    match f.kind {
      case Sub => SubExact(cc, f);
      case Logic => LogicExact(cc, f);
      case Add => AddExact(cc, f);
      case _ => IncDecExact(cc, f);
    }
  }

  /** The answer of a lowering, wherever it accepts, is the value on top of the stack. */
  predicate SameAnswer(low: Lowering, h: A64.Host, k: A64.Clobber, s: seq<Word>, after: Stack) {
    && (low.Constant? ==> after == Stack(s + [Num(low.value)]))
    && (low.Compare? ==> after == Stack(s + [Num(A64.Passes(low.host, A64.Run(low.code, h, k).p))]))
  }

  /** Wherever both backends inline a condition they answer alike. */
  lemma BackendsAgree(cc: Cc, regs: FlagRegs, h: A64.Host, k: A64.Clobber, s: seq<Word>)
    requires h.status == A64.Running && WellFormed(h.c.flags) && h.c.flags.kind in {Sub, Logic, Add, Inc, Dec} && Describes(regs, h.x, h.c.flags)
    ensures SameAnswer(Lower(cc, h.c.flags.kind, h.c.flags.w, regs), h, k, s,
                       Eval(CondCode(h.c.flags.kind, cc, h.c.flags.w), s, h.c.flags))
  {
    hide Holds, WellFormed, Describes, CondCode, Lower, A64.Run, A64.Passes, Eval;
    LoweringIsExact(cc, regs, h, k);
    CondCodeIsExact(cc, h.c.flags);
  }
}
