/**
 Lowering an x86 condition onto AArch64's own NZCV: which comparison, read
 with which host condition, answers for a recorded kind and width.
 */
module A64Cond {
  import opened Words
  import opened Flags
  import opened Cond
  import opened A64

  /** Where the writer of the tuple left a field: a host register, or only the CPU state. */
  datatype Held = InMemory | In(r: XReg)

  datatype FlagRegs = FlagRegs(a: Held, b: Held, r: Held)

  const NOWHERE := FlagRegs(InMemory, InMemory, InMemory)

  predicate Holding(h: Held, x: XRegs, v: Word) {
    h.In? ==> Get(x, h.r) == v
  }

  /** The registers named hold the recorded tuple. */
  predicate Describes(regs: FlagRegs, x: XRegs, f: Tuple) {
    Holding(regs.a, x, f.a) && Holding(regs.b, x, f.b) && Holding(regs.r, x, f.r)
  }

  /** The compiled form of a condition: refused, a constant, or code that leaves it in NZCV. */
  datatype Lowering = Refused | Constant(value: bool) | Compare(code: Code, host: HostCc)

  // ---- the tables ----

  datatype Choice = NoCode | Const(value: bool) | Read(host: HostCc)

  function AfterCmpSub(cc: Cc): Choice {
    match cc
    case O => Read(VS) case NO => Read(VC) case B => Read(CC) case NB => Read(CS)
    case Z => Read(EQ) case NZ => Read(NE) case BE => Read(LS) case A => Read(HI)
    case S => Read(MI) case NS => Read(PL) case L => Read(LT) case GE => Read(HostCc.GE)
    case LE => Read(HostCc.LE) case G => Read(GT)
    case _ => NoCode
  }

  /** For ADD the carry out is C itself, where for SUB the borrow is its inverse; BE and A have no host condition. */
  function AfterCmnAdd(cc: Cc): Choice {
    match cc
    case O => Read(VS) case NO => Read(VC) case B => Read(CS) case NB => Read(CC)
    case Z => Read(EQ) case NZ => Read(NE)
    case S => Read(MI) case NS => Read(PL) case L => Read(LT) case GE => Read(HostCc.GE)
    case LE => Read(HostCc.LE) case G => Read(GT)
    case _ => NoCode
  }

  function AfterCmpLogic(cc: Cc): Choice {
    match cc
    case O => Const(false) case NO => Const(true) case B => Const(false) case NB => Const(true)
    case Z => Read(EQ) case NZ => Read(NE) case BE => Read(EQ) case A => Read(NE)
    case S => Read(MI) case NS => Read(PL) case L => Read(MI) case GE => Read(PL)
    case LE => Read(HostCc.LE) case G => Read(GT)
    case _ => NoCode
  }

  function AfterCmpResult(cc: Cc): Choice {
    match cc
    case Z => Read(EQ) case NZ => Read(NE) case S => Read(MI) case NS => Read(PL)
    case _ => NoCode
  }

  predicate HasResultParity(k: Kind) {
    k != None && k != Explicit
  }

  // ---- the emitted code ----

  function AlignShift(w: Width): Word {
    match w case W1 => 24 case W2 => 16 case W4 => 0
  }

  /** shl dst, src, #shift: a move when the shift is zero, nothing when it is the same register too. */
  function ShlInto(d: XReg, s: XReg, shift: Word, next: Code): Code {
    if shift != 0 then Emit(AluImm(LSLW, d, s, shift), next)
    else if d != s then Emit(MovReg(d, s), next)
    else next
  }

  function LoadAligned(d: XReg, field: FlagField, held: Held, shift: Word, next: Code): Code {
    match held
    case In(r) => ShlInto(d, r, shift, next)
    case InMemory =>
      Emit(LoadFlag(d, field), if shift != 0 then Emit(AluImm(LSLW, d, d, shift), next) else next)
  }

  /** a into X0 and b into X1, neither overwriting the other's source first; a swapped pair is reloaded. */
  function LoadOperands(regs: FlagRegs, shift: Word, next: Code): Code {
    var a := if regs.a == In(X1) && regs.b == In(X0) then InMemory else regs.a;
    if regs.b == In(X0) then LoadAligned(X1, FB, regs.b, shift, LoadAligned(X0, FA, a, shift, next))
    else LoadAligned(X0, FA, a, shift, LoadAligned(X1, FB, regs.b, shift, next))
  }

  function Fold(r: XReg): Code {
    Emit(XorLsr(X0, r, r, 4), Emit(XorLsr(X0, X0, X0, 2), Emit(XorLsr(X0, X0, X0, 1), Emit(TstBit0(X0), Nil))))
  }

  function ResultParity(held: Held): Code {
    match held
    case InMemory => Emit(LoadFlag(X0, FR), Fold(X0))
    case In(r) => Fold(r)
  }

  function Chosen(c: Choice, code: Code): Lowering {
    match c
    case NoCode => Refused
    case Const(v) => Constant(v)
    case Read(host) => Compare(code, host)
  }

  function Lower(cc: Cc, kind: Kind, w: Width, regs: FlagRegs): Lowering {
    var shift := AlignShift(w);
    if cc == P || cc == NP then
      if !HasResultParity(kind) then Refused
      else Compare(ResultParity(regs.r), if cc == P then EQ else NE)
    else match kind
      case Sub => Chosen(AfterCmpSub(cc), LoadOperands(regs, shift, Emit(CmpReg(X0, X1), Nil)))
      case Add => Chosen(AfterCmnAdd(cc), LoadOperands(regs, shift, Emit(CmnReg(X0, X1), Nil)))
      case Logic => Chosen(AfterCmpLogic(cc), LoadAligned(X0, FR, regs.r, shift, Emit(CmpImm(X0, 0), Nil)))
      case None => Refused
      case Explicit => Refused
      case _ => Chosen(AfterCmpResult(cc), LoadAligned(X0, FR, regs.r, shift, Emit(CmpImm(X0, 0), Nil)))
  }

  // ---- the comparison of left-aligned operands is the narrow operation ----

  /** A value of the width moved to the top of a word. */
  function Up(v: int, w: Width): int {
    match w case W1 => v * 0x100_0000 case W2 => v * 0x1_0000 case W4 => v
  }

  function Align(v: Word, w: Width): Word {
    HostResult(LSLW, v, AlignShift(w))
  }

  lemma AlignPow2()
    ensures Pow2(24) == 0x100_0000 && Pow2(16) == 0x1_0000 && Pow2(0) == 1
  {
    Pow2Values();
    Pow2Add(8, 16);
  }

  lemma AlignIsUp(v: Word, w: Width)
    requires Fits(v, w)
    ensures Align(v, w) == Up(v, w) && 0 <= Up(v, w) < 0x1_0000_0000
  {
    hide Pow2;
    AlignPow2();
    match w {
      case W1 => assert Words.Shl(v, 24) == v * 0x100_0000;
      case W2 => assert Words.Shl(v, 16) == v * 0x1_0000;
      case W4 => assert Words.Shl(v, 0) == v;
    }
  }

  lemma Lo32Near(v: int)
    requires 0 <= v < 0x2_0000_0000
    ensures Lo32(v) == if v < 0x1_0000_0000 then v else v - 0x1_0000_0000
  {
  }

  lemma SignedComplement(y: Word)
    ensures Signed(0xFFFF_FFFF - y, W4) == -1 - Signed(y, W4)
  {
    SignedFits(y, W4);
    SignedFits(0xFFFF_FFFF - y, W4);
  }

  /** Aligning scales the signed reading. */
  lemma SignedUp(v: Word, w: Width)
    requires Fits(v, w)
    ensures 0 <= Up(v, w) < 0x1_0000_0000
    ensures Signed(Up(v, w), W4) == Up(Signed(v, w), w)
    ensures Up(v, w) >= 0x8000_0000 <==> v >= Half(w)
  {
    hide Signed;
    SignedFits(v, w);
    match w {
      case W1 => SignedFits(v * 0x100_0000, W4);
      case W2 => SignedFits(v * 0x1_0000, W4);
      case W4 => SignedFits(v, W4);
    }
  }

  /** Wrapping at the width is wrapping of the aligned value at 32 bits. */
  lemma UpWraps(v: int, r: Word, w: Width)
    requires r == if v < 0 then v + Modulus(w) else if v < Modulus(w) then v else v - Modulus(w)
    ensures Up(r, w) == Up(v, w) + (if v < 0 then 0x1_0000_0000 else if v < Modulus(w) then 0 else -0x1_0000_0000)
    ensures v < Modulus(w) <==> Up(v, w) < 0x1_0000_0000
    ensures v < 0 <==> Up(v, w) < 0
    ensures r == 0 <==> Up(r, w) == 0
  {
  }

  lemma UpIsLinear(r: int, a: int, b: int, w: Width)
    ensures Up(r, w) == Up(a, w) + Up(b, w) <==> r == a + b
    ensures Up(r, w) == Up(a, w) - Up(b, w) <==> r == a - b
    ensures Up(a + b, w) == Up(a, w) + Up(b, w)
    ensures Up(a - b, w) == Up(a, w) - Up(b, w)
  {
  }

  /** The aligned sum, as a word and as a carry. */
  lemma UpAdds(a: Word, b: Word, w: Width)
    requires Fits(a, w) && Fits(b, w)
    ensures var r := Sum(a, b, w);
      && Fits(r, w) && Lo32(Up(a, w) + Up(b, w)) == Up(r, w)
      && (Up(r, w) == 0 <==> r == 0) && (Up(r, w) >= 0x8000_0000 <==> Msb(r, w))
      && (Up(r, w) != Up(a, w) + Up(b, w) <==> Below(r, a, w))
  {
    hide Lo, Lo32, Msb, Signed, Below, Up, Half, Modulus;
    var r := Sum(a, b, w);
    LoFits(a + b, w);
    LoNear(a + b, w);
    AddMeaning(a, b, w);
    MsbFits(r, w);
    SignedUp(a, w);
    SignedUp(b, w);
    SignedUp(r, w);
    Lo32Near(Up(a, w) + Up(b, w));
    UpWraps(a + b, r, w);
    UpIsLinear(0, a, b, w);
  }

  lemma UpAddsSigned(a: Word, b: Word, w: Width)
    requires Fits(a, w) && Fits(b, w)
    ensures var r := Sum(a, b, w);
      && Fits(r, w) && 0 <= Up(a, w) < 0x1_0000_0000 && 0 <= Up(b, w) < 0x1_0000_0000 && 0 <= Up(r, w) < 0x1_0000_0000
      && (Signed(Up(r, w), W4) != Signed(Up(a, w), W4) + Signed(Up(b, w), W4) <==> AddOverflow(a, b, r, w))
  {
    hide Lo, Signed, AddOverflow, Up, Half, Modulus;
    var r := Sum(a, b, w);
    LoFits(a + b, w);
    AddMeaning(a, b, w);
    SignedUp(a, w);
    SignedUp(b, w);
    SignedUp(r, w);
    UpIsLinear(Signed(r, w), Signed(a, w), Signed(b, w), w);
  }

  /** CMN of aligned operands is the narrow addition, flag for flag. */
  lemma AlignedCmn(a: Word, b: Word, w: Width)
    requires Fits(a, w) && Fits(b, w)
    ensures var r := Sum(a, b, w);
            CmnFlags(Align(a, w), Align(b, w))
            == Nzcv(Msb(r, w), r == 0, Below(r, a, w), AddOverflow(a, b, r, w))
  {
    hide Sum, Lo32, Msb, Signed, Below, AddOverflow, Align, Up, Fits;
    AlignIsUp(a, w);
    AlignIsUp(b, w);
    UpAddsSigned(a, b, w);
    UpAdds(a, b, w);
  }

  /** CMP of aligned operands is the narrow subtraction, with C the inverse of the borrow. */
  lemma AlignedCmp(a: Word, b: Word, w: Width)
    requires Fits(a, w) && Fits(b, w)
    ensures var r := Diff(a, b, w);
            CmpFlags(Align(a, w), Align(b, w))
            == Nzcv(Msb(r, w), r == 0, !Below(a, b, w), SubOverflow(a, b, r, w))
  {
    hide Lo, Lo32, Msb, Signed, Below, SubOverflow, Align, Up, Half, Modulus;
    var r := Diff(a, b, w);
    AlignIsUp(a, w);
    AlignIsUp(b, w);
    LoFits(a - b, w);
    LoNear(a - b, w);
    SubMeaning(a, b, w);
    MsbFits(r, w);
    SignedUp(a, w);
    SignedUp(b, w);
    SignedUp(r, w);
    SignedComplement(Up(b, w));
    Lo32Near(Up(a, w) + (0xFFFF_FFFF - Up(b, w)) + 1);
    UpWraps(a - b, r, w);
    UpIsLinear(Signed(r, w), Signed(a, w), Signed(b, w), w);
    UpIsLinear(0, a, b, w);
  }

  lemma CmpZero(x: Word)
    ensures CmpFlags(x, 0) == Nzcv(x >= 0x8000_0000, x == 0, true, false)
  {
    hide Lo32, Signed;
    SignedFits(0xFFFF_FFFF, W4);
    Lo32Near(x + 0xFFFF_FFFF + 1);
  }

  /** CMP of the aligned result with zero: its sign and zero, C set and V clear. */
  lemma AlignedCmpZero(r: Word, w: Width)
    requires Fits(r, w)
    ensures CmpFlags(Align(r, w), 0) == Nzcv(Msb(r, w), r == 0, true, false)
  {
    hide Lo, Msb, Signed, Align, CmpFlags, Up;
    AlignIsUp(r, w);
    MsbFits(r, w);
    SignedUp(r, w);
    UpWraps(r, r, w);
    CmpZero(Align(r, w));
  }

  // ---- the parity fold ----

  lemma FoldStep(x: Word, shift: nat, i: nat)
    requires shift < 32 && i + shift < 32
    ensures Bit(HostResult(EORW, x, HostResult(LSRW, x, shift)), i) == (Bit(x, i) != Bit(x, i + shift))
  {
    hide Bit, Bitwise, Words.Shr;
    assert shift % 32 == shift;
    BitwiseBit(XorOp, x, Words.Shr(x, shift), 32, i);
    BitShift(x, shift, i);
  }

  lemma ParityIsEightBits(r: Word)
    ensures OddOnes(r, 8)
      == (((Bit(r, 0) != Bit(r, 4)) != (Bit(r, 2) != Bit(r, 6))) != ((Bit(r, 1) != Bit(r, 5)) != (Bit(r, 3) != Bit(r, 7))))
  {
    OddOnesAt(r, 8);
    OddOnesAt(r, 7);
    OddOnesAt(r, 6);
    OddOnesAt(r, 5);
    OddOnesAt(r, 4);
    OddOnesAt(r, 3);
    OddOnesAt(r, 2);
    OddOnesAt(r, 1);
  }

  /** Peeling the highest of n bits off a parity. */
  lemma {:induction false} OddOnesAt(v: nat, n: nat)
    requires n > 0
    ensures OddOnes(v, n) == (OddOnes(v, n - 1) != Bit(v, n - 1))
  {
    if n > 1 {
      OddOnesAt(v / 2, n - 1);
    }
  }

  /** Three folds leave the parity of the low byte in bit 0. */
  lemma FoldedParity(r: Word)
    ensures var x1 := HostResult(EORW, r, HostResult(LSRW, r, 4));
            var x2 := HostResult(EORW, x1, HostResult(LSRW, x1, 2));
            var x3 := HostResult(EORW, x2, HostResult(LSRW, x2, 1));
            TstBit0Flags(x3).z == EvenParity(r)
  {
    hide HostResult;
    var x1 := HostResult(EORW, r, HostResult(LSRW, r, 4));
    var x2 := HostResult(EORW, x1, HostResult(LSRW, x1, 2));
    FoldStep(r, 4, 0);
    FoldStep(r, 4, 1);
    FoldStep(r, 4, 2);
    FoldStep(r, 4, 3);
    FoldStep(x1, 2, 0);
    FoldStep(x1, 2, 1);
    FoldStep(x2, 1, 0);
    ParityIsEightBits(r);
  }

  // ---- the emitted code reads the condition ----

  lemma RunEmit(op: HostOp, next: Code, h: Host, k: Clobber)
    requires h.status == Running
    ensures Run(Emit(op, next), h, k) == Run(next, Do(op, h, k), k)
  {
  }

  /** One aligned load: its register takes the aligned value, nothing else changes. */
  lemma RunLoadAligned(d: XReg, field: FlagField, held: Held, w: Width, next: Code, h: Host, k: Clobber)
    requires h.status == Running && Holding(held, h.x, Field(h.c.flags, field))
    ensures Run(LoadAligned(d, field, held, AlignShift(w), next), h, k)
         == Run(next, h.(x := Set(h.x, d, Align(Field(h.c.flags, field), w))), k)
  {
    hide Run, HostResult, Set, Align, AlignShift, Field;
    var v := Field(h.c.flags, field);
    if w == W4 { AlignNothing(v); }
    Unshifted(w);
    match held {
      case In(r) => RunAlignedFrom(d, r, w, next, h, k);
      case InMemory =>
        var h1 := h.(x := Set(h.x, d, v));
        RunEmit(LoadFlag(d, field), if w == W4 then next else Emit(AluImm(LSLW, d, d, AlignShift(w)), next), h, k);
        if w != W4 {
          RunEmit(AluImm(LSLW, d, d, AlignShift(w)), next, h1, k);
          AlignIsHost(v, w);
          GetSet(h.x, d, v, d);
          SetTwice(h.x, d, v, Align(v, w));
        }
    }
  }

  lemma RunAlignedFrom(d: XReg, r: XReg, w: Width, next: Code, h: Host, k: Clobber)
    requires h.status == Running
    ensures var v := Get(h.x, r);
      Run(if w != W4 then Emit(AluImm(LSLW, d, r, AlignShift(w)), next) else if d != r then Emit(MovReg(d, r), next) else next, h, k)
      == Run(next, h.(x := Set(h.x, d, Align(v, w))), k)
  {
    hide Run, HostResult, Set, Get, Align, AlignShift;
    if w != W4 {
      RunEmit(AluImm(LSLW, d, r, AlignShift(w)), next, h, k);
      AlignIsHost(Get(h.x, r), w);
    } else {
      AlignNothing(Get(h.x, r));
      if d != r { RunEmit(MovReg(d, r), next, h, k); } else { SetSame(h.x, d); }
    }
  }

  lemma Unshifted(w: Width)
    ensures AlignShift(w) == 0 <==> w == W4
  {
  }

  lemma AlignIsHost(v: Word, w: Width)
    ensures Align(v, w) == HostResult(LSLW, v, AlignShift(w))
  {
  }

  lemma AlignNothing(v: Word)
    ensures Align(v, W4) == v
  {
    AlignIsUp(v, W4);
  }

  lemma SetSame(x: XRegs, d: XReg)
    ensures Set(x, d, Get(x, d)) == x
  {
  }

  lemma SetTwice(x: XRegs, d: XReg, u: Word, v: Word)
    ensures Set(Set(x, d, u), d, v) == Set(x, d, v)
  {
  }

  lemma SetBoth(x: XRegs, u: Word, v: Word)
    ensures Set(Set(x, X0, u), X1, v) == Set(Set(x, X1, v), X0, u)
  {
  }

  /** Both operands arrive aligned in X0 and X1, whichever registers or memory hold them on entry. */
  lemma RunLoadOperands(regs: FlagRegs, w: Width, next: Code, h: Host, k: Clobber)
    requires h.status == Running && Describes(regs, h.x, h.c.flags)
    ensures Run(LoadOperands(regs, AlignShift(w), next), h, k)
         == Run(next, h.(x := Set(Set(h.x, X0, Align(h.c.flags.a, w)), X1, Align(h.c.flags.b, w))), k)
  {
    hide Run, Set, LoadAligned, Align, AlignShift;
    var shift := AlignShift(w);
    var va, vb := Align(h.c.flags.a, w), Align(h.c.flags.b, w);
    var a := if regs.a == In(X1) && regs.b == In(X0) then InMemory else regs.a;
    if regs.b == In(X0) {
      RunLoadAligned(X1, FB, regs.b, w, LoadAligned(X0, FA, a, shift, next), h, k);
      if a.In? { GetSet(h.x, X1, vb, a.r); }
      RunLoadAligned(X0, FA, a, w, next, h.(x := Set(h.x, X1, vb)), k);
      SetBoth(h.x, va, vb);
    } else {
      RunLoadAligned(X0, FA, a, w, LoadAligned(X1, FB, regs.b, shift, next), h, k);
      if regs.b.In? { GetSet(h.x, X0, va, regs.b.r); }
      RunLoadAligned(X1, FB, regs.b, w, next, h.(x := Set(h.x, X0, va)), k);
    }
  }

  /** From NZCV to the condition, kind by kind. */
  lemma TableAfterCmp(cc: Cc, f: Tuple, p: Nzcv)
    requires f.kind == Sub && p == Nzcv(Msb(f.r, f.w), IsZero(f.r, f.w), !Below(f.a, f.b, f.w), SubOverflow(f.a, f.b, f.r, f.w))
    ensures AfterCmpSub(cc).Read? ==> Passes(AfterCmpSub(cc).host, p) == Holds(cc, f)
    ensures !AfterCmpSub(cc).Const?
  {
    hide Msb, IsZero, Below, SubOverflow, EvenParity, HalfCarry;
  }

  lemma TableAfterCmn(cc: Cc, f: Tuple, p: Nzcv)
    requires f.kind == Add && p == Nzcv(Msb(f.r, f.w), IsZero(f.r, f.w), Below(f.r, f.a, f.w), AddOverflow(f.a, f.b, f.r, f.w))
    ensures AfterCmnAdd(cc).Read? ==> Passes(AfterCmnAdd(cc).host, p) == Holds(cc, f)
    ensures !AfterCmnAdd(cc).Const?
  {
    hide Msb, IsZero, Below, AddOverflow, EvenParity, HalfCarry;
  }

  lemma TableAfterLogic(cc: Cc, f: Tuple, p: Nzcv)
    requires f.kind == Logic && p == Nzcv(Msb(f.r, f.w), IsZero(f.r, f.w), true, false)
    ensures AfterCmpLogic(cc).Read? ==> Passes(AfterCmpLogic(cc).host, p) == Holds(cc, f)
    ensures AfterCmpLogic(cc).Const? ==> AfterCmpLogic(cc).value == Holds(cc, f)
  {
    hide Msb, IsZero, EvenParity;
  }

  lemma TableAfterResult(cc: Cc, f: Tuple, p: Nzcv)
    requires f.kind != None && f.kind != Explicit && p == Nzcv(Msb(f.r, f.w), IsZero(f.r, f.w), true, false)
    ensures AfterCmpResult(cc).Read? ==> Passes(AfterCmpResult(cc).host, p) == Holds(cc, f)
    ensures !AfterCmpResult(cc).Const?
  {
    hide Msb, IsZero, EvenParity, Cf, Of, Af;
  }

  lemma ZeroAtWidth(r: Word, w: Width)
    requires Fits(r, w)
    ensures IsZero(r, w) == (r == 0)
  {
    LoOfFits(r, w);
  }

  lemma RunNil(h: Host, k: Clobber)
    ensures Run(Nil, h, k) == h
  {
  }

  /** The answer of a lowering on a state: what its code leaves must read as the condition. */
  predicate Exact(low: Lowering, cc: Cc, h: Host, k: Clobber) {
    match low
    case Refused => true
    case Constant(v) => v == Holds(cc, h.c.flags)
    case Compare(code, host) =>
      var h' := Run(code, h, k);
      h'.c == h.c && h'.status == Running && Passes(host, h'.p) == Holds(cc, h.c.flags)
  }

  lemma SubIsExact(cc: Cc, regs: FlagRegs, h: Host, k: Clobber)
    requires h.status == Running && WellFormed(h.c.flags) && Describes(regs, h.x, h.c.flags)
    requires h.c.flags.kind == Sub && cc != P && cc != NP
    ensures Exact(Lower(cc, Sub, h.c.flags.w, regs), cc, h, k)
  {
    hide Run, LoadOperands, AlignShift, Align, CmpFlags, AfterCmpSub, Fits, Set, Passes, Holds, Describes,
      Msb, Below, SubOverflow, IsZero, Diff;
    var f := h.c.flags;
    var h1 := h.(x := Set(Set(h.x, X0, Align(f.a, f.w)), X1, Align(f.b, f.w)));
    RunLoadOperands(regs, f.w, Emit(CmpReg(X0, X1), Nil), h, k);
    GetSet(Set(h.x, X0, Align(f.a, f.w)), X1, Align(f.b, f.w), X0);
    GetSet(Set(h.x, X0, Align(f.a, f.w)), X1, Align(f.b, f.w), X1);
    GetSet(h.x, X0, Align(f.a, f.w), X0);
    RunEmit(CmpReg(X0, X1), Nil, h1, k);
    RunNil(Do(CmpReg(X0, X1), h1, k), k);
    AlignedCmp(f.a, f.b, f.w);
    ZeroAtWidth(f.r, f.w);
    TableAfterCmp(cc, f, CmpFlags(Align(f.a, f.w), Align(f.b, f.w)));
  }

  lemma AddIsExact(cc: Cc, regs: FlagRegs, h: Host, k: Clobber)
    requires h.status == Running && WellFormed(h.c.flags) && Describes(regs, h.x, h.c.flags)
    requires h.c.flags.kind == Add && cc != P && cc != NP
    ensures Exact(Lower(cc, Add, h.c.flags.w, regs), cc, h, k)
  {
    hide Run, LoadOperands, AlignShift, Align, CmnFlags, AfterCmnAdd, Fits, Set, Passes, Holds, Describes,
      Msb, Below, AddOverflow, IsZero, Sum;
    var f := h.c.flags;
    var h1 := h.(x := Set(Set(h.x, X0, Align(f.a, f.w)), X1, Align(f.b, f.w)));
    RunLoadOperands(regs, f.w, Emit(CmnReg(X0, X1), Nil), h, k);
    GetSet(Set(h.x, X0, Align(f.a, f.w)), X1, Align(f.b, f.w), X0);
    GetSet(Set(h.x, X0, Align(f.a, f.w)), X1, Align(f.b, f.w), X1);
    GetSet(h.x, X0, Align(f.a, f.w), X0);
    RunEmit(CmnReg(X0, X1), Nil, h1, k);
    RunNil(Do(CmnReg(X0, X1), h1, k), k);
    AlignedCmn(f.a, f.b, f.w);
    ZeroAtWidth(f.r, f.w);
    TableAfterCmn(cc, f, CmnFlags(Align(f.a, f.w), Align(f.b, f.w)));
  }

  lemma ResultIsExact(cc: Cc, regs: FlagRegs, h: Host, k: Clobber)
    requires h.status == Running && WellFormed(h.c.flags) && Describes(regs, h.x, h.c.flags)
    requires cc != P && cc != NP && h.c.flags.kind !in {None, Explicit, Sub, Add}
    ensures Exact(Lower(cc, h.c.flags.kind, h.c.flags.w, regs), cc, h, k)
  {
    hide Run, LoadAligned, AlignShift, Align, CmpFlags, AfterCmpLogic, AfterCmpResult, Fits, Set, Passes, Holds, Msb, IsZero;
    var f := h.c.flags;
    var h1 := h.(x := Set(h.x, X0, Align(f.r, f.w)));
    RunLoadAligned(X0, FR, regs.r, f.w, Emit(CmpImm(X0, 0), Nil), h, k);
    GetSet(h.x, X0, Align(f.r, f.w), X0);
    RunEmit(CmpImm(X0, 0), Nil, h1, k);
    RunNil(Do(CmpImm(X0, 0), h1, k), k);
    AlignedCmpZero(f.r, f.w);
    ZeroAtWidth(f.r, f.w);
    if f.kind == Logic {
      TableAfterLogic(cc, f, CmpFlags(Align(f.r, f.w), 0));
    } else {
      TableAfterResult(cc, f, CmpFlags(Align(f.r, f.w), 0));
    }
  }

  lemma RunFold(r: XReg, h: Host, k: Clobber)
    requires h.status == Running
    ensures var h' := Run(Fold(r), h, k);
            h'.c == h.c && h'.status == Running && h'.p.z == EvenParity(Get(h.x, r))
  {
    hide Run, HostResult, EvenParity;
    var v := Get(h.x, r);
    var x1 := HostResult(EORW, v, HostResult(LSRW, v, 4));
    var x2 := HostResult(EORW, x1, HostResult(LSRW, x1, 2));
    var x3 := HostResult(EORW, x2, HostResult(LSRW, x2, 1));
    var h1 := h.(x := Set(h.x, X0, x1));
    var h2 := h1.(x := Set(h1.x, X0, x2));
    var h3 := h2.(x := Set(h2.x, X0, x3));
    RunEmit(XorLsr(X0, r, r, 4), Emit(XorLsr(X0, X0, X0, 2), Emit(XorLsr(X0, X0, X0, 1), Emit(TstBit0(X0), Nil))), h, k);
    RunEmit(XorLsr(X0, X0, X0, 2), Emit(XorLsr(X0, X0, X0, 1), Emit(TstBit0(X0), Nil)), h1, k);
    RunEmit(XorLsr(X0, X0, X0, 1), Emit(TstBit0(X0), Nil), h2, k);
    RunEmit(TstBit0(X0), Nil, h3, k);
    RunNil(Do(TstBit0(X0), h3, k), k);
    FoldedParity(v);
  }

  lemma ParityIsExact(cc: Cc, regs: FlagRegs, h: Host, k: Clobber)
    requires h.status == Running && Describes(regs, h.x, h.c.flags)
    requires (cc == P || cc == NP) && HasResultParity(h.c.flags.kind)
    ensures Exact(Lower(cc, h.c.flags.kind, h.c.flags.w, regs), cc, h, k)
  {
    hide Run, Fold, EvenParity, Cf, Of, Af, Set;
    var f := h.c.flags;
    if regs.r.In? {
      RunFold(regs.r.r, h, k);
    } else {
      RunEmit(LoadFlag(X0, FR), Fold(X0), h, k);
      GetSet(h.x, X0, f.r, X0);
      RunFold(X0, h.(x := Set(h.x, X0, f.r)), k);
    }
  }

  /** Whatever the lowering accepts, it answers as x86p_cond does, and touches only host registers and flags. */
  lemma LoweringIsExact(cc: Cc, regs: FlagRegs, h: Host, k: Clobber)
    requires h.status == Running && WellFormed(h.c.flags) && Describes(regs, h.x, h.c.flags)
    ensures Exact(Lower(cc, h.c.flags.kind, h.c.flags.w, regs), cc, h, k)
  {
    var kind := h.c.flags.kind;
    if cc == P || cc == NP {
      if HasResultParity(kind) { ParityIsExact(cc, regs, h, k); }
    } else if kind == Sub {
      SubIsExact(cc, regs, h, k);
    } else if kind == Add {
      AddIsExact(cc, regs, h, k);
    } else if kind != None && kind != Explicit {
      ResultIsExact(cc, regs, h, k);
    }
    hide WellFormed, Describes, LoadOperands, LoadAligned, Run, Holds, Chosen;
  }

  /** Exactly the conditions left to the x86p_cond call. */
  lemma RefusedExactly(cc: Cc, kind: Kind, w: Width, regs: FlagRegs)
    ensures Lower(cc, kind, w, regs).Refused? <==> (
      || kind in {None, Explicit}
      || (kind == Add && cc in {BE, A})
      || (kind in {Inc, Dec, Kind.Shl, Kind.Shr, Sar} && cc !in {Z, NZ, S, NS, P, NP}))
  {
    hide LoadOperands, LoadAligned;
  }
}
