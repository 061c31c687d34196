/** The carry an INC or DEC has to keep, and the emitted INC, DEC, NEG and NOT. */
module UnaryProof {
  import opened Words
  import opened Flags
  import opened Alu
  import opened Guest
  import opened A64
  import opened A64Cond
  import opened Emitter
  import opened EmitterFacts
  import opened EmitterProof

  // ---- the incoming carry ----

  lemma CmpCarry(x: Word, y: Word)
    ensures CmpFlags(x, y).c == (x >= y)
  {
    hide Signed;
    Lo32Near(x + (0xFFFF_FFFF - y) + 1);
  }

  lemma RunCarryFrom(x: FlagField, y: FlagField, next: Code, h: Host, k: Clobber) returns (g: Host)
    requires h.status == Running
    ensures Run(CarryFrom(x, y, next), h, k) == Run(next, g, k)
    ensures g.c == h.c && g.status == Running
    ensures g.x.carry == Num(Field(h.c.flags, x) < Field(h.c.flags, y))
  {
    hide Run, Field, CmpFlags;
    var u, v := Field(h.c.flags, x), Field(h.c.flags, y);
    var h1 := h.(x := h.x.(carry := u));
    var h2 := h1.(x := h1.x.(x8 := v));
    var h3 := h2.(p := CmpFlags(u, v));
    g := h3.(x := h3.x.(carry := Num(u < v)));
    CmpCarry(u, v);
    var read := Emit(CSet(CC, CARRY), next);
    RunEmit(LoadFlag(CARRY, x), Emit(LoadFlag(X8, y), Emit(CmpReg(CARRY, X8), read)), h, k);
    RunEmit(LoadFlag(X8, y), Emit(CmpReg(CARRY, X8), read), h1, k);
    RunEmit(CmpReg(CARRY, X8), read, h2, k);
    RunEmit(CSet(CC, CARRY), next, h3, k);
  }

  lemma MaskOne(v: Word)
    ensures HostResult(ANDW, v, 1) == Num(HasCf(v))
  {
    assert Pow2(1) == 2;
    AndOnes(v, 1, 32);
  }

  lemma CarryOfFits(f: Tuple)
    requires WellFormed(f)
    ensures f.kind == Add ==> Cf(f) == (f.r < f.a)
    ensures f.kind == Sub ==> Cf(f) == (f.a < f.b)
    ensures Num(f.carryIn != 0) == f.carryIn
  {
    hide Lo;
    if f.kind == Add || f.kind == Sub {
      LoOfFits(f.a, f.w);
      LoOfFits(f.b, f.w);
      LoOfFits(f.r, f.w);
    }
  }

  /** Whatever the translator knows of the tuple, the register ends up holding x86p_flag_cf of it. */
  lemma RunComputeCarry(t: Track, next: Code, h: Host, k: Clobber) returns (g: Host)
    requires h.status == Running && Tracked(t, h.c.flags)
    ensures Run(ComputeCarry(t.kind, next), h, k) == Run(next, g, k)
    ensures g.c == h.c && g.status == Running && g.x.carry == Num(Cf(h.c.flags))
  {
    hide Run, Cf, WellFormed, CarryFrom, HostResult, ExecSahf, ExecLahf, Binary, MemWrite, MemRead, RegRead, RegWrite;
    var f := h.c.flags;
    if t.kind.Known? { CarryOfFits(f); CarryByKind(f); }
    match t.kind {
      case Known(None) =>
        g := h.(x := h.x.(carry := 0));
        RunMovImm(CARRY, 0, next, h, k);
      case Known(Logic) =>
        g := h.(x := h.x.(carry := 0));
        RunMovImm(CARRY, 0, next, h, k);
      case Known(Add) =>
        g := RunCarryFrom(FR, FA, next, h, k);
      case Known(Sub) =>
        g := RunCarryFrom(FA, FB, next, h, k);
      case Known(Explicit) =>
        var h1 := h.(x := h.x.(carry := f.a));
        g := h1.(x := h1.x.(carry := Num(HasCf(f.a))));
        MaskOne(f.a);
        RunEmit(LoadFlag(CARRY, FA), Emit(AluImm(ANDW, CARRY, CARRY, 1), next), h, k);
        RunAluImm(ANDW, CARRY, CARRY, 1, next, h1, k);
      case Known(Inc) =>
        g := h.(x := h.x.(carry := f.carryIn));
        RunEmit(LoadCarryIn(CARRY), next, h, k);
      case Known(Dec) =>
        g := h.(x := h.x.(carry := f.carryIn));
        RunEmit(LoadCarryIn(CARRY), next, h, k);
      case _ =>
        g := RunCallCf(next, h, k);
    }
  }

  lemma CarryByKind(f: Tuple)
    ensures f.kind == None || f.kind == Logic ==> !Cf(f)
    ensures f.kind == Explicit ==> Cf(f) == HasCf(f.a)
    ensures f.kind == Inc || f.kind == Dec ==> Cf(f) == (f.carryIn != 0)
  {
  }

  lemma RunCallCf(next: Code, h: Host, k: Clobber) returns (g: Host)
    requires h.status == Running
    ensures Run(Emit(CallCf, Emit(MovReg(CARRY, X0), next)), h, k) == Run(next, g, k)
    ensures g.c == h.c && g.status == Running && g.x.carry == Num(Cf(h.c.flags))
  {
    hide Run, Cf;
    var h1 := h.(x := k(h).x.(x0 := Num(Cf(h.c.flags))), p := k(h).p, calls := h.calls + 1);
    g := h1.(x := h1.x.(carry := h1.x.x0));
    RunEmit(CallCf, Emit(MovReg(CARRY, X0), next), h, k);
    RunMovReg(CARRY, X0, next, h1, k);
  }

  // ---- the operations ----

  /** What the host computes for the operation, before masking. */
  function UnaryHost(op: UnaryOp, a: Word): Word {
    match op
    case NOT => HostResult(EORW, a, 0xFFFF_FFFF)
    case NEG => HostResult(SUBW, 0, a)
    case INC => HostResult(ADDW, a, 1)
    case DEC => HostResult(SUBW, a, 1)
  }

  lemma HostMatchesUnary(op: UnaryOp, a: Word, w: Width, f: Tuple)
    requires Fits(a, w)
    ensures Lo(UnaryHost(op, a), w) == Unary(op, a, w, f).r
  {
    hide Lo, Lo32, Xor, Cf;
    LoOfFits(a, w);
    LoLo32(0 - a, w);
    LoLo32(a + 1, w);
    LoLo32(a - 1, w);
    Complement(a);
    LoShift(-1 - a, (0x1_0000_0000 / Modulus(w)), w);
    match w {
      case W1 => LoShift(-1 - a, 0x100_0000, w);
      case W2 => LoShift(-1 - a, 0x1_0000, w);
      case W4 => LoShift(-1 - a, 1, w);
    }
  }

  lemma Complement(a: Word)
    ensures Xor(a, 0xFFFF_FFFF) == 0xFFFF_FFFF - a
  {
    hide Bitwise, Pow2;
    Pow2Values();
    XorOnes(a, 32);
  }

  /** The registers a recorded NEG, INC or DEC tuple comes from. */
  function UnaryHeld(op: UnaryOp): FlagRegs {
    match op
    case NOT => NOWHERE
    case NEG => FlagRegs(In(X2), In(X0), In(X1))
    case _ => FlagRegs(In(X0), In(X2), In(X1))
  }

  function UnaryTuple(op: UnaryOp, a: Word, r: Word, w: Width, f: Tuple): Tuple {
    match op
    case NOT => f
    case NEG => Tuple(Sub, 0, a, r, w, f.carryIn)
    case INC => Tuple(Inc, a, 1, r, w, f.carryIn)
    case DEC => Tuple(Dec, a, 1, r, w, f.carryIn)
  }

  /** The last steps: mask, record unless dead, store. */
  function UnaryFinish(op: UnaryOp, dst: Operand, w: Width, dead: bool): Code
    requires op != NOT
  {
    var store := StorePrepared(dst, w, X1);
    MaskTo(X1, w,
      if dead then store
      else if op == NEG then Emit(MovImm(X2, 0), RecordFlags(X2, X0, X1, Sub, w, store))
      else Emit(MovImm(X2, 1), RecordFlags(X0, X2, X1, UnaryKind(op), w, store)))
  }

  lemma RunUnaryFinish(op: UnaryOp, dst: Operand, w: Width, dead: bool, h: Host, k: Clobber)
    requires h.status == Running && op != NOT && Prepared(h, dst)
    ensures var g := Run(UnaryFinish(op, dst, w, dead), h, k);
      var r := Lo(h.x.x1, w);
      var f := if dead then h.c.flags else UnaryTuple(op, h.x.x0, r, w, h.c.flags);
      && g.status == Running && g.c == WriteOperand(h.c.(flags := f), dst, w, r)
      && (!dead ==> Describes(UnaryHeld(op), g.x, f))
  {
    hide Run, Lo, RecordFlags, StorePrepared, WriteOperand, EffectiveAddress, MaskTo, Prepared;
    var store := StorePrepared(dst, w, X1);
    var b := if op == NEG then 0 else 1;
    var record := if op == NEG then RecordFlags(X2, X0, X1, Sub, w, store) else RecordFlags(X0, X2, X1, UnaryKind(op), w, store);
    var h1 := RunMask(X1, w, if dead then store else Emit(MovImm(X2, b), record), h, k);
    PreparedKept(h, X1, h1.x.x1, dst);
    var h3 := h1;
    if !dead {
      var h2 := h1.(x := Set(h1.x, X2, b));
      RunMovImm(X2, b, record, h1, k);
      PreparedKept(h1, X2, b, dst);
      if op == NEG {
        h3 := RunRecord(X2, X0, X1, Sub, w, store, h2, k);
      } else {
        h3 := RunRecord(X0, X2, X1, UnaryKind(op), w, store, h2, k);
      }
      PreparedFlags(h2, h3, dst);
    }
    RunStore(dst, w, X1, h3, k);
  }

  lemma PreparedFlags(h: Host, g: Host, o: Operand)
    requires Prepared(h, o) && SameBody(h.c, g.c) && g.x.ea == h.x.ea
    ensures Prepared(g, o)
  {
    AddressIgnoresFlags(h.c, g.c, o);
  }

  /** From the loaded operand on. */
  function UnaryRest(op: UnaryOp, dst: Operand, w: Width, dead: bool): Code
    requires op != NOT
  {
    match op
    case NEG => Emit(MovImm(X1, 0), Emit(AluReg(SUBW, X1, X1, X0), UnaryFinish(op, dst, w, dead)))
    case INC => Emit(AluImm(ADDW, X1, X0, 1), UnaryFinish(op, dst, w, dead))
    case DEC => Emit(AluImm(SUBW, X1, X0, 1), UnaryFinish(op, dst, w, dead))
  }

  lemma RunUnaryRest(op: UnaryOp, dst: Operand, w: Width, dead: bool, h: Host, k: Clobber, f0: Tuple)
    requires h.status == Running && op != NOT && Prepared(h, dst) && Fits(h.x.x0, w)
    ensures var g := Run(UnaryRest(op, dst, w, dead), h, k);
      var r := Unary(op, h.x.x0, w, f0).r;
      var f := if dead then h.c.flags else UnaryTuple(op, h.x.x0, r, w, h.c.flags);
      && g.status == Running && g.c == WriteOperand(h.c.(flags := f), dst, w, r)
      && (!dead ==> Describes(UnaryHeld(op), g.x, f))
  {
    hide Run, Lo, WriteOperand, MaskTo, Prepared, UnaryFinish, HostResult, Unary, UnaryTuple, Describes, Fits;
    var a := h.x.x0;
    var v := UnaryHost(op, a);
    HostMatchesUnary(op, a, w, f0);
    var finish := UnaryFinish(op, dst, w, dead);
    PreparedKept(h, X1, v, dst);
    if op == NEG {
      var h1 := h.(x := Set(h.x, X1, 0));
      RunMovImm(X1, 0, Emit(AluReg(SUBW, X1, X1, X0), finish), h, k);
      RunAluReg(SUBW, X1, X1, X0, finish, h1, k);
    } else {
      RunAluImm(if op == INC then ADDW else SUBW, X1, X0, 1, finish, h, k);
    }
    RunUnaryFinish(op, dst, w, dead, h.(x := Set(h.x, X1, v)), k);
  }

  /** The interpreter's NEG, INC or DEC, with the masked operand named. */
  lemma ExecUnaryIs(c: Cpu, op: UnaryOp, dst: Operand, w: Width)
    requires Readable(c, dst, w)
    ensures var a := Lo(ReadOperand(c, dst, w), w);
      var u := Unary(op, a, w, c.flags);
      && Fits(a, w) && ExecUnary(c, op, dst, w) == Done(WriteOperand(c.(flags := u.f), dst, w, u.r))
  {
    hide Cf, WriteOperand, ReadOperand, Readable, Lo;
    var v := ReadOperand(c, dst, w);
    LoFits(v, w);
    LoOfFits(Lo(v, w), w);
  }

  /** The recorded tuple is the interpreter's, CF kept by INC and DEC included. */
  lemma RecordedUnary(op: UnaryOp, a: Word, w: Width, f: Tuple, g: Tuple)
    requires op != NOT && Fits(a, w) && (op != NEG ==> g == f.(carryIn := Num(Cf(f))))
    ensures Same(UnaryTuple(op, a, Unary(op, a, w, f).r, w, g), Unary(op, a, w, f).f)
  {
    hide Cf, Lo;
    LoOfFits(a, w);
  }

  lemma RunUnaryReady(op: UnaryOp, dst: Operand, w: Width, dead: bool, pc: Word, h: Host, h1: Host, k: Clobber)
    requires h1.status == Running && op != NOT
    requires Prepared(h1, dst) && Readable(h.c, dst, w)
    requires h1.c == if dead || op == NEG then h.c else h.c.(flags := h.c.flags.(carryIn := Num(Cf(h.c.flags))))
    ensures Follows(ExecUnary(h.c, op, dst, w), Run(LoadPrepared(X0, dst, w, UnaryRest(op, dst, w, dead)), h1, k),
                    h, dead, UnaryHeld(op), pc)
  {
    hide Run, Lo, Cf, ReadOperand, WriteOperand, Prepared, UnaryRest, LoadPrepared, Unary, UnaryTuple, Fits, Same,
      Readable, UnaryHeld, Describes, Set;
    AddressIgnoresFlags(h.c, h1.c, dst);
    ReadIgnoresFlags(h.c, h1.c, dst, w);
    ExecUnaryIs(h.c, op, dst, w);
    var a := Lo(ReadOperand(h.c, dst, w), w);
    var h2 := RunLoad(X0, dst, w, UnaryRest(op, dst, w, dead), h1, k);
    PreparedKept(h1, X0, a, dst);
    GetSet(h1.x, X0, a, X0);
    RunUnaryRest(op, dst, w, dead, h2, k, h.c.flags);
    if !dead { RecordedUnary(op, a, w, h.c.flags, h1.c.flags); }
    var u := Unary(op, a, w, h.c.flags);
    var f := if dead then h1.c.flags else UnaryTuple(op, a, u.r, w, h1.c.flags);
    WriteIgnoresFlags(h.c, f, dst, w, u.r);
    WriteIgnoresFlags(h.c, u.f, dst, w, u.r);
    WriteKeepsFlags(h.c.(flags := f), dst, w, u.r);
    UnaryTupleBit(op, a, u.r, w, h1.c.flags);
  }

  lemma UnaryTupleBit(op: UnaryOp, a: Word, r: Word, w: Width, f: Tuple)
    ensures UnaryTuple(op, a, r, w, f).carryIn == f.carryIn
  {
  }

  lemma ReadIgnoresFlags(c: Cpu, d: Cpu, o: Operand, w: Width)
    requires SameBody(c, d)
    ensures ReadOperand(c, o, w) == ReadOperand(d, o, w)
  {
    hide RegRead, MemRead, EffectiveAddress;
    AddressIgnoresFlags(c, d, o);
  }

  lemma ExecUnaryFaults(c: Cpu, op: UnaryOp, dst: Operand, w: Width)
    requires !Readable(c, dst, w)
    ensures ExecUnary(c, op, dst, w) == Fault(c)
  {
  }

  /** NEG, and INC or DEC whose flags are dead: no carry is kept. */
  lemma RunPlainUnary(op: UnaryOp, dst: Operand, w: Width, t: Track, dead: bool, pc: Word, h: Host, k: Clobber)
    requires h.status == Running && Mapped(h.c.mem) && op != NOT && (dead || op == NEG)
    ensures Follows(ExecUnary(h.c, op, dst, w), Run(UnaryCode(op, dst, w, t.kind, dead, pc), h, k), h, dead, UnaryHeld(op), pc)
  {
    var code := LoadPrepared(X0, dst, w, UnaryRest(op, dst, w, dead));
    assert UnaryCode(op, dst, w, t.kind, dead, pc) == PrepareIfMemory(dst, w, pc, code);
    hide Run, LoadPrepared, UnaryRest, Prepared, Readable, ExecUnary, PrepareIfMemory, Mapped, Follows, UnaryCode,
      UnaryHeld, Cf;
    var h1 := RunPrepare(dst, w, pc, code, h, k);
    if Readable(h.c, dst, w) {
      RunUnaryReady(op, dst, w, dead, pc, h, h1, k);
    } else {
      ExecUnaryFaults(h.c, op, dst, w);
      FaultFollows(h.c, Run(PrepareIfMemory(dst, w, pc, code), h, k), h, dead, UnaryHeld(op), pc);
    }
  }

  lemma RunStoreCarry(dst: Operand, next: Code, h: Host, k: Clobber) returns (g: Host)
    requires h.status == Running && Prepared(h, dst)
    ensures Run(Emit(StoreCarryIn(CARRY), next), h, k) == Run(next, g, k)
    ensures g.c == h.c.(flags := h.c.flags.(carryIn := h.x.carry)) && g.status == Running && Prepared(g, dst)
  {
    hide Run, Prepared;
    g := h.(c := h.c.(flags := h.c.flags.(carryIn := h.x.carry)));
    RunEmit(StoreCarryIn(CARRY), next, h, k);
    PreparedFlags(h, g, dst);
  }

  /** INC and DEC: the old CF is read before the access can fault and stored only after. */
  lemma RunCounting(op: UnaryOp, dst: Operand, w: Width, t: Track, pc: Word, h: Host, k: Clobber)
    requires h.status == Running && Mapped(h.c.mem) && (op == INC || op == DEC) && Tracked(t, h.c.flags)
    ensures Follows(ExecUnary(h.c, op, dst, w), Run(UnaryCode(op, dst, w, t.kind, false, pc), h, k), h, false, UnaryHeld(op), pc)
  {
    var code := LoadPrepared(X0, dst, w, UnaryRest(op, dst, w, false));
    var stored := Emit(StoreCarryIn(CARRY), code);
    assert UnaryCode(op, dst, w, t.kind, false, pc) == ComputeCarry(t.kind, PrepareIfMemory(dst, w, pc, stored));
    hide Run, LoadPrepared, UnaryRest, Prepared, Readable, ExecUnary, PrepareIfMemory, Mapped, Follows, UnaryCode,
      UnaryHeld, Cf, ComputeCarry, Tracked, Do;
    var h0 := RunComputeCarry(t, PrepareIfMemory(dst, w, pc, stored), h, k);
    var h1 := RunPrepare(dst, w, pc, stored, h0, k);
    if Readable(h.c, dst, w) {
      var h2 := RunStoreCarry(dst, code, h1, k);
      RunUnaryReady(op, dst, w, false, pc, h, h2, k);
    } else {
      ExecUnaryFaults(h.c, op, dst, w);
      FaultFollows(h.c, Run(PrepareIfMemory(dst, w, pc, stored), h0, k), h, false, UnaryHeld(op), pc);
    }
  }

  lemma RunNot(dst: Operand, w: Width, t: Track, dead: bool, pc: Word, h: Host, k: Clobber)
    requires h.status == Running && Mapped(h.c.mem)
    ensures Follows(ExecUnary(h.c, NOT, dst, w), Run(UnaryCode(NOT, dst, w, t.kind, dead, pc), h, k), h, false, NOWHERE, pc)
  {
    hide Run, LoadPrepared, StorePrepared, Prepared, Readable, ExecUnary, PrepareIfMemory, Mapped, MaskTo,
      ReadOperand, WriteOperand, Lo, Cf, HostResult;
    var store := StorePrepared(dst, w, X0);
    var flip := Emit(AluImm(EORW, X0, X0, 0xFFFF_FFFF), MaskTo(X0, w, store));
    var h1 := RunPrepare(dst, w, pc, LoadPrepared(X0, dst, w, flip), h, k);
    if Readable(h.c, dst, w) {
      ExecUnaryIs(h.c, NOT, dst, w);
      var a := Lo(ReadOperand(h.c, dst, w), w);
      var h2 := RunLoad(X0, dst, w, flip, h1, k);
      var h3 := h2.(x := Set(h2.x, X0, UnaryHost(NOT, a)));
      RunAluImm(EORW, X0, X0, 0xFFFF_FFFF, MaskTo(X0, w, store), h2, k);
      var h4 := RunMask(X0, w, store, h3, k);
      HostMatchesUnary(NOT, a, w, h.c.flags);
      PreparedFlags(h1, h4, dst);
      RunStore(dst, w, X0, h4, k);
      var r := Unary(NOT, a, w, h.c.flags).r;
      WriteIgnoresFlags(h.c, h.c.flags, dst, w, r);
      WriteKeepsFlags(h.c, dst, w, r);
    } else {
      ExecUnaryFaults(h.c, NOT, dst, w);
    }
  }
}
