/**
 The part of an AArch64 core the integer translator emits for: 32-bit register
 views, NZCV, and the guest state its CPU register points at. Emitted code is
 a list of operations; a failed bounds check leaves it.
 */
module A64 {
  import opened Words
  import opened Flags
  import opened Alu
  import opened Cond
  import opened Guest

  // ---- host flags: AddWithCarry and the condition codes of the Arm Architecture Reference Manual ----

  datatype Nzcv = Nzcv(n: bool, z: bool, c: bool, v: bool)

  datatype HostCc = EQ | NE | CS | CC | MI | PL | VS | VC | HI | LS | GE | LT | GT | LE

  predicate Passes(cc: HostCc, p: Nzcv) {
    match cc
    case EQ => p.z
    case NE => !p.z
    case CS => p.c
    case CC => !p.c
    case MI => p.n
    case PL => !p.n
    case VS => p.v
    case VC => !p.v
    case HI => p.c && !p.z
    case LS => !p.c || p.z
    case GE => p.n == p.v
    case LT => p.n != p.v
    case GT => !p.z && p.n == p.v
    case LE => p.z || p.n != p.v
  }

  /** C is the unsigned overflow of the sum, V the signed one. */
  function AddWithCarry(x: Word, y: Word, carry: bool): Nzcv {
    var r := Lo32(x + y + Num(carry));
    Nzcv(r >= 0x8000_0000, r == 0,
         r != x + y + Num(carry),
         Signed(r, W4) != Signed(x, W4) + Signed(y, W4) + Num(carry))
  }

  function CmpFlags(x: Word, y: Word): Nzcv {
    AddWithCarry(x, 0xFFFF_FFFF - y, true)
  }

  function CmnFlags(x: Word, y: Word): Nzcv {
    AddWithCarry(x, y, false)
  }

  /** TST of bit 0: an AND, so C and V are clear. */
  function TstBit0Flags(x: Word): Nzcv {
    Nzcv(false, x % 2 == 0, false, false)
  }

  function TstFlags(x: Word): Nzcv {
    Nzcv(x >= 0x8000_0000, x == 0, false, false)
  }

  /** A test sets what adding zero would. */
  lemma TestAddsNothing(x: Word)
    ensures TstFlags(x) == CmnFlags(x, 0) && TstBit0Flags(x) == CmnFlags(x % 2, 0)
  {
    AddsNothing(x);
    AddsNothing(x % 2);
    hide AddWithCarry;
  }

  lemma AddsNothing(x: Word)
    ensures AddWithCarry(x, 0, false) == Nzcv(x >= 0x8000_0000, x == 0, false, false)
  {
    NothingSigned();
    assert Lo32(x + 0 + Num(false)) == x;
    hide Signed, Lo32;
  }

  lemma NothingSigned()
    ensures Signed(0, W4) == 0
  {
  }

  // ---- registers ----

  /** X0 to X2 carry operands, X8 is the encoder's scratch, CARRY the pending carry-in, EA the guest address. */
  datatype XReg = X0 | X1 | X2 | X8 | CARRY | EA | TMP

  datatype XRegs = XRegs(x0: Word, x1: Word, x2: Word, x8: Word, carry: Word, ea: Word, tmp: Word)

  function Get(x: XRegs, r: XReg): Word {
    match r
    case X0 => x.x0
    case X1 => x.x1
    case X2 => x.x2
    case X8 => x.x8
    case CARRY => x.carry
    case EA => x.ea
    case TMP => x.tmp
  }

  function Set(x: XRegs, r: XReg, v: Word): XRegs {
    match r
    case X0 => x.(x0 := v)
    case X1 => x.(x1 := v)
    case X2 => x.(x2 := v)
    case X8 => x.(x8 := v)
    case CARRY => x.(carry := v)
    case EA => x.(ea := v)
    case TMP => x.(tmp := v)
  }

  lemma GetSet(x: XRegs, r: XReg, v: Word, q: XReg)
    ensures Get(Set(x, r, v), q) == if q == r then v else Get(x, q)
  {
  }

  // ---- operations ----

  datatype HostAlu = ADDW | SUBW | ANDW | ORRW | EORW | LSLW | LSRW | ASRW

  /** Shifts by a register use its low five bits; ASR rounds the signed quotient down. */
  function HostResult(op: HostAlu, a: Word, b: Word): Word {
    match op
    case ADDW => Lo32(a + b)
    case SUBW => Lo32(a - b)
    case ANDW => And(a, b)
    case ORRW => Or(a, b)
    case EORW => Xor(a, b)
    case LSLW => Lo32(Words.Shl(a, b % 32))
    case LSRW => Words.Shr(a, b % 32)
    case ASRW => Lo32(Signed(a, W4) / Pow2(b % 32))
  }

  datatype FlagField = FA | FB | FR

  function Field(f: Tuple, x: FlagField): Word {
    match x case FA => f.a case FB => f.b case FR => f.r
  }

  datatype HostOp =
    | MovImm(d: XReg, imm: Word)
    | MovReg(d: XReg, s: XReg)
    | LoadReg(d: XReg, reg: RegIndex, w: Width)
    | StoreReg(reg: RegIndex, w: Width, s: XReg)
    | StoreRegImm(reg: RegIndex, w: Width, imm: Word)
    | LoadSegment(d: XReg, seg: Segment)
    | LoadMem(d: XReg, w: Width)
    | StoreMem(w: Width, s: XReg)
    | StoreMemImm(w: Width, imm: Word)
    | CheckBounds(w: Width, pc: Word)
    | AluReg(alu: HostAlu, d: XReg, a: XReg, b: XReg)
    | AluImm(alu: HostAlu, d: XReg, a: XReg, imm: Word)
    | AddLsl(d: XReg, a: XReg, b: XReg, log: Log)
    | XorLsr(d: XReg, a: XReg, b: XReg, shift: Word)
    | CmpReg(a: XReg, b: XReg)
    | CmpImm(a: XReg, imm: Word)
    | CmnReg(a: XReg, b: XReg)
    | TstReg(a: XReg)
    | TstBit0(a: XReg)
    | CSet(cc: HostCc, d: XReg)
    | LoadFlag(d: XReg, f: FlagField)
    | LoadCarryIn(d: XReg)
    | StoreCarryIn(s: XReg)
    | StorePair(a: XReg, b: XReg)
    | StoreResult(r: XReg)
    | StoreKind(kind: Kind, w: Width)
    | CallCf
    | CallAlu(op: Op, w: Width)
    | CallCond(cond: Cc)
    | CallLahf
    | CallSahf

  /** Still in the block, or returned with EIP stored: at its end, at an instruction it cannot run, or for a faulting access. */
  datatype Status = Running | Ended | Unsupported | Faulted

  /** `calls` numbers the helper calls made so far. */
  datatype Host = Host(c: Cpu, x: XRegs, p: Nzcv, status: Status, calls: nat)

  /** What a helper call leaves in the registers the calling convention does not preserve: each call whatever it likes. */
  datatype Left = Left(x: XRegs, p: Nzcv)

  type Clobber = Host -> Left

  /** The one unsigned compare: offset = EA - lo, out of bounds above size - width, and always when size < width. */
  predicate BoundsPass(lo: Word, size: Word, ea: Word, n: nat) {
    size >= n && Lo32(ea - lo) <= size - n
  }

  /**
   One operation. A helper call reads its arguments, acts on the guest state
   and clobbers everything but X0; around x86p_alu a memory operand's address
   is kept in a preserved register.
   */
  function Do(op: HostOp, h: Host, k: Clobber): Host {
    var c, x := h.c, h.x;
    match op
    case MovImm(d, imm) => h.(x := Set(x, d, imm))
    case MovReg(d, s) => h.(x := Set(x, d, Get(x, s)))
    case LoadReg(d, reg, w) => h.(x := Set(x, d, RegRead(c.regs, reg, w)))
    case StoreReg(reg, w, s) => h.(c := c.(regs := RegWrite(c.regs, reg, w, Get(x, s))))
    case StoreRegImm(reg, w, imm) => h.(c := c.(regs := RegWrite(c.regs, reg, w, imm)))
    case LoadSegment(d, seg) => h.(x := Set(x, d, SegmentBase(c, seg)))
    case LoadMem(d, w) => h.(x := Set(x, d, MemRead(c.mem, x.ea, w)))
    case StoreMem(w, s) => h.(c := c.(mem := MemWrite(c.mem, x.ea, w, Get(x, s))))
    case StoreMemImm(w, imm) => h.(c := c.(mem := MemWrite(c.mem, x.ea, w, imm)))
    case CheckBounds(w, pc) =>
      if BoundsPass(c.mem.lo, c.mem.size, x.ea, Bytes(w)) then h
      else h.(c := c.(eip := pc), status := Faulted)
    case AluReg(alu, d, a, b) => h.(x := Set(x, d, HostResult(alu, Get(x, a), Get(x, b))))
    case AluImm(alu, d, a, imm) => h.(x := Set(x, d, HostResult(alu, Get(x, a), imm)))
    case AddLsl(d, a, b, log) => h.(x := Set(x, d, Plus(Get(x, a), Scaled(Get(x, b), log))))
    case XorLsr(d, a, b, shift) => h.(x := Set(x, d, HostResult(EORW, Get(x, a), HostResult(LSRW, Get(x, b), shift))))
    case CmpReg(a, b) => h.(p := CmpFlags(Get(x, a), Get(x, b)))
    case CmpImm(a, imm) => h.(p := CmpFlags(Get(x, a), imm))
    case CmnReg(a, b) => h.(p := CmnFlags(Get(x, a), Get(x, b)))
    case TstReg(a) => h.(p := TstFlags(Get(x, a)))
    case TstBit0(a) => h.(p := TstBit0Flags(Get(x, a)))
    case CSet(cc, d) => h.(x := Set(x, d, Num(Passes(cc, h.p))))
    case LoadFlag(d, f) => h.(x := Set(x, d, Field(c.flags, f)))
    case LoadCarryIn(d) => h.(x := Set(x, d, c.flags.carryIn))
    case StoreCarryIn(s) => h.(c := c.(flags := c.flags.(carryIn := Get(x, s))))
    case StorePair(a, b) => h.(c := c.(flags := c.flags.(a := Get(x, a), b := Get(x, b))))
    case StoreResult(r) => h.(c := c.(flags := c.flags.(r := Get(x, r))))
    case StoreKind(kind, w) => h.(c := c.(flags := c.flags.(kind := kind, w := w)))
    case CallCf => h.(x := k(h).x.(x0 := Num(Cf(c.flags))), p := k(h).p, calls := h.calls + 1)
    case CallAlu(op, w) =>
      var out := Binary(op, x.x1, x.x2, w, c.flags);
      h.(c := c.(flags := out.f), x := k(h).x.(x0 := out.r, ea := x.ea), p := k(h).p, calls := h.calls + 1)
    case CallCond(cc) => h.(x := k(h).x.(x0 := Num(Holds(cc, c.flags))), p := k(h).p, calls := h.calls + 1)
    case CallLahf => h.(c := ExecLahf(c), x := k(h).x, p := k(h).p, calls := h.calls + 1)
    case CallSahf => h.(c := ExecSahf(c), x := k(h).x, p := k(h).p, calls := h.calls + 1)
  }

  /** Emitted code: straight-line operations, a forward skip over a body, and the exits. */
  datatype Code =
    | Nil
    | Emit(op: HostOp, next: Code)
    | SkipIfZero(r: XReg, body: Code, next: Code)
    | Exit(eip: Word, how: Status)
    | ExitOn(cc: HostCc, taken: Word, other: Word)

  function Run(code: Code, h: Host, k: Clobber): Host
    decreases code
  {
    if h.status != Running then h
    else match code
      case Nil => h
      case Emit(op, next) => Run(next, Do(op, h, k), k)
      case SkipIfZero(r, body, next) => Run(next, if Get(h.x, r) == 0 then h else Run(body, h, k), k)
      case Exit(eip, how) => h.(c := h.c.(eip := eip), status := how)
      case ExitOn(cc, taken, other) =>
        h.(c := h.c.(eip := if Passes(cc, h.p) then taken else other), status := Ended)
  }

  function Append(p: Code, q: Code): Code {
    match p
    case Nil => q
    case Emit(op, next) => Emit(op, Append(next, q))
    case SkipIfZero(r, body, next) => SkipIfZero(r, body, Append(next, q))
    case Exit(_, _) => p
    case ExitOn(_, _, _) => p
  }

  /** Code with no exit of its own. */
  predicate Straight(code: Code) {
    match code
    case Nil => true
    case Emit(_, next) => Straight(next)
    case SkipIfZero(_, body, next) => Straight(body) && Straight(next)
    case Exit(_, _) => false
    case ExitOn(_, _, _) => false
  }

  lemma {:induction false} RunAppend(p: Code, q: Code, h: Host, k: Clobber)
    requires Straight(p)
    ensures Run(Append(p, q), h, k) == Run(q, Run(p, h, k), k)
    decreases p
  {
    hide Do;
    if h.status == Running {
      match p {
        case Nil =>
        case Emit(op, next) => RunAppend(next, q, Do(op, h, k), k);
        case SkipIfZero(r, body, next) =>
          RunAppend(next, q, if Get(h.x, r) == 0 then h else Run(body, h, k), k);
      }
    }
  }

  /**
   The bounds check accepts exactly the accesses the interpreter accepts, for
   every address, if and only if the mapping does not run past the top of
   guest space -- or is too small for the access, when both refuse everything.
   */
  lemma BoundsCheckExact(lo: Word, size: Word, w: Width)
    ensures (forall ea: Word :: BoundsPass(lo, size, ea, Bytes(w)) <==> Accessible(lo, size, ea, Bytes(w)))
       <==> (size < Bytes(w) || lo + size <= 0x1_0000_0000)
  {
    if size >= Bytes(w) && lo + size > 0x1_0000_0000 {
      var ea := Lo32(lo + size - Bytes(w));
      assert BoundsPass(lo, size, ea, Bytes(w)) && !Accessible(lo, size, ea, Bytes(w));
    }
  }
}
