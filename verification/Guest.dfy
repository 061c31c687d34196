/**
 The guest machine and its reference interpreter: one decoded instruction at
 a time, for the subset the block translator is checked on.
 */
module Guest {
  import opened Words
  import opened Flags
  import opened Alu
  import opened Cond

  type RegIndex = i: nat | i < 8

  const EAX: RegIndex := 0
  const ECX: RegIndex := 1

  type Regs = s: seq<Word> | |s| == 8 witness seq(8, _ => 0)

  type Byte = b: nat | b < 256

  /** A contiguous mapping of `size` bytes at guest address `lo`. */
  datatype Memory = Memory(lo: Word, size: Word, bytes: map<Word, Byte>)

  datatype Segment = Flat | Fs | Gs

  datatype Cpu = Cpu(regs: Regs, mem: Memory, eip: Word, fsBase: Word, gsBase: Word, flags: Tuple)

  datatype Base = NoBase | Base(reg: RegIndex)

  /** The logarithm of a scale of 1, 2, 4 or 8. */
  type Log = n: nat | n < 4

  datatype Index = NoIndex | Index(reg: RegIndex, lowByte: bool, shift: Log)

  datatype MemRef = MemRef(base: Base, index: Index, disp: Word, seg: Segment)

  datatype Operand = Reg(r: RegIndex) | Imm(v: Word) | Mem(m: MemRef)

  datatype Insn =
    | Nop
    | Mov(dst: Operand, src: Operand, w: Width)
    | Lea(to: RegIndex, m: MemRef)
    | AluInsn(op: Op, dst: Operand, src: Operand, w: Width)
    | UnaryInsn(un: UnaryOp, dst: Operand, w: Width)
    | Setcc(cc: Cc, dst: Operand)
    | Lahf
    | Sahf
    | Jmp(rel: Word)
    | Jcc(cc: Cc, rel: Word)

  // ---- registers ----

  /** Byte registers 4 to 7 are the high bytes of the first four. */
  function RegRead(regs: Regs, i: RegIndex, w: Width): Word {
    match w
    case W1 => if i < 4 then regs[i] % 0x100 else regs[i - 4] / 0x100 % 0x100
    case W2 => regs[i] % 0x1_0000
    case W4 => regs[i]
  }

  /** A narrow write preserves the rest of the register. */
  function RegWrite(regs: Regs, i: RegIndex, w: Width, v: Word): Regs {
    match w
    case W1 =>
      if i < 4 then regs[i := regs[i] - regs[i] % 0x100 + v % 0x100]
      else regs[i - 4 := regs[i - 4] / 0x1_0000 * 0x1_0000 + v % 0x100 * 0x100 + regs[i - 4] % 0x100]
    case W2 => regs[i := regs[i] - regs[i] % 0x1_0000 + v % 0x1_0000]
    case W4 => regs[i := v]
  }

  // ---- memory ----

  function Bytes(w: Width): nat {
    match w case W1 => 1 case W2 => 2 case W4 => 4
  }

  /** The whole access lies in the mapping and does not run past the top of guest space. */
  predicate Accessible(lo: Word, size: Word, addr: Word, n: nat) {
    addr + n <= 0x1_0000_0000 && lo <= addr && addr - lo + n <= size
  }

  predicate InRange(m: Memory, addr: Word, w: Width) {
    Accessible(m.lo, m.size, addr, Bytes(w))
  }

  function ByteAt(m: Memory, addr: int): Byte {
    if Lo32(addr) in m.bytes then m.bytes[Lo32(addr)] else 0
  }

  /** Little-endian. */
  function MemRead(m: Memory, addr: Word, w: Width): Word {
    match w
    case W1 => ByteAt(m, addr)
    case W2 => ByteAt(m, addr) + 0x100 * ByteAt(m, addr + 1)
    case W4 =>
      ByteAt(m, addr) + 0x100 * ByteAt(m, addr + 1) + 0x1_0000 * ByteAt(m, addr + 2) + 0x100_0000 * ByteAt(m, addr + 3)
  }

  /** Storing the byte already there changes nothing. */
  function SetByte(m: Memory, addr: int, b: Byte): Memory {
    if ByteAt(m, addr) == b then m else m.(bytes := m.bytes[Lo32(addr) := b])
  }

  function MemWrite(m: Memory, addr: Word, w: Width, v: Word): Memory {
    var m0 := SetByte(m, addr, v % 0x100);
    if w == W1 then m0
    else
      var m1 := SetByte(m0, addr + 1, v / 0x100 % 0x100);
      if w == W2 then m1
      else SetByte(SetByte(m1, addr + 2, v / 0x1_0000 % 0x100), addr + 3, v / 0x100_0000)
  }

  /** Writing back what was read changes nothing. */
  lemma RewriteMem(m: Memory, addr: Word, w: Width)
    ensures MemWrite(m, addr, w, MemRead(m, addr, w)) == m
  {
    hide ByteAt;
    var b0, b1, b2, b3 := ByteAt(m, addr), ByteAt(m, addr + 1), ByteAt(m, addr + 2), ByteAt(m, addr + 3);
    if w == W2 { SplitBytes(b0, b1, 0, 0); } else if w == W4 { SplitBytes(b0, b1, b2, b3); }
  }

  lemma SplitBytes(b0: Byte, b1: Byte, b2: Byte, b3: Byte)
    ensures var v: Word := b0 + 0x100 * b1 + 0x1_0000 * b2 + 0x100_0000 * b3;
      v % 0x100 == b0 && v / 0x100 % 0x100 == b1 && v / 0x1_0000 % 0x100 == b2 && v / 0x100_0000 == b3
  {
    var v := b0 + 0x100 * b1 + 0x1_0000 * b2 + 0x100_0000 * b3;
    var v1, v2 := b1 + 0x100 * b2 + 0x1_0000 * b3, b2 + 0x100 * b3;
    ModUnique(v, 0x100, v1, b0);
    ModUnique(v1, 0x100, v2, b1);
    ModUnique(v, 0x1_0000, v2, b0 + 0x100 * b1);
    ModUnique(v2, 0x100, b3, b2);
    ModUnique(v, 0x100_0000, b3, b0 + 0x100 * b1 + 0x1_0000 * b2);
  }

  lemma RewriteReg(regs: Regs, i: RegIndex, w: Width)
    ensures RegWrite(regs, i, w, RegRead(regs, i, w)) == regs
  {
    match w {
      case W1 => if i >= 4 { HighByte(regs[i - 4]); }
      case W2 =>
      case W4 =>
    }
  }

  /** A word taken apart and its second byte, its low byte or its low half replaced. */
  lemma SplitHigh(v: Word, b: Byte)
    ensures var r: Word := v / 0x1_0000 * 0x1_0000 + b * 0x100 + v % 0x100;
      r / 0x100 % 0x100 == b && r % 0x100 == v % 0x100 && r / 0x1_0000 == v / 0x1_0000
  {
    var r := v / 0x1_0000 * 0x1_0000 + b * 0x100 + v % 0x100;
    ModUnique(r, 0x100, v / 0x1_0000 * 0x100 + b, v % 0x100);
    ModUnique(v / 0x1_0000 * 0x100 + b, 0x100, v / 0x1_0000, b);
    ModUnique(r, 0x1_0000, v / 0x1_0000, b * 0x100 + v % 0x100);
  }

  lemma SplitLow(h: nat, mid: Byte, low: Byte, b: Byte)
    requires h < 0x1_0000
    ensures var v: Word, r: Word := 0x1_0000 * h + 0x100 * mid + low, 0x1_0000 * h + 0x100 * mid + b;
      v - v % 0x100 + b == r && r / 0x100 % 0x100 == v / 0x100 % 0x100 && r % 0x100 == b && r / 0x1_0000 == v / 0x1_0000
  {
    var v, r := 0x1_0000 * h + 0x100 * mid + low, 0x1_0000 * h + 0x100 * mid + b;
    ModUnique(v, 0x100, 0x100 * h + mid, low);
    ModUnique(r, 0x100, 0x100 * h + mid, b);
    ModUnique(v, 0x1_0000, h, 0x100 * mid + low);
    ModUnique(r, 0x1_0000, h, 0x100 * mid + b);
  }

  lemma LowByteOf(v: Word, b: Byte)
    ensures var r: Word := v - v % 0x100 + b;
      r / 0x100 % 0x100 == v / 0x100 % 0x100 && r % 0x100 == b && r / 0x1_0000 == v / 0x1_0000
  {
    HighByte(v);
    SplitLow(v / 0x1_0000, v / 0x100 % 0x100, v % 0x100, b);
  }

  lemma LowHalfOf(v: Word, b: Word)
    requires b < 0x1_0000
    ensures var r: Word := v - v % 0x1_0000 + b; r % 0x1_0000 == b && r / 0x1_0000 == v / 0x1_0000
  {
    ModUnique(v - v % 0x1_0000 + b, 0x1_0000, v / 0x1_0000, b);
  }

  /** A register write is read back at its width. */
  lemma WriteRegReads(regs: Regs, i: RegIndex, w: Width, v: Word)
    ensures RegRead(RegWrite(regs, i, w, v), i, w) == Lo(v, w)
  {
    match w {
      case W1 => if i < 4 { LowByteOf(regs[i], v % 0x100); } else { SplitHigh(regs[i - 4], v % 0x100); }
      case W2 => LowHalfOf(regs[i], v % 0x1_0000);
      case W4 =>
    }
  }

  /** Register i at a width does not hold byte register j, which is a quarter of register j % 4. */
  predicate Apart(i: RegIndex, w: Width, j: RegIndex) {
    if w == W1 then i != j else j % 4 != i
  }

  /** It changes no other byte register, and no upper half unless the whole register is written. */
  lemma WriteRegKeeps(regs: Regs, i: RegIndex, w: Width, v: Word, j: RegIndex)
    ensures Apart(i, w, j) ==> RegRead(RegWrite(regs, i, w, v), j, W1) == RegRead(regs, j, W1)
    ensures w != W4 || i != j ==> RegWrite(regs, i, w, v)[j] / 0x1_0000 == regs[j] / 0x1_0000
  {
    match w {
      case W1 => if i < 4 { LowByteOf(regs[i], v % 0x100); } else { SplitHigh(regs[i - 4], v % 0x100); }
      case W2 => LowHalfOf(regs[i], v % 0x1_0000);
      case W4 =>
    }
  }

  lemma SetByteReads(m: Memory, addr: int, b: Byte, x: int)
    ensures ByteAt(SetByte(m, addr, b), x) == if Lo32(x) == Lo32(addr) then b else ByteAt(m, x)
  {
  }

  /** The addresses an access of a width touches, past the top round to 0. */
  predicate Touches(addr: Word, w: Width, x: int) {
    || Lo32(x) == Lo32(addr)
    || (w != W1 && Lo32(x) == Lo32(addr + 1))
    || (w == W4 && (Lo32(x) == Lo32(addr + 2) || Lo32(x) == Lo32(addr + 3)))
  }

  /** The byte an access of a width leaves at an address it touches. */
  function ByteOf(addr: Word, v: Word, x: int): Byte {
    if Lo32(x) == Lo32(addr) then v % 0x100
    else if Lo32(x) == Lo32(addr + 1) then v / 0x100 % 0x100
    else if Lo32(x) == Lo32(addr + 2) then v / 0x1_0000 % 0x100
    else v / 0x100_0000
  }

  /** A memory write changes the bytes it touches and no other. */
  lemma WriteMemBytes(m: Memory, addr: Word, w: Width, v: Word, x: int)
    ensures ByteAt(MemWrite(m, addr, w, v), x) == if Touches(addr, w, x) then ByteOf(addr, v, x) else ByteAt(m, x)
  {
    hide Lo32, SetByte, ByteAt;
    FourApart(addr);
    var m0 := SetByte(m, addr, v % 0x100);
    var m1 := SetByte(m0, addr + 1, v / 0x100 % 0x100);
    var m2 := SetByte(m1, addr + 2, v / 0x1_0000 % 0x100);
    SetByteReads(m, addr, v % 0x100, x);
    SetByteReads(m0, addr + 1, v / 0x100 % 0x100, x);
    SetByteReads(m1, addr + 2, v / 0x1_0000 % 0x100, x);
    SetByteReads(m2, addr + 3, v / 0x100_0000, x);
  }

  lemma FourApart(addr: Word)
    ensures Lo32(addr) != Lo32(addr + 1) && Lo32(addr) != Lo32(addr + 2) && Lo32(addr) != Lo32(addr + 3)
    ensures Lo32(addr + 1) != Lo32(addr + 2) && Lo32(addr + 1) != Lo32(addr + 3) && Lo32(addr + 2) != Lo32(addr + 3)
  {
  }

  /** It is read back at its width. */
  lemma WriteMemReads(m: Memory, addr: Word, w: Width, v: Word)
    ensures MemRead(MemWrite(m, addr, w, v), addr, w) == Lo(v, w)
  {
    hide Lo32, SetByte, ByteAt, MemWrite;
    FourApart(addr);
    WriteMemBytes(m, addr, w, v, addr);
    WriteMemBytes(m, addr, w, v, addr + 1);
    WriteMemBytes(m, addr, w, v, addr + 2);
    WriteMemBytes(m, addr, w, v, addr + 3);
    FourBytes(v);
  }

  lemma FourBytes(v: Word)
    ensures v == v % 0x100 + 0x100 * (v / 0x100 % 0x100) + 0x1_0000 * (v / 0x1_0000 % 0x100) + 0x100_0000 * (v / 0x100_0000)
    ensures v % 0x1_0000 == v % 0x100 + 0x100 * (v / 0x100 % 0x100)
  {
    HighByte(v);
    ModUnique(v, 0x1_0000, v / 0x1_0000, v % 0x100 + 0x100 * (v / 0x100 % 0x100));
    assert v / 0x1_0000 / 0x100 == v / 0x100_0000;
  }

  lemma HighByte(v: Word)
    ensures v / 0x1_0000 * 0x1_0000 + v / 0x100 % 0x100 * 0x100 + v % 0x100 == v
  {
    assert v / 0x100 / 0x100 == v / 0x1_0000;
  }

  // ---- addressing ----

  function Plus(a: Word, b: Word): Word {
    Lo32(a + b)
  }

  function Scaled(v: Word, shift: Log): Word {
    Lo32(v * Pow2(shift))
  }

  function IndexValue(regs: Regs, ix: Index): Word {
    match ix
    case NoIndex => 0
    case Index(r, lowByte, shift) => Scaled(RegRead(regs, r, if lowByte then W1 else W4), shift)
  }

  function BaseValue(regs: Regs, b: Base): Word {
    match b
    case NoBase => 0
    case Base(r) => RegRead(regs, r, W4)
  }

  function SegmentBase(c: Cpu, s: Segment): Word {
    match s
    case Flat => 0
    case Fs => c.fsBase
    case Gs => c.gsBase
  }

  /** Displacement, base, scaled index, then the segment base: wraps at 32 bits. */
  function EffectiveAddress(c: Cpu, m: MemRef): Word {
    Plus(Plus(Plus(m.disp, BaseValue(c.regs, m.base)), IndexValue(c.regs, m.index)), SegmentBase(c, m.seg))
  }

  // ---- the interpreter ----

  /** Whether one instruction completed, or faulted with EIP left at it. */
  datatype Step = Done(c: Cpu) | Fault(c: Cpu)

  predicate Readable(c: Cpu, o: Operand, w: Width) {
    o.Mem? ==> InRange(c.mem, EffectiveAddress(c, o.m), w)
  }

  function ReadOperand(c: Cpu, o: Operand, w: Width): Word {
    match o
    case Reg(r) => RegRead(c.regs, r, w)
    case Imm(v) => v
    case Mem(m) => MemRead(c.mem, EffectiveAddress(c, m), w)
  }

  /** The write of a value to a register or to a memory operand already known to be accessible. */
  function WriteOperand(c: Cpu, o: Operand, w: Width, v: Word): Cpu {
    match o
    case Reg(r) => c.(regs := RegWrite(c.regs, r, w, v))
    case Imm(_) => c
    case Mem(m) => c.(mem := MemWrite(c.mem, EffectiveAddress(c, m), w, v))
  }

  predicate Discards(op: Op) {
    op == CMP || op == TEST
  }

  predicate CountsByRegister(op: Op) {
    IsShiftOp(op) || op == ROL || op == ROR || op == RCL || op == RCR
  }

  /** A shift or rotate reads CL at its own width, everything else its operand at the instruction's. */
  function SourceWidth(op: Op, src: Operand, w: Width): Width {
    if src.Reg? && CountsByRegister(op) then W1 else w
  }

  function ExecAlu(c: Cpu, op: Op, dst: Operand, src: Operand, w: Width): Step {
    var sw := SourceWidth(op, src, w);
    if !Readable(c, dst, w) || !Readable(c, src, sw) then Fault(c)
    else
      var out := Binary(op, ReadOperand(c, dst, w), ReadOperand(c, src, sw), w, c.flags);
      var c' := c.(flags := out.f);
      Done(if Discards(op) then c' else WriteOperand(c', dst, w, out.r))
  }

  function ExecUnary(c: Cpu, op: UnaryOp, dst: Operand, w: Width): Step {
    if !Readable(c, dst, w) then Fault(c)
    else
      var out := Unary(op, ReadOperand(c, dst, w), w, c.flags);
      Done(WriteOperand(c.(flags := out.f), dst, w, out.r))
  }

  function ExecMov(c: Cpu, dst: Operand, src: Operand, w: Width): Step {
    if !Readable(c, src, w) || !Readable(c, dst, w) then Fault(c)
    else Done(WriteOperand(c, dst, w, ReadOperand(c, src, w)))
  }

  function ExecSetcc(c: Cpu, cc: Cc, dst: Operand): Step {
    if !Readable(c, dst, W1) then Fault(c)
    else Done(WriteOperand(c, dst, W1, Num(Holds(cc, c.flags))))
  }

  /** The low byte of the flags -- bit 1 set, bits 3 and 5 clear -- into AH. */
  function LahfAx(ax: Word, word: Word): Word {
    var s := SixOf(word);
    ax % 0x100 + 0x100 * (2 + Num(s.cf) + 4 * Num(s.pf) + 0x10 * Num(s.af) + 0x40 * Num(s.zf) + 0x80 * Num(s.sf))
  }

  /** AH into the low byte of the flags; OF stays. */
  function SahfWord(ax: Word, word: Word): Word {
    WordOf(SixOf(ax / 0x100 % 0x100).(of := SixOf(word).of))
  }

  /** SAHF takes back the five flags LAHF put in AH. */
  lemma SahfUndoesLahf(ax: Word, word: Word)
    requires ax < 0x1_0000
    ensures SixOf(SahfWord(LahfAx(ax, word), word)) == SixOf(word)
  {
    hide WordOf, SixOf;
    var s := SixOf(word);
    var ah := 2 + Num(s.cf) + 4 * Num(s.pf) + 0x10 * Num(s.af) + 0x40 * Num(s.zf) + 0x80 * Num(s.sf);
    ModUnique(ax % 0x100 + 0x100 * ah, 0x100, ah, ax % 0x100);
    LowFlags(s);
    WordRoundTrip(s);
  }

  lemma LowFlags(s: Six)
    ensures SixOf(2 + Num(s.cf) + 4 * Num(s.pf) + 0x10 * Num(s.af) + 0x40 * Num(s.zf) + 0x80 * Num(s.sf)) == s.(of := false)
  {
  }

  function ExecLahf(c: Cpu): Cpu {
    c.(regs := RegWrite(c.regs, EAX, W2, LahfAx(RegRead(c.regs, EAX, W2), Eflags(c.flags))))
  }

  function ExecSahf(c: Cpu): Cpu {
    c.(flags := RecordExplicit(SahfWord(RegRead(c.regs, EAX, W2), Eflags(c.flags))))
  }

  /** Everything but EIP. */
  function Body(c: Cpu, i: Insn): Step {
    match i
    case Nop => Done(c)
    case Mov(dst, src, w) => ExecMov(c, dst, src, w)
    case Lea(r, m) => Done(c.(regs := RegWrite(c.regs, r, W4, EffectiveAddress(c, m))))
    case AluInsn(op, dst, src, w) => ExecAlu(c, op, dst, src, w)
    case UnaryInsn(op, dst, w) => ExecUnary(c, op, dst, w)
    case Setcc(cc, dst) => ExecSetcc(c, cc, dst)
    case Lahf => Done(ExecLahf(c))
    case Sahf => Done(ExecSahf(c))
    case Jmp(_) => Done(c)
    case Jcc(_, _) => Done(c)
  }

  /** Where the instruction goes when it completes. */
  function NextEip(c: Cpu, i: Insn, next: Word): Word {
    match i
    case Jmp(rel) => Plus(next, rel)
    case Jcc(cc, rel) => if Holds(cc, c.flags) then Plus(next, rel) else next
    case _ => next
  }

  /** One instruction of `length` bytes at EIP: done with EIP advanced, or faulted with EIP left at it. */
  function Exec(c: Cpu, i: Insn, length: Word): Step {
    match Body(c, i)
    case Done(c') => Done(c'.(eip := NextEip(c, i, Plus(c.eip, length))))
    case Fault(c') => Fault(c')
  }
}
