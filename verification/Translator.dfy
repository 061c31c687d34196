/**
 The block translator: the forward scan that finds flag stores nothing can
 observe, and the loop that emits one block under its instruction and byte
 budgets.
 */
module Translator {
  import opened Words
  import opened Alu
  import opened Guest
  import opened A64
  import opened A64Cond
  import opened Emitter
  import opened InsnProof

  const MAX_INSNS := 64
  const SCAN_STEPS := 8
  const PROLOGUE_BYTES := 32
  const WORST_CASE_INSN_BYTES := 384
  const EPILOGUE_BYTES := 640
  const X87_ROUTINE_BYTES := 192

  /** What fetching and decoding at an address gives. */
  datatype Fetch = Unmapped | Undecodable | Fetched(i: Insn, length: Word)

  /**
   Everything the translator asks about the outside, all of it arbitrary: the
   decoder, the embedder's interception points, the backend's translation
   gate, how many bytes each instruction takes and keeps in reserve for the
   block's tail, how many the tail takes, and the room there is.
   */
  datatype Env = Env(
    decode: Word -> Fetch,
    boundary: Word -> bool,
    canEmit: Insn -> bool,
    size: (Word, nat) -> nat,
    reserve: nat -> nat,
    tail: nat -> nat,
    cap: nat)

  // ---- the look-ahead ----

  datatype Verdict = Kills | Transparent | Stops

  /** ADD to XOR rewrite every flag from their operands; ADC and SBB read CF first. */
  function Judge(i: Insn): Verdict {
    match i
    case AluInsn(op, dst, src, _) =>
      if IsPlain(op) && !dst.Mem? && !src.Mem? then Kills
      else if IsShiftOp(op) && !dst.Mem? && src.Imm? && Count(src.v) != 0 then Kills
      else Stops
    case UnaryInsn(op, dst, _) =>
      if op == NEG && !dst.Mem? then Kills
      else if op == NOT && !dst.Mem? then Transparent
      else Stops
    case Nop => Transparent
    case Lea(_, _) => Transparent
    case Mov(dst, src, _) => if dst.Reg? && !src.Mem? then Transparent else Stops
    case _ => Stops
  }

  /** The scan from its `step`-th instruction on, for a writer that was instruction `count` at `codeLen` bytes. */
  predicate ScanDead(env: Env, eip: Word, count: nat, codeLen: nat, pc: Word, step: nat)
    decreases SCAN_STEPS - step
  {
    && step < SCAN_STEPS
    && count + 1 + step < MAX_INSNS
    && codeLen + (step + 2) * WORST_CASE_INSN_BYTES + EPILOGUE_BYTES <= env.cap
    && env.decode(pc).Fetched?
    && (pc == eip || !env.boundary(pc))
    && env.canEmit(env.decode(pc).i)
    && match Judge(env.decode(pc).i)
      case Kills => true
      case Transparent => ScanDead(env, eip, count, codeLen, Plus(pc, env.decode(pc).length), step + 1)
      case Stops => false
  }

  /** x86p_jit_flag_write_is_dead as the loop it is. */
  method FlagWriteIsDead(env: Env, eip: Word, count: nat, codeLen: nat, start: Word) returns (dead: bool)
    ensures dead == ScanDead(env, eip, count, codeLen, start, 0)
  {
    var pc := start;
    for step := 0 to SCAN_STEPS
      invariant ScanDead(env, eip, count, codeLen, start, 0) == ScanDead(env, eip, count, codeLen, pc, step)
    {
      if count + 1 + step >= MAX_INSNS { return false; }
      if codeLen + (step + 2) * WORST_CASE_INSN_BYTES + EPILOGUE_BYTES > env.cap { return false; }
      var fetch := env.decode(pc);
      if !fetch.Fetched? { return false; }
      if pc != eip && env.boundary(pc) { return false; }
      if !env.canEmit(fetch.i) { return false; }
      match Judge(fetch.i) {
        case Kills => return true;
        case Stops => return false;
        case Transparent => pc := Plus(pc, fetch.length);
      }
    }
    return false;
  }

  // ---- the emit loop ----

  datatype Refusal = FetchFault | DecodeFailed | UnsupportedAtEntry | OutOfSpace

  /** One emitted block: its instructions in order, each with its code, then the code that leaves. */
  datatype Block = Leave(code: Code) | Branch(i: Insn, code: Code) | Then(i: Insn, dead: bool, code: Code, rest: Block)

  /** `len` is how long the code is before the tail. */
  datatype Translation = Refuse(why: Refusal) | Translated(block: Block, len: nat)

  /** The instructions whose emitter asks whether its flags are dead. */
  predicate AsksLiveness(i: Insn) {
    match i
    case AluInsn(op, _, _, _) => IsPlain(op) || IsShiftOp(op)
    case UnaryInsn(_, _, _) => true
    case _ => false
  }

  predicate WriterDead(env: Env, eip: Word, count: nat, len: nat, i: Insn, next: Word) {
    AsksLiveness(i) && ScanDead(env, eip, count, len + X87_ROUTINE_BYTES, next, 0)
  }

  /** How the loop ends before an instruction, if it does. */
  datatype Stop = Stay | StopRefused(why: Refusal) | StopAt(how: Status)

  function StopBefore(env: Env, eip: Word, pc: Word, count: nat, len: nat): Stop {
    if count >= MAX_INSNS then StopAt(Ended)
    else if len + WORST_CASE_INSN_BYTES + EPILOGUE_BYTES + env.reserve(count) > env.cap then StopAt(Ended)
    else match env.decode(pc)
      case Unmapped => if count == 0 then StopRefused(FetchFault) else StopAt(Ended)
      case Undecodable => if count == 0 then StopRefused(DecodeFailed) else StopAt(Ended)
      case Fetched(i, _) =>
        if pc != eip && env.boundary(pc) then StopAt(Ended)
        else if !env.canEmit(i) then (if count == 0 then StopRefused(UnsupportedAtEntry) else StopAt(Unsupported))
        else Stay
  }

  function TerminatorCode(i: Insn, t: Track, held: FlagRegs, next: Word): Code
    requires !StraightLine(i)
  {
    match i
    case Jmp(rel) => Exit(Plus(next, rel), Ended)
    case Jcc(cc, rel) => JccCode(cc, t, held, Plus(next, rel), next)
  }

  /** The emit loop from an instruction on. An instruction past its worst case fails the whole block. */
  function Translate(env: Env, eip: Word, pc: Word, count: nat, len: nat, t: Track, held: FlagRegs): Translation
    decreases MAX_INSNS - count
  {
    match StopBefore(env, eip, pc, count, len)
    case StopRefused(why) => Refuse(why)
    case StopAt(how) => Translated(Leave(Exit(pc, how)), len)
    case Stay =>
      var i, next := env.decode(pc).i, Plus(pc, env.decode(pc).length);
      var size := env.size(pc, count);
      if size > WORST_CASE_INSN_BYTES then Refuse(OutOfSpace)
      else if !StraightLine(i) then Translated(Branch(i, TerminatorCode(i, t, held, next)), len + size)
      else
        var dead := WriterDead(env, eip, count, len, i, next);
        Prepend(Item(i, dead, InsnCode(i, t, held, dead, pc)),
                Translate(env, eip, next, count + 1, len + size, TrackAfter(i, t, dead), HeldAfter(i, dead)))
  }

  /** One emitted instruction. */
  datatype Item = Item(i: Insn, dead: bool, code: Code)

  function Prepend(item: Item, tr: Translation): Translation {
    match tr
    case Refuse(why) => Refuse(why)
    case Translated(rest, len) => Translated(Then(item.i, item.dead, item.code, rest), len)
  }

  function PrependAll(items: seq<Item>, tr: Translation): Translation {
    if items == [] then tr else PrependAll(items[..|items| - 1], Prepend(items[|items| - 1], tr))
  }

  lemma {:induction false} RefusalWins(items: seq<Item>, why: Refusal)
    ensures PrependAll(items, Refuse(why)) == Refuse(why)
  {
    if items != [] { RefusalWins(items[..|items| - 1], why); }
  }

  lemma PrependNone(tr: Translation)
    ensures PrependAll([], tr) == tr
  {
  }

  lemma PrependMore(items: seq<Item>, item: Item, tr: Translation)
    ensures PrependAll(items + [item], tr) == PrependAll(items, Prepend(item, tr))
  {
    assert (items + [item])[..|items|] == items;
  }

  /** One turn of the loop. */
  lemma OneTurn(env: Env, eip: Word, pc: Word, count: nat, len: nat, t: Track, held: FlagRegs)
    ensures var tr := Translate(env, eip, pc, count, len, t, held);
      match StopBefore(env, eip, pc, count, len)
      case StopRefused(why) => tr == Refuse(why)
      case StopAt(how) => tr == Translated(Leave(Exit(pc, how)), len)
      case Stay =>
        && count < MAX_INSNS && env.decode(pc).Fetched?
        && var i, next, size := env.decode(pc).i, Plus(pc, env.decode(pc).length), env.size(pc, count);
        if size > WORST_CASE_INSN_BYTES then tr == Refuse(OutOfSpace)
        else if !StraightLine(i) then tr == Translated(Branch(i, TerminatorCode(i, t, held, next)), len + size)
        else
          var dead := WriterDead(env, eip, count, len, i, next);
          tr == Prepend(Item(i, dead, InsnCode(i, t, held, dead, pc)),
                        Translate(env, eip, next, count + 1, len + size, TrackAfter(i, t, dead), HeldAfter(i, dead)))
  {
    hide InsnCode, TerminatorCode, ScanDead, TrackAfter, HeldAfter, Plus;
  }

  function BlockLength(b: Block): nat {
    match b
    case Leave(_) => 0
    case Branch(_, _) => 1
    case Then(_, _, _, rest) => 1 + BlockLength(rest)
  }

  /** The loop as it is: position, budgets and what is known of the flags, updated per instruction. */
  method EmitLoop(env: Env, eip: Word, prologue: nat) returns (tr: Translation)
    ensures tr == Translate(env, eip, eip, 0, prologue, LOST, NOWHERE)
  {
    hide InsnCode, TerminatorCode, ScanDead, TrackAfter, HeldAfter, Plus, StopBefore, Translate, Prepend, PrependAll;
    PrependNone(Translate(env, eip, eip, 0, prologue, LOST, NOWHERE));
    var pc, count: nat, len: nat := eip, 0, prologue;
    var t, held := LOST, NOWHERE;
    var items: seq<Item> := [];
    while true
      invariant Translate(env, eip, eip, 0, prologue, LOST, NOWHERE) == PrependAll(items, Translate(env, eip, pc, count, len, t, held))
      decreases MAX_INSNS - count
    {
      OneTurn(env, eip, pc, count, len, t, held);
      match StopBefore(env, eip, pc, count, len) {
        case StopRefused(why) => RefusalWins(items, why); return Refuse(why);
        case StopAt(how) => return PrependAll(items, Translated(Leave(Exit(pc, how)), len));
        case Stay =>
      }
      var i, next := env.decode(pc).i, Plus(pc, env.decode(pc).length);
      var size := env.size(pc, count);
      if size > WORST_CASE_INSN_BYTES { RefusalWins(items, OutOfSpace); return Refuse(OutOfSpace); }
      if !StraightLine(i) { return PrependAll(items, Translated(Branch(i, TerminatorCode(i, t, held, next)), len + size)); }
      var dead := false;
      if AsksLiveness(i) { dead := FlagWriteIsDead(env, eip, count, len + X87_ROUTINE_BYTES, next); }
      var item := Item(i, dead, InsnCode(i, t, held, dead, pc));
      PrependMore(items, item, Translate(env, eip, next, count + 1, len + size, TrackAfter(i, t, dead), HeldAfter(i, dead)));
      items := items + [item];
      t, held := TrackAfter(i, t, dead), HeldAfter(i, dead);
      pc, count, len := next, count + 1, len + size;
    }
  }

  /**
   x86p_jit_translate_bounded: the loop, and then what refuses a finished
   block: a prologue or a tail past its bound, a full buffer, and a block of
   no instructions.
   */
  function TranslateBounded(env: Env, eip: Word, prologue: nat): Translation {
    if prologue > PROLOGUE_BYTES then Refuse(OutOfSpace)
    else match Translate(env, eip, eip, 0, prologue, LOST, NOWHERE)
      case Refuse(why) => Refuse(why)
      case Translated(block, len) =>
        var count := BlockLength(block);
        if env.tail(count) > EPILOGUE_BYTES + env.reserve(count) then Refuse(OutOfSpace)
        else if len + env.tail(count) > env.cap then Refuse(OutOfSpace)
        else if count == 0 then Refuse(UnsupportedAtEntry)
        else Translated(block, len)
  }

  method TranslateBlock(env: Env, eip: Word, prologue: nat) returns (tr: Translation)
    ensures tr == TranslateBounded(env, eip, prologue)
  {
    if prologue > PROLOGUE_BYTES { return Refuse(OutOfSpace); }
    tr := EmitLoop(env, eip, prologue);
    if tr.Translated? {
      var count := BlockLength(tr.block);
      if env.tail(count) > EPILOGUE_BYTES + env.reserve(count) { return Refuse(OutOfSpace); }
      if tr.len + env.tail(count) > env.cap { return Refuse(OutOfSpace); }
      if count == 0 { return Refuse(UnsupportedAtEntry); }
    }
  }

  /** The room kept before an instruction holds it and the tail: where the bounds are kept, the buffer never overflows. */
  lemma {:induction false} BudgetSuffices(env: Env, eip: Word, pc: Word, count: nat, len: nat, t: Track, held: FlagRegs)
    requires forall n: nat :: env.reserve(n) == env.reserve(0)
    requires Translate(env, eip, pc, count, len, t, held).Translated?
    ensures var tr := Translate(env, eip, pc, count, len, t, held);
      BlockLength(tr.block) > 0 ==> tr.len + EPILOGUE_BYTES + env.reserve(0) <= env.cap
    decreases MAX_INSNS - count
  {
    hide InsnCode, TerminatorCode, WriterDead, TrackAfter, HeldAfter, Plus;
    if StopBefore(env, eip, pc, count, len) == Stay {
      assert env.reserve(count) == env.reserve(0);
      var i, next := env.decode(pc).i, Plus(pc, env.decode(pc).length);
      if StraightLine(i) {
        var dead := WriterDead(env, eip, count, len, i, next);
        BudgetSuffices(env, eip, next, count + 1, len + env.size(pc, count), TrackAfter(i, t, dead), HeldAfter(i, dead));
        BudgetAtEnd(env, eip, next, count + 1, len + env.size(pc, count), TrackAfter(i, t, dead), HeldAfter(i, dead));
      }
    }
  }

  /** A block that ends here ends where it stands. */
  lemma BudgetAtEnd(env: Env, eip: Word, pc: Word, count: nat, len: nat, t: Track, held: FlagRegs)
    requires Translate(env, eip, pc, count, len, t, held).Translated?
    ensures var tr := Translate(env, eip, pc, count, len, t, held); BlockLength(tr.block) == 0 ==> tr.len == len
  {
    hide InsnCode, TerminatorCode, WriterDead, TrackAfter, HeldAfter, Plus;
  }

  /** So a finished block is refused for space only when its own bounds were broken, and as empty only when it is. */
  lemma RefusedForItsBounds(env: Env, eip: Word, prologue: nat)
    requires forall n: nat :: env.reserve(n) == env.reserve(0)
    requires prologue <= PROLOGUE_BYTES && Translate(env, eip, eip, 0, prologue, LOST, NOWHERE).Translated?
    requires BlockLength(Translate(env, eip, eip, 0, prologue, LOST, NOWHERE).block) > 0
    ensures var block := Translate(env, eip, eip, 0, prologue, LOST, NOWHERE).block;
      TranslateBounded(env, eip, prologue).Refuse? <==> env.tail(BlockLength(block)) > EPILOGUE_BYTES + env.reserve(0)
  {
    hide Translate;
    BudgetSuffices(env, eip, eip, 0, prologue, LOST, NOWHERE);
    assert env.reserve(BlockLength(Translate(env, eip, eip, 0, prologue, LOST, NOWHERE).block)) == env.reserve(0);
  }

  function RunBlock(b: Block, h: Host, k: Clobber): Host {
    match b
    case Leave(code) => Run(code, h, k)
    case Branch(_, code) => Run(code, h, k)
    case Then(_, _, code, rest) => RunBlock(rest, Run(code, h, k), k)
  }

  // ---- the look-ahead agrees with the loop ----

  /** Transparent instructions, then one that rewrites every flag: what a dead store waits for. */
  predicate ReachesKiller(b: Block) {
    match b
    case Then(i, _, _, rest) => Judge(i) == Kills || (Judge(i) == Transparent && ReachesKiller(rest))
    case _ => false
  }

  /** A scan under way, with the loop where the scan stands. */
  predicate Scanning(env: Env, eip: Word, pc: Word, count: nat, len: nat, count0: nat, len0: nat, k: nat) {
    && ScanDead(env, eip, count0, len0 + X87_ROUTINE_BYTES, pc, k)
    && count == count0 + 1 + k && len <= len0 + (k + 1) * WORST_CASE_INSN_BYTES
  }

  ghost predicate BoundedReserve(env: Env) {
    forall n :: env.reserve(n) <= X87_ROUTINE_BYTES
  }

  /** Where the scan goes on, the loop goes on. */
  lemma ScanningStays(env: Env, eip: Word, pc: Word, count: nat, len: nat, count0: nat, len0: nat, k: nat,
                       size: nat)
    requires BoundedReserve(env) && Scanning(env, eip, pc, count, len, count0, len0, k) && size <= WORST_CASE_INSN_BYTES
    ensures StopBefore(env, eip, pc, count, len) == Stay && StraightLine(env.decode(pc).i)
    ensures Judge(env.decode(pc).i) == Transparent ==>
      Scanning(env, eip, Plus(pc, env.decode(pc).length), count + 1, len + size, count0, len0, k + 1)
    ensures Judge(env.decode(pc).i) != Stops
  {
    hide Plus;
    assert env.reserve(count) <= X87_ROUTINE_BYTES;
  }

  /**
   Whatever the decoder, the boundaries, the gate and the instruction sizes:
   a store the scan calls dead is overwritten in the same block, by an
   instruction the loop emits, with nothing between that could read or fault.
   */
  lemma {:induction false} LookAheadAgrees(env: Env, eip: Word, pc: Word, count: nat, len: nat, t: Track, held: FlagRegs,
                                           count0: nat, len0: nat, k: nat)
    requires BoundedReserve(env) && Scanning(env, eip, pc, count, len, count0, len0, k)
    ensures var tr := Translate(env, eip, pc, count, len, t, held); tr.Translated? ==> ReachesKiller(tr.block)
    decreases SCAN_STEPS - k
  {
    var size := env.size(pc, count);
    ScanningStays(env, eip, pc, count, len, count0, len0, k, if size <= WORST_CASE_INSN_BYTES then size else 0);
    var i, next := env.decode(pc).i, Plus(pc, env.decode(pc).length);
    if size <= WORST_CASE_INSN_BYTES && Judge(i) == Transparent {
      var dead := WriterDead(env, eip, count, len, i, next);
      LookAheadAgrees(env, eip, next, count + 1, len + size, TrackAfter(i, t, dead), HeldAfter(i, dead), count0, len0, k + 1);
    }
    hide StopBefore, WriterDead, Scanning, Judge, InsnCode, TrackAfter, HeldAfter, Plus, ScanDead;
  }

  /** Every instruction of every block whose store was left out: its killer is in the block. */
  predicate DeadStoresKilled(b: Block) {
    match b
    case Then(i, dead, _, rest) => (dead ==> ReachesKiller(rest)) && DeadStoresKilled(rest)
    case _ => true
  }

  lemma {:induction false} EveryDeadStoreIsKilled(env: Env, eip: Word, pc: Word, count: nat, len: nat, t: Track, held: FlagRegs)
    requires BoundedReserve(env)
    ensures var tr := Translate(env, eip, pc, count, len, t, held); tr.Translated? ==> DeadStoresKilled(tr.block)
    decreases MAX_INSNS - count
  {
    hide WriterDead, Judge, InsnCode, TrackAfter, HeldAfter, Plus, ScanDead, TerminatorCode, ReachesKiller, Scanning;
    if StopBefore(env, eip, pc, count, len) == Stay {
      var i, next := env.decode(pc).i, Plus(pc, env.decode(pc).length);
      var size := env.size(pc, count);
      if size <= WORST_CASE_INSN_BYTES && StraightLine(i) {
        var dead := WriterDead(env, eip, count, len, i, next);
        EveryDeadStoreIsKilled(env, eip, next, count + 1, len + size, TrackAfter(i, t, dead), HeldAfter(i, dead));
        if dead {
          ScanStarts(env, eip, count, len, i, next, size);
          LookAheadAgrees(env, eip, next, count + 1, len + size, TrackAfter(i, t, dead), HeldAfter(i, dead), count, len, 0);
        }
      }
    }
    hide StopBefore;
  }

  lemma ScanStarts(env: Env, eip: Word, count: nat, len: nat, i: Insn, next: Word, size: nat)
    requires WriterDead(env, eip, count, len, i, next) && size <= WORST_CASE_INSN_BYTES
    ensures Scanning(env, eip, next, count + 1, len + size, count, len, 0)
  {
    hide ScanDead;
  }
}
