/** Which instructions a translated block holds, where it stops and why, and which flag stores it leaves out. */
module BlockShape {
  import opened Words
  import opened Flags
  import opened Alu
  import opened Guest
  import opened A64
  import opened A64Cond
  import opened Emitter
  import opened InsnProof
  import opened Translator

  /** The k-th address from one on, each past the instruction decoded before it. */
  function Address(env: Env, from: Word, k: nat): Word {
    if k == 0 then from
    else
      var a := Address(env, from, k - 1);
      match env.decode(a)
      case Fetched(_, length) => (a + length) % 0x1_0000_0000
      case _ => a
  }

  lemma {:induction false} AddressNext(env: Env, from: Word, k: nat)
    requires env.decode(from).Fetched?
    ensures Address(env, from, k + 1) == Address(env, Plus(from, env.decode(from).length), k)
  {
    if k > 0 { AddressNext(env, from, k - 1); }
  }

  /** The block's instructions, its branch included. */
  function Insns(b: Block): seq<Insn> {
    match b
    case Leave(_) => []
    case Branch(i, _) => [i]
    case Then(i, _, _, rest) => [i] + Insns(rest)
  }

  predicate EndsInBranch(b: Block) {
    match b
    case Leave(_) => false
    case Branch(_, _) => true
    case Then(_, _, _, rest) => EndsInBranch(rest)
  }

  function LastCode(b: Block): Code {
    match b
    case Leave(code) => code
    case Branch(_, code) => code
    case Then(_, _, _, rest) => LastCode(rest)
  }

  predicate IsBranch(i: Insn) {
    i.Jmp? || i.Jcc?
  }

  /** An instruction the block may hold: decoded there, not an interception point unless it is the first, and emittable. */
  predicate Holds(env: Env, eip: Word, a: Word, i: Insn) {
    env.decode(a).Fetched? && env.decode(a).i == i && (a == eip || !env.boundary(a)) && env.canEmit(i)
  }

  /** The bytes up to the k-th instruction. */
  function Bytes(env: Env, from: Word, count: nat, len: nat, k: nat): nat {
    if k == 0 then len
    else Bytes(env, from, count, len, k - 1) + env.size(Address(env, from, k - 1), count + k - 1)
  }

  lemma {:induction false} BytesNext(env: Env, from: Word, count: nat, len: nat, k: nat)
    requires env.decode(from).Fetched?
    ensures Bytes(env, from, count, len, k + 1)
         == Bytes(env, Plus(from, env.decode(from).length), count + 1, len + env.size(from, count), k)
  {
    if k > 0 {
      BytesNext(env, from, count, len, k - 1);
      AddressNext(env, from, k - 1);
    }
  }

  predicate Crowded(env: Env, count: nat, len: nat) {
    count >= 64 || len + 384 + 640 + env.reserve(count) > env.cap
  }

  /** Why a block leaves at an address after `count` instructions in `len` bytes, and how. */
  predicate LeavesFor(env: Env, eip: Word, a: Word, count: nat, len: nat, how: Status) {
    if Crowded(env, count, len) || !env.decode(a).Fetched? || (a != eip && env.boundary(a)) then how == Ended
    else !env.canEmit(env.decode(a).i) && how == Unsupported
  }

  /** The instructions are those decoded in turn. */
  ghost predicate Decoded(env: Env, eip: Word, pc: Word, b: Block) {
    forall k: nat | k < |Insns(b)| :: Holds(env, eip, Address(env, pc, k), Insns(b)[k])
  }

  /** Each had room and kept within its own. */
  ghost predicate Roomy(env: Env, pc: Word, count: nat, len: nat, n: nat) {
    forall k: nat | k < n :: RoomAt(env, pc, count, len, k)
  }

  predicate RoomAt(env: Env, pc: Word, count: nat, len: nat, k: nat) {
    env.size(Address(env, pc, k), count + k) <= 384 && !Crowded(env, count + k, Bytes(env, pc, count, len, k))
  }

  ghost predicate BranchLast(b: Block) {
    forall k: nat | k < |Insns(b)| :: IsBranch(Insns(b)[k]) <==> k == |Insns(b)| - 1 && EndsInBranch(b)
  }

  /** It leaves by its branch, or for a reason at the next address. */
  ghost predicate Ends(env: Env, eip: Word, b: Block, a: Word, count: nat, total: nat) {
    EndsInBranch(b) || exists how :: LastCode(b) == Exit(a, how) && LeavesFor(env, eip, a, count, total, how)
  }

  /** A finished block from an instruction on, said without the loop that made it. */
  ghost predicate Shaped(env: Env, eip: Word, pc: Word, count: nat, len: nat, b: Block, total: nat) {
    var n := |Insns(b)|;
    && count + n <= 64 && Decoded(env, eip, pc, b) && Roomy(env, pc, count, len, n) && BranchLast(b)
    && total == Bytes(env, pc, count, len, n) && Ends(env, eip, b, Address(env, pc, n), count + n, total)
  }

  lemma {:induction false} LoopShapes(env: Env, eip: Word, pc: Word, count: nat, len: nat, t: Track, held: FlagRegs)
    requires count <= 64 && Translate(env, eip, pc, count, len, t, held).Translated?
    requires count > 0 || pc == eip
    ensures var tr := Translate(env, eip, pc, count, len, t, held); Shaped(env, eip, pc, count, len, tr.block, tr.len)
    decreases MAX_INSNS - count
  {
    hide InsnCode, TerminatorCode, WriterDead, TrackAfter, HeldAfter, StopBefore, Shaped, Holds, Crowded, LeavesFor, Plus;
    StopsFor(env, eip, pc, count, len);
    match StopBefore(env, eip, pc, count, len) {
      case StopRefused(_) =>
      case StopAt(how) => ShapedLeave(env, eip, pc, count, len, how);
      case Stay =>
        var i, next, size := env.decode(pc).i, Plus(pc, env.decode(pc).length), env.size(pc, count);
        if StraightLine(i) {
          var dead := WriterDead(env, eip, count, len, i, next);
          var tail := Translate(env, eip, next, count + 1, len + size, TrackAfter(i, t, dead), HeldAfter(i, dead));
          LoopShapes(env, eip, next, count + 1, len + size, TrackAfter(i, t, dead), HeldAfter(i, dead));
          ShapedThen(env, eip, pc, count, len, Then(i, dead, InsnCode(i, t, held, dead, pc), tail.block), tail.len);
        } else {
          ShapedBranch(env, eip, pc, count, len, i, TerminatorCode(i, t, held, next));
        }
    }
  }

  /** The loop's ways to stop, in the order it tries them. */
  lemma StopsFor(env: Env, eip: Word, pc: Word, count: nat, len: nat)
    requires count <= 64
    ensures match StopBefore(env, eip, pc, count, len)
      case Stay => count < 64 && env.decode(pc).Fetched? && Holds(env, eip, pc, env.decode(pc).i) && !Crowded(env, count, len)
      case StopAt(how) => LeavesFor(env, eip, pc, count, len, how)
      case StopRefused(_) => count == 0
  {
  }

  lemma ShapedLeave(env: Env, eip: Word, pc: Word, count: nat, len: nat, how: Status)
    requires count <= 64 && LeavesFor(env, eip, pc, count, len, how)
    ensures Shaped(env, eip, pc, count, len, Leave(Exit(pc, how)), len)
  {
    hide LeavesFor;
    assert LastCode(Leave(Exit(pc, how))) == Exit(Address(env, pc, 0), how);
  }

  lemma ShapedBranch(env: Env, eip: Word, pc: Word, count: nat, len: nat, i: Insn, code: Code)
    requires count < 64 && Holds(env, eip, pc, i) && IsBranch(i) && env.size(pc, count) <= 384 && !Crowded(env, count, len)
    ensures Shaped(env, eip, pc, count, len, Branch(i, code), len + env.size(pc, count))
  {
    hide Holds, Crowded;
    assert Insns(Branch(i, code)) == [i];
    assert Address(env, pc, 0) == pc && Bytes(env, pc, count, len, 0) == len;
    assert Bytes(env, pc, count, len, 1) == len + env.size(pc, count);
  }

  /** One more instruction in front of a shaped block. */
  lemma ShapedThen(env: Env, eip: Word, pc: Word, count: nat, len: nat, b: Block, total: nat)
    requires b.Then? && env.decode(pc).Fetched? && Holds(env, eip, pc, b.i) && !IsBranch(b.i)
    requires env.size(pc, count) <= 384 && !Crowded(env, count, len)
    requires Shaped(env, eip, Plus(pc, env.decode(pc).length), count + 1, len + env.size(pc, count), b.rest, total)
    ensures Shaped(env, eip, pc, count, len, b, total)
  {
    hide Holds, Crowded, LeavesFor, Decoded, Roomy, RoomAt, BranchLast, Ends, Bytes, Address, Plus;
    assert Insns(b) == [b.i] + Insns(b.rest);
    DecodedThen(env, eip, pc, b);
    RoomyThen(env, pc, count, len, |Insns(b.rest)|);
    BranchStaysLast(b);
    AddressNext(env, pc, |Insns(b.rest)|);
    BytesNext(env, pc, count, len, |Insns(b.rest)|);
    EndsThen(env, eip, b, Address(env, pc, |Insns(b)|), count + |Insns(b)|, total);
  }

  lemma DecodedThen(env: Env, eip: Word, pc: Word, b: Block)
    requires b.Then? && env.decode(pc).Fetched? && Holds(env, eip, pc, b.i)
    requires Decoded(env, eip, Plus(pc, env.decode(pc).length), b.rest)
    ensures Decoded(env, eip, pc, b)
  {
    hide Holds;
    forall k: nat | k < |Insns(b)| ensures Holds(env, eip, Address(env, pc, k), Insns(b)[k]) {
      if k > 0 { AddressNext(env, pc, k - 1); }
    }
  }

  lemma RoomyThen(env: Env, pc: Word, count: nat, len: nat, n: nat)
    requires env.decode(pc).Fetched? && env.size(pc, count) <= 384 && !Crowded(env, count, len)
    requires Roomy(env, Plus(pc, env.decode(pc).length), count + 1, len + env.size(pc, count), n)
    ensures Roomy(env, pc, count, len, n + 1)
  {
    hide RoomAt;
    var next, len' := Plus(pc, env.decode(pc).length), len + env.size(pc, count);
    forall k: nat | k < n + 1 ensures RoomAt(env, pc, count, len, k) {
      if k == 0 { RoomFirst(env, pc, count, len); } else { RoomNext(env, pc, count, len, k - 1); }
    }
  }

  lemma RoomFirst(env: Env, pc: Word, count: nat, len: nat)
    requires env.size(pc, count) <= 384 && !Crowded(env, count, len)
    ensures RoomAt(env, pc, count, len, 0)
  {
    hide Crowded;
  }

  lemma RoomNext(env: Env, pc: Word, count: nat, len: nat, k: nat)
    requires env.decode(pc).Fetched?
    requires RoomAt(env, Plus(pc, env.decode(pc).length), count + 1, len + env.size(pc, count), k)
    ensures RoomAt(env, pc, count, len, k + 1)
  {
    hide Crowded, Bytes, Address, Plus;
    AddressNext(env, pc, k);
    BytesNext(env, pc, count, len, k);
  }

  lemma BranchStaysLast(b: Block)
    requires b.Then? && !IsBranch(b.i) && BranchLast(b.rest)
    ensures BranchLast(b)
  {
    hide IsBranch;
    BranchOfLast(b.rest);
    forall k: nat | k < |Insns(b)| ensures IsBranch(Insns(b)[k]) <==> k == |Insns(b)| - 1 && EndsInBranch(b) {
      if k > 0 { assert Insns(b)[k] == Insns(b.rest)[k - 1]; }
    }
  }

  lemma {:induction false} BranchOfLast(b: Block)
    ensures EndsInBranch(b) ==> Insns(b) != []
  {
    if b.Then? { BranchOfLast(b.rest); }
  }

  lemma EndsThen(env: Env, eip: Word, b: Block, a: Word, count: nat, total: nat)
    requires b.Then? && Ends(env, eip, b.rest, a, count, total)
    ensures Ends(env, eip, b, a, count, total)
  {
    hide LeavesFor;
  }

  /**
   Every translated block: at most 64 instructions, decoded one after the
   other from its address on, none after the first at an interception point,
   all emittable, each within 384 bytes, the branch, if any, last. A block
   that leaves without one does so because the next address is such a point,
   cannot be fetched, decoded or emitted, or there is no budget left for it.
   */
  lemma BlockIsItsInstructions(env: Env, eip: Word, prologue: nat)
    requires TranslateBounded(env, eip, prologue).Translated?
    ensures var tr := TranslateBounded(env, eip, prologue);
      0 < |Insns(tr.block)| <= 64 && Shaped(env, eip, eip, 0, prologue, tr.block, tr.len)
      && prologue <= 32 && tr.len + env.tail(|Insns(tr.block)|) <= env.cap
      && env.tail(|Insns(tr.block)|) <= 640 + env.reserve(|Insns(tr.block)|)
  {
    hide Translate;
    LoopShapes(env, eip, eip, 0, prologue, LOST, NOWHERE);
    CountIsLength(TranslateBounded(env, eip, prologue).block);
  }

  lemma {:induction false} CountIsLength(b: Block)
    ensures BlockLength(b) == |Insns(b)|
  {
    if b.Then? { CountIsLength(b.rest); }
  }

  // ---- why a translation is refused ----

  lemma {:induction false} LateRefusalIsForSpace(env: Env, eip: Word, pc: Word, count: nat, len: nat, t: Track, held: FlagRegs)
    requires 0 < count <= 64
    ensures var tr := Translate(env, eip, pc, count, len, t, held); tr.Refuse? ==> tr.why == OutOfSpace
    decreases MAX_INSNS - count
  {
    hide InsnCode, TerminatorCode, WriterDead, TrackAfter, HeldAfter;
    if StopBefore(env, eip, pc, count, len) == Stay && StraightLine(env.decode(pc).i) {
      var i, next, size := env.decode(pc).i, Plus(pc, env.decode(pc).length), env.size(pc, count);
      var dead := WriterDead(env, eip, count, len, i, next);
      LateRefusalIsForSpace(env, eip, next, count + 1, len + size, TrackAfter(i, t, dead), HeldAfter(i, dead));
    }
  }

  lemma FirstStop(env: Env, eip: Word, prologue: nat)
    ensures StopBefore(env, eip, eip, 0, prologue) ==
      if Crowded(env, 0, prologue) then StopAt(Ended)
      else match env.decode(eip)
        case Unmapped => StopRefused(FetchFault)
        case Undecodable => StopRefused(DecodeFailed)
        case Fetched(i, _) => if env.canEmit(i) then Stay else StopRefused(UnsupportedAtEntry)
  {
  }

  /** The loop at the block's first instruction. */
  lemma AtEntry(env: Env, eip: Word, prologue: nat)
    ensures var tr := Translate(env, eip, eip, 0, prologue, LOST, NOWHERE);
      if Crowded(env, 0, prologue) then tr.Translated? && BlockLength(tr.block) == 0 && tr.len == prologue
      else match env.decode(eip)
        case Unmapped => tr == Refuse(FetchFault)
        case Undecodable => tr == Refuse(DecodeFailed)
        case Fetched(i, _) =>
          if !env.canEmit(i) then tr == Refuse(UnsupportedAtEntry)
          else if tr.Refuse? then tr.why == OutOfSpace else BlockLength(tr.block) > 0
  {
    hide InsnCode, TerminatorCode, WriterDead, TrackAfter, HeldAfter, Plus, StopBefore, Crowded;
    FirstStop(env, eip, prologue);
    if StopBefore(env, eip, eip, 0, prologue) == Stay && StraightLine(env.decode(eip).i) {
      var i, next, size := env.decode(eip).i, Plus(eip, env.decode(eip).length), env.size(eip, 0);
      var dead := WriterDead(env, eip, 0, prologue, i, next);
      LateRefusalIsForSpace(env, eip, next, 1, prologue + size, TrackAfter(i, LOST, dead), HeldAfter(i, dead));
    }
  }

  /** Every refusal but the one for space is about the first instruction, and exactly the first instruction's. */
  lemma RefusedForTheFirst(env: Env, eip: Word, prologue: nat)
    ensures var tr := TranslateBounded(env, eip, prologue);
      var begins := prologue <= 32 && !Crowded(env, 0, prologue);
      var fits := env.tail(0) <= 640 + env.reserve(0) && prologue + env.tail(0) <= env.cap;
      && (tr == Refuse(FetchFault) <==> begins && env.decode(eip).Unmapped?)
      && (tr == Refuse(DecodeFailed) <==> begins && env.decode(eip).Undecodable?)
      && (tr == Refuse(UnsupportedAtEntry) <==>
            || (begins && env.decode(eip).Fetched? && !env.canEmit(env.decode(eip).i))
            || (prologue <= 32 && Crowded(env, 0, prologue) && fits))
  {
    hide Translate, Crowded;
    AtEntry(env, eip, prologue);
  }

  /** The loop emits the instruction at an address: nothing stops it there. */
  predicate TakenUp(env: Env, eip: Word, a: Word, count: nat, len: nat) {
    !Crowded(env, count, len) && env.decode(a).Fetched? && Holds(env, eip, a, env.decode(a).i)
  }

  /** And goes on past it. */
  predicate GoesPast(env: Env, eip: Word, a: Word, count: nat, len: nat) {
    TakenUp(env, eip, a, count, len) && env.size(a, count) <= 384 && !IsBranch(env.decode(a).i)
  }

  /** It comes to the k-th instruction, whose code is longer than any instruction's may be. */
  ghost predicate OverrunsAt(env: Env, eip: Word, pc: Word, count: nat, len: nat, k: nat) {
    && (forall j: nat | j < k :: GoesPast(env, eip, Address(env, pc, j), count + j, Bytes(env, pc, count, len, j)))
    && TakenUp(env, eip, Address(env, pc, k), count + k, Bytes(env, pc, count, len, k))
    && env.size(Address(env, pc, k), count + k) > 384
  }

  ghost predicate Overruns(env: Env, eip: Word, pc: Word, count: nat, len: nat) {
    exists k: nat :: OverrunsAt(env, eip, pc, count, len, k)
  }

  lemma StaysForTaken(env: Env, eip: Word, pc: Word, count: nat, len: nat)
    ensures StopBefore(env, eip, pc, count, len) == Stay <==> TakenUp(env, eip, pc, count, len)
    ensures StopBefore(env, eip, pc, count, len) != StopRefused(OutOfSpace)
  {
  }

  /** Later instructions, counted from the next one on. */
  lemma OverrunsLater(env: Env, eip: Word, pc: Word, count: nat, len: nat, k: nat)
    requires GoesPast(env, eip, pc, count, len)
    ensures OverrunsAt(env, eip, pc, count, len, k + 1)
       <==> OverrunsAt(env, eip, Plus(pc, env.decode(pc).length), count + 1, len + env.size(pc, count), k)
  {
    hide TakenUp, Address, Bytes, Plus;
    Fetches(env, eip, pc, count, len);
    var next, len' := Plus(pc, env.decode(pc).length), len + env.size(pc, count);
    forall j: nat ensures Address(env, pc, j + 1) == Address(env, next, j) && Bytes(env, pc, count, len, j + 1) == Bytes(env, next, count + 1, len', j) {
      AddressNext(env, pc, j);
      BytesNext(env, pc, count, len, j);
    }
    AtStart(env, pc, count, len);
    hide GoesPast;
    if OverrunsAt(env, eip, pc, count, len, k + 1) {
      forall j: nat | j < k ensures GoesPast(env, eip, Address(env, next, j), count + 1 + j, Bytes(env, next, count + 1, len', j)) {
        assert GoesPast(env, eip, Address(env, pc, j + 1), count + (j + 1), Bytes(env, pc, count, len, j + 1));
      }
    }
    if OverrunsAt(env, eip, next, count + 1, len', k) {
      forall j: nat | j < k + 1 ensures GoesPast(env, eip, Address(env, pc, j), count + j, Bytes(env, pc, count, len, j)) {
        if j > 0 { assert GoesPast(env, eip, Address(env, next, j - 1), count + 1 + (j - 1), Bytes(env, next, count + 1, len', j - 1)); }
      }
    }
  }

  lemma Fetches(env: Env, eip: Word, pc: Word, count: nat, len: nat)
    requires TakenUp(env, eip, pc, count, len)
    ensures env.decode(pc).Fetched? && count < MAX_INSNS
  {
  }

  lemma AtStart(env: Env, pc: Word, count: nat, len: nat)
    ensures Address(env, pc, 0) == pc && Bytes(env, pc, count, len, 0) == len
  {
  }

  /** The loop fails the block exactly when it comes to an instruction whose code is too long. */
  lemma {:induction false} LoopOverruns(env: Env, eip: Word, pc: Word, count: nat, len: nat, t: Track, held: FlagRegs)
    ensures Translate(env, eip, pc, count, len, t, held) == Refuse(OutOfSpace) <==> Overruns(env, eip, pc, count, len)
    decreases MAX_INSNS - count
  {
    hide InsnCode, TerminatorCode, WriterDead, TrackAfter, HeldAfter, StopBefore, TakenUp, OverrunsAt, Plus;
    StaysForTaken(env, eip, pc, count, len);
    OverrunsHere(env, eip, pc, count, len);
    if GoesPast(env, eip, pc, count, len) {
      Fetches(env, eip, pc, count, len);
      var i, next, size := env.decode(pc).i, Plus(pc, env.decode(pc).length), env.size(pc, count);
      var dead := WriterDead(env, eip, count, len, i, next);
      LoopOverruns(env, eip, next, count + 1, len + size, TrackAfter(i, t, dead), HeldAfter(i, dead));
      OverrunsThere(env, eip, pc, count, len);
      assert Translate(env, eip, pc, count, len, t, held)
          == Prepend(Item(i, dead, InsnCode(i, t, held, dead, pc)),
                     Translate(env, eip, next, count + 1, len + size, TrackAfter(i, t, dead), HeldAfter(i, dead)));
    }
  }

  lemma OverrunsHere(env: Env, eip: Word, pc: Word, count: nat, len: nat)
    ensures !GoesPast(env, eip, pc, count, len) ==>
      (Overruns(env, eip, pc, count, len) <==> TakenUp(env, eip, pc, count, len) && env.size(pc, count) > 384)
  {
    hide TakenUp, Address, Bytes, GoesPast;
    AtStart(env, pc, count, len);
    if TakenUp(env, eip, pc, count, len) && env.size(pc, count) > 384 { assert OverrunsAt(env, eip, pc, count, len, 0); }
    if !GoesPast(env, eip, pc, count, len) && Overruns(env, eip, pc, count, len) {
      var k: nat :| OverrunsAt(env, eip, pc, count, len, k);
      if k > 0 { FirstGone(env, eip, pc, count, len, k); }
    }
  }

  lemma FirstGone(env: Env, eip: Word, pc: Word, count: nat, len: nat, k: nat)
    requires OverrunsAt(env, eip, pc, count, len, k) && k > 0
    ensures GoesPast(env, eip, pc, count, len)
  {
    hide TakenUp, GoesPast;
    assert GoesPast(env, eip, Address(env, pc, 0), count + 0, Bytes(env, pc, count, len, 0));
  }

  lemma OverrunsThere(env: Env, eip: Word, pc: Word, count: nat, len: nat)
    requires GoesPast(env, eip, pc, count, len) && env.decode(pc).Fetched?
    ensures Overruns(env, eip, pc, count, len)
       <==> Overruns(env, eip, Plus(pc, env.decode(pc).length), count + 1, len + env.size(pc, count))
  {
    hide TakenUp, Address, Bytes, Plus;
    var next, len' := Plus(pc, env.decode(pc).length), len + env.size(pc, count);
    AtStart(env, pc, count, len);
    if Overruns(env, eip, pc, count, len) {
      var k: nat :| OverrunsAt(env, eip, pc, count, len, k);
      assert k > 0;
      OverrunsLater(env, eip, pc, count, len, k - 1);
    }
    if Overruns(env, eip, next, count + 1, len') {
      var k: nat :| OverrunsAt(env, eip, next, count + 1, len', k);
      OverrunsLater(env, eip, pc, count, len, k);
    }
  }

  /** A translation is refused for space exactly when its prologue, one of its instructions or its tail is longer than it may be, or the tail does not fit. */
  lemma RefusedForSpace(env: Env, eip: Word, prologue: nat)
    ensures var loop := Translate(env, eip, eip, 0, prologue, LOST, NOWHERE);
      TranslateBounded(env, eip, prologue) == Refuse(OutOfSpace) <==>
        || prologue > 32 || Overruns(env, eip, eip, 0, prologue)
        || (loop.Translated? && var n := |Insns(loop.block)|; env.tail(n) > 640 + env.reserve(n) || loop.len + env.tail(n) > env.cap)
  {
    hide Translate, Overruns;
    LoopOverruns(env, eip, eip, 0, prologue, LOST, NOWHERE);
    if Translate(env, eip, eip, 0, prologue, LOST, NOWHERE).Translated? {
      CountIsLength(Translate(env, eip, eip, 0, prologue, LOST, NOWHERE).block);
    }
  }

  // ---- which stores are left out ----

  /** The scan's q-th instruction is one the loop will reach and emit, by the bound on what lies between. */
  predicate Reachable(env: Env, eip: Word, a: Word, count: nat, len: nat, q: nat) {
    && count + 1 + q < 64 && len + (q + 2) * 384 + 640 <= env.cap
    && env.decode(a).Fetched? && (a == eip || !env.boundary(a)) && env.canEmit(env.decode(a).i)
  }

  predicate VerdictAt(env: Env, a: Word, v: Verdict) {
    env.decode(a).Fetched? && Judge(env.decode(a).i) == v
  }

  /** Within the next instructions one rewrites every flag, and all before it are passed over. */
  ghost predicate Overwritten(env: Env, eip: Word, count: nat, len: nat, from: Word, step: nat, last: nat) {
    exists j: nat | step + j < last :: OverwrittenBy(env, eip, count, len, from, step, j)
  }

  ghost predicate OverwrittenBy(env: Env, eip: Word, count: nat, len: nat, from: Word, step: nat, j: nat) {
    && (forall q: nat | q <= j :: Reachable(env, eip, Address(env, from, q), count, len, step + q))
    && (forall q: nat | q < j :: VerdictAt(env, Address(env, from, q), Transparent))
    && VerdictAt(env, Address(env, from, j), Kills)
  }

  lemma {:induction false} ScanIsOverwritten(env: Env, eip: Word, count: nat, len: nat, pc: Word, step: nat)
    ensures ScanDead(env, eip, count, len, pc, step) <==> Overwritten(env, eip, count, len, pc, step, 8)
    decreases 8 - step
  {
    hide Judge, Reachable, VerdictAt, OverwrittenBy, ScanDead;
    ScanStep(env, eip, count, len, pc, step);
    if step < 8 {
      var next := if env.decode(pc).Fetched? then Plus(pc, env.decode(pc).length) else pc;
      ScanIsOverwritten(env, eip, count, len, next, step + 1);
      if ScanDead(env, eip, count, len, pc, step) {
        if VerdictAt(env, pc, Kills) {
          OverwrittenNow(env, eip, count, len, pc, step);
          assert OverwrittenBy(env, eip, count, len, pc, step, 0);
        } else {
          var j: nat :| step + 1 + j < 8 && OverwrittenBy(env, eip, count, len, next, step + 1, j);
          OverwrittenLater(env, eip, count, len, pc, step, j);
          assert OverwrittenBy(env, eip, count, len, pc, step, j + 1);
        }
      }
      if Overwritten(env, eip, count, len, pc, step, 8) {
        var j: nat :| step + j < 8 && OverwrittenBy(env, eip, count, len, pc, step, j);
        OverwrittenFrom(env, eip, count, len, pc, step, j);
        if j > 0 { assert step + 1 + (j - 1) < 8 && OverwrittenBy(env, eip, count, len, next, step + 1, j - 1); }
      }
    }
  }

  /** One step of the scan. */
  lemma ScanStep(env: Env, eip: Word, count: nat, len: nat, pc: Word, step: nat)
    ensures step >= 8 ==> !ScanDead(env, eip, count, len, pc, step)
    ensures step < 8 ==> (ScanDead(env, eip, count, len, pc, step) <==>
      && Reachable(env, eip, pc, count, len, step)
      && (VerdictAt(env, pc, Kills)
          || (VerdictAt(env, pc, Transparent) && ScanDead(env, eip, count, len, Plus(pc, env.decode(pc).length), step + 1))))
    ensures Reachable(env, eip, pc, count, len, step) ==> env.decode(pc).Fetched?
    ensures !(VerdictAt(env, pc, Kills) && VerdictAt(env, pc, Transparent))
  {
    hide Judge, Plus;
  }

  lemma OverwrittenNow(env: Env, eip: Word, count: nat, len: nat, pc: Word, step: nat)
    requires Reachable(env, eip, pc, count, len, step) && VerdictAt(env, pc, Kills)
    ensures OverwrittenBy(env, eip, count, len, pc, step, 0)
  {
    hide Reachable, VerdictAt;
  }

  lemma OverwrittenLater(env: Env, eip: Word, count: nat, len: nat, pc: Word, step: nat, j: nat)
    requires Reachable(env, eip, pc, count, len, step) && VerdictAt(env, pc, Transparent) && env.decode(pc).Fetched?
    requires OverwrittenBy(env, eip, count, len, Plus(pc, env.decode(pc).length), step + 1, j)
    ensures OverwrittenBy(env, eip, count, len, pc, step, j + 1)
  {
    hide Reachable, VerdictAt, Plus;
    forall q: nat | q <= j + 1 ensures Reachable(env, eip, Address(env, pc, q), count, len, step + q) {
      if q > 0 { AddressNext(env, pc, q - 1); assert step + 1 + (q - 1) == step + q; }
    }
    forall q: nat | q < j + 1 ensures VerdictAt(env, Address(env, pc, q), Transparent) {
      if q > 0 { AddressNext(env, pc, q - 1); }
    }
    AddressNext(env, pc, j);
  }

  lemma OverwrittenFrom(env: Env, eip: Word, count: nat, len: nat, pc: Word, step: nat, j: nat)
    requires OverwrittenBy(env, eip, count, len, pc, step, j)
    ensures Reachable(env, eip, pc, count, len, step) && env.decode(pc).Fetched?
    ensures if j == 0 then VerdictAt(env, pc, Kills)
            else VerdictAt(env, pc, Transparent) && OverwrittenBy(env, eip, count, len, Plus(pc, env.decode(pc).length), step + 1, j - 1)
  {
    assert Address(env, pc, 0) == pc;
    assert Reachable(env, eip, Address(env, pc, 0), count, len, step + 0);
    if j > 0 {
      assert VerdictAt(env, Address(env, pc, 0), Transparent);
      hide Reachable, VerdictAt, Plus;
      var next := Plus(pc, env.decode(pc).length);
      forall q: nat | q <= j - 1 ensures Reachable(env, eip, Address(env, next, q), count, len, step + 1 + q) {
        AddressNext(env, pc, q);
        assert Reachable(env, eip, Address(env, pc, q + 1), count, len, step + (q + 1));
      }
      forall q: nat | q < j - 1 ensures VerdictAt(env, Address(env, next, q), Transparent) {
        AddressNext(env, pc, q);
        assert VerdictAt(env, Address(env, pc, q + 1), Transparent);
      }
      AddressNext(env, pc, j - 1);
    }
  }

  /** Which stores a block leaves out, in order. */
  function Dead(b: Block): seq<bool> {
    match b
    case Leave(_) => []
    case Branch(_, _) => [false]
    case Then(_, dead, _, rest) => [dead] + Dead(rest)
  }

  /** The instructions whose store the look-ahead is asked about. */
  predicate Asked(i: Insn) {
    i.UnaryInsn? || (i.AluInsn? && i.op in {ADD, SUB, CMP, AND, OR, XOR, TEST, SHL, SHR, SAR})
  }

  ghost predicate DeadAt(env: Env, eip: Word, pc: Word, count: nat, len: nat, b: Block, k: nat)
    requires k < |Insns(b)| == |Dead(b)|
  {
    Dead(b)[k] <==>
      Asked(Insns(b)[k]) && Overwritten(env, eip, count + k, Bytes(env, pc, count, len, k) + 192, Address(env, pc, k + 1), 0, 8)
  }

  ghost predicate DeadExactly(env: Env, eip: Word, pc: Word, count: nat, len: nat, b: Block) {
    |Insns(b)| == |Dead(b)| && forall k: nat | k < |Insns(b)| :: DeadAt(env, eip, pc, count, len, b, k)
  }

  /** A store is left out of a block exactly when within eight instructions the loop will emit one that rewrites every flag, past none that could notice. */
  lemma {:induction false} LoopLeavesOut(env: Env, eip: Word, pc: Word, count: nat, len: nat, t: Track, held: FlagRegs)
    requires Translate(env, eip, pc, count, len, t, held).Translated?
    ensures DeadExactly(env, eip, pc, count, len, Translate(env, eip, pc, count, len, t, held).block)
    decreases MAX_INSNS - count
  {
    hide InsnCode, TerminatorCode, WriterDead, TrackAfter, HeldAfter, StopBefore, DeadExactly, Plus;
    FetchedToStay(env, eip, pc, count, len);
    match StopBefore(env, eip, pc, count, len) {
      case StopRefused(_) =>
      case StopAt(how) => NoneLeft(env, eip, pc, count, len, Leave(Exit(pc, how)));
      case Stay =>
        var i, next, size := env.decode(pc).i, Plus(pc, env.decode(pc).length), env.size(pc, count);
        if StraightLine(i) {
          var dead := WriterDead(env, eip, count, len, i, next);
          var tail := Translate(env, eip, next, count + 1, len + size, TrackAfter(i, t, dead), HeldAfter(i, dead));
          LoopLeavesOut(env, eip, next, count + 1, len + size, TrackAfter(i, t, dead), HeldAfter(i, dead));
          WriterIsAsked(env, eip, count, len, i, next);
          LeavesOutThen(env, eip, pc, count, len, Then(i, dead, InsnCode(i, t, held, dead, pc), tail.block));
        } else {
          BranchAsksNothing(env, eip, pc, count, len, i, TerminatorCode(i, t, held, next));
        }
    }
  }

  lemma FetchedToStay(env: Env, eip: Word, pc: Word, count: nat, len: nat)
    ensures StopBefore(env, eip, pc, count, len) == Stay ==> count < MAX_INSNS && env.decode(pc).Fetched?
  {
  }

  lemma WriterIsAsked(env: Env, eip: Word, count: nat, len: nat, i: Insn, next: Word)
    ensures WriterDead(env, eip, count, len, i, next) <==> Asked(i) && Overwritten(env, eip, count, len + 192, next, 0, 8)
  {
    hide ScanDead, Overwritten;
    ScanIsOverwritten(env, eip, count, len + 192, next, 0);
  }

  lemma NoneLeft(env: Env, eip: Word, pc: Word, count: nat, len: nat, b: Block)
    requires b.Leave?
    ensures DeadExactly(env, eip, pc, count, len, b)
  {
  }

  lemma BranchAsksNothing(env: Env, eip: Word, pc: Word, count: nat, len: nat, i: Insn, code: Code)
    requires IsBranch(i)
    ensures DeadExactly(env, eip, pc, count, len, Branch(i, code))
  {
    hide Overwritten, Bytes, Address;
    assert Insns(Branch(i, code)) == [i] && Dead(Branch(i, code)) == [false];
  }

  lemma LeavesOutThen(env: Env, eip: Word, pc: Word, count: nat, len: nat, b: Block)
    requires b.Then? && env.decode(pc).Fetched?
    requires b.dead <==> Asked(b.i) && Overwritten(env, eip, count, len + 192, Plus(pc, env.decode(pc).length), 0, 8)
    requires DeadExactly(env, eip, Plus(pc, env.decode(pc).length), count + 1, len + env.size(pc, count), b.rest)
    ensures DeadExactly(env, eip, pc, count, len, b)
  {
    hide Overwritten, Asked, Bytes, Address, Plus, DeadAt;
    var next, len' := Plus(pc, env.decode(pc).length), len + env.size(pc, count);
    assert Insns(b) == [b.i] + Insns(b.rest) && Dead(b) == [b.dead] + Dead(b.rest);
    forall k: nat | k < |Insns(b)| ensures DeadAt(env, eip, pc, count, len, b, k) {
      if k == 0 { DeadFirst(env, eip, pc, count, len, b); } else { DeadLater(env, eip, pc, count, len, b, k - 1); }
    }
  }

  lemma DeadFirst(env: Env, eip: Word, pc: Word, count: nat, len: nat, b: Block)
    requires b.Then? && env.decode(pc).Fetched? && |Insns(b)| == |Dead(b)|
    requires b.dead <==> Asked(b.i) && Overwritten(env, eip, count, len + 192, Plus(pc, env.decode(pc).length), 0, 8)
    ensures |Insns(b)| > 0 && DeadAt(env, eip, pc, count, len, b, 0)
  {
    hide Overwritten, Asked, Plus;
    AddressNext(env, pc, 0);
    assert Address(env, Plus(pc, env.decode(pc).length), 0) == Plus(pc, env.decode(pc).length);
  }

  lemma DeadLater(env: Env, eip: Word, pc: Word, count: nat, len: nat, b: Block, k: nat)
    requires b.Then? && env.decode(pc).Fetched? && |Insns(b.rest)| == |Dead(b.rest)| && k < |Insns(b.rest)|
    requires DeadAt(env, eip, Plus(pc, env.decode(pc).length), count + 1, len + env.size(pc, count), b.rest, k)
    ensures |Insns(b)| == |Dead(b)| && k + 1 < |Insns(b)| && DeadAt(env, eip, pc, count, len, b, k + 1)
  {
    hide Overwritten, Asked, Bytes, Address, Plus;
    AddressNext(env, pc, k + 1);
    BytesNext(env, pc, count, len, k);
    assert count + 1 + k == count + (k + 1);
  }

  lemma BlockLeavesOut(env: Env, eip: Word, prologue: nat)
    requires TranslateBounded(env, eip, prologue).Translated?
    ensures DeadExactly(env, eip, eip, 0, prologue, TranslateBounded(env, eip, prologue).block)
  {
    hide Translate, DeadExactly;
    LoopLeavesOut(env, eip, eip, 0, prologue, LOST, NOWHERE);
  }
}
