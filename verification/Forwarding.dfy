/**
 The ARM64 encoder's store-to-load forwarding: a 32-bit load straight after a
 store of the same word becomes a move, or nothing. Code is emitted by calls;
 an instruction here may be several words, which only the lengths' order
 depends on.
 */
module Forwarding {
  import opened Words
  import A64

  type Reg = n: nat | n < 31

  /** What a store takes its word from: a register, or the zero register. */
  type Data = n: nat | n < 32

  const WZR: Data := 31

  type Disp = d: int | -0x8000_0000 <= d < 0x8000_0000

  /** The encoder's scratch register, for displacements the scaled form does not reach, and the one it takes a wide displacement from. */
  const X8: Reg := 8
  const X9: Reg := 9

  type X = v: nat | v < 0x1_0000_0000_0000_0000

  type Xs = s: seq<X> | |s| == 31 witness seq(31, _ => 0)

  type Byte = b: nat | b < 256

  datatype State = State(x: Xs, mem: map<X, Byte>, p: A64.Nzcv)

  // ---- the machine ----

  function Address(b: X, disp: int): X {
    (b + disp) % 0x1_0000_0000_0000_0000
  }

  /** The 32-bit view of a register. */
  function W(s: State, r: Data): Word {
    if r == WZR then 0 else s.x[r] % 0x1_0000_0000
  }

  function ByteAt(m: map<X, Byte>, a: X): Byte {
    if a in m then m[a] else 0
  }

  function Load(m: map<X, Byte>, a: X): Word {
    ByteAt(m, a) + 0x100 * ByteAt(m, Address(a, 1)) + 0x1_0000 * ByteAt(m, Address(a, 2)) + 0x100_0000 * ByteAt(m, Address(a, 3))
  }

  function Store(m: map<X, Byte>, a: X, v: Word): map<X, Byte> {
    m[a := v % 0x100][Address(a, 1) := v / 0x100 % 0x100][Address(a, 2) := v / 0x1_0000 % 0x100][Address(a, 3) := v / 0x100_0000]
  }

  datatype Ins =
    | MovW(dst: Reg, src: Data)
    | LdrW(dst: Reg, b: Reg, disp: Disp)
    | StrW(src: Data, b: Reg, disp: Disp)
    | Materialize(b: Reg, disp: Disp)
    | Other(f: State -> State)

  /** The displacements one addition reaches. */
  predicate Near(disp: Disp) {
    var magnitude := if disp < 0 then 0 - disp else disp;
    magnitude <= 0xFFF || (magnitude % 0x1000 == 0 && magnitude / 0x1000 <= 0xFFF)
  }

  /** The base plus the displacement in X8, by way of X9 when it is wide: a base in X9 is lost first. */
  function Materialized(x: Xs, b: Reg, disp: Disp): Xs {
    if Near(disp) then x[X8 := Address(x[b], disp)]
    else
      var y := x[X9 := Address(0, disp)];
      y[X8 := Address(y[b], y[X9])]
  }

  function Effect(i: Ins, s: State): State {
    match i
    case MovW(dst, src) => s.(x := s.x[dst := W(s, src)])
    case LdrW(dst, b, disp) => s.(x := s.x[dst := Load(s.mem, Address(s.x[b], disp))])
    case StrW(src, b, disp) => s.(mem := Store(s.mem, Address(s.x[b], disp), W(s, src)))
    case Materialize(b, disp) => s.(x := Materialized(s.x, b, disp))
    case Other(f) => f(s)
  }

  function Effects(code: seq<Ins>, s: State): State {
    if code == [] then s else Effects(code[1..], Effect(code[0], s))
  }

  // ---- the encoder ----

  /**
   What an emitter asks of the encoder. A branch is any control transfer: it
   may link, and goes on at the call its state says, past the last one to
   leave. A label is named by the call that took it.
   */
  datatype Call =
    | Load32(dst: Reg, b: Reg, disp: Disp)
    | Store32(b: Reg, disp: Disp, src: Data)
    | Plain(f: State -> State)
    | Branch(link: State -> State, next: State -> nat)
    | Bind
    | Label
    | BindTo(to: nat)

  /** The offsets a 32-bit load or store reaches by its scaled unsigned immediate. */
  predicate Fits(disp: Disp) {
    0 <= disp <= 4 * 4095 && disp % 4 == 0
  }

  datatype Forward = Nothing | Word(at: nat, b: Reg, disp: Disp, src: Data)

  /** Length so far and the forwarding fields. */
  datatype Emit = Emit(len: nat, fwd: Forward)

  const START := Emit(0, Nothing)

  /** Whether a load is answered by the store just emitted. */
  predicate Forwards(e: Emit, b: Reg, disp: Disp) {
    e.fwd.Word? && e.len == e.fwd.at && b == e.fwd.b && disp == e.fwd.disp
  }

  /** A load or store at its displacement, by way of the scratch register when it does not fit. */
  function Reach(b: Reg, disp: Disp, access: (Reg, Disp) -> Ins): seq<Ins> {
    if Fits(disp) then [access(b, disp)] else [Materialize(b, disp), access(X8, 0)]
  }

  function KeptLoad(dst: Reg, b: Reg, disp: Disp): seq<Ins> {
    Reach(b, disp, (r: Reg, d: Disp) => LdrW(dst, r, d))
  }

  function StoreCode(b: Reg, disp: Disp, src: Data): seq<Ins> {
    Reach(b, disp, (r: Reg, d: Disp) => StrW(src, r, d))
  }

  /** The instructions a call appends, with forwarding or with every load kept. A branch's own word is its call. */
  function Emitted(e: Emit, c: Call, forwarding: bool): seq<Ins> {
    match c
    case Load32(dst, b, disp) =>
      if forwarding && Forwards(e, b, disp) then (if dst == e.fwd.src then [] else [MovW(dst, e.fwd.src)])
      else KeptLoad(dst, b, disp)
    case Store32(b, disp, src) => StoreCode(b, disp, src)
    case Plain(f) => [Other(f)]
    case _ => []
  }

  function Length(e: Emit, c: Call): nat {
    e.len + (if c.Branch? then 1 else |Emitted(e, c, true)|)
  }

  /** The encoder's state after a call; `lengths` gives the length at which each label was taken. */
  function Next(e: Emit, c: Call, lengths: nat -> nat): Emit {
    var len := Length(e, c);
    match c
    case Store32(b, disp, src) => Emit(len, Word(len, b, disp, src))
    case Label => Emit(len, Nothing)
    case Bind => Emit(len, if e.fwd.Word? && e.fwd.at == len then Nothing else e.fwd)
    case BindTo(to) => Emit(len, if e.fwd.Word? && e.fwd.at == lengths(to) then Nothing else e.fwd)
    case _ => Emit(len, e.fwd)
  }

  function After(calls: seq<Call>, n: nat, lengths: nat -> nat): Emit
    requires n <= |calls|
  {
    if n == 0 then START else Next(After(calls, n - 1, lengths), calls[n - 1], lengths)
  }

  /** The encoder over its buffer, appending and updating its fields in place. */
  class Encoder {
    var code: seq<Ins>
    var branches: nat
    var fwd: Forward

    function Fields(): Emit
      reads this
    {
      Emit(|code| + branches, fwd)
    }

    constructor ()
      ensures Fields() == START && code == []
    {
      code, branches, fwd := [], 0, Nothing;
    }

    method EmitLoad32(dst: Reg, b: Reg, disp: Disp)
      modifies this
      ensures Fields() == Next(old(Fields()), Load32(dst, b, disp), _ => 0)
      ensures code == old(code) + Emitted(old(Fields()), Load32(dst, b, disp), true)
    {
      if fwd.Word? && |code| + branches == fwd.at && b == fwd.b && disp == fwd.disp {
        if dst != fwd.src { code := code + [MovW(dst, fwd.src)]; }
        return;
      }
      code := code + KeptLoad(dst, b, disp);
    }

    method EmitStore32(b: Reg, disp: Disp, src: Data)
      modifies this
      ensures Fields() == Next(old(Fields()), Store32(b, disp, src), _ => 0)
      ensures code == old(code) + StoreCode(b, disp, src)
    {
      code := code + StoreCode(b, disp, src);
      fwd := Word(|code| + branches, b, disp, src);
    }

    /** Any other instruction, and a branch's word. */
    method EmitOther(f: State -> State)
      modifies this
      ensures Fields() == Next(old(Fields()), Plain(f), _ => 0) && code == old(code) + [Other(f)]
    {
      code := code + [Other(f)];
    }

    method EmitBranch(link: State -> State, next: State -> nat)
      modifies this
      ensures Fields() == Next(old(Fields()), Branch(link, next), _ => 0) && code == old(code)
    {
      branches := branches + 1;
    }

    method TakeLabel() returns (at: nat)
      modifies this
      ensures Fields() == Next(old(Fields()), Label, _ => 0) && at == Fields().len && code == old(code)
    {
      fwd := Nothing;
      at := |code| + branches;
    }

    /** Binding a branch to a position also forgets a store that ends there. */
    method BindAt(target: nat)
      modifies this
      ensures Fields() == Next(old(Fields()), BindTo(0), _ => target) && code == old(code)
      ensures fwd == if old(fwd).Word? && old(fwd).at == target then Nothing else old(fwd)
      ensures target == old(Fields()).len ==> Fields() == Next(old(Fields()), Bind, _ => 0)
    {
      if fwd.Word? && fwd.at == target { fwd := Nothing; }
    }
  }

  // ---- running emitted code ----

  /**
   A branch of call i may go on at j: past the end, at the next call, after a
   label or a binding, be it to a position named by its length, or after
   another branch, as a return does.
   */
  predicate Lands(calls: seq<Call>, lengths: nat -> nat, i: nat, j: nat) {
    j >= |calls| || j == i + 1
    || (j > 0 && (calls[j - 1].Label? || calls[j - 1].Bind? || calls[j - 1].Branch? || BoundHere(calls, lengths, j - 1)))
  }

  predicate BoundHere(calls: seq<Call>, lengths: nat -> nat, k: nat)
    requires k < |calls|
  {
    calls[k].BindTo? && lengths(calls[k].to) == After(calls, k, lengths).len
  }

  ghost predicate Resolved(calls: seq<Call>, lengths: nat -> nat) {
    forall i, s | 0 <= i < |calls| && calls[i].Branch? :: Lands(calls, lengths, i, calls[i].next(s))
  }

  datatype Outcome = Finished(s: State, at: nat) | Unfinished

  /** The code from a call on, along whatever path its branches take, for at most `fuel` calls. */
  function Execute(calls: seq<Call>, lengths: nat -> nat, i: nat, s: State, fuel: nat, forwarding: bool): Outcome
    decreases fuel
  {
    if i >= |calls| then Finished(s, i)
    else if fuel == 0 then Unfinished
    else match calls[i]
      case Branch(link, next) => Execute(calls, lengths, next(s), link(s), fuel - 1, forwarding)
      case _ =>
        Execute(calls, lengths, i + 1, Effects(Emitted(After(calls, i, lengths), calls[i], forwarding), s), fuel - 1, forwarding)
  }

  /** The instructions appended from a call on. */
  function CodeFrom(calls: seq<Call>, lengths: nat -> nat, i: nat, forwarding: bool): seq<Ins>
    requires i <= |calls|
    decreases |calls| - i
  {
    if i == |calls| then [] else Emitted(After(calls, i, lengths), calls[i], forwarding) + CodeFrom(calls, lengths, i + 1, forwarding)
  }

  lemma {:induction false} EffectsAppend(a: seq<Ins>, b: seq<Ins>, s: State)
    ensures Effects(a + b, s) == Effects(b, Effects(a, s))
  {
    hide Effect;
    if a == [] {
      assert a + b == b;
    } else {
      assert (a + b)[1..] == a[1..] + b;
      EffectsAppend(a[1..], b, Effect(a[0], s));
    }
  }

  /** Up to the first branch, running the calls is running what the encoder appended for them, in order, and then taking the branch. */
  lemma {:induction false} RunsWhatWasAppended(calls: seq<Call>, lengths: nat -> nat, i: nat, n: nat, s: State, fuel: nat, forwarding: bool)
    requires i <= n <= |calls| && (forall k | i <= k < n :: !calls[k].Branch?) && n - i + 1 <= fuel
    requires n < |calls| ==> calls[n].Branch?
    ensures var s' := Effects(CodeFrom(calls[..n], lengths, i, forwarding), s);
      Execute(calls, lengths, i, s, fuel, forwarding)
      == if n == |calls| then Finished(s', n)
         else Execute(calls, lengths, calls[n].next(s'), calls[n].link(s'), fuel - (n - i) - 1, forwarding)
    decreases n - i
  {
    hide Effects, Emitted, After;
    EffectsNothing(s);
    if i < n {
      AfterPrefix(calls, n, i, lengths);
      var first := Emitted(After(calls, i, lengths), calls[i], forwarding);
      EffectsAppend(first, CodeFrom(calls[..n], lengths, i + 1, forwarding), s);
      RunsWhatWasAppended(calls, lengths, i + 1, n, Effects(first, s), fuel - 1, forwarding);
    }
  }

  lemma EffectsNothing(s: State)
    ensures Effects([], s) == s
  {
  }

  lemma {:induction false} AfterPrefix(calls: seq<Call>, n: nat, i: nat, lengths: nat -> nat)
    requires i <= n <= |calls|
    ensures After(calls[..n], i, lengths) == After(calls, i, lengths)
  {
    hide Next;
    if i > 0 { AfterPrefix(calls, n, i - 1, lengths); }
  }

  // ---- what the registers hold ----

  /** At one place of the code: the registers whose 32-bit view matters, those whose 64 bits do, those zero-extended. */
  datatype Roles = Roles(live: set<Reg>, whole: set<Reg>, narrow: set<Reg>)

  /** The same memory and flags, and the same registers as far as their roles go. */
  ghost predicate Related(s: State, t: State, r: Roles) {
    && s.mem == t.mem && s.p == t.p
    && (forall n | n in r.live :: W(s, n) == W(t, n))
    && (forall n | n in r.whole :: s.x[n] == t.x[n])
    && (forall n | n in r.narrow :: s.x[n] < 0x1_0000_0000 && t.x[n] < 0x1_0000_0000)
  }

  predicate Within(q: Roles, r: Roles) {
    q.live <= r.live && q.whole <= r.whole && q.narrow <= r.narrow
  }

  /** What reaching a displacement overwrites. */
  function Scratch(disp: Disp): set<Reg> {
    if Fits(disp) then {} else if Near(disp) then {X8} else {X8, X9}
  }

  /**
   The roles after a load. The scratch registers hold nothing when the load
   may have been answered without them; a load left out altogether
   zero-extends nothing.
   */
  function Loaded(e: Emit, r: Roles, dst: Reg, b: Reg, disp: Disp): Roles {
    var lost := Scratch(disp);
    var extended := !(Forwards(e, b, disp) && dst == e.fwd.src) || dst in r.narrow;
    var it := if extended then {dst} else {};
    Roles(r.live - lost + {dst}, r.whole - lost - {dst} + it, r.narrow - lost - {dst} + it)
  }

  /** The roles after a store: the scratch registers hold the address and the displacement, forwarding or not. */
  function Stored(r: Roles, disp: Disp): Roles {
    Roles(r.live + Scratch(disp), r.whole + Scratch(disp), r.narrow - Scratch(disp))
  }

  /**
   What the emitters keep to, each call with the roles before and after it: a
   base is wanted in all its bits, a stored register in its low ones, and
   everything else depends on nothing but what the roles say. A register may
   change its roles from one call to the next. A store's base is not the
   scratch register unless its displacement fits.
   */
  ghost predicate DisciplinedCall(e: Emit, c: Call, i: nat, roles: nat -> Roles) {
    var r, q := roles(i), roles(i + 1);
    match c
    case Load32(dst, b, disp) => b in r.whole && Within(q, Loaded(e, r, dst, b, disp))
    case Store32(b, disp, src) =>
      && b in r.whole && (b != X8 || Fits(disp)) && (src == WZR || src in r.live || src in Scratch(disp))
      && Within(q, Stored(r, disp))
    case Plain(f) => forall s, t :: Related(s, t, r) ==> Related(f(s), f(t), q)
    case Branch(link, next) => forall s, t :: Related(s, t, r) ==> next(s) == next(t) && Related(link(s), link(t), roles(next(s)))
    case _ => Within(q, r)
  }

  ghost predicate Disciplined(calls: seq<Call>, lengths: nat -> nat, roles: nat -> Roles) {
    forall i: nat | i < |calls| :: DisciplinedCall(After(calls, i, lengths), calls[i], i, roles)
  }

  /** The registers once the displacement has been reached, and the address accessed. */
  function Scratched(s: State, b: Reg, disp: Disp): State {
    if Fits(disp) then s else s.(x := Materialized(s.x, b, disp))
  }

  function Reached(s: State, b: Reg, disp: Disp): X {
    if Fits(disp) then Address(s.x[b], disp) else Materialized(s.x, b, disp)[X8]
  }

  /** A forwarding record in force is true of the machine. */
  predicate Holds(e: Emit, s: State) {
    e.fwd.Word? && e.fwd.at == e.len ==> Load(s.mem, Reached(s, e.fwd.b, e.fwd.disp)) == W(s, e.fwd.src)
  }

  predicate Past(e: Emit) {
    e.fwd.Word? ==> e.fwd.at <= e.len
  }

  lemma LoadStored(m: map<X, Byte>, a: X, v: Word)
    ensures Load(Store(m, a, v), a) == v
  {
    var a1, a2, a3 := Address(a, 1), Address(a, 2), Address(a, 3);
    Apart(a);
    BytesOf(v);
    hide Address;
  }

  lemma Apart(a: X)
    ensures a != Address(a, 1) && a != Address(a, 2) && a != Address(a, 3)
    ensures Address(a, 1) != Address(a, 2) && Address(a, 1) != Address(a, 3) && Address(a, 2) != Address(a, 3)
  {
  }

  lemma BytesOf(v: Word)
    ensures v % 0x100 + 0x100 * (v / 0x100 % 0x100) + 0x1_0000 * (v / 0x1_0000 % 0x100) + 0x100_0000 * (v / 0x100_0000) == v
  {
    var v1, v2, v3 := v / 0x100, v / 0x1_0000, v / 0x100_0000;
    ModUnique(v1, 0x100, v2, v / 0x100 % 0x100) by { assert v1 / 0x100 == v2; }
    ModUnique(v2, 0x100, v3, v2 % 0x100) by { assert v2 / 0x100 == v3; }
  }

  lemma EffectsOne(i: Ins, s: State)
    ensures Effects([i], s) == Effect(i, s)
  {
    hide Effect;
    assert [i][1..] == [];
    assert Effects([], Effect(i, s)) == Effect(i, s);
  }

  lemma EffectsTwo(i: Ins, j: Ins, s: State)
    ensures Effects([i, j], s) == Effect(j, Effect(i, s))
  {
    hide Effect;
    assert [i, j][1..] == [j];
    EffectsOne(j, Effect(i, s));
  }

  /** A wide displacement added from a register is the displacement added. */
  lemma AddressReduced(a: X, disp: int)
    ensures Address(a, Address(0, disp)) == Address(a, disp)
  {
    var m := 0x1_0000_0000_0000_0000;
    var q, r := disp / m, Address(0, disp);
    ModUnique(a + disp, m, q + (a + r) / m, (a + r) % m);
  }

  lemma MaterializedTo(x: Xs, b: Reg, disp: Disp)
    ensures var to := Materialized(x, b, disp);
      to[X8] == Address(if b == X9 && !Near(disp) then Address(0, disp) else x[b], disp)
  {
    hide Address, Near;
    AddressReduced(if b == X9 then Address(0, disp) else x[b], disp);
  }

  /** The machine after a store, scratch included. */
  lemma StoreDoes(b: Reg, disp: Disp, src: Data, s: State)
    ensures var s' := Scratched(s, b, disp);
      Effects(StoreCode(b, disp, src), s) == s'.(mem := Store(s.mem, Reached(s, b, disp), W(s', src)))
  {
    hide Address, Store, Materialized;
    if Fits(disp) {
      EffectsOne(StrW(src, b, disp), s);
    } else {
      EffectsTwo(Materialize(b, disp), StrW(src, X8, 0), s);
      AddressZero(Reached(s, b, disp));
    }
  }

  lemma LoadDoes(dst: Reg, b: Reg, disp: Disp, s: State)
    ensures var s' := Scratched(s, b, disp);
      Effects(KeptLoad(dst, b, disp), s) == s'.(x := s'.x[dst := Load(s.mem, Reached(s, b, disp))])
  {
    hide Address, Load, Materialized;
    if Fits(disp) {
      EffectsOne(LdrW(dst, b, disp), s);
    } else {
      EffectsTwo(Materialize(b, disp), LdrW(dst, X8, 0), s);
      AddressZero(Reached(s, b, disp));
    }
  }

  lemma AddressZero(a: X)
    ensures Address(a, 0) == a
  {
  }

  /** After a store its record is true, however the address was reached. */
  lemma StoreHolds(b: Reg, disp: Disp, src: Data, s: State)
    requires b != X8 || Fits(disp)
    ensures var t := Effects(StoreCode(b, disp, src), s); Load(t.mem, Reached(t, b, disp)) == W(t, src)
  {
    hide Address, Store, Load;
    StoreDoes(b, disp, src, s);
    LoadStored(s.mem, Reached(s, b, disp), W(Scratched(s, b, disp), src));
  }

  lemma LowOf(v: Word)
    ensures v % 0x1_0000_0000 == v
  {
  }

  /** Registers that agree where the roles ask reach the same address. */
  lemma SameReach(s: State, t: State, r: Roles, b: Reg, disp: Disp)
    requires Related(s, t, r) && b in r.whole
    ensures Reached(s, b, disp) == Reached(t, b, disp)
    ensures !Fits(disp) ==> Materialized(s.x, b, disp)[X8] == Materialized(t.x, b, disp)[X8]
  {
    hide Address;
  }

  /** Kept on both sides, a call keeps the machines related. */
  lemma StoreRelated(e: Emit, b: Reg, disp: Disp, src: Data, s: State, t: State, i: nat, roles: nat -> Roles)
    requires Related(s, t, roles(i)) && DisciplinedCall(e, Store32(b, disp, src), i, roles)
    ensures Related(Effects(StoreCode(b, disp, src), s), Effects(StoreCode(b, disp, src), t), roles(i + 1))
  {
    hide Address, Store;
    StoreDoes(b, disp, src, s);
    StoreDoes(b, disp, src, t);
    SameReach(s, t, roles(i), b, disp);
  }

  lemma LoadRelated(e: Emit, dst: Reg, b: Reg, disp: Disp, s: State, t: State, i: nat, roles: nat -> Roles)
    requires Related(s, t, roles(i)) && DisciplinedCall(e, Load32(dst, b, disp), i, roles)
    ensures Related(Effects(KeptLoad(dst, b, disp), s), Effects(KeptLoad(dst, b, disp), t), roles(i + 1))
  {
    hide Address, Load;
    LoadDoes(dst, b, disp, s);
    LoadDoes(dst, b, disp, t);
    SameReach(s, t, roles(i), b, disp);
  }

  /** The forwarded load against the kept one. */
  lemma ForwardRelated(e: Emit, dst: Reg, b: Reg, disp: Disp, s: State, t: State, i: nat, roles: nat -> Roles)
    requires Related(s, t, roles(i)) && DisciplinedCall(e, Load32(dst, b, disp), i, roles)
    requires Forwards(e, b, disp) && Holds(e, s)
    ensures Related(Effects(Emitted(e, Load32(dst, b, disp), true), s), Effects(KeptLoad(dst, b, disp), t), roles(i + 1))
  {
    hide Address, Load;
    LoadDoes(dst, b, disp, t);
    SameReach(s, t, roles(i), b, disp);
    LowOf(W(s, e.fwd.src));
    if dst != e.fwd.src {
      EffectsOne(MovW(dst, e.fwd.src), s);
    }
  }

  /** One call: the record stays true on the forwarding side, and the two sides stay related. */
  lemma CallRelated(e: Emit, c: Call, lengths: nat -> nat, s: State, t: State, i: nat, roles: nat -> Roles)
    requires Related(s, t, roles(i)) && DisciplinedCall(e, c, i, roles) && !c.Branch?
    requires Past(e) && Holds(e, s)
    ensures var s', t' := Effects(Emitted(e, c, true), s), Effects(Emitted(e, c, false), t);
      Related(s', t', roles(i + 1)) && Holds(Next(e, c, lengths), s')
  {
    match c {
      case Load32(dst, b, disp) =>
        hide Related, DisciplinedCall, Load, Reached, KeptLoad;
        if Forwards(e, b, disp) {
          ForwardRelated(e, dst, b, disp, s, t, i, roles);
          ForwardHolds(e, dst, b, disp, s);
        } else {
          LoadRelated(e, dst, b, disp, s, t, i, roles);
          KeptIsLonger(dst, b, disp);
        }
      case Store32(b, disp, src) =>
        hide Related, Load, Reached, StoreCode;
        StoreRelated(e, b, disp, src, s, t, i, roles);
        StoreHolds(b, disp, src, s);
      case Plain(f) =>
        hide Related, Load, Reached;
        EffectsOne(Other(f), s);
        EffectsOne(Other(f), t);
      case _ =>
        hide Load, Reached;
    }
  }

  lemma KeptIsLonger(dst: Reg, b: Reg, disp: Disp)
    ensures |KeptLoad(dst, b, disp)| > 0
  {
  }

  /** A forwarded load emits a move, after which no record is in force, or nothing, after which the same one is. */
  lemma ForwardHolds(e: Emit, dst: Reg, b: Reg, disp: Disp, s: State)
    requires Forwards(e, b, disp) && Holds(e, s)
    ensures var c := Load32(dst, b, disp);
      Holds(Emit(Length(e, c), e.fwd), Effects(Emitted(e, c, true), s))
  {
    hide Load, Reached;
  }

  lemma {:induction false} AlwaysPast(calls: seq<Call>, n: nat, lengths: nat -> nat)
    requires n <= |calls|
    ensures Past(After(calls, n, lengths))
  {
    hide Reach;
    if n > 0 { AlwaysPast(calls, n - 1, lengths); }
  }

  /** Where a branch lands no record is in force: the path that arrives there has not run the store. */
  lemma NothingWhereBranchesLand(calls: seq<Call>, i: nat, j: nat, lengths: nat -> nat, s: State)
    requires i < |calls| && calls[i].Branch? && Lands(calls, lengths, i, j) && j <= |calls|
    ensures j < |calls| ==> Holds(After(calls, j, lengths), s)
  {
    if j < |calls| { AlwaysPast(calls, j - 1, lengths); }
  }

  /**
   Along every control path the code with forwarded or omitted loads computes
   the same memory and flags, and the same registers as far as anything after
   depends on them, as the code with every load kept, and leaves by the same way.
   */
  lemma {:induction false} ForwardingIsSound(calls: seq<Call>, lengths: nat -> nat, i: nat, s: State, t: State, fuel: nat,
                                             roles: nat -> Roles)
    requires Resolved(calls, lengths) && Disciplined(calls, lengths, roles)
    requires Related(s, t, roles(i)) && (i < |calls| ==> Holds(After(calls, i, lengths), s))
    ensures var fast := Execute(calls, lengths, i, s, fuel, true);
      var kept := Execute(calls, lengths, i, t, fuel, false);
      fast.Finished? == kept.Finished? && (fast.Finished? ==> fast.at == kept.at && Related(fast.s, kept.s, roles(fast.at)))
    decreases fuel
  {
    hide Related, Effects, Holds, Next, After, Emitted, Lands;
    if i < |calls| && fuel > 0 {
      var e := After(calls, i, lengths);
      assert DisciplinedCall(e, calls[i], i, roles);
      match calls[i] {
        case Branch(link, next) =>
          var j := next(s);
          assert Lands(calls, lengths, i, j);
          if j < |calls| { NothingWhereBranchesLand(calls, i, j, lengths, link(s)); }
          ForwardingIsSound(calls, lengths, j, link(s), link(t), fuel - 1, roles);
        case _ =>
          AlwaysPast(calls, i, lengths);
          CallRelated(e, calls[i], lengths, s, t, i, roles);
          AfterNext(calls, i, lengths);
          ForwardingIsSound(calls, lengths, i + 1, Effects(Emitted(e, calls[i], true), s),
                            Effects(Emitted(e, calls[i], false), t), fuel - 1, roles);
      }
    }
  }

  lemma AfterNext(calls: seq<Call>, i: nat, lengths: nat -> nat)
    requires i < |calls|
    ensures After(calls, i + 1, lengths) == Next(After(calls, i, lengths), calls[i], lengths)
  {
    hide Next;
  }

  // ---- which loads are answered ----

  predicate InForce(e: Emit) {
    e.fwd.Word? && e.fwd.at == e.len
  }

  /** Appends nothing, and takes or binds no label where the code now ends. */
  predicate Silent(e: Emit, c: Call, lengths: nat -> nat) {
    && !c.Store32? && !c.Branch? && |Emitted(e, c, true)| == 0 && !c.Label? && !c.Bind?
    && (c.BindTo? ==> lengths(c.to) != e.len)
  }

  /** The k-th call stored, and nothing was appended and no branch can have arrived between it and the n-th. */
  ghost predicate LastStored(calls: seq<Call>, lengths: nat -> nat, k: nat, n: nat)
    requires n <= |calls|
  {
    k < n && calls[k].Store32? && forall j | k < j < n :: Silent(After(calls, j, lengths), calls[j], lengths)
  }

  lemma StepInForce(e: Emit, c: Call, lengths: nat -> nat)
    requires Past(e)
    ensures c.Store32? ==> Next(e, c, lengths).fwd == Word(Next(e, c, lengths).len, c.b, c.disp, c.src)
    ensures !c.Store32? ==> (InForce(Next(e, c, lengths)) <==> InForce(e) && Silent(e, c, lengths))
    ensures InForce(Next(e, c, lengths)) && !c.Store32? ==> Next(e, c, lengths).fwd == e.fwd
  {
    hide Reach, Forwards;
  }

  lemma {:induction false} RecordIsOfTheLastStore(calls: seq<Call>, lengths: nat -> nat, n: nat)
    requires n <= |calls|
    ensures var e := After(calls, n, lengths);
      && (InForce(e) ==> exists k: nat :: LastStored(calls, lengths, k, n))
      && forall k: nat | LastStored(calls, lengths, k, n) :: e.fwd == Word(e.len, calls[k].b, calls[k].disp, calls[k].src)
  {
    hide Next, Emitted, Length, Silent;
    if n > 0 {
      var e, c := After(calls, n - 1, lengths), calls[n - 1];
      RecordIsOfTheLastStore(calls, lengths, n - 1);
      AlwaysPast(calls, n - 1, lengths);
      StepInForce(e, c, lengths);
      if c.Store32? {
        assert LastStored(calls, lengths, n - 1, n);
        forall k: nat | LastStored(calls, lengths, k, n) ensures k == n - 1 {
          if k < n - 1 { StoreIsNotSilent(e, c, lengths); }
        }
      } else {
        if InForce(After(calls, n, lengths)) {
          var k: nat :| LastStored(calls, lengths, k, n - 1);
          assert LastStored(calls, lengths, k, n);
        }
        forall k: nat | LastStored(calls, lengths, k, n)
          ensures var e' := After(calls, n, lengths); e'.fwd == Word(e'.len, calls[k].b, calls[k].disp, calls[k].src)
        {
          assert LastStored(calls, lengths, k, n - 1);
        }
      }
    }
  }

  lemma StoreIsNotSilent(e: Emit, c: Call, lengths: nat -> nat)
    requires c.Store32?
    ensures !Silent(e, c, lengths)
  {
  }

  /**
   A load is answered by a move, or by nothing when the register already holds
   the word, exactly when the last instruction appended was a store of the same
   base and displacement and no branch can arrive in between.
   */
  lemma AnsweredExactly(calls: seq<Call>, lengths: nat -> nat, i: nat, dst: Reg, b: Reg, disp: Disp)
    requires i < |calls| && calls[i] == Load32(dst, b, disp)
    ensures var code := Emitted(After(calls, i, lengths), calls[i], true);
      && (forall k: nat | LastStored(calls, lengths, k, i) && calls[k].b == b && calls[k].disp == disp ::
            code == if dst == calls[k].src then [] else [MovW(dst, calls[k].src)])
      && ((forall k: nat | LastStored(calls, lengths, k, i) :: calls[k].b != b || calls[k].disp != disp) ==> code == KeptLoad(dst, b, disp))
  {
    hide KeptLoad, After;
    RecordIsOfTheLastStore(calls, lengths, i);
    AlwaysPast(calls, i, lengths);
  }

  /** A displacement fits exactly when the scaled twelve-bit field can say it, and is near exactly when one immediate, shifted or not, can. */
  lemma FitsExactly(disp: Disp)
    ensures Fits(disp) <==> exists imm: nat :: InField(imm) && disp == 4 * imm
    ensures Near(disp) <==> exists imm: nat :: InField(imm) && (disp == imm || disp == 0 - imm || disp == 0x1000 * imm || disp == 0 - 0x1000 * imm)
  {
    if Fits(disp) { assert InField(disp / 4) && disp == 4 * (disp / 4); }
    if Near(disp) {
      var m: nat := if disp < 0 then 0 - disp else disp;
      if m <= 0xFFF { assert InField(m); } else { assert InField(m / 0x1000) && m == 0x1000 * (m / 0x1000); }
    }
  }

  predicate InField(imm: nat) {
    imm < 4096
  }

  /** The start of a conditional exit: X1 holds a flag operand, then the run header's address, and is then a base. */
  function ExitCalls(operand: Disp, run: X, field: Disp): seq<Call> {
    [Load32(1, 19, operand), Plain((s: State) => s.(x := s.x[1 := run])), Load32(2, 1, field)]
  }

  function ExitRoles(i: nat): Roles {
    match i
    case 0 => Roles({}, {19}, {})
    case 1 => Roles({1}, {19}, {1})
    case 2 => Roles({}, {1, 19}, {})
    case _ => Roles({2}, {1, 19}, {2})
  }

  /** One register may be a load's destination and, later, a base. */
  lemma ExitKeepsToIt(operand: Disp, run: X, field: Disp, lengths: nat -> nat)
    requires Fits(operand) && Fits(field)
    ensures Disciplined(ExitCalls(operand, run, field), lengths, ExitRoles) && Resolved(ExitCalls(operand, run, field), lengths)
  {
    var calls := ExitCalls(operand, run, field);
    assert After(calls, 0, lengths) == START;
    AfterNext(calls, 0, lengths);
    AfterNext(calls, 1, lengths);
    assert After(calls, 1, lengths).fwd == Nothing;
    assert After(calls, 2, lengths).fwd == Nothing;
    forall i: nat | i < |calls| ensures DisciplinedCall(After(calls, i, lengths), calls[i], i, ExitRoles) {
    }
  }

  // ---- what reaching a displacement goes through ----

  /**
   A base plus a displacement reaches that address in every state if and only
   if the base is not the register a wide displacement goes through.
   */
  lemma ReachesExactly(b: Reg, disp: Disp)
    ensures (forall s: State :: Reached(s, b, disp) == Address(s.x[b], disp)) <==> (b != X9 || Fits(disp) || Near(disp))
  {
    hide Materialized, Address, Near;
    forall s: State ensures Materialized(s.x, b, disp)[X8] == Address(if b == X9 && !Near(disp) then Address(0, disp) else s.x[b], disp) {
      MaterializedTo(s.x, b, disp);
    }
    if b == X9 && !Fits(disp) && !Near(disp) {
      var s := Zeros(map[]);
      TwiceOff(disp);
      assert Reached(s, X9, disp) != Address(s.x[X9], disp);
    }
  }

  lemma TwiceOff(disp: Disp)
    requires disp != 0
    ensures Address(Address(0, disp), disp) != Address(0, disp)
  {
  }


  /**
   A load straight after a store of the same base and displacement reads the
   stored word back in every state if and only if the base is not the scratch
   register or the displacement fits.
   */
  lemma ForwardingExactly(b: Reg, disp: Disp, src: Data, dst: Reg)
    ensures (forall s :: ReadsBack(b, disp, src, dst, s)) <==> (b != X8 || Fits(disp))
  {
    if b != X8 || Fits(disp) {
      forall s ensures ReadsBack(b, disp, src, dst, s) {
        StoredIsRead(b, disp, src, dst, s);
      }
    } else {
      ScratchMisreads(disp, src, dst);
      assert !ReadsBack(X8, disp, src, dst, Stray(disp, src));
    }
  }

  predicate ReadsBack(b: Reg, disp: Disp, src: Data, dst: Reg, s: State) {
    var t := Effects(StoreCode(b, disp, src), s);
    W(Effects(KeptLoad(dst, b, disp), t), dst) == W(t, src)
  }

  lemma StoredIsRead(b: Reg, disp: Disp, src: Data, dst: Reg, s: State)
    requires b != X8 || Fits(disp)
    ensures ReadsBack(b, disp, src, dst, s)
  {
    hide Load, Reached, StoreCode, KeptLoad, Effects;
    var t := Effects(StoreCode(b, disp, src), s);
    StoreHolds(b, disp, src, s);
    LoadDoes(dst, b, disp, t);
    LowOf(W(t, src));
  }

  /** Where the second access through a moved base goes beyond the first: its last byte, or below it: its first. */
  function Beyond(disp: Disp): int {
    if disp > 0 then 3 else 0
  }

  function ByteOf(v: Word, k: int): Byte {
    if k == 3 then v / 0x100_0000 else v % 0x100
  }

  function Zeros(m: map<X, Byte>): State {
    State(seq(31, _ => 0), m, A64.Nzcv(false, false, false, false))
  }

  /** Registers of zeros, and one byte of memory that is not what the store writes. */
  function Stray(disp: Disp, src: Data): State
    requires !Fits(disp)
  {
    var v := W(Scratched(Zeros(map[]), X8, disp), src);
    var k := Beyond(disp);
    Zeros(map[Address(Address(0, disp), disp + k) := (ByteOf(v, k) + 1) % 256])
  }

  lemma ScratchMisreads(disp: Disp, src: Data, dst: Reg)
    requires !Fits(disp)
    ensures !ReadsBack(X8, disp, src, dst, Stray(disp, src))
  {
    hide Load, Store, StoreCode, KeptLoad, Effects, Address, Near;
    var s := Stray(disp, src);
    var a := Address(0, disp);
    var v := W(Scratched(s, X8, disp), src);
    StoreDoes(X8, disp, src, s);
    var t := Effects(StoreCode(X8, disp, src), s);
    LoadDoes(dst, X8, disp, t);
    MaterializedTo(s.x, X8, disp);
    MaterializedTo(t.x, X8, disp);
    assert W(t, src) == v;
    StrayLoad(s.mem, a, disp, v);
    LowOf(Load(t.mem, Address(a, disp)));
  }

  /** The store leaves that byte alone, and the load finds it. */
  lemma StrayLoad(m: map<X, Byte>, a: X, disp: Disp, v: Word)
    requires disp != 0
    requires var k := Beyond(disp); Address(a, disp + k) in m && m[Address(a, disp + k)] != ByteOf(v, k)
    ensures Load(Store(m, a, v), Address(a, disp)) != v
  {
    hide Address, Load, Store;
    var k := Beyond(disp);
    FarFrom(a, disp + k);
    Shifted(a, disp, k);
    StoreKeeps(m, a, v, Address(a, disp + k));
    BytesLoaded(Store(m, a, v), Address(a, disp));
    AddressZero(Address(a, disp));
  }

  /** The zero register stores zeros. */
  lemma ZeroStored(b: Reg, disp: Disp, s: State)
    ensures Load(Effects(StoreCode(b, disp, WZR), s).mem, Reached(s, b, disp)) == 0
  {
    hide Load, Store, Effects, StoreCode, Reached;
    StoreDoes(b, disp, WZR, s);
    LoadStored(s.mem, Reached(s, b, disp), 0);
  }

  lemma StoreKeeps(m: map<X, Byte>, a: X, v: Word, c: X)
    requires c != a && c != Address(a, 1) && c != Address(a, 2) && c != Address(a, 3)
    ensures ByteAt(Store(m, a, v), c) == ByteAt(m, c)
  {
    hide Address;
  }

  lemma BytesLoaded(m: map<X, Byte>, c: X)
    ensures Load(m, c) % 0x100 == ByteAt(m, c) && Load(m, c) / 0x100_0000 == ByteAt(m, Address(c, 3))
  {
    hide ByteAt, Address;
  }

  lemma Shifted(a: X, disp: int, k: int)
    ensures Address(Address(a, disp), k) == Address(a, disp + k)
  {
    var m := 0x1_0000_0000_0000_0000;
    var q := (a + disp) / m;
    ModUnique(a + disp + k, m, q + (Address(a, disp) + k) / m, (Address(a, disp) + k) % m);
  }

  lemma FarFrom(a: X, d: int)
    requires -0x8000_0000 <= d < 0 || 4 <= d < 0x1_0000_0000
    ensures Address(a, d) != a && Address(a, d) != Address(a, 1) && Address(a, d) != Address(a, 2) && Address(a, d) != Address(a, 3)
  {
  }
}
