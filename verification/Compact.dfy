/**
 Many published blocks rebuilt as one module: every table entry moved to the
 new module's matching body, or everything put back where it was.
 */
module Compact {
  import opened WasmHost
  import opened Arena

  const MAX_BODIES := 64

  /** What a block was translated from, the exits it took slots for and its leaf call site, 0 for none: what a rebuild must reproduce. */
  datatype Shape = Shape(guest: nat, len: nat, exits: nat, leaf: nat)

  /** A block to move: the module it is published in, and the entry that must survive. */
  datatype Block = Block(shape: Shape, token: nat, entry: nat)

  /** Lowering the batch again: it fails, or gives a module of some length whose exports the engine will count. */
  datatype Lowering = Fails | Lowers(bytes: nat, bodies: nat, shapes: seq<Shape>)

  datatype Result = Refused | Shared(token: nat, bytes: nat)

  function Id(s: State, t: nat): nat
    requires t < |s.slots|
  {
    s.slots[t].id
  }

  /** The block is the only one in its module and is entered through the entry its module owns. */
  predicate Sole(s: State, b: Block) {
    && IsLive(s, b.token) && b.entry != 0 && Id(s, b.token) in s.host.modules
    && s.host.modules[Id(s, b.token)].entries == map[0 := b.entry]
    && s.host.modules[Id(s, b.token)].bodies > 0
  }

  ghost predicate Batch(s: State, blocks: seq<Block>) {
    && (forall i | 0 <= i < |blocks| :: Sole(s, blocks[i]))
    && (forall i, j | 0 <= i < j < |blocks| :: blocks[i].token != blocks[j].token)
  }

  // ---- the entries moved so far ----

  /** A block as the engine knows it: the module that owns its entry at body 0. */
  datatype Old = Old(id: nat, entry: nat)

  function Moved(h: Host, olds: seq<Old>, to: nat, n: nat): Host
    requires n <= |olds|
  {
    if n == 0 then h
    else Adopt(Moved(h, olds, to, n - 1), to, n - 1, olds[n - 1].id, 0, olds[n - 1].entry)
  }

  /** The engine before anything moves: distinct old modules owning one entry each, and an empty new one. */
  ghost predicate Start(h: Host, olds: seq<Old>, to: nat) {
    && Ok(h) && to in h.modules && h.modules[to].entries == map[]
    && (forall i | 0 <= i < |olds| :: olds[i].id in h.modules && olds[i].id != to && h.modules[olds[i].id].bodies > 0)
    && (forall i | 0 <= i < |olds| :: h.modules[olds[i].id].entries == map[0 := olds[i].entry])
    && (forall i, j | 0 <= i < j < |olds| :: olds[i].id != olds[j].id)
  }

  /** The same modules exporting the same bodies. */
  ghost predicate SameModules(h: Host, g: Host) {
    && g.modules.Keys == h.modules.Keys && g.next == h.next
    && (forall id | id in h.modules :: g.modules[id].bodies == h.modules[id].bodies)
  }

  /** The first n old modules own nothing any more, the others their entry. */
  ghost predicate OldsOwn(g: Host, olds: seq<Old>, n: nat) {
    forall i | 0 <= i < |olds| :: olds[i].id in g.modules && g.modules[olds[i].id].entries == if i < n then map[] else map[0 := olds[i].entry]
  }

  function Firsts(olds: seq<Old>, n: nat): map<nat, nat>
    requires n <= |olds|
  {
    map k: nat | k < n :: olds[k].entry
  }

  /** The new module owns the entries moved, each at its own body. */
  predicate NewOwns(g: Host, olds: seq<Old>, to: nat, n: nat)
    requires n <= |olds|
  {
    to in g.modules && g.modules[to].entries == Firsts(olds, n)
  }

  /** The table: the first n entries run the new module's bodies, everything else what it ran. */
  ghost predicate TableIs(h: Host, g: Host, olds: seq<Old>, to: nat, n: nat) {
    && g.table.Keys == h.table.Keys
    && (forall i | 0 <= i < |olds| :: Runs(g, olds[i].entry, if i < n then to else olds[i].id, if i < n then i else 0))
    && (forall e | e in h.table && (forall k | 0 <= k < |olds| :: olds[k].entry != e) :: g.table[e] == h.table[e])
  }

  ghost predicate DistinctEntries(olds: seq<Old>) {
    forall i, j | 0 <= i < j < |olds| :: olds[i].entry != olds[j].entry
  }

  lemma EntriesDistinct(h: Host, olds: seq<Old>, to: nat)
    requires Start(h, olds, to)
    ensures TableIs(h, h, olds, to, 0) && DistinctEntries(olds)
  {
    forall i | 0 <= i < |olds| ensures Runs(h, olds[i].entry, olds[i].id, 0) {
      assert 0 in h.modules[olds[i].id].entries;
    }
  }

  /** What adopting the entry a module owns at body 0 changes. */
  ghost predicate Adopted(g: Host, g': Host, to: nat, body: nat, from: nat, entry: nat) {
    && to in g.modules && from in g.modules && g'.table == g.table[entry := Fn(to, body)]
    && g'.next == g.next && g'.modules.Keys == g.modules.Keys
    && g'.modules[to] == g.modules[to].(entries := g.modules[to].entries[body := entry])
    && g'.modules[from] == g.modules[from].(entries := g.modules[from].entries - {0})
    && (forall id | id in g.modules && id != to && id != from :: g'.modules[id] == g.modules[id])
  }

  lemma AdoptDoes(g: Host, to: nat, body: nat, from: nat, entry: nat)
    requires CanAdopt(g, to, body, from) && to != from
    ensures Adopted(g, Adopt(g, to, body, from, 0, entry), to, body, from, entry)
  {
  }

  lemma StartFacts(h: Host, olds: seq<Old>, to: nat)
    requires Start(h, olds, to)
    ensures Ok(h) && SameModules(h, h) && OldsOwn(h, olds, 0) && NewOwns(h, olds, to, 0)
  {
    hide Ok;
    assert Firsts(olds, 0) == map[];
  }

  /** Adopting while the new module has the body keeps every fact about what has moved. */
  lemma {:induction false} MovedFacts(h: Host, olds: seq<Old>, to: nat, n: nat)
    requires Start(h, olds, to) && n <= |olds| && n <= h.modules[to].bodies
    ensures var g := Moved(h, olds, to, n);
      Ok(g) && SameModules(h, g) && OldsOwn(g, olds, n) && NewOwns(g, olds, to, n) && TableIs(h, g, olds, to, n)
  {
    hide Start, SameModules, OldsOwn, NewOwns, TableIs, Ok, Adopt, CanAdopt, Owns, DistinctEntries, Adopted;
    EntriesDistinct(h, olds, to);
    if n == 0 {
      StartFacts(h, olds, to);
    } else {
      MovedFacts(h, olds, to, n - 1);
      var g, o := Moved(h, olds, to, n - 1), olds[n - 1];
      StepReady(h, g, olds, to, n);
      AdoptOk(g, to, n - 1, o.id, 0, o.entry);
      AdoptDoes(g, to, n - 1, o.id, o.entry);
      var g' := Adopt(g, to, n - 1, o.id, 0, o.entry);
      StepModules(h, g, g', olds, to, n);
      StepOlds(h, g, g', olds, to, n);
      StepTable(h, g, g', olds, to, n);
    }
  }

  lemma StepReady(h: Host, g: Host, olds: seq<Old>, to: nat, n: nat)
    requires Start(h, olds, to) && 0 < n <= |olds| && n <= h.modules[to].bodies
    requires SameModules(h, g) && OldsOwn(g, olds, n - 1) && NewOwns(g, olds, to, n - 1)
    ensures var o := olds[n - 1];
      && o.id != to && CanAdopt(g, to, n - 1, o.id) && Owns(g, o.id, 0, o.entry) && n - 1 !in g.modules[to].entries
      && g.modules[o.id].entries == map[0 := o.entry] && g.modules[o.id].bodies > 0
  {
    hide Ok;
  }

  lemma StepModules(h: Host, g: Host, g': Host, olds: seq<Old>, to: nat, n: nat)
    requires Start(h, olds, to) && 0 < n <= |olds|
    requires SameModules(h, g) && NewOwns(g, olds, to, n - 1)
    requires Adopted(g, g', to, n - 1, olds[n - 1].id, olds[n - 1].entry)
    ensures SameModules(h, g') && NewOwns(g', olds, to, n)
  {
    hide Ok;
    assert olds[n - 1].id != to;
    assert g'.modules[to].entries == Firsts(olds, n);
  }

  lemma StepOlds(h: Host, g: Host, g': Host, olds: seq<Old>, to: nat, n: nat)
    requires Start(h, olds, to) && 0 < n <= |olds| && OldsOwn(g, olds, n - 1)
    requires Adopted(g, g', to, n - 1, olds[n - 1].id, olds[n - 1].entry)
    ensures OldsOwn(g', olds, n)
  {
    hide Ok;
    assert g'.modules[olds[n - 1].id].entries == map[];
    forall i | 0 <= i < |olds|
      ensures olds[i].id in g'.modules && g'.modules[olds[i].id].entries == if i < n then map[] else map[0 := olds[i].entry]
    {
      if i != n - 1 { assert olds[i].id != olds[n - 1].id && olds[i].id != to; }
    }
  }

  lemma StepTable(h: Host, g: Host, g': Host, olds: seq<Old>, to: nat, n: nat)
    requires 0 < n <= |olds| && TableIs(h, g, olds, to, n - 1) && DistinctEntries(olds)
    requires Adopted(g, g', to, n - 1, olds[n - 1].id, olds[n - 1].entry)
    ensures TableIs(h, g', olds, to, n)
  {
    assert Runs(g, olds[n - 1].entry, olds[n - 1].id, 0);
    forall i | 0 <= i < |olds| ensures Runs(g', olds[i].entry, if i < n then to else olds[i].id, if i < n then i else 0) {
      if i != n - 1 { assert Runs(g, olds[i].entry, if i < n - 1 then to else olds[i].id, if i < n - 1 then i else 0); }
    }
  }

  /** Moving the last one back undoes moving it, exactly. */
  lemma MoveBack(h: Host, olds: seq<Old>, to: nat, n: nat)
    requires Start(h, olds, to) && 0 < n <= |olds| && n <= h.modules[to].bodies
    ensures var g, o := Moved(h, olds, to, n), olds[n - 1];
      && Adopt(g, o.id, 0, to, n - 1, o.entry) == Moved(h, olds, to, n - 1)
      && CanAdopt(g, o.id, 0, to) && Owns(g, to, n - 1, o.entry) && o.id in g.modules && 0 !in g.modules[o.id].entries
  {
    hide Start, SameModules, TableIs, Ok, Adopt, DistinctEntries;
    MovedFacts(h, olds, to, n - 1);
    MovedFacts(h, olds, to, n);
    var g, o := Moved(h, olds, to, n - 1), olds[n - 1];
    StepReady(h, g, olds, to, n);
    TableAt(h, g, olds, to, n);
    BackAgain(g, to, n - 1, o.id, o.entry);
    NewKeeps(h, Moved(h, olds, to, n), olds, to, n);
  }

  lemma TableAt(h: Host, g: Host, olds: seq<Old>, to: nat, n: nat)
    requires 0 < n <= |olds| && TableIs(h, g, olds, to, n - 1)
    ensures Runs(g, olds[n - 1].entry, olds[n - 1].id, 0)
  {
  }

  lemma NewKeeps(h: Host, g: Host, olds: seq<Old>, to: nat, n: nat)
    requires Start(h, olds, to) && 0 < n <= |olds| && n <= h.modules[to].bodies
    requires SameModules(h, g) && OldsOwn(g, olds, n) && NewOwns(g, olds, to, n)
    ensures var o := olds[n - 1];
      CanAdopt(g, o.id, 0, to) && Owns(g, to, n - 1, o.entry) && o.id in g.modules && 0 !in g.modules[o.id].entries
  {
    hide Ok;
    assert n - 1 in g.modules[to].entries;
  }

  lemma BackAgain(g: Host, to: nat, body: nat, from: nat, entry: nat)
    requires CanAdopt(g, to, body, from) && to != from && body !in g.modules[to].entries
    requires g.modules[from].entries == map[0 := entry] && Runs(g, entry, from, 0) && g.modules[from].bodies > 0
    ensures Adopt(Adopt(g, to, body, from, 0, entry), from, 0, to, body, entry) == g
  {
    var g1 := Adopt(g, to, body, from, 0, entry);
    var g2 := Adopt(g1, from, 0, to, body, entry);
    assert g1.modules[to].entries - {body} == g.modules[to].entries;
    assert g2.modules[to].entries == g.modules[to].entries;
    assert g1.modules[from].entries == map[];
    assert g2.modules[from].entries == g.modules[from].entries;
    assert g2.modules == g.modules;
    assert g2.table == g.table;
  }

  // ---- the arena around it ----

  function Olds(s: State, blocks: seq<Block>): seq<Old>
    requires forall i | 0 <= i < |blocks| :: blocks[i].token < |s.slots|
  {
    seq(|blocks|, i requires 0 <= i < |blocks| => Old(Id(s, blocks[i].token), blocks[i].entry))
  }

  lemma BatchInRange(s: State, blocks: seq<Block>)
    requires Batch(s, blocks)
    ensures forall i | 0 <= i < |blocks| :: blocks[i].token < |s.slots|
  {
    forall i | 0 <= i < |blocks| ensures blocks[i].token < |s.slots| { assert Sole(s, blocks[i]); }
  }

  /** A batch is ready to move onto a module just published. */
  lemma BatchStarts(s: State, free: seq<nat>, blocks: seq<Block>, bodies: nat)
    requires Sound(s, free) && Batch(s, blocks) && 0 < s.freeHead <= |s.slots|
    ensures var s1 := Published(s, bodies, Taken);
      && !IsLive(s, s.freeHead - 1) && (forall i | 0 <= i < |blocks| :: blocks[i].token < |s.slots|)
      && Start(s1.host, Olds(s, blocks), s.host.next) && Olds(s1, blocks) == Olds(s, blocks)
      && s1.host.modules[s.host.next].bodies == bodies
  {
    PublishSound(s, free, bodies, Taken);
    BatchInRange(s, blocks);
    InstantiateOk(s.host, bodies);
    hide Threads, Distinct, CeilingHolds, FreeList;
    var s1 := Published(s, bodies, Taken);
    var olds := Olds(s, blocks);
    forall i | 0 <= i < |olds|
      ensures olds[i].id in s1.host.modules && olds[i].id != s.host.next && s1.host.modules[olds[i].id] == s.host.modules[olds[i].id]
      ensures s1.host.modules[olds[i].id].bodies > 0 && s1.host.modules[olds[i].id].entries == map[0 := olds[i].entry]
      ensures Id(s1, blocks[i].token) == Id(s, blocks[i].token)
    {
      assert Sole(s, blocks[i]);
    }
    forall i, j | 0 <= i < j < |olds| ensures olds[i].id != olds[j].id {
      assert Sole(s, blocks[i]) && Sole(s, blocks[j]);
    }
  }

  /** A module published and released again leaves the arena as it was. */
  lemma PublishedThenReleased(s: State, free: seq<nat>, bodies: nat)
    requires Sound(s, free) && 0 < s.freeHead <= |s.slots|
    ensures var s1 := Published(s, bodies, Taken);
      var s2 := Released(s1, s.freeHead - 1);
      && s2.slots == s.slots && s2.freeHead == s.freeHead && s2.live == s.live && s2.ceiling == s.ceiling
      && s2.host.modules == s.host.modules && s2.host.table == s.host.table
  {
    PublishSound(s, free, bodies, Taken);
    hide Threads, Distinct, Ok, FreeList;
    var i := s.freeHead - 1;
    assert s.slots[i] == Slot(false, 0, s.slots[i].nextFree);
    assert s.host.next !in s.host.modules by { NextIsNew(s.host); }
  }

  lemma NextIsNew(h: Host)
    requires Ok(h)
    ensures h.next !in h.modules
  {
  }

  /** Refused: every slot, every module and every table entry is as it was; at most a ceiling was learned. */
  predicate Untouched(s: State, s': State, v: Verdict) {
    && s'.slots == s.slots && s'.freeHead == s.freeHead && s'.live == s.live
    && s'.host.modules == s.host.modules && s'.host.table == s.host.table
    && (s'.ceiling == s.ceiling || s'.ceiling == Learn(s.ceiling, s.live, v))
  }

  /** The old modules from the i-th on own nothing. */
  ghost predicate EmptyFrom(g: Host, olds: seq<Old>, i: nat) {
    forall k | i <= k < |olds| :: olds[k].id in g.modules && g.modules[olds[k].id].entries == map[]
  }

  /** The first i tokens dead, every other slot as it was. */
  ghost predicate DeadUpTo(s: State, g: State, blocks: seq<Block>, i: nat) {
    && i <= |blocks| && |g.slots| == |s.slots|
    && (forall t | 0 <= t < |s.slots| && (forall k | 0 <= k < i :: blocks[k].token != t) :: g.slots[t] == s.slots[t])
    && (forall k | 0 <= k < i :: !IsLive(g, blocks[k].token))
  }

  ghost predicate Tokens(s: State, blocks: seq<Block>, olds: seq<Old>, to: nat) {
    && |blocks| == |olds|
    && (forall k | 0 <= k < |blocks| :: blocks[k].token < |s.slots| && blocks[k].token != to && Id(s, blocks[k].token) == olds[k].id)
  }

  /** After the first i old modules are released. */
  ghost predicate Releasing(s: State, g: State, blocks: seq<Block>, olds: seq<Old>, to: nat, i: nat) {
    && DeadUpTo(s, g, blocks, i) && Tokens(s, blocks, olds, to) && EmptyFrom(g.host, olds, i)
    && IsLive(s, to) && g.live + i == s.live && g.host.table == s.host.table
    && Id(s, to) in g.host.modules && Id(s, to) in s.host.modules && g.host.modules[Id(s, to)] == s.host.modules[Id(s, to)]
  }

  lemma ReleasesNext(s: State, g: State, free: seq<nat>, blocks: seq<Block>, olds: seq<Old>, to: nat, i: nat)
    requires Releasing(s, g, blocks, olds, to, i) && i < |blocks| && Sound(g, free)
    requires TokensApart(s, blocks, olds)
    ensures IsLive(g, blocks[i].token) && g.live > 0
    ensures Releasing(s, Released(g, blocks[i].token), blocks, olds, to, i + 1)
  {
    var t := blocks[i].token;
    assert g.slots[t] == s.slots[t] && g.slots[to] == s.slots[to];
    LiveIsPositive(g, free, t);
    HostedDistinct(g, to, t);
    NextDead(s, g, blocks, olds, to, i);
    NextEmpty(s, g, blocks, olds, to, i);
    hide Sound, DeadUpTo, TokensApart, EmptyFrom;
  }

  lemma NextDead(s: State, g: State, blocks: seq<Block>, olds: seq<Old>, to: nat, i: nat)
    requires Releasing(s, g, blocks, olds, to, i) && i < |blocks| && g.live > 0 && TokensApart(s, blocks, olds)
    ensures DeadUpTo(s, Released(g, blocks[i].token), blocks, i + 1)
  {
    hide EmptyFrom;
    var g' := Released(g, blocks[i].token);
    forall t | 0 <= t < |s.slots| && (forall k | 0 <= k < i + 1 :: blocks[k].token != t) ensures g'.slots[t] == s.slots[t] {
      assert blocks[i].token != t;
    }
  }

  lemma NextEmpty(s: State, g: State, blocks: seq<Block>, olds: seq<Old>, to: nat, i: nat)
    requires Releasing(s, g, blocks, olds, to, i) && i < |blocks| && g.live > 0 && TokensApart(s, blocks, olds)
    requires IsLive(g, blocks[i].token) && Id(g, blocks[i].token) == Id(s, blocks[i].token)
    ensures var g' := Released(g, blocks[i].token);
      EmptyFrom(g'.host, olds, i + 1) && g'.host.table == g.host.table
  {
    hide DeadUpTo;
    assert olds[i].id == Id(g, blocks[i].token);
    assert g.host.modules[olds[i].id].entries.Values == {};
    assert Released(g, blocks[i].token).host.table == g.host.table;
  }

  lemma HostedDistinct(s: State, t: nat, u: nat)
    requires Hosted(s) && IsLive(s, t) && IsLive(s, u) && t != u
    ensures Id(s, t) != Id(s, u)
  {
  }

  /**
   Shared: one new live module; each block's unchanged entry runs the matching
   body of it; the old modules are dead, everything else as it was.
   */
  ghost predicate SharedInto(s: State, s': State, blocks: seq<Block>, to: nat) {
    && !IsLive(s, to) && IsLive(s', to) && |s'.slots| == |s.slots| && s'.live + |blocks| == s.live + 1
    && (forall i | 0 <= i < |blocks| :: !IsLive(s', blocks[i].token) && Runs(s'.host, blocks[i].entry, Id(s', to), i))
    && (forall t | 0 <= t < |s.slots| && t != to && (forall k | 0 <= k < |blocks| :: blocks[k].token != t) :: s'.slots[t] == s.slots[t])
    && s'.host.table.Keys == s.host.table.Keys
    && (forall e | e in s.host.table && (forall k | 0 <= k < |blocks| :: blocks[k].entry != e) :: s'.host.table[e] == s.host.table[e])
  }

  /** Publish, move every entry, release what it replaced -- or refuse as a whole. */
  method Compact(a: ModuleArena, blocks: seq<Block>, low: Lowering, v: Verdict, canAdopt: bool) returns (r: Result)
    requires a.Valid() && Batch(a.Value(), blocks)
    requires low.Lowers? ==> |low.shapes| == |blocks|
    modifies a, a.slots
    ensures a.Valid()
    ensures r.Refused? ==> Untouched(old(a.Value()), a.Value(), v)
    ensures r.Shared? ==> SharedInto(old(a.Value()), a.Value(), blocks, r.token) && low.Lowers? && r.bytes == low.bytes > 0
    ensures r.Shared? <==>
      && 0 < |blocks| <= 64 && canAdopt && low.Lowers? && low.bytes > 0
      && (forall i | 0 <= i < |blocks| :: low.shapes[i] == blocks[i].shape)
      && v == Taken && old(a.live) < a.slots.Length && |blocks| <= low.bodies
  {
    if |blocks| == 0 || |blocks| > MAX_BODIES || !canAdopt { return Result.Refused; }
    if low.Fails? || low.bytes == 0 { return Result.Refused; }
    for i := 0 to |blocks|
      invariant forall k | 0 <= k < i :: low.shapes[k] == blocks[k].shape
    {
      if low.shapes[i] != blocks[i].shape { return Result.Refused; } // the guest changed it
    }
    ghost var s, free := a.Value(), a.free;
    HeadInRange(s, free);
    var t := a.Publish(low.bodies, v);
    if t.Refused? { return Result.Refused; }
    var to := t.index;
    r := MoveAll(a, blocks, low.bodies, low.bytes, to, s, free);
  }

  lemma AdoptReady(s: State, h: Host, olds: seq<Old>, to: nat, n: nat)
    requires Start(h, olds, to) && n < |olds| && n <= h.modules[to].bodies
    ensures var g, o := Moved(h, olds, to, n), olds[n];
      && to in g.modules && g.modules[to].bodies == h.modules[to].bodies && o.id in g.modules
      && Owns(g, o.id, 0, o.entry) && n !in g.modules[to].entries
  {
    MovedFacts(h, olds, to, n);
    hide Ok, TableIs, Moved;
    assert OldsOwn(Moved(h, olds, to, n), olds, n);
  }

  /** The batch `blocks` of arena `s`, beside `s1` where the new module at `to` is published and nothing has moved. */
  ghost predicate Ready(s: State, s1: State, blocks: seq<Block>, olds: seq<Old>, to: nat, bodies: nat) {
    && |olds| == |blocks| && Batch(s, blocks) && to < |s.slots| == |s1.slots| && !IsLive(s, to) && IsLive(s1, to)
    && (forall t | 0 <= t < |s.slots| && t != to :: s1.slots[t] == s.slots[t])
    && s1.live == s.live + 1 && s1.host.table == s.host.table
    && Start(s1.host, olds, Id(s1, to)) && s1.host.modules[Id(s1, to)].bodies == bodies
    && (forall i | 0 <= i < |blocks| :: blocks[i].token < |s1.slots| && olds[i] == Old(Id(s1, blocks[i].token), blocks[i].entry))
  }

  lemma NowReady(s: State, free: seq<nat>, blocks: seq<Block>, bodies: nat)
    requires Sound(s, free) && 0 < s.freeHead <= |s.slots| && Batch(s, blocks)
    ensures (forall i | 0 <= i < |blocks| :: blocks[i].token < |s.slots|)
    ensures Ready(s, Published(s, bodies, Taken), blocks, Olds(s, blocks), s.freeHead - 1, bodies)
  {
    hide Sound, Start, Batch;
    BatchStarts(s, free, blocks, bodies);
  }

  /** What moving the n-th entry, or moving it back, needs. */
  lemma ReadyToMove(s: State, s1: State, blocks: seq<Block>, olds: seq<Old>, to: nat, bodies: nat, n: nat)
    requires Ready(s, s1, blocks, olds, to, bodies) && n < |blocks|
    ensures var t, e := blocks[n].token, blocks[n].entry;
      && IsLive(s1, to) && IsLive(s1, t) && t != to && e != 0 && olds[n] == Old(Id(s1, t), e)
      && Moved(s1.host, olds, Id(s1, to), n + 1) == Adopt(Moved(s1.host, olds, Id(s1, to), n), Id(s1, to), n, Id(s1, t), 0, e)
    ensures n <= bodies ==> var g := Moved(s1.host, olds, Id(s1, to), n);
      && CanAdopt(g, Id(s1, to), n, olds[n].id) == (n < bodies)
      && Owns(g, olds[n].id, 0, olds[n].entry) && Id(s1, to) in g.modules && n !in g.modules[Id(s1, to)].entries
    ensures n < bodies ==> var g := Moved(s1.host, olds, Id(s1, to), n + 1);
      && CanAdopt(g, olds[n].id, 0, Id(s1, to)) && Owns(g, Id(s1, to), n, olds[n].entry)
      && olds[n].id in g.modules && 0 !in g.modules[olds[n].id].entries
      && Adopt(g, olds[n].id, 0, Id(s1, to), n, olds[n].entry) == Moved(s1.host, olds, Id(s1, to), n)
  {
    hide Start, Moved, WasmHost.Adopt, Owns, Batch;
    BatchTokens(s, blocks, n);
    MovedStep(s1.host, olds, Id(s1, to), n);
    if n <= bodies { AdoptReady(s, s1.host, olds, Id(s1, to), n); }
    if n < bodies { MoveBack(s1.host, olds, Id(s1, to), n + 1); }
  }

  lemma PublishIsLive(s: State, bodies: nat)
    requires 0 < s.freeHead <= |s.slots|
    ensures var s1 := Published(s, bodies, Taken); IsLive(s1, s.freeHead - 1) && s1.live > 0
  {
  }

  method MoveAll(a: ModuleArena, blocks: seq<Block>, bodies: nat, bytes: nat, to: nat, ghost s: State, ghost free: seq<nat>)
      returns (r: Result)
    requires Sound(s, free) && 0 < s.freeHead <= |s.slots| && Batch(s, blocks) && |blocks| > 0
    requires a.Valid() && a.Value() == Published(s, bodies, Taken) && to == s.freeHead - 1
    modifies a, a.slots
    ensures a.Valid()
    ensures r.Refused? ==> Untouched(s, a.Value(), Taken)
    ensures r.Shared? ==> SharedInto(s, a.Value(), blocks, to) && r == Shared(to, bytes)
    ensures r.Shared? <==> |blocks| <= bodies
  {
    hide Sound, Ready, Batch, Moved, WasmHost.Adopt, SharedInto, CanAdopt, Owns, Published, Released, Olds, FreeList, Hosted, Ok;
    NowReady(s, free, blocks, bodies);
    PublishedThenReleased(s, free, bodies);
    PublishIsLive(s, bodies);
    ghost var s1 := a.Value();
    ghost var olds := Olds(s, blocks);
    ghost var id := Id(s1, to);
    ReadySize(s, s1, blocks, olds, to, bodies);
    assert Moved(s1.host, olds, id, 0) == s1.host by { NotMoved(s1.host, olds, id); }
    for i := 0 to |blocks|
      invariant a.Valid() && i <= bodies && a.Value() == s1.(host := Moved(s1.host, olds, id, i))
    {
      ReadyToMove(s, s1, blocks, olds, to, bodies, i);
      var ok := a.Adopt(to, i, blocks[i].token, 0, blocks[i].entry);
      if !ok {
        RollBack(a, blocks, i, to, bodies, s, s1, olds);
        return Result.Refused;
      }
    }
    ReleaseOlds(a, blocks, bodies, to, s, s1, olds);
    return Shared(to, bytes);
  }

  lemma BatchTokens(s: State, blocks: seq<Block>, i: nat)
    requires Batch(s, blocks) && i < |blocks|
    ensures IsLive(s, blocks[i].token) && blocks[i].entry != 0
  {
    assert Sole(s, blocks[i]);
  }

  lemma MovedStep(h: Host, olds: seq<Old>, to: nat, n: nat)
    requires n < |olds|
    ensures Moved(h, olds, to, n + 1) == Adopt(Moved(h, olds, to, n), to, n, olds[n].id, 0, olds[n].entry)
  {
    hide Adopt;
  }

  lemma NotMoved(h: Host, olds: seq<Old>, to: nat)
    ensures Moved(h, olds, to, 0) == h
  {
  }

  lemma ReadySize(s: State, s1: State, blocks: seq<Block>, olds: seq<Old>, to: nat, bodies: nat)
    requires Ready(s, s1, blocks, olds, to, bodies)
    ensures |olds| == |blocks| && to < |s1.slots| && IsLive(s1, to)
  {
  }

  /** Every entry moved back, last first, and the new module released. */
  method RollBack(a: ModuleArena, blocks: seq<Block>, moved: nat, to: nat, ghost bodies: nat, ghost s: State, ghost s1: State, ghost olds: seq<Old>)
    requires a.Valid() && Ready(s, s1, blocks, olds, to, bodies) && moved <= |blocks| && moved <= bodies && |olds| == |blocks|
    requires to < |s1.slots| && a.Value() == s1.(host := Moved(s1.host, olds, Id(s1, to), moved)) && s1.live > 0
    modifies a, a.slots
    ensures a.Valid() && a.Value() == Released(s1, to)
  {
    hide Sound, Ready, Moved, CanAdopt, Owns, WasmHost.Adopt, Released;
    var back: nat := moved;
    ghost var id := Id(s1, to);
    ReadySize(s, s1, blocks, olds, to, bodies);
    while back > 0
      invariant a.Valid() && back <= moved && a.Value() == s1.(host := Moved(s1.host, olds, id, back))
    {
      back := back - 1;
      ReadyToMove(s, s1, blocks, olds, to, bodies, back);
      var _ := a.Adopt(blocks[back].token, 0, to, back, blocks[back].entry);
    }
    NotMoved(s1.host, olds, id);
    assert a.Value() == s1;
    a.Release(to);
  }

  /** With every entry on the new module, nothing the old ones own can be entered. */
  method ReleaseOlds(a: ModuleArena, blocks: seq<Block>, ghost bodies: nat, to: nat, ghost s: State, ghost s1: State, ghost olds: seq<Old>)
    requires a.Valid() && Ready(s, s1, blocks, olds, to, bodies) && |blocks| == |olds| <= bodies && to < |s1.slots|
    requires a.Value() == s1.(host := Moved(s1.host, olds, Id(s1, to), |blocks|))
    modifies a, a.slots
    ensures a.Valid() && SharedInto(s, a.Value(), blocks, to)
  {
    hide Ready, Moved, Sound, Released, Releasing, SharedInto, TokensApart;
    ghost var s2 := a.Value();
    ReleasingStarts(s, s1, s2, blocks, olds, to, bodies);
    for i := 0 to |blocks|
      invariant a.Valid() && Releasing(s2, a.Value(), blocks, olds, to, i)
    {
      ReleasesNext(s2, a.Value(), a.free, blocks, olds, to, i);
      a.Release(blocks[i].token);
    }
    FullyMoved(s, s1, s2, a.Value(), blocks, olds, to, bodies);
  }

  ghost predicate TokensApart(s: State, blocks: seq<Block>, olds: seq<Old>) {
    && |blocks| == |olds|
    && (forall k, j | 0 <= k < j < |blocks| :: blocks[k].token != blocks[j].token && olds[k].id != olds[j].id)
    && (forall k | 0 <= k < |blocks| :: IsLive(s, blocks[k].token))
  }

  /** What the slots say of a batch that is ready. */
  lemma ReadyApart(s: State, s1: State, blocks: seq<Block>, olds: seq<Old>, to: nat, bodies: nat)
    requires Ready(s, s1, blocks, olds, to, bodies)
    ensures TokensApart(s1, blocks, olds) && Tokens(s1, blocks, olds, to)
  {
    forall k | 0 <= k < |blocks| ensures IsLive(s1, blocks[k].token) && blocks[k].token != to {
      BatchTokens(s, blocks, k);
    }
    hide Ok;
  }

  /** What the engine says once every entry has moved. */
  lemma ReadyMoved(s: State, s1: State, blocks: seq<Block>, olds: seq<Old>, to: nat, bodies: nat)
    requires Ready(s, s1, blocks, olds, to, bodies) && |blocks| <= bodies
    ensures var g := Moved(s1.host, olds, Id(s1, to), |blocks|);
      && EmptyFrom(g, olds, 0) && Id(s1, to) in g.modules && TableIs(s.host, g, olds, Id(s1, to), |blocks|)
  {
    hide Ok, Moved, TableIs, NewOwns, OldsOwn, Start, Batch;
    MovedFacts(s1.host, olds, Id(s1, to), |blocks|);
    StartHas(s1.host, olds, Id(s1, to));
    OwnNothing(Moved(s1.host, olds, Id(s1, to), |blocks|), olds);
    var g := Moved(s1.host, olds, Id(s1, to), |blocks|);
    TableSame(s.host, s1.host, g, olds, Id(s1, to), |blocks|);
  }

  lemma OwnNothing(g: Host, olds: seq<Old>)
    requires OldsOwn(g, olds, |olds|)
    ensures EmptyFrom(g, olds, 0)
  {
  }

  lemma StartHas(h: Host, olds: seq<Old>, to: nat)
    requires Start(h, olds, to)
    ensures to in h.modules
  {
  }

  lemma TableSame(h: Host, h1: Host, g: Host, olds: seq<Old>, to: nat, n: nat)
    requires h.table == h1.table && TableIs(h1, g, olds, to, n)
    ensures TableIs(h, g, olds, to, n)
  {
  }

  lemma ReleasingStarts(s: State, s1: State, s2: State, blocks: seq<Block>, olds: seq<Old>, to: nat, bodies: nat)
    requires Ready(s, s1, blocks, olds, to, bodies) && |blocks| <= bodies
    requires s2 == s1.(host := Moved(s1.host, olds, Id(s1, to), |blocks|))
    ensures Releasing(s2, s2, blocks, olds, to, 0) && TokensApart(s2, blocks, olds)
  {
    hide Ok, Moved, TableIs, Start, Batch, Ready, DeadUpTo, EmptyFrom;
    ReadyApart(s, s1, blocks, olds, to, bodies);
    ReadyMoved(s, s1, blocks, olds, to, bodies);
    ReadySize(s, s1, blocks, olds, to, bodies);
    NoneDead(s2, blocks);
  }

  lemma NoneDead(s: State, blocks: seq<Block>)
    ensures DeadUpTo(s, s, blocks, 0)
  {
  }

  lemma ReadyOutside(s: State, s1: State, blocks: seq<Block>, olds: seq<Old>, to: nat, bodies: nat)
    requires Ready(s, s1, blocks, olds, to, bodies)
    ensures !IsLive(s, to) && s1.live == s.live + 1 && |s1.slots| == |s.slots|
    ensures forall t | 0 <= t < |s.slots| && t != to :: s1.slots[t] == s.slots[t]
    ensures |olds| == |blocks| && forall k | 0 <= k < |blocks| :: olds[k].entry == blocks[k].entry
  {
    hide Batch, Start;
  }

  lemma FullyMoved(s: State, s1: State, s2: State, g: State, blocks: seq<Block>, olds: seq<Old>, to: nat, bodies: nat)
    requires Ready(s, s1, blocks, olds, to, bodies) && |blocks| <= bodies
    requires s2 == s1.(host := Moved(s1.host, olds, Id(s1, to), |blocks|))
    requires Releasing(s2, g, blocks, olds, to, |blocks|)
    ensures SharedInto(s, g, blocks, to)
  {
    hide Ready, Moved, EmptyFrom, Releasing;
    ReadyOutside(s, s1, blocks, olds, to, bodies);
    ReadyMoved(s, s1, blocks, olds, to, bodies);
    ReleasedSlots(s2, g, blocks, olds, to);
    forall i | 0 <= i < |blocks| ensures Runs(g.host, blocks[i].entry, Id(g, to), i) {
      assert Runs(s2.host, olds[i].entry, Id(s1, to), i);
    }
  }

  lemma ReleasedSlots(s: State, g: State, blocks: seq<Block>, olds: seq<Old>, to: nat)
    requires Releasing(s, g, blocks, olds, to, |blocks|)
    ensures |g.slots| == |s.slots| && g.live + |blocks| == s.live && g.host.table == s.host.table
    ensures forall t | 0 <= t < |s.slots| && (forall k | 0 <= k < |blocks| :: blocks[k].token != t) :: g.slots[t] == s.slots[t]
    ensures forall k | 0 <= k < |blocks| :: !IsLive(g, blocks[k].token)
    ensures to < |s.slots| && g.slots[to] == s.slots[to] && IsLive(g, to)
  {
  }
}
