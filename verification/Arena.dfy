/**
 Module lifetimes: a free list threaded through the slots, and the ceiling
 learned from an engine that refuses another module and retired once the
 arena has backed off below it.
 */
module Arena {
  import opened WasmHost

  /** `nextFree` is one more than the index of the next free slot, or 0 at the last. */
  datatype Slot = Slot(live: bool, id: nat, nextFree: nat)

  /** One slot in this many is kept free below a learned ceiling. */
  const HEADROOM_DIVISOR := 16

  /** What the engine says to a module: taken, or refused for its own sake or for the module's. */
  datatype Verdict = Taken | RefusedByEngine | RefusedModule

  datatype Token = Refused | Token(index: nat)

  // ---- the free list ----

  /** Following `nextFree` from a head visits exactly these slots. */
  predicate Threads(slots: seq<Slot>, head: nat, list: seq<nat>)
    decreases |list|
  {
    if list == [] then head == 0
    else head == list[0] + 1 && list[0] < |slots| && Threads(slots, slots[list[0]].nextFree, list[1..])
  }

  ghost predicate Distinct(list: seq<nat>) {
    forall i, j | 0 <= i < j < |list| :: list[i] != list[j]
  }

  /** The list holds the dead slots, each once. */
  ghost predicate FreeList(slots: seq<Slot>, head: nat, list: seq<nat>) {
    && Threads(slots, head, list) && Distinct(list)
    && (forall i :: i in list ==> i < |slots|)
    && (forall i | 0 <= i < |slots| :: i in list <==> !slots[i].live)
  }

  lemma {:induction false} ThreadsElsewhere(slots: seq<Slot>, head: nat, list: seq<nat>, t: nat, s: Slot)
    requires Threads(slots, head, list) && t < |slots| && t !in list
    ensures Threads(slots[t := s], head, list)
    decreases |list|
  {
    if list != [] { ThreadsElsewhere(slots, slots[list[0]].nextFree, list[1..], t, s); }
  }

  /** Publishing takes the head of the list. */
  lemma PublishKeepsList(slots: seq<Slot>, head: nat, list: seq<nat>, id: nat)
    requires FreeList(slots, head, list) && head != 0
    ensures list != [] && list[0] == head - 1 && head - 1 < |slots|
    ensures FreeList(slots[head - 1 := Slot(true, id, 0)], slots[head - 1].nextFree, list[1..])
  {
    var i := head - 1;
    var slots' := slots[i := Slot(true, id, 0)];
    assert list[0] == i && i !in list[1..];
    assert forall k :: k in list[1..] ==> k in list;
    ThreadsElsewhere(slots, slots[i].nextFree, list[1..], i, Slot(true, id, 0));
    forall k | 0 <= k < |slots'| ensures k in list[1..] <==> !slots'[k].live {
      assert list == [list[0]] + list[1..];
      assert k in list <==> k == list[0] || k in list[1..];
    }
  }

  /** Releasing puts the slot at the head. */
  lemma ReleaseKeepsList(slots: seq<Slot>, head: nat, list: seq<nat>, t: nat)
    requires FreeList(slots, head, list) && t < |slots| && slots[t].live
    ensures FreeList(slots[t := Slot(false, 0, head)], t + 1, [t] + list)
  {
    var s := Slot(false, 0, head);
    ThreadsElsewhere(slots, head, list, t, s);
    assert ([t] + list)[1..] == list;
  }

  lemma {:induction false} ThreadsFresh(slots: seq<Slot>, k: nat)
    requires k <= |slots|
    requires forall i | k <= i < |slots| :: slots[i].nextFree == if i + 1 < |slots| then i + 2 else 0
    ensures Threads(slots, if k < |slots| then k + 1 else 0, seq(|slots| - k, i requires 0 <= i < |slots| - k => k + i))
    decreases |slots| - k
  {
    var list := seq(|slots| - k, i requires 0 <= i < |slots| - k => k + i);
    if k < |slots| {
      ThreadsFresh(slots, k + 1);
      assert list[1..] == seq(|slots| - (k + 1), i requires 0 <= i < |slots| - (k + 1) => k + 1 + i);
    }
  }

  // ---- ceilings ----

  datatype Ceiling = Ceiling(limit: nat, headroom: nat)

  /** A ceiling in force leaves no room until it is retired. */
  predicate CeilingHolds(c: Ceiling, live: nat) {
    && (c.limit != 0 ==> live + c.headroom >= c.limit)
    && c.headroom == c.limit / HEADROOM_DIVISOR
  }

  /** Learned from a refusal that was about the engine, when it is a tighter one. */
  function Learn(c: Ceiling, live: nat, v: Verdict): Ceiling {
    if v == RefusedByEngine && (c.limit == 0 || live < c.limit) then Ceiling(live, live / HEADROOM_DIVISOR) else c
  }

  function Retire(c: Ceiling, live: nat): Ceiling {
    if c.limit == 0 || live + c.headroom >= c.limit then c else Ceiling(0, 0)
  }

  predicate HasRoom(c: Ceiling, live: nat, capacity: nat) {
    live < capacity && (c.limit == 0 || live + c.headroom < c.limit)
  }

  /** Learning and retiring keep it; what it means for room. */
  lemma CeilingKept(c: Ceiling, live: nat, v: Verdict, capacity: nat)
    requires CeilingHolds(c, live)
    ensures CeilingHolds(Learn(c, live, v), live)
    ensures CeilingHolds(c, live + 1)
    ensures live > 0 ==> CeilingHolds(Retire(c, live - 1), live - 1)
    ensures HasRoom(c, live, capacity) <==> (live < capacity && c.limit == 0)
    ensures live == 0 ==> c.limit == 0
  {
  }

  /** However it was learned, a ceiling is gone once everything is released. */
  lemma {:induction false} ReleasingAllRetires(c: Ceiling, live: nat)
    requires CeilingHolds(c, live)
    ensures RetireDown(c, live).limit == 0
    decreases live
  {
    if live > 0 {
      CeilingKept(c, live, Taken, live);
      ReleasingAllRetires(Retire(c, live - 1), live - 1);
    }
  }

  function RetireDown(c: Ceiling, live: nat): Ceiling
    decreases live
  {
    if live == 0 then c else RetireDown(Retire(c, live - 1), live - 1)
  }

  // ---- the arena ----

  /** The arena's fields as a value. */
  datatype State = State(slots: seq<Slot>, freeHead: nat, live: nat, ceiling: Ceiling, host: Host)

  predicate IsLive(s: State, t: nat) {
    t < |s.slots| && s.slots[t].live
  }

  /** Live slots hold live modules of the engine, each its own. */
  ghost predicate Hosted(s: State) {
    && Ok(s.host)
    && (forall t: nat :: IsLive(s, t) ==> s.slots[t].id in s.host.modules)
    && (forall t: nat, u: nat :: IsLive(s, t) && IsLive(s, u) && t != u ==> s.slots[t].id != s.slots[u].id)
    && (forall t | 0 <= t < |s.slots| && !s.slots[t].live :: s.slots[t].id == 0)
  }

  ghost predicate Sound(s: State, free: seq<nat>) {
    && FreeList(s.slots, s.freeHead, free) && s.live + |free| == |s.slots|
    && CeilingHolds(s.ceiling, s.live) && Hosted(s)
  }

  /** The arena after an attempt to publish a module of so many bodies. */
  function Published(s: State, bodies: nat, v: Verdict): State
    requires s.freeHead <= |s.slots|
  {
    if s.freeHead == 0 then s
    else if v != Taken then s.(ceiling := Learn(s.ceiling, s.live, v))
    else
      var i := s.freeHead - 1;
      s.(slots := s.slots[i := Slot(true, s.host.next, 0)], freeHead := s.slots[i].nextFree, live := s.live + 1,
         host := Instantiate(s.host, bodies))
  }

  function Released(s: State, t: nat): State
    requires s.live > 0
  {
    if !IsLive(s, t) then s
    else s.(slots := s.slots[t := Slot(false, 0, s.freeHead)], freeHead := t + 1, live := s.live - 1,
            ceiling := Retire(s.ceiling, s.live - 1), host := Release(s.host, s.slots[t].id))
  }

  lemma HeadInRange(s: State, free: seq<nat>)
    requires Sound(s, free)
    ensures s.freeHead <= |s.slots| && s.live <= |s.slots| && (s.freeHead == 0 <==> s.live == |s.slots|)
    ensures s.freeHead != 0 ==> free != []
    ensures s.ceiling.headroom == s.ceiling.limit / 16
  {
  }

  /** Publishing into the arena, whatever the engine says. */
  lemma PublishSound(s: State, free: seq<nat>, bodies: nat, v: Verdict)
    requires Sound(s, free) && s.freeHead <= |s.slots|
    ensures Sound(Published(s, bodies, v), if s.freeHead != 0 && v == Taken then free[1..] else free)
    ensures s.freeHead != 0 ==> !IsLive(s, s.freeHead - 1)
  {
    CeilingKept(s.ceiling, s.live, v, |s.slots|);
    InstantiateOk(s.host, bodies);
    if s.freeHead != 0 {
      PublishKeepsList(s.slots, s.freeHead, free, s.host.next);
      PublishHosted(s, bodies, v);
    }
    hide Threads, Distinct, Hosted, Ok, CeilingHolds, FreeList;
  }

  lemma PublishHosted(s: State, bodies: nat, v: Verdict)
    requires Hosted(s) && 0 < s.freeHead <= |s.slots| && !s.slots[s.freeHead - 1].live
    ensures Hosted(Published(s, bodies, v))
  {
    InstantiateOk(s.host, bodies);
    if v == Taken {
      var s' := Published(s, bodies, v);
      forall t: nat | IsLive(s', t) ensures s'.slots[t].id in s'.host.modules {
        if t != s.freeHead - 1 { assert IsLive(s, t); }
      }
      forall t: nat, u: nat | IsLive(s', t) && IsLive(s', u) && t != u ensures s'.slots[t].id != s'.slots[u].id {
        if t != s.freeHead - 1 { assert IsLive(s, t) && s.slots[t].id in s.host.modules; }
        if u != s.freeHead - 1 { assert IsLive(s, u) && s.slots[u].id in s.host.modules; }
      }
    }
  }

  /** Releasing a live token keeps everything, and frees no entry of another module. */
  lemma ReleaseSound(s: State, free: seq<nat>, t: nat)
    requires Sound(s, free) && IsLive(s, t) && s.live > 0
    ensures Sound(Released(s, t), [t] + free)
  {
    CeilingKept(s.ceiling, s.live, Taken, |s.slots|);
    ReleaseKeepsList(s.slots, s.freeHead, free, t);
    ReleaseHosted(s, t);
    hide Threads, Distinct, Hosted, Ok, CeilingHolds, FreeList;
  }

  lemma ReleaseHosted(s: State, t: nat)
    requires Hosted(s) && IsLive(s, t) && s.live > 0
    ensures Hosted(Released(s, t))
  {
    ReleaseOk(s.host, s.slots[t].id);
    var s' := Released(s, t);
    hide Ok;
    forall u: nat | IsLive(s', u) ensures IsLive(s, u) && s'.slots[u] == s.slots[u] && s'.slots[u].id in s'.host.modules {
      assert u != t && IsLive(s, u) && s.slots[u].id != s.slots[t].id;
    }
  }

  lemma LiveIsPositive(s: State, free: seq<nat>, t: nat)
    requires Sound(s, free) && IsLive(s, t)
    ensures s.live > 0
  {
    if |free| >= |s.slots| { AllFree(free, |s.slots|, t); }
  }

  function Below(n: nat): (y: set<nat>)
    ensures |y| == n && forall i: nat :: i in y <==> i < n
  {
    if n == 0 then {} else Below(n - 1) + {n - 1}
  }

  /** As many distinct indices below n as n: every index. */
  lemma AllFree(list: seq<nat>, n: nat, t: nat)
    requires Distinct(list) && |list| >= n && t < n && forall i :: i in list ==> i < n
    ensures t in list
  {
    var x := set i | i in list;
    DistinctSize(list, x);
    if t !in list {
      assert x <= Below(n) - {t};
      SubsetBound(x, Below(n) - {t});
    }
  }

  lemma {:induction false} DistinctSize(list: seq<nat>, x: set<nat>)
    requires Distinct(list) && x == set i | i in list
    ensures |x| == |list|
  {
    if list != [] {
      var rest := set i | i in list[1..];
      assert x == rest + {list[0]};
      assert list[0] !in rest;
      DistinctSize(list[1..], rest);
    }
  }

  lemma {:induction false} SubsetBound(x: set<nat>, y: set<nat>)
    requires x <= y
    ensures |x| <= |y|
    decreases y
  {
    if x != {} {
      var e :| e in x;
      SubsetBound(x - {e}, y - {e});
    }
  }

  lemma ResolveSound(s: State, t: nat, body: nat, vacant: nat)
    requires Hosted(s) && IsLive(s, t)
    ensures Hosted(s.(host := Resolve(s.host, s.slots[t].id, body, vacant).0))
  {
    ResolveOk(s.host, s.slots[t].id, body, vacant);
    hide Ok;
  }

  lemma AdoptSound(s: State, to: nat, toBody: nat, from: nat, fromBody: nat, entry: nat)
    requires Hosted(s) && IsLive(s, to) && IsLive(s, from) && to != from
    requires CanAdopt(s.host, s.slots[to].id, toBody, s.slots[from].id)
    requires Owns(s.host, s.slots[from].id, fromBody, entry) && toBody !in s.host.modules[s.slots[to].id].entries
    ensures Hosted(s.(host := WasmHost.Adopt(s.host, s.slots[to].id, toBody, s.slots[from].id, fromBody, entry)))
  {
    AdoptOk(s.host, s.slots[to].id, toBody, s.slots[from].id, fromBody, entry);
    hide Ok;
  }

  lemma FreshSound(slots: seq<Slot>, free: seq<nat>)
    requires |slots| > 0 && forall i | 0 <= i < |slots| :: slots[i] == Slot(false, 0, if i + 1 < |slots| then i + 2 else 0)
    requires free == seq(|slots|, i requires 0 <= i < |slots| => i)
    ensures Sound(State(slots, 1, 0, Ceiling(0, 0), Host(map[], map[], 0)), free)
  {
    ThreadsFresh(slots, 0);
    assert free == seq(|slots| - 0, i requires 0 <= i < |slots| - 0 => 0 + i);
    forall i | 0 <= i < |slots| ensures i in free {
      assert free[i] == i;
    }
  }

  class ModuleArena {
    const slots: array<Slot>
    var freeHead: nat
    var live: nat
    var ceiling: Ceiling
    var host: Host
    ghost var free: seq<nat>

    ghost function Value(): State
      reads this, slots
    {
      State(slots[..], freeHead, live, ceiling, host)
    }

    ghost predicate Valid()
      reads this, slots
    {
      Sound(Value(), free)
    }

    /** Lowest index first, so a fresh arena hands out slot 0 before slot 1. */
    constructor (capacity: nat)
      requires capacity > 0
      ensures Valid() && slots.Length == capacity && live == 0 && fresh(slots)
      ensures ceiling.limit == 0 && host == Host(map[], map[], 0)
    {
      slots := new Slot[capacity](i => Slot(false, 0, if 0 <= i && i + 1 < capacity then i + 2 else 0));
      freeHead, live, ceiling, host := 1, 0, Ceiling(0, 0), Host(map[], map[], 0);
      free := seq(capacity, i requires 0 <= i < capacity => i);
      new;
      FreshSound(slots[..], free);
    }

    method Publish(bodies: nat, v: Verdict) returns (t: Token)
      requires Valid()
      modifies this, slots
      ensures Valid() && old(Value()).freeHead <= slots.Length && Value() == Published(old(Value()), bodies, v)
      ensures t == if old(freeHead) == 0 || v != Taken then Refused else Token(old(freeHead) - 1)
      ensures t.Token? ==> IsLive(Value(), t.index) && !IsLive(old(Value()), t.index) && live == old(live) + 1
      ensures t.Refused? ==> slots[..] == old(slots[..]) && live == old(live)
      ensures forall u | 0 <= u < slots.Length && (t.Refused? || u != t.index) :: slots[u] == old(slots[u])
      ensures t.Token? <==> old(live) < slots.Length && v == Taken
      ensures v == RefusedByEngine && old(live) < slots.Length && live > 0 ==> 0 < ceiling.limit <= live
      ensures v != RefusedByEngine || old(live) == slots.Length || (old(ceiling.limit) != 0 && live >= old(ceiling.limit)) ==> ceiling == old(ceiling)
      ensures ceiling.headroom == ceiling.limit / 16
    {
      hide Sound, Instantiate;
      HeadInRange(Value(), free);
      PublishSound(Value(), free, bodies, v);
      ghost var s := Value();
      if freeHead == 0 { return Refused; }
      var i := freeHead - 1;
      if v != Taken {
        if v == RefusedByEngine && (ceiling.limit == 0 || live < ceiling.limit) {
          ceiling := Ceiling(live, live / HEADROOM_DIVISOR);
        }
        return Refused;
      }
      freeHead := slots[i].nextFree;
      slots[i] := Slot(true, host.next, 0);
      live := live + 1;
      host := Instantiate(host, bodies);
      free := free[1..];
      assert Value() == Published(s, bodies, v);
      return Token(i);
    }

    /** The entry of a live module's export: an address to call it at, or 0. */
    method Entry(t: nat, body: nat, vacant: nat) returns (entry: nat)
      requires Valid()
      modifies `host
      ensures Valid()
      ensures if IsLive(old(Value()), t) then (host, entry) == Resolve(old(host), slots[t].id, body, vacant)
              else entry == 0 && host == old(host)
    {
      if t >= slots.Length || !slots[t].live { return 0; }
      ResolveSound(Value(), t, body, vacant);
      var r := Resolve(host, slots[t].id, body, vacant);
      host, entry := r.0, r.1;
    }

    /** An existing entry moved to another live module's export. The entry must be the one its source owns. */
    method Adopt(to: nat, toBody: nat, from: nat, fromBody: nat, entry: nat) returns (ok: bool)
      requires Valid()
      requires IsLive(Value(), to) && IsLive(Value(), from) && to != from ==>
        Owns(host, slots[from].id, fromBody, entry) && toBody !in host.modules[slots[to].id].entries
      modifies `host
      ensures to != from ==> Valid()
      ensures ok == (IsLive(old(Value()), to) && IsLive(old(Value()), from) && entry != 0 && CanAdopt(old(host), slots[to].id, toBody, slots[from].id))
      ensures host == if ok then WasmHost.Adopt(old(host), slots[to].id, toBody, slots[from].id, fromBody, entry) else old(host)
    {
      if to >= slots.Length || from >= slots.Length { return false; }
      if !slots[to].live || !slots[from].live { return false; }
      if entry == 0 { return false; } // the null entry is not an address a block was entered at
      if !CanAdopt(host, slots[to].id, toBody, slots[from].id) { return false; }
      if to != from { AdoptSound(Value(), to, toBody, from, fromBody, entry); }
      host := WasmHost.Adopt(host, slots[to].id, toBody, slots[from].id, fromBody, entry);
      return true;
    }

    method Release(t: nat)
      requires Valid()
      modifies this, slots
      ensures Valid()
      ensures if IsLive(old(Value()), t) then old(live) > 0 && Value() == Released(old(Value()), t) else Value() == old(Value())
      ensures IsLive(old(Value()), t) ==> !slots[t].live && live == old(live) - 1
      ensures forall u | 0 <= u < slots.Length && u != t :: slots[u] == old(slots[u])
      ensures IsLive(old(Value()), t) ==>
        ceiling.limit == if live + old(ceiling.limit) / 16 < old(ceiling.limit) then 0 else old(ceiling.limit)
    {
      if t >= slots.Length || !slots[t].live { return; }
      LiveIsPositive(Value(), free, t);
      ReleaseSound(Value(), free, t);
      ghost var s := Value();
      hide Sound;
      host := WasmHost.Release(host, slots[t].id);
      slots[t] := Slot(false, 0, freeHead);
      freeHead := t + 1;
      live := live - 1;
      if ceiling.limit != 0 && live + ceiling.headroom < ceiling.limit { ceiling := Ceiling(0, 0); }
      free := [t] + free;
      assert Value() == Released(s, t);
    }

    /** Nothing is live afterwards, every entry is out of the table, and no ceiling is in force. */
    method ReleaseAll()
      requires Valid()
      modifies this, slots
      ensures Valid() && live == 0 && ceiling.limit == 0
      ensures forall t: nat :: !IsLive(Value(), t)
    {
      for i := 0 to slots.Length
        invariant Valid()
        invariant forall t | 0 <= t < i :: !slots[t].live
      {
        Release(i);
      }
      NothingLive(Value(), free);
      CeilingKept(ceiling, live, Taken, slots.Length);
    }
  }

  lemma NothingLive(s: State, free: seq<nat>)
    requires Sound(s, free) && forall t | 0 <= t < |s.slots| :: !s.slots[t].live
    ensures s.live == 0 && CeilingHolds(s.ceiling, 0)
  {
    var x := set i | i in free;
    DistinctSize(free, x);
    assert Below(|s.slots|) <= x;
    SubsetBound(Below(|s.slots|), x);
  }
}
