/**
 The engine that lets one translated block jump straight into the next: the
 run loop, the chained exits' code, and everything that makes or retires a
 link. Each method is proved against the value it leaves in State(), and the
 run against the loop that always returns to the dispatcher.
 */
module Engine {
  import opened Words
  import opened Chain
  import opened Dispatch

  // ---- what the store always satisfies ----

  predicate SiteSlotted(b: Body, k: nat, claimed: nat)
    requires k < |b.sites|
  {
    b.sites[k].Slotted? && b.sites[k].slot < claimed
  }

  /** Every entry has the code of its own address and is guarded exactly at boundary addresses; no exit lacks a slot. */
  ghost predicate Good(w: World, s: Store) {
    && s.claimed <= w.capacity
    && (forall a :: a in s.cache ==> s.cache[a].host in s.code && s.code[s.cache[a].host].guest == a)
    && (forall a :: a in s.cache ==> s.cache[a].guarded == (w.contract && w.boundary(a)))
    && (forall h :: h in s.code ==> s.code[h].len > 0)
    && (forall h, k :: h in s.code && 0 <= k < |s.code[h].sites| ==> SiteSlotted(s.code[h], k, s.claimed))
  }

  /**
   What the engine relies on: under the contract the consumer intercepts only
   at boundary addresses and at the stop address; blocks are not empty and
   have at most two exits; and no block that can be evicted ends at 2^32,
   of which the engine would not be told.
   */
  ghost predicate Sane(w: World) {
    && w.capacity >= SLOTS_PER_BLOCK
    && (w.contract ==> forall c, a :: w.intercept(c, a) ==> w.boundary(a) || a == w.stop)
    && (forall t, a :: w.make(t, a).Makes? ==> w.make(t, a).len > 0 && |w.make(t, a).probes| <= SLOTS_PER_BLOCK)
    && (NeverAtTop(w) || NeverEvicts(w))
  }

  ghost predicate NeverEvicts(w: World) {
    forall t :: w.victims(t) == []
  }

  ghost predicate NeverAtTop(w: World) {
    forall t: nat, a: Word :: w.make(t, a).Makes? ==> a + w.make(t, a).len < 0x1_0000_0000
  }

  ghost predicate ShortOfTop(s: Store) {
    forall h :: h in s.code ==> s.code[h].guest + s.code[h].len < 0x1_0000_0000
  }

  /** Either nothing is ever evicted, or nothing ends at 2^32. */
  ghost predicate Forgettable(w: World, s: Store) {
    NeverEvicts(w) || (NeverAtTop(w) && ShortOfTop(s))
  }

  /** An evicted block's entry is forgotten if and only if the block ends below 2^32. */
  lemma ForgetsExactly(s: Store, a: Word)
    requires a in s.cache && s.cache[a].host in s.code
    requires var b := s.code[s.cache[a].host]; b.guest == a && b.len > 0
    ensures a !in Forget(s, s.cache[a].host).cache <==> a + s.code[s.cache[a].host].len < 0x1_0000_0000
  {
    var b := s.code[s.cache[a].host];
    if a + b.len < 0x1_0000_0000 {
      assert Hit(s, a, b.guest, b.guest + b.len);
    }
  }

  /** Evicting forgets exactly the entries that cover a byte of the evicted block, when its end is below 2^32, and its code. */
  lemma ForgetsWhatItCovers(w: World, s: Store, host: nat)
    requires Good(w, s) && host in s.code
    ensures Forget(s, host).code == map h | h in s.code && h != host :: s.code[h]
    ensures forall a :: a in Forget(s, host).cache ==> a in s.cache && Forget(s, host).cache[a] == s.cache[a]
    ensures var b := s.code[host];
      forall a :: a in s.cache ==>
        (a in Forget(s, host).cache <==> !(b.guest + b.len <= 0xFFFF_FFFF && Covers(a, s.code[s.cache[a].host].len, b.guest, b.guest + b.len)))
  {
    hide Covers, Overlaps, SiteSlotted;
    var b := s.code[host];
    if b.guest + b.len <= 0xFFFF_FFFF {
      forall a | a in s.cache ensures Hit(s, a, b.guest, b.guest + b.len) <==> Covers(a, s.code[s.cache[a].host].len, b.guest, b.guest + b.len) {
        OverlapsExactly(a, s.code[s.cache[a].host].len, b.guest, b.guest + b.len);
      }
    }
  }

  lemma DropGood(w: World, s: Store, lo: Word, hi: Word)
    requires Good(w, s)
    ensures Good(w, Drop(s, lo, hi)) && (ShortOfTop(s) ==> ShortOfTop(Drop(s, lo, hi)))
  {
    hide SiteSlotted;
    var d := Drop(s, lo, hi);
    forall a | a in d.cache ensures d.cache[a].host in d.code && d.code[d.cache[a].host].guest == a {
      assert !Hit(s, a, lo, hi);
    }
  }

  lemma GoodParts(w: World, s: Store)
    requires Good(w, s)
    ensures forall a :: a in s.cache ==> s.cache[a].host in s.code
    ensures forall h :: h in s.code ==> s.code[h].len > 0
  {
  }

  /** After a drop no entry covers a byte of the range, and every entry and translation that covers none is still there. */
  lemma DropsExactly(s: Store, lo: Word, hi: Word)
    requires forall a :: a in s.cache ==> s.cache[a].host in s.code
    requires forall h :: h in s.code ==> s.code[h].len > 0
    ensures forall a :: a in Drop(s, lo, hi).cache <==> a in s.cache && !Covers(a, s.code[s.cache[a].host].len, lo, hi)
    ensures forall a :: a in Drop(s, lo, hi).cache ==> Drop(s, lo, hi).cache[a] == s.cache[a]
    ensures forall h :: h in Drop(s, lo, hi).code <==> h in s.code && !Covers(s.code[h].guest, s.code[h].len, lo, hi)
    ensures forall h :: h in Drop(s, lo, hi).code ==> Drop(s, lo, hi).code[h] == s.code[h]
  {
    hide Covers, Overlaps;
    var d := Drop(s, lo, hi);
    forall a | a in s.cache ensures a in d.cache <==> !Covers(a, s.code[s.cache[a].host].len, lo, hi) {
      OverlapsExactly(a, s.code[s.cache[a].host].len, lo, hi);
    }
    forall h | h in s.code ensures h in d.code <==> !Covers(s.code[h].guest, s.code[h].len, lo, hi) {
      OverlapsExactly(s.code[h].guest, s.code[h].len, lo, hi);
    }
  }

  lemma DropForgettable(w: World, s: Store, lo: Word, hi: Word)
    requires Good(w, s) && Forgettable(w, s)
    ensures Forgettable(w, Drop(s, lo, hi))
  {
    hide Good;
    DropGood(w, s, lo, hi);
  }

  lemma DroppedIff(s: Store, lo: Word, hi: Word)
    ensures var kept := DropEntries(s, lo, hi).cache;
      && (kept.Keys != s.cache.Keys <==> exists a :: a in s.cache && Hit(s, a, lo, hi))
      && (kept.Keys == s.cache.Keys ==> kept == s.cache)
  {
    hide Hit;
    var kept := DropEntries(s, lo, hi).cache;
    if forall a :: a in s.cache ==> !Hit(s, a, lo, hi) {
      assert kept == s.cache;
    } else {
      var a :| a in s.cache && Hit(s, a, lo, hi);
      assert a !in kept.Keys && a in s.cache.Keys;
    }
  }

  lemma ForgetGood(w: World, s: Store, host: nat)
    requires Good(w, s) && ShortOfTop(s)
    ensures Good(w, Forget(s, host)) && ShortOfTop(Forget(s, host))
  {
    hide SiteSlotted;
    if host in s.code {
      var b := s.code[host];
      var s' := Forget(s, host);
      forall a | a in s.cache && s.cache[a].host == host ensures a !in s'.cache {
        assert Hit(s, a, b.guest, b.guest + b.len);
      }
    }
  }

  lemma SaneRoom(w: World)
    requires Sane(w)
    ensures SLOTS_PER_BLOCK <= w.capacity
  {
  }

  /** How often the storage was asked concerns nothing else. */
  lemma AskedGood(w: World, s: Store, tick: nat)
    requires Good(w, s) && Forgettable(w, s)
    ensures Good(w, s.(tick := tick)) && Forgettable(w, s.(tick := tick))
  {
    hide SiteSlotted;
  }

  lemma FlushGood(w: World, s: Store)
    ensures Good(w, Flush(s)) && ShortOfTop(Flush(s))
  {
  }

  /** A fresh block recorded under an address that has none. */
  lemma RecordGood(w: World, s: Store, eip: Word, host: nat, len: nat, probes: seq<bool>, run: Context -> Leave)
    requires Good(w, s) && host !in s.code && len > 0 && |probes| <= SLOTS_PER_BLOCK
    requires s.claimed + SLOTS_PER_BLOCK <= w.capacity
    ensures Good(w, Recorded(w, s, eip, host, len, probes, run))
  {
    var s' := Recorded(w, s, eip, host, len, probes, run);
    forall h, k | h in s'.code && 0 <= k < |s'.code[h].sites| ensures SiteSlotted(s'.code[h], k, s'.claimed) {
      if h != host { assert SiteSlotted(s.code[h], k, s.claimed); }
    }
  }

  // ---- what a transfer skips is nothing ----

  lemma EnteredIsLeft(w: World, s: Store, host: nat, c: Context, eip: Word, max: nat, p: Progress)
    requires host in s.code && p.steps < max
    ensures Entered(w, s, host, c, eip, max, p)
         == Left(w, s, s.code[host].run(c), max, p.(steps := p.steps + 1, entered := p.entered + [eip]))
  {
  }

  /** Where a cached block is unguarded and is not the stop address, dispatching to it asks nothing and enters it. */
  lemma TransferIsDispatch(w: World, s: Store, c: Context, eip: Word, max: nat, retried: bool, p: Progress)
    requires Sane(w) && Good(w, s) && w.contract && p.steps < max
    requires eip != w.stop && eip in s.cache && !s.cache[eip].guarded
    ensures PlainRun(w, s, c, eip, max, retried, p) == Entered(w, s, s.cache[eip].host, c, eip, max, p)
  {
    hide Entered;
    assert !w.intercept(c, eip);
  }

  /** Transfers the call just made, from what it left of `allowed`. */
  function ChainedTransfers(allowed: nat, budget: nat): int {
    allowed - budget - (if budget == 0 then 1 else 0)
  }

  /** Where a block left for: resumed in the dispatcher, or out of the run. */
  function Resume(w: World, s: Store, leave: Leave, max: nat, p: Progress): Outcome {
    match leave.exit
    case ToBlock(_) => PlainRun(w, s, leave.c, leave.next, max, false, p)
    case Unwind(status) => Stopped(s, leave.c, leave.next, status, p)
  }

  lemma LeftIsResume(w: World, s: Store, leave: Leave, max: nat, p: Progress)
    ensures Left(w, s, leave, max, p) == Resume(w, AfterRewrite(s, leave.rewrite), leave, max, p)
  {
  }

  function SiteOf(b: Body, leave: Leave): Site {
    if leave.exit.ToBlock? && leave.exit.site < |b.sites| then b.sites[leave.exit.site] else Unslotted
  }

  datatype Pending = Pending(slot: nat, flushes: nat)

  class Engine {
    const chain: Chain
    var cache: map<Word, Entry>
    /** A partial copy of the unguarded cache, asked first and by the probe. */
    var front: map<Word, nat>
    var code: map<nat, Body>
    var tick: nat
    var flushes: nat
    var lastEntry: Word
    var blocksEntered: nat

    /** Everything the engine's translations amount to, slots and front array aside. */
    function State(): Store
      reads this, chain
    {
      Store(cache, code, chain.claimed, tick, flushes)
    }

    /** Every linked slot names the live, unguarded translation of exactly its guest address. */
    ghost predicate Linked()
      reads this`cache, chain`claimed, chain.slots
      requires chain.Valid()
    {
      forall i | 0 <= i < chain.claimed :: SlotGood(chain.slots[i])
    }

    predicate Reaches(guest: Word, host: nat)
      reads this`cache
    {
      guest in cache && !cache[guest].guarded && cache[guest].host == host
    }

    predicate SlotGood(slot: Slot)
      reads this`cache
    {
      slot.Linked? ==> Reaches(slot.guest, slot.host)
    }

    ghost predicate Fronted()
      reads this`cache, this`front
    {
      forall a | a in front :: Reaches(a, front[a])
    }

    ghost predicate Valid(w: World)
      reads this, chain, chain.slots
    {
      && chain.Valid() && w.capacity == chain.capacity && Sane(w)
      && Good(w, State()) && Forgettable(w, State())
      && Linked() && Fronted()
    }

    constructor (w: World)
      requires Sane(w)
      ensures Valid(w) && State() == Store(map[], map[], 0, 0, 0)
      ensures fresh(chain) && fresh(chain.slots) && front == map[] && lastEntry == 0 && blocksEntered == 0
    {
      chain := new Chain(w.capacity);
      cache, front, code, tick, flushes, lastEntry, blocksEntered := map[], map[], map[], 0, 0, 0, 0;
    }

    /** Drop every translation and every link, and give every slot back: both halves together. */
    method InvalidateAll(w: World)
      requires Valid(w)
      modifies this`cache, this`front, this`code, this`flushes, chain`pending, chain`claimed, chain.slots
      ensures Valid(w) && State() == Flush(old(State())) && chain.pending == 0
      ensures forall i | 0 <= i < old(chain.claimed) :: chain.slots[i] == Unlinked
    {
      cache, front, code := map[], map[], map[];
      chain.Reset();
      flushes := flushes + 1;
      FlushGood(w, old(State()));
    }

    /** Guest code changed: drop what overlaps, and every link if anything was dropped. */
    method DropRange(w: World, lo: Word, hi: Word) returns (dropped: bool)
      requires Valid(w)
      modifies this`cache, this`front, this`code, chain`pending, chain.slots
      ensures Valid(w) && State() == Drop(old(State()), lo, hi)
      ensures forall a :: a in old(cache) ==> old(cache)[a].host in old(code)
      ensures forall a :: a in cache <==> a in old(cache) && !Covers(a, old(code)[old(cache)[a].host].len, lo, hi)
      ensures forall a :: a in cache ==> cache[a] == old(cache)[a]
      ensures forall h :: h in code <==> h in old(code) && !Covers(old(code)[h].guest, old(code)[h].len, lo, hi)
      ensures dropped <==> exists a :: a in old(cache) && Covers(a, old(code)[old(cache)[a].host].len, lo, hi)
      ensures chain.pending == if dropped then 0 else old(chain.pending)
      ensures dropped ==> forall i | 0 <= i < chain.claimed :: chain.slots[i] == Unlinked
    {
      hide Good, Sane, Forgettable, Hit, Overlaps, ShortOfTop, Covers;
      ghost var s := State();
      GoodParts(w, s);
      DropsExactly(s, lo, hi);
      var after := Drop(State(), lo, hi);
      var kept := after.cache;
      DropGood(w, s, lo, hi);
      DropForgettable(w, s, lo, hi);
      dropped := kept.Keys != cache.Keys;
      DroppedIff(s, lo, hi);
      front := map a | a in front && a in kept :: front[a];
      cache, code := kept, after.code;
      if dropped { chain.UnlinkAll(); }
    }

    /** The storage is evicting a block: forget its entry before its address can be handed out again. */
    method ForgetEvicted(w: World, host: nat)
      requires Valid(w) && ShortOfTop(State()) && NeverAtTop(w)
      modifies this`cache, this`front, this`code, chain`pending, chain.slots
      ensures Valid(w) && ShortOfTop(State()) && State() == Forget(old(State()), host)
    {
      ForgetGood(w, State(), host);
      hide Good, Sane, Hit;
      if host in code {
        var kept := Forget(State(), host);
        front := map a | a in front && a in kept.cache :: front[a];
        cache, code := kept.cache, kept.code;
        chain.UnlinkAll();
      }
    }

    method EvictAll(w: World, hosts: seq<nat>)
      requires Valid(w) && (hosts == [] || (ShortOfTop(State()) && NeverAtTop(w)))
      modifies this`cache, this`front, this`code, chain`pending, chain.slots
      ensures Valid(w) && State() == ForgetAll(old(State()), hosts)
    {
      for i := 0 to |hosts|
        invariant Valid(w) && (hosts == [] || ShortOfTop(State()))
        invariant State() == ForgetAll(old(State()), hosts[..i])
      {
        assert hosts[..i + 1][..i] == hosts[..i];
        ForgetEvicted(w, hosts[i]);
      }
      assert hosts[..|hosts|] == hosts;
    }

    /** One round of eviction: whether it freed anything. */
    method EvictOnce(w: World) returns (freed: bool)
      requires Valid(w)
      modifies this`cache, this`front, this`code, this`tick, chain`pending, chain.slots
      ensures Valid(w) && State() == ForgetAll(old(State()), w.victims(old(tick))).(tick := old(tick) + 1)
      ensures freed == (code.Keys != old(code.Keys) && w.frees(old(tick)))
      ensures chain.claimed == old(chain.claimed) && (freed ==> |code| < |old(code)|)
    {
      ghost var s := State();
      VictimsForgettable(w, s);
      EvictedFacts(s, w.victims(tick));
      hide Good, Sane, Forgettable, ForgetAll, NeverAtTop, NeverEvicts, ShortOfTop, Linked, Fronted,
        Forget, Flush, SlotGood, Reaches;
      var before, frees := code.Keys, w.frees(tick);
      EvictAll(w, w.victims(tick));
      Asked(w);
      freed := code.Keys != before && frees;
    }

    /** The storage has been asked once more. */
    method Asked(w: World)
      requires Valid(w)
      modifies this`tick
      ensures Valid(w) && State() == old(State()).(tick := old(tick) + 1)
    {
      AskedGood(w, State(), tick + 1);
      hide Good, Sane, Forgettable, Linked, Fronted;
      tick := tick + 1;
    }

    /** Evict while that frees bytes, else flush, until there is room. */
    method EvictForRoom(w: World)
      requires Valid(w)
      modifies this`cache, this`front, this`code, this`flushes, this`tick, chain`pending, chain`claimed, chain.slots
      ensures Valid(w) && State() == MakeRoom(w, old(State()))
      ensures chain.claimed + SLOTS_PER_BLOCK <= w.capacity
    {
      ghost var s0 := State();
      SaneRoom(w);
      hide Good, Sane, Forgettable, ForgetAll, Linked, Fronted;
      if chain.claimed + SLOTS_PER_BLOCK > w.capacity { InvalidateAll(w); }
      while !w.room(tick)
        invariant Valid(w) && RoomLoop(w, State()) == MakeRoom(w, s0)
        invariant chain.claimed + SLOTS_PER_BLOCK <= w.capacity
        decreases |code|
      {
        var freed := EvictOnce(w);
        if !freed {
          InvalidateAll(w);
          break;
        }
      }
    }

    // ---- translating ----

    /** Each exit site claims the next slot, if any is left. */
    method ClaimSites(w: World, probes: seq<bool>) returns (sites: seq<Site>)
      requires chain.Valid() && w.capacity == chain.capacity && Linked()
      modifies chain`claimed, chain.slots
      ensures chain.Valid() && Linked() && chain.claimed >= old(chain.claimed)
      ensures sites == Sites(probes, old(chain.claimed), w.capacity)
      ensures chain.claimed == ClaimedAfter(probes, old(chain.claimed), w.capacity)
    {
      sites := [];
      for i := 0 to |probes|
        invariant chain.Valid() && Linked() && chain.claimed >= old(chain.claimed)
        invariant sites == Sites(probes[..i], old(chain.claimed), w.capacity)
        invariant chain.claimed == ClaimedAfter(probes[..i], old(chain.claimed), w.capacity)
      {
        var ok, slot := chain.Claim();
        sites := sites + [if ok then Slotted(slot, probes[i]) else Unslotted];
      }
      assert probes[..|probes|] == probes;
    }

    /** A failed translation returns the slots it claimed. */
    method ReturnSlots(w: World, claims: nat)
      requires Valid(w)
      modifies chain`claimed, chain.slots
      ensures Valid(w) && State() == old(State())
    {
      hide Good, Sane, Forgettable, Sites, ClaimedAfter;
      var mark := chain.claimed;
      var _ := ClaimSites(w, seq(claims, _ => false));
      chain.Rewind(mark);
    }

    /** Record a fresh translation under its address, guarded where the contract may ask about it. */
    method Record(w: World, eip: Word, host: nat, len: nat, probes: seq<bool>, run: Context -> Leave)
      requires Valid(w) && eip !in cache && Good(w, Recorded(w, State(), eip, host, len, probes, run))
      requires Forgettable(w, Recorded(w, State(), eip, host, len, probes, run)) && host !in code
      modifies this`cache, this`code, chain`claimed, chain.slots
      ensures Valid(w) && State() == Recorded(w, old(State()), eip, host, len, probes, run)
    {
      hide Good, Sane, Forgettable, Sites, ClaimedAfter;
      var sites := ClaimSites(w, probes);
      cache, code := cache[eip := Entry(host, w.contract && w.boundary(eip))], code[host := Body(eip, len, sites, run)];
    }

    /** Translate the block at `eip`, publish it and record it. */
    method Translate(w: World, eip: Word) returns (r: Translated)
      requires Valid(w) && eip !in cache
      modifies this`cache, this`front, this`code, this`flushes, this`tick, chain`pending, chain`claimed, chain.slots
      ensures Valid(w) && r == TranslateAt(w, old(State()), eip) && r.s == State()
    {
      EvictForRoom(w);
      RoomMisses(w, old(State()), eip);
      ghost var s := State();
      var made, full := w.make(tick, eip), w.full(tick);
      hide Good, Sane, Forgettable, RoomLoop, MakeRoom, Recorded, Linked, Fronted;
      Asked(w);
      match made {
        case Fails(why, claims) =>
          ReturnSlots(w, claims);
          return match why case NoSpace => Retry(State()) case Refused(status) => Failed(State(), status);
        case Makes(host, len, probes, run) =>
          if host in code { return Retry(State()); }
          if full {
            InvalidateAll(w);
            return Retry(State());
          }
          MadeGood(w, s, eip, host, len, probes, run);
          Record(w, eip, host, len, probes, run);
          return Got(State(), host);
      }
    }

    // ---- links ----

    /** Fill the pending exit's slot with the unguarded translation found for `guest`. */
    method LinkPending(w: World, pending: Pending, guest: Word, host: nat)
      requires Valid(w) && Reaches(guest, host)
      modifies chain.slots
      ensures Valid(w)
      ensures chain.slots[..] == if 0 < pending.slot <= chain.claimed && pending.flushes == flushes
                                 then old(chain.slots[..])[pending.slot - 1 := Slot.Linked(guest, host)] else old(chain.slots[..])
    {
      if pending.slot == 0 || pending.flushes != flushes || pending.slot > chain.claimed { return; }
      hide Good, Sane, Forgettable;
      chain.Link(pending.slot - 1, guest, host);
    }

    /** A block found unguarded takes its place in the direct-mapped front array. */
    method TakeFront(w: World, guest: Word, host: nat)
      requires Valid(w) && Reaches(guest, host)
      modifies this`front
      ensures Valid(w) && guest in front && front[guest] == host
      ensures forall a :: a != guest ==> (a in front <==> a in old(front) && w.frontIndex(a) != w.frontIndex(guest))
      ensures forall a :: a in front && a != guest ==> front[a] == old(front)[a]
    {
      hide Good, Sane, Forgettable;
      front := (map a | a in front && w.frontIndex(a) != w.frontIndex(guest) :: front[a])[guest := host];
    }

    // ---- the emitted exits ----

    /** Whether a transfer to `next` may be made: not to the stop address, and only with budget left after this step. */
    method TransferChecks(next: Word) returns (ok: bool)
      requires chain.budget > 0
      modifies chain`budget, chain`last
      ensures ok == (next != chain.stop && old(chain.budget) > 1)
      ensures chain.budget == old(chain.budget) - (if next == chain.stop then 0 else 1)
      ensures chain.last == if ok then next else old(chain.last)
    {
      if next == chain.stop { return false; }
      chain.budget := chain.budget - 1;
      if chain.budget == 0 { return false; }
      chain.last := next;
      return true;
    }

    /** A slot an exit holds: claimed, or unlinked for having been returned while its block ran. */
    predicate Usable(slot: nat)
      reads chain`claimed, chain.slots
    {
      slot < chain.slots.Length && (slot < chain.claimed || chain.slots[slot].Unlinked?)
    }

    /** A slotted exit has somewhere to go on to: its own slot links there, or it varies and the front array has it. */
    predicate Leads(site: Site, next: Word)
      reads this`front, chain, chain.slots
    {
      && site.Slotted? && site.slot < chain.slots.Length
      && ((chain.slots[site.slot].Linked? && chain.slots[site.slot].guest == next) || (site.probe && next in front))
    }

    /** Where an exit finds its target: its own slot, then, for a varying one, the front array. */
    method FindTarget(w: World, site: Site, next: Word) returns (found: bool, host: nat)
      requires Valid(w) && site.Slotted? && Usable(site.slot)
      ensures (found <==> Leads(site, next)) && (found ==> Reaches(next, host))
    {
      hide Good, Sane, Forgettable;
      var slot := chain.slots[site.slot];
      assert SlotGood(slot);
      if slot.Linked? && slot.guest == next { return true, slot.host; }
      if site.probe && next in front { return true, front[next]; }
      return false, 0;
    }

    /**
     One block and the exit it leaves by: on to the translation the exit
     found, which is the one the dispatcher would enter, or returned.
     */
    method RunOne(w: World, host: nat, c: Context, eip: Word, ghost max: nat, ghost p: Progress)
        returns (leave: Leave, moved: bool, target: nat)
      requires Valid(w) && host in code && chain.pending == 0 && chain.stop == w.stop
      requires 0 < chain.budget && p.steps + chain.budget <= max && (chain.budget > 1 ==> w.contract)
      modifies this`cache, this`front, this`code, this`flushes, chain`claimed, chain`pending, chain`budget, chain`last, chain.slots
      ensures Valid(w) && leave.rewrite == Untouched
      ensures var p' := p.(steps := p.steps + 1, entered := p.entered + [eip]);
        Entered(w, old(State()), host, c, eip, max, p)
        == if moved then Entered(w, State(), target, leave.c, leave.next, max, p') else Resume(w, State(), leave, max, p')
      ensures var sites, exit := old(code)[host].sites, leave.exit;
        var slotted := exit.ToBlock? && exit.site < |sites| && sites[exit.site].Slotted?;
        && (moved <==> slotted && Leads(sites[exit.site], leave.next) && leave.next != w.stop && old(chain.budget) > 1)
        && chain.pending == (if moved || !slotted then 0 else sites[exit.site].slot + 1)
      ensures moved ==> target in code && chain.budget == old(chain.budget) - 1 > 0 && chain.last == leave.next && chain.pending == 0
      ensures !moved ==> chain.last == old(chain.last) && (chain.budget == old(chain.budget) || (chain.budget == 0 && old(chain.budget) == 1))
    {
      EnteredIsLeft(w, State(), host, c, eip, max, p);
      leave, moved, target := code[host].run(c), false, 0;
      LeftIsResume(w, State(), leave, max, p.(steps := p.steps + 1, entered := p.entered + [eip]));
      var site := SiteOf(code[host], leave);
      SiteClaimed(w, State(), host, leave);
      hide Good, Sane, Forgettable, Entered, Left, PlainRun, SiteOf;
      ApplyRewrite(w, leave.rewrite);
      leave := leave.(rewrite := Untouched);
      if site.Unslotted? { return; }
      moved, target := FindTarget(w, site, leave.next);
      if moved { moved := TransferChecks(leave.next); }
      if !moved { chain.pending := site.slot + 1; return; }
      SiteMeansBlock(w, State(), leave, target, max, p.(steps := p.steps + 1, entered := p.entered + [eip]));
    }

    /**
     A call into translated code: the block, and every block it is chained
     to, until an exit returns. The budget counts the transfers, and the
     dispatcher, asked at each of them, would have entered the same blocks.
     */
    method CallEntry(w: World, host0: nat, c0: Context, eip0: Word, ghost max: nat, ghost p0: Progress)
        returns (leave: Leave, transfers: nat, ghost p: Progress)
      requires Valid(w) && host0 in code && chain.pending == 0 && chain.last == eip0 && chain.stop == w.stop
      requires 0 < chain.budget && p0.steps + chain.budget <= max && (chain.budget > 1 ==> w.contract)
      modifies this`cache, this`front, this`code, this`flushes, chain`claimed, chain`pending, chain`budget, chain`last, chain.slots
      ensures Valid(w) && leave.rewrite == Untouched
      ensures Entered(w, old(State()), host0, c0, eip0, max, p0) == Resume(w, State(), leave, max, p)
      ensures transfers == ChainedTransfers(old(chain.budget), chain.budget)
      ensures p.steps == p0.steps + 1 + transfers && p.handled == p0.handled
      ensures |p.entered| == |p0.entered| + 1 + transfers && chain.last == p.entered[|p.entered| - 1]
      ensures transfers == 0 ==> chain.last == eip0
    {
      hide Good, Sane, Forgettable, Entered, Resume;
      var host, c, eip := host0, c0, eip0;
      transfers := 0;
      p := p0;
      while true
        invariant Valid(w) && host in code && chain.last == eip && chain.stop == w.stop && chain.pending == 0
        invariant Entered(w, old(State()), host0, c0, eip0, max, p0) == Entered(w, State(), host, c, eip, max, p)
        invariant 0 < chain.budget && transfers + chain.budget == old(chain.budget) && (transfers == 0 ==> eip == eip0)
        invariant p.steps == p0.steps + transfers && p.handled == p0.handled && |p.entered| == |p0.entered| + transfers
        decreases chain.budget
      {
        var moved, target;
        leave, moved, target := RunOne(w, host, c, eip, max, p);
        p := p.(steps := p.steps + 1, entered := p.entered + [eip]);
        if !moved { return; }
        host, c, eip, transfers := target, leave.c, leave.next, transfers + 1;
      }
    }

    /** What the embedder drops while a block runs is gone before the block's exit looks for its target. */
    method ApplyRewrite(w: World, r: Rewrite)
      requires Valid(w)
      modifies this`cache, this`front, this`code, this`flushes, chain`pending, chain`claimed, chain.slots
      ensures Valid(w) && State() == AfterRewrite(old(State()), r)
      ensures old(chain.pending) == 0 ==> chain.pending == 0
      ensures forall slot: nat | slot < old(chain.claimed) :: Usable(slot)
      ensures r.Untouched? ==> cache == old(cache) && code == old(code) && flushes == old(flushes)
      ensures r.Everything? ==> cache == map[] && code == map[] && chain.claimed == 0 && flushes == old(flushes) + 1
      ensures r.Rewritten? ==> forall a :: a in cache <==>
        a in old(cache) && !Covers(a, old(code)[old(cache)[a].host].len, r.lo, r.hi)
      ensures r.Rewritten? ==> forall h :: h in code <==> h in old(code) && !Covers(old(code)[h].guest, old(code)[h].len, r.lo, r.hi)
    {
      hide Good, Sane, Forgettable, Drop, Covers, Linked, Fronted;
      match r {
        case Untouched =>
        case Rewritten(lo, hi) => var _ := DropRange(w, lo, hi);
        case Everything => InvalidateAll(w);
      }
    }

    // ---- the dispatcher ----

    /** The translation the dispatcher enters without asking anyone: cached, unguarded, and not the stop address. */
    method LookupUnguarded(w: World, eip: Word) returns (found: bool, host: nat)
      requires Valid(w)
      modifies this`front
      ensures Valid(w) && found == (w.contract && eip != w.stop && eip in cache && !cache[eip].guarded)
      ensures found ==> Reaches(eip, host) && eip in front && front[eip] == host
      ensures !found ==> front == old(front)
    {
      found, host := w.contract && eip != w.stop && eip in cache && !cache[eip].guarded, 0;
      if found {
        host := cache[eip].host;
        TakeFront(w, eip, host);
      }
    }

    /** Enter `host` once, with a budget of transfers for the steps left when linking, and none otherwise. */
    method Enter(w: World, host: nat, c: Context, eip: Word, max: nat, steps: nat, linking: bool, ghost p0: Progress)
        returns (leave: Leave, ghost p: Progress, made: nat, pending: Pending)
      requires Valid(w) && host in code && p0.steps == steps < max && (linking ==> w.contract)
      modifies this`cache, this`front, this`code, this`flushes, chain`claimed, this`lastEntry, this`blocksEntered, chain`pending, chain`budget, chain`stop, chain`last, chain.slots
      ensures Valid(w)
      ensures Entered(w, old(State()), host, c, eip, max, p0) == Resume(w, State(), leave, max, p)
      ensures p.steps == p0.steps + made && made >= 1 && |p.entered| == |p0.entered| + made && p.handled == p0.handled
      ensures p.steps <= max && blocksEntered == old(blocksEntered) + made && lastEntry == p.entered[|p.entered| - 1]
      ensures made == 1 + ChainedTransfers(if linking then max - steps else 1, chain.budget)
      ensures pending == if chain.pending == 0 then Pending(0, 0) else Pending(chain.pending, flushes)
    {
      var allowed := if linking then max - steps else 1;
      chain.budget, chain.stop, chain.last, chain.pending := allowed, w.stop, eip, 0;
      var transfers;
      hide Good, Sane, Forgettable, Entered, Resume;
      leave, transfers, p := CallEntry(w, host, c, eip, max, p0);
      made := 1 + transfers;
      lastEntry := if transfers != 0 then chain.last else eip;
      blocksEntered := blocksEntered + made;
      pending := if chain.pending != 0 then Pending(chain.pending, flushes) else Pending(0, 0);
    }

    /** Before a block: link, ask the consumer, look up, translate. */
    method Decide(w: World, c: Context, eip: Word, pending: Pending, linking: bool, retried: bool, ghost max: nat, ghost p: Progress)
        returns (d: Decision)
      requires Valid(w) && p.steps < max
      modifies this`cache, this`front, this`code, this`flushes, this`tick, chain`pending, chain`claimed, chain.slots
      ensures Valid(w)
      ensures Decided(w, old(State()), State(), c, eip, retried, max, p, d)
      ensures linking && w.contract && eip != w.stop && eip in old(cache) && !old(cache)[eip].guarded ==>
        && d == Enters(old(cache)[eip].host) && chain.claimed == old(chain.claimed)
        && (0 < pending.slot <= chain.claimed && pending.flushes == flushes ==>
              chain.slots[pending.slot - 1] == Slot.Linked(eip, old(cache)[eip].host))
    {
      ghost var s0 := State();
      var unguarded, host := LookupUnguarded(w, eip);
      if linking && unguarded { LinkPending(w, pending, eip, host); }
      if unguarded {
        TransferIsDispatch(w, State(), c, eip, max, retried, p);
        CachedCode(w, State(), eip);
        return Enters(host);
      }
      if w.intercept(c, eip) {
        match w.dispatch(c, eip) {
          case Continue(c', next) => return Goes(c', next);
          case Declined => return Ends(Intercept);
        }
      }
      if eip in cache {
        CachedCode(w, State(), eip);
        return Enters(cache[eip].host);
      }
      var r := Translate(w, eip);
      GotCode(w, s0, eip);
      hide Good, Sane, Forgettable, TranslateAt, Entered;
      match r {
        case Got(_, h) => return Enters(h);
        case Retry(_) => return if retried then Ends(OutOfCode) else Again;
        case Failed(_, st) => return Ends(st);
      }
    }

    /**
     The run: dispatching, linking and chaining. It ends where the loop that
     returns after every block ends, with the same store, having entered the
     same blocks in the same order.
     */
    method Run(w: World, c0: Context, eip0: Word, max: nat, diagnostics: bool, hostChanged: bool)
        returns (c: Context, eip: Word, status: Status, steps: nat, ghost entered: seq<Word>, ghost handled: nat)
      requires Valid(w)
      modifies this, chain, chain.slots
      ensures Valid(w)
      ensures PlainRun(w, if hostChanged then Flush(old(State())) else old(State()), c0, eip0, max, false, Progress(0, [], 0))
           == Outcome(State(), c, eip, status, steps, entered, handled)
      ensures steps == |entered| + handled <= max && blocksEntered == old(blocksEntered) + |entered|
      ensures entered != [] ==> lastEntry == entered[|entered| - 1]
    {
      hide Good, Sane, Forgettable, Entered, PlainRun, Linked, Fronted, ChainedTransfers;
      if hostChanged { InvalidateAll(w); } // every translation assumes the host state it was made under
      ghost var s0 := State();
      var linking := w.contract && !diagnostics;
      var pending := Pending(0, 0);
      var retried := false;
      ghost var p := Progress(0, [], 0);
      c, eip, steps, entered, handled := c0, eip0, 0, [], 0;
      while steps < max
        invariant Valid(w) && steps == p.steps == |p.entered| + p.handled <= max
        invariant PlainRun(w, s0, c0, eip0, max, false, Progress(0, [], 0)) == PlainRun(w, State(), c, eip, max, retried, p)
        invariant blocksEntered == old(blocksEntered) + |p.entered|
        invariant p.entered != [] ==> lastEntry == p.entered[|p.entered| - 1]
        invariant entered == p.entered && handled == p.handled
        decreases max - steps, !retried
      {
        var d := Decide(w, c, eip, pending, linking, retried, max, p);
        pending := Pending(0, 0);
        match d {
          case Goes(c', next) =>
            c, eip, steps := c', next, steps + 1;
            p := p.(steps := p.steps + 1, handled := p.handled + 1);
            handled := p.handled;
          case Again => retried := true;
          case Ends(st) => return c, eip, st, steps, entered, handled;
          case Enters(host) =>
            retried := false;
            var leave, made;
            leave, p, made, pending := Enter(w, host, c, eip, max, steps, linking, p);
            c, eip, steps, entered := leave.c, leave.next, steps + made, p.entered;
            if leave.exit.Unwind? { return c, eip, leave.exit.status, steps, entered, handled; }
        }
      }
      BudgetSpent(w, State(), c, eip, max, retried, p);
      status := Budget;
    }
  }

  lemma BudgetSpent(w: World, s: Store, c: Context, eip: Word, max: nat, retried: bool, p: Progress)
    requires p.steps >= max
    ensures PlainRun(w, s, c, eip, max, retried, p) == Stopped(s, c, eip, Budget, p)
  {
  }

  /** What the dispatcher does next: enter a block, go on where a handler left the guest, try again, or end the run. */
  datatype Decision = Enters(host: nat) | Goes(c: Context, next: Word) | Again | Ends(status: Status)

  /** The reference loop does the same from the same place. */
  ghost predicate Decided(w: World, s0: Store, s: Store, c: Context, eip: Word, retried: bool, max: nat, p: Progress, d: Decision) {
    var plain := PlainRun(w, s0, c, eip, max, retried, p);
    match d
    case Enters(host) => host in s.code && plain == Entered(w, s, host, c, eip, max, p)
    case Goes(c', next) => plain == PlainRun(w, s, c', next, max, retried, p.(steps := p.steps + 1, handled := p.handled + 1))
    case Again => !retried && plain == PlainRun(w, s, c, eip, max, true, p)
    case Ends(status) => plain == Stopped(s, c, eip, status, p)
  }

  lemma CachedCode(w: World, s: Store, eip: Word)
    requires Good(w, s) && eip in s.cache
    ensures s.cache[eip].host in s.code
  {
  }

  lemma GotCode(w: World, s: Store, eip: Word)
    ensures var r := TranslateAt(w, s, eip); r.Got? ==> r.host in r.s.code
  {
    hide MakeRoom;
  }

  /** An exit by a slotted site resumes in the dispatcher, which enters what the exit found. */
  lemma SiteMeansBlock(w: World, s: Store, leave: Leave, target: nat, max: nat, p: Progress)
    requires Sane(w) && Good(w, s) && w.contract && p.steps < max && leave.exit.ToBlock?
    requires leave.next != w.stop && leave.next in s.cache && !s.cache[leave.next].guarded && s.cache[leave.next].host == target
    ensures Resume(w, s, leave, max, p) == Entered(w, s, target, leave.c, leave.next, max, p)
    ensures target in s.code
  {
    hide Entered, PlainRun;
    TransferIsDispatch(w, s, leave.c, leave.next, max, false, p);
  }

  lemma SiteClaimed(w: World, s: Store, host: nat, leave: Leave)
    requires Good(w, s) && host in s.code
    ensures var site := SiteOf(s.code[host], leave); site.Slotted? ==> site.slot < s.claimed && leave.exit.ToBlock?
  {
    if leave.exit.ToBlock? && leave.exit.site < |s.code[host].sites| { assert SiteSlotted(s.code[host], leave.exit.site, s.claimed); }
  }

  lemma MadeGood(w: World, s: Store, eip: Word, host: nat, len: nat, probes: seq<bool>, run: Context -> Leave)
    requires Sane(w) && Good(w, s) && Forgettable(w, s) && w.make(s.tick, eip) == Makes(host, len, probes, run)
    requires host !in s.code && s.claimed + SLOTS_PER_BLOCK <= w.capacity
    ensures var s' := Recorded(w, s.(tick := s.tick + 1), eip, host, len, probes, run);
      Good(w, s') && Forgettable(w, s')
  {
    RecordGood(w, s, eip, host, len, probes, run);
    var s1 := Recorded(w, s, eip, host, len, probes, run);
    assert Forgettable(w, s1);
    AskedGood(w, s1, s.tick + 1);
  }

  lemma {:induction false} RoomMisses(w: World, s: Store, eip: Word)
    requires eip !in s.cache
    ensures eip !in MakeRoom(w, s).cache
  {
    LoopMisses(w, if s.claimed + SLOTS_PER_BLOCK > w.capacity then Flush(s) else s, eip);
  }

  lemma {:induction false} LoopMisses(w: World, s: Store, eip: Word)
    requires eip !in s.cache
    ensures eip !in RoomLoop(w, s).cache
    decreases |s.code|
  {
    var s' := ForgetAll(s, w.victims(s.tick)).(tick := s.tick + 1);
    ForgetMisses(s, w.victims(s.tick), eip);
    ForgetShrinks(s, w.victims(s.tick));
    SmallerMap(s'.code, s.code);
    if !w.room(s.tick) && s'.code.Keys != s.code.Keys && w.frees(s.tick) { LoopMisses(w, s', eip); }
  }

  lemma {:induction false} ForgetMisses(s: Store, hosts: seq<nat>, eip: Word)
    requires eip !in s.cache
    ensures eip !in ForgetAll(s, hosts).cache
  {
    hide Hit;
    if hosts != [] { ForgetMisses(s, hosts[..|hosts| - 1], eip); }
  }

  lemma VictimsForgettable(w: World, s: Store)
    requires Forgettable(w, s)
    ensures w.victims(s.tick) == [] || (ShortOfTop(s) && NeverAtTop(w))
  {
  }

  lemma EvictedFacts(s: Store, hosts: seq<nat>)
    ensures var s' := ForgetAll(s, hosts);
      s'.claimed == s.claimed && s'.tick == s.tick && (s'.code.Keys != s.code.Keys ==> |s'.code| < |s.code|)
  {
    EvictKeepsSlots(s, hosts);
    ForgetShrinks(s, hosts);
    SmallerMap(ForgetAll(s, hosts).code, s.code);
  }

  lemma {:induction false} EvictKeepsSlots(s: Store, hosts: seq<nat>)
    ensures ForgetAll(s, hosts).claimed == s.claimed && ForgetAll(s, hosts).tick == s.tick
  {
    if hosts != [] { EvictKeepsSlots(s, hosts[..|hosts| - 1]); }
  }
}
