/**
 The reference: a run loop to which every exit of every block returns, asking
 the consumer's intercept before each block. Caches, storage and guest code
 are values; what the outside answers is arbitrary.
 */
module Dispatch {
  import opened Words

  /** The guest CPU but for EIP: translated code keeps it in memory, and never reads EIP. */
  type Context(==,!new)

  datatype Status = Budget | Intercept | OutOfCode | Unsupported | FetchFault | DecodeFailed | TranslateFailed
                  | MemoryFault | DivideError | Interrupt | ProtectionFault | BoundRange

  /** What an embedder does to the translations while a block runs: report a guest range rewritten, or drop everything. */
  datatype Rewrite = Untouched | Rewritten(lo: Word, hi: Word) | Everything

  /** How a block left: for the next block by one of its exit sites, or out of the run. */
  datatype Exit = ToBlock(site: nat) | Unwind(status: Status)

  datatype Leave = Leave(c: Context, next: Word, exit: Exit, rewrite: Rewrite)

  /** An exit site with the inline-cache slot it claimed, or none left to claim. */
  datatype Site = Slotted(slot: nat, probe: bool) | Unslotted

  /** One translation: the guest bytes it covers, its exit sites, and what running it does. */
  datatype Body = Body(guest: Word, len: nat, sites: seq<Site>, run: Context -> Leave)

  /** A block-cache entry. A guarded one is entered only after asking the consumer. */
  datatype Entry = Entry(host: nat, guarded: bool)

  /** What a translation attempt gives: a failure, with the slots it had claimed, or code at an address with its exits' probe marks. */
  datatype Made = Fails(status: Failure, claims: nat) | Makes(host: nat, len: nat, probes: seq<bool>, run: Context -> Leave)

  datatype Failure = NoSpace | Refused(status: Status)

  datatype Handled = Declined | Continue(c: Context, next: Word)

  const SLOTS_PER_BLOCK := 2

  /**
   The outside, fixed for a run. What depends on history -- room, victims,
   translations, a full table -- is indexed by how often the storage was asked.
   */
  datatype World = World(
    contract: bool,
    capacity: nat,
    boundary: Word -> bool,
    stop: Word,
    intercept: (Context, Word) -> bool,
    dispatch: (Context, Word) -> Handled,
    room: nat -> bool,
    victims: nat -> seq<nat>,
    frees: nat -> bool,
    frontIndex: Word -> nat,
    make: (nat, Word) -> Made,
    full: nat -> bool)

  /** The engine's record of what it has translated. */
  datatype Store = Store(cache: map<Word, Entry>, code: map<nat, Body>, claimed: nat, tick: nat, flushes: nat)

  // ---- dropping translations ----

  predicate Overlaps(guest: Word, len: nat, lo: Word, hi: Word) {
    lo < hi && guest < hi && lo < guest + len
  }

  predicate Among(x: int, lo: int, hi: int) {
    lo <= x < hi
  }

  /** Some guest byte lies in both: the block's `len` bytes from `guest` on, and [lo, hi). */
  ghost predicate Covers(guest: int, len: nat, lo: int, hi: int) {
    exists x :: Among(x, guest, guest + len) && Among(x, lo, hi)
  }

  /** A block of at least one byte is dropped exactly when it covers a byte of the range. */
  lemma OverlapsExactly(guest: Word, len: nat, lo: Word, hi: Word)
    requires len > 0
    ensures Overlaps(guest, len, lo, hi) <==> Covers(guest, len, lo, hi)
  {
    if Overlaps(guest, len, lo, hi) {
      var x := if guest < lo then lo else guest;
      assert Among(x, guest, guest + len) && Among(x, lo, hi);
    }
  }

  /** Whether a cached address is dropped when [lo, hi) is invalidated. */
  predicate Hit(s: Store, a: Word, lo: Word, hi: Word)
    requires a in s.cache
  {
    s.cache[a].host in s.code && Overlaps(a, s.code[s.cache[a].host].len, lo, hi)
  }

  /** The entries of a range. */
  function DropEntries(s: Store, lo: Word, hi: Word): Store {
    s.(cache := map a | a in s.cache && !Hit(s, a, lo, hi) :: s.cache[a])
  }

  /** The entries of a range and the translations they led to, whose addresses the storage may hand out again. */
  function Drop(s: Store, lo: Word, hi: Word): Store {
    DropEntries(s, lo, hi).(code := map h | h in s.code && !Overlaps(s.code[h].guest, s.code[h].len, lo, hi) :: s.code[h])
  }

  function Flush(s: Store): Store {
    s.(cache := map[], code := map[], claimed := 0, flushes := s.flushes + 1)
  }

  function AfterRewrite(s: Store, r: Rewrite): Store {
    match r
    case Untouched => s
    case Rewritten(lo, hi) => Drop(s, lo, hi)
    case Everything => Flush(s)
  }

  /** The storage evicts one block: the engine is told its guest range, unless the range's end does not fit 32 bits. */
  function Forget(s: Store, host: nat): Store {
    if host in s.code then
      var b := s.code[host];
      var s' := if b.guest + b.len < 0x1_0000_0000 then DropEntries(s, b.guest, b.guest + b.len) else s;
      s'.(code := s.code - {host})
    else s
  }

  function ForgetAll(s: Store, hosts: seq<nat>): Store {
    if hosts == [] then s else Forget(ForgetAll(s, hosts[..|hosts| - 1]), hosts[|hosts| - 1])
  }

  lemma {:induction false} ForgetShrinks(s: Store, hosts: seq<nat>)
    ensures ForgetAll(s, hosts).code.Keys <= s.code.Keys
  {
    if hosts != [] {
      ForgetShrinks(s, hosts[..|hosts| - 1]);
    }
  }

  lemma SmallerMap(m: map<nat, Body>, n: map<nat, Body>)
    requires m.Keys <= n.Keys
    ensures |m| <= |n| && (m.Keys != n.Keys ==> |m| < |n|)
  {
    SubsetSize(m.Keys, n.Keys);
    assert |m.Keys| == |m| && |n.Keys| == |n|;
  }

  lemma {:induction false} SubsetSize(x: set<nat>, y: set<nat>)
    requires x <= y
    ensures |x| <= |y| && (x != y ==> |x| < |y|)
    decreases y
  {
    if y != {} {
      var e :| e in y;
      SubsetSize(x - {e}, y - {e});
      if e !in x { assert x - {e} == x; }
      if e in x && x - {e} == y - {e} { assert x == x - {e} + {e} && y == y - {e} + {e}; }
    }
  }

  // ---- making room and translating ----

  /** Evict while that frees something, else flush; a flushed storage has room. */
  function RoomLoop(w: World, s: Store): Store
    decreases |s.code|
  {
    if w.room(s.tick) then s
    else
      var s' := ForgetAll(s, w.victims(s.tick)).(tick := s.tick + 1);
      ForgetShrinks(s, w.victims(s.tick));
      SmallerMap(s'.code, s.code);
      if s'.code.Keys != s.code.Keys && w.frees(s.tick) then RoomLoop(w, s') else Flush(s')
  }

  /** Slots return only with a flush. */
  function MakeRoom(w: World, s: Store): Store {
    RoomLoop(w, if s.claimed + SLOTS_PER_BLOCK > w.capacity then Flush(s) else s)
  }

  /** The exit sites in order, each with the next free slot. */
  function Sites(probes: seq<bool>, claimed: nat, capacity: nat): seq<Site> {
    seq(|probes|, i requires 0 <= i < |probes| => if claimed + i < capacity then Slotted(claimed + i, probes[i]) else Unslotted)
  }

  function ClaimedAfter(probes: seq<bool>, claimed: nat, capacity: nat): nat {
    if claimed + |probes| <= capacity then claimed + |probes| else if claimed <= capacity then capacity else claimed
  }

  /** A translation recorded under its address, guarded where the consumer may take it over. */
  function Recorded(w: World, s: Store, eip: Word, host: nat, len: nat, probes: seq<bool>, run: Context -> Leave): Store {
    s.(cache := s.cache[eip := Entry(host, w.contract && w.boundary(eip))],
       code := s.code[host := Body(eip, len, Sites(probes, s.claimed, w.capacity), run)],
       claimed := ClaimedAfter(probes, s.claimed, w.capacity))
  }

  datatype Translated = Got(s: Store, host: nat) | Retry(s: Store) | Failed(s: Store, status: Status)

  function TranslateAt(w: World, s0: Store, eip: Word): Translated {
    var s := MakeRoom(w, s0);
    var s1 := s.(tick := s.tick + 1);
    match w.make(s.tick, eip)
    case Fails(NoSpace, _) => Retry(s1)
    case Fails(Refused(status), _) => Failed(s1, status)
    case Makes(host, len, probes, run) =>
      if host in s.code then Retry(s1) // an address in use is never handed out
      else if w.full(s.tick) then Retry(Flush(s1))
      else Got(Recorded(w, s1, eip, host, len, probes, run), host)
  }

  // ---- the run ----

  /** What a run did: the blocks entered in order, interceptions handled in place, and where it stopped. */
  datatype Outcome = Outcome(s: Store, c: Context, eip: Word, status: Status, steps: nat, entered: seq<Word>, handled: nat)

  datatype Progress = Progress(steps: nat, entered: seq<Word>, handled: nat)

  function Stopped(s: Store, c: Context, eip: Word, status: Status, p: Progress): Outcome {
    Outcome(s, c, eip, status, p.steps, p.entered, p.handled)
  }

  /** Where the run loop stands: the store, the guest, its EIP, and whether translating just failed. */
  function PlainRun(w: World, s: Store, c: Context, eip: Word, max: nat, retried: bool, p: Progress): Outcome
    decreases max - p.steps, if retried then 1 else 2
  {
    if p.steps >= max then Stopped(s, c, eip, Budget, p)
    else if w.intercept(c, eip) then
      match w.dispatch(c, eip)
      case Declined => Stopped(s, c, eip, Intercept, p)
      case Continue(c', next) => PlainRun(w, s, c', next, max, retried, p.(steps := p.steps + 1, handled := p.handled + 1))
    else if eip in s.cache then Entered(w, s, s.cache[eip].host, c, eip, max, p)
    else match TranslateAt(w, s, eip)
      case Got(s', host) => Entered(w, s', host, c, eip, max, p)
      case Retry(s') =>
        if retried then Stopped(s', c, eip, OutOfCode, p) else PlainRun(w, s', c, eip, max, true, p)
      case Failed(s', status) => Stopped(s', c, eip, status, p)
  }

  /** The block at `host` run for the guest at `eip`. */
  function Entered(w: World, s: Store, host: nat, c: Context, eip: Word, max: nat, p: Progress): Outcome
    decreases max - p.steps, 0
  {
    if host !in s.code || p.steps >= max then Stopped(s, c, eip, TranslateFailed, p)
    else Left(w, s, s.code[host].run(c), max, p.(steps := p.steps + 1, entered := p.entered + [eip]))
  }

  /** A block left: on to the dispatcher, or out of the run. */
  function Left(w: World, s0: Store, leave: Leave, max: nat, p: Progress): Outcome
    decreases max - p.steps, 3
  {
    var s := AfterRewrite(s0, leave.rewrite);
    match leave.exit
    case ToBlock(_) => PlainRun(w, s, leave.c, leave.next, max, false, p)
    case Unwind(status) => Stopped(s, leave.c, leave.next, status, p)
  }

  /** A block's exits take the slots after those claimed, each its own, as far as they go. */
  lemma SitesAreFresh(w: World, s: Store, eip: Word, host: nat, len: nat, probes: seq<bool>, run: Context -> Leave)
    requires s.claimed <= w.capacity
    ensures var t := Recorded(w, s, eip, host, len, probes, run);
      && t.claimed <= w.capacity && |t.code[host].sites| == |probes|
      && (t.claimed == s.claimed + |probes| || t.claimed == w.capacity <= s.claimed + |probes|)
      && forall i | 0 <= i < |probes| ::
        t.code[host].sites[i] == if i < t.claimed - s.claimed then Slotted(s.claimed + i, probes[i]) else Unslotted
  {
  }

  /** A translation is entered under its own address, guarded exactly where the contract lets the consumer take over. */
  lemma RecordedUnderItsAddress(w: World, s: Store, eip: Word, host: nat, len: nat, probes: seq<bool>, run: Context -> Leave)
    ensures var t := Recorded(w, s, eip, host, len, probes, run);
      && t.cache[eip].host == host && (t.cache[eip].guarded <==> w.contract && w.boundary(eip))
      && t.code[host].guest == eip && t.code[host].len == len && t.code[host].run == run
      && t.tick == s.tick && t.flushes == s.flushes
      && (forall a :: a in t.cache <==> a == eip || a in s.cache) && (forall h :: h in t.code <==> h == host || h in s.code)
      && (forall a :: a in s.cache && a != eip ==> t.cache[a] == s.cache[a]) && (forall h :: h in s.code && h != host ==> t.code[h] == s.code[h])
  {
  }

  predicate Emptied(s: Store) {
    s.code == map[] && s.cache == map[] && s.claimed == 0
  }

  /**
   Where there is room and two slots nothing is evicted. Where slots run out, or
   an eviction frees nothing, everything goes; after one that frees, room is
   looked for again.
   */
  lemma RoomAsNeeded(w: World, s: Store)
    ensures s.claimed + 2 <= w.capacity && w.room(s.tick) ==> MakeRoom(w, s) == s
    ensures s.claimed + 2 > w.capacity ==> Emptied(MakeRoom(w, s)) && MakeRoom(w, s).flushes > s.flushes
    ensures var evicted := ForgetAll(s, w.victims(s.tick)).(tick := s.tick + 1);
      s.claimed + 2 <= w.capacity && !w.room(s.tick) ==>
        if w.frees(s.tick) && evicted.code.Keys < s.code.Keys then MakeRoom(w, s) == RoomLoop(w, evicted)
        else Emptied(MakeRoom(w, s)) && MakeRoom(w, s).flushes == s.flushes + 1
  {
    ForgetShrinks(s, w.victims(s.tick));
    if s.claimed + 2 > w.capacity { FlushedIsEmpty(w, Flush(s)); }
    ForgetsOnly(s, w.victims(s.tick));
  }

  lemma FlushedIsEmpty(w: World, s: Store)
    requires Emptied(s)
    ensures Emptied(RoomLoop(w, s)) && RoomLoop(w, s).flushes >= s.flushes
  {
    if !w.room(s.tick) { ForgetsNothing(s, w.victims(s.tick)); }
  }

  /** Evicting takes the code of exactly the blocks named, and keeps no entry it did not find. */
  lemma {:induction false} ForgetsOnly(s: Store, hosts: seq<nat>)
    ensures var t := ForgetAll(s, hosts);
      && t.claimed == s.claimed && t.tick == s.tick && t.flushes == s.flushes
      && (forall h :: h in t.code <==> h in s.code && h !in hosts) && (forall h :: h in t.code ==> t.code[h] == s.code[h])
      && (forall a :: a in t.cache ==> a in s.cache && t.cache[a] == s.cache[a])
  {
    hide Hit;
    if hosts != [] {
      ForgetsOnly(s, hosts[..|hosts| - 1]);
      assert hosts == hosts[..|hosts| - 1] + [hosts[|hosts| - 1]];
    }
  }

  lemma {:induction false} ForgetsNothing(s: Store, hosts: seq<nat>)
    requires s.code == map[]
    ensures ForgetAll(s, hosts) == s
  {
    if hosts != [] { ForgetsNothing(s, hosts[..|hosts| - 1]); }
  }

  /**
   Translating, once there is room, fails the run exactly when the translator
   says so, succeeds exactly with code at a free address and a table that is
   not full, and otherwise leaves what it found, or nothing when the table is full.
   */
  lemma TranslatesOrSays(w: World, s: Store, eip: Word)
    ensures var m := MakeRoom(w, s);
      var made := w.make(m.tick, eip);
      match TranslateAt(w, s, eip)
      case Failed(t, status) => made.Fails? && made.status == Refused(status) && t == m.(tick := m.tick + 1)
      case Got(t, host) =>
        && made.Makes? && made.host == host && host !in m.code && !w.full(m.tick) && t.tick == m.tick + 1
        && eip in t.cache && t.cache[eip].host == host && host in t.code && t.code[host].run == made.run && t.code[host].len == made.len
      case Retry(t) =>
        if made.Makes? && made.host !in m.code then w.full(m.tick) && Emptied(t) && t.flushes == m.flushes + 1
        else (made.Fails? ==> made.status == NoSpace) && t == m.(tick := m.tick + 1)
  {
    hide MakeRoom;
  }

  // ---- what the reference does ----

  /** The consumer is asked first: what it declines ends the run where it stands, what it handles counts a step and enters nothing. */
  lemma ConsumerIsAskedFirst(w: World, s: Store, c: Context, eip: Word, max: nat, retried: bool, p: Progress)
    requires p.steps < max && w.intercept(c, eip)
    ensures var out := PlainRun(w, s, c, eip, max, retried, p);
      match w.dispatch(c, eip)
      case Declined => out == Outcome(s, c, eip, Intercept, p.steps, p.entered, p.handled)
      case Continue(c', next) =>
        out == PlainRun(w, s, c', next, max, retried, Progress(p.steps + 1, p.entered, p.handled + 1))
  {
  }

  /** A cached block nobody intercepts is entered, and goes on from where it left, with what its run rewrote dropped. */
  lemma CachedIsEntered(w: World, s: Store, c: Context, eip: Word, max: nat, retried: bool, p: Progress)
    requires p.steps < max && !w.intercept(c, eip) && eip in s.cache && s.cache[eip].host in s.code
    ensures var out := PlainRun(w, s, c, eip, max, retried, p);
      var leave := s.code[s.cache[eip].host].run(c);
      var t := AfterRewrite(s, leave.rewrite);
      match leave.exit
      case ToBlock(_) => out == PlainRun(w, t, leave.c, leave.next, max, false, Progress(p.steps + 1, p.entered + [eip], p.handled))
      case Unwind(status) => out == Outcome(t, leave.c, leave.next, status, p.steps + 1, p.entered + [eip], p.handled)
  {
    hide AfterRewrite;
    var host := s.cache[eip].host;
    assert PlainRun(w, s, c, eip, max, retried, p) == Entered(w, s, host, c, eip, max, p);
    assert Entered(w, s, host, c, eip, max, p)
      == Left(w, s, s.code[host].run(c), max, Progress(p.steps + 1, p.entered + [eip], p.handled));
  }

  /** A missing translation is made, tried once more when there was no place for it, and otherwise ends the run. */
  lemma MissIsTranslated(w: World, s: Store, c: Context, eip: Word, max: nat, retried: bool, p: Progress)
    requires p.steps < max && !w.intercept(c, eip) && eip !in s.cache
    ensures var out := PlainRun(w, s, c, eip, max, retried, p);
      match TranslateAt(w, s, eip)
      case Got(t, host) => out == Entered(w, t, host, c, eip, max, p)
      case Retry(t) => if retried then out == Outcome(t, c, eip, OutOfCode, p.steps, p.entered, p.handled)
                       else out == PlainRun(w, t, c, eip, max, true, p)
      case Failed(t, status) => out == Outcome(t, c, eip, status, p.steps, p.entered, p.handled)
  {
    hide TranslateAt;
  }

  // ---- accounting ----

  /** Steps are blocks entered plus interceptions handled, and never exceed what the run was given. */
  lemma {:induction false} PlainAccounting(w: World, s: Store, c: Context, eip: Word, max: nat, retried: bool, p: Progress)
    requires p.steps == |p.entered| + p.handled && p.steps <= max
    ensures var out := PlainRun(w, s, c, eip, max, retried, p);
      out.steps == |out.entered| + out.handled && out.steps <= max && p.entered <= out.entered
    decreases max - p.steps, if retried then 1 else 2
  {
    hide TranslateAt;
    if p.steps < max {
      if w.intercept(c, eip) {
        match w.dispatch(c, eip) {
          case Declined =>
          case Continue(c', next) => PlainAccounting(w, s, c', next, max, retried, p.(steps := p.steps + 1, handled := p.handled + 1));
        }
      } else if eip in s.cache {
        EnteredAccounting(w, s, s.cache[eip].host, c, eip, max, p);
      } else {
        match TranslateAt(w, s, eip) {
          case Got(s', host) => EnteredAccounting(w, s', host, c, eip, max, p);
          case Retry(s') => if !retried { PlainAccounting(w, s', c, eip, max, true, p); }
          case Failed(_, _) =>
        }
      }
    }
  }

  lemma {:induction false} EnteredAccounting(w: World, s: Store, host: nat, c: Context, eip: Word, max: nat, p: Progress)
    requires p.steps == |p.entered| + p.handled && p.steps < max
    ensures var out := Entered(w, s, host, c, eip, max, p);
      out.steps == |out.entered| + out.handled && out.steps <= max && p.entered <= out.entered
    decreases max - p.steps, 0
  {
    if host in s.code {
      var leave := s.code[host].run(c);
      if leave.exit.ToBlock? {
        PlainAccounting(w, AfterRewrite(s, leave.rewrite), leave.c, leave.next, max, false,
                        p.(steps := p.steps + 1, entered := p.entered + [eip]));
      }
    }
  }
}
