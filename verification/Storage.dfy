/**
 The WebAssembly storage: block records and module claims kept in step with
 the arena's live modules and the table entries behind every block.
 */
module Storage {
  import opened WasmHost
  import opened Arena
  import opened Book
  import Compact
  import Words
  import Dispatch

  const BATCH := 32

  datatype Room = HasSpace | OutOfBytes | OutOfSlots | AtEngineLimit

  /** Translating at an address: it fails, or gives a module of one body, of some length. */
  datatype Attempt = NotLowered | Lowered(guest: nat, len: nat, bytes: nat, exits: nat, leaf: nat)

  datatype Outcome = Recorded(slot: nat) | OutOfSpace | Failed

  /** A guest range the engine is told to forget. */
  datatype Range = Range(lo: nat, hi: nat)

  /** The range, ending below 2^32, of some block of a module. */
  ghost predicate RangeOfBlock(s: seq<Stored>, token: nat, range: Range) {
    range.hi <= 0xFFFF_FFFF && exists i | 0 <= i < |s| :: Names(s[i], token) && range == Range(s[i].guest, s[i].guest + s[i].len)
  }

  lemma IsRange(s: seq<Stored>, i: nat, token: nat)
    requires i < |s| && Names(s[i], token) && s[i].guest + s[i].len <= 0xFFFF_FFFF
    ensures RangeOfBlock(s, token, Range(s[i].guest, s[i].guest + s[i].len))
  {
  }

  function BlockOf(x: Stored): Compact.Block {
    Compact.Block(Compact.Shape(x.guest, x.len, x.exits, x.leaf), x.token, x.entry)
  }

  // ---- the books and the arena ----

  /** A live block's entry runs a body of the module it names. */
  predicate Entered(x: Stored, s: State) {
    x.token < |s.slots| && x.entry in s.host.table && s.host.table[x.entry].id == s.slots[x.token].id
  }

  /** A module is live in the arena exactly while its count is positive, and every live block is entered through it. */
  ghost predicate Tied(b: Book, s: State) {
    && |s.slots| == |b.modules| == |b.blocks|
    && (forall t | 0 <= t < |b.modules| :: IsLive(s, t) <==> b.modules[t].blocks > 0)
    && (forall i | 0 <= i < |b.blocks| && b.blocks[i].live :: Entered(b.blocks[i], s))
    && (forall k | 0 <= k < |b.pending| :: b.pending[k] < |b.blocks| && Compact.Sole(s, BlockOf(b.blocks[b.pending[k]])))
  }

  /** One more live slot; everything that was live or in the table as it was. */
  ghost predicate Extends(s: State, g: State, t: nat) {
    && |g.slots| == |s.slots| && t < |s.slots| && !IsLive(s, t) && IsLive(g, t)
    && (forall u | 0 <= u < |s.slots| && u != t :: g.slots[u] == s.slots[u])
    && (forall e | e in s.host.table :: e in g.host.table && g.host.table[e] == s.host.table[e])
    && (forall id | id in s.host.modules :: id in g.host.modules && g.host.modules[id] == s.host.modules[id])
  }

  /** The arena once a module of one body is published and its entry taken. */
  function Opened(s: State, vacant: nat): State
    requires 0 < s.freeHead <= |s.slots|
  {
    var s1 := Published(s, 1, Taken);
    s1.(host := Resolve(s1.host, s.host.next, 0, vacant).0)
  }

  function EntryOf(s: State, vacant: nat): nat
    requires 0 < s.freeHead <= |s.slots|
  {
    Resolve(Published(s, 1, Taken).host, s.host.next, 0, vacant).1
  }

  lemma PublishedExtends(s: State, free: seq<nat>)
    requires Sound(s, free) && 0 < s.freeHead <= |s.slots|
    ensures var g := Published(s, 1, Taken);
      && Extends(s, g, s.freeHead - 1) && g.slots[s.freeHead - 1].id == s.host.next
      && s.host.next in g.host.modules && g.host.modules[s.host.next] == Instance(1, map[]) && s.host.next !in s.host.modules
  {
    PublishSound(s, free, 1, Taken);
    hide FreeList, CeilingHolds, Threads;
    Compact.NextIsNew(s.host);
  }

  /** A fresh module of one body gets its entry exactly at a free place of the table. */
  lemma OpensExactly(s: State, free: seq<nat>, vacant: nat)
    requires Sound(s, free) && 0 < s.freeHead <= |s.slots|
    ensures EntryOf(s, vacant) != 0 <==> vacant != 0 && vacant !in s.host.table
    ensures EntryOf(s, vacant) != 0 ==> var h := Opened(s, vacant).host;
      EntryOf(s, vacant) == vacant && s.host.next in h.modules && h.modules[s.host.next] == Instance(1, map[0 := vacant])
  {
    PublishedExtends(s, free);
  }

  lemma OpenedExtends(s: State, free: seq<nat>, vacant: nat)
    requires Sound(s, free) && 0 < s.freeHead <= |s.slots| && EntryOf(s, vacant) != 0
    ensures Extends(s, Opened(s, vacant), s.freeHead - 1)
    ensures forall x: Stored :: x.token == s.freeHead - 1 && x.entry == EntryOf(s, vacant) ==>
      Entered(x, Opened(s, vacant)) && Compact.Sole(Opened(s, vacant), BlockOf(x))
  {
    PublishedExtends(s, free);
    hide Sound, Published;
  }

  /** A live block's module is live, and counted. */
  lemma LiveNamesLive(b: Book, s: State, i: nat)
    requires Tied(b, s) && Balanced(b) && i < |b.blocks| && b.blocks[i].live
    ensures b.blocks[i].token < |b.modules| && IsLive(s, b.blocks[i].token) && b.modules[b.blocks[i].token].blocks > 0
    ensures Entered(b.blocks[i], s)
  {
    CountsBlock(b.blocks, i, b.blocks[i].token);
  }

  lemma PendingSole(b: Book, s: State, k: nat)
    requires Tied(b, s) && k < |b.pending|
    ensures b.pending[k] < |b.blocks| && Compact.Sole(s, BlockOf(b.blocks[b.pending[k]]))
  {
  }

  lemma SoleKept(s: State, g: State, t: nat, x: Compact.Block)
    requires Extends(s, g, t) && Compact.Sole(s, x)
    ensures Compact.Sole(g, x)
  {
  }

  lemma EnteredKept(s: State, g: State, t: nat, x: Stored)
    requires Extends(s, g, t) && Entered(x, s) && x.token != t
    ensures Entered(x, g)
  {
  }

  /** A block published in a module of its own. */
  lemma TiedAdd(b: Book, s: State, g: State, slot: nat, x: Stored, bytes: nat, wait: bool)
    requires Tied(b, s) && Balanced(b) && slot < |b.blocks| && !b.blocks[slot].live && x.live && x.token < |b.modules| && bytes > 0
    requires Extends(s, g, x.token) && Entered(x, g) && Compact.Sole(g, BlockOf(x))
    ensures Tied(Added(b, slot, x, bytes, wait), g)
  {
    var b' := Added(b, slot, x, bytes, wait);
    forall i | 0 <= i < |b'.blocks| && b'.blocks[i].live ensures Entered(b'.blocks[i], g) {
      if i != slot {
        LiveNamesLive(b, s, i);
        EnteredKept(s, g, x.token, b.blocks[i]);
      }
    }
    forall k | 0 <= k < |b'.pending| ensures b'.pending[k] < |b'.blocks| && Compact.Sole(g, BlockOf(b'.blocks[b'.pending[k]])) {
      if k < |b.pending| {
        PendingSole(b, s, k);
        assert Waits(b, b.pending[k]);
        SoleKept(s, g, x.token, BlockOf(b.blocks[b.pending[k]]));
      }
    }
    assert forall t | 0 <= t < |b.modules| :: IsLive(s, t) <==> b.modules[t].blocks > 0;
    hide Balanced, Entered, Compact.Sole;
  }

  // ---- dropping ----

  lemma EnteredAfterRelease(s: State, t: nat, x: Stored)
    requires Hosted(s) && s.live > 0 && IsLive(s, t) && IsLive(s, x.token) && x.token != t && Entered(x, s)
    ensures Entered(x, Released(s, t))
  {
    ReleaseOk(s.host, s.slots[t].id);
    hide Ok;
  }

  lemma SoleAfterRelease(s: State, t: nat, x: Compact.Block)
    requires Hosted(s) && s.live > 0 && IsLive(s, t) && x.token != t && Compact.Sole(s, x)
    ensures Compact.Sole(Released(s, t), x)
  {
    hide Ok;
  }

  /** The last block of a module dropped, and the module released. */
  lemma TiedDropLast(b: Book, s: State, slot: nat)
    requires Tied(b, s) && Balanced(b) && Hosted(s) && s.live > 0 && slot < |b.blocks| && b.blocks[slot].live && b.live > 0
    requires var t := b.blocks[slot].token; t < |b.modules| && b.modules[t].blocks == 1 && b.used >= b.modules[t].bytes
    ensures Tied(Dropped(b, slot), Released(s, b.blocks[slot].token))
  {
    var t := b.blocks[slot].token;
    var b', g := Dropped(b, slot), Released(s, t);
    LiveNamesLive(b, s, slot);
    ForgetsPending(b.pending, slot);
    forall i | 0 <= i < |b'.blocks| && b'.blocks[i].live ensures Entered(b'.blocks[i], g) {
      LiveNamesLive(b, s, i);
      OnlyOne(b, slot, i);
      EnteredAfterRelease(s, t, b.blocks[i]);
    }
    forall k | 0 <= k < |b'.pending| ensures b'.pending[k] < |b'.blocks| && Compact.Sole(g, BlockOf(b'.blocks[b'.pending[k]])) {
      var p := b'.pending[k];
      assert p in b'.pending && p in b.pending && p != slot;
      var l :| 0 <= l < |b.pending| && b.pending[l] == p;
      PendingSole(b, s, l);
      assert Waits(b, b.pending[l]);
      OnlyOne(b, slot, p);
      SoleAfterRelease(s, t, BlockOf(b.blocks[p]));
    }
    hide Balanced, Entered, Compact.Sole, Hosted;
  }

  lemma OnlyOne(b: Book, slot: nat, i: nat)
    requires Balanced(b) && slot < |b.blocks| && i < |b.blocks| && i != slot && b.blocks[slot].live && b.blocks[i].live
    requires b.blocks[slot].token < |b.modules| && b.modules[b.blocks[slot].token].blocks == 1
    ensures b.blocks[i].token != b.blocks[slot].token
  {
    if b.blocks[i].token == b.blocks[slot].token { CountsBoth(b.blocks, i, slot, b.blocks[slot].token); }
  }

  /** One of several blocks of a module dropped. */
  lemma TiedDropOne(b: Book, s: State, slot: nat)
    requires Tied(b, s) && Balanced(b) && slot < |b.blocks| && b.blocks[slot].live && b.live > 0
    requires var t := b.blocks[slot].token; t < |b.modules| && b.modules[t].blocks > 1 && b.used >= b.modules[t].bytes
    ensures Tied(Dropped(b, slot), s)
  {
    var b' := Dropped(b, slot);
    ForgetsPending(b.pending, slot);
    forall k | 0 <= k < |b'.pending| ensures b'.pending[k] < |b'.blocks| && Compact.Sole(s, BlockOf(b'.blocks[b'.pending[k]])) {
      var p := b'.pending[k];
      assert p in b'.pending && p in b.pending && p != slot;
      var l :| 0 <= l < |b.pending| && b.pending[l] == p;
      PendingSole(b, s, l);
    }
    forall i | 0 <= i < |b'.blocks| && b'.blocks[i].live ensures Entered(b'.blocks[i], s) {
      LiveNamesLive(b, s, i);
    }
    hide Balanced, Entered, Compact.Sole;
  }

  // ---- sharing ----

  function BatchOf(b: Book): seq<Compact.Block>
    requires Pending(b)
  {
    seq(|b.pending|, k requires 0 <= k < |b.pending| => assert Waits(b, b.pending[k]); BlockOf(b.blocks[b.pending[k]]))
  }

  lemma BatchShapes(b: Book)
    requires Pending(b)
    ensures |BatchOf(b)| == |b.pending|
    ensures forall k | 0 <= k < |b.pending| :: b.pending[k] < |b.blocks| && BatchOf(b)[k] == BlockOf(b.blocks[b.pending[k]])
  {
    forall k | 0 <= k < |b.pending| ensures b.pending[k] < |b.blocks| { assert Waits(b, b.pending[k]); }
  }

  /** The blocks lowered again, in order, are those that wait. */
  ghost predicate SameShapes(b: Book, shapes: seq<Compact.Shape>) {
    && |shapes| == |b.pending|
    && forall k | 0 <= k < |b.pending| :: b.pending[k] < |b.blocks| && shapes[k] == BlockOf(b.blocks[b.pending[k]]).shape
  }

  lemma ShapesOfBatch(b: Book, shapes: seq<Compact.Shape>)
    requires Pending(b) && |shapes| == |b.pending|
    ensures |BatchOf(b)| == |b.pending|
    ensures SameShapes(b, shapes) <==> forall k | 0 <= k < |BatchOf(b)| :: shapes[k] == BatchOf(b)[k].shape
  {
    hide Pending, BatchOf, BlockOf;
    BatchShapes(b);
  }

  /** The pending blocks are a batch compaction accepts. */
  lemma PendingIsBatch(b: Book, s: State)
    requires Tied(b, s) && Balanced(b)
    ensures Compact.Batch(s, BatchOf(b))
  {
    var batch := BatchOf(b);
    forall k | 0 <= k < |batch| ensures Compact.Sole(s, batch[k]) {
      PendingSole(b, s, k);
    }
    forall k, l | 0 <= k < l < |batch| ensures batch[k].token != batch[l].token {
      assert Waits(b, b.pending[k]) && Waits(b, b.pending[l]) && b.pending[k] != b.pending[l];
      OnlyOne(b, b.pending[k], b.pending[l]);
    }
  }

  /** An entry of the batch belongs to no other live block. */
  lemma EntryApart(b: Book, s: State, i: nat, k: nat)
    requires Tied(b, s) && Balanced(b) && Hosted(s) && i < |b.blocks| && b.blocks[i].live && i !in b.pending && k < |b.pending|
    requires b.pending[k] < |b.blocks|
    ensures b.blocks[b.pending[k]].entry != b.blocks[i].entry && b.blocks[b.pending[k]].token != b.blocks[i].token
  {
    var p := b.pending[k];
    assert Waits(b, b.pending[k]);
    assert p in b.pending;
    OnlyOne(b, p, i);
    LiveNamesLive(b, s, i);
    LiveNamesLive(b, s, p);
    hide Balanced, Ok;
    Compact.HostedDistinct(s, b.blocks[p].token, b.blocks[i].token);
  }

  lemma TiedShare(b: Book, s: State, b': Book, g: State, to: nat)
    requires Tied(b, s) && Balanced(b) && Hosted(s) && IsShared(b, b', to) && to < |b.modules|
    requires Compact.SharedInto(s, g, BatchOf(b), to)
    ensures Tied(b', g)
  {
    var batch := BatchOf(b);
    forall t | 0 <= t < |b'.modules| ensures IsLive(g, t) <==> b'.modules[t].blocks > 0 {
      SharedLive(b, s, g, to, t);
    }
    forall i | 0 <= i < |b'.blocks| && b'.blocks[i].live ensures Entered(b'.blocks[i], g) {
      SharedEntered(b, s, g, to, i);
    }
    hide Balanced, Keeps, Entered, Compact.Sole, Compact.SharedInto, Hosted;
  }

  lemma SharedLive(b: Book, s: State, g: State, to: nat, t: nat)
    requires Tied(b, s) && Balanced(b) && to < |b.modules| && t < |b.modules| && Compact.SharedInto(s, g, BatchOf(b), to)
    ensures IsLive(g, t) <==> Keeps(b, to, t)
    ensures |g.slots| == |s.slots|
  {
    var batch := BatchOf(b);
    if k :| 0 <= k < |batch| && batch[k].token == t {
      assert Waits(b, b.pending[k]);
      PendingSole(b, s, k);
      assert t != to;
    } else {
      forall k | 0 <= k < |b.pending| && b.pending[k] < |b.blocks| ensures b.blocks[b.pending[k]].token != t {
        assert batch[k].token != t;
      }
    }
  }

  lemma SharedEntered(b: Book, s: State, g: State, to: nat, i: nat)
    requires Tied(b, s) && Balanced(b) && Hosted(s) && to < |b.modules| && i < |b.blocks| && b.blocks[i].live
    requires Compact.SharedInto(s, g, BatchOf(b), to)
    ensures Entered(if i in b.pending then b.blocks[i].(token := to) else b.blocks[i], g)
  {
    var batch := BatchOf(b);
    LiveNamesLive(b, s, i);
    if i in b.pending {
      var k :| 0 <= k < |b.pending| && b.pending[k] == i;
      assert Runs(g.host, batch[k].entry, Compact.Id(g, to), k);
    } else {
      forall k | 0 <= k < |batch| ensures batch[k].token != b.blocks[i].token && batch[k].entry != b.blocks[i].entry {
        assert Waits(b, b.pending[k]);
        EntryApart(b, s, i, k);
      }
      assert b.blocks[i].token != to;
    }
  }

  // ---- the storage ----

  lemma ModSmall(t: nat, n: nat)
    requires t < n
    ensures t % n == t
  {
  }

  lemma ModOnce(t: nat, n: nat)
    requires t < n
    ensures (t + n) % n == t
  {
  }

  /** The slot k places round from a start. */
  function At(start: nat, k: nat, n: nat): nat
    requires n > 0
  {
    (start + k) % n
  }

  lemma AtStart(start: nat, n: nat)
    requires start < n
    ensures At(start, 0, n) == start
  {
    ModSmall(start, n);
  }

  lemma AtIs(start: nat, k: nat, n: nat)
    requires n > 0
    ensures At(start, k, n) == (start + k) % n
  {
  }

  lemma AtReaches(start: nat, t: nat, n: nat) returns (k: nat)
    requires start < n && t < n
    ensures k < n && At(start, k, n) == t
  {
    k := if t >= start then t - start else t + n - start;
    if t >= start { ModSmall(t, n); } else { ModOnce(t, n); }
  }

  lemma AtNext(start: nat, k: nat, n: nat)
    requires n > 0
    ensures (At(start, k, n) + 1) % n == At(start, k + 1, n) && At(start, k, n) < n && At(start, k + 1, n) < n
  {
    NextAround(start, k, n);
  }

  /** A record after [lo, hi) is invalidated. */
  function Without(x: Stored, lo: nat, hi: nat): Stored {
    if x.live && lo < hi && x.guest < hi && x.guest + x.len > lo then EMPTY else x
  }

  /** The records with a module's blocks gone from those before a place. */
  function Emptied(s: seq<Stored>, token: nat, i: nat): seq<Stored> {
    seq(|s|, k requires 0 <= k < |s| => if k < i && Names(s[k], token) then EMPTY else s[k])
  }

  lemma EmptiedNext(s: seq<Stored>, token: nat, i: nat)
    requires i < |s|
    ensures Emptied(s, token, i)[i] == s[i]
    ensures Emptied(s, token, i + 1) == if Names(s[i], token) then Emptied(s, token, i)[i := EMPTY] else Emptied(s, token, i)
  {
  }

  /** One module's blocks, at least one, gone from the records and nothing else. */
  ghost predicate OneEmptied(s: seq<Stored>, t: seq<Stored>) {
    exists victim: nat, i :: 0 <= i < |s| && Names(s[i], victim) && t == Emptied(s, victim, |s|)
  }

  ghost predicate Evictions(trace: seq<seq<Stored>>) {
    trace != [] && forall k | 0 < k < |trace| :: OneEmptied(trace[k - 1], trace[k])
  }

  /** Nothing in use is lost. */
  ghost predicate Survives(s: seq<Stored>, t: seq<Stored>) {
    |s| == |t| && forall i | 0 <= i < |s| :: t[i] == s[i] || (!s[i].live && t[i] == EMPTY)
  }

  lemma SurvivesItself(s: seq<Stored>)
    ensures Survives(s, s)
  {
  }

  lemma EvictedOne(b: Book, victim: nat, t: seq<Stored>)
    requires Balanced(b) && victim < |b.modules| && b.modules[victim].blocks > 0 && |t| == |b.blocks|
    requires forall i | 0 <= i < |t| :: t[i] == if Names(b.blocks[i], victim) then EMPTY else b.blocks[i]
    ensures OneEmptied(b.blocks, t)
  {
    hide Balanced;
    if forall i | 0 <= i < |b.blocks| :: !Names(b.blocks[i], victim) { Unnamed(b, victim); }
    assert t == Emptied(b.blocks, victim, |b.blocks|);
  }

  lemma NoBlocksLeft(b: Book, n: nat)
    requires Balanced(b) && |b.blocks| == n && forall t | 0 <= t < |b.modules| :: b.modules[t].blocks == 0
    ensures Survives(b.blocks, Cleared(n).blocks)
  {
    forall i | 0 <= i < n ensures !b.blocks[i].live {
      if b.blocks[i].live { NoneNamed(b, b.blocks[i].token); }
    }
  }

  lemma EmptiedNone(s: seq<Stored>, token: nat)
    ensures Emptied(s, token, 0) == s && Tells(s, token, 0, [])
  {
  }

  lemma EmptiedGone(s: seq<Stored>, token: nat)
    ensures forall k | 0 <= k < |s| :: !Names(Emptied(s, token, |s|)[k], token)
  {
  }

  /** Told of every block of a module before a place that ends below 2^32, and of nothing else. */
  ghost predicate Tells(s: seq<Stored>, token: nat, i: nat, told: seq<Range>) {
    && (forall k | 0 <= k < i && k < |s| && Names(s[k], token) && s[k].guest + s[k].len <= 0xFFFF_FFFF ::
          Range(s[k].guest, s[k].guest + s[k].len) in told)
    && (forall range | range in told :: RangeOfBlock(s, token, range))
  }

  lemma TellsSame(s: seq<Stored>, token: nat, i: nat, told: seq<Range>)
    requires i < |s| && Tells(s, token, i, told) && (!Names(s[i], token) || s[i].guest + s[i].len > 0xFFFF_FFFF)
    ensures Tells(s, token, i + 1, told)
  {
    hide RangeOfBlock;
  }

  lemma TellsNext(s: seq<Stored>, token: nat, i: nat, told: seq<Range>)
    requires i < |s| && Tells(s, token, i, told) && Names(s[i], token)
    ensures var end := s[i].guest + s[i].len;
      Tells(s, token, i + 1, if end <= 0xFFFF_FFFF then told + [Range(s[i].guest, end)] else told)
  {
    hide RangeOfBlock;
    if s[i].guest + s[i].len <= 0xFFFF_FFFF { IsRange(s, i, token); }
  }

  /** Once no record is left of the module, the places after make no difference. */
  lemma EmptiedAll(s: seq<Stored>, token: nat, i: nat, told: seq<Range>)
    requires i <= |s| && forall k | 0 <= k < |s| :: !Names(Emptied(s, token, i)[k], token)
    requires Tells(s, token, i, told)
    ensures Emptied(s, token, i) == Emptied(s, token, |s|) && Tells(s, token, |s|, told)
  {
    hide RangeOfBlock;
    forall k | i <= k < |s| ensures !Names(s[k], token) {
      assert Emptied(s, token, i)[k] == s[k];
    }
  }

  /** A live block of at least one byte goes exactly when it covers a byte of the range. */
  lemma WithoutExactly(x: Stored, lo: nat, hi: nat)
    ensures !x.live ==> Without(x, lo, hi) == x
    ensures x.live && x.len > 0 ==> Without(x, lo, hi) == if Dispatch.Covers(x.guest, x.len, lo, hi) then EMPTY else x
  {
    if x.live && x.len > 0 && lo < hi && x.guest < hi && x.guest + x.len > lo {
      var y := if x.guest < lo then lo else x.guest;
      assert Dispatch.Among(y, x.guest, x.guest + x.len) && Dispatch.Among(y, lo, hi);
    }
  }

  predicate LastOf(b: Book, slot: nat)
    requires slot < |b.blocks|
  {
    b.blocks[slot].token < |b.modules| && b.modules[b.blocks[slot].token].blocks == 1
  }

  /** Dropping one block, in the books and in the arena. */
  lemma DropPlan(b: Book, s: State, free: seq<nat>, slot: nat)
    requires Balanced(b) && Tied(b, s) && Sound(s, free) && slot < |b.blocks| && b.blocks[slot].live
    ensures var t := b.blocks[slot].token;
      && b.live > 0 && t < |b.modules| && b.modules[t].blocks > 0 && b.used >= b.modules[t].bytes
      && IsLive(s, t) && s.live > 0 && Balanced(Dropped(b, slot))
      && Tied(Dropped(b, slot), if LastOf(b, slot) then Released(s, t) else s)
  {
    hide Balanced, Tied, Released, Dropped;
    DropDefined(b, slot);
    LiveNamesLive(b, s, slot);
    LiveIsPositive(s, free, b.blocks[slot].token);
    DropBalances(b, slot);
    if LastOf(b, slot) { TiedDropLast(b, s, slot); } else { TiedDropOne(b, s, slot); }
  }

  class ModuleStorage {
    const arena: ModuleArena
    const blocks: array<Stored>
    const modules: array<Held>
    const budget: nat
    const minimum: nat
    const canAdopt: bool
    var pending: seq<nat>
    var cannotCompact: bool
    var used: nat
    var liveBlocks: nat
    var nextVictim: nat

    ghost function Books(): Book
      reads this, blocks, modules
    {
      Book(blocks[..], modules[..], pending, used, liveBlocks)
    }

    /** Nothing is left waiting in a full batch but on an engine that cannot share. */
    ghost predicate Valid()
      reads this, arena, arena.slots, blocks, modules
    {
      Kept() && (|pending| == BATCH ==> cannotCompact)
    }

    ghost predicate Kept()
      reads this, arena, arena.slots, blocks, modules
    {
      && arena.Valid() && blocks.Length > 0 && nextVictim < blocks.Length && |pending| <= BATCH
      && Balanced(Books()) && Tied(Books(), arena.Value())
    }

    constructor (capacity: nat, bytes: nat, least: nat, movable: bool)
      requires capacity > 0
      ensures Valid() && Books() == Cleared(capacity) && budget == bytes && minimum == least && blocks.Length == capacity
      ensures canAdopt == movable && !cannotCompact && arena.live == 0 && arena.ceiling.limit == 0
    {
      arena := new ModuleArena(capacity);
      blocks := new Stored[capacity](_ => EMPTY);
      modules := new Held[capacity](_ => Held(0, 0));
      budget, minimum, canAdopt := bytes, least, movable;
      pending, cannotCompact, used, liveBlocks, nextVictim := [], false, 0, 0, 0;
      new;
      ClearBalances(capacity);
      assert Books() == Cleared(capacity);
      arena.ReleaseAll();
    }

    /** Which limit leaves no room, if any does. */
    method Check() returns (r: Room)
      requires Valid()
      ensures r == HasSpace <==> (used <= budget && budget - used >= minimum && liveBlocks < blocks.Length
        && HasRoom(arena.ceiling, arena.live, arena.slots.Length))
      ensures r == OutOfBytes <==> used + minimum > budget
      ensures r == OutOfSlots <==> used + minimum <= budget && liveBlocks == blocks.Length
    {
      LiveBound(blocks[..]);
      if used > budget || budget - used < minimum { return OutOfBytes; }
      if liveBlocks >= blocks.Length { return OutOfSlots; }
      if !HasRoom(arena.ceiling, arena.live, arena.slots.Length) { return AtEngineLimit; }
      return HasSpace;
    }

    /** The first record not in use. */
    method TakeSlot() returns (found: bool, slot: nat)
      requires Valid()
      ensures found ==> slot < blocks.Length && !blocks[slot].live && forall i | 0 <= i < slot :: blocks[i].live
      ensures !found <==> liveBlocks == blocks.Length
    {
      LiveBound(blocks[..]);
      for i := 0 to blocks.Length
        invariant forall k | 0 <= k < i :: blocks[k].live
      {
        if !blocks[i].live { assert !blocks[..][i].live; return true, i; }
      }
      return false, 0;
    }

    /** One block's record cleared, its module's claim dropped, and the module released with its last block. */
    method DropBlock(slot: nat)
      requires Valid() && slot < blocks.Length && blocks[slot].live
      modifies `pending, `used, `liveBlocks, blocks, modules, arena, arena.slots
      ensures Valid()
      ensures blocks[..] == old(blocks[..])[slot := EMPTY] && liveBlocks == old(liveBlocks) - 1
      ensures forall p :: p in pending <==> p in old(pending) && p != slot
      ensures var t := old(blocks[slot].token);
        && t < modules.Length && old(modules[t].blocks) > 0
        && modules[..] == old(modules[..])[t := Held(if old(modules[t].blocks) == 1 then 0 else old(modules[t].bytes), old(modules[t].blocks) - 1)]
        && used == old(used) - (if old(modules[t].blocks) == 1 then old(modules[t].bytes) else 0)
    {
      hide Balanced, Tied, Sound, Released;
      ghost var b, s := Books(), arena.Value();
      DropPlan(b, s, arena.free, slot);
      var t := blocks[slot].token;
      pending := Forgotten(pending, slot);
      if modules[t].blocks == 1 {
        arena.Release(t);
        used := used - modules[t].bytes;
        modules[t] := Held(0, 0);
      } else {
        modules[t] := Held(modules[t].bytes, modules[t].blocks - 1);
      }
      blocks[slot] := EMPTY;
      liveBlocks := liveBlocks - 1;
      assert Books() == Dropped(b, slot);
      PendingOf(b);
      StillWaiting(b, slot);
    }

    /** Everything dropped: no module live, no ceiling in force, nothing counted. */
    method Reset()
      requires Valid()
      modifies this, blocks, modules, arena, arena.slots
      ensures Valid() && Books() == Cleared(blocks.Length) && arena.live == 0 && arena.ceiling.limit == 0
    {
      hide Balanced, Tied, Sound;
      SameLength(Books(), arena.Value());
      arena.ReleaseAll();
      forall i | 0 <= i < blocks.Length { blocks[i] := EMPTY; }
      forall i | 0 <= i < modules.Length { modules[i] := Held(0, 0); }
      pending, used, nextVictim, liveBlocks := [], 0, 0, 0;
      ClearBalances(blocks.Length);
      assert Books() == Cleared(blocks.Length);
      TiedCleared(blocks.Length, arena.Value());
    }

    // ---- evicting and invalidating ----

    /** The next module with blocks, round-robin from the cursor; none only when no module has any. */
    method ModuleToEmpty() returns (found: bool, token: nat, ghost passed: nat)
      requires Valid()
      modifies `nextVictim
      ensures Valid()
      ensures found ==> token < modules.Length && modules[token].blocks > 0
      ensures found ==> token == (old(nextVictim) + passed) % blocks.Length && nextVictim == (token + 1) % blocks.Length
      ensures found ==> forall k | 0 <= k < passed :: At(old(nextVictim), k, blocks.Length) < modules.Length && modules[At(old(nextVictim), k, blocks.Length)].blocks == 0
      ensures !found ==> forall t | 0 <= t < modules.Length :: modules[t].blocks == 0
    {
      hide Balanced, Tied, Sound, At;
      SameLength(Books(), arena.Value());
      var start, n := nextVictim, blocks.Length;
      AtStart(start, n);
      for scanned := 0 to n
        invariant Valid() && nextVictim == At(start, scanned, n)
        invariant forall k | 0 <= k < scanned :: At(start, k, n) < n && modules[At(start, k, n)].blocks == 0
      {
        token := nextVictim;
        AtNext(start, scanned, n);
        nextVictim := (token + 1) % n;
        if modules[token].blocks > 0 {
          AtIs(start, scanned, n);
          return true, token, scanned;
        }
      }
      forall t | 0 <= t < modules.Length ensures modules[t].blocks == 0 {
        var k := AtReaches(start, t, n);
      }
      return false, 0, n;
    }

    /** Every block of the next module dropped, in one call; the engine is told each range that ends below 2^32. */
    method Evict() returns (dropped: nat, told: seq<Range>, ghost victim: nat)
      requires Valid()
      modifies this, blocks, modules, arena, arena.slots
      ensures Valid()
      ensures dropped == 0 <==> forall t | 0 <= t < modules.Length :: old(modules[t].blocks) == 0
      ensures dropped == 0 ==> used == old(used) && blocks[..] == old(blocks[..])
      ensures dropped > 0 ==> used < old(used) && victim < modules.Length && dropped == old(modules[victim].blocks)
      ensures dropped > 0 ==> forall i | 0 <= i < blocks.Length ::
        blocks[i] == if Names(old(blocks[i]), victim) then EMPTY else old(blocks[i])
      ensures forall i | 0 <= i < blocks.Length && blocks[i] != old(blocks[i]) && old(blocks[i].guest + blocks[i].len) <= 0xFFFF_FFFF ::
        Range(old(blocks[i].guest), old(blocks[i].guest + blocks[i].len)) in told
      ensures forall range | range in told :: RangeOfBlock(old(blocks[..]), victim, range)
    {
      hide Balanced, Tied, Sound, RangeOfBlock, Entered;
      var found, token, _ := ModuleToEmpty();
      dropped, told, victim := 0, [], token;
      if !found { return; }
      ghost var was := blocks[..];
      dropped, told := EmptyModule(token);
      assert forall i | 0 <= i < blocks.Length :: blocks[i] == Emptied(was, token, blocks.Length)[i];
    }

    /** Every block of one module dropped, the engine told of each before its address can be handed out again. */
    method EmptyModule(token: nat) returns (dropped: nat, told: seq<Range>)
      requires Valid() && token < modules.Length && modules[token].blocks > 0
      modifies `pending, `used, `liveBlocks, blocks, modules, arena, arena.slots
      ensures Valid() && dropped == old(modules[token].blocks) && used < old(used)
      ensures blocks[..] == Emptied(old(blocks[..]), token, blocks.Length)
      ensures Tells(old(blocks[..]), token, blocks.Length, told)
    {
      hide Balanced, Tied, Sound, Entered, Emptied, Tells, FreeList, Hosted, CeilingHolds, IsLive, Extends, Counted, Pending;
      SameLength(Books(), arena.Value());
      HeldHasBytes(Books(), token);
      ghost var was := blocks[..];
      EmptiedNone(was, token);
      dropped, told := 0, [];
      var i := 0;
      while i < blocks.Length && modules[token].blocks > 0
        invariant Valid() && i <= blocks.Length && token < modules.Length
        invariant modules[token].bytes > 0 <==> modules[token].blocks > 0
        invariant dropped + modules[token].blocks == old(modules[token].blocks) > 0
        invariant if modules[token].blocks == 0 then used < old(used) else used <= old(used)
        invariant blocks[..] == Emptied(was, token, i) && Tells(was, token, i, told)
        decreases blocks.Length - i
      {
        EmptiedNext(was, token, i);
        var x := blocks[i];
        assert x == blocks[..][i] == was[i];
        if x.live && x.token == token {
          var fits := x.guest + x.len <= 0xFFFF_FFFF;
          TellsNext(was, token, i, told);
          if fits { told := told + [Range(x.guest, x.guest + x.len)]; }
          DropBlock(i);
          HeldHasBytes(Books(), token);
          dropped := dropped + 1;
        } else {
          TellsSame(was, token, i, told);
        }
        i := i + 1;
      }
      if modules[token].blocks > 0 {
        EmptiedGone(was, token);
        Unnamed(Books(), token);
      } else {
        NoneNamed(Books(), token);
      }
      EmptiedAll(was, token, i, told);
    }

    /** Every block overlapping [lo, hi) dropped, and no other. */
    method Invalidate(lo: nat, hi: nat)
      requires Valid()
      modifies this, blocks, modules, arena, arena.slots
      ensures Valid()
      ensures forall i | 0 <= i < blocks.Length :: blocks[i] == Without(old(blocks[i]), lo, hi)
    {
      hide Balanced, Tied, Sound;
      if lo >= hi { return; }
      for i := 0 to blocks.Length
        invariant Valid()
        invariant forall k | 0 <= k < i :: blocks[k] == Without(old(blocks[k]), lo, hi)
        invariant forall k | i <= k < blocks.Length :: blocks[k] == old(blocks[k])
      {
        if blocks[i].live && blocks[i].guest < hi && blocks[i].guest + blocks[i].len > lo { DropBlock(i); }
      }
    }

    /**
     The engine's evict-or-flush loop ends with room, whichever limit was hit.
     It evicts one module at a time, nothing where there was room, and flushes
     only a storage with no block left.
     */
    method MakeRoom() returns (ghost trace: seq<seq<Stored>>)
      requires Valid() && minimum <= budget
      modifies this, blocks, modules, arena, arena.slots
      ensures Evictions(trace) && trace[0] == old(blocks[..]) && Survives(trace[|trace| - 1], blocks[..])
      ensures old(used + minimum <= budget && liveBlocks < blocks.Length && HasRoom(arena.ceiling, arena.live, arena.slots.Length)) ==>
        |trace| == 1 && Books() == old(Books())
      ensures Valid() && used <= budget && budget - used >= minimum && liveBlocks < blocks.Length
      ensures HasRoom(arena.ceiling, arena.live, arena.slots.Length) && arena.ceiling.limit == 0
    {
      hide Balanced, Tied, Sound, OneEmptied, Survives, Emptied;
      var room := Check();
      trace := [blocks[..]];
      SurvivesItself(blocks[..]);
      ghost var had := room == HasSpace;
      while room != HasSpace
        invariant had ==> room == HasSpace && |trace| == 1 && Books() == old(Books())
        invariant Valid() && Evictions(trace) && trace[0] == old(blocks[..]) && Survives(trace[|trace| - 1], blocks[..])
        invariant room != HasSpace ==> trace[|trace| - 1] == blocks[..]
        invariant room == HasSpace <==> (used <= budget && budget - used >= minimum && liveBlocks < blocks.Length
          && HasRoom(arena.ceiling, arena.live, arena.slots.Length))
        decreases if room == HasSpace then 0 else 1, used
      {
        var before := used;
        ghost var b := Books();
        var dropped, _, victim := Evict();
        if dropped > 0 {
          EvictedOne(b, victim, blocks[..]);
          trace := trace + [blocks[..]];
          SurvivesItself(blocks[..]);
        }
        if dropped == 0 || used >= before {
          NoBlocksLeft(b, blocks.Length);
          Reset();
          SameLength(Books(), arena.Value());
          RoomAfterReset(arena.Value(), Books());
        }
        room := Check();
      }
      RoomMeansNoCeiling(arena.Value(), arena.free);
    }

    // ---- publishing and sharing ----

    /** A module of one body instantiated and its entry taken; released again when it has no callable export. */
    method Open(v: Verdict, vacant: nat) returns (usable: bool, token: nat, entry: nat)
      requires Valid()
      modifies arena, arena.slots
      ensures usable <==> old(arena.live) < arena.slots.Length && v == Taken && vacant != 0 && vacant !in old(arena.host.table)
      ensures !usable ==> Valid() && Books() == old(Books())
      ensures usable ==> arena.Valid() && token < modules.Length && entry != 0 && Extends(old(arena.Value()), arena.Value(), token)
      ensures usable ==> forall x: Stored :: x.token == token && x.entry == entry ==>
        Entered(x, arena.Value()) && Compact.Sole(arena.Value(), BlockOf(x))
    {
      hide Balanced, Tied, Sound, Extends, Entered, Compact.Sole, Published, Resolve, Released;
      ghost var s, free := arena.Value(), arena.free;
      SameLength(Books(), s);
      HeadInRange(s, free);
      var t := arena.Publish(1, v);
      if t.Refused? {
        TiedToRefusal(Books(), s, arena.Value(), v);
        return false, 0, 0;
      }
      PublishedExtends(s, free);
      OpensExactly(s, free, vacant);
      ghost var s1 := arena.Value();
      entry := arena.Entry(t.index, 0, vacant);
      if entry == 0 {
        ResolveNothing(s1.host, s.host.next, vacant);
        arena.Release(t.index);
        Compact.PublishedThenReleased(s, free, 1);
        TiedToSame(Books(), s, arena.Value());
        return false, 0, 0;
      }
      OpenedExtends(s, free, vacant);
      assert arena.Value() == Opened(s, vacant);
      return true, t.index, entry;
    }

    /** The block recorded, its module held, and the block left waiting to share one. */
    method Add(slot: nat, x: Stored, bytes: nat, ghost s: State)
      requires arena.Valid() && blocks.Length > 0 && nextVictim < blocks.Length && |pending| <= BATCH
      requires Balanced(Books()) && Tied(Books(), s) && slot < blocks.Length && !blocks[slot].live
      requires x.live && x.token < modules.Length && bytes > 0
      requires Extends(s, arena.Value(), x.token) && Entered(x, arena.Value()) && Compact.Sole(arena.Value(), BlockOf(x))
      modifies `pending, `used, `liveBlocks, blocks, modules
      ensures Kept() && Books() == Added(old(Books()), slot, x, bytes, |old(pending)| < BATCH)
    {
      hide Balanced, Tied, Sound, Extends, Entered, Compact.Sole;
      ghost var b := Books();
      var wait := |pending| < BATCH;
      NotLiveNoBlocks(b, s, arena.Value(), x.token);
      AddBalances(b, slot, x, bytes, wait);
      TiedAdd(b, s, arena.Value(), slot, x, bytes, wait);
      blocks[slot] := x;
      liveBlocks := liveBlocks + 1;
      modules[x.token] := Held(bytes, modules[x.token].blocks + 1);
      used := used + bytes;
      if wait { pending := pending + [slot]; }
      assert Books() == Added(b, slot, x, bytes, wait);
    }

    /** The waiting blocks as compaction takes them. */
    method Waiting() returns (batch: seq<Compact.Block>)
      requires Kept()
      ensures Pending(Books()) && batch == BatchOf(Books())
    {
      PendingOf(Books());
      batch := [];
      for i := 0 to |pending|
        invariant |batch| == i && forall k | 0 <= k < i :: batch[k] == BatchOf(Books())[k]
      {
        assert Waits(Books(), Books().pending[i]);
        batch := batch + [BlockOf(blocks[pending[i]])];
      }
    }

    /** What rebuilding the waiting blocks needs of everyone: an engine that can move entries and takes the module, the same blocks lowered, a slot. */
    ghost predicate CanShare(low: Compact.Lowering, v: Verdict)
      reads this, arena, blocks, modules
    {
      && !cannotCompact && |pending| > 0 && canAdopt && low.Lowers? && low.bytes > 0 && SameShapes(Books(), low.shapes)
      && v == Taken && arena.live < arena.slots.Length && |pending| <= low.bodies
    }

    /** Every waiting block moved, and the books changed by exactly that. */
    ghost predicate ShareDone(b: Book, bytes: nat, to: nat)
      reads this, blocks, modules
    {
      && blocks.Length == |b.blocks| && modules.Length == |b.modules| && to < modules.Length
      && (forall i | 0 <= i < blocks.Length :: blocks[i] == if i in b.pending then b.blocks[i].(token := to) else b.blocks[i])
      && used + GivenUp(b, |b.pending|) == b.used + bytes && modules[to] == Held(bytes, |b.pending|)
      && (forall t | 0 <= t < modules.Length && t != to :: modules[t] == if Left(b, |b.pending|, t) then Held(0, 0) else b.modules[t])
    }

    /**
     Rebuild the waiting blocks as one module, charged for what it holds in
     place of their own. A refusal leaves every block where it was. Nothing
     waits afterwards, but on an engine that cannot share.
     */
    method ShareAModule(low: Compact.Lowering, v: Verdict) returns (r: Compact.Result)
      requires Kept()
      requires low.Lowers? ==> |low.shapes| == |pending|
      modifies `pending, `cannotCompact, `used, blocks, modules, arena, arena.slots
      ensures Valid() && liveBlocks == old(liveBlocks)
      ensures r.Shared? <==> old(CanShare(low, v))
      ensures r.Shared? ==> !old(cannotCompact)
      ensures cannotCompact == (old(cannotCompact) || (old(pending) != [] && !canAdopt))
      ensures pending == if old(cannotCompact) then old(pending) else []
      ensures r.Refused? ==> blocks[..] == old(blocks[..]) && modules[..] == old(modules[..]) && used == old(used)
      ensures r.Shared? ==> forall i | 0 <= i < blocks.Length ::
        blocks[i] == if i in old(pending) then old(blocks[i]).(token := r.token) else old(blocks[i])
      ensures r.Shared? ==> low.Lowers? && used + GivenUp(old(Books()), |old(pending)|) == old(used) + low.bytes
      ensures r.Shared? ==> r.token < modules.Length && modules[r.token] == Held(low.bytes, |old(pending)|)
      ensures r.Shared? ==> forall t | 0 <= t < modules.Length && t != r.token ::
        modules[t] == if Left(old(Books()), |old(pending)|, t) then Held(0, 0) else old(modules[t])
    {
      hide Balanced, Tied, GivenUp, Left, SameShapes, Sound, FreeList, Hosted, CeilingHolds, Entered, IsLive, Counted, Pending;
      if cannotCompact || pending == [] { return Compact.Refused; }
      r := ShareWaiting(low, v, Books());
    }

    method ShareWaiting(low: Compact.Lowering, v: Verdict, ghost b: Book) returns (r: Compact.Result)
      requires Kept() && !cannotCompact && pending != [] && Books() == b
      requires low.Lowers? ==> |low.shapes| == |pending|
      modifies `pending, `cannotCompact, `used, blocks, modules, arena, arena.slots
      ensures Valid() && liveBlocks == old(liveBlocks) && pending == []
      ensures r.Shared? <==> canAdopt && low.Lowers? && low.bytes > 0 && SameShapes(b, low.shapes)
                             && v == Taken && old(arena.live) < arena.slots.Length && |b.pending| <= low.bodies
      ensures cannotCompact <==> !canAdopt
      ensures r.Refused? ==> blocks[..] == b.blocks && modules[..] == b.modules && used == b.used
      ensures r.Shared? ==> low.Lowers? && ShareDone(b, low.bytes, r.token)
    {
      hide Balanced, Tied, Sound, Compact.Batch, BatchOf, Compact.SharedInto, Compact.Untouched, Pending, GivenUp, Left, BlockOf,
        SameShapes, IsLive, FreeList, Hosted, CeilingHolds, Entered, Compact.Sole, ShareDone;
      ghost var s := arena.Value();
      SoundIsHosted(s, arena.free);
      var batch := Waiting();
      BatchShapes(b);
      if low.Lowers? { ShapesOfBatch(b, low.shapes); }
      PendingIsBatch(b, s);
      r := Compact.Compact(arena, batch, low, v, canAdopt);
      if r.Refused? {
        StopWaiting(b, s, v);
      } else {
        Charge(b, s, r.token, r.bytes);
      }
    }

    /** The same batch would be refused again: it is not kept. */
    method StopWaiting(ghost b: Book, ghost s: State, v: Verdict)
      requires Books() == b && Balanced(b) && Tied(b, s)
      requires arena.Valid() && blocks.Length > 0 && nextVictim < blocks.Length && Compact.Untouched(s, arena.Value(), v)
      modifies `pending, `cannotCompact
      ensures Valid() && pending == [] && cannotCompact == (old(cannotCompact) || !canAdopt)
    {
      hide Balanced, Tied, Compact.Untouched;
      if !canAdopt { cannotCompact := true; }
      StillTied(b, s, arena.Value(), v);
      pending := [];
    }

    /** The moved blocks' claims passed to the module they now share. */
    method Charge(ghost b: Book, ghost s: State, to: nat, bytes: nat)
      requires Books() == b && Balanced(b) && Tied(b, s) && Hosted(s) && Pending(b) && pending != [] && bytes > 0
      requires arena.Valid() && blocks.Length > 0 && nextVictim < blocks.Length
      requires Compact.SharedInto(s, arena.Value(), BatchOf(b), to)
      modifies `pending, `used, blocks, modules
      ensures Valid() && liveBlocks == old(liveBlocks) && pending == []
      ensures ShareDone(b, bytes, to)
    {
      hide Balanced, Tied, Sound, BatchOf, Compact.SharedInto, Pending, Moving, Hosted, IsShared, GivenUp, Left;
      SharedIsNew(b, s, arena.Value(), to);
      MovingNone(b, to);
      for i := 0 to |pending|
        invariant Books() == Moving(b, to, i) && pending == b.pending
      {
        MovingFacts(b, to, i + 1);
        var p := pending[i];
        var t := blocks[p].token;
        if modules[t].blocks == 1 {
          used := used - modules[t].bytes;
          modules[t] := Held(0, 0);
        }
        blocks[p] := blocks[p].(token := to);
        assert Books() == MovedOne(Moving(b, to, i), p, to);
      }
      ShareBalances(b, to, bytes);
      MovingSize(b, to, |b.pending|);
      modules[to] := Held(bytes, |pending|);
      used := used + bytes;
      pending := [];
      assert Books() == Shared(b, to, bytes);
      SharedHolds(b, to, bytes);
      TiedShare(b, s, Books(), arena.Value(), to);
      SharedBlocks(b, Books(), to);
    }

    /**
     Translate, publish in a module of its own, record, and share a module when
     the batch is full: charged what the module takes, alone or shared.
     */
    method Publish(a: Attempt, v: Verdict, vacant: nat, low: Compact.Lowering, v2: Verdict)
        returns (r: Outcome, ghost shared: Compact.Result)
      requires Valid()
      requires a.Lowered? ==> a.bytes > 0
      requires low.Lowers? ==> |low.shapes| == BATCH
      modifies this, blocks, modules, arena, arena.slots
      ensures Valid()
      ensures r.Recorded? <==> old(liveBlocks) < blocks.Length && a.Lowered? && old(arena.live) < arena.slots.Length && v == Taken
                               && vacant != 0 && vacant !in old(arena.host.table)
      ensures r == Failed <==> old(liveBlocks) < blocks.Length && a.NotLowered?
      ensures !r.Recorded? ==> Books() == old(Books())
      ensures r.Recorded? ==> a.Lowered? && r.slot < blocks.Length && !old(blocks[r.slot].live) && blocks[r.slot].live
      ensures r.Recorded? ==> BlockOf(blocks[r.slot]).shape == Compact.Shape(a.guest, a.len, a.exits, a.leaf) && liveBlocks == old(liveBlocks) + 1
      ensures r.Recorded? ==> forall i | 0 <= i < blocks.Length && i != r.slot ::
        blocks[i] == old(blocks[i]).(token := blocks[i].token)
      ensures r.Recorded? && shared.Refused? ==>
        var t := blocks[r.slot].token;
        && t < modules.Length && old(modules[..])[t] == Held(0, 0) && modules[..] == old(modules[..])[t := Held(a.bytes, 1)]
        && used == old(used) + a.bytes && forall i | 0 <= i < blocks.Length && i != r.slot :: blocks[i] == old(blocks[i])
      ensures r.Recorded? && shared.Shared? ==>
        && |old(pending)| == BATCH - 1 && low.Lowers? && shared.token < modules.Length && modules[shared.token] == Held(low.bytes, BATCH)
        && used + GivenUp(old(Books()), |old(pending)|) == old(used) + low.bytes && blocks[r.slot].token == shared.token
      ensures r.Recorded? ==> pending == if |old(pending)| == 32 then old(pending)
                                         else if |old(pending)| == 31 && !old(cannotCompact) then []
                                         else old(pending) + [r.slot]
    {
      hide Balanced, Tied, Sound, GivenUp, CanShare, Left;
      shared := Compact.Refused;
      SlotsLeft(Books());
      var found, slot := TakeSlot();
      if !found { return OutOfSpace, shared; }
      if a.NotLowered? { return Failed, shared; }
      ghost var before, b := arena.Value(), Books();
      var usable, token, entry := Open(v, vacant);
      if !usable { return OutOfSpace, shared; }
      NotLiveNoBlocks(b, before, arena.Value(), token);
      ghost var x := Stored(true, a.guest, a.len, a.exits, a.leaf, token, entry);
      Add(slot, Stored(true, a.guest, a.len, a.exits, a.leaf, token, entry), a.bytes, before);
      if |b.pending| < BATCH { GivenUpAdded(b, slot, x, a.bytes); }
      r := Recorded(slot);
      if |pending| == BATCH {
        var outcome := ShareAModule(low, v2);
        shared := outcome;
      }
    }
  }

  lemma SoundIsHosted(s: State, free: seq<nat>)
    requires Sound(s, free)
    ensures Hosted(s)
  {
  }

  lemma SlotsLeft(b: Book)
    requires Balanced(b)
    ensures b.live <= |b.blocks|
  {
    LiveBound(b.blocks);
  }

  lemma TiedToSame(b: Book, s: State, g: State)
    requires Tied(b, s) && g.slots == s.slots && g.host.table == s.host.table && g.host.modules == s.host.modules
    ensures Tied(b, g)
  {
  }

  lemma TiedToRefusal(b: Book, s: State, g: State, v: Verdict)
    requires Tied(b, s) && s.freeHead <= |s.slots| && g == Published(s, 1, v) && (s.freeHead == 0 || v != Taken)
    ensures Tied(b, g)
  {
    hide Tied;
    TiedToSame(b, s, g);
  }

  lemma ResolveNothing(h: Host, id: nat, vacant: nat)
    requires id in h.modules && h.modules[id] == Instance(1, map[]) && Resolve(h, id, 0, vacant).1 == 0
    ensures Resolve(h, id, 0, vacant).0 == h
  {
  }

  lemma NotLiveNoBlocks(b: Book, s: State, g: State, t: nat)
    requires Tied(b, s) && Extends(s, g, t) && t < |b.modules|
    ensures b.modules[t].blocks == 0
    ensures Balanced(b) ==> b.modules[t].bytes == 0
  {
    if Balanced(b) { assert Counted(b); }
  }

  lemma StillWaiting(b: Book, slot: nat)
    requires Pending(b)
    ensures forall p :: p in Forgotten(b.pending, slot) <==> p in b.pending && p != slot
  {
    ForgetsPending(b.pending, slot);
  }

  lemma PendingOf(b: Book)
    requires Balanced(b)
    ensures Pending(b)
  {
  }

  /** Nothing waiting, and the arena as it was but for its ceiling. */
  lemma StillTied(b: Book, s: State, g: State, v: Verdict)
    requires Balanced(b) && Tied(b, s) && Compact.Untouched(s, g, v)
    ensures var b' := b.(pending := []); Balanced(b') && Tied(b', g)
  {
    TiedToSame(b, s, g);
  }

  lemma SharedIsNew(b: Book, s: State, g: State, to: nat)
    requires Tied(b, s) && Pending(b) && Compact.SharedInto(s, g, BatchOf(b), to)
    ensures to < |b.modules| && b.modules[to].blocks == 0
  {
  }

  lemma MovingFacts(b: Book, to: nat, n: nat)
    requires Balanced(b) && to < |b.modules| && b.modules[to].blocks == 0 && 0 < n <= |b.pending|
    ensures var m, p := Moving(b, to, n - 1), b.pending[n - 1];
      && p < |m.blocks| && m.blocks[p].token < |m.modules| && m.modules[m.blocks[p].token].blocks == 1
      && m.used >= m.modules[m.blocks[p].token].bytes && Moving(b, to, n) == MovedOne(m, p, to)
  {
    hide Balanced, Midway, Moving;
    MovingBalances(b, to, n - 1);
    MovingStep(b, Moving(b, to, n - 1), to, n);
    MovingNext(b, to, n);
  }

  lemma MovingNone(b: Book, to: nat)
    ensures Moving(b, to, 0) == b
  {
  }

  lemma MovingSize(b: Book, to: nat, n: nat)
    requires Balanced(b) && to < |b.modules| && b.modules[to].blocks == 0 && n <= |b.pending|
    ensures |Moving(b, to, n).modules| == |b.modules| && |Moving(b, to, n).blocks| == |b.blocks| && Moving(b, to, n).pending == b.pending
  {
    hide Balanced, Moving;
    MovingBalances(b, to, n);
  }

  lemma SharedBlocks(b: Book, s: Book, to: nat)
    requires IsShared(b, s, to)
    ensures forall i | 0 <= i < |b.blocks| :: s.blocks[i] == if i in b.pending then b.blocks[i].(token := to) else b.blocks[i]
    ensures |s.blocks| == |b.blocks|
  {
  }

  lemma NextAround(start: nat, k: nat, n: nat)
    requires n > 0
    ensures ((start + k) % n + 1) % n == (start + k + 1) % n && (start + k) % n < n
  {
    var m := start + k;
    var q, r := m / n, m % n;
    assert m == q * n + r;
    if r + 1 < n {
      ModIs(m + 1, n, q, r + 1);
      ModIs(r + 1, n, 0, r + 1);
    } else {
      ModIs(m + 1, n, q + 1, 0);
      ModIs(r + 1, n, 1, 0);
    }
  }

  lemma ModIs(m: nat, n: nat, q: nat, r: nat)
    requires n > 0 && r < n && m == q * n + r
    ensures m % n == r
  {
    Words.ModUnique(m, n, q, r);
  }

  lemma SameLength(b: Book, s: State)
    requires Tied(b, s)
    ensures |b.modules| == |b.blocks| == |s.slots|
  {
  }

  lemma HeldHasBytes(b: Book, t: nat)
    requires Balanced(b) && t < |b.modules|
    ensures b.modules[t].blocks > 0 <==> b.modules[t].bytes > 0
  {
    assert Counted(b);
  }

  /** A module no record names has no blocks. */
  lemma Unnamed(b: Book, t: nat)
    requires Balanced(b) && t < |b.modules| && forall i | 0 <= i < |b.blocks| :: !Names(b.blocks[i], t)
    ensures b.modules[t].blocks == 0
  {
    CountsNone(b.blocks, t);
    assert Counted(b);
  }

  lemma TiedCleared(n: nat, s: State)
    requires |s.slots| == n && forall t: nat :: !IsLive(s, t)
    ensures Tied(Cleared(n), s)
  {
  }

  lemma NoneNamed(b: Book, t: nat)
    requires Balanced(b) && t < |b.modules| && b.modules[t].blocks == 0
    ensures forall i | 0 <= i < |b.blocks| :: !Names(b.blocks[i], t)
  {
    assert Counted(b);
    forall i | 0 <= i < |b.blocks| ensures !Names(b.blocks[i], t) {
      if Names(b.blocks[i], t) { CountsBlock(b.blocks, i, t); }
    }
  }

  lemma RoomAfterReset(s: State, b: Book)
    requires s.live == 0 && s.ceiling.limit == 0 && |s.slots| > 0
    ensures HasRoom(s.ceiling, s.live, |s.slots|)
  {
  }

  lemma RoomMeansNoCeiling(s: State, free: seq<nat>)
    requires Sound(s, free) && HasRoom(s.ceiling, s.live, |s.slots|)
    ensures s.ceiling.limit == 0
  {
    CeilingKept(s.ceiling, s.live, Taken, |s.slots|);
  }
}
