/** The storage's books as a value: block records, what each module costs and holds, and the blocks waiting to share one. */
module Book {

  /** A block record. A dead one is all zero. */
  datatype Stored = Stored(live: bool, guest: nat, len: nat, exits: nat, leaf: nat, token: nat, entry: nat)

  const EMPTY := Stored(false, 0, 0, 0, 0, 0, 0)

  /** A module's bytes, counted while any block needs it. */
  datatype Held = Held(bytes: nat, blocks: nat)

  datatype Book = Book(blocks: seq<Stored>, modules: seq<Held>, pending: seq<nat>, used: nat, live: nat)

  // ---- counting ----

  function LiveCount(s: seq<Stored>): nat {
    if s == [] then 0 else LiveCount(s[..|s| - 1]) + (if s[|s| - 1].live then 1 else 0)
  }

  predicate Names(b: Stored, t: nat) {
    b.live && b.token == t
  }

  /** How many live blocks name a module. */
  function CountOf(s: seq<Stored>, t: nat): nat {
    if s == [] then 0 else CountOf(s[..|s| - 1], t) + (if Names(s[|s| - 1], t) then 1 else 0)
  }

  function Total(m: seq<Held>): nat {
    if m == [] then 0 else Total(m[..|m| - 1]) + m[|m| - 1].bytes
  }

  lemma {:induction false} LiveUpdate(s: seq<Stored>, i: nat, x: Stored)
    requires i < |s|
    ensures LiveCount(s[i := x]) == LiveCount(s) - (if s[i].live then 1 else 0) + (if x.live then 1 else 0)
  {
    var n := |s| - 1;
    if i < n {
      assert s[i := x][..n] == s[..n][i := x];
      LiveUpdate(s[..n], i, x);
    } else {
      assert s[i := x][..n] == s[..n];
    }
  }

  lemma {:induction false} CountUpdate(s: seq<Stored>, i: nat, x: Stored, t: nat)
    requires i < |s|
    ensures CountOf(s[i := x], t) == CountOf(s, t) - (if Names(s[i], t) then 1 else 0) + (if Names(x, t) then 1 else 0)
  {
    hide Names;
    var n := |s| - 1;
    if i < n {
      assert s[i := x][..n] == s[..n][i := x];
      CountUpdate(s[..n], i, x, t);
    } else {
      assert s[i := x][..n] == s[..n];
    }
  }

  lemma {:induction false} TotalUpdate(m: seq<Held>, i: nat, x: Held)
    requires i < |m|
    ensures Total(m[i := x]) == Total(m) - m[i].bytes + x.bytes
  {
    var n := |m| - 1;
    if i < n {
      assert m[i := x][..n] == m[..n][i := x];
      TotalUpdate(m[..n], i, x);
    } else {
      assert m[i := x][..n] == m[..n];
    }
  }

  lemma {:induction false} CountsBlock(s: seq<Stored>, i: nat, t: nat)
    requires i < |s| && Names(s[i], t)
    ensures CountOf(s, t) > 0
  {
    hide Names;
    if i < |s| - 1 { CountsBlock(s[..|s| - 1], i, t); }
  }

  /** Two blocks of one module: it counts at least two. */
  lemma CountsBoth(s: seq<Stored>, i: nat, j: nat, t: nat)
    requires i < |s| && j < |s| && i != j && Names(s[i], t) && Names(s[j], t)
    ensures CountOf(s, t) >= 2
  {
    CountUpdate(s, i, EMPTY, t);
    CountsBlock(s[i := EMPTY], j, t);
  }

  lemma {:induction false} CountsNone(s: seq<Stored>, t: nat)
    requires forall i | 0 <= i < |s| :: !Names(s[i], t)
    ensures CountOf(s, t) == 0
  {
    hide Names;
    if s != [] { CountsNone(s[..|s| - 1], t); }
  }

  lemma {:induction false} AllDead(s: seq<Stored>)
    requires forall i | 0 <= i < |s| :: !s[i].live
    ensures LiveCount(s) == 0
  {
    if s != [] { AllDead(s[..|s| - 1]); }
  }

  lemma {:induction false} LiveBound(s: seq<Stored>)
    ensures LiveCount(s) <= |s| && (LiveCount(s) == |s| <==> forall i | 0 <= i < |s| :: s[i].live)
  {
    if s != [] { LiveBound(s[..|s| - 1]); }
  }

  lemma {:induction false} NoBytes(m: seq<Held>)
    requires forall i | 0 <= i < |m| :: m[i].bytes == 0
    ensures Total(m) == 0
  {
    if m != [] { NoBytes(m[..|m| - 1]); }
  }

  lemma {:induction false} BytesCount(m: seq<Held>, i: nat)
    requires i < |m|
    ensures Total(m) >= m[i].bytes
  {
    if i < |m| - 1 { BytesCount(m[..|m| - 1], i); }
  }

  // ---- what always balances ----

  ghost predicate Counted(b: Book) {
    forall t | 0 <= t < |b.modules| :: b.modules[t].blocks == CountOf(b.blocks, t) && (b.modules[t].blocks == 0 <==> b.modules[t].bytes == 0)
  }

  /** A pending block is live and the only block of its module. */
  predicate Waits(b: Book, p: nat) {
    p < |b.blocks| && b.blocks[p].live && b.blocks[p].token < |b.modules| && b.modules[b.blocks[p].token].blocks == 1
  }

  ghost predicate Pending(b: Book) {
    && (forall k | 0 <= k < |b.pending| :: Waits(b, b.pending[k]))
    && (forall k, l | 0 <= k < l < |b.pending| :: b.pending[k] != b.pending[l])
  }

  /**
   Live records counted; every module counting the live blocks that name it
   and its bytes held exactly while there are any; `used` their sum; pending
   entries distinct live sole owners.
   */
  ghost predicate Balanced(b: Book) {
    && |b.modules| == |b.blocks| && b.live == LiveCount(b.blocks)
    && (forall i | 0 <= i < |b.blocks| && b.blocks[i].live :: b.blocks[i].token < |b.modules|)
    && Counted(b) && b.used == Total(b.modules) && Pending(b)
  }

  // ---- a block published ----

  function Added(b: Book, slot: nat, x: Stored, bytes: nat, wait: bool): Book
    requires slot < |b.blocks| && x.token < |b.modules|
  {
    Book(b.blocks[slot := x], b.modules[x.token := Held(bytes, 1)], if wait then b.pending + [slot] else b.pending,
         b.used + bytes, b.live + 1)
  }

  lemma AddBalances(b: Book, slot: nat, x: Stored, bytes: nat, wait: bool)
    requires Balanced(b) && slot < |b.blocks| && !b.blocks[slot].live && x.live && x.token < |b.modules|
    requires b.modules[x.token].blocks == 0 && bytes > 0
    ensures Balanced(Added(b, slot, x, bytes, wait))
  {
    var b' := Added(b, slot, x, bytes, wait);
    LiveUpdate(b.blocks, slot, x);
    TotalUpdate(b.modules, x.token, Held(bytes, 1));
    forall t | 0 <= t < |b'.modules|
      ensures b'.modules[t].blocks == CountOf(b'.blocks, t) && (b'.modules[t].blocks == 0 <==> b'.modules[t].bytes == 0)
    {
      CountUpdate(b.blocks, slot, x, t);
      assert b.modules[t].blocks == CountOf(b.blocks, t);
    }
    forall k | 0 <= k < |b'.pending| ensures Waits(b', b'.pending[k]) {
      if k < |b.pending| {
        assert Waits(b, b.pending[k]);
        assert b.blocks[b.pending[k]].token != x.token;
      }
    }
    forall k, l | 0 <= k < l < |b'.pending| ensures b'.pending[k] != b'.pending[l] {
      if l == |b.pending| { assert Waits(b, b.pending[k]); }
    }
  }

  // ---- a block dropped ----

  /** The position of a slot among the pending, or their number. */
  function IndexOf(list: seq<nat>, x: nat): (i: nat)
    ensures i <= |list| && (i < |list| ==> list[i] == x) && (i == |list| ==> x !in list)
  {
    if list == [] then 0 else if list[0] == x then 0 else 1 + IndexOf(list[1..], x)
  }

  /** Taken out by moving the last into its place. */
  function Forgotten(list: seq<nat>, x: nat): seq<nat> {
    var i := IndexOf(list, x);
    if i == |list| then list else list[i := list[|list| - 1]][..|list| - 1]
  }

  lemma ForgetsPending(list: seq<nat>, x: nat)
    requires forall k, l | 0 <= k < l < |list| :: list[k] != list[l]
    ensures var r := Forgotten(list, x);
      && x !in r && (forall y :: y in r ==> y in list) && (forall y :: y in list && y != x ==> y in r)
      && (forall k, l | 0 <= k < l < |r| :: r[k] != r[l])
  {
    var i, r := IndexOf(list, x), Forgotten(list, x);
    if i < |list| {
      forall y | y in list && y != x ensures y in r {
        var k :| 0 <= k < |list| && list[k] == y;
        if k == |list| - 1 { assert r[i] == y; } else { assert r[k] == y; }
      }
    }
  }

  function Dropped(b: Book, slot: nat): Book
    requires slot < |b.blocks| && b.blocks[slot].live && b.blocks[slot].token < |b.modules| && b.live > 0
    requires b.modules[b.blocks[slot].token].blocks > 0 && b.used >= b.modules[b.blocks[slot].token].bytes
  {
    var t := b.blocks[slot].token;
    var m := b.modules[t];
    var last := m.blocks == 1;
    Book(b.blocks[slot := EMPTY], b.modules[t := Held(if last then 0 else m.bytes, m.blocks - 1)],
         Forgotten(b.pending, slot), if last then b.used - m.bytes else b.used, b.live - 1)
  }

  lemma DropDefined(b: Book, slot: nat)
    requires Balanced(b) && slot < |b.blocks| && b.blocks[slot].live
    ensures var t := b.blocks[slot].token;
      b.live > 0 && t < |b.modules| && b.modules[t].blocks > 0 && b.used >= b.modules[t].bytes
  {
    LiveUpdate(b.blocks, slot, EMPTY);
    CountsBlock(b.blocks, slot, b.blocks[slot].token);
    BytesCount(b.modules, b.blocks[slot].token);
  }

  lemma DropBalances(b: Book, slot: nat)
    requires Balanced(b) && slot < |b.blocks| && b.blocks[slot].live
    requires var t := b.blocks[slot].token; b.live > 0 && t < |b.modules| && b.modules[t].blocks > 0 && b.used >= b.modules[t].bytes
    ensures Balanced(Dropped(b, slot))
  {
    var b', t := Dropped(b, slot), b.blocks[slot].token;
    LiveUpdate(b.blocks, slot, EMPTY);
    TotalUpdate(b.modules, t, b'.modules[t]);
    ForgetsPending(b.pending, slot);
    forall u | 0 <= u < |b'.modules|
      ensures b'.modules[u].blocks == CountOf(b'.blocks, u) && (b'.modules[u].blocks == 0 <==> b'.modules[u].bytes == 0)
    {
      CountUpdate(b.blocks, slot, EMPTY, u);
      assert b.modules[u].blocks == CountOf(b.blocks, u);
    }
    forall k | 0 <= k < |b'.pending| ensures Waits(b', b'.pending[k]) {
      var p := b'.pending[k];
      assert p in b'.pending && p in b.pending && p != slot;
      var l :| 0 <= l < |b.pending| && b.pending[l] == p;
      assert Waits(b, b.pending[l]);
      if b.blocks[p].token == t { CountsBoth(b.blocks, p, slot, t); }
    }
  }

  // ---- blocks sharing a module ----

  /** The first n pending blocks moved to the module at `to`, their own modules' bytes given back. */
  function Moving(b: Book, to: nat, n: nat): Book
    requires n <= |b.pending|
  {
    if n == 0 then b
    else
      var m := Moving(b, to, n - 1);
      var p := b.pending[n - 1];
      if p >= |m.blocks| || m.blocks[p].token >= |m.modules| then m
      else
        var t := m.blocks[p].token;
        var was := m.modules[t];
        Book(m.blocks[p := m.blocks[p].(token := to)],
             if was.blocks == 1 then m.modules[t := Held(0, 0)] else m.modules, m.pending,
             if was.blocks == 1 && m.used >= was.bytes then m.used - was.bytes else m.used, m.live)
  }

  /** Midway: counts are right but for the module being filled, which nothing has been charged for yet. */
  ghost predicate Midway(b: Book, m: Book, to: nat, n: nat) {
    && n <= |b.pending| && Pending(b) && to < |b.modules|
    && |m.blocks| == |b.blocks| && |m.modules| == |b.modules| && m.pending == b.pending && m.live == b.live
    && m.live == LiveCount(m.blocks) && m.used == Total(m.modules)
    && (forall i | 0 <= i < |b.blocks| :: m.blocks[i] == if i in b.pending[..n] then b.blocks[i].(token := to) else b.blocks[i])
    && (forall t | 0 <= t < |b.modules| && t != to :: m.modules[t].blocks == CountOf(m.blocks, t) && (m.modules[t].blocks == 0 <==> m.modules[t].bytes == 0))
    && (forall k | n <= k < |b.pending| && Waits(b, b.pending[k]) ::
          m.modules[b.blocks[b.pending[k]].token] == b.modules[b.blocks[b.pending[k]].token])
    && CountOf(m.blocks, to) == n && m.modules[to] == Held(0, 0)
  }

  lemma MidwayStarts(b: Book, to: nat)
    requires Balanced(b) && to < |b.modules| && b.modules[to].blocks == 0
    ensures Midway(b, b, to, 0)
  {
    assert b.modules[to].blocks == CountOf(b.blocks, to);
    assert b.modules[to] == Held(0, 0);
  }

  lemma {:induction false} MovingBalances(b: Book, to: nat, n: nat)
    requires Balanced(b) && to < |b.modules| && b.modules[to].blocks == 0 && n <= |b.pending|
    ensures Midway(b, Moving(b, to, n), to, n)
  {
    if n == 0 {
      MidwayStarts(b, to);
    } else {
      MovingBalances(b, to, n - 1);
      MovingStep(b, Moving(b, to, n - 1), to, n);
      MovingNext(b, to, n);
      hide Balanced, Midway, Moving;
    }
  }

  /** One pending block moved. */
  function MovedOne(m: Book, p: nat, to: nat): Book
    requires p < |m.blocks| && m.blocks[p].token < |m.modules| && m.used >= m.modules[m.blocks[p].token].bytes
  {
    var t := m.blocks[p].token;
    Book(m.blocks[p := m.blocks[p].(token := to)], m.modules[t := Held(0, 0)], m.pending, m.used - m.modules[t].bytes, m.live)
  }

  lemma PendingFacts(b: Book, m: Book, to: nat, n: nat)
    requires Balanced(b) && to < |b.modules| && b.modules[to].blocks == 0 && 0 < n <= |b.pending| && Midway(b, m, to, n - 1)
    ensures var p := b.pending[n - 1];
      && p < |m.blocks| && m.blocks[p] == b.blocks[p] && b.blocks[p].live && b.blocks[p].token < |b.modules| && b.blocks[p].token != to
      && m.modules[b.blocks[p].token].blocks == 1 && m.used >= m.modules[b.blocks[p].token].bytes
      && p !in b.pending[..n - 1]
      && (forall k | n <= k < |b.pending| :: b.blocks[b.pending[k]].token != b.blocks[p].token)
  {
    var p := b.pending[n - 1];
    assert Waits(b, b.pending[n - 1]);
    assert p !in b.pending[..n - 1];
    BytesCount(m.modules, b.blocks[p].token);
    forall k | n <= k < |b.pending| ensures b.blocks[b.pending[k]].token != b.blocks[p].token {
      assert Waits(b, b.pending[k]);
      if b.blocks[b.pending[k]].token == b.blocks[p].token {
        CountsBoth(b.blocks, p, b.pending[k], b.blocks[p].token);
      }
    }
  }

  lemma MovingStep(b: Book, m: Book, to: nat, n: nat)
    requires Balanced(b) && to < |b.modules| && b.modules[to].blocks == 0 && 0 < n <= |b.pending| && Midway(b, m, to, n - 1)
    ensures var p := b.pending[n - 1];
      && p < |m.blocks| && m.blocks[p].token < |m.modules| && m.modules[m.blocks[p].token].blocks == 1
      && m.used >= m.modules[m.blocks[p].token].bytes && Midway(b, MovedOne(m, p, to), to, n)
  {
    hide Balanced, CountOf, LiveCount, Total;
    PendingFacts(b, m, to, n);
    var p := b.pending[n - 1];
    var t := b.blocks[p].token;
    var x := m.blocks[p].(token := to);
    var m' := MovedOne(m, p, to);
    LiveUpdate(m.blocks, p, x);
    TotalUpdate(m.modules, t, Held(0, 0));
    CountUpdate(m.blocks, p, x, to);
    assert b.pending[..n] == b.pending[..n - 1] + [p];
    forall u | 0 <= u < |b.modules| && u != to
      ensures m'.modules[u].blocks == CountOf(m'.blocks, u) && (m'.modules[u].blocks == 0 <==> m'.modules[u].bytes == 0)
    {
      CountUpdate(m.blocks, p, x, u);
    }
    forall i | 0 <= i < |b.blocks|
      ensures m'.blocks[i] == if i in b.pending[..n] then b.blocks[i].(token := to) else b.blocks[i]
    {
    }
  }

  lemma MovingNext(b: Book, to: nat, n: nat)
    requires 0 < n <= |b.pending|
    requires var m, p := Moving(b, to, n - 1), b.pending[n - 1];
      && p < |m.blocks| && m.blocks[p].token < |m.modules| && m.modules[m.blocks[p].token].blocks == 1
      && m.used >= m.modules[m.blocks[p].token].bytes
    ensures Moving(b, to, n) == MovedOne(Moving(b, to, n - 1), b.pending[n - 1], to)
  {
  }

  /** All of them moved, and the shared module charged for them. */
  function Shared(b: Book, to: nat, bytes: nat): Book
    requires to < |b.modules|
  {
    var m := Moving(b, to, |b.pending|);
    if to >= |m.modules| then m
    else Book(m.blocks, m.modules[to := Held(bytes, |b.pending|)], [], m.used + bytes, m.live)
  }

  /** What the first n pending blocks' own modules hold. */
  function GivenUp(b: Book, n: nat): nat
    requires n <= |b.pending|
  {
    if n == 0 then 0
    else
      var p := b.pending[n - 1];
      GivenUp(b, n - 1) + if p < |b.blocks| && b.blocks[p].token < |b.modules| then b.modules[b.blocks[p].token].bytes else 0
  }

  /** Whether one of the first n pending blocks was a module's. */
  predicate Left(b: Book, n: nat, t: nat)
    requires n <= |b.pending|
  {
    exists k | 0 <= k < n :: b.pending[k] < |b.blocks| && b.blocks[b.pending[k]].token == t
  }

  /** Moving empties exactly the modules left and gives back exactly what they held. */
  lemma {:induction false} MovingGivesBack(b: Book, to: nat, n: nat)
    requires Balanced(b) && to < |b.modules| && b.modules[to].blocks == 0 && n <= |b.pending|
    ensures |Moving(b, to, n).modules| == |b.modules|
    ensures Moving(b, to, n).used + GivenUp(b, n) == b.used
    ensures forall t | 0 <= t < |b.modules| :: Moving(b, to, n).modules[t] == if Left(b, n, t) then Held(0, 0) else b.modules[t]
  {
    hide Balanced, Midway, Left;
    if n == 0 {
      NothingLeft(b);
    } else {
      MovingGivesBack(b, to, n - 1);
      MovingBalances(b, to, n - 1);
      PendingFacts(b, Moving(b, to, n - 1), to, n);
      MovingStep(b, Moving(b, to, n - 1), to, n);
      MovingNext(b, to, n);
      StillThere(b, n);
      LeftNext(b, n);
      hide Moving;
    }
  }

  lemma NothingLeft(b: Book)
    ensures forall t :: !Left(b, 0, t)
  {
  }

  lemma LeftNext(b: Book, n: nat)
    requires 0 < n <= |b.pending| && b.pending[n - 1] < |b.blocks|
    ensures forall t :: Left(b, n, t) <==> Left(b, n - 1, t) || t == b.blocks[b.pending[n - 1]].token
  {
    forall t ensures Left(b, n, t) <==> Left(b, n - 1, t) || t == b.blocks[b.pending[n - 1]].token {
      if t == b.blocks[b.pending[n - 1]].token { assert b.blocks[b.pending[n - 1]].token == t; }
    }
  }

  /** The next pending block's module was not left yet: it is nobody else's. */
  lemma StillThere(b: Book, n: nat)
    requires Balanced(b) && 0 < n <= |b.pending|
    ensures b.pending[n - 1] < |b.blocks| && b.blocks[b.pending[n - 1]].token < |b.modules|
    ensures !Left(b, n - 1, b.blocks[b.pending[n - 1]].token)
  {
    var p := b.pending[n - 1];
    assert Waits(b, b.pending[n - 1]);
    if k :| 0 <= k < n - 1 && b.pending[k] < |b.blocks| && b.blocks[b.pending[k]].token == b.blocks[p].token {
      assert Waits(b, b.pending[k]);
      CountsBoth(b.blocks, p, b.pending[k], b.blocks[p].token);
    }
  }

  /** Sharing charges the new module for all of them and nothing for those left. */
  lemma SharedHolds(b: Book, to: nat, bytes: nat)
    requires Balanced(b) && to < |b.modules| && b.modules[to].blocks == 0
    ensures var s := Shared(b, to, bytes);
      && |s.modules| == |b.modules| && s.used + GivenUp(b, |b.pending|) == b.used + bytes && s.modules[to] == Held(bytes, |b.pending|)
      && forall t | 0 <= t < |b.modules| && t != to :: s.modules[t] == if Left(b, |b.pending|, t) then Held(0, 0) else b.modules[t]
  {
    hide Balanced, Moving, GivenUp, Left;
    MovingGivesBack(b, to, |b.pending|);
  }

  /** One block more, waiting last, is given up last. */
  lemma GivenUpAdded(b: Book, slot: nat, x: Stored, bytes: nat)
    requires Balanced(b) && slot < |b.blocks| && !b.blocks[slot].live && x.live && x.token < |b.modules| && b.modules[x.token].blocks == 0
    ensures var a := Added(b, slot, x, bytes, true);
      a.pending == b.pending + [slot] && GivenUp(a, |a.pending|) == GivenUp(b, |b.pending|) + a.modules[x.token].bytes
    ensures Added(b, slot, x, bytes, true).modules[x.token].bytes == bytes
  {
    var a := Added(b, slot, x, bytes, true);
    assert Counted(b);
    SameGivenUp(b, a, slot, x.token, |b.pending|);
  }

  lemma {:induction false} SameGivenUp(b: Book, a: Book, slot: nat, t: nat, n: nat)
    requires Balanced(b) && slot < |b.blocks| && !b.blocks[slot].live && t < |b.modules| && b.modules[t].blocks == 0
    requires a.pending == b.pending + [slot] && |a.blocks| == |b.blocks| && |a.modules| == |b.modules| && n <= |b.pending|
    requires forall i | 0 <= i < |b.blocks| && i != slot :: a.blocks[i] == b.blocks[i]
    requires forall u | 0 <= u < |b.modules| && u != t :: a.modules[u] == b.modules[u]
    ensures GivenUp(a, n) == GivenUp(b, n)
  {
    if n > 0 {
      SameGivenUp(b, a, slot, t, n - 1);
      assert Waits(b, b.pending[n - 1]);
    }
  }

  /** Whether a module keeps any block once the pending ones have moved to `to`. */
  predicate Keeps(b: Book, to: nat, t: nat)
    requires t < |b.modules|
  {
    t == to || (b.modules[t].blocks > 0 && forall k | 0 <= k < |b.pending| && b.pending[k] < |b.blocks| :: b.blocks[b.pending[k]].token != t)
  }

  ghost predicate IsShared(b: Book, s: Book, to: nat) {
    && |s.blocks| == |b.blocks| && |s.modules| == |b.modules| && s.pending == []
    && (forall i | 0 <= i < |b.blocks| :: s.blocks[i] == if i in b.pending then b.blocks[i].(token := to) else b.blocks[i])
    && (forall t | 0 <= t < |b.modules| :: s.modules[t].blocks > 0 <==> Keeps(b, to, t))
  }

  lemma ShareBalances(b: Book, to: nat, bytes: nat)
    requires Balanced(b) && to < |b.modules| && b.modules[to].blocks == 0 && bytes > 0 && b.pending != []
    ensures Balanced(Shared(b, to, bytes)) && IsShared(b, Shared(b, to, bytes), to)
  {
    hide Moving, Balanced, Keeps;
    var n := |b.pending|;
    var m := Moving(b, to, n);
    MovingBalances(b, to, n);
    SharedOwners(b, m, to);
    SharedIs(b, m, to, bytes);
  }

  lemma SharedIs(b: Book, m: Book, to: nat, bytes: nat)
    requires Balanced(b) && to < |b.modules| && bytes > 0 && b.pending != [] && Midway(b, m, to, |b.pending|)
    requires forall t | 0 <= t < |b.modules| && t != to :: m.modules[t].blocks > 0 <==> Keeps(b, to, t)
    ensures var s := Book(m.blocks, m.modules[to := Held(bytes, |b.pending|)], [], m.used + bytes, m.live);
      Balanced(s) && IsShared(b, s, to)
  {
    hide Keeps;
    assert b.pending[..|b.pending|] == b.pending;
    assert Keeps(b, to, to) by { KeepsNew(b, to); }
    TotalUpdate(m.modules, to, Held(bytes, |b.pending|));
  }

  lemma KeepsNew(b: Book, to: nat)
    requires to < |b.modules|
    ensures Keeps(b, to, to)
  {
  }

  /** A module still has blocks exactly when it had any that were not pending. */
  lemma SharedOwners(b: Book, m: Book, to: nat)
    requires Balanced(b) && to < |b.modules| && b.modules[to].blocks == 0 && Midway(b, m, to, |b.pending|)
    ensures forall t | 0 <= t < |b.modules| && t != to :: m.modules[t].blocks > 0 <==> Keeps(b, to, t)
  {
    assert b.pending[..|b.pending|] == b.pending;
    forall t | 0 <= t < |b.modules| && t != to ensures m.modules[t].blocks > 0 <==> Keeps(b, to, t) {
      if k :| 0 <= k < |b.pending| && b.blocks[b.pending[k]].token == t {
        SoleGone(b, m, to, k);
      } else {
        SameCount(b.blocks, m.blocks, t);
        assert b.modules[t].blocks == CountOf(b.blocks, t);
      }
    }
  }

  lemma SoleGone(b: Book, m: Book, to: nat, k: nat)
    requires Balanced(b) && to < |b.modules| && b.modules[to].blocks == 0 && Midway(b, m, to, |b.pending|) && k < |b.pending|
    ensures CountOf(m.blocks, b.blocks[b.pending[k]].token) == 0 && b.blocks[b.pending[k]].token != to
  {
    var p := b.pending[k];
    var t := b.blocks[p].token;
    assert Waits(b, b.pending[k]);
    assert b.pending[..|b.pending|] == b.pending && p in b.pending;
    forall i | 0 <= i < |m.blocks| ensures !Names(m.blocks[i], t) {
      if Names(m.blocks[i], t) && i != p {
        CountsBoth(b.blocks, i, p, t);
      }
    }
    CountsNone(m.blocks, t);
  }

  lemma {:induction false} SameCount(s: seq<Stored>, r: seq<Stored>, t: nat)
    requires |s| == |r| && forall i | 0 <= i < |s| :: Names(s[i], t) == Names(r[i], t)
    ensures CountOf(s, t) == CountOf(r, t)
  {
    hide Names;
    if s != [] { SameCount(s[..|s| - 1], r[..|r| - 1], t); }
  }

  // ---- everything dropped ----

  function Cleared(n: nat): Book {
    Book(seq(n, _ => EMPTY), seq(n, _ => Held(0, 0)), [], 0, 0)
  }

  lemma ClearBalances(n: nat)
    ensures Balanced(Cleared(n))
  {
    var b := Cleared(n);
    AllDead(b.blocks);
    NoBytes(b.modules);
    forall t | 0 <= t < n ensures CountOf(b.blocks, t) == 0 {
      CountsNone(b.blocks, t);
    }
  }
}
