/**
 The histogram of block entries: a bounded map from guest address to a
 saturating count, refined by an open-addressed table. The table holds twice as
 many slots as keys, so an empty slot always ends a probe.
 */
module Profile {
  import opened Words

  /** The address no block starts at, which marks a free slot. */
  const EMPTY: Word := 0xFFFF_FFFF
  const COUNT_MAX: nat := 0xFFFF_FFFF_FFFF_FFFF
  const LARGEST: nat := 0x4000_0000

  // ---- the bounded map ----

  /** Counts per address, with the hits that no count took: those dropped, and those on a count at its limit. */
  datatype Table = Table(held: map<Word, nat>, total: nat, dropped: nat, saturated: nat)

  const NO_HITS: Table := Table(map[], 0, 0, 0)

  function HitOf(t: Table, eip: Word, capacity: nat): Table {
    var u := t.(total := t.total + 1);
    if eip == EMPTY then u.(dropped := t.dropped + 1)
    else if eip in t.held then
      if t.held[eip] != COUNT_MAX then u.(held := t.held[eip := t.held[eip] + 1]) else u.(saturated := t.saturated + 1)
    else if |t.held| >= capacity then u.(dropped := t.dropped + 1)
    else u.(held := t.held[eip := 1])
  }

  function HitsOf(hits: seq<Word>, capacity: nat): Table {
    if hits == [] then NO_HITS else HitOf(HitsOf(Before(hits), capacity), Last(hits), capacity)
  }

  function Before(hits: seq<Word>): seq<Word>
    requires hits != []
  {
    hits[..|hits| - 1]
  }

  function Last(hits: seq<Word>): Word
    requires hits != []
  {
    hits[|hits| - 1]
  }

  function Min(a: nat, b: nat): nat {
    if a < b then a else b
  }

  /** How often an address was hit. */
  function Occurrences(hits: seq<Word>, eip: Word): nat {
    if hits == [] then 0 else Occurrences(Before(hits), eip) + (if Last(hits) == eip then 1 else 0)
  }

  /** The addresses hit, the marker apart. */
  function Seen(hits: seq<Word>): set<Word> {
    if hits == [] then {} else Seen(Before(hits)) + (if Last(hits) == EMPTY then {} else {Last(hits)})
  }

  /** An address is admitted when, at its first hit, fewer addresses than the table holds had been hit. */
  predicate Admitted(hits: seq<Word>, eip: Word, capacity: nat) {
    hits != [] && (Admitted(Before(hits), eip, capacity)
                   || (Last(hits) == eip && eip != EMPTY && eip !in Seen(Before(hits)) && |Seen(Before(hits))| < capacity))
  }

  /** The hits on addresses never admitted. */
  function Refused(hits: seq<Word>, capacity: nat): nat {
    if hits == [] then 0
    else Refused(Before(hits), capacity) + (if Admitted(hits, Last(hits), capacity) then 0 else 1)
  }

  lemma {:induction false} AdmittedWasSeen(hits: seq<Word>, eip: Word, capacity: nat)
    requires Admitted(hits, eip, capacity)
    ensures eip in Seen(hits) && eip != EMPTY
  {
    if Admitted(Before(hits), eip, capacity) { AdmittedWasSeen(Before(hits), eip, capacity); }
  }

  /** The table holds exactly the admitted addresses, which are all those seen until it is full. */
  lemma {:induction false} HoldsTheAdmitted(hits: seq<Word>, capacity: nat)
    ensures forall eip: Word :: eip in HitsOf(hits, capacity).held <==> Admitted(hits, eip, capacity)
    ensures HitsOf(hits, capacity).held.Keys <= Seen(hits)
    ensures |Seen(hits)| <= capacity ==> HitsOf(hits, capacity).held.Keys == Seen(hits)
    ensures |Seen(hits)| >= capacity ==> |HitsOf(hits, capacity).held| == capacity
  {
    if hits != [] {
      HoldsTheAdmitted(Before(hits), capacity);
      var t, u := HitsOf(Before(hits), capacity), HitsOf(hits, capacity);
      KeysAfter(t, Last(hits), capacity);
      SeenGrows(hits);
      Sizes(t.held.Keys, Seen(Before(hits)));
    }
  }

  lemma SeenGrows(hits: seq<Word>)
    requires hits != []
    ensures Last(hits) == EMPTY || Last(hits) in Seen(Before(hits)) ==> Seen(hits) == Seen(Before(hits))
    ensures Last(hits) != EMPTY && Last(hits) !in Seen(Before(hits)) ==>
      Seen(hits) == Seen(Before(hits)) + {Last(hits)} && |Seen(hits)| == |Seen(Before(hits))| + 1
  {
  }

  lemma KeysAfter(t: Table, eip: Word, capacity: nat)
    ensures HitOf(t, eip, capacity).held.Keys
            == t.held.Keys + (if eip != EMPTY && eip !in t.held && |t.held| < capacity then {eip} else {})
    ensures |HitOf(t, eip, capacity).held| == |HitOf(t, eip, capacity).held.Keys|
    ensures eip != EMPTY && eip !in t.held && |t.held| < capacity ==> |HitOf(t, eip, capacity).held| == |t.held| + 1
  {
    if eip != EMPTY && eip !in t.held { assert t.held[eip := 1].Keys == t.held.Keys + {eip}; }
  }

  lemma Sizes(a: set<Word>, b: set<Word>)
    requires a <= b
    ensures |a| <= |b| && (|a| == |b| ==> a == b)
  {
    assert |b - a| == |b| - |a|;
    if |a| == |b| { assert b - a == {}; }
  }

  /** Over any hits: each held count is the number of hits on it, up to the limit, and the drops are the hits on the rest. */
  lemma {:induction false} CountsEveryHit(hits: seq<Word>, capacity: nat)
    ensures HitsOf(hits, capacity).total == |hits| && HitsOf(hits, capacity).dropped == Refused(hits, capacity)
    ensures CountsAre(HitsOf(hits, capacity).held, hits)
    decreases |hits|
  {
    hide HitOf, Admitted, Before, Last, CountsAre, Occurrences;
    if hits == [] {
      NoCounts();
    } else {
      BeforeIsShorter(hits);
      var front, eip := Before(hits), Last(hits);
      CountsEveryHit(front, capacity);
      HoldsTheAdmitted(front, capacity);
      HoldsTheAdmitted(hits, capacity);
      if eip != EMPTY && eip !in HitsOf(front, capacity).held && |HitsOf(front, capacity).held| < capacity {
        UnheldWasUnseen(front, eip, capacity);
      }
      MarkerIsNotHeld(front, capacity);
      CountsStay(HitsOf(front, capacity), hits, capacity);
      MarkerIsNotHeld(hits, capacity);
      DropsStay(HitsOf(front, capacity), hits, capacity);
    }
  }

  lemma BeforeIsShorter(hits: seq<Word>)
    requires hits != []
    ensures |Before(hits)| == |hits| - 1
  {
  }

  lemma NoCounts()
    ensures CountsAre(map[], [])
  {
  }

  ghost predicate CountsAre(held: map<Word, nat>, hits: seq<Word>) {
    forall eip: Word | eip in held :: held[eip] == Min(Occurrences(hits, eip), COUNT_MAX)
  }

  lemma MarkerIsNotHeld(hits: seq<Word>, capacity: nat)
    ensures EMPTY !in HitsOf(hits, capacity).held
  {
    HoldsTheAdmitted(hits, capacity);
    if Admitted(hits, EMPTY, capacity) { AdmittedWasSeen(hits, EMPTY, capacity); }
  }

  lemma CountsStay(t: Table, hits: seq<Word>, capacity: nat)
    requires hits != [] && CountsAre(t.held, Before(hits)) && EMPTY !in t.held
    requires Last(hits) != EMPTY && Last(hits) !in t.held && |t.held| < capacity ==> Occurrences(Before(hits), Last(hits)) == 0
    ensures CountsAre(HitOf(t, Last(hits), capacity).held, hits)
  {
    hide Before, Last;
    var held := HitOf(t, Last(hits), capacity).held;
    forall eip: Word | eip in held ensures held[eip] == Min(Occurrences(hits, eip), COUNT_MAX) {
      assert Occurrences(hits, eip) == Occurrences(Before(hits), eip) + (if Last(hits) == eip then 1 else 0);
    }
  }

  lemma DropsStay(t: Table, hits: seq<Word>, capacity: nat)
    requires hits != [] && t.dropped == Refused(Before(hits), capacity) && t.total == |hits| - 1
    requires Last(hits) in HitOf(t, Last(hits), capacity).held <==> Admitted(hits, Last(hits), capacity)
    requires EMPTY !in HitOf(t, Last(hits), capacity).held
    ensures HitOf(t, Last(hits), capacity).total == |hits|
    ensures HitOf(t, Last(hits), capacity).dropped == Refused(hits, capacity)
  {
    hide Before, Last, Admitted;
  }

  ghost predicate TooMany(hits: seq<Word>, held: map<Word, nat>) {
    exists eip: Word :: eip in held && Occurrences(hits, eip) > COUNT_MAX
  }

  /** A hit is lost to a count at its limit exactly when some held address was hit more often than a count can say. */
  lemma {:induction false} SaturatedExactly(hits: seq<Word>, capacity: nat)
    ensures HitsOf(hits, capacity).saturated > 0 <==> TooMany(hits, HitsOf(hits, capacity).held)
    decreases |hits|
  {
    hide HitOf, Before, Last, Occurrences, Admitted;
    if hits == [] {
      NoCounts();
    } else {
      BeforeIsShorter(hits);
      var front, eip := Before(hits), Last(hits);
      var t := HitsOf(front, capacity);
      SaturatedExactly(front, capacity);
      CountsEveryHit(front, capacity);
      MarkerIsNotHeld(front, capacity);
      if eip != EMPTY && eip !in t.held && |t.held| < capacity { UnheldWasUnseen(front, eip, capacity); }
      StillTooMany(t, hits, capacity);
    }
  }

  lemma StillTooMany(t: Table, hits: seq<Word>, capacity: nat)
    requires hits != [] && CountsAre(t.held, Before(hits)) && EMPTY !in t.held
    requires Last(hits) != EMPTY && Last(hits) !in t.held && |t.held| < capacity ==> Occurrences(Before(hits), Last(hits)) == 0
    requires t.saturated > 0 <==> TooMany(Before(hits), t.held)
    ensures HitOf(t, Last(hits), capacity).saturated > 0 <==> TooMany(hits, HitOf(t, Last(hits), capacity).held)
  {
    hide Before, Last;
    var front, last, u := Before(hits), Last(hits), HitOf(t, Last(hits), capacity);
    assert forall e: Word :: Occurrences(hits, e) == Occurrences(front, e) + (if last == e then 1 else 0);
    if TooMany(front, t.held) {
      var e: Word :| e in t.held && Occurrences(front, e) > COUNT_MAX;
      assert e in u.held && Occurrences(hits, e) > COUNT_MAX;
    } else if last in t.held && t.held[last] == COUNT_MAX {
      assert last in u.held && Occurrences(hits, last) > COUNT_MAX;
    }
  }

  /** An address taken in now was never hit before: dropped once, always dropped. */
  lemma UnheldWasUnseen(hits: seq<Word>, eip: Word, capacity: nat)
    requires eip != EMPTY && eip !in HitsOf(hits, capacity).held && |HitsOf(hits, capacity).held| < capacity
    ensures Occurrences(hits, eip) == 0
  {
    HoldsTheAdmitted(hits, capacity);
    Unseen(hits, eip);
  }

  lemma {:induction false} Unseen(hits: seq<Word>, eip: Word)
    requires eip != EMPTY && eip !in Seen(hits)
    ensures Occurrences(hits, eip) == 0
  {
    if hits != [] { Unseen(Before(hits), eip); }
  }

  // ---- how large a table a hint gives ----

  function Doubled(hint: Word): Word {
    Lo32((if hint < 64 then 64 else hint) * 2)
  }

  /** The least power of two that reaches v, none above 2^30. */
  function RoundUp(v: Word, k: nat): (p: nat)
    requires k <= 30
    decreases 30 - k
  {
    if Pow2(k) < v && k < 30 then RoundUp(v, k + 1) else Pow2(k)
  }

  function Capacity(hint: Word): nat {
    RoundUp(Doubled(hint), 0) / 2
  }

  lemma {:induction false} RoundUpMeaning(v: Word, k: nat)
    requires k <= 30
    ensures exists n: nat :: k <= n <= 30 && RoundUp(v, k) == Pow2(n)
    ensures RoundUp(v, k) >= v <==> v <= LARGEST || Pow2(k) >= v
    decreases 30 - k
  {
    Pow2Thirty();
    if Pow2(k) < v && k < 30 {
      RoundUpMeaning(v, k + 1);
      PowUpTo(k + 1, 30);
    } else {
      assert RoundUp(v, k) == Pow2(k);
      PowUpTo(k, 30);
    }
  }

  lemma {:induction false} PowUpTo(m: nat, n: nat)
    requires m <= n
    ensures Pow2(m) <= Pow2(n)
  {
    if m < n { PowUpTo(m, n - 1); }
  }

  /**
   The header says a table made for `hint` addresses holds that many without a
   drop. That is so exactly up to 2^29; past it the size is cut, and from 2^31
   doubling the hint wraps around.
   */
  lemma HintIsHeldExactly(hint: Word)
    ensures Capacity(hint) >= hint <==> hint <= 0x2000_0000
  {
    hide Pow2, RoundUp;
    var v := Doubled(hint);
    RoundUpMeaning(v, 0);
    Pow2Thirty();
    NoPower();
    var n: nat :| n <= 30 && RoundUp(v, 0) == Pow2(n);
    PowUpTo(n, 30);
    Halves(n);
  }

  /** Up to 2^29 the table holds the least power of two that reaches the hint, 64 at the least. */
  lemma CapacityExactly(hint: Word)
    requires hint <= 0x2000_0000
    ensures var least := if hint < 64 then 64 else hint;
      IsPower(Capacity(hint)) && Capacity(hint) >= least && Capacity(hint) / 2 < least
  {
    hide Pow2, RoundUp;
    var least: nat := if hint < 64 then 64 else hint;
    assert Doubled(hint) == 2 * least;
    RoundUpLeast(Doubled(hint), 0);
    NoPower();
    Pow2Thirty();
    var n: nat :| LeastPower(Doubled(hint), RoundUp(Doubled(hint), 0), n);
    RoundUpMeaning(Doubled(hint), 0);
    assert n != 0;
    OneDown(n);
    HalfOfTwice(Pow2(n - 1));
    assert IsPower(Pow2(n - 1));
  }

  ghost predicate IsPower(p: nat) {
    exists n: nat :: p == Pow2(n)
  }

  lemma OneDown(n: nat)
    requires n > 0
    ensures Pow2(n) == 2 * Pow2(n - 1)
  {
  }

  predicate LeastPower(v: Word, p: nat, n: nat) {
    n <= 30 && p == Pow2(n) && (n == 0 || Pow2(n - 1) < v)
  }

  lemma {:induction false} RoundUpLeast(v: Word, k: nat)
    requires k <= 30 && (k == 0 || Pow2(k - 1) < v)
    ensures exists n: nat :: LeastPower(v, RoundUp(v, k), n)
    decreases 30 - k
  {
    hide Pow2;
    if Pow2(k) < v && k < 30 {
      RoundUpLeast(v, k + 1);
      assert RoundUp(v, k) == RoundUp(v, k + 1);
    } else {
      assert LeastPower(v, RoundUp(v, k), k);
    }
  }

  /** Every address but the marker can be held, and a count goes up to 2^64 - 1. */
  lemma OnlyTheMarkerIsDropped(eip: Word, capacity: nat)
    requires capacity > 0
    ensures HitOf(NO_HITS, eip, capacity).held == if eip == 0xFFFF_FFFF then map[] else map[eip := 1]
    ensures COUNT_MAX == 18446744073709551615
  {
  }

  lemma Pow2Thirty()
    ensures Pow2(30) == LARGEST
  {
    assert Pow2(15) == 0x8000;
    Pow2Add(15, 15);
  }

  lemma NoPower()
    ensures Pow2(0) == 1
  {
  }

  lemma Halves(n: nat)
    ensures n > 0 ==> Pow2(n) == 2 * (Pow2(n) / 2)
    ensures Pow2(n) / 2 < Pow2(n)
  {
    if n > 0 { HalfOfTwice(Pow2(n - 1)); } else { assert Pow2(n) == 1; }
  }

  lemma HalfOfTwice(p: nat)
    requires p > 0
    ensures 2 * p / 2 == p && p < 2 * p
  {
  }

  // ---- probing ----

  function Mix32(x: Word): Word {
    var y := Lo32(x * 0x9E37_79B9);
    Xor(y, y / 0x8000)
  }

  function Start(x: Word, n: nat): (i: nat)
    requires n > 0
    ensures i < n
  {
    Mix32(x) % n
  }

  /** The slot d steps on, and the steps to a slot, round the end of the table. */
  function Slot(h: nat, d: nat, n: nat): (i: nat)
    requires h < n && d < n
    ensures i < n
  {
    if h + d < n then h + d else h + d - n
  }

  function Offset(h: nat, j: nat, n: nat): (d: nat)
    requires h < n && j < n
    ensures d < n && Slot(h, d, n) == j
  {
    if j >= h then j - h else j + n - h
  }

  ghost predicate OneSlotEach(k: seq<Word>) {
    forall i: nat, j: nat | i < |k| && j < |k| && k[i] != EMPTY && k[i] == k[j] :: i == j
  }

  /** The first d slots from h are taken. */
  ghost predicate Path(k: seq<Word>, h: nat, d: nat)
    requires h < |k| && d <= |k|
  {
    forall e: nat | e < d :: k[Slot(h, e, |k|)] != EMPTY
  }

  /** No probe for a key meets a free slot before the key. */
  ghost predicate Reached(k: seq<Word>) {
    forall j: nat | j < |k| && k[j] != EMPTY :: Path(k, Start(k[j], |k|), Offset(Start(k[j], |k|), j, |k|))
  }

  ghost predicate Counts(k: seq<Word>, c: seq<nat>, m: map<Word, nat>) {
    && |k| == |c|
    && (forall j: nat | j < |k| && k[j] != EMPTY :: k[j] in m && m[k[j]] == c[j])
    && (forall j: nat | j < |k| && k[j] == EMPTY :: c[j] == 0)
    && (forall key: Word | key in m :: key != EMPTY && key in k)
  }

  ghost predicate Holds(k: seq<Word>, c: seq<nat>, m: map<Word, nat>) {
    OneSlotEach(k) && Reached(k) && Counts(k, c, m)
  }

  function KeysIn(k: seq<Word>): (s: set<Word>)
    ensures forall j: nat | j < |k| :: k[j] in s
    ensures forall x | x in s :: x in k
  {
    if k == [] then {} else KeysIn(k[..|k| - 1]) + {k[|k| - 1]}
  }

  lemma {:induction false} AsManyKeys(k: seq<Word>)
    requires OneSlotEach(k) && EMPTY !in k
    ensures |KeysIn(k)| == |k|
  {
    if k != [] {
      var front := k[..|k| - 1];
      assert OneSlotEach(front) by { assert forall i: nat | i < |front| :: front[i] == k[i]; }
      AsManyKeys(front);
      assert k[|k| - 1] !in KeysIn(front);
    }
  }

  /** Fewer keys than slots leave a free slot. */
  lemma FreeSlot(k: seq<Word>, c: seq<nat>, m: map<Word, nat>) returns (j: nat)
    requires Holds(k, c, m) && |m| < |k|
    ensures j < |k| && k[j] == EMPTY
  {
    if EMPTY !in k {
      AsManyKeys(k);
      Sizes(KeysIn(k), m.Keys);
      assert false;
    }
    j :| j < |k| && k[j] == EMPTY;
  }

  /** A probe that ends at a free slot has shown the key is not held. */
  lemma NotHeld(k: seq<Word>, c: seq<nat>, m: map<Word, nat>, eip: Word, d: nat)
    requires Holds(k, c, m) && d < |k| && eip != EMPTY
    requires forall e: nat | e < d :: k[Slot(Start(eip, |k|), e, |k|)] != eip
    requires k[Slot(Start(eip, |k|), d, |k|)] == EMPTY
    ensures eip !in m
  {
    hide Start;
  }

  lemma Bumped(k: seq<Word>, c: seq<nat>, m: map<Word, nat>, i: nat, v: nat)
    requires Holds(k, c, m) && i < |k| && k[i] != EMPTY
    ensures Holds(k, c[i := v], m[k[i] := v])
  {
    hide Reached;
  }

  lemma Inserted(k: seq<Word>, c: seq<nat>, m: map<Word, nat>, eip: Word, d: nat, v: nat)
    requires Holds(k, c, m) && d < |k| && eip != EMPTY && eip !in m
    requires Path(k, Start(eip, |k|), d) && k[Slot(Start(eip, |k|), d, |k|)] == EMPTY
    ensures var i := Slot(Start(eip, |k|), d, |k|); Holds(k[i := eip], c[i := v], m[eip := v])
  {
    hide Start;
    var n := |k|;
    var h := Start(eip, n);
    var i := Slot(h, d, n);
    var k', c', m' := k[i := eip], c[i := v], m[eip := v];
    assert OneSlotEach(k') by { hide Reached, Path; }
    assert Counts(k', c', m') by {
      hide Reached, Path;
      forall key: Word | key in m' ensures key != EMPTY && key in k' {
        if key == eip { assert k'[i] == key; }
        else { var j: nat :| j < n && k[j] == key; assert k'[j] == key; }
      }
    }
    forall j: nat | j < n && k'[j] != EMPTY ensures Path(k', Start(k'[j], n), Offset(Start(k'[j], n), j, n)) {
      if j == i {
        assert Offset(h, i, n) == d;
        Taken(k, i, eip, h, d);
      } else {
        Taken(k, i, eip, Start(k[j], n), Offset(Start(k[j], n), j, n));
      }
    }
  }

  lemma Taken(k: seq<Word>, i: nat, eip: Word, h: nat, d: nat)
    requires i < |k| && h < |k| && d <= |k| && eip != EMPTY && Path(k, h, d)
    ensures Path(k[i := eip], h, d)
  {
  }

  function Sum(c: seq<nat>): nat {
    if c == [] then 0 else Sum(c[..|c| - 1]) + c[|c| - 1]
  }

  lemma {:induction false} SumAfter(c: seq<nat>, i: nat, v: nat)
    requires i < |c|
    ensures Sum(c[i := v]) == Sum(c) - c[i] + v
  {
    var front := c[..|c| - 1];
    if i == |c| - 1 {
      assert c[i := v][..|c| - 1] == front;
    } else {
      SumAfter(front, i, v);
      assert c[i := v][..|c| - 1] == front[i := v];
    }
  }

  lemma {:induction false} SumOfZeros(c: seq<nat>)
    requires forall j: nat | j < |c| :: c[j] == 0
    ensures Sum(c) == 0
  {
    if c != [] { SumOfZeros(c[..|c| - 1]); }
  }

  // ---- the table ----

  /** Every hit is in a count, was dropped, or fell on a count at its limit. */
  ghost predicate Accounted(t: Table, c: seq<nat>) {
    && t.total == Sum(c) + t.dropped + t.saturated
    && (t.saturated > 0 ==> COUNT_MAX in c)
  }

  lemma Masked(x: Word, bits: nat)
    requires bits <= 30
    ensures Pow2(bits) <= LARGEST && And(x, Pow2(bits) - 1) == x % Pow2(bits)
  {
    hide Pow2, Bitwise;
    Pow2Thirty();
    PowUpTo(bits, 30);
    AndOnes(x, bits, 32);
  }

  lemma Steps(h: nat, d: nat, n: nat)
    requires h < n && d < n
    ensures d + 1 < n ==> (Slot(h, d, n) + 1) % n == Slot(h, d + 1, n)
  {
  }

  /** Where probing starts, and goes, is inside the table: the mask reduces modulo its size. */
  lemma InTable(x: Word, i: Word, mask: Word, bits: nat)
    requires bits <= 30 && i + 1 <= Pow2(bits) == mask + 1
    ensures i + 1 <= LARGEST && And(Mix32(x), mask) == Start(x, mask + 1) && And(i + 1, mask) == (i + 1) % (mask + 1)
  {
    hide Pow2, Mix32, And;
    Masked(0, bits);
    Masked(Mix32(x), bits);
    Masked(i + 1, bits);
  }

  /** The arrays stand for the bounded map, with every hit accounted for. */
  ghost predicate StandsFor(k: seq<Word>, c: seq<nat>, t: Table) {
    Holds(k, c, t.held) && Accounted(t, c)
  }

  lemma HitHeld(k: seq<Word>, c: seq<nat>, t: Table, i: nat, capacity: nat)
    requires StandsFor(k, c, t) && i < |k| && k[i] != EMPTY
    ensures k[i] in t.held && i < |c|
    ensures c[i] != COUNT_MAX ==> StandsFor(k, c[i := c[i] + 1], HitOf(t, k[i], capacity))
    ensures c[i] == COUNT_MAX ==> StandsFor(k, c, HitOf(t, k[i], capacity))
    ensures |HitOf(t, k[i], capacity).held| == |t.held|
  {
    hide OneSlotEach, Reached, Sum;
    Bumped(k, c, t.held, i, c[i] + 1);
    SumAfter(c, i, c[i] + 1);
    if t.saturated > 0 && c[i] != COUNT_MAX {
      var j: nat :| j < |c| && c[j] == COUNT_MAX;
      assert c[i := c[i] + 1][j] == COUNT_MAX;
    }
    assert t.held[k[i] := c[i] + 1].Keys == t.held.Keys;
    assert |t.held[k[i] := c[i] + 1].Keys| == |t.held[k[i] := c[i] + 1]|;
  }

  lemma HitDropped(k: seq<Word>, c: seq<nat>, t: Table, eip: Word, capacity: nat)
    requires StandsFor(k, c, t) && (eip == EMPTY || (eip !in t.held && |t.held| >= capacity))
    ensures StandsFor(k, c, HitOf(t, eip, capacity))
    ensures HitOf(t, eip, capacity) == t.(total := t.total + 1, dropped := t.dropped + 1)
  {
    hide Holds, Sum;
  }

  lemma HitAdmitted(k: seq<Word>, c: seq<nat>, t: Table, eip: Word, d: nat, capacity: nat)
    requires StandsFor(k, c, t) && d < |k| && eip != EMPTY && eip !in t.held && |t.held| < capacity
    requires Path(k, Start(eip, |k|), d) && k[Slot(Start(eip, |k|), d, |k|)] == EMPTY
    ensures var i := Slot(Start(eip, |k|), d, |k|);
      i < |c| && StandsFor(k[i := eip], c[i := 1], HitOf(t, eip, capacity))
    ensures |HitOf(t, eip, capacity).held| == |t.held| + 1
  {
    hide OneSlotEach, Reached, Sum, Start, Path;
    var i := Slot(Start(eip, |k|), d, |k|);
    Inserted(k, c, t.held, eip, d, 1);
    SumAfter(c, i, 1);
    KeysAfter(t, eip, capacity);
    if t.saturated > 0 {
      var j: nat :| j < |c| && c[j] == COUNT_MAX;
      assert c[i := 1][j] == COUNT_MAX;
    }
  }

  /** The probe so far: d slots from the start, all taken by other keys. */
  ghost predicate Probing(k: seq<Word>, eip: Word, d: nat) {
    d < |k| && forall e: nat | e < d :: k[Slot(Start(eip, |k|), e, |k|)] != EMPTY && k[Slot(Start(eip, |k|), e, |k|)] != eip
  }

  /** A further slot: the probe never gets all the way round. */
  lemma ProbeOn(k: seq<Word>, c: seq<nat>, m: map<Word, nat>, eip: Word, d: nat)
    requires Holds(k, c, m) && |m| < |k| && Probing(k, eip, d)
    requires k[Slot(Start(eip, |k|), d, |k|)] != EMPTY && k[Slot(Start(eip, |k|), d, |k|)] != eip
    ensures d + 1 < |k| && Probing(k, eip, d + 1) && (Slot(Start(eip, |k|), d, |k|) + 1) % |k| == Slot(Start(eip, |k|), d + 1, |k|)
  {
    hide Holds, Start;
    var j := FreeSlot(k, c, m);
    assert Slot(Start(eip, |k|), Offset(Start(eip, |k|), j, |k|), |k|) == j;
    Steps(Start(eip, |k|), d, |k|);
  }

  lemma ProbeEnds(k: seq<Word>, c: seq<nat>, m: map<Word, nat>, eip: Word, d: nat)
    requires Holds(k, c, m) && Probing(k, eip, d) && eip != EMPTY
    requires k[Slot(Start(eip, |k|), d, |k|)] == EMPTY
    ensures eip !in m && Path(k, Start(eip, |k|), d)
  {
    hide Holds, Start;
    NotHeld(k, c, m, eip, d);
  }

  class Profile {
    const keys: array<Word>
    const counts: array<nat>
    const mask: Word
    const capacity: nat
    var distinct: nat
    var total: nat
    var dropped: nat
    ghost const bits: nat
    /** What the table stands for. */
    ghost var table: Table

    ghost predicate Valid()
      reads this, keys, counts
    {
      Indexed() && total == table.total % (COUNT_MAX + 1)
    }

    ghost predicate Indexed()
      reads this`distinct, this`dropped, this`table, keys, counts
    {
      && bits <= 30 && keys.Length == counts.Length == Pow2(bits) && mask == Pow2(bits) - 1 && capacity == Pow2(bits) / 2
      && StandsFor(keys[..], counts[..], table) && distinct == |table.held| && distinct <= capacity
      && dropped == table.dropped % (COUNT_MAX + 1)
    }

    constructor (hint: Word)
      ensures Valid() && table == NO_HITS && capacity == Capacity(hint) && fresh(keys) && fresh(counts)
    {
      hide Pow2, Doubled, Holds, RoundUp;
      var size := RoundUpPow2(Doubled(hint));
      RoundUpMeaning(Doubled(hint), 0);
      ghost var n: nat :| n <= 30 && size == Pow2(n);
      Masked(0, n);
      keys := new Word[size](_ => EMPTY);
      counts := new nat[size](_ => 0);
      mask := size - 1;
      capacity := size / 2;
      distinct, total, dropped := 0, 0, 0;
      bits := n;
      table := NO_HITS;
      new;
      NothingHeld(keys[..], counts[..]);
    }

    lemma SameSize()
      requires Indexed()
      ensures distinct == |table.held| && keys.Length == counts.Length
    {
    }

    /** The slot where the probe for an address ends: its own, or, for one not held, the first free one. */
    method Probe(eip: Word) returns (i: nat, ghost d: nat)
      requires Indexed() && eip != EMPTY
      ensures i < keys.Length && d < keys.Length && i == Slot(Start(eip, keys.Length), d, keys.Length)
      ensures keys[i] == eip || (keys[i] == EMPTY && Path(keys[..], Start(eip, keys.Length), d))
      ensures keys[i] == eip <==> eip in table.held
    {
      hide StandsFor, Holds, Pow2, Start, Mix32, And, Path, Probing, Slot;
      ghost var k := keys[..];
      Parts(k, counts[..], table);
      Halves(bits);
      InTable(eip, 0, mask, bits);
      ProbeStarts(k, eip);
      i, d := And(Mix32(eip), mask), 0;
      while keys[i] != eip && keys[i] != EMPTY
        invariant d < |k| && i == Slot(Start(eip, |k|), d, |k|) && Probing(k, eip, d)
        decreases |k| - d
      {
        assert k[i] == keys[i];
        ProbeOn(k, counts[..], table.held, eip, d);
        InTable(eip, i, mask, bits);
        i := And(i + 1, mask);
        d := d + 1;
      }
      assert k[i] == keys[i];
      if keys[i] == EMPTY { ProbeEnds(k, counts[..], table.held, eip, d); } else { FoundIsHeld(k, counts[..], table.held, i); }
    }

    /** One entry into the block at an address: the table afterwards is the bounded map afterwards. */
    method Hit(eip: Word)
      requires Valid()
      modifies this`distinct, this`total, this`dropped, this`table, keys, counts
      ensures Valid() && table == HitOf(old(table), eip, capacity)
    {
      hide HitOf, Indexed;
      TotalAfter(table, eip, capacity);
      total := (total + 1) % (COUNT_MAX + 1);
      if eip == EMPTY {
        Drop(eip);
      } else {
        Count(eip);
      }
    }

    method Count(eip: Word)
      requires Indexed() && eip != EMPTY
      modifies this`distinct, this`dropped, this`table, keys, counts
      ensures Indexed() && table == HitOf(old(table), eip, capacity)
    {
      hide HitOf, Holds, Pow2, Start, Path, Slot, Indexed;
      SameSize();
      ghost var d;
      var i;
      i, d := Probe(eip);
      if keys[i] == eip {
        CountAgain(i);
      } else if distinct >= capacity {
        Drop(eip);
      } else {
        Admit(eip, i, d);
      }
    }

    method Drop(eip: Word)
      requires Indexed() && (eip == EMPTY || (eip !in table.held && distinct >= capacity))
      modifies this`dropped, this`table
      ensures Indexed() && table == HitOf(old(table), eip, capacity)
    {
      hide HitOf, StandsFor, Pow2;
      HitDropped(keys[..], counts[..], table, eip, capacity);
      dropped := (dropped + 1) % (COUNT_MAX + 1);
      table := HitOf(table, eip, capacity);
    }

    /** A held address: its count saturates and does not wrap. */
    method CountAgain(i: nat)
      requires Indexed() && i < keys.Length && keys[i] != EMPTY
      modifies this`table, counts
      ensures Indexed() && table == HitOf(old(table), keys[i], capacity)
    {
      hide HitOf, StandsFor, Pow2;
      ghost var c := counts[..];
      TotalAfter(table, keys[i], capacity);
      HitHeld(keys[..], c, table, i, capacity);
      table := HitOf(table, keys[i], capacity);
      if counts[i] != COUNT_MAX {
        counts[i] := counts[i] + 1;
        assert counts[..] == c[i := c[i] + 1];
      }
    }

    /** A new address, in the free slot its probe ended at. */
    method Admit(eip: Word, i: nat, ghost d: nat)
      requires Indexed() && eip != EMPTY && eip !in table.held && distinct < capacity
      requires i < keys.Length && d < keys.Length && i == Slot(Start(eip, keys.Length), d, keys.Length)
      requires keys[i] == EMPTY && Path(keys[..], Start(eip, keys.Length), d)
      modifies this`distinct, this`table, keys, counts
      ensures Indexed() && table == HitOf(old(table), eip, capacity)
    {
      hide HitOf, StandsFor, Holds, Pow2, Start, Path, Slot;
      ghost var k, c := keys[..], counts[..];
      TotalAfter(table, eip, capacity);
      HitAdmitted(k, c, table, eip, d, capacity);
      table := HitOf(table, eip, capacity);
      keys[i], counts[i], distinct := eip, 1, distinct + 1;
      assert keys[..] == k[i := eip] && counts[..] == c[i := 1];
    }
  }

  lemma NothingHeld(k: seq<Word>, c: seq<nat>)
    requires |k| == |c| && (forall j: nat | j < |k| :: k[j] == EMPTY) && (forall j: nat | j < |c| :: c[j] == 0)
    ensures StandsFor(k, c, NO_HITS)
  {
    SumOfZeros(c);
  }

  lemma FoundIsHeld(k: seq<Word>, c: seq<nat>, m: map<Word, nat>, i: nat)
    requires Holds(k, c, m) && i < |k| && k[i] != EMPTY
    ensures k[i] in m
  {
  }

  lemma Parts(k: seq<Word>, c: seq<nat>, t: Table)
    requires StandsFor(k, c, t)
    ensures Holds(k, c, t.held) && |k| == |c|
  {
  }

  lemma ProbeStarts(k: seq<Word>, eip: Word)
    requires |k| > 0
    ensures Probing(k, eip, 0) && Slot(Start(eip, |k|), 0, |k|) == Start(eip, |k|)
  {
  }

  lemma TotalAfter(t: Table, eip: Word, capacity: nat)
    ensures HitOf(t, eip, capacity).total == t.total + 1
    ensures eip in t.held && eip != EMPTY ==> HitOf(t, eip, capacity).dropped == t.dropped
    ensures eip !in t.held && |t.held| < capacity && eip != EMPTY ==> HitOf(t, eip, capacity).dropped == t.dropped
  {
  }

  method RoundUpPow2(v: Word) returns (p: nat)
    ensures p == RoundUp(v, 0)
  {
    ghost var k: nat := 0;
    p := 1;
    while p < v && p < LARGEST
      invariant k <= 30 && p == Pow2(k) && RoundUp(v, 0) == RoundUp(v, k)
      decreases 30 - k
    {
      PowBelow(k);
      p := p * 2;
      k := k + 1;
    }
    PowBelow(k);
  }

  /** The powers below 2^30 are those with a smaller exponent. */
  lemma PowBelow(k: nat)
    requires k <= 30
    ensures Pow2(k) < LARGEST <==> k < 30
  {
    hide Pow2;
    Pow2Thirty();
    if k < 30 {
      PowUpTo(k + 1, 30);
      Twice(k);
    }
  }

  lemma Twice(k: nat)
    ensures Pow2(k + 1) == 2 * Pow2(k)
  {
  }
}
