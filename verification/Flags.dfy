/**
 The lazy EFLAGS state: an operation records what it did and each flag is
 derived when something asks. Arithmetic on words is kept in small leaf
 functions; everything above them speaks of tuples and never of bits.
 */
module Flags {
  import opened Words

  datatype Kind = None | Add | Sub | Logic | Inc | Dec | Shl | Shr | Sar | Explicit

  /** The recorded operation. `a` is the EFLAGS word when the kind is Explicit; `b` is the count of a shift. */
  datatype Tuple = Tuple(kind: Kind, a: Word, b: Word, r: Word, w: Width, carryIn: Word)

  /** The six arithmetic flags. */
  datatype Six = Six(cf: bool, pf: bool, af: bool, zf: bool, sf: bool, of: bool)

  // ---- the EFLAGS word ----

  /** The fixed bits 1 and 9, and the six flags at their positions. */
  function WordOf(s: Six): Word {
    0x202 + Num(s.cf) + 0x4 * Num(s.pf) + 0x10 * Num(s.af) + 0x40 * Num(s.zf) + 0x80 * Num(s.sf) + 0x800 * Num(s.of)
  }

  predicate HasCf(word: Word) {
    word % 2 == 1
  }

  function SixOf(word: Word): Six {
    Six(HasCf(word), word / 0x4 % 2 == 1, word / 0x10 % 2 == 1,
        word / 0x40 % 2 == 1, word / 0x80 % 2 == 1, word / 0x800 % 2 == 1)
  }

  // ---- leaves ----

  function Sum(a: Word, b: Word, w: Width): Word {
    Lo(a + b, w)
  }

  function Diff(a: Word, b: Word, w: Width): Word {
    Lo(a - b, w)
  }

  predicate Below(a: Word, b: Word, w: Width) {
    Lo(a, w) < Lo(b, w)
  }

  predicate IsZero(v: Word, w: Width) {
    Lo(v, w) == 0
  }

  /** Bit 4 of a ^ b ^ r: the carry or borrow out of bit 3. */
  predicate HalfCarry(a: Word, b: Word, r: Word) {
    (a / 0x10 + b / 0x10 + r / 0x10) % 2 == 1
  }

  predicate IsMostNegative(v: Word, w: Width) {
    Lo(v, w) == Half(w)
  }

  /** The last bit a shift by a nonzero count moved out. Past the width only SAR still has bits: the sign. */
  predicate ShiftOut(kind: Kind, a: Word, count: Word, w: Width) {
    if count > Bits(w) then kind == Sar && Msb(a, w)
    else if kind == Shl then Bit(a, Bits(w) - count)
    else count != 0 && Bit(a, count - 1)
  }

  /** Signed overflow of an addition and of a subtraction, from the three sign bits. */
  predicate AddOverflow(a: Word, b: Word, r: Word, w: Width) {
    Msb(a, w) == Msb(b, w) && Msb(r, w) != Msb(a, w)
  }

  predicate SubOverflow(a: Word, b: Word, r: Word, w: Width) {
    Msb(a, w) != Msb(b, w) && Msb(r, w) != Msb(a, w)
  }

  // ---- the derivations ----

  predicate IsShift(k: Kind) {
    k == Shl || k == Shr || k == Sar
  }

  /** Only INC and DEC ever read `carryIn` again. */
  predicate CarryInIsLive(k: Kind) {
    k == Inc || k == Dec
  }

  predicate Cf(f: Tuple) {
    match f.kind
    case None => false
    case Explicit => HasCf(f.a)
    case Logic => false
    case Sub => Below(f.a, f.b, f.w)
    case Add => Below(f.r, f.a, f.w)
    case Inc => f.carryIn != 0
    case Dec => f.carryIn != 0
    case _ => ShiftOut(f.kind, f.a, f.b, f.w)
  }

  predicate Of(f: Tuple) {
    match f.kind
    case None => false
    case Explicit => SixOf(f.a).of
    case Logic => false
    case Sar => false
    case Add => AddOverflow(f.a, f.b, f.r, f.w)
    case Sub => SubOverflow(f.a, f.b, f.r, f.w)
    case Inc => IsMostNegative(f.r, f.w)
    case Dec => IsMostNegative(f.a, f.w)
    case Shl => Msb(f.r, f.w) != ShiftOut(Shl, f.a, f.b, f.w)
    case Shr => f.b == 1 && Msb(f.a, f.w)
  }

  predicate Af(f: Tuple) {
    match f.kind
    case None => false
    case Explicit => SixOf(f.a).af
    case Logic => false
    case Shl => true
    case Shr => true
    case Sar => true
    case _ => HalfCarry(f.a, f.b, f.r)
  }

  /** The six flags of a lazy state, each derived on its own. */
  function Derive(f: Tuple): Six {
    match f.kind
    case None => Six(false, false, false, false, false, false)
    case Explicit => SixOf(f.a)
    case _ => Six(Cf(f), EvenParity(f.r), Af(f), IsZero(f.r, f.w), Msb(f.r, f.w), Of(f))
  }

  /** The materialised EFLAGS word. */
  function Eflags(f: Tuple): Word {
    WordOf(Derive(f))
  }

  // ---- recording ----

  /** Record an operation. A shift by zero writes no flags at all and is refused by the source. */
  function Record(f: Tuple, kind: Kind, a: Word, b: Word, r: Word, w: Width): Tuple
    requires IsShift(kind) ==> b != 0
  {
    Tuple(kind, a, b, r, w, Num(Cf(f)))
  }

  /** Record a real EFLAGS word: POPFD, and the eager ADC and SBB results. */
  function RecordExplicit(word: Word): Tuple {
    Tuple(Explicit, word, 0, 0, W4, Num(HasCf(word)))
  }

  /** The flags of a + b + cin, from the untruncated sum. */
  function AdcFlags(a: Word, b: Word, cin: bool, r: Word, w: Width): Six {
    Six(Lo(a, w) + Lo(b, w) + Num(cin) >= Modulus(w), EvenParity(r), HalfCarry(Lo(a, w), Lo(b, w), Lo(r, w)),
        IsZero(r, w), Msb(r, w), AddOverflow(a, b, r, w))
  }

  /** The flags of a - b - cin, from the untruncated difference. */
  function SbbFlags(a: Word, b: Word, cin: bool, r: Word, w: Width): Six {
    Six(Lo(a, w) - Lo(b, w) - Num(cin) < 0, EvenParity(r), HalfCarry(Lo(a, w), Lo(b, w), Lo(r, w)),
        IsZero(r, w), Msb(r, w), SubOverflow(a, b, r, w))
  }

  // ---- what a recording operation leaves behind ----

  predicate IsCount(b: Word) {
    1 <= b <= 31
  }

  predicate IsBit(v: Word) {
    v == 0 || v == 1
  }

  /** Operands within the width, the result the operation's own. */
  predicate WellFormed(f: Tuple) {
    && IsBit(f.carryIn)
    && (f.kind == None || f.kind == Explicit
        || (Fits(f.a, f.w) && Fits(f.r, f.w) && (if IsShift(f.kind) then IsCount(f.b) else Fits(f.b, f.w))))
    && (f.kind == Add ==> f.r == Sum(f.a, f.b, f.w))
    && (f.kind == Sub ==> f.r == Diff(f.a, f.b, f.w))
    && (f.kind == Inc ==> f.b == 1 && f.r == Sum(f.a, 1, f.w))
    && (f.kind == Dec ==> f.b == 1 && f.r == Diff(f.a, 1, f.w))
  }

  /** Equal up to a `carryIn` that the recorded kind never reads: what a state comparison calls equal. */
  predicate Same(f: Tuple, g: Tuple) {
    && f.kind == g.kind && f.a == g.a && f.b == g.b && f.r == g.r && f.w == g.w
    && (CarryInIsLive(f.kind) ==> f.carryIn == g.carryIn)
  }

  /** Materialising the word and reading its bits gives back exactly the six lazy flags. */
  lemma WordRoundTrip(s: Six)
    ensures SixOf(WordOf(s)) == s
  {
  }

  lemma LoFits(v: int, w: Width)
    ensures Fits(Lo(v, w), w)
  {
  }

  lemma LoOfFits(v: Word, w: Width)
    requires Fits(v, w)
    ensures Lo(v, w) == v
  {
  }

  /** No flag reader can tell two states apart that differ in a dead `carryIn` only. */
  lemma SameFlags(f: Tuple, g: Tuple)
    requires Same(f, g)
    ensures Cf(f) == Cf(g) && Derive(f) == Derive(g) && Eflags(f) == Eflags(g)
  {
    hide Below, ShiftOut, HalfCarry, IsMostNegative, AddOverflow, SubOverflow, IsZero, Msb, EvenParity, SixOf, WordOf, HasCf;
  }

  // ---- the flags mean what the architecture says ----

  /** After ADD: CF is the carry out of the true sum, OF its failure to fit as a signed value. */
  lemma AddMeaning(a: Word, b: Word, w: Width)
    requires Fits(a, w) && Fits(b, w)
    ensures var r := Sum(a, b, w);
            && (Below(r, a, w) <==> a + b >= Modulus(w))
            && (AddOverflow(a, b, r, w) <==> Signed(r, w) != Signed(a, w) + Signed(b, w))
  {
    hide Lo, Msb, Signed, Modulus, Half, EvenParity, HalfCarry;
    AdcMeaning(a, b, false, w);
    ModulusIsTwoHalves(w);
    LoNear(a + b, w);
    LoNear(a, w);
    LoNear(Sum(a, b, w), w);
  }

  /** After SUB, CMP and NEG: CF is the borrow, OF the failure of the true difference to fit. */
  lemma SubMeaning(a: Word, b: Word, w: Width)
    requires Fits(a, w) && Fits(b, w)
    ensures var r := Diff(a, b, w);
            && (Below(a, b, w) <==> a < b)
            && (SubOverflow(a, b, r, w) <==> Signed(r, w) != Signed(a, w) - Signed(b, w))
  {
    SbbMeaning(a, b, false, w);
    hide Lo, Msb, Signed, Modulus, Half;
    LoNear(a, w);
    LoNear(b, w);
  }

  /** INC and DEC: their own OF rules are the signed overflow of adding or subtracting one. */
  lemma IncDecMeaning(a: Word, w: Width)
    requires Fits(a, w)
    ensures IsMostNegative(Sum(a, 1, w), w) <==> Signed(Sum(a, 1, w), w) != Signed(a, w) + 1
    ensures IsMostNegative(a, w) <==> Signed(Diff(a, 1, w), w) != Signed(a, w) - 1
  {
    hide Lo, Signed, Modulus, Half;
    ModulusIsTwoHalves(w);
    LoNear(a + 1, w);
    LoNear(a - 1, w);
    LoNear(a, w);
    LoNear(Sum(a, 1, w), w);
    SignedFits(a, w);
    SignedFits(Sum(a, 1, w), w);
    SignedFits(Diff(a, 1, w), w);
  }

  /** ADC: the result is the true sum less the carry out, and OF its failure to fit, carry-in included. */
  lemma AdcMeaning(a: Word, b: Word, cin: bool, w: Width)
    requires Fits(a, w) && Fits(b, w)
    ensures var r := Lo(a + b + Num(cin), w);
            var s := AdcFlags(a, b, cin, r, w);
            && r == a + b + Num(cin) - (if s.cf then Modulus(w) else 0)
            && (s.of <==> Signed(r, w) != Signed(a, w) + Signed(b, w) + Num(cin))
  {
    hide Lo, Msb, Signed, Modulus, Half, HalfCarry, EvenParity, IsZero;
    var r := Lo(a + b + Num(cin), w);
    LoNear(a + b + Num(cin), w);
    LoNear(a, w);
    LoNear(b, w);
    Signs(a, b, r, w);
  }

  /** SBB: the result is the true difference plus the borrow, and OF its failure to fit. */
  lemma SbbMeaning(a: Word, b: Word, cin: bool, w: Width)
    requires Fits(a, w) && Fits(b, w)
    ensures var r := Lo(a - b - Num(cin), w);
            var s := SbbFlags(a, b, cin, r, w);
            && r == a - b - Num(cin) + (if s.cf then Modulus(w) else 0)
            && (s.of <==> Signed(r, w) != Signed(a, w) - Signed(b, w) - Num(cin))
  {
    hide Lo, Msb, Signed, Modulus, Half, HalfCarry, EvenParity, IsZero;
    var r := Lo(a - b - Num(cin), w);
    LoNear(a - b - Num(cin), w);
    LoNear(a, w);
    LoNear(b, w);
    Signs(a, b, r, w);
  }

  lemma Signs(a: Word, b: Word, r: Word, w: Width)
    requires Fits(a, w) && Fits(b, w) && Fits(r, w)
    ensures Modulus(w) == 2 * Half(w) && Half(w) > 0
    ensures forall v | v in [a, b, r] ::
      && (Msb(v, w) <==> v >= Half(w))
      && Signed(v, w) == if v >= Half(w) then v - Modulus(w) else v
  {
    hide Lo, Msb, Signed, Modulus, Half;
    ModulusIsTwoHalves(w);
    forall v | v in [a, b, r] ensures Fits(v, w) {}
    MsbFits(a, w);
    MsbFits(b, w);
    MsbFits(r, w);
    SignedFits(a, w);
    SignedFits(b, w);
    SignedFits(r, w);
  }

  /** The lazily derived flags of ADD are the eager flags of ADC without a carry, and SUB's those of SBB. */
  lemma LazyIsEager(f: Tuple, a: Word, b: Word, w: Width)
    requires Fits(a, w) && Fits(b, w)
    ensures Derive(Record(f, Add, a, b, Sum(a, b, w), w)) == AdcFlags(a, b, false, Sum(a, b, w), w)
    ensures Derive(Record(f, Sub, a, b, Diff(a, b, w), w)) == SbbFlags(a, b, false, Diff(a, b, w), w)
  {
    hide Lo, Signed, EvenParity, HalfCarry, AddOverflow, SubOverflow, IsZero, Msb, Modulus;
    AddMeaning(a, b, w);
    SubMeaning(a, b, w);
    LoNear(a, w);
    LoNear(b, w);
    LoNear(a + b, w);
    LoNear(a - b, w);
    LoNear(Sum(a, b, w), w);
    LoNear(Diff(a, b, w), w);
  }
}
