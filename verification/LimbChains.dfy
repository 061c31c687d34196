/** Arithmetic of any length: ADC and SBB chains, with the loop's own INC, DEC and NOT between the limbs. */
module LimbChains {
  import opened Words
  import opened Flags
  import opened Alu

  function Times(m: int, v: int): int {
    m * v
  }

  /** The number little-endian limbs of a width stand for. */
  function Value(limbs: seq<Word>, w: Width): int {
    if limbs == [] then 0 else limbs[0] + Times(Modulus(w), Value(limbs[1..], w))
  }

  function Base(w: Width, n: nat): int {
    if n == 0 then 1 else Times(Modulus(w), Base(w, n - 1))
  }

  /** An instruction between two limbs, on any register and width: a counter stepped, a value complemented. */
  datatype Between = Between(op: UnaryOp, v: Word, w: Width)

  predicate KeepsCarry(s: Between) {
    s.op != NEG
  }

  function Skip(f: Tuple, between: seq<Between>): Tuple
    decreases |between|
  {
    if between == [] then f else Skip(Unary(between[0].op, between[0].v, between[0].w, f).f, between[1..])
  }

  /** INC, DEC and NOT leave CF as they found it, however many there are and whatever recorded it. */
  lemma {:induction false} SkipKeepsCarry(f: Tuple, between: seq<Between>)
    requires forall i | 0 <= i < |between| :: KeepsCarry(between[i])
    ensures Cf(Skip(f, between)) == Cf(f)
    decreases |between|
  {
    if between != [] {
      assert KeepsCarry(between[0]);
      var g := Unary(between[0].op, between[0].v, between[0].w, f).f;
      SkipKeepsCarry(g, between[1..]);
      UnaryKeepsCarry(between[0], f);
    }
    hide Unary, Cf;
  }

  /** Every instruction between the limbs is run, in order. */
  lemma {:induction false} SkipRunsEach(f: Tuple, between: seq<Between>, last: Between)
    ensures Skip(f, []) == f && Skip(f, between + [last]) == Unary(last.op, last.v, last.w, Skip(f, between)).f
    decreases |between|
  {
    hide Unary;
    if between == [] {
      assert [last][1..] == [];
    } else {
      assert (between + [last])[1..] == between[1..] + [last];
      SkipRunsEach(Unary(between[0].op, between[0].v, between[0].w, f).f, between[1..], last);
    }
  }

  lemma UnaryKeepsCarry(s: Between, f: Tuple)
    requires KeepsCarry(s)
    ensures Cf(Unary(s.op, s.v, s.w, f).f) == Cf(f)
  {
    hide Lo, ShiftOut, Below, HasCf;
  }

  datatype Limbs = Limbs(r: seq<Word>, f: Tuple)

  /** One ADC or SBB a limb, least significant first. */
  function Chain(op: Op, a: seq<Word>, b: seq<Word>, w: Width, f: Tuple, between: seq<seq<Between>>): Limbs
    requires |a| == |b| == |between|
  {
    if a == [] then Limbs([], f)
    else
      var out := Binary(op, a[0], b[0], w, f);
      var rest := Chain(op, a[1..], b[1..], w, Skip(out.f, between[0]), between[1..]);
      Limbs([out.r] + rest.r, rest.f)
  }

  lemma ChainStep(op: Op, a: seq<Word>, b: seq<Word>, w: Width, f: Tuple, between: seq<seq<Between>>)
    requires |a| == |b| == |between| && a != []
    ensures var out := Binary(op, a[0], b[0], w, f);
      var rest := Chain(op, a[1..], b[1..], w, Skip(out.f, between[0]), between[1..]);
      Chain(op, a, b, w, f, between) == Limbs([out.r] + rest.r, rest.f)
  {
    hide Binary, Skip;
  }

  lemma ValueSteps(a: seq<Word>, r: Word, rest: seq<Word>, w: Width)
    requires a != []
    ensures Value(a, w) == a[0] + Times(Modulus(w), Value(a[1..], w)) && Base(w, |a|) == Times(Modulus(w), Base(w, |a| - 1))
    ensures Value([r] + rest, w) == r + Times(Modulus(w), Value(rest, w))
  {
    hide Modulus, Times;
    assert ([r] + rest)[1..] == rest;
  }

  ghost predicate Clean(a: seq<Word>, b: seq<Word>, w: Width, between: seq<seq<Between>>) {
    && |a| == |b| == |between|
    && (forall i | 0 <= i < |a| :: Fits(a[i], w) && Fits(b[i], w))
    && (forall i, j | 0 <= i < |between| && 0 <= j < |between[i]| :: KeepsCarry(between[i][j]))
  }

  lemma AdcLimb(a: Word, b: Word, w: Width, f: Tuple)
    requires Fits(a, w) && Fits(b, w)
    ensures var out := Binary(ADC, a, b, w, f);
      out.r + (if Cf(out.f) then Modulus(w) else 0) == a + b + Num(Cf(f))
  {
    hide Lo, Cf, WordOf, SixOf, HalfCarry, AddOverflow, Msb, IsZero, EvenParity, Signed, Modulus;
    LoOfFits(a, w);
    LoOfFits(b, w);
    AdcMeaning(a, b, Cf(f), w);
    var r := Lo(a + b + Num(Cf(f)), w);
    ExplicitCarry(AdcFlags(a, b, Cf(f), r, w));
  }

  lemma SbbLimb(a: Word, b: Word, w: Width, f: Tuple)
    requires Fits(a, w) && Fits(b, w)
    ensures var out := Binary(SBB, a, b, w, f);
      out.r - (if Cf(out.f) then Modulus(w) else 0) == a - b - Num(Cf(f))
  {
    hide Lo, Cf, WordOf, SixOf, HalfCarry, SubOverflow, Msb, IsZero, EvenParity, Signed, Modulus;
    LoOfFits(a, w);
    LoOfFits(b, w);
    SbbMeaning(a, b, Cf(f), w);
    var r := Lo(a - b - Num(Cf(f)), w);
    ExplicitCarry(SbbFlags(a, b, Cf(f), r, w));
  }

  lemma ExplicitCarry(s: Six)
    ensures Cf(RecordExplicit(WordOf(s))) == s.cf
  {
    WordRoundTrip(s);
  }

  /** One more limb below a sum already exact. */
  lemma Carried(m: int, r: int, q: int, a: int, b: int, x: int, y: int, c0: int, c1: bool, cn: bool, p: int)
    requires r + (if c1 then m else 0) == a + b + c0 && q + (if cn then p else 0) == x + y + Num(c1)
    ensures r + Times(m, q) + (if cn then Times(m, p) else 0) == (a + Times(m, x)) + (b + Times(m, y)) + c0
  {
    assert m * (q + (if cn then p else 0)) == m * (x + y + Num(c1));
  }

  lemma Borrowed(m: int, r: int, q: int, a: int, b: int, x: int, y: int, c0: int, c1: bool, cn: bool, p: int)
    requires r - (if c1 then m else 0) == a - b - c0 && q - (if cn then p else 0) == x - y - Num(c1)
    ensures r + Times(m, q) - (if cn then Times(m, p) else 0) == (a + Times(m, x)) - (b + Times(m, y)) - c0
  {
    assert m * (q - (if cn then p else 0)) == m * (x - y - Num(c1));
  }

  lemma AdcJoined(a: seq<Word>, b: seq<Word>, r: Word, rest: seq<Word>, w: Width, c0: bool, c1: bool, cn: bool)
    requires |a| == |b| && a != []
    requires r + (if c1 then Modulus(w) else 0) == a[0] + b[0] + Num(c0)
    requires Value(rest, w) + (if cn then Base(w, |a| - 1) else 0) == Value(a[1..], w) + Value(b[1..], w) + Num(c1)
    ensures Value([r] + rest, w) + (if cn then Base(w, |a|) else 0) == Value(a, w) + Value(b, w) + Num(c0)
  {
    hide Modulus, Value, Base, Times;
    ValueSteps(a, r, rest, w);
    ValueSteps(b, r, rest, w);
    Carried(Modulus(w), r, Value(rest, w), a[0], b[0], Value(a[1..], w), Value(b[1..], w), Num(c0), c1, cn, Base(w, |a| - 1));
  }

  lemma SbbJoined(a: seq<Word>, b: seq<Word>, r: Word, rest: seq<Word>, w: Width, c0: bool, c1: bool, cn: bool)
    requires |a| == |b| && a != []
    requires r - (if c1 then Modulus(w) else 0) == a[0] - b[0] - Num(c0)
    requires Value(rest, w) - (if cn then Base(w, |a| - 1) else 0) == Value(a[1..], w) - Value(b[1..], w) - Num(c1)
    ensures Value([r] + rest, w) - (if cn then Base(w, |a|) else 0) == Value(a, w) - Value(b, w) - Num(c0)
  {
    hide Modulus, Value, Base, Times;
    ValueSteps(a, r, rest, w);
    ValueSteps(b, r, rest, w);
    Borrowed(Modulus(w), r, Value(rest, w), a[0], b[0], Value(a[1..], w), Value(b[1..], w), Num(c0), c1, cn, Base(w, |a| - 1));
  }

  lemma CleanTail(a: seq<Word>, b: seq<Word>, w: Width, between: seq<seq<Between>>)
    requires Clean(a, b, w, between) && a != []
    ensures Clean(a[1..], b[1..], w, between[1..]) && Fits(a[0], w) && Fits(b[0], w)
    ensures forall j | 0 <= j < |between[0]| :: KeepsCarry(between[0][j])
  {
    hide Fits, KeepsCarry;
  }

  /** Any number of limbs at any width: the result is the exact sum less the final carry's weight. */
  lemma {:induction false} AdcChainIsExact(a: seq<Word>, b: seq<Word>, w: Width, f: Tuple, between: seq<seq<Between>>)
    requires Clean(a, b, w, between)
    ensures var out := Chain(ADC, a, b, w, f, between);
      |out.r| == |a| && Value(out.r, w) + (if Cf(out.f) then Base(w, |a|) else 0) == Value(a, w) + Value(b, w) + Num(Cf(f))
    decreases |a|
  {
    if a != [] {
      CleanTail(a, b, w, between);
      hide Clean, Binary, Skip, Cf, Modulus, Fits, KeepsCarry, Chain, Value, Base, Times;
      ChainStep(ADC, a, b, w, f, between);
      var out := Binary(ADC, a[0], b[0], w, f);
      var g := Skip(out.f, between[0]);
      AdcLimb(a[0], b[0], w, f);
      SkipKeepsCarry(out.f, between[0]);
      var rest := Chain(ADC, a[1..], b[1..], w, g, between[1..]);
      AdcChainIsExact(a[1..], b[1..], w, g, between[1..]);
      AdcJoined(a, b, out.r, rest.r, w, Cf(f), Cf(g), Cf(rest.f));
    }
  }

  /** The same for subtraction: the exact difference plus the final borrow's weight. */
  lemma {:induction false} SbbChainIsExact(a: seq<Word>, b: seq<Word>, w: Width, f: Tuple, between: seq<seq<Between>>)
    requires Clean(a, b, w, between)
    ensures var out := Chain(SBB, a, b, w, f, between);
      |out.r| == |a| && Value(out.r, w) - (if Cf(out.f) then Base(w, |a|) else 0) == Value(a, w) - Value(b, w) - Num(Cf(f))
    decreases |a|
  {
    if a != [] {
      CleanTail(a, b, w, between);
      hide Clean, Binary, Skip, Cf, Modulus, Fits, KeepsCarry, Chain, Value, Base, Times;
      ChainStep(SBB, a, b, w, f, between);
      var out := Binary(SBB, a[0], b[0], w, f);
      var g := Skip(out.f, between[0]);
      SbbLimb(a[0], b[0], w, f);
      SkipKeepsCarry(out.f, between[0]);
      var rest := Chain(SBB, a[1..], b[1..], w, g, between[1..]);
      SbbChainIsExact(a[1..], b[1..], w, g, between[1..]);
      SbbJoined(a, b, out.r, rest.r, w, Cf(f), Cf(g), Cf(rest.f));
    }
  }
}
