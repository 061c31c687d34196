/** x86p_alu_mul, x86p_alu_imul, x86p_alu_div and x86p_alu_idiv: products of twice the width, and the quotients that undo them. */
module MulDiv {
  import opened Words
  import opened Flags
  import opened Alu

  /** The two halves of a product. */
  datatype Halves = Halves(lo: Word, hi: Word)

  function Split(full: int, w: Width): Halves {
    Halves(Lo(full, w), Lo(full / Modulus(w), w))
  }

  /** The value of two halves, and its two's complement reading at twice the width. */
  function Join(h: Halves, w: Width): int {
    h.hi * Modulus(w) + h.lo
  }

  function SignedJoin(h: Halves, w: Width): int {
    if Msb(h.hi, w) then Join(h, w) - Modulus(w) * Modulus(w) else Join(h, w)
  }

  datatype Product = Product(v: Halves, f: Tuple)

  /** CF and OF: the upper half is needed. The other flags stay. */
  function Mul(a: Word, b: Word, w: Width, f: Tuple): Product {
    var v := Split(Lo(a, w) * Lo(b, w), w);
    Product(v, SetCfOf(f, v.hi != 0, v.hi != 0))
  }

  /** CF and OF: the lower half, read as signed, is not the product. */
  function Imul(a: Word, b: Word, w: Width, f: Tuple): Product {
    var full := Signed(Lo(a, w), w) * Signed(Lo(b, w), w);
    var v := Split(full, w);
    var over := Signed(v.lo, w) != full;
    Product(v, SetCfOf(f, over, over))
  }

  datatype Division = DivideError | Divided(q: Word, r: Word)

  function Div(hi: Word, lo: Word, divisor: Word, w: Width): Division {
    var d := Lo(divisor, w);
    if d == 0 then DivideError
    else
      var num := Join(Halves(Lo(lo, w), Lo(hi, w)), w);
      if num / d > Modulus(w) - 1 then DivideError else Divided(Lo(num / d, w), Lo(num % d, w))
  }

  /** Division as C does it: toward zero. */
  function Truncated(n: int, d: int): int
    requires d != 0
  {
    if n >= 0 then n / d else 0 - (0 - n) / d
  }

  function Idiv(hi: Word, lo: Word, divisor: Word, w: Width): Division {
    var d := Signed(Lo(divisor, w), w);
    if d == 0 then DivideError
    else
      var num := SignedJoin(Halves(Lo(lo, w), Lo(hi, w)), w);
      if num == -0x8000_0000_0000_0000 && d == -1 then DivideError
      else
        var q := Truncated(num, d);
        if q < 0 - Half(w) || q > Half(w) - 1 then DivideError else Divided(Lo(q, w), Lo(num - q * d, w))
  }

  // ---- what they mean ----

  /** The quotient rounded toward zero and the remainder that goes with it. */
  predicate IsTruncated(n: int, d: int, q: int, r: int) {
    n == q * d + r && (if d < 0 then d < r < 0 - d else 0 - d < r < d) && (n >= 0 ==> r >= 0) && (n <= 0 ==> r <= 0)
  }

  predicate InRange(v: int, w: Width) {
    0 - Half(w) <= v < Half(w)
  }

  // ---- halves ----

  lemma LoIs(v: int, w: Width)
    ensures v == Modulus(w) * (v / Modulus(w)) + Lo(v, w) && 0 <= Lo(v, w) < Modulus(w)
  {
    match w { case W1 => case W2 => case W4 => }
  }

  lemma Scaled(x: int, y: int, m: int)
    requires x <= y && m >= 0
    ensures x * m <= y * m
  {
  }

  lemma DigitBetween(q: int, r: int, m: int, lo: int, hi: int)
    requires 0 <= r < m && lo * m <= q * m + r < hi * m
    ensures lo <= q < hi
  {
    if q < lo { Scaled(q + 1, lo, m); }
    if q >= hi { Scaled(hi, q, m); }
  }

  lemma QuotientBetween(v: int, m: int, lo: int, hi: int)
    requires m > 0 && lo * m <= v < hi * m
    ensures lo <= v / m < hi
  {
    assert v / m * m + v % m == v;
    DigitBetween(v / m, v % m, m, lo, hi);
  }

  lemma QuotientAtLeast(n: int, d: int, m: int)
    requires d > 0 && n >= m * d
    ensures n / d >= m
  {
    assert n / d * d + n % d == n;
    if n / d < m { Scaled(n / d + 1, m, d); }
  }

  lemma SplitJoins(full: int, w: Width)
    requires 0 <= full < Modulus(w) * Modulus(w)
    ensures Join(Split(full, w), w) == full && Split(full, w).hi == full / Modulus(w)
  {
    hide Lo, Modulus;
    LoIs(full, w);
    SplitAt(full, Modulus(w), 0, Modulus(w));
    LoSmall(full / Modulus(w), w);
  }

  lemma SplitAt(v: int, m: int, lo: int, hi: int)
    requires m > 0 && lo * m <= v < hi * m
    ensures lo <= v / m < hi && v / m * m == m * (v / m)
  {
    QuotientBetween(v, m, lo, hi);
  }

  lemma LoSmall(v: int, w: Width)
    requires 0 <= v < Modulus(w)
    ensures Lo(v, w) == v
  {
  }

  /** A value below the modulus, read as signed. */
  lemma SignedOf(v: Word, w: Width)
    requires Fits(v, w)
    ensures Signed(v, w) == if Msb(v, w) then v - Modulus(w) else v
  {
    LoSmall(v, w);
  }

  lemma SplitJoinsSigned(full: int, w: Width)
    requires 0 - Half(w) * Modulus(w) <= full < Half(w) * Modulus(w)
    ensures SignedJoin(Split(full, w), w) == full
  {
    hide Lo, Modulus, Half, Signed, Msb;
    var m := Modulus(w);
    LoIs(full, w);
    SplitAt(full, m, 0 - Half(w), Half(w));
    SignedHigh(full / m, w);
    if Msb(Lo(full / m, w), w) { OneLess(full / m, m); }
  }

  /** A signed upper half, from its bits. */
  lemma SignedHigh(q: int, w: Width)
    requires InRange(q, w)
    ensures Lo(q, w) == if Msb(Lo(q, w), w) then q + Modulus(w) else q
  {
    hide Lo, Modulus, Half, Signed, Msb;
    SignedBack(q, w);
    LoIs(q, w);
    SignedOf(Lo(q, w), w);
  }

  lemma OneLess(q: int, m: int)
    ensures (q + m) * m - m * m == q * m
  {
  }

  lemma SignedBack(v: int, w: Width)
    requires InRange(v, w)
    ensures Signed(Lo(v, w), w) == v
  {
    hide Lo, Modulus, Half, Signed, Msb;
    ModulusIsTwoHalves(w);
    LoNear(v, w);
    SignedFits(Lo(v, w), w);
  }

  lemma SignedInRange(v: Word, w: Width)
    requires Fits(v, w)
    ensures InRange(Signed(v, w), w) && Lo(Signed(v, w), w) == v
  {
    hide Lo, Modulus, Half, Signed, Msb;
    ModulusIsTwoHalves(w);
    SignedFits(v, w);
    LoNear(Signed(v, w), w);
  }

  lemma ProductFits(x: int, y: int, m: int)
    requires 0 <= x < m && 0 <= y < m
    ensures 0 <= x * y < m * m
  {
    Scaled(x, m - 1, y);
    Scaled(y, m - 1, m - 1);
    OneOff(m);
  }

  lemma OneOff(m: int)
    requires m > 0
    ensures (m - 1) * (m - 1) < m * m
  {
  }

  lemma SignedProductFits(x: int, y: int, h: int)
    requires 0 - h <= x <= h && 0 - h <= y <= h
    ensures 0 - h * h <= x * y <= h * h
  {
    if x >= 0 && y >= 0 { MagnitudesFit(x, y, h); }
    else if x >= 0 { MagnitudesFit(x, 0 - y, h); }
    else if y >= 0 { MagnitudesFit(0 - x, y, h); }
    else { MagnitudesFit(0 - x, 0 - y, h); }
  }

  lemma MagnitudesFit(p: int, q: int, h: int)
    requires 0 <= p <= h && 0 <= q <= h
    ensures 0 <= p * q <= h * h
  {
    assert p * q <= p * h;
    assert p * h <= h * h;
  }

  // ---- multiplying ----

  lemma SetCfOfKeeps(f: Tuple, v: bool)
    ensures Derive(SetCfOf(f, v, v)) == Derive(f).(cf := v, of := v)
  {
    WordRoundTrip(Derive(f).(cf := v, of := v));
  }

  /** MUL: the halves are the exact product, CF and OF say the upper one is needed, and the other flags stay. */
  lemma MulIsExact(a: Word, b: Word, w: Width, f: Tuple)
    ensures var p := Mul(a, b, w, f);
      var full := Lo(a, w) * Lo(b, w);
      Join(p.v, w) == full && Derive(p.f) == Derive(f).(cf := full >= Modulus(w), of := full >= Modulus(w))
  {
    hide Lo, Modulus, Derive, SetCfOf;
    var m: int, x: int, y: int := Modulus(w), Lo(a, w), Lo(b, w);
    LoIs(a, w);
    LoIs(b, w);
    ProductFits(x, y, m);
    SplitJoins(x * y, w);
    QuotientIsZero(x * y, m);
    SetCfOfKeeps(f, Split(x * y, w).hi != 0);
  }

  lemma QuotientIsZero(v: int, m: int)
    requires m > 0 && v >= 0
    ensures v / m == 0 <==> v < m
  {
    if v < m { QuotientBetween(v, m, 0, 1); } else { QuotientAtLeast(v, m, 1); }
  }

  /** IMUL: the same for the signed readings; CF and OF say the product does not fit the lower half. */
  lemma ImulIsExact(a: Word, b: Word, w: Width, f: Tuple)
    ensures var p := Imul(a, b, w, f);
      var full := Signed(Lo(a, w), w) * Signed(Lo(b, w), w);
      SignedJoin(p.v, w) == full && Derive(p.f) == Derive(f).(cf := !InRange(full, w), of := !InRange(full, w))
  {
    hide Lo, Modulus, Half, Derive, SetCfOf, Signed, Msb, SignedJoin;
    var full := Signed(Lo(a, w), w) * Signed(Lo(b, w), w);
    LoFits(a, w);
    LoFits(b, w);
    SignedProduct(Lo(a, w), Lo(b, w), w);
    SplitJoinsSigned(full, w);
    LoFits(full, w);
    SignedInRange(Lo(full, w), w);
    if InRange(full, w) { SignedBack(full, w); }
    SetCfOfKeeps(f, !InRange(full, w));
  }

  lemma SignedProduct(x: Word, y: Word, w: Width)
    requires Fits(x, w) && Fits(y, w)
    ensures 0 - Half(w) * Modulus(w) <= Signed(x, w) * Signed(y, w) < Half(w) * Modulus(w)
  {
    hide Lo, Modulus, Half, Signed;
    ModulusIsTwoHalves(w);
    SignedInRange(x, w);
    SignedInRange(y, w);
    SignedProductFits(Signed(x, w), Signed(y, w), Half(w));
    var h := Half(w);
    assert h * Modulus(w) == 2 * (h * h) && h * h > 0;
  }

  // ---- dividing ----

  /**
   DIV: refused exactly for a zero divisor or an upper half that reaches it;
   otherwise the exact quotient and remainder.
   */
  lemma DivIsExact(hi: Word, lo: Word, divisor: Word, w: Width)
    ensures var d := Lo(divisor, w);
      var num := Join(Halves(Lo(lo, w), Lo(hi, w)), w);
      var out := Div(hi, lo, divisor, w);
      && (out.DivideError? <==> d == 0 || Lo(hi, w) >= d)
      && (out.Divided? ==> num == out.q * d + out.r && out.r < d)
  {
    hide Lo, Modulus, Join;
    var d: int, m: int := Lo(divisor, w), Modulus(w);
    LoIs(divisor, w);
    LoIs(hi, w);
    LoIs(lo, w);
    if d != 0 {
      var num := Join(Halves(Lo(lo, w), Lo(hi, w)), w);
      assert num == Lo(hi, w) * m + Lo(lo, w) by { JoinIs(Halves(Lo(lo, w), Lo(hi, w)), w); }
      QuotientReaches(Lo(hi, w), Lo(lo, w), d, m);
      DivisionOf(num, d, w);
    }
  }

  lemma JoinIs(h: Halves, w: Width)
    ensures Join(h, w) == h.hi * Modulus(w) + h.lo
  {
  }

  lemma DivisionOf(num: int, d: int, w: Width)
    requires 0 < d < Modulus(w) && num / d >= 0
    ensures num / d < Modulus(w) ==> num == Lo(num / d, w) * d + Lo(num % d, w)
    ensures Lo(num % d, w) < d
  {
    hide Lo, Modulus;
    assert num / d * d + num % d == num;
    LoSmall(num % d, w);
    if num / d < Modulus(w) { LoSmall(num / d, w); }
  }

  lemma QuotientReaches(hi: int, lo: int, d: int, m: int)
    requires d > 0 && 0 <= lo < m && 0 <= hi
    ensures (hi * m + lo) / d >= m <==> hi >= d
    ensures (hi * m + lo) / d >= 0
  {
    var num := hi * m + lo;
    if hi >= d {
      Scaled(d, hi, m);
      QuotientAtLeast(num, d, m);
    } else {
      Scaled(hi + 1, d, m);
      Scaled(0, hi, m);
      QuotientBetween(num, d, 0, m);
    }
  }

  /** A DIV by the multiplier undoes a MUL. */
  lemma DivUndoesMul(a: Word, b: Word, w: Width, f: Tuple)
    requires Lo(b, w) != 0
    ensures var p := Mul(a, b, w, f).v; Div(p.hi, p.lo, b, w) == Divided(Lo(a, w), 0)
  {
    hide Lo, Modulus, SetCfOf;
    var m: int, x: int, y: int := Modulus(w), Lo(a, w), Lo(b, w);
    LoIs(a, w);
    LoIs(b, w);
    ProductFits(x, y, m);
    SplitJoins(x * y, w);
    var p := Split(x * y, w);
    HalvesFit(x * y, w);
    ModUnique(x * y, y, x, 0);
    LoSmall(x, w);
    LoSmall(0, w);
  }

  lemma HalvesFit(full: int, w: Width)
    ensures var h := Split(full, w); Fits(h.lo, w) && Fits(h.hi, w) && Lo(h.lo, w) == h.lo && Lo(h.hi, w) == h.hi
  {
    hide Lo, Modulus;
    LoIs(full, w);
    LoIs(full / Modulus(w), w);
    LoSmall(Lo(full, w), w);
    LoSmall(Lo(full / Modulus(w), w), w);
  }

  lemma TruncatedIs(n: int, d: int)
    requires d != 0
    ensures IsTruncated(n, d, Truncated(n, d), n - Truncated(n, d) * d)
  {
    var m := if n >= 0 then n else 0 - n;
    assert m / d * d + m % d == m;
    Negated(m / d, d);
  }

  lemma Negated(q: int, d: int)
    ensures (0 - q) * d == 0 - q * d
  {
  }

  lemma SmallMultiple(k: int, d: int)
    requires if d < 0 then d < k * d < 0 - d else 0 - d < k * d < d
    ensures k == 0
  {
  }

  /** There is one way to divide toward zero. */
  lemma TruncatedUnique(n: int, d: int, q: int, r: int, p: int, s: int)
    requires d != 0 && IsTruncated(n, d, q, r) && IsTruncated(n, d, p, s)
    ensures q == p && r == s
  {
    assert (q - p) * d == s - r;
    SmallMultiple(q - p, d);
  }

  /**
   IDIV: refused exactly for a zero divisor or a quotient that does not fit;
   otherwise the quotient rounded toward zero, with its remainder.
   */
  lemma IdivIsExact(hi: Word, lo: Word, divisor: Word, w: Width)
    ensures var d := Signed(Lo(divisor, w), w);
      var num := SignedJoin(Halves(Lo(lo, w), Lo(hi, w)), w);
      var out := Idiv(hi, lo, divisor, w);
      && (out.Divided? <==> d != 0 && exists q, r :: IsTruncated(num, d, q, r) && InRange(q, w))
      && (out.Divided? ==> IsTruncated(num, d, Signed(out.q, w), Signed(out.r, w)))
  {
    hide Lo, Modulus, Signed, Msb, SignedJoin, IsTruncated, Truncated;
    var d := Signed(Lo(divisor, w), w);
    var num := SignedJoin(Halves(Lo(lo, w), Lo(hi, w)), w);
    if d != 0 {
      IdivQuotient(num, d, w);
      LoFits(divisor, w);
      SignedInRange(Lo(divisor, w), w);
      var q := Truncated(num, d);
      var r := num - q * d;
      if InRange(q, w) {
        RemainderInRange(num, d, q, r, w);
        SignedBack(q, w);
        SignedBack(r, w);
      }
      if p, s :| IsTruncated(num, d, p, s) && InRange(p, w) { TruncatedUnique(num, d, q, r, p, s); }
    }
  }

  /** The quotient, and the one dividend its C division must not be asked about: it has none that fits. */
  lemma IdivQuotient(num: int, d: int, w: Width)
    requires d != 0
    ensures IsTruncated(num, d, Truncated(num, d), num - Truncated(num, d) * d)
    ensures num == -0x8000_0000_0000_0000 && d == -1 ==> !InRange(Truncated(num, d), w)
  {
    TruncatedIs(num, d);
  }

  lemma RemainderInRange(n: int, d: int, q: int, r: int, w: Width)
    requires IsTruncated(n, d, q, r) && InRange(d, w)
    ensures InRange(r, w)
  {
  }

  /** An IDIV by the multiplier undoes an IMUL, whether or not the product fit the lower half. */
  lemma IdivUndoesImul(a: Word, b: Word, w: Width, f: Tuple)
    requires Lo(b, w) != 0
    ensures var p := Imul(a, b, w, f).v; Idiv(p.hi, p.lo, b, w) == Divided(Lo(a, w), 0)
  {
    hide Lo, Modulus, Signed, Msb, SignedJoin, SetCfOf, IsTruncated, Truncated, Half;
    var x, y := Signed(Lo(a, w), w), Signed(Lo(b, w), w);
    NonzeroSigned(b, w);
    LoFits(a, w);
    LoFits(b, w);
    SignedProduct(Lo(a, w), Lo(b, w), w);
    SplitJoinsSigned(x * y, w);
    HalvesFit(x * y, w);
    SignedInRange(Lo(a, w), w);
    IdivQuotient(x * y, y, w);
    ExactQuotient(x, y);
    TruncatedUnique(x * y, y, x, 0, Truncated(x * y, y), x * y - Truncated(x * y, y) * y);
    LoTwice(a, w);
  }

  lemma NonzeroSigned(b: Word, w: Width)
    requires Lo(b, w) != 0
    ensures Signed(Lo(b, w), w) != 0
  {
    match w { case W1 => case W2 => case W4 => }
  }

  lemma ExactQuotient(x: int, y: int)
    requires y != 0
    ensures IsTruncated(x * y, y, x, 0)
  {
  }

  lemma LoTwice(a: Word, w: Width)
    ensures Lo(Lo(a, w), w) == Lo(a, w) && Lo(0, w) == 0
  {
  }
}
