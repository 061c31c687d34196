/**
 32-bit words as integers, and bitwise operations defined bit by bit.
 Wrap-around is explicit: every result is reduced modulo the width.
 */
module Words {

  type Word = n: nat | n < 0x1_0000_0000

  /** Operand width in bytes: 1, 2 or 4. Every other width is a caller defect that stops the process. */
  datatype Width = W1 | W2 | W4

  function Pow2(n: nat): (p: nat)
    ensures p > 0
  {
    if n == 0 then 1 else 2 * Pow2(n - 1)
  }

  /** The width in bits. */
  function Bits(w: Width): nat {
    match w case W1 => 8 case W2 => 16 case W4 => 32
  }

  function Modulus(w: Width): int {
    match w case W1 => 0x100 case W2 => 0x1_0000 case W4 => 0x1_0000_0000
  }

  /** A value reduced to the width. */
  function Lo(v: int, w: Width): Word {
    match w case W1 => v % 0x100 case W2 => v % 0x1_0000 case W4 => v % 0x1_0000_0000
  }

  function Lo32(v: int): Word {
    v % 0x1_0000_0000
  }

  predicate Fits(v: Word, w: Width) {
    v < Modulus(w)
  }

  /** The sign bit at a width. */
  predicate Msb(v: Word, w: Width) {
    match w
    case W1 => v / 0x80 % 2 == 1
    case W2 => v / 0x8000 % 2 == 1
    case W4 => v / 0x8000_0000 % 2 == 1
  }

  /** The value read as two's complement at a width. */
  function Signed(v: Word, w: Width): int {
    var u := Lo(v, w);
    if Msb(v, w) then u - Modulus(w) else u
  }

  function Shl(v: nat, k: nat): nat {
    v * Pow2(k)
  }

  function Shr(v: nat, k: nat): (r: nat)
    ensures r <= v
  {
    Shrinks(v, Pow2(k));
    v / Pow2(k)
  }

  lemma Shrinks(v: nat, p: nat)
    requires p > 0
    ensures 0 <= v / p <= v
  {
    var q := v / p;
    assert v == p * q + v % p;
    assert p * q >= q by { Grows(p, q); }
  }

  lemma Grows(p: nat, q: int)
    requires p > 0
    ensures q >= 0 ==> p * q >= q
    ensures q < 0 ==> p * q < 0
  {
  }

  // ---- residues and signs without division ----

  /** Adding multiples of the modulus changes nothing. */
  lemma LoShift(v: int, q: int, w: Width)
    ensures Lo(v + Modulus(w) * q, w) == Lo(v, w)
  {
    match w {
      case W1 => ModUnique(v + 0x100 * q, 0x100, v / 0x100 + q, v % 0x100);
      case W2 => ModUnique(v + 0x1_0000 * q, 0x1_0000, v / 0x1_0000 + q, v % 0x1_0000);
      case W4 => ModUnique(v + 0x1_0000_0000 * q, 0x1_0000_0000, v / 0x1_0000_0000 + q, v % 0x1_0000_0000);
    }
  }

  lemma LoLo32(v: int, w: Width)
    ensures Lo(Lo32(v), w) == Lo(v, w)
  {
    hide Lo;
    var q := v / 0x1_0000_0000;
    assert Lo32(v) == v - 0x1_0000_0000 * q;
    match w {
      case W1 => LoShift(v, -0x100_0000 * q, W1);
      case W2 => LoShift(v, -0x1_0000 * q, W2);
      case W4 => LoShift(v, -q, W4);
    }
  }

  lemma Lo32Shift(v: int)
    ensures Lo32(v - 0x1_0000_0000) == Lo32(v) && Lo32(v + 0x1_0000_0000) == Lo32(v)
  {
    LoShift(v, -1, W4);
    LoShift(v, 1, W4);
  }

  /** The most negative value's magnitude: half the modulus. */
  function Half(w: Width): int {
    match w case W1 => 0x80 case W2 => 0x8000 case W4 => 0x8000_0000
  }

  lemma ModulusIsTwoHalves(w: Width)
    ensures Modulus(w) == 2 * Half(w) && 0x80 <= Half(w) <= 0x8000_0000
  {
  }

  lemma LoNear(v: int, w: Width)
    requires -Modulus(w) <= v < 2 * Modulus(w)
    ensures Lo(v, w) == if v < 0 then v + Modulus(w) else if v < Modulus(w) then v else v - Modulus(w)
  {
  }

  lemma MsbFits(v: Word, w: Width)
    requires Fits(v, w)
    ensures Msb(v, w) <==> v >= Half(w)
  {
  }

  lemma SignedFits(v: Word, w: Width)
    requires Fits(v, w)
    ensures Signed(v, w) == if v >= Half(w) then v - Modulus(w) else v
  {
    hide Lo, Msb;
    MsbFits(v, w);
    ModulusIsTwoHalves(w);
    LoNear(v, w);
  }

  // ---- bits ----

  predicate Bit(v: nat, i: nat)
    decreases i
  {
    if i == 0 then v % 2 == 1 else Bit(v / 2, i - 1)
  }

  function Num(b: bool): Word {
    if b then 1 else 0
  }

  datatype BitOp = AndOp | OrOp | XorOp

  predicate OnBits(op: BitOp, p: bool, q: bool) {
    match op case AndOp => p && q case OrOp => p || q case XorOp => p != q
  }

  /** The low `n` bits of a bitwise operation. */
  function Bitwise(op: BitOp, a: nat, b: nat, n: nat): (r: nat)
    ensures r < Pow2(n)
  {
    if n == 0 then 0
    else 2 * Bitwise(op, a / 2, b / 2, n - 1) + Num(OnBits(op, a % 2 == 1, b % 2 == 1))
  }

  lemma Pow2Values()
    ensures Pow2(8) == 0x100 && Pow2(16) == 0x1_0000 && Pow2(32) == 0x1_0000_0000
  {
    assert Pow2(8) == 0x100;
    Pow2Add(8, 8);
    Pow2Add(16, 16);
  }

  lemma {:induction false} Pow2Add(m: nat, n: nat)
    ensures Pow2(m + n) == Pow2(m) * Pow2(n)
  {
    if m > 0 {
      Pow2Add(m - 1, n);
      assert Pow2(m) * Pow2(n) == 2 * (Pow2(m - 1) * Pow2(n));
    }
  }

  function Bitwise32(op: BitOp, a: Word, b: Word): Word {
    Pow2Values();
    Bitwise(op, a, b, 32)
  }

  function And(a: Word, b: Word): Word { Bitwise32(AndOp, a, b) }
  function Or(a: Word, b: Word): Word { Bitwise32(OrOp, a, b) }
  function Xor(a: Word, b: Word): Word { Bitwise32(XorOp, a, b) }

  lemma {:induction false} BitwiseBit(op: BitOp, a: nat, b: nat, n: nat, i: nat)
    requires i < n
    ensures Bit(Bitwise(op, a, b, n), i) == OnBits(op, Bit(a, i), Bit(b, i))
  {
    if i > 0 {
      BitwiseBit(op, a / 2, b / 2, n - 1, i - 1);
      assert Bitwise(op, a, b, n) / 2 == Bitwise(op, a / 2, b / 2, n - 1);
    }
  }

  /** The low k bits. */
  function Low(v: nat, k: nat): nat {
    v % Pow2(k)
  }

  lemma LowStep(v: nat, k: nat)
    requires k > 0
    ensures Low(v, k) == 2 * Low(v / 2, k - 1) + v % 2
  {
    ModDouble(v, Pow2(k - 1));
  }

  lemma OnesHalve(k: nat)
    requires k > 0
    ensures (Pow2(k) - 1) / 2 == Pow2(k - 1) - 1 && (Pow2(k) - 1) % 2 == 1
  {
  }

  lemma {:induction false} AndLow(v: nat, k: nat, n: nat)
    requires k <= n
    ensures Bitwise(AndOp, v, Pow2(k) - 1, n) == Low(v, k)
  {
    hide Low, Pow2;
    if k == 0 {
      NoLow(v);
      AndZero(v, n);
    } else {
      AndLow(v / 2, k - 1, n - 1);
      OnesHalve(k);
      LowStep(v, k);
    }
  }

  lemma NoLow(v: nat)
    ensures Pow2(0) == 1 && Low(v, 0) == 0
  {
  }

  /** Masking with k low ones is reduction modulo 2^k. */
  lemma AndOnes(v: nat, k: nat, n: nat)
    requires k <= n
    ensures Bitwise(AndOp, v, Pow2(k) - 1, n) == v % Pow2(k)
  {
    hide Bitwise, Pow2;
    AndLow(v, k, n);
  }

  lemma {:induction false} AndZero(v: nat, n: nat)
    ensures Bitwise(AndOp, v, 0, n) == 0
  {
    if n > 0 {
      AndZero(v / 2, n - 1);
    }
  }

  lemma ModDouble(v: nat, p: nat)
    requires p > 0
    ensures v % (2 * p) == 2 * (v / 2 % p) + v % 2
  {
    var q := v / 2 / p;
    assert v == 2 * (q * p + v / 2 % p) + v % 2;
    assert v == (2 * p) * q + (2 * (v / 2 % p) + v % 2);
    ModUnique(v, 2 * p, q, 2 * (v / 2 % p) + v % 2);
  }

  lemma ModUnique(v: int, m: int, q: int, r: int)
    requires m > 0 && 0 <= r < m && v == m * q + r
    ensures v % m == r && v / m == q
  {
    var d := v / m - q;
    assert m * d == r - v % m;
    assert d == 0;
  }

  /** Exclusive-or with all ones is the complement. */
  lemma {:induction false} XorOnes(v: nat, n: nat)
    requires v < Pow2(n)
    ensures Bitwise(XorOp, v, Pow2(n) - 1, n) == Pow2(n) - 1 - v
  {
    if n > 0 {
      OnesHalve(n);
      XorOnes(v / 2, n - 1);
    }
  }

  lemma {:induction false} BitShift(v: nat, k: nat, i: nat)
    ensures Bit(Shr(v, k), i) == Bit(v, k + i)
    decreases k
  {
    if k > 0 {
      BitShift(v / 2, k - 1, i);
      DivDiv(v, Pow2(k - 1));
    }
  }

  lemma DivDiv(v: nat, p: nat)
    requires p > 0
    ensures v / (2 * p) == v / 2 / p
  {
    var q := v / 2 / p;
    assert v == (2 * p) * q + (2 * (v / 2 % p) + v % 2);
    ModUnique(v, 2 * p, q, 2 * (v / 2 % p) + v % 2);
  }

  // ---- even parity of the low byte ----

  predicate OddOnes(v: nat, n: nat)
    decreases n
  {
    n > 0 && (v % 2 == 1) != OddOnes(v / 2, n - 1)
  }

  predicate EvenParity(v: Word) {
    !OddOnes(v, 8)
  }
}
