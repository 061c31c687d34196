/** The sixteen x86 conditions, from an EFLAGS word and from the lazy state. */
module Cond {
  import opened Words
  import opened Flags

  datatype Cc = O | NO | B | NB | Z | NZ | BE | A | S | NS | P | NP | L | GE | LE | G

  predicate Test(cc: Cc, s: Six) {
    match cc
    case O => s.of
    case NO => !s.of
    case B => s.cf
    case NB => !s.cf
    case Z => s.zf
    case NZ => !s.zf
    case BE => s.cf || s.zf
    case A => !s.cf && !s.zf
    case S => s.sf
    case NS => !s.sf
    case P => s.pf
    case NP => !s.pf
    case L => s.sf != s.of
    case GE => s.sf == s.of
    case LE => s.zf || s.sf != s.of
    case G => !s.zf && s.sf == s.of
  }

  predicate OnWord(cc: Cc, word: Word) {
    Test(cc, SixOf(word))
  }

  /** The condition read off the lazy state: an explicit word answers for itself, no recorded operation as the fixed bits. */
  predicate Holds(cc: Cc, f: Tuple) {
    match f.kind
    case None => OnWord(cc, 0x202)
    case Explicit => OnWord(cc, f.a)
    case _ => Test(cc, Derive(f))
  }

  /** The lazy condition is the condition of the materialised word, for all sixteen conditions and every state. */
  lemma LazyConditionIsEager(cc: Cc, f: Tuple)
    ensures Holds(cc, f) <==> OnWord(cc, Eflags(f))
  {
    hide Test;
    WordRoundTrip(Derive(f));
    if f.kind == None {
      assert WordOf(Derive(f)) == 0x202;
    }
    hide SixOf, WordOf;
  }

  /** Each even-numbered condition is the negation of the odd one after it, in every state. */
  function Negate(cc: Cc): Cc {
    match cc
    case O => NO case NO => O case B => NB case NB => B case Z => NZ case NZ => Z
    case BE => A case A => BE case S => NS case NS => S case P => NP case NP => P
    case L => GE case GE => L case LE => G case G => LE
  }

  lemma NegateIsNot(cc: Cc, f: Tuple)
    ensures Holds(Negate(cc), f) == !Holds(cc, f)
  {
    hide Derive, SixOf;
  }

  lemma SameHolds(cc: Cc, f: Tuple, g: Tuple)
    requires Same(f, g)
    ensures Holds(cc, f) == Holds(cc, g)
  {
    hide Test, Derive, SixOf;
    SameFlags(f, g);
  }

  /** After SUB, "SF != OF" is the signed comparison of the operands. */
  lemma SubSigned(a: Word, b: Word, w: Width)
    requires Fits(a, w) && Fits(b, w)
    ensures var r := Diff(a, b, w);
      && (Msb(r, w) != SubOverflow(a, b, r, w) <==> Signed(a, w) < Signed(b, w))
      && (r == 0 <==> a == b) && (Signed(a, w) == Signed(b, w) <==> a == b) && (Below(a, b, w) <==> a < b)
  {
    hide Lo, Msb, Signed, Modulus, Half;
    var r := Diff(a, b, w);
    LoNear(a - b, w);
    LoFits(a - b, w);
    Signs(a, b, r, w);
    SubMeaning(a, b, w);
  }

  /** What a condition says of two operands just compared. */
  predicate Compared(cc: Cc, a: Word, b: Word, w: Width) {
    match cc
    case B => a < b
    case NB => a >= b
    case BE => a <= b
    case A => a > b
    case Z => a == b
    case NZ => a != b
    case L => Signed(a, w) < Signed(b, w)
    case GE => Signed(a, w) >= Signed(b, w)
    case LE => Signed(a, w) <= Signed(b, w)
    case G => Signed(a, w) > Signed(b, w)
    case O => Signed(Diff(a, b, w), w) != Signed(a, w) - Signed(b, w)
    case NO => Signed(Diff(a, b, w), w) == Signed(a, w) - Signed(b, w)
    case S => Signed(Diff(a, b, w), w) < 0
    case NS => Signed(Diff(a, b, w), w) >= 0
    case P => EvenParity(Diff(a, b, w))
    case NP => !EvenParity(Diff(a, b, w))
  }

  /** After CMP each of the sixteen conditions is the comparison it is named for. */
  lemma ComparisonMeans(cc: Cc, f: Tuple, a: Word, b: Word, w: Width)
    requires Fits(a, w) && Fits(b, w)
    ensures Holds(cc, Record(f, Sub, a, b, Diff(a, b, w), w)) <==> Compared(cc, a, b, w)
  {
    hide Lo, Msb, Signed, Modulus, Half, EvenParity, HalfCarry, SubOverflow, Below, Diff;
    var r := Diff(a, b, w);
    SubSigned(a, b, w);
    SubMeaning(a, b, w);
    SignOfDiff(a, b, w);
  }

  lemma SignOfDiff(a: Word, b: Word, w: Width)
    requires Fits(a, w) && Fits(b, w)
    ensures var r := Diff(a, b, w);
      Fits(r, w) && (Msb(r, w) <==> Signed(r, w) < 0) && (IsZero(r, w) <==> r == 0)
  {
    hide Lo, Msb, Signed, Modulus, Half;
    LoFits(a - b, w);
    Signs(a, b, Diff(a, b, w), w);
    LoOfFits(Diff(a, b, w), w);
  }
}
