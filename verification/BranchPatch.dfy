/**
 The ARM64 encoder's forward branches: a word put with no offset, and the
 offset written into it in place once the target is known. Three layouts of
 the offset, told apart by the opcode.
 */
module BranchPatch {
  import opened Words

  /** The widths of the offset field: B and BL, TBZ and TBNZ, and the conditional branches with CBZ and CBNZ. */
  datatype Layout = Imm26 | Imm14 | Imm19

  function LayoutOf(word: Word): Layout {
    if word / 0x400_0000 % 32 == 5 then Imm26
    else if word / 0x200_0000 % 64 == 27 then Imm14
    else Imm19
  }

  /** The lowest bit of the field, and the values it takes. */
  function Step(l: Layout): nat {
    match l case Imm26 => 1 case Imm14 => 32 case Imm19 => 32
  }

  function Span(l: Layout): nat {
    match l case Imm26 => 0x400_0000 case Imm14 => 0x4000 case Imm19 => 0x8_0000
  }

  predicate InRange(l: Layout, off: int) {
    0 - Span(l) / 2 <= off < Span(l) / 2
  }

  function FieldOf(l: Layout, word: Word): nat {
    word / Step(l) % Span(l)
  }

  /** What an instruction word says but for its offset. */
  function Rest(l: Layout, word: Word): (nat, nat) {
    (word / (Step(l) * Span(l)), word % Step(l))
  }

  /** The words a branch goes, as the processor reads it. */
  function Offset(word: Word): int {
    var l := LayoutOf(word);
    var v := FieldOf(l, word);
    if v >= Span(l) / 2 then v - Span(l) else v
  }

  function Patched(word: Word, off: int): Word {
    match LayoutOf(word)
    case Imm26 => word / 0x400_0000 * 0x400_0000 + off % 0x400_0000
    case Imm14 => word / 0x8_0000 * 0x8_0000 + off % 0x4000 * 32 + word % 32
    case Imm19 => word / 0x100_0000 * 0x100_0000 + off % 0x8_0000 * 32 + word % 32
  }

  /** A field of a word replaced: the rest stays. */
  lemma Replaced(hi: nat, v: nat, lo: nat, span: nat, step: nat)
    requires 0 < step && lo < step && v < span
    ensures var word := hi * (step * span) + v * step + lo;
      word / step % span == v && word % step == lo && word / (step * span) == hi
  {
    var word := hi * (step * span) + v * step + lo;
    assert word == step * (hi * span + v) + lo;
    ModUnique(word, step, hi * span + v, lo);
    ModUnique(hi * span + v, span, hi, v);
    Below(v, lo, span, step);
    ModUnique(word, step * span, hi, v * step + lo);
  }

  lemma Below(v: nat, lo: nat, span: nat, step: nat)
    requires 0 < step && lo < step && v < span
    ensures v * step + lo < step * span
  {
    assert (v + 1) * step <= span * step;
  }

  /** The opcode bits lie above every field. */
  lemma SameLayout(word: Word, off: int)
    ensures LayoutOf(Patched(word, off)) == LayoutOf(word)
  {
    var w := Patched(word, off);
    match LayoutOf(word) {
      case Imm26 =>
        Replaced(word / 0x400_0000, off % 0x400_0000, 0, 0x400_0000, 1);
      case Imm14 =>
        Replaced(word / 0x8_0000, off % 0x4000, word % 32, 0x4000, 32);
        Above(w, 0x8_0000, 0x40);
        Above(word, 0x8_0000, 0x40);
        Above(w, 0x8_0000, 0x80);
        Above(word, 0x8_0000, 0x80);
      case Imm19 =>
        Replaced(word / 0x100_0000, off % 0x8_0000, word % 32, 0x8_0000, 32);
        Above(w, 0x100_0000, 2);
        Above(word, 0x100_0000, 2);
        Above(w, 0x100_0000, 4);
        Above(word, 0x100_0000, 4);
    }
  }

  lemma Above(v: nat, p: nat, q: nat)
    requires p > 0 && q > 0
    ensures v / (p * q) == v / p / q
  {
    var a := v / p;
    assert v == p * a + v % p;
    assert a == q * (a / q) + a % q;
    Below(a % q, v % p, q, p);
    assert v == (p * q) * (a / q) + ((a % q) * p + v % p);
    ModUnique(v, p * q, a / q, (a % q) * p + v % p);
  }

  lemma PatchedFields(word: Word, off: int)
    ensures var l := LayoutOf(word);
      FieldOf(l, Patched(word, off)) == off % Span(l) && Rest(l, Patched(word, off)) == Rest(l, word)
  {
    match LayoutOf(word) {
      case Imm26 => Replaced(word / 0x400_0000, off % 0x400_0000, 0, 0x400_0000, 1);
      case Imm14 => Replaced(word / 0x8_0000, off % 0x4000, word % 32, 0x4000, 32);
      case Imm19 => Replaced(word / 0x100_0000, off % 0x8_0000, word % 32, 0x8_0000, 32);
    }
  }

  lemma SignedBack(l: Layout, off: int)
    requires InRange(l, off)
    ensures var v := off % Span(l); off == if v >= Span(l) / 2 then v - Span(l) else v
  {
  }

  /** An offset in range is read back, and nothing else of the instruction changes. */
  lemma PatchReadsBack(word: Word, off: int)
    requires InRange(LayoutOf(word), off)
    ensures var l := LayoutOf(word);
      LayoutOf(Patched(word, off)) == l && Offset(Patched(word, off)) == off && Rest(l, Patched(word, off)) == Rest(l, word)
  {
    hide LayoutOf, Patched, FieldOf, Rest;
    SameLayout(word, off);
    PatchedFields(word, off);
    SignedBack(LayoutOf(word), off);
  }

  /** The offset from the word at `site` to the byte at `target`, if that is an offset its layout holds. */
  predicate Reaches(word: Word, site: nat, target: nat) {
    (target - 4 * site) % 4 == 0 && InRange(LayoutOf(word), (target - 4 * site) / 4)
  }

  // ---- the instructions themselves ----

  type Cond = n: nat | n < 16
  type Reg = n: nat | n < 32
  type BitNumber = n: nat | n < 64

  /** The branches of the instruction set that carry an offset. */
  datatype Ins =
    | B
    | BL
    | BCond(cc: Cond)
    | Cbz(nonzero: bool, wide: bool, r: Reg)
    | Tbz(nonzero: bool, bit: BitNumber, r: Reg)

  /** An instruction going `off` words on, from its base opcode and the places of its fields. */
  function Encode(i: Ins, off: int): Word {
    match i
    case B => 0x1400_0000 + off % 0x400_0000
    case BL => 0x9400_0000 + off % 0x400_0000
    case BCond(cc) => 0x5400_0000 + off % 0x8_0000 * 0x20 + cc
    case Cbz(nonzero, wide, r) =>
      0x3400_0000 + Num(nonzero) * 0x100_0000 + Num(wide) * 0x8000_0000 + off % 0x8_0000 * 0x20 + r
    case Tbz(nonzero, bit, r) =>
      0x3600_0000 + Num(nonzero) * 0x100_0000 + bit / 32 * 0x8000_0000 + bit % 32 * 0x8_0000 + off % 0x4000 * 0x20 + r
  }

  /** How far each can go: 128 MB, 1 MB and 32 KB either way. */
  predicate CanGo(i: Ins, off: int) {
    match i
    case B => -0x200_0000 <= off < 0x200_0000
    case BL => -0x200_0000 <= off < 0x200_0000
    case BCond(_) => -0x4_0000 <= off < 0x4_0000
    case Cbz(_, _, _) => -0x4_0000 <= off < 0x4_0000
    case Tbz(_, _, _) => -0x2000 <= off < 0x2000
  }

  /** Patching turns any branch into the same branch with the new offset, and what is in reach is what the instruction can go. */
  lemma PatchesEveryBranch(i: Ins, was: int, off: int)
    ensures Patched(Encode(i, was), off) == Encode(i, off)
    ensures InRange(LayoutOf(Encode(i, was)), off) <==> CanGo(i, off)
  {
    hide Patched, LayoutOf;
    match i {
      case B => PatchesLong(5, was % 0x400_0000, off);
      case BL => PatchesLong(37, was % 0x400_0000, off);
      case BCond(cc) => PatchesConditional(0x54, was % 0x8_0000, cc, off);
      case Cbz(nonzero, wide, r) => PatchesConditional(0x34 + Num(nonzero) + 0x80 * Num(wide), was % 0x8_0000, r, off);
      case Tbz(nonzero, bit, r) =>
        PatchesTest(0x6C0 + 0x20 * Num(nonzero) + 0x1000 * (bit / 32) + bit % 32, was % 0x4000, r, off);
    }
  }

  lemma PatchesLong(op: nat, v: nat, off: int)
    requires op == 5 || op == 37
    requires v < 0x400_0000
    ensures var word: Word := op * 0x400_0000 + v;
      LayoutOf(word) == Imm26 && Patched(word, off) == op * 0x400_0000 + off % 0x400_0000
  {
    ModUnique(op * 0x400_0000 + v, 0x400_0000, op, v);
  }

  lemma PatchesConditional(op: nat, v: nat, r: nat, off: int)
    requires op in {0x54, 0x34, 0x35, 0xB4, 0xB5} && v < 0x8_0000 && r < 32
    ensures var word: Word := op * 0x100_0000 + v * 0x20 + r;
      LayoutOf(word) == Imm19 && Patched(word, off) == op * 0x100_0000 + off % 0x8_0000 * 0x20 + r
  {
    var word: Word := op * 0x100_0000 + v * 0x20 + r;
    Parts(op, v, r, 0x8_0000);
    Above(word, 0x100_0000, 4);
    Above(word, 0x100_0000, 2);
  }

  lemma PatchesTest(op: nat, v: nat, r: nat, off: int)
    requires (0x6C0 <= op < 0x700 || 0x16C0 <= op < 0x1700) && v < 0x4000 && r < 32
    ensures var word: Word := op * 0x8_0000 + v * 0x20 + r;
      LayoutOf(word) == Imm14 && Patched(word, off) == op * 0x8_0000 + off % 0x4000 * 0x20 + r
  {
    var word: Word := op * 0x8_0000 + v * 0x20 + r;
    Parts(op, v, r, 0x4000);
    Above(word, 0x8_0000, 0x80);
    Above(word, 0x8_0000, 0x40);
  }

  /** An opcode, a field of a span and the five bits below it. */
  lemma Parts(op: nat, v: nat, r: nat, span: nat)
    requires r < 32 && v < span
    ensures var word := op * (32 * span) + v * 32 + r;
      word / (32 * span) == op && word / 32 % span == v && word % 32 == r
  {
    Replaced(op, v, r, span, 32);
  }

  class BranchBuffer {
    const words: array<Word>
    var len: nat
    var overflow: bool
    var made: nat
    var bound: nat
    /** Where each bound branch goes, in bytes. */
    ghost var targets: map<nat, nat>

    ghost predicate Valid()
      reads this, words
    {
      && len <= words.Length
      && (!overflow ==> forall s: nat | s in targets :: s < len && 4 * s + 4 * Offset(words[s]) == targets[s])
    }

    constructor (capacity: nat)
      ensures Valid() && len == 0 && !overflow && made == bound == 0 && targets == map[] && words.Length == capacity && fresh(words)
    {
      words := new Word[capacity](_ => 0);
      len, overflow, made, bound, targets := 0, false, 0, 0, map[];
    }

    method Put(word: Word)
      requires Valid()
      modifies this`len, this`overflow, words
      ensures Valid() && overflow == (old(overflow) || old(len) + 1 > words.Length)
      ensures len == old(len) + (if overflow then 0 else 1)
      ensures words[..len] == if overflow then old(words[..len]) else old(words[..len]) + [word]
    {
      if overflow || len + 1 > words.Length {
        overflow := true;
        return;
      }
      words[len] := word;
      len := len + 1;
    }

    /** A branch whose target is not known yet. */
    method Unbound(word: Word) returns (site: nat)
      requires Valid()
      modifies this`len, this`overflow, this`made, words
      ensures Valid() && site == old(len) && made == old(made) + 1
      ensures overflow == (old(overflow) || old(len) + 1 > words.Length)
      ensures words[..len] == if overflow then old(words[..len]) else old(words[..len]) + [word]
    {
      site := len;
      Put(word);
      made := made + 1;
    }

    /**
     The branch at `site` sent to `target`. Every other word stays, and so does
     every branch bound before; a target out of reach overflows for good.
     */
    method BindTo(site: nat, target: nat)
      requires Valid()
      modifies this`overflow, this`bound, this`targets, words
      ensures Valid()
      ensures overflow <==> old(overflow) || site >= len || target > 4 * len || !Reaches(old(words[..])[site], site, target)
      ensures !overflow ==> bound == old(bound) + 1 && targets == old(targets)[site := target]
      ensures !overflow ==> words[..] == old(words[..])[site := Patched(old(words[site]), (target - 4 * site) / 4)]
      ensures !overflow ==> var l := LayoutOf(old(words[site]));
        4 * site + 4 * Offset(words[site]) == target && LayoutOf(words[site]) == l && Rest(l, words[site]) == Rest(l, old(words[site]))
      ensures overflow ==> words[..] == old(words[..]) && bound == old(bound)
      ensures forall i: Ins, was: int | site < len && target <= 4 * len && old(words[..])[site] == Encode(i, was) ::
        (overflow <==> old(overflow) || (target - 4 * site) % 4 != 0 || !CanGo(i, (target - 4 * site) / 4))
        && (!overflow ==> words[..][site] == Encode(i, (target - 4 * site) / 4))
    {
      hide Patched, Offset, LayoutOf, Rest, Encode, CanGo, InRange;
      forall i: Ins, was: int | site < len && words[..][site] == Encode(i, was)
        ensures Patched(words[site], (target - 4 * site) / 4) == Encode(i, (target - 4 * site) / 4)
        ensures InRange(LayoutOf(words[site]), (target - 4 * site) / 4) <==> CanGo(i, (target - 4 * site) / 4)
      {
        PatchesEveryBranch(i, was, (target - 4 * site) / 4);
      }
      if overflow || site >= len || target > 4 * len {
        overflow := true;
        return;
      }
      var word := words[site];
      var delta := target - 4 * site;
      if delta % 4 != 0 || !InRange(LayoutOf(word), delta / 4) {
        overflow := true;
        return;
      }
      PatchReadsBack(word, delta / 4);
      words[site] := Patched(word, delta / 4);
      bound := bound + 1;
      targets := targets[site := target];
    }
  }
}
