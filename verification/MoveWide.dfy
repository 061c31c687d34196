/** Constants by MOVZ and MOVK: a 64-bit value as four 16-bit chunks, least significant first. */
module MoveWide {

  type Half = n: nat | n < 0x1_0000

  type Chunks = s: seq<Half> | |s| == 4 witness [0, 0, 0, 0]

  /** MOVZ clears the rest of the register, MOVK keeps it. */
  datatype Move = Movz(hw: nat, imm: Half) | Movk(hw: nat, imm: Half)

  const ZERO: Chunks := [0, 0, 0, 0]

  function Apply(m: Move, r: Chunks): Chunks {
    if m.hw >= 4 then r
    else if m.Movz? then ZERO[m.hw := m.imm] else r[m.hw := m.imm]
  }

  function Run(code: seq<Move>, r: Chunks): Chunks {
    if code == [] then r else Apply(code[|code| - 1], Run(code[..|code| - 1], r))
  }

  function NonZero(c: seq<Half>): nat {
    if c == [] then 0 else NonZero(c[..|c| - 1]) + if c[|c| - 1] != 0 then 1 else 0
  }

  lemma {:induction false} NoneSet(c: seq<Half>)
    requires NonZero(c) == 0
    ensures forall i | 0 <= i < |c| :: c[i] == 0
  {
    if c != [] { NoneSet(c[..|c| - 1]); }
  }

  /**
   x86p_a64_emit_mov_x_imm64: whatever the register held, it ends holding the
   constant, in one move for each nonzero chunk -- one in all for zero.
   */
  method MoveImm64(c: Chunks) returns (code: seq<Move>)
    ensures forall r: Chunks :: Run(code, r) == c
    ensures |code| == if c == ZERO then 1 else NonZero(c)
  {
    code := [];
    for i := 0 to 4
      invariant c == ZERO ==> |code| == if i == 0 then 0 else 1
      invariant c != ZERO ==> |code| == NonZero(c[..i])
      invariant code != [] ==> forall r: Chunks :: Run(code, r) == c[..i] + ZERO[i..]
    {
      assert c[..i + 1][..i] == c[..i];
      ghost var before := code;
      if c[i] != 0 || (i == 3 && code == []) || (c == ZERO && i == 0) {
        if code == [] && c != ZERO { NoneSet(c[..i]); }
        code := code + [if code == [] then Movz(i, c[i]) else Movk(i, c[i])];
        assert code[..|code| - 1] == before;
        forall r: Chunks ensures Run(code, r) == c[..i + 1] + ZERO[i + 1..] {
          assert Run(code, r) == Apply(code[|code| - 1], Run(before, r));
        }
      } else {
        assert c[..i + 1] + ZERO[i + 1..] == c[..i] + ZERO[i..];
      }
    }
    assert c[..4] == c;
    if c != ZERO && code == [] { NoneSet(c); }
    assert c[..4] + ZERO[4..] == c;
  }
}
