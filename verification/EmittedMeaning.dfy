/** What the emitted ALU code leaves, said of the machine alone. */
module EmittedMeaning {
  import opened Words
  import opened Flags
  import opened Alu
  import opened Guest
  import opened A64
  import opened A64Cond
  import opened Emitter
  import opened EmitterFacts
  import opened EmitterProof
  import opened InsnProof
  import opened GuestMeaning
  import BlockProof

  /**
   Emitted ALU code leaves the unit's result in its destination, CMP and TEST
   leave every register and byte as they found them, and an operand out of
   range leaves all but EIP, which is then the instruction's.
   */
  lemma EmittedAluLeaves(op: Op, dst: Operand, src: Operand, w: Width, dead: bool, pc: Word, h: Host, k: Clobber)
    requires h.status == Running && Mapped(h.c.mem) && IsBit(h.c.flags.carryIn) && Emittable(AluInsn(op, dst, src, w))
    requires !dst.Imm?
    ensures var g := Run(AluCode(op, dst, src, w, dead, pc), h, k);
      var sw := SecondWidth(op, src, w);
      if !Readable(h.c, dst, w) || !Readable(h.c, src, sw) then g.status == Faulted && g.c == h.c.(eip := pc)
      else
        && g.status == Running && g.c.eip == h.c.eip
        && if op == CMP || op == TEST then Untouched(h.c, g.c)
           else Wrote(h.c, g.c, dst, w, Binary(op, ReadOperand(h.c, dst, w), ReadOperand(h.c, src, sw), w, h.c.flags).r)
  {
    hide ReadOperand, WriteOperand, Readable, Binary, EffectiveAddress, Wrote, AluCode, Run, Emittable, HeldAfter, Plus;
    RunAlu(op, dst, src, w, dead, pc, h, k);
    BlockProof.BodyKeeps(h.c, AluInsn(op, dst, src, w));
    AluLeaves(h.c, op, dst, src, w, 0);
    var g := Run(AluCode(op, dst, src, w, dead, pc), h, k);
    var sw := SecondWidth(op, src, w);
    if Readable(h.c, dst, w) && Readable(h.c, src, sw) {
      var d := Exec(h.c, AluInsn(op, dst, src, w), 0).c;
      if op != CMP && op != TEST {
        var r := Binary(op, ReadOperand(h.c, dst, w), ReadOperand(h.c, src, sw), w, h.c.flags).r;
        WroteDespiteEip(h.c, d, dst, w, r, h.c.eip);
        WroteWithFlags(h.c, d.(eip := h.c.eip), dst, w, r, g.c.flags);
      }
    }
  }

  lemma WroteWithFlags(c: Cpu, d: Cpu, o: Operand, w: Width, v: Word, f: Tuple)
    requires Wrote(c, d, o, w, v)
    ensures Wrote(c, d.(flags := f), o, w, v)
  {
    hide RegRead, MemRead, Lo, Touches, Apart, ByteAt, EffectiveAddress;
    if o.Mem? { SameAddress(d, d.(flags := f), o.m); }
  }
}
