/** Where each branch and jump goes, and when. */
module ControlTransfer {
  import opened Common
  import opened Words
  import opened Isa
  import opened Runs
  import opened Encoding
  import opened Fields

  lemma BranchResult(s: State, c: Control, outside: u32)
    requires Fetched(s) == Some(c) && IsBranchOp(c.opcode)
    ensures Step(s, outside) == Some(Advance(Branch(s, c)))
  {
    StepExecutes(s, c, outside);
  }

  /** l.j (0), l.jal (1), l.bnf (3) and l.bf (4): the first two always go to pc plus four times the signed
      offset, l.bf if and only if the flag is set, l.bnf if and only if it is not.  The delay slot is
      executed first; l.jal puts the address behind it into r9.  The target 0xffffffff means no branch
      to the simulator. */
  lemma PcRelative(s: State, w: u32, outside: u32)
    requires At(s, w) && (Op(w) == 0 || Op(w) == 1 || Op(w) == 3 || Op(w) == 4)
    ensures var taken := Op(w) == 0 || Op(w) == 1 || (Op(w) == 3 && !s.sr.f) || (Op(w) == 4 && s.sr.f);
            var target := (s.pc + 4 * Signed(w % 0x400_0000, 0x200_0000)) % 0x1_0000_0000;
            Step(s, outside) == Some(s.(
              pc := s.npc,
              npc := if taken && target != 0xffff_ffff then target else (s.npc + 4) % 0x1_0000_0000,
              gpr := if Op(w) == 1 then s.gpr[9 := (s.pc + 8) % 0x1_0000_0000] else s.gpr))
  {
    var c := Decoded(s, w);
    BranchResult(s, c, outside);
    BranchTargetMeaning(s, c);
  }

  /** l.jr (0x11) and l.jalr (0x12) go to the address in rB if it is a multiple of 4. */
  lemma RegisterJump(s: State, w: u32, outside: u32)
    requires At(s, w) && (Op(w) == 0x11 || Op(w) == 0x12) && s.gpr[B(w)] % 4 == 0
    ensures Step(s, outside) == Some(s.(
              pc := s.npc,
              npc := s.gpr[B(w)],
              gpr := if Op(w) == 0x12 then s.gpr[9 := (s.pc + 8) % 0x1_0000_0000] else s.gpr))
  {
    var c := Decoded(s, w);
    BranchResult(s, c, outside);
  }
}
