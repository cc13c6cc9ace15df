/** What every exception does to the state, in numbers. */
module ExceptionEntry {
  import opened Common
  import opened Words
  import opened Isa
  import opened Access
  import opened Runs
  import opened Fields

  predicate InSlot(s: State) {
    s.npc != (s.pc + 4) % 0x1_0000_0000
  }

  /** The first state of a handler: supervisor mode with the MMUs, interrupts and the timer off, DSX saying
      whether pc was in a delay slot, all other bits of SR kept, and pc at the vector, whose upper
      digit EPH selects. */
  function Entered(s: State, offset: u32, epcr: u32, esr: Sr, eear: u32): State
    requires offset < 0x1_0000
  {
    var vector := if s.sr.eph then 0xf000_0000 + offset else offset;
    var sr := s.sr.(sm := true, dme := false, ime := false, iee := false, tee := false, dsx := InSlot(s));
    s.(pc := vector, npc := vector + 4, sr := sr, epcr := epcr, esr := esr, eear := eear)
  }

  /** An exception that restarts: EPCR is pc, or the word in front of it in a delay slot, and ESR is SR
      with the new DSX. */
  function Faulted(s: State, offset: u32, eear: u32): State
    requires offset < 0x1_0000
  {
    Entered(s, offset, if InSlot(s) then (s.pc - 4) % 0x1_0000_0000 else s.pc, s.sr.(dsx := InSlot(s)), eear)
  }

  lemma Raised(s: State, offset: u32, ea: u32)
    requires s.branchPc == 0xffff_ffff && offset < 0x1_0000
    ensures Advance(Isa.Exception(s, offset)) == Faulted(s, offset, s.eear)
    ensures Advance(AddressException(s, offset, ea)) == Faulted(s, offset, ea)
  {
  }

  /** The fetch: a TLB miss goes to 0xa00, physical address 2 to 0x400. */
  lemma FetchFault(s: State, outside: u32)
    requires s.branchPc == 0xffff_ffff
    ensures TranslateI(s, s.pc) == 1 ==> Step(s, outside) == Some(Faulted(s, 0xa00, s.pc))
    ensures TranslateI(s, s.pc) == 2 ==> Step(s, outside) == Some(Faulted(s, 0x400, s.pc))
  {
    Raised(s, 0xa00, s.pc);
    Raised(s, 0x400, s.pc);
  }

  lemma FaultingAccess(s: State, c: Control, f: Fault, outside: u32)
    requires Fetched(s) == Some(c) && IsAccessOp(c.opcode) && FaultOf(s, c) == Some(f)
    ensures Step(s, outside) == Some(Advance(AddressException(s, f.offset, f.address)))
  {
    StepExecutes(s, c, outside);
    AccessShape(s, c, outside);
  }

  /** Loads and stores: an address that is not a multiple of the width goes to 0x600, else a translation
      that misses to 0x900.  Words and halves are translated as whole words. */
  lemma AccessFaults(s: State, w: u32, outside: u32)
    requires At(s, w) && (IsLoadWord(w) || IsStoreWord(w))
    ensures var ea, n := Address(s, w), Width(w);
            var va := if n == 1 then ea else ea - ea % 4;
            && (ea % n != 0 ==> Step(s, outside) == Some(Faulted(s, 0x600, ea)))
            && (ea % n == 0 && TranslateD(s, va) == 1 ==> Step(s, outside) == Some(Faulted(s, 0x900, va)))
  {
    var c := Decoded(s, w);
    FaultMeaning(s, c, w);
    match AccessFault(s, w)
    case Some(f) =>
      FaultingAccess(s, c, f, outside);
      Raised(s, f.offset, f.address);
    case None =>
  }

  /** l.jr and l.jalr to a misaligned address, which goes into EEAR. */
  lemma JumpFault(s: State, w: u32, outside: u32)
    requires At(s, w) && (Op(w) == 0x11 || Op(w) == 0x12) && s.gpr[B(w)] % 4 != 0
    ensures Step(s, outside) == Some(Faulted(s, 0x600, s.gpr[B(w)]))
  {
    var c := Decoded(s, w);
    StepExecutes(s, c, outside);
    Raised(s, 0x600, s.gpr[B(w)]);
  }

  /** l.sys: EPCR is the next instruction unless it stands in a delay slot, and ESR is SR as it was. */
  lemma SystemCall(s: State, w: u32, outside: u32)
    requires At(s, w) && w / 0x1_0000 == 0x2000
    ensures Step(s, outside)
         == Some(Entered(s, 0xc00, if InSlot(s) then (s.pc - 4) % 0x1_0000_0000 else s.npc, s.sr, s.eear))
  {
    var c := Decoded(s, w);
    StepExecutes(s, c, outside);
  }

  lemma Trap(s: State, w: u32, outside: u32)
    requires At(s, w) && w / 0x1_0000 == 0x2100
    ensures Step(s, outside) == Some(Faulted(s, 0xe00, s.eear))
  {
    var c := Decoded(s, w);
    StepExecutes(s, c, outside);
    Raised(s, 0xe00, s.eear);
  }

  /** l.rfe (9) goes to EPCR with the saved SR. */
  lemma Return(s: State, w: u32, outside: u32)
    requires At(s, w) && Op(w) == 0x9
    ensures Step(s, outside) == Some(s.(pc := s.epcr, npc := (s.epcr + 4) % 0x1_0000_0000, sr := s.esr))
  {
    var c := Decoded(s, w);
    StepExecutes(s, c, outside);
  }

  /** The end of an arithmetic instruction that has written its result and flags: a range exception at
      0xb00 if OV and OVE are set. */
  function Concluded(t: State): State {
    if t.sr.ove && t.sr.ov then Faulted(t, 0xb00, t.eear) else Next(t)
  }

  lemma RangeChecked(t: State)
    requires t.branchPc == 0xffff_ffff
    ensures Advance(RangeCheck(t)) == Concluded(t)
  {
    Raised(t, 0xb00, t.eear);
  }
}
