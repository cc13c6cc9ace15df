/** Restart transparency: an instruction that faults, also in a delay slot, can be resumed by l.rfe as
    if the exception had not happened. */
module Restart {
  import opened Common
  import opened Words
  import opened Isa
  import opened Access
  import opened Runs

  predicate Executes(s: State, c: Control) {
    Fetched(s) == Some(c)
  }

  /** The exception with an address that the instruction at `s` raises, if it does: a fault of the
      fetch, of a load or store, or of a jump to a misaligned address. */
  function FaultHere(s: State): Option<Fault> {
    match LoadAt(s, TranslateI(s, s.pc))
    case TlbMiss => Some(Fault(0xa00, s.pc))
    case Ignored => Some(Fault(0x400, s.pc))
    case Unwritten => None
    case Value(w) => if w == NO_INSTRUCTION then None else ExecutionFault(s, Decode(w))
  }

  function ExecutionFault(s: State, c: Control): Option<Fault> {
    if IsAccessOp(c.opcode) then FaultOf(s, c)
    else if IsRegisterJump(c.opcode) && s.gpr[c.rB] % 4 != 0 then Some(Fault(0x600, s.gpr[c.rB]))
    else None
  }

  predicate Faults(s: State) {
    FaultHere(s).Some?
  }

  predicate ReturnsFromException(s: State) {
    Fetched(s).Some? && Fetched(s).value.opcode == OP_RFE
  }

  /** The state in which the handler starts. */
  function Interrupted(s: State, f: Fault): State {
    Advance(AddressException(s, f.offset, f.address))
  }

  lemma FetchFaults(s: State, outside: u32)
    requires Fetched(s).None? && Faults(s)
    ensures Step(s, outside) == Some(Interrupted(s, FaultHere(s).value))
  {
  }

  lemma ExecutionFaults(s: State, c: Control, outside: u32)
    requires c.l < 32 && ExecutionFault(s, c).Some?
    ensures var f := ExecutionFault(s, c).value;
            Execute(s, c, outside) == Some(AddressException(s, f.offset, f.address))
  {
    if IsAccessOp(c.opcode) {
      AccessShape(s, c, outside);
    }
  }

  lemma FaultingStep(s: State, outside: u32)
    requires Faults(s)
    ensures Step(s, outside) == Some(Interrupted(s, FaultHere(s).value))
  {
    match Fetched(s)
    case None => FetchFaults(s, outside);
    case Some(c) =>
      StepExecutes(s, c, outside);
      ExecutionFaults(s, c, outside);
  }

  /** `t` has the registers and the exception registers of `s`, with no branch pending; the handler
      may have changed memory, TLBs and everything else. */
  predicate Preserves(s: State, t: State) {
    && t.gpr == s.gpr && t.machi == s.machi && t.maclo == s.maclo
    && t.esr == s.esr && t.epcr == s.epcr && t.branchPc == NO_BRANCH
  }

  /** `t` continues where `s` stands: only DSX, memory, TLBs and the exception registers may differ. */
  predicate Resumes(s: State, t: State) {
    && t.pc == s.pc && t.npc == s.npc && t.branchPc == s.branchPc
    && t.gpr == s.gpr && t.machi == s.machi && t.maclo == s.maclo
    && t.sr == s.sr.(dsx := InDelaySlot(s))
  }

  /** The state that l.rfe leads to after the fault at `m` was handled up to `h`. */
  function Returned(m: State, h: State): State {
    var at := if InDelaySlot(m) then Minus(m.pc, 4) else m.pc;
    h.(pc := at, npc := Plus(at, 4), sr := m.sr.(dsx := InDelaySlot(m)))
  }

  lemma ReturnStep(m: State, f: Fault, h: State, outside: u32)
    requires Settled(m) && Preserves(Interrupted(m, f), h) && ReturnsFromException(h)
    ensures Step(h, outside) == Some(Returned(m, h))
  {
    StepExecutes(h, Fetched(h).value, outside);
  }

  /** The interrupted program at `m` continued with all that the handler left behind in `h`. */
  function Continued(m: State, h: State): State {
    h.(pc := m.pc, npc := m.npc, sr := m.sr.(dsx := InDelaySlot(m)))
  }

  // ------------------------------------------------------------------ outside a delay slot

  /** A fault outside a delay slot resumes at the instruction itself. */
  lemma RestartOutsideSlot(m: State, h: State, o1: u32, o2: u32)
    requires Settled(m) && !InDelaySlot(m) && Faults(m)
    requires Step(m, o1).Some? && Preserves(Step(m, o1).value, h) && ReturnsFromException(h)
    ensures Step(h, o2) == Some(Continued(m, h)) && Resumes(m, Continued(m, h))
  {
    FaultingStep(m, o1);
    ReturnStep(m, FaultHere(m).value, h, o2);
  }

  // ------------------------------------------------------------------ in a delay slot

  /** The instruction at `s` is a branch, not itself in a delay slot, that is taken. */
  predicate TakesBranch(s: State, b: Control) {
    && Settled(s) && !InDelaySlot(s) && Executes(s, b)
    && IsBranchOp(b.opcode) && Takes(s, b) && Target(s, b) != NO_BRANCH
  }

  /** The state behind a taken branch. */
  function Branched(s: State, b: Control): State {
    s.(pc := s.npc, npc := Target(s, b),
       gpr := if b.opcode == OP_JAL || b.opcode == OP_JALR then s.gpr[LR := Plus(s.pc, 8)] else s.gpr)
  }

  lemma BranchStep(s: State, b: Control, outside: u32)
    requires s.branchPc == NO_BRANCH && Executes(s, b)
    requires IsBranchOp(b.opcode) && Takes(s, b) && Target(s, b) != NO_BRANCH
    ensures Step(s, outside) == Some(Branched(s, b))
  {
    StepExecutes(s, b, outside);
  }

  /** The one branch whose second execution differs: it overwrites its own target register. */
  predicate LosesTarget(b: Control) {
    b.opcode == OP_JALR && b.rB == LR
  }

  /** `r` stands at the branch again, with the registers it left behind. */
  predicate BackAtBranch(s: State, b: Control, r: State) {
    && r.gpr == Branched(s, b).gpr && r.sr.f == s.sr.f && r.branchPc == NO_BRANCH
    && r.pc == s.pc && r.npc == s.npc && Executes(r, b)
  }

  /** The branch executed again after the return. */
  lemma BranchAgain(s: State, b: Control, r: State, outside: u32)
    requires TakesBranch(s, b) && !LosesTarget(b) && BackAtBranch(s, b, r)
    ensures Step(r, outside) == Some(r.(pc := s.npc, npc := Target(s, b)))
  {
    assert Target(r, b) == Target(s, b);
    assert Takes(r, b);
    BranchStep(r, b, outside);
    assert r.gpr[LR := Plus(s.pc, 8)] == r.gpr || !(b.opcode == OP_JAL || b.opcode == OP_JALR);
  }

  /** The exceptional branch goes elsewhere the second time: behind its delay slot. */
  lemma BranchAstray(s: State, b: Control, r: State, outside: u32)
    requires TakesBranch(s, b) && LosesTarget(b) && s.gpr[LR] != Plus(s.pc, 8) && BackAtBranch(s, b, r)
    ensures Step(r, outside).Some?
    ensures Step(r, outside).value.pc != s.npc || Step(r, outside).value.npc != Target(s, b)
  {
    if Takes(r, b) {
      BranchStep(r, b, outside);
    } else {
      StepExecutes(r, b, outside);
      NotAVector(r, s.pc);
    }
  }

  lemma NotAVector(r: State, a: u32)
    requires Plus(a, 8) % 4 != 0
    ensures Vector(r, 0x600) != Plus(a, 4)
  {
    assert Vector(r, 0x600) == 0x600 || Vector(r, 0x600) == 0xf000_0600;
    KeepsAlignment(a, 4);
    KeepsAlignment(a, 8);
  }

  lemma KeepsAlignment(a: u32, k: u32)
    requires k == 4 || k == 8
    ensures Plus(a, k) % 4 == a % 4
  {
  }

  /** The state that the interrupted program sees after the return: if it was in a delay slot, the
      branch in front has been executed again. */
  function Resumed(m: State, h: State, o1: u32, o2: u32): Option<State> {
    match Step(h, o1)
    case Some(r) => if InDelaySlot(m) then Step(r, o2) else Some(r)
    case None => None
  }

  lemma ReturnedToBranch(s: State, b: Control, h: State)
    requires TakesBranch(s, b) && InDelaySlot(Branched(s, b))
    requires h.gpr == Branched(s, b).gpr && h.branchPc == NO_BRANCH && Executes(Returned(Branched(s, b), h), b)
    ensures BackAtBranch(s, b, Returned(Branched(s, b), h))
  {
    PlusMinus(s.pc);
  }

  lemma SlotAgain(s: State, b: Control, h: State, outside: u32)
    requires TakesBranch(s, b) && !LosesTarget(b) && BackAtBranch(s, b, Returned(Branched(s, b), h))
    requires h.machi == s.machi && h.maclo == s.maclo
    ensures var m := Branched(s, b);
            Step(Returned(m, h), outside) == Some(Continued(m, h)) && Resumes(m, Continued(m, h))
  {
    BranchAgain(s, b, Returned(Branched(s, b), h), outside);
  }

  lemma SlotLost(s: State, b: Control, h: State, outside: u32)
    requires TakesBranch(s, b) && LosesTarget(b) && InDelaySlot(Branched(s, b))
    requires BackAtBranch(s, b, Returned(Branched(s, b), h))
    ensures var m, t := Branched(s, b), Step(Returned(Branched(s, b), h), outside);
            t.Some? && !Resumes(m, t.value)
  {
    JumpsElsewhere(s, b);
    BranchAstray(s, b, Returned(Branched(s, b), h), outside);
  }

  lemma JumpsElsewhere(s: State, b: Control)
    requires TakesBranch(s, b) && LosesTarget(b) && InDelaySlot(Branched(s, b))
    ensures s.gpr[LR] != Plus(s.pc, 8)
  {
  }

  /** Restart behind a taken branch: a handler that preserves the registers and leaves the branch
      readable resumes the faulting instruction exactly, whatever it does to memory and TLBs.  The only
      exception is `l.jalr r9`. */
  lemma RestartBehindBranch(s: State, b: Control, h: State, o: u32, o1: u32, o2: u32)
    requires TakesBranch(s, b) && Faults(Branched(s, b))
    requires Step(Branched(s, b), o) != None && Preserves(Step(Branched(s, b), o).value, h) && ReturnsFromException(h)
    requires InDelaySlot(Branched(s, b)) ==> Executes(Returned(Branched(s, b), h), b)
    ensures var m, t := Branched(s, b), Resumed(Branched(s, b), h, o1, o2);
            && t.Some? && (Resumes(m, t.value) <==> !(InDelaySlot(m) && LosesTarget(b)))
            && (Resumes(m, t.value) ==> t.value == Continued(m, h))
  {
    var m := Branched(s, b);
    FaultingStep(m, o);
    ReturnStep(m, FaultHere(m).value, h, o1);
    if InDelaySlot(m) {
      ReturnedToBranch(s, b, h);
      if LosesTarget(b) {
        SlotLost(s, b, h, o2);
      } else {
        SlotAgain(s, b, h, o2);
      }
    }
  }

  /** The states are the same, memory included, but for DSX and the exception registers. */
  predicate OnlySavedDiffer(s: State, t: State) {
    t == s.(sr := s.sr.(dsx := t.sr.dsx), esr := t.esr, epcr := t.epcr, eear := t.eear)
  }

  /** With an l.rfe as the whole handler the state comes back entirely, but for DSX and the
      exception registers themselves. */
  lemma ImmediateReturn(s: State, b: Control, o: u32, o1: u32, o2: u32)
    requires TakesBranch(s, b) && Faults(Branched(s, b))
    requires Step(Branched(s, b), o) != None && ReturnsFromException(Step(Branched(s, b), o).value)
    ensures var m, t := Branched(s, b), Resumed(Branched(s, b), Step(Branched(s, b), o).value, o1, o2);
            && t.Some?
            && (Resumes(m, t.value) <==> !(InDelaySlot(m) && LosesTarget(b)))
            && (Resumes(m, t.value) ==> OnlySavedDiffer(m, t.value))
  {
    var m := Branched(s, b);
    FaultingStep(m, o);
    var h := Interrupted(m, FaultHere(m).value);
    if InDelaySlot(m) {
      PlusMinus(s.pc);
      assert Instruction(Returned(m, h)) == Instruction(s);
    }
    RestartBehindBranch(s, b, h, o, o1, o2);
  }

  // ------------------------------------------------------------------ whole runs

  /** State `i` of a run from a settled start, where a branch in front is not itself in a slot. */
  ghost predicate RunReaches(run: seq<State>, outside: seq<u32>, i: nat) {
    && IsRun(run, outside) && i < |run| && Settled(run[0]) && !InDelaySlot(run[0]) && SimpleSlot(run, i)
  }

  /** State `i` is in the delay slot of `l.jalr r9`. */
  predicate LostSlot(run: seq<State>, i: nat)
    requires i < |run|
  {
    InDelaySlot(run[i]) && i > 0 && Fetched(run[i - 1]).Some? && LosesTarget(Fetched(run[i - 1]).value)
  }

  /** Restart in every run: wherever an instruction faults, the handler's return resumes it, if and only
      if it is not in the delay slot of `l.jalr r9`. */
  lemma RestartInRun(run: seq<State>, outside: seq<u32>, i: nat, h: State, o: u32, o1: u32, o2: u32)
    requires RunReaches(run, outside, i) && Faults(run[i])
    requires Step(run[i], o).Some? && Preserves(Step(run[i], o).value, h) && ReturnsFromException(h)
    requires i > 0 && InDelaySlot(run[i]) ==> Fetched(Returned(run[i], h)) == Fetched(run[i - 1])
    ensures Resumed(run[i], h, o1, o2).Some?
    ensures Resumes(run[i], Resumed(run[i], h, o1, o2).value) <==> !LostSlot(run, i)
    ensures !LostSlot(run, i) ==> Resumed(run[i], h, o1, o2).value == Continued(run[i], h)
  {
    DelaySlotInvariant(run, outside, i);
    if InDelaySlot(run[i]) {
      BranchInFront(run, outside, i);
      RestartBehindBranch(run[i - 1], Fetched(run[i - 1]).value, h, o, o1, o2);
    } else {
      RestartOutsideSlot(run[i], h, o, o1);
    }
  }

  /** The same with an l.rfe as the whole handler: the whole state comes back, memory included, but
      for DSX and the exception registers. */
  lemma ImmediateReturnInRun(run: seq<State>, outside: seq<u32>, i: nat, o: u32, o1: u32, o2: u32)
    requires RunReaches(run, outside, i) && Faults(run[i])
    requires Step(run[i], o).Some? && ReturnsFromException(Step(run[i], o).value)
    ensures var t := Resumed(run[i], Step(run[i], o).value, o1, o2);
            && t.Some? && (Resumes(run[i], t.value) <==> !LostSlot(run, i))
            && (!LostSlot(run, i) ==> OnlySavedDiffer(run[i], t.value))
  {
    DelaySlotInvariant(run, outside, i);
    if InDelaySlot(run[i]) {
      BranchInFront(run, outside, i);
      ImmediateReturn(run[i - 1], Fetched(run[i - 1]).value, o, o1, o2);
    } else {
      ReturnOutsideSlot(run[i], o, o1);
    }
  }

  lemma ReturnOutsideSlot(m: State, o: u32, o1: u32)
    requires Settled(m) && !InDelaySlot(m) && Faults(m)
    requires Step(m, o).Some? && ReturnsFromException(Step(m, o).value)
    ensures Step(Step(m, o).value, o1).Some?
    ensures Resumes(m, Step(Step(m, o).value, o1).value) && OnlySavedDiffer(m, Step(Step(m, o).value, o1).value)
  {
    FaultingStep(m, o);
    RestartOutsideSlot(m, Step(m, o).value, o, o1);
  }

  lemma BranchInFront(run: seq<State>, outside: seq<u32>, i: nat)
    requires RunReaches(run, outside, i) && InDelaySlot(run[i])
    ensures i > 0 && Fetched(run[i - 1]).Some?
    ensures TakesBranch(run[i - 1], Fetched(run[i - 1]).value)
    ensures run[i] == Branched(run[i - 1], Fetched(run[i - 1]).value)
  {
    SlotFollowsBranch(run, outside, i);
    DelaySlotInvariant(run, outside, i - 1);
    assert Step(run[i - 1], outside[i - 1]) == Some(run[i - 1 + 1]);
    BranchStep(run[i - 1], Fetched(run[i - 1]).value, outside[i - 1]);
  }

  // ------------------------------------------------------------------ system calls

  predicate CallsSystem(s: State) {
    match Fetched(s)
    case Some(c) => c.opcode == OP_SYS_TRAP_SYNC && c.inst / 0x1_0000 == 0x2000
    case None => false
  }

  /** The state in which the handler of a system call starts. */
  function Called(s: State): State {
    Advance(SysCall(s))
  }

  lemma SysStep(s: State, outside: u32)
    requires CallsSystem(s)
    ensures Step(s, outside) == Some(Called(s))
  {
    StepExecutes(s, Fetched(s).value, outside);
  }

  /** The state that l.rfe leads to after a system call at `m` was handled up to `h`. */
  function SysReturned(m: State, h: State): State {
    var at := if InDelaySlot(m) then Minus(m.pc, 4) else m.npc;
    h.(pc := at, npc := Plus(at, 4), sr := m.sr)
  }

  /** Outside a delay slot a system call continues behind itself. */
  lemma SysReturnStep(m: State, h: State, outside: u32)
    requires Settled(m) && Preserves(Called(m), h) && ReturnsFromException(h)
    ensures Step(h, outside) == Some(SysReturned(m, h))
    ensures !InDelaySlot(m) ==> SysReturned(m, h) == h.(pc := m.npc, npc := Plus(m.npc, 4), sr := m.sr)
  {
    StepExecutes(h, Fetched(h).value, outside);
  }

  lemma SysBackAtBranch(s: State, b: Control, h: State)
    requires TakesBranch(s, b) && InDelaySlot(Branched(s, b))
    requires Preserves(Called(Branched(s, b)), h) && Executes(SysReturned(Branched(s, b), h), b)
    ensures BackAtBranch(s, b, SysReturned(Branched(s, b), h))
  {
    PlusMinus(s.pc);
  }

  /** In every run, a system call in a delay slot comes back to itself, not behind itself: after the
      return the branch is executed again and the state stands at the l.sys as before.  Only in the slot
      of `l.jalr r9` it does not. */
  lemma SysInSlotRepeats(run: seq<State>, outside: seq<u32>, i: nat, h: State, o: u32, o1: u32, o2: u32)
    requires RunReaches(run, outside, i) && InDelaySlot(run[i]) && CallsSystem(run[i])
    requires Step(run[i], o).Some? && Preserves(Step(run[i], o).value, h) && ReturnsFromException(h)
    requires i > 0 ==> Fetched(SysReturned(run[i], h)) == Fetched(run[i - 1])
    ensures Resumed(run[i], h, o1, o2).Some?
    ensures Resumed(run[i], h, o1, o2).value == h.(pc := run[i].pc, npc := run[i].npc, sr := run[i].sr)
       <==> !LostSlot(run, i)
    ensures !LostSlot(run, i) && h.mem == run[i].mem && h.spr == run[i].spr
        ==> CallsSystem(Resumed(run[i], h, o1, o2).value)
  {
    BranchInFront(run, outside, i);
    DelaySlotInvariant(run, outside, i);
    SysStep(run[i], o);
    SysReturnStep(run[i], h, o1);
    SysSlot(run[i - 1], Fetched(run[i - 1]).value, h, o2);
  }

  lemma SysSlot(s: State, b: Control, h: State, outside: u32)
    requires TakesBranch(s, b) && InDelaySlot(Branched(s, b)) && CallsSystem(Branched(s, b))
    requires Preserves(Called(Branched(s, b)), h) && Executes(SysReturned(Branched(s, b), h), b)
    ensures var m, t := Branched(s, b), Step(SysReturned(Branched(s, b), h), outside);
            && t.Some?
            && (t.value == h.(pc := m.pc, npc := m.npc, sr := m.sr) <==> !LosesTarget(b))
            && (!LosesTarget(b) && h.mem == m.mem && h.spr == m.spr ==> CallsSystem(t.value))
  {
    var m := Branched(s, b);
    var r := SysReturned(m, h);
    SysBackAtBranch(s, b, h);
    if LosesTarget(b) {
      JumpsElsewhere(s, b);
      BranchAstray(s, b, r, outside);
    } else {
      BranchAgain(s, b, r, outside);
      if h.mem == m.mem && h.spr == m.spr {
        assert Instruction(h.(pc := m.pc, npc := m.npc, sr := m.sr)) == Instruction(m);
      }
    }
  }

  // ------------------------------------------------------------------ both outcomes occur

  const JR_R9: u32 := 0x4400_4800
  const JALR_R9: u32 := 0x4800_4800
  const LWZ_MISALIGNED: u32 := 0x8460_0001
  const RFE: u32 := 0x2400_0000

  /** A jump through r9 at 0x100 with a misaligned load in its delay slot and an l.rfe at the vector. */
  function Start(jump: u32): State {
    var sr := Sr(true, false, false, false, false, false, false, false,
                 false, false, false, false, false, false, false, true, 0);
    State(seq(32, i => if i == LR then 0x200 else 0), 0x100, 0x104, sr, 0, 0, NO_BRANCH, sr, 0, 0, 0,
          map[0x100 := jump, 0x104 := LWZ_MISALIGNED, 0x600 := RFE], map[])
  }

  lemma Decoded()
    ensures Decode(JR_R9).opcode == OP_JR && Decode(JR_R9).rB == LR
    ensures Decode(JALR_R9).opcode == OP_JALR && Decode(JALR_R9).rB == LR
    ensures var c := Decode(LWZ_MISALIGNED); c.opcode == OP_LWZ && c.rA == 0 && c.i == 1
    ensures Decode(RFE).opcode == OP_RFE
  {
  }

  lemma Jumps(jump: u32)
    requires jump == JR_R9 || jump == JALR_R9
    ensures var s, b := Start(jump), Decode(jump);
            TakesBranch(s, b) && Branched(s, b).pc == 0x104 && Branched(s, b).npc == 0x200
  {
    Decoded();
  }

  lemma LoadFaults(jump: u32)
    requires jump == JR_R9 || jump == JALR_R9
    ensures var m, c := Branched(Start(jump), Decode(jump)), Decode(LWZ_MISALIGNED);
            FaultOf(m, c) == Some(Fault(0x600, 1)) && FaultHere(m) == Some(Fault(0x600, 1))
  {
    Decoded();
    Jumps(jump);
    var m, c := Branched(Start(jump), Decode(jump)), Decode(LWZ_MISALIGNED);
    AddressOne(m, c);
  }

  lemma AddressOne(m: State, c: Control)
    requires c.rA == 0 && c.i == 1 && m.gpr[0] == 0
    ensures EffectiveAddress(m, c) == 1
  {
    LowOne();
  }

  lemma LowOne()
    ensures Exts(1) == 1
  {
    ShrOne(15);
  }

  lemma {:induction false} ShrOne(k: nat)
    requires k > 0
    ensures Shr(1, k) == 0
  {
    if k > 1 {
      ShrOne(k - 1);
    }
  }

  lemma HandlerReturns(jump: u32)
    requires jump == JR_R9 || jump == JALR_R9
    ensures ReturnsFromException(Interrupted(Branched(Start(jump), Decode(jump)), Fault(0x600, 1)))
  {
    Decoded();
  }

  /** l.jr r9 resumes its delay slot; l.jalr r9 in the same place does not. */
  lemma BothOutcomes(o: u32, o1: u32, o2: u32)
    ensures var m := Branched(Start(JR_R9), Decode(JR_R9));
            && Step(m, o).Some? && Resumed(m, Step(m, o).value, o1, o2).Some?
            && Resumes(m, Resumed(m, Step(m, o).value, o1, o2).value)
    ensures var m := Branched(Start(JALR_R9), Decode(JALR_R9));
            && Step(m, o).Some? && Resumed(m, Step(m, o).value, o1, o2).Some?
            && !Resumes(m, Resumed(m, Step(m, o).value, o1, o2).value)
  {
    Outcome(JR_R9, o, o1, o2);
    Outcome(JALR_R9, o, o1, o2);
  }

  lemma Outcome(jump: u32, o: u32, o1: u32, o2: u32)
    requires jump == JR_R9 || jump == JALR_R9
    ensures var m := Branched(Start(jump), Decode(jump));
            && Step(m, o).Some? && Resumed(m, Step(m, o).value, o1, o2).Some?
            && (Resumes(m, Resumed(m, Step(m, o).value, o1, o2).value) <==> jump == JR_R9)
  {
    var s, b := Start(jump), Decode(jump);
    Decoded();
    Jumps(jump);
    LoadFaults(jump);
    HandlerReturns(jump);
    FaultingStep(Branched(s, b), o);
    ImmediateReturn(s, b, o, o1, o2);
  }
}
