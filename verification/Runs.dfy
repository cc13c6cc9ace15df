/** What holds in every run of the simulator: the delay-slot invariant. */
module Runs {
  import opened Common
  import opened Words
  import opened Isa
  import opened Access

  /** Between two instructions no branch is pending and r0 reads as zero. */
  predicate Settled(s: State) {
    s.branchPc == NO_BRANCH && s.gpr[0] == 0
  }

  /** The instruction word that `Step` executes, if the fetch succeeds. */
  function Instruction(s: State): Option<u32> {
    match LoadAt(s, TranslateI(s, s.pc))
    case Value(w) => if w == NO_INSTRUCTION then None else Some(w)
    case _ => None
  }

  /** The control word of the instruction at `s`. */
  function Fetched(s: State): Option<Control> {
    match Instruction(s)
    case Some(w) => Some(Decode(w))
    case None => None
  }

  lemma StepExecutes(s: State, c: Control, outside: u32)
    requires Fetched(s) == Some(c)
    ensures c.l < 32
    ensures Step(s, outside)
         == match Execute(s, c, outside)
            case Some(u) => Some(Advance(u))
            case None => None
  {
  }

  /** Where the instruction at `s` branches to, if it does. */
  function BranchesTo(s: State): Option<u32> {
    match Instruction(s)
    case Some(w) =>
      var c := Decode(w);
      if IsBranchOp(c.opcode) && Takes(s, c) && Target(s, c) != NO_BRANCH then Some(Target(s, c)) else None
    case None => None
  }

  /** `run` is a sequence of states, each the step of the one before. */
  ghost predicate IsRun(run: seq<State>, outside: seq<u32>) {
    && |run| == |outside| + 1
    && forall i {:trigger outside[i]} :: 0 <= i < |outside| ==> Step(run[i], outside[i]) == Some(run[i + 1])
  }

  /** Memory and accumulator are the same. */
  predicate Untouched(s: State, t: State) {
    t.mem == s.mem && t.machi == s.machi && t.maclo == s.maclo
  }

  /** Only a taken branch leaves a pending target behind, and nothing writes r0. */
  lemma ExecuteKeeps(s: State, c: Control, outside: u32)
    requires c.l < 32 && Settled(s) && Execute(s, c, outside).Some?
    ensures var u := Execute(s, c, outside).value;
            && u.gpr[0] == 0
            && u.branchPc == (if IsBranchOp(c.opcode) && Takes(s, c) then Target(s, c) else NO_BRANCH)
            && (IsBranchOp(c.opcode) && Takes(s, c) ==> u.npc == s.npc)
  {
    if IsBranchOp(c.opcode) {
    } else if IsAccessOp(c.opcode) {
      AccessKeeps(s, c, outside);
    } else if IsImmediateOp(c.opcode) {
      ImmediateKeeps(s, c);
    } else if c.opcode == OP_ALU {
      AluKeeps(s, c);
    }
  }

  /** Only stores write memory. */
  lemma ExecuteReads(s: State, c: Control, outside: u32)
    requires c.l < 32 && Settled(s) && !IsStore(c.opcode) && Execute(s, c, outside).Some?
    ensures Execute(s, c, outside).value.mem == s.mem
  {
    if IsBranchOp(c.opcode) {
    } else if IsAccessOp(c.opcode) {
      AccessKeeps(s, c, outside);
    } else if IsImmediateOp(c.opcode) {
      ImmediateKeeps(s, c);
    } else if c.opcode == OP_ALU {
      AluKeeps(s, c);
    }
  }

  lemma AccessKeeps(s: State, c: Control, outside: u32)
    requires Settled(s)
    ensures Settled(MemoryAccess(s, c, outside))
    ensures !IsStore(c.opcode) ==> Untouched(s, MemoryAccess(s, c, outside))
  {
    AccessShape(s, c, outside);
  }

  lemma ImmediateKeeps(s: State, c: Control)
    requires Settled(s)
    ensures Settled(Immediate(s, c)) && Untouched(s, Immediate(s, c))
  {
  }

  lemma ArithmeticKeeps(s: State, op: nat, rD: Reg, a: u32, b: u32)
    requires Settled(s) && IsArithmetic(op)
    ensures Settled(ArithmeticBase(s, op, rD, a, b)) && Untouched(s, ArithmeticBase(s, op, rD, a, b))
  {
  }

  lemma RangeKeeps(s: State)
    requires Settled(s)
    ensures Settled(RangeCheck(s)) && Untouched(s, RangeCheck(s))
  {
  }

  lemma AluKeeps(s: State, c: Control)
    requires Settled(s) && Alu(s, c).Some?
    ensures Settled(Alu(s, c).value) && Untouched(s, Alu(s, c).value)
  {
    var a, b := s.gpr[c.rA], s.gpr[c.rB];
    if IsArithmetic(c.aluOp) {
      ArithmeticKeeps(s, c.aluOp, c.rD, a, b);
      RangeKeeps(ArithmeticBase(s, c.aluOp, c.rD, a, b));
    }
  }

  /** After a step, npc is the branch target or the word behind pc. */
  lemma StepShape(s: State, outside: u32)
    requires Settled(s) && Step(s, outside).Some?
    ensures var t := Step(s, outside).value;
            && Settled(t)
            && (BranchesTo(s).None? ==> !InDelaySlot(t))
            && (BranchesTo(s).Some? ==> t.pc == s.npc && t.npc == BranchesTo(s).value)
  {
    match Instruction(s)
    case Some(w) => ExecuteKeeps(s, Decode(w), outside);
    case None =>
  }

  /** In every run, npc differs from pc + 4 exactly when the instruction just executed was a taken
      branch to somewhere else; between all instructions r0 is zero and no branch is pending. */
  lemma {:induction false} DelaySlotInvariant(run: seq<State>, outside: seq<u32>, i: nat)
    requires IsRun(run, outside) && i < |run|
    requires Settled(run[0]) && !InDelaySlot(run[0])
    ensures Settled(run[i])
    ensures InDelaySlot(run[i])
       <==> i > 0 && BranchesTo(run[i - 1]).Some? && BranchesTo(run[i - 1]).value != Plus(run[i - 1].npc, 4)
    ensures InDelaySlot(run[i]) ==> run[i].pc == run[i - 1].npc && run[i].npc == BranchesTo(run[i - 1]).value
  {
    if i > 0 {
      DelaySlotInvariant(run, outside, i - 1);
      assert Step(run[i - 1], outside[i - 1]) == Some(run[i - 1 + 1]);
      StepShape(run[i - 1], outside[i - 1]);
    }
  }

  /** If state `i` of a run is in a delay slot, then the branch in front is not in one itself. */
  ghost predicate SimpleSlot(run: seq<State>, i: nat)
    requires i < |run|
  {
    i > 0 && InDelaySlot(run[i]) ==> !InDelaySlot(run[i - 1])
  }

  /** Unless the branch in front is itself in a delay slot, pc - 4, which exceptions save into EPCR, is
      its address. */
  lemma SlotFollowsBranch(run: seq<State>, outside: seq<u32>, i: nat)
    requires IsRun(run, outside) && i < |run| && Settled(run[0]) && !InDelaySlot(run[0]) && SimpleSlot(run, i)
    ensures InDelaySlot(run[i]) ==>
              i > 0 && run[i - 1].pc == Minus(run[i].pc, 4) && BranchesTo(run[i - 1]) == Some(run[i].npc)
  {
    DelaySlotInvariant(run, outside, i);
    if InDelaySlot(run[i]) {
      PlusMinus(run[i - 1].pc);
    }
  }

  lemma PlusMinus(a: u32)
    ensures Minus(Plus(a, 4), 4) == a && Plus(Minus(a, 4), 4) == a
  {
  }

  /** Reset is a possible start of such a run. */
  lemma ResetSettled(mem: map<u32, u32>, spr: map<u32, u32>)
    ensures var s := ResetState(mem, spr);
            && Settled(s) && !InDelaySlot(s) && Mac(s) == 0
            && s.pc == 0x100 && s.npc == 0x104 && SrToWord(s.sr) == 0x8001 && (forall r: Reg :: s.gpr[r] == 0)
            && s.mem == mem && s.spr == spr
  {
    ResetRegisters(mem, spr);
    WordRoundTrip(0x8001);
  }

  lemma ResetRegisters(mem: map<u32, u32>, spr: map<u32, u32>)
    ensures var s := ResetState(mem, spr);
            && (forall r: Reg :: s.gpr[r] == 0) && s.branchPc == NO_BRANCH && Mac(s) == 0
            && s.pc == 0x100 && s.npc == 0x104 && s.sr == WordToSr(0x8001) && s.mem == mem && s.spr == spr
  {
  }
}
