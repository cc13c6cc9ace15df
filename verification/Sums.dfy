/** Results that several arithmetic instructions compute together: sums of many words, and the
    multiply-accumulate unit over whole runs. */
module Sums {
  import opened Common
  import opened Words
  import opened Arithmetic
  import opened Isa
  import opened Access
  import opened Runs
  import opened Fields
  import Encoding
  import Operations

  // ------------------------------------------------------------------ sums of many words

  /** A number from its words, the least significant one first. */
  function Number(words: seq<u32>): nat {
    if |words| == 0 then 0 else words[0] + WORD * Number(words[1..])
  }

  /** 2^32 to the power `n`. */
  function Base(n: nat): nat {
    if n == 0 then 1 else WORD * Base(n - 1)
  }

  /** An `l.add` or `l.addc` of two registers into a third one, with the state it executes in. */
  datatype Addition = Addition(before: State, inst: Control)

  predicate IsAddition(x: Addition) {
    x.inst.aluOp <= 1 && x.inst.rD != 0
  }

  function CarryIn(x: Addition): bool {
    x.inst.aluOp == 1 && x.before.sr.cy
  }

  function LeftOperand(x: Addition): u32 {
    x.before.gpr[x.inst.rA]
  }

  function RightOperand(x: Addition): u32 {
    x.before.gpr[x.inst.rB]
  }

  function After(x: Addition): State {
    AddBase(x.before, CarryIn(x), x.inst.rD, LeftOperand(x), RightOperand(x))
  }

  /** The registers and the carry are those of the instruction, even if it raises a range exception. */
  lemma AdditionExecutes(x: Addition, outside: u32)
    requires IsAddition(x) && x.inst.opcode == OP_ALU && x.inst.l < 32
    ensures var t := Execute(x.before, x.inst, outside);
            t.Some? && t.value.gpr == After(x).gpr && t.value.sr.cy == After(x).sr.cy
  {
  }

  function Result(x: Addition): u32 {
    After(x).gpr[x.inst.rD]
  }

  function CarryOut(x: Addition): bool {
    After(x).sr.cy
  }

  ghost predicate Additions(adds: seq<Addition>) {
    forall k :: 0 <= k < |adds| ==> IsAddition(adds[k])
  }

  function Lefts(adds: seq<Addition>): seq<u32> {
    seq(|adds|, k requires 0 <= k < |adds| => LeftOperand(adds[k]))
  }

  function Rights(adds: seq<Addition>): seq<u32> {
    seq(|adds|, k requires 0 <= k < |adds| => RightOperand(adds[k]))
  }

  function Results(adds: seq<Addition>): seq<u32> {
    seq(|adds|, k requires 0 <= k < |adds| => Result(adds[k]))
  }

  /** The carries before each addition and behind the last one. */
  function Carries(adds: seq<Addition>): (c: seq<bool>)
    requires 0 < |adds|
    ensures |c| == |adds| + 1
  {
    seq(|adds| + 1, k requires 0 <= k <= |adds| => if k == 0 then CarryIn(adds[0]) else CarryOut(adds[k - 1]))
  }

  /** All but the first addition take the carry of the one before; in between anything may happen
      that keeps the carry. */
  ghost predicate Chained(adds: seq<Addition>) {
    && Additions(adds)
    && (forall k :: 0 < k < |adds| ==> CarryIn(adds[k]) == CarryOut(adds[k - 1]))
  }

  lemma OneAddition(x: Addition)
    requires IsAddition(x)
    ensures Result(x) + WORD * Bit(CarryOut(x)) == LeftOperand(x) + RightOperand(x) + Bit(CarryIn(x))
  {
  }

  lemma AdditionAt(adds: seq<Addition>, k: nat)
    requires k < |adds| && Chained(adds)
    ensures Results(adds)[k] + WORD * Bit(Carries(adds)[k + 1])
         == Lefts(adds)[k] + Rights(adds)[k] + Bit(Carries(adds)[k])
  {
    OneAddition(adds[k]);
    assert Carries(adds)[k + 1] == CarryOut(adds[k]);
    assert Carries(adds)[k] == CarryIn(adds[k]);
  }

  /** Adding word by word with carries `c`. */
  lemma {:induction false} CarryChain(a: seq<u32>, b: seq<u32>, r: seq<u32>, c: seq<bool>)
    requires |a| == |b| == |r| == |c| - 1
    requires forall k :: 0 <= k < |a| ==> r[k] + WORD * Bit(c[k + 1]) == a[k] + b[k] + Bit(c[k])
    ensures Number(r) + (if c[|a|] then Base(|a|) else 0) == Number(a) + Number(b) + Bit(c[0])
  {
    if |a| > 0 {
      assert r[0] + WORD * Bit(c[0 + 1]) == a[0] + b[0] + Bit(c[0]);
      CarryChain(a[1..], b[1..], r[1..], c[1..]);
    }
  }

  /** `l.add` followed by any number of `l.addc` adds numbers of any length exactly. */
  lemma MultiwordSum(adds: seq<Addition>)
    requires |adds| > 0 && Chained(adds)
    ensures Number(Results(adds)) + (if CarryOut(adds[|adds| - 1]) then Base(|adds|) else 0)
         == Number(Lefts(adds)) + Number(Rights(adds)) + Bit(CarryIn(adds[0]))
  {
    forall k | 0 <= k < |adds|
      ensures Results(adds)[k] + WORD * Bit(Carries(adds)[k + 1])
           == Lefts(adds)[k] + Rights(adds)[k] + Bit(Carries(adds)[k])
    {
      AdditionAt(adds, k);
    }
    CarryChain(Lefts(adds), Rights(adds), Results(adds), Carries(adds));
  }

  // ------------------------------------------------------------------ sums within a run

  /** The instruction `c` may change the carry flag. */
  predicate ChangesCarry(s: State, c: Control) {
    || (c.opcode == OP_ALU && IsArithmetic(c.aluOp))
    || c.opcode == OP_ADDI || c.opcode == OP_ADDIC || c.opcode == OP_MULI || c.opcode == OP_RFE
    || (c.opcode == OP_MTSPR && BitOr(s.gpr[c.rA], c.k) == SPR_SR)
  }

  predicate WritesCarry(s: State) {
    Fetched(s).Some? && ChangesCarry(s, Fetched(s).value)
  }

  lemma AccessKeepsCarry(s: State, c: Control, outside: u32)
    ensures MemoryAccess(s, c, outside).sr.cy == s.sr.cy
  {
    AccessShape(s, c, outside);
  }

  lemma AluKeepsCarry(s: State, c: Control)
    requires !IsArithmetic(c.aluOp) && Alu(s, c).Some?
    ensures Alu(s, c).value.sr.cy == s.sr.cy
  {
  }

  lemma ImmediateKeepsCarry(s: State, c: Control)
    requires c.opcode != OP_ADDI && c.opcode != OP_ADDIC && c.opcode != OP_MULI
    ensures Immediate(s, c).sr.cy == s.sr.cy
  {
  }

  lemma OtherKeepsCarry(s: State, c: Control)
    requires c.l < 32 && !ChangesCarry(s, c) && ExecuteOther(s, c).Some?
    ensures ExecuteOther(s, c).value.sr.cy == s.sr.cy
  {
  }

  lemma ExecuteKeepsCarry(s: State, c: Control, outside: u32)
    requires c.l < 32 && !ChangesCarry(s, c) && Execute(s, c, outside).Some?
    ensures Execute(s, c, outside).value.sr.cy == s.sr.cy
  {
    if IsBranchOp(c.opcode) {
    } else if IsAccessOp(c.opcode) {
      AccessKeepsCarry(s, c, outside);
    } else if IsImmediateOp(c.opcode) {
      ImmediateKeepsCarry(s, c);
    } else if c.opcode == OP_SFI || c.opcode == OP_SF {
    } else if c.opcode == OP_ALU {
      AluKeepsCarry(s, c);
    } else {
      OtherKeepsCarry(s, c);
    }
  }

  lemma AdvanceKeepsCarry(s: State)
    ensures Advance(s).sr == s.sr
  {
  }

  lemma StepKeepsCarry(s: State, outside: u32)
    requires Step(s, outside).Some? && !WritesCarry(s)
    ensures Step(s, outside).value.sr.cy == s.sr.cy
  {
    match Fetched(s)
    case None =>
    case Some(c) =>
      StepExecutes(s, c, outside);
      ExecuteKeepsCarry(s, c, outside);
      AdvanceKeepsCarry(Execute(s, c, outside).value);
  }

  lemma {:induction false} SpanKeepsCarry(run: seq<State>, outside: seq<u32>, i: nat, k: nat)
    requires IsRun(run, outside) && i <= k < |run|
    requires forall m :: i <= m < k ==> !WritesCarry(run[m])
    ensures run[k].sr.cy == run[i].sr.cy
  {
    if i < k {
      SpanKeepsCarry(run, outside, i, k - 1);
      assert Step(run[k - 1], outside[k - 1]) == Some(run[k - 1 + 1]);
      StepKeepsCarry(run[k - 1], outside[k - 1]);
    }
  }

  /** The instruction at `s` is an `l.add`, or an `l.addc`, into a real register. */
  predicate SumsAt(s: State, withCarry: bool) {
    match Fetched(s)
    case None => false
    case Some(c) => c.opcode == OP_ALU && c.aluOp == (if withCarry then 1 else 0) && c.rD != 0
  }

  /** An `l.add` at the first of the places `at` in the run and an `l.addc` at every other one, with no
      instruction in between that may change the carry. */
  ghost predicate LongSum(run: seq<State>, at: seq<nat>) {
    && 0 < |at|
    && (forall j :: 0 <= j < |at| ==> at[j] + 1 < |run| && SumsAt(run[at[j]], j > 0))
    && (forall j :: 0 < j < |at| ==> CarryWaits(run, at[j - 1], at[j]))
  }

  ghost predicate CarryWaits(run: seq<State>, p: nat, q: nat) {
    p < q <= |run| && forall m :: p < m < q ==> !WritesCarry(run[m])
  }

  /** The additions at these places. */
  ghost function AdditionsOf(run: seq<State>, at: seq<nat>): (adds: seq<Addition>)
    requires LongSum(run, at)
    ensures |adds| == |at|
  {
    seq(|at|, j requires 0 <= j < |at| => Addition(run[at[j]], Fetched(run[at[j]]).value))
  }

  /** The destination registers right behind each of the additions. */
  ghost function Destinations(run: seq<State>, at: seq<nat>): (words: seq<u32>)
    requires LongSum(run, at)
    ensures |words| == |at|
  {
    seq(|at|, j requires 0 <= j < |at| => run[at[j] + 1].gpr[Fetched(run[at[j]]).value.rD])
  }

  lemma AdditionStep(run: seq<State>, outside: seq<u32>, p: nat, withCarry: bool)
    requires IsRun(run, outside) && p < |outside| && SumsAt(run[p], withCarry)
    ensures var x := Addition(run[p], Fetched(run[p]).value);
            run[p + 1].gpr[x.inst.rD] == Result(x) && run[p + 1].sr.cy == CarryOut(x)
  {
    var x := Addition(run[p], Fetched(run[p]).value);
    assert Step(run[p], outside[p]) == Some(run[p + 1]);
    StepExecutes(run[p], x.inst, outside[p]);
    AdditionExecutes(x, outside[p]);
  }

  lemma CarryArrives(run: seq<State>, outside: seq<u32>, at: seq<nat>, j: nat)
    requires IsRun(run, outside) && LongSum(run, at) && 0 < j < |at|
    ensures CarryIn(AdditionsOf(run, at)[j]) == CarryOut(AdditionsOf(run, at)[j - 1])
  {
    assert CarryWaits(run, at[j - 1], at[j]) && SumsAt(run[at[j]], j > 0);
    AdditionStep(run, outside, at[j - 1], j - 1 > 0);
    SpanKeepsCarry(run, outside, at[j - 1] + 1, at[j]);
  }

  lemma RunChained(run: seq<State>, outside: seq<u32>, at: seq<nat>)
    requires IsRun(run, outside) && LongSum(run, at)
    ensures Chained(AdditionsOf(run, at)) && !CarryIn(AdditionsOf(run, at)[0])
  {
    var adds := AdditionsOf(run, at);
    forall j | 0 <= j < |adds| ensures IsAddition(adds[j]) && (j == 0 ==> !CarryIn(adds[j])) {
      assert SumsAt(run[at[j]], j > 0);
    }
    forall j | 0 < j < |adds| ensures CarryIn(adds[j]) == CarryOut(adds[j - 1]) {
      CarryArrives(run, outside, at, j);
    }
  }

  lemma ResultsWritten(run: seq<State>, outside: seq<u32>, at: seq<nat>)
    requires IsRun(run, outside) && LongSum(run, at)
    ensures Destinations(run, at) == Results(AdditionsOf(run, at))
  {
    var adds := AdditionsOf(run, at);
    forall j | 0 <= j < |at| ensures Destinations(run, at)[j] == Results(adds)[j] {
      AdditionStep(run, outside, at[j], j > 0);
    }
  }

  lemma LastCarry(run: seq<State>, outside: seq<u32>, at: seq<nat>)
    requires IsRun(run, outside) && LongSum(run, at)
    ensures run[at[|at| - 1] + 1].sr.cy == CarryOut(AdditionsOf(run, at)[|at| - 1])
  {
    AdditionStep(run, outside, at[|at| - 1], |at| - 1 > 0);
  }

  /** In every run, an `l.add` and any number of `l.addc`, with the carry left alone in between, add
      numbers of any length exactly: the words found in the destination registers and the last carry
      are the sum of the numbers in the source registers. */
  lemma LongSumInRun(run: seq<State>, outside: seq<u32>, at: seq<nat>)
    requires IsRun(run, outside) && LongSum(run, at)
    ensures Number(Destinations(run, at)) + (if run[at[|at| - 1] + 1].sr.cy then Base(|at|) else 0)
         == Number(Lefts(AdditionsOf(run, at))) + Number(Rights(AdditionsOf(run, at)))
  {
    RunChained(run, outside, at);
    ResultsWritten(run, outside, at);
    LastCarry(run, outside, at);
    MultiwordSum(AdditionsOf(run, at));
  }

  // ------------------------------------------------------------------ flags of single instructions

  /** After `l.sub` into a real register, carry is the unsigned borrow and overflow is exact. */
  lemma SubFlags(s: State, rD: Reg, a: u32, b: u32)
    requires rD != 0
    ensures var t := SubBase(s, rD, a, b);
            && t.gpr[rD] == (a - b) % WORD
            && (t.sr.cy <==> a < b)
            && (t.sr.ov <==> !FitsSigned(ToInt(a) - ToInt(b)))
  {
  }

  /** With r0 as destination the overflow test looks at the zero that was kept instead of the
      difference.  OV is then right exactly if the signs agree or the difference word is not negative. */
  lemma SubIntoZero(s: State, a: u32, b: u32)
    ensures var t := SubBase(s, 0, a, b);
            && (t.sr.cy <==> a < b)
            && (t.sr.ov <==> IsNeg(a) && !IsNeg(b))
            && ((t.sr.ov <==> !FitsSigned(ToInt(a) - ToInt(b))) <==> IsNeg(a) == IsNeg(b) || !IsNeg(Minus(a, b)))
  {
  }

  /** For example, -1 - 0 sets OV in r0 although it does not overflow. */
  lemma SubIntoZeroWrong(s: State)
    ensures SubBase(s, 0, 0xffff_ffff, 0).sr.ov && FitsSigned(ToInt(0xffff_ffff) - ToInt(0))
  {
  }

  /** The outcome of a multiplication with signed product `p` and unsigned product `q`. */
  ghost predicate Multiplied(t: State, rD: Reg, p: int, q: int) {
    && t.gpr[rD] == ToWord(p) == ToWord(q)
    && (t.sr.ov <==> ToInt(t.gpr[rD]) != p)
    && (t.sr.cy <==> t.gpr[rD] != q)
  }

  /** The low word of a product is the same for signed and unsigned factors; the flags say for which
      reading it is not the whole product. */
  lemma MulFlags(s: State, rD: Reg, a: u32, b: u32)
    requires rD != 0
    ensures Multiplied(MulBase(s, rD, a, b), rD, ToInt(a) * ToInt(b), a * b)
  {
    SignedLowWord(a, b);
    MulMonotone(0, a, 0, b);
    FlagsOfProducts(s, rD, ToInt(a) * ToInt(b), a * b);
  }

  lemma FlagsOfProducts(s: State, rD: Reg, p: int, q: int)
    requires rD != 0 && q >= 0 && ToWord(p) == ToWord(q)
    ensures var t := SetGpr(s, rD, ToWord(p));
            Multiplied(t.(sr := t.sr.(ov := !FitsSigned(p), cy := q >= WORD)), rD, p, q)
  {
    Reads(p, q);
  }

  lemma SignedLowWord(a: u32, b: u32)
    ensures ToWord(ToInt(a) * ToInt(b)) == ToWord(a * b)
  {
    var x, y := if IsNeg(a) then 1 else 0, if IsNeg(b) then 1 else 0;
    assert ToInt(a) * ToInt(b) == a * b - WORD * (x * b + y * a - WORD * (x * y)) by {
      ProductOfDifferences(a, x, b, y);
    }
    MultipleOfWord(a * b, x * b + y * a - WORD * (x * y));
  }

  lemma ProductOfDifferences(a: int, x: int, b: int, y: int)
    requires 0 <= x <= 1 && 0 <= y <= 1
    ensures (a - WORD * x) * (b - WORD * y) == a * b - WORD * (x * b + y * a - WORD * (x * y))
  {
  }

  lemma MultipleOfWord(n: int, k: int)
    ensures (n - WORD * k) % WORD == n % WORD
  {
  }

  lemma Reads(p: int, q: nat)
    requires ToWord(p) == ToWord(q)
    ensures ToInt(ToWord(p)) == p <==> FitsSigned(p)
    ensures ToWord(p) == q <==> q < WORD
  {
  }

  // ------------------------------------------------------------------ the accumulator

  predicate IsMac(c: Control) {
    c.opcode == OP_MAC || c.opcode == OP_MACI
  }

  /** The signed product that the instruction at `s` adds to the accumulator: l.maci (0x13) that of rA and the
      immediate, l.mac (0x31 with 1 in the low bits) that of rA and rB, l.msb (with 2) the same negated. */
  function Contribution(s: State): int {
    match Instruction(s)
    case None => 0
    case Some(w) =>
      var a, b := Signed(s.gpr[A(w)], 0x8000_0000), Signed(s.gpr[B(w)], 0x8000_0000);
      if Op(w) == 0x13 then a * Signed(Imm(w), 0x8000)
      else if Op(w) == 0x31 && w % 16 == 1 then a * b
      else if Op(w) == 0x31 && w % 16 == 2 then -(a * b)
      else 0
  }

  /** `w` is l.macrc. */
  predicate IsMacrc(w: u32) {
    Op(w) == 0x6 && w % 0x2_0000 == 0x1_0000
  }

  /** The instruction at `s` overwrites the accumulator: l.macrc, or l.mtspr (0x30) to one of its halves. */
  predicate Overwrites(s: State) {
    match Instruction(s)
    case None => false
    case Some(w) => IsMacrc(w) || (Op(w) == 0x30 && BitOr(s.gpr[A(w)], SplitImm(w)) in {0x2801, 0x2802})
  }

  lemma ContributionMeaning(s: State, c: Control, w: u32)
    requires Instruction(s) == Some(w) && Matches(c, w) && IsMac(c) && Product(s, c).Some?
    ensures Product(s, c).value == Contribution(s)
  {
    SignedWord(s.gpr[c.rA]);
    SignedWord(s.gpr[c.rB]);
    Encoding.ImmediateMeaning(Imm(w));
  }

  lemma SignedWord(x: u32)
    ensures ToInt(x) == Signed(x, 0x8000_0000)
  {
  }

  /** The sum of the contributions of the first `k` instructions of a run. */
  function Total(run: seq<State>, k: nat): int
    requires k <= |run|
  {
    if k == 0 then 0 else Total(run, k - 1) + Contribution(run[k - 1])
  }

  lemma AccumulateMeaning(s: State, addend: int)
    ensures Mac(Accumulate(s, addend)) == (Mac(s) + addend) % DWORD
  {
    var m := (Mac(s) + addend) % DWORD;
    assert m == m % WORD + m / WORD * WORD;
  }

  lemma OthersKeepMac(s: State, c: Control, outside: u32)
    requires c.l < 32 && Settled(s) && Execute(s, c, outside).Some?
    requires !IsMac(c) && c.opcode != OP_MTSPR && !(c.opcode == OP_MACRC_MOVHI && c.inst % 0x2_0000 == 0x1_0000)
    ensures Mac(Execute(s, c, outside).value) == Mac(s)
  {
    if IsBranchOp(c.opcode) {
    } else if IsAccessOp(c.opcode) {
      AccessShape(s, c, outside);
    } else if IsImmediateOp(c.opcode) {
      ImmediateKeeps(s, c);
    } else if c.opcode == OP_ALU {
      AluKeeps(s, c);
    }
  }

  /** `t` has `p` more in the accumulator than `s`. */
  ghost predicate Adds(s: State, t: State, p: int) {
    Mac(t) == (Mac(s) + p) % DWORD
  }

  lemma OtherStep(s: State, w: u32, c: Control, outside: u32)
    requires Settled(s) && At(s, w) && Fetched(s) == Some(c) && Matches(c, w) && !IsMac(c)
    requires !Overwrites(s) && Step(s, outside).Some?
    ensures Mac(Step(s, outside).value) == Mac(s)
  {
    StepExecutes(s, c, outside);
    if c.opcode == OP_MTSPR {
      MtsprKeepsMac(s, BitOr(s.gpr[c.rA], c.k), s.gpr[c.rB]);
    } else {
      OthersKeepMac(s, c, outside);
    }
  }

  lemma StepAccumulates(s: State, outside: u32)
    requires Settled(s) && Step(s, outside).Some? && !Overwrites(s)
    ensures Adds(s, Step(s, outside).value, Contribution(s))
  {
    match Instruction(s)
    case None => NoInstruction(s, outside);
    case Some(w) =>
      var c := Decoded(s, w);
      if IsMac(c) {
        MacStep(s, c, outside);
        ContributionMeaning(s, c, w);
      } else {
        OtherStep(s, w, c, outside);
        AddsNothing(s, Step(s, outside).value);
      }
  }

  lemma AddsNothing(s: State, t: State)
    requires Mac(t) == Mac(s)
    ensures Adds(s, t, 0)
  {
  }

  lemma NoInstruction(s: State, outside: u32)
    requires Fetched(s).None? && Step(s, outside).Some?
    ensures Adds(s, Step(s, outside).value, 0)
  {
    assert Step(s, outside) == Some(Advance(Fetch(s).0));
    FetchKeepsMac(s);
    AdvanceKeepsMac(Fetch(s).0);
    AddsNothing(s, Advance(Fetch(s).0));
  }

  lemma FetchKeepsMac(s: State)
    ensures Mac(Fetch(s).0) == Mac(s)
  {
  }

  lemma MacExecutes(s: State, c: Control, outside: u32)
    requires c.l < 32 && IsMac(c) && Execute(s, c, outside).Some?
    ensures Product(s, c).Some? && Execute(s, c, outside) == Some(Accumulate(s, Product(s, c).value))
  {
  }

  lemma MacStep(s: State, c: Control, outside: u32)
    requires Fetched(s) == Some(c) && IsMac(c) && Step(s, outside).Some?
    ensures Product(s, c).Some?
    ensures Adds(s, Step(s, outside).value, Product(s, c).value)
  {
    StepExecutes(s, c, outside);
    MacExecutes(s, c, outside);
    AccumulateMeaning(s, Product(s, c).value);
    AdvanceKeepsMac(Accumulate(s, Product(s, c).value));
  }

  /** l.mac, l.msb and l.maci change the accumulator alone, whose upper half is machi. */
  lemma AccumulatorStep(s: State, w: u32, outside: u32)
    requires At(s, w) && (Op(w) == 0x13 || (Op(w) == 0x31 && (w % 16 == 1 || w % 16 == 2)))
    ensures Step(s, outside).Some?
    ensures var t := Step(s, outside).value;
            && t == Next(s).(machi := t.machi, maclo := t.maclo)
            && t.machi * 0x1_0000_0000 + t.maclo
            == (s.machi * 0x1_0000_0000 + s.maclo + Contribution(s)) % 0x1_0000_0000_0000_0000
  {
    var c := Decoded(s, w);
    StepExecutes(s, c, outside);
    MacStep(s, c, outside);
    ContributionMeaning(s, c, w);
    OnlyAccumulator(s, Contribution(s));
    MacExecutes(s, c, outside);
  }

  lemma OnlyAccumulator(s: State, p: int)
    requires s.branchPc == NO_BRANCH
    ensures var t := Advance(Accumulate(s, p)); t == Next(s).(machi := t.machi, maclo := t.maclo)
  {
  }

  lemma AdvanceKeepsMac(s: State)
    ensures Mac(Advance(s)) == Mac(s)
  {
  }

  lemma MtsprKeepsMac(s: State, n: u32, v: u32)
    requires n != SPR_MACLO && n != SPR_MACHI
    ensures Mac(SetSpr(s, n, v)) == Mac(s)
  {
  }

  lemma RunStep(run: seq<State>, outside: seq<u32>, i: nat)
    requires IsRun(run, outside) && i < |outside| && Settled(run[i]) && !Overwrites(run[i])
    ensures Settled(run[i + 1]) && Adds(run[i], run[i + 1], Contribution(run[i]))
  {
    assert Step(run[i], outside[i]) == Some(run[i + 1]);
    StepShape(run[i], outside[i]);
    StepAccumulates(run[i], outside[i]);
  }

  /** In every run that does not overwrite the accumulator, it holds its initial value plus the signed
      sum of all products, modulo 2^64. */
  lemma {:induction false} RunAccumulates(run: seq<State>, outside: seq<u32>, k: nat)
    requires IsRun(run, outside) && k < |run| && Settled(run[0])
    requires forall i :: 0 <= i < k ==> !Overwrites(run[i])
    ensures Settled(run[k]) && Adds(run[0], run[k], Total(run, k))
  {
    if k > 0 {
      RunAccumulates(run, outside, k - 1);
      RunStep(run, outside, k - 1);
      AddsTwice(run[0], run[k - 1], run[k], Total(run, k - 1), Contribution(run[k - 1]));
    }
  }

  lemma AddsTwice(s: State, t: State, u: State, p: int, q: int)
    requires Adds(s, t, p) && Adds(t, u, q)
    ensures Adds(s, u, p + q)
  {
    SumGrows(Mac(s), Mac(t), Mac(u), p, q);
  }

  lemma SumGrows(first: u64, before: u64, after: u64, total: int, addend: int)
    requires before == (first + total) % DWORD && after == (before + addend) % DWORD
    ensures after == (first + (total + addend)) % DWORD
  {
    AddModulo(first + total, addend);
  }

  lemma AddModulo(a: int, b: int)
    ensures (a % DWORD + b) % DWORD == (a + b) % DWORD
  {
    var q := a / DWORD;
    assert a == q * DWORD + a % DWORD;
    MultipleOfDword(a % DWORD + b, q);
  }

  lemma MultipleOfDword(n: int, k: int)
    ensures (n + k * DWORD) % DWORD == n % DWORD
  {
  }

  lemma AddsToZero(s: State, t: State, p: int)
    requires Adds(s, t, p) && Mac(s) == 0
    ensures Mac(t) == p % DWORD
  {
  }

  lemma LowHalfOfMac(s: State)
    ensures Mac(s) % WORD == s.maclo
  {
  }

  lemma MacrcStep(s: State, w: u32, outside: u32)
    requires At(s, w) && IsMacrc(w)
    ensures Step(s, outside).Some? && Mac(Step(s, outside).value) == 0
    ensures D(w) != 0 ==> Step(s, outside).value.gpr[D(w)] == s.maclo
  {
    Operations.MoveHigh(s, w, outside);
  }

  /** From one `l.macrc`, at `s`, to the next, at `run[k]`: in between the accumulator holds the
      signed sum of all products since, and the second one delivers its low word and clears it. */
  lemma MacrcDelivers(s: State, o: u32, v: u32, run: seq<State>, outside: seq<u32>, k: nat, w: u32)
    requires Settled(s) && At(s, v) && IsMacrc(v)
    requires IsRun(run, outside) && k < |outside| && Step(s, o) == Some(run[0])
    requires forall i :: 0 <= i < k ==> !Overwrites(run[i])
    requires At(run[k], w) && IsMacrc(w) && D(w) != 0
    ensures Mac(run[k]) == Total(run, k) % DWORD
    ensures run[k + 1].gpr[D(w)] == ToWord(Total(run, k)) && Mac(run[k + 1]) == 0
  {
    MacrcStep(s, v, o);
    StepShape(s, o);
    SumSinceMacrc(run, outside, k);
    LastMacrc(run, outside, k, w);
    LowHalfOfMac(run[k]);
    LowWordOf(Total(run, k));
  }

  lemma SumSinceMacrc(run: seq<State>, outside: seq<u32>, k: nat)
    requires IsRun(run, outside) && k < |run| && Settled(run[0]) && Mac(run[0]) == 0
    requires forall i :: 0 <= i < k ==> !Overwrites(run[i])
    ensures Mac(run[k]) == Total(run, k) % DWORD
  {
    RunAccumulates(run, outside, k);
    AddsToZero(run[0], run[k], Total(run, k));
  }

  lemma LastMacrc(run: seq<State>, outside: seq<u32>, k: nat, w: u32)
    requires IsRun(run, outside) && k < |outside| && At(run[k], w) && IsMacrc(w) && D(w) != 0
    ensures run[k + 1].gpr[D(w)] == run[k].maclo && Mac(run[k + 1]) == 0
  {
    assert Step(run[k], outside[k]) == Some(run[k + 1]);
    MacrcStep(run[k], w, outside[k]);
  }

  lemma LowWordOf(i: int)
    ensures i % DWORD % WORD == ToWord(i)
  {
    var r, q := i % DWORD, i / DWORD;
    assert i == r + WORD * (WORD * q);
    MultipleOfWord(r, -(WORD * q));
  }
}
