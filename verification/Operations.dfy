/** Which operation each instruction word performs, on which operands, and where the result goes. */
module Operations {
  import opened Common
  import opened Words
  import opened Arithmetic
  import opened Isa
  import opened Runs
  import opened Bits
  import opened Encoding
  import opened Fields
  import opened ExceptionEntry

  /** A register read as a two's complement number. */
  function SignedReg(x: u32): int {
    Signed(x, 0x8000_0000)
  }

  predicate Fits(i: int) {
    -0x8000_0000 <= i < 0x8000_0000
  }

  /** The sign of `r` is not that of the difference of `x` and `y`, whose signs differ. */
  predicate SignClash(x: int, y: int, r: int) {
    (x < 0 <= y && 0 <= r) || (y < 0 <= x && r < 0)
  }

  lemma AluResult(s: State, c: Control, outside: u32)
    requires Fetched(s) == Some(c) && c.opcode == OP_ALU
    ensures Step(s, outside) == match Alu(s, c)
                                case Some(u) => Some(Advance(u))
                                case None => None
  {
    StepExecutes(s, c, outside);
  }

  // ------------------------------------------------------------------ arithmetic

  /** The state after an arithmetic instruction with result `v` and these flags, with a range exception
      if it raises one. */
  function Computed(s: State, d: Reg, v: u32, cy: bool, ov: bool): State {
    Concluded(s.(gpr := Written(s.gpr, d, v), sr := s.sr.(cy := cy, ov := ov)))
  }

  lemma ArithmeticResult(s: State, c: Control, outside: u32)
    requires Fetched(s) == Some(c) && c.opcode == OP_ALU && IsArithmetic(c.aluOp) && s.branchPc == 0xffff_ffff
    ensures Step(s, outside) == Some(Concluded(ArithmeticBase(s, c.aluOp, c.rD, s.gpr[c.rA], s.gpr[c.rB])))
  {
    AluResult(s, c, outside);
    var t := ArithmeticBase(s, c.aluOp, c.rD, s.gpr[c.rA], s.gpr[c.rB]);
    BaseKeepsBranch(s, c.aluOp, c.rD, s.gpr[c.rA], s.gpr[c.rB]);
    RangeChecked(t);
  }

  lemma BaseKeepsBranch(s: State, op: nat, rD: Reg, a: u32, b: u32)
    requires IsArithmetic(op)
    ensures ArithmeticBase(s, op, rD, a, b).branchPc == s.branchPc
  {
  }

  /** The sum of two words and a carry: CY if it does not fit as an unsigned number, OV as a signed one. */
  function Added(s: State, d: Reg, a: u32, b: u32, carry: bool): State {
    var cin := if carry then 1 else 0;
    Computed(s, d, (a + b + cin) % 0x1_0000_0000, a + b + cin >= 0x1_0000_0000,
             !Fits(SignedReg(a) + SignedReg(b) + cin))
  }

  lemma Sum(s: State, carry: bool, d: Reg, a: u32, b: u32)
    ensures Concluded(AddBase(s, carry, d, a, b)) == Added(s, d, a, b, carry)
  {
    SameSign(a);
    SameSign(b);
  }

  lemma SameSign(x: u32)
    ensures ToInt(x) == SignedReg(x)
  {
  }

  /** l.add (0x0) and l.addc (0x1), which adds the carry. */
  lemma Addition(s: State, w: u32, outside: u32)
    requires At(s, w) && Op(w) == 0x38 && (AluCode(w) == 0x0 || AluCode(w) == 0x1)
    ensures Step(s, outside) == Some(Added(s, D(w), s.gpr[A(w)], s.gpr[B(w)], AluCode(w) == 0x1 && s.sr.cy))
  {
    var c := Decoded(s, w);
    ArithmeticResult(s, c, outside);
    Sum(s, AluCode(w) == 0x1 && s.sr.cy, D(w), s.gpr[A(w)], s.gpr[B(w)]);
  }

  /** The difference: CY is the borrow, and OV looks at the register written, which is zero for r0. */
  function Subtracted(s: State, d: Reg, a: u32, b: u32): State {
    var difference: int := a - b;
    var r := difference % 0x1_0000_0000;
    Computed(s, d, r, a < b, SignClash(SignedReg(a), SignedReg(b), if d == 0 then 0 else SignedReg(r)))
  }

  lemma Difference(s: State, d: Reg, a: u32, b: u32)
    ensures Concluded(SubBase(s, d, a, b)) == Subtracted(s, d, a, b)
  {
    AddNegated(a, b);
  }

  lemma AddNegated(a: int, b: int)
    requires 0 <= a < 0x1_0000_0000 && 0 <= b < 0x1_0000_0000
    ensures (a + Negate(b)) % 0x1_0000_0000 == (a - b) % 0x1_0000_0000
  {
  }

  /** l.sub (0x2). */
  lemma Subtraction(s: State, w: u32, outside: u32)
    requires At(s, w) && Op(w) == 0x38 && AluCode(w) == 0x2
    ensures Step(s, outside) == Some(Subtracted(s, D(w), s.gpr[A(w)], s.gpr[B(w)]))
  {
    var c := Decoded(s, w);
    ArithmeticResult(s, c, outside);
    Difference(s, D(w), s.gpr[A(w)], s.gpr[B(w)]);
  }

  /** The low word of the signed product: OV if it does not fit, CY if the unsigned product does not. */
  function Multiplied(s: State, d: Reg, a: u32, b: u32): State {
    var p: int, q: int := SignedReg(a) * SignedReg(b), a * b;
    Computed(s, d, p % 0x1_0000_0000, q >= 0x1_0000_0000, !Fits(p))
  }

  function UnsignedMultiplied(s: State, d: Reg, a: u32, b: u32): State {
    var q: int := a * b;
    Computed(s, d, q % 0x1_0000_0000, q >= 0x1_0000_0000, false)
  }

  lemma Products(s: State, d: Reg, a: u32, b: u32)
    ensures Concluded(MulBase(s, d, a, b)) == Multiplied(s, d, a, b)
    ensures Concluded(MuluBase(s, d, a, b)) == UnsignedMultiplied(s, d, a, b)
  {
    SameSign(a);
    SameSign(b);
  }

  /** l.mul (0x306) and l.mulu (0x30b). */
  lemma Multiplication(s: State, w: u32, outside: u32)
    requires At(s, w) && Op(w) == 0x38
    ensures AluCode(w) == 0x306 ==> Step(s, outside) == Some(Multiplied(s, D(w), s.gpr[A(w)], s.gpr[B(w)]))
    ensures AluCode(w) == 0x30b ==> Step(s, outside) == Some(UnsignedMultiplied(s, D(w), s.gpr[A(w)], s.gpr[B(w)]))
  {
    if AluCode(w) == 0x306 || AluCode(w) == 0x30b {
      var c := Decoded(s, w);
      ArithmeticResult(s, c, outside);
      Products(s, D(w), s.gpr[A(w)], s.gpr[B(w)]);
    }
  }

  /** The quotient, rounded toward zero if it is signed.  A zero divisor sets CY and leaves rD alone. */
  function Divided(s: State, d: Reg, a: u32, b: u32, signed: bool): State {
    if b == 0 then Concluded(s.(sr := s.sr.(cy := true, ov := false)))
    else
      var q := if signed then TruncDiv(SignedReg(a), SignedReg(b)) else a / b;
      Computed(s, d, q % 0x1_0000_0000, false, false)
  }

  lemma Quotients(s: State, d: Reg, a: u32, b: u32, signed: bool)
    ensures Concluded(DivBase(s, d, a, b, signed)) == Divided(s, d, a, b, signed)
  {
    SameSign(a);
    SameSign(b);
  }

  /** l.divu (0x30a) and l.div (0x309). */
  lemma Division(s: State, w: u32, outside: u32)
    requires At(s, w) && Op(w) == 0x38
    ensures AluCode(w) == 0x30a ==> Step(s, outside) == Some(Divided(s, D(w), s.gpr[A(w)], s.gpr[B(w)], false))
    ensures AluCode(w) == 0x309 ==> Step(s, outside) == Some(Divided(s, D(w), s.gpr[A(w)], s.gpr[B(w)], true))
  {
    if AluCode(w) == 0x30a || AluCode(w) == 0x309 {
      var c := Decoded(s, w);
      ArithmeticResult(s, c, outside);
      Quotients(s, D(w), s.gpr[A(w)], s.gpr[B(w)], AluCode(w) == 0x309);
    }
  }

  /** The sign-extended immediate as a word. */
  function ImmWord(w: u32): u32 {
    Signed(Imm(w), 0x8000) % 0x1_0000_0000
  }

  /** l.addi (0x27), l.addic (0x28) and l.muli (0x2c). */
  lemma ImmediateArithmetic(s: State, w: u32, outside: u32)
    requires At(s, w) && (Op(w) == 0x27 || Op(w) == 0x28 || Op(w) == 0x2c)
    ensures Step(s, outside)
         == Some(if Op(w) == 0x2c then Multiplied(s, D(w), s.gpr[A(w)], ImmWord(w))
                 else Added(s, D(w), s.gpr[A(w)], ImmWord(w), Op(w) == 0x28 && s.sr.cy))
  {
    var c := Decoded(s, w);
    ImmediateResult(s, c, outside);
    ImmediateWord(c.i);
    Sum(s, Op(w) == 0x28 && s.sr.cy, D(w), s.gpr[A(w)], ImmWord(w));
    Products(s, D(w), s.gpr[A(w)], ImmWord(w));
  }

  lemma ImmediateResult(s: State, c: Control, outside: u32)
    requires Fetched(s) == Some(c) && s.branchPc == 0xffff_ffff
    requires c.opcode == OP_ADDI || c.opcode == OP_ADDIC || c.opcode == OP_MULI
    ensures Step(s, outside)
         == Some(Concluded(if c.opcode == OP_MULI then MulBase(s, c.rD, s.gpr[c.rA], Exts(c.i))
                           else AddBase(s, c.opcode == OP_ADDIC && s.sr.cy, c.rD, s.gpr[c.rA], Exts(c.i))))
  {
    StepExecutes(s, c, outside);
    var a, b := s.gpr[c.rA], Exts(c.i);
    RangeChecked(MulBase(s, c.rD, a, b));
    RangeChecked(AddBase(s, c.opcode == OP_ADDIC && s.sr.cy, c.rD, a, b));
  }

  // ------------------------------------------------------------------ register results

  /** The state after an instruction whose only result is `v` in rD. */
  function Delivered(s: State, d: Reg, v: u32): State {
    Next(s).(gpr := Written(s.gpr, d, v))
  }

  lemma ValueResult(s: State, c: Control, v: u32, outside: u32)
    requires Fetched(s) == Some(c) && c.opcode == OP_ALU && !IsArithmetic(c.aluOp) && s.branchPc == 0xffff_ffff
    requires AluValue(c.aluOp, s.gpr[c.rA], s.gpr[c.rB], s.sr.f) == Some(v)
    ensures Step(s, outside) == Some(Delivered(s, c.rD, v))
  {
    AluResult(s, c, outside);
    SelectsValue(s, c, v);
    Delivers(s, c.rD, v);
  }

  lemma SelectsValue(s: State, c: Control, v: u32)
    requires !IsArithmetic(c.aluOp) && AluValue(c.aluOp, s.gpr[c.rA], s.gpr[c.rB], s.sr.f) == Some(v)
    ensures Alu(s, c) == Some(Isa.SetGpr(s, c.rD, v))
  {
  }

  lemma Delivers(s: State, d: Reg, v: u32)
    requires s.branchPc == 0xffff_ffff
    ensures Advance(Isa.SetGpr(s, d, v)) == Delivered(s, d, v)
  {
  }

  /** l.and (0x3), l.or (0x4) and l.xor (0x5). */
  lemma Logic(s: State, w: u32, outside: u32) returns (v: u32)
    requires At(s, w) && Op(w) == 0x38 && 0x3 <= AluCode(w) <= 0x5
    ensures Step(s, outside) == Some(Delivered(s, D(w), v))
    ensures forall i: nat :: i < 32 ==>
              var x, y := TestBit(s.gpr[A(w)], i), TestBit(s.gpr[B(w)], i);
              TestBit(v, i) == if AluCode(w) == 0x3 then x && y else if AluCode(w) == 0x4 then x || y else x != y
  {
    var c := Decoded(s, w);
    var a, b := s.gpr[A(w)], s.gpr[B(w)];
    v := if AluCode(w) == 0x3 then BitAnd(a, b) else if AluCode(w) == 0x4 then BitOr(a, b) else BitXor(a, b);
    ValueResult(s, c, v, outside);
    forall i: nat | i < 32
      ensures var x, y := TestBit(a, i), TestBit(b, i);
              TestBit(v, i) == if AluCode(w) == 0x3 then x && y else if AluCode(w) == 0x4 then x || y else x != y
    {
      LogicBits(a, b, i);
    }
  }

  /** l.exths (0xc), l.extbs (0x4c), l.exthz (0x8c), l.extbz (0xcc), l.extws and l.extwz (0xd), and l.cmov (0xe). */
  lemma Extension(s: State, w: u32, outside: u32)
    requires At(s, w) && Op(w) == 0x38
    ensures var a, b := s.gpr[A(w)], s.gpr[B(w)];
            && (AluCode(w) == 0xc ==>
                  Step(s, outside) == Some(Delivered(s, D(w), Signed(a % 0x1_0000, 0x8000) % 0x1_0000_0000)))
            && (AluCode(w) == 0x4c ==>
                  Step(s, outside) == Some(Delivered(s, D(w), Signed(a % 0x100, 0x80) % 0x1_0000_0000)))
            && (AluCode(w) == 0x8c ==> Step(s, outside) == Some(Delivered(s, D(w), a % 0x1_0000)))
            && (AluCode(w) == 0xcc ==> Step(s, outside) == Some(Delivered(s, D(w), a % 0x100)))
            && (AluCode(w) == 0xd ==> Step(s, outside) == Some(Delivered(s, D(w), a)))
            && (AluCode(w) == 0xe ==> Step(s, outside) == Some(Delivered(s, D(w), if s.sr.f then a else b)))
  {
    var c := Decoded(s, w);
    var a := s.gpr[A(w)];
    var r := AluValue(c.aluOp, a, s.gpr[B(w)], s.sr.f);
    ImmediateWord(a % 0x1_0000);
    ExtendedByte(a % 0x100);
    if !IsArithmetic(c.aluOp) && r.Some? {
      ValueResult(s, c, r.value, outside);
    }
  }

  lemma ExtendedByte(b: byte)
    ensures SignExtend(b, 7) == Signed(b, 0x80) % 0x1_0000_0000
  {
    assert Pow2(7) == 128 && Pow2(8) == 256;
    ShrSmall(b, 8);
  }

  /** l.ff1 (0xf) and l.fl1 (0x10f): the first and the last one bit, counted from 1; 0 for zero. */
  lemma FindOne(s: State, w: u32, outside: u32) returns (v: u32)
    requires At(s, w) && Op(w) == 0x38 && (AluCode(w) == 0xf || AluCode(w) == 0x10f)
    ensures Step(s, outside) == Some(Delivered(s, D(w), v))
    ensures var a := s.gpr[A(w)];
            if a == 0 then v == 0
            else && v > 0 && TestBit(a, v - 1)
                 && (AluCode(w) == 0xf ==> forall j :: 0 <= j < v - 1 ==> !TestBit(a, j))
                 && (AluCode(w) == 0x10f ==> a < Pow2(v))
  {
    var c := Decoded(s, w);
    var a := s.gpr[A(w)];
    v := if AluCode(w) == 0xf then WordLowestOne(a) else WordHighestOne(a);
    ValueResult(s, c, v, outside);
    if a > 0 {
      LowestOneMeaning(a);
      HighestOneMeaning(a);
    }
  }

  /** `v` is `a` shifted by `n` places: to the left (0), to the right with zeros (1) or with copies of the sign,
      which divides by 2^n rounding down (2), or to the right around the word (3). */
  ghost predicate Shifts(kind: nat, a: u32, n: nat, v: u32) {
    && (kind == 0 ==> forall i: nat :: i < 32 ==> (TestBit(v, i) <==> i >= n && TestBit(a, i - n)))
    && (kind == 1 ==> forall i: nat :: TestBit(v, i) <==> TestBit(a, n + i))
    && (kind == 2 ==> SignedReg(v) == Floor(SignedReg(a), n))
    && (kind == 3 ==> forall i: nat :: i < 32 ==> (TestBit(v, i) <==> TestBit(a, (i + n) % 32)))
  }

  lemma ShiftMeaning(kind: nat, a: u32, n: nat)
    requires kind < 4 && n < 32
    ensures Shifts(kind, a, n, ShiftedBy(kind, a, n))
  {
    if kind == 0 {
      forall i: nat | i < 32 ensures TestBit(ShiftLeft(a, n), i) <==> i >= n && TestBit(a, i - n) {
        ShiftLeftBits(a, n, i);
      }
    } else if kind == 1 {
      forall i: nat ensures TestBit(ShiftRight(a, n), i) <==> TestBit(a, n + i) {
        ShiftRightBits(a, n, i);
      }
    } else if kind == 2 {
      ArithmeticShift(a, n);
      SameSign(a);
      SameSign(ShiftRightSigned(a, n));
    } else {
      forall i: nat | i < 32 ensures TestBit(RotateRight(a, n), i) <==> TestBit(a, (i + n) % 32) {
        RotateBits(a, n, i);
      }
    }
  }

  /** How far a shift goes: the low five bits of rB, or of the word for opcode 0x2e. */
  function Amount(s: State, w: u32): nat {
    if Op(w) == 0x2e then w % 32 else s.gpr[B(w)] % 32
  }

  /** l.sll, l.srl, l.sra and l.ror (0x38, code 8 with bits 6 and 7 the kind), and the shifts by an immediate
      (0x2e) with the kind in the same bits. */
  lemma Shift(s: State, w: u32, outside: u32) returns (v: u32)
    requires At(s, w) && (Op(w) == 0x2e || (Op(w) == 0x38 && w % 16 == 0x8 && w / 0x100 % 4 == 0))
    ensures Step(s, outside) == Some(Delivered(s, D(w), v))
    ensures Shifts(w / 0x40 % 4, s.gpr[A(w)], Amount(s, w), v)
  {
    var c := Decoded(s, w);
    var kind, a, n := w / 0x40 % 4, s.gpr[A(w)], Amount(s, w);
    v := ShiftedBy(kind, a, n);
    ShiftMeaning(kind, a, n);
    if Op(w) == 0x2e {
      ShiftResult(s, c, outside);
    } else {
      ShiftCodes(kind, a, s.gpr[B(w)], s.sr.f);
      ValueResult(s, c, v, outside);
    }
  }

  lemma ShiftCodes(kind: nat, a: u32, b: u32, flag: bool)
    requires kind < 4
    ensures !IsArithmetic(kind * 0x40 + 0x8)
    ensures AluValue(kind * 0x40 + 0x8, a, b, flag) == Some(ShiftedBy(kind, a, b % 32))
  {
  }

  lemma ShiftResult(s: State, c: Control, outside: u32)
    requires Fetched(s) == Some(c) && c.opcode == OP_RO_SHIFT_I && c.l < 32 && s.branchPc == 0xffff_ffff
    ensures Step(s, outside) == Some(Delivered(s, c.rD, ShiftedBy(c.roShiftOp, s.gpr[c.rA], c.l)))
  {
    StepExecutes(s, c, outside);
  }

  /** l.andi (0x29) and l.ori (0x2a) with the immediate as it is, l.xori (0x2b) with its sign extended. */
  lemma LogicImmediate(s: State, w: u32, outside: u32)
    requires At(s, w) && (Op(w) == 0x29 || Op(w) == 0x2a || Op(w) == 0x2b)
    ensures var a := s.gpr[A(w)];
            Step(s, outside) == Some(Delivered(s, D(w), if Op(w) == 0x29 then BitAnd(a, Imm(w))
                                                        else if Op(w) == 0x2a then BitOr(a, Imm(w))
                                                        else BitXor(a, ImmWord(w))))
  {
    var c := Decoded(s, w);
    ImmediateWord(c.i);
    LogicResult(s, c, outside);
  }

  lemma LogicResult(s: State, c: Control, outside: u32)
    requires Fetched(s) == Some(c) && s.branchPc == 0xffff_ffff
    requires c.opcode == OP_ANDI || c.opcode == OP_ORI || c.opcode == OP_XORI
    ensures Step(s, outside)
         == Some(Delivered(s, c.rD, LogicValue(s, c)))
  {
    StepExecutes(s, c, outside);
    SelectsLogic(s, c);
    Delivers(s, c.rD, LogicValue(s, c));
  }

  function LogicValue(s: State, c: Control): u32 {
    if c.opcode == OP_ANDI then BitAnd(s.gpr[c.rA], c.k)
    else if c.opcode == OP_ORI then BitOr(s.gpr[c.rA], c.k)
    else BitXor(s.gpr[c.rA], Exts(c.i))
  }

  lemma SelectsLogic(s: State, c: Control)
    requires c.opcode == OP_ANDI || c.opcode == OP_ORI || c.opcode == OP_XORI
    ensures Isa.Immediate(s, c) == Isa.SetGpr(s, c.rD, LogicValue(s, c))
  {
  }

  /** Opcode 6: l.macrc, with the lower 17 bits 0x10000, delivers the low half of the accumulator and clears
      it; every other word is l.movhi. */
  lemma MoveHigh(s: State, w: u32, outside: u32)
    requires At(s, w) && Op(w) == 0x6
    ensures Step(s, outside)
         == Some(if w % 0x2_0000 == 0x1_0000 then Delivered(s, D(w), s.maclo).(machi := 0, maclo := 0)
                 else Delivered(s, D(w), Imm(w) * 0x1_0000))
  {
    var c := Decoded(s, w);
    StepExecutes(s, c, outside);
  }

  // ------------------------------------------------------------------ comparisons

  /** The comparisons by their code, unsigned up to 5 and signed from 0xa on. */
  ghost predicate Holds(code: nat, a: u32, b: u32) {
    var x, y := SignedReg(a), SignedReg(b);
    || (code == 0x0 && a == b) || (code == 0x1 && a != b)
    || (code == 0x2 && a > b) || (code == 0x3 && a >= b) || (code == 0x4 && a < b) || (code == 0x5 && a <= b)
    || (code == 0xa && x > y) || (code == 0xb && x >= y) || (code == 0xc && x < y) || (code == 0xd && x <= y)
  }

  lemma CompareMeaning(code: nat, a: u32, b: u32)
    ensures Compare(code, a, b) == if code <= 0x5 || 0xa <= code <= 0xd then Some(Holds(code, a, b)) else None
  {
  }

  /** What rA is compared with: rB (opcode 0x39) or the sign-extended immediate (0x2f). */
  function Comparand(s: State, w: u32): u32 {
    if Op(w) == 0x39 then s.gpr[B(w)] else ImmWord(w)
  }

  /** The code of a comparison is in the place of rD.  The simulator hangs on all other codes. */
  lemma Comparison(s: State, w: u32, outside: u32)
    requires At(s, w) && (Op(w) == 0x39 || Op(w) == 0x2f)
    ensures Step(s, outside)
         == if D(w) <= 0x5 || 0xa <= D(w) <= 0xd
            then Some(Next(s).(sr := s.sr.(f := Holds(D(w), s.gpr[A(w)], Comparand(s, w)))))
            else None
  {
    var c := Decoded(s, w);
    ImmediateWord(c.i);
    CompareMeaning(c.sfOp, s.gpr[c.rA], Comparand(s, w));
    CompareResult(s, c, Comparand(s, w), outside);
  }

  lemma CompareResult(s: State, c: Control, b: u32, outside: u32)
    requires Fetched(s) == Some(c) && s.branchPc == 0xffff_ffff
    requires (c.opcode == OP_SF && b == s.gpr[c.rB]) || (c.opcode == OP_SFI && b == Exts(c.i))
    ensures Step(s, outside) == match Compare(c.sfOp, s.gpr[c.rA], b)
                                case Some(f) => Some(Next(s).(sr := s.sr.(f := f)))
                                case None => None
  {
    StepExecutes(s, c, outside);
    assert Execute(s, c, outside) == SetFlag(s, c, b);
    FlagStep(s, c, b);
  }

  lemma FlagStep(s: State, c: Control, b: u32)
    requires s.branchPc == 0xffff_ffff
    ensures match Compare(c.sfOp, s.gpr[c.rA], b)
            case Some(f) => SetFlag(s, c, b).Some? && Advance(SetFlag(s, c, b).value) == Next(s).(sr := s.sr.(f := f))
            case None => SetFlag(s, c, b) == None
  {
  }

  // ------------------------------------------------------------------ special registers

  /** l.mtspr (0x30) writes rB to the register whose number is rA or'ed with the split immediate: 16 is NPC, 17 SR,
      18 PPC, 32 EPCR, 48 EEAR, 64 ESR, 0x2801 and 0x2802 the accumulator, 0x3014 DSR; all others are those of
      the real processor. */
  lemma WriteSpecial(s: State, w: u32, outside: u32)
    requires At(s, w) && Op(w) == 0x30
    ensures var n, v := BitOr(s.gpr[A(w)], SplitImm(w)), s.gpr[B(w)];
            Step(s, outside).Some? && SpecialWritten(s, Step(s, outside).value, n, v)
  {
    var c := Decoded(s, w);
    var n, v := BitOr(s.gpr[A(w)], SplitImm(w)), s.gpr[B(w)];
    MtsprStep(s, c, n, outside);
    SetMeaning(s, n, v);
  }

  /** What `t` has of `v`, written to register `n` at `s`.  SR keeps its writable bits. */
  ghost predicate SpecialWritten(s: State, t: State, n: u32, v: u32) {
    && (n == 16 ==> t == s.(pc := v, npc := (v as int + 4) % 0x1_0000_0000))
    && (n == 17 ==> t == Next(s).(sr := WritableSr(WordToSr(v))))
    && (n == 18 ==> t == Next(s))
    && (n == 32 ==> t == Next(s).(epcr := v))
    && (n == 48 ==> t == Next(s).(eear := v))
    && (n == 64 ==> t == Next(s).(esr := WordToSr(v)))
    && (n == 0x2801 ==> t == Next(s).(maclo := v))
    && (n == 0x2802 ==> t == Next(s).(machi := v))
    && (n == 0x3014 ==> t == Next(s).(dsr := v))
    && (n !in {16, 17, 18, 32, 48, 64, 0x2801, 0x2802, 0x3014} ==> t == Next(s).(spr := s.spr[n := v]))
  }

  lemma SetMeaning(s: State, n: u32, v: u32)
    requires s.branchPc == 0xffff_ffff
    ensures SpecialWritten(s, Advance(SetSpr(s, n, v)), n, v)
  {
  }

  /** l.mfspr (0x2d) reads the register whose number is rA or'ed with the immediate. */
  lemma ReadSpecial(s: State, w: u32, outside: u32) returns (v: u32)
    requires At(s, w) && Op(w) == 0x2d
    ensures Step(s, outside) == Some(Delivered(s, D(w), v))
    ensures var n := BitOr(s.gpr[A(w)], Imm(w));
            && (n == 16 ==> v == s.npc) && (n == 17 ==> v == SrToWord(s.sr)) && (n == 18 ==> v == s.pc)
            && (n == 32 ==> v == s.epcr) && (n == 48 ==> v == s.eear) && (n == 64 ==> v == SrToWord(s.esr))
            && (n == 0x2801 ==> v == s.maclo) && (n == 0x2802 ==> v == s.machi) && (n == 0x3014 ==> v == s.dsr)
            && (n !in {16, 17, 18, 32, 48, 64, 0x2801, 0x2802, 0x3014} ==> v == if n in s.spr then s.spr[n] else 0)
  {
    var c := Decoded(s, w);
    v := GetSpr(s, BitOr(s.gpr[A(w)], Imm(w)));
    StepExecutes(s, c, outside);
  }

  // ------------------------------------------------------------------ the instruction set

  /** The register-register codes that exist. */
  predicate IsAluCode(code: nat) {
    || code <= 0x5
    || code in {0x8, 0x48, 0x88, 0xc8, 0xc, 0x4c, 0x8c, 0xcc, 0xd, 0xe, 0xf, 0x10f}
    || code in {0x306, 0x309, 0x30a, 0x30b}
  }

  /** The instruction words that exist. */
  predicate IsInstruction(w: u32) {
    var op := Op(w);
    || op in {0x0, 0x1, 0x3, 0x4, 0x5, 0x6, 0x9, 0x11, 0x12, 0x13, 0x30, 0x35, 0x36, 0x37}
    || 0x21 <= op <= 0x2e
    || (op == 0x8 && (w / 0x1_0000 == 0x2000 || w / 0x1_0000 == 0x2100))
    || (op == 0x31 && (w % 16 == 1 || w % 16 == 2))
    || ((op == 0x2f || op == 0x39) && (D(w) <= 0x5 || 0xa <= D(w) <= 0xd))
    || (op == 0x38 && IsAluCode(AluCode(w)))
  }

  lemma AluCodeShort(w: u32)
    ensures AluCode(w) != 0x4d
  {
  }

  lemma AluExactly(s: State, c: Control)
    requires c.aluOp != 0x4d
    ensures Alu(s, c).Some? <==> IsAluCode(c.aluOp)
  {
  }

  /** The simulator hangs on all other words, and only on them. */
  lemma HangsExactly(s: State, w: u32, outside: u32)
    requires At(s, w)
    ensures Step(s, outside).None? <==> !IsInstruction(w)
  {
    var c := Decoded(s, w);
    StepExecutes(s, c, outside);
    AluCodeShort(w);
    AluExactly(s, c);
    CompareMeaning(c.sfOp, s.gpr[c.rA], if c.opcode == OP_SFI then Exts(c.i) else s.gpr[c.rB]);
  }

  /** l.nop (5). */
  lemma NoOperation(s: State, w: u32, outside: u32)
    requires At(s, w) && Op(w) == 0x5
    ensures Step(s, outside) == Some(Next(s))
  {
    var c := Decoded(s, w);
    StepExecutes(s, c, outside);
  }
}
