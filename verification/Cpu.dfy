/** The simulator in the form it is written in: a CPU structure whose fields every instruction
    updates.  Each method is proved to compute what `Isa` says about states. */
module Cpu {
  import opened Common
  import opened Words
  import opened Arithmetic
  import opened Isa
  import opened SubWords

  const NUM_WAYS: nat := 1

  class Processor {
    const gpr: array<u32>
    var pc: u32
    var npc: u32
    var sr: Sr
    var machi: u32
    var maclo: u32
    var branchPc: u32
    var esr: Sr
    var epcr: u32
    var eear: u32
    var dsr: u32
    /** Word memory by physical address, and the registers of the real processor. */
    var mem: map<u32, u32>
    var spr: map<u32, u32>

    ghost predicate Valid() {
      gpr.Length == 32
    }

    ghost function Abs(): State
      requires Valid()
      reads this, gpr
    {
      State(gpr[..], pc, npc, sr, machi, maclo, branchPc, esr, epcr, eear, dsr, mem, spr)
    }

    /** `cpu_init0` followed by `cpu_reset` */
    constructor (memory: map<u32, u32>, registers: map<u32, u32>)
      ensures Valid() && fresh(gpr)
      ensures Abs() == ResetState(memory, registers)
    {
      gpr := new u32[32](_ => 0);
      pc, npc, sr, machi, maclo, branchPc := 0x100, 0x104, WordToSr(0x8001), 0, 0, NO_BRANCH;
      esr, epcr, eear, dsr := WordToSr(0), 0, 0, 0;
      mem, spr := memory, registers;
      new;
      assert gpr[..] == seq(32, _ => 0);
    }

    method SetGpr(reg: Reg, value: u32)
      requires Valid()
      modifies gpr
      ensures Abs() == Isa.SetGpr(old(Abs()), reg, value)
    {
      gpr[reg] := if reg == 0 then 0 else value;
    }

    method AdvancePc()
      requires Valid()
      modifies `pc, `npc, `branchPc
      ensures Abs() == Advance(old(Abs()))
    {
      pc := npc;
      if branchPc != NO_BRANCH {
        npc := branchPc;
        branchPc := NO_BRANCH;
      } else {
        npc := Plus(npc, 4);
      }
    }

    // ---------------------------------------------------------------- exceptions

    /** `range_exception`, `trap` and the common part of the exceptions with an address. */
    method RaiseException(offset: u32)
      requires Valid()
      modifies `epcr, `esr, `sr, `npc
      ensures Abs() == Exception(old(Abs()), offset)
    {
      if npc != Plus(pc, 4) {
        epcr := Minus(pc, 4);
        sr := sr.(dsx := true);
      } else {
        epcr := pc;
        sr := sr.(dsx := false);
      }
      esr := sr;
      npc := if sr.eph then Plus(0xf000_0000, offset) else offset;
      sr := sr.(dme := false, ime := false, sm := true, iee := false, tee := false);
    }

    /** `alignment_exception`, `dataTLBMiss`, `instructionTLBMiss` and `instructionPageFault`. */
    method RaiseAddressException(offset: u32, ea: u32)
      requires Valid()
      modifies `epcr, `esr, `sr, `npc, `eear
      ensures Abs() == AddressException(old(Abs()), offset, ea)
    {
      RaiseException(offset);
      eear := ea;
    }

    method Sys()
      requires Valid()
      modifies `epcr, `esr, `sr, `npc
      ensures Abs() == SysCall(old(Abs()))
    {
      var slot := npc != Plus(pc, 4);
      epcr := if slot then Minus(pc, 4) else npc;
      esr := sr;
      sr := sr.(dsx := slot);
      npc := if sr.eph then 0xf000_0c00 else 0xc00;
      sr := sr.(dme := false, ime := false, sm := true, iee := false, tee := false);
    }

    method Rfe()
      requires Valid()
      modifies `sr, `npc
      ensures Abs() == ReturnFromException(old(Abs()))
    {
      sr := esr;
      npc := epcr;
    }

    /** The check at the end of every instruction that can overflow. */
    method CheckRange()
      requires Valid()
      modifies `epcr, `esr, `sr, `npc
      ensures Abs() == RangeCheck(old(Abs()))
    {
      if sr.ove && sr.ov {
        RaiseException(0xb00);
      }
    }

    // ---------------------------------------------------------------- arithmetic

    method Add(carryIn: bool, rD: Reg, a: u32, b: u32)
      requires Valid()
      modifies gpr, `sr
      ensures Abs() == AddBase(old(Abs()), carryIn, rD, a, b)
    {
      var result, overflow, carry := CalcAdd(carryIn, a, b);
      AddBaseIs(Abs(), carryIn, rD, a, b, result, overflow, carry);
      SetGpr(rD, result);
      sr := sr.(ov := overflow);
      sr := sr.(cy := carry);
    }

    method Sub(rD: Reg, a: u32, b: u32)
      requires Valid()
      modifies gpr, `sr
      ensures Abs() == SubBase(old(Abs()), rD, a, b)
    {
      Add(false, rD, a, Negate(b));
      SetBorrow(rD, a, b);
    }

    method SetFlags(cy: bool, ov: bool)
      requires Valid()
      modifies `sr
      ensures var s := old(Abs()); Abs() == s.(sr := s.sr.(cy := cy, ov := ov))
    {
      sr := sr.(cy := cy);
      sr := sr.(ov := ov);
    }

    /** The second half of `sub`: new flags from the register written. */
    method SetBorrow(rD: Reg, a: u32, b: u32)
      requires Valid()
      modifies `sr
      ensures var s := old(Abs()); Abs() == s.(sr := s.sr.(cy := b > a, ov := SubOverflows(a, b, s.gpr[rD])))
    {
      var r := gpr[rD];
      assert r == Abs().gpr[rD];
      SetFlags(b > a, SubOverflows(a, b, r));
    }

    method MulShared(a: u32, b: u32, rD: Reg)
      requires Valid()
      modifies gpr, `sr
      ensures Abs() == MulBase(old(Abs()), rD, a, b)
    {
      var prod := CalcMul(a, b);
      SetGpr(rD, ToWord(prod));
      sr := sr.(ov := prod < -0x8000_0000 || prod > 0x7fff_ffff);
      var uprod := CalcMulu(a, b);
      sr := sr.(cy := uprod > 0xffff_ffff);
    }

    method Mulu(a: u32, b: u32, rD: Reg)
      requires Valid()
      modifies gpr, `sr
      ensures Abs() == MuluBase(old(Abs()), rD, a, b)
    {
      var prod := CalcMulu(a, b);
      SetGpr(rD, ToWord(prod));
      sr := sr.(ov := false);
      sr := sr.(cy := prod > 0xffff_ffff);
    }

    method Divu(rD: Reg, dividend: u32, divisor: u32)
      requires Valid()
      modifies gpr, `sr
      ensures Abs() == DivBase(old(Abs()), rD, dividend, divisor, false)
    {
      if divisor != 0 {
        var q, r := CalcDivu(divisor, dividend);
        SmallWord(q);
        SetGpr(rD, q);
      }
      sr := sr.(ov := false);
      sr := sr.(cy := divisor == 0);
    }

    method Or32Div(rD: Reg, dividend: u32, divisor: u32)
      requires Valid()
      modifies gpr, `sr
      ensures Abs() == DivBase(old(Abs()), rD, dividend, divisor, true)
    {
      if divisor != 0 {
        var q := CalcDiv(divisor, dividend);
        SetGpr(rD, q);
      }
      sr := sr.(ov := false);
      sr := sr.(cy := divisor == 0);
    }

    method Fl1(rD: Reg, a: u32)
      requires Valid()
      modifies gpr
      ensures Abs() == Isa.SetGpr(old(Abs()), rD, WordHighestOne(a))
    {
      var idx := ScanDown(a);
      SetGpr(rD, 32 - idx);
    }

    /** The loop of `fl1`: how many zeros are in front of the highest one bit. */
    method ScanDown(a: u32) returns (idx: nat)
      ensures idx <= 32 && HighestOne(a) == 32 - idx
    {
      idx := 0;
      PowersOfTwo();
      while idx < 32
        invariant 0 <= idx <= 32 && a < Pow2(32 - idx)
      {
        if TestBit(a, 31 - idx) {
          HighestOneAt(a, 31 - idx);
          return;
        }
        TopBitClear(a, 31 - idx);
        idx := idx + 1;
      }
      assert a < Pow2(0);
    }

    method Ff1(rD: Reg, a: u32)
      requires Valid()
      modifies gpr
      ensures Abs() == Isa.SetGpr(old(Abs()), rD, WordLowestOne(a))
    {
      var idx: u32 := 0;
      while idx < 32
        invariant idx <= 32 && (forall j :: 0 <= j < idx ==> !TestBit(a, j))
      {
        if TestBit(a, idx) {
          break;
        }
        idx := idx + 1;
      }
      LowestOneAt(a, idx);
      if idx == 32 {
        idx := 0xffff_ffff;
      }
      SetGpr(rD, Plus(idx, 1));
    }

    // ---------------------------------------------------------------- multiply and accumulate

    /** `mac += r` in 64 bits. */
    method AddToMac(r: int)
      requires Valid()
      modifies `machi, `maclo
      ensures Abs() == Accumulate(old(Abs()), r)
    {
      var mac: u64 := (maclo + machi * WORD + r) % DWORD;
      machi := mac / WORD;
      maclo := mac % WORD;
    }

    method MultiplyAccumulate(c: Control) returns (ok: bool)
      requires Valid()
      modifies `machi, `maclo
      ensures Outcome(Isa.MultiplyAccumulate(old(Abs()), c), ok, Abs())
    {
      ok := true;
      if c.opcode == OP_MACI {
        var r := CalcMul(gpr[c.rA], Exts(c.i));
        AddToMac(r);
      } else if c.inst % 16 == 2 {
        var r := CalcMul(gpr[c.rA], gpr[c.rB]);
        AddToMac(-r);
      } else if c.inst % 16 == 1 {
        var r := CalcMul(gpr[c.rA], gpr[c.rB]);
        AddToMac(r);
      } else {
        ok := false;
      }
    }

    method MacrcMovhi(c: Control)
      requires Valid()
      modifies gpr, `machi, `maclo
      ensures Abs() == Isa.MacrcMovhi(old(Abs()), c)
    {
      if c.inst % 0x2_0000 == 0x1_0000 {
        SetGpr(c.rD, maclo);
        machi := 0;
        maclo := 0;
      } else {
        SetGpr(c.rD, c.k * 0x1_0000 % WORD);
      }
    }

    // ---------------------------------------------------------------- address translation

    method VirtualToPhysicalD(va: u32) returns (pa: u32)
      requires Valid()
      ensures pa == TranslateD(Abs(), va)
    {
      if !sr.dme {
        return va;
      }
      pa := WalkTlb(DTLBMR, DTLBTR, va);
    }

    method VirtualToPhysicalI(va: u32) returns (pa: u32)
      requires Valid()
      ensures pa == TranslateI(Abs(), va)
    {
      if !sr.ime {
        return va;
      }
      pa := WalkTlb(ITLBMR, ITLBTR, va);
    }

    /** The loop over the ways that both translations share. */
    method WalkTlb(matchBase: u32, translateBase: u32, va: u32) returns (pa: u32)
      requires matchBase < 0x1_0000 && translateBase < 0x1_0000
      ensures pa == TlbLookup(spr, matchBase, translateBase, va)
    {
      var setIndex := va / 8192 % 64;
      var way := 0;
      while way < NUM_WAYS
        invariant way <= NUM_WAYS && (way > 0 ==> TlbLookup(spr, matchBase, translateBase, va) == 1)
      {
        var entry := Lookup(spr, matchBase + way * 0x100 + setIndex);
        if entry % 2 == 1 && entry / 8192 == va / 8192 {
          pa := Lookup(spr, translateBase + way * 0x100 + setIndex);
          return pa / 8192 * 8192 + va % 8192;
        }
        way := way + 1;
      }
      return 1;
    }

    /** `guestLoadD`; `value` keeps its content if nothing is loaded. */
    method GuestLoadD(va: u32, content: u32) returns (ret: nat, value: u32)
      requires Valid()
      ensures Reports(LoadD(Abs(), va), content, ret, value)
    {
      value := content;
      var pa := VirtualToPhysicalD(va);
      if pa > 2 {
        return 0, Lookup(mem, pa);
      }
      ret := pa;
    }

    method GuestLoadI(va: u32, content: u32) returns (ret: nat, value: u32)
      requires Valid()
      ensures Reports(LoadAt(Abs(), TranslateI(Abs(), va)), content, ret, value)
    {
      value := content;
      var pa := VirtualToPhysicalI(va);
      if pa > 2 {
        return 0, Lookup(mem, pa);
      }
      ret := pa;
    }

    method SimLoadData(va: u32, content: u32) returns (ret: nat, value: u32)
      requires Valid()
      modifies `epcr, `esr, `sr, `npc, `eear
      ensures Reports(LoadD(old(Abs()), va), content, ret, value)
      ensures Abs() == if ret == 1 then AddressException(old(Abs()), 0x900, va) else old(Abs())
    {
      ret, value := GuestLoadD(va, content);
      if ret == 1 {
        RaiseAddressException(0x900, va);
      }
    }

    /** `simStoreData` over `guestStoreD` */
    method SimStoreData(va: u32, value: u32)
      requires Valid()
      modifies `epcr, `esr, `sr, `npc, `eear, `mem
      ensures Abs() == StoreD(old(Abs()), va, value)
    {
      var pa := VirtualToPhysicalD(va);
      if pa > 2 {
        mem := mem[pa := value];
      } else if pa == 1 {
        RaiseAddressException(0x900, va);
      }
    }

    // ---------------------------------------------------------------- loads and stores

    method Lwz(c: Control, outside: u32)
      requires Valid()
      modifies this, gpr
      ensures Abs() == LoadWord(old(Abs()), c, outside)
    {
      var ea := Plus(Exts(c.i), gpr[c.rA]);
      if ea % 4 != 0 {
        RaiseAddressException(0x600, ea);
      } else {
        var ret, value := SimLoadData(ea, outside);
        if ret == 0 {
          SetGpr(c.rD, value);
        }
      }
    }

    /** `lbz` and `lbs` */
    method Lb(c: Control, signed: bool, outside: u32)
      requires Valid()
      modifies this, gpr
      ensures Abs() == LoadByte(old(Abs()), c, signed, outside)
    {
      var ea := Plus(Exts(c.i), gpr[c.rA]);
      var phyAddr := VirtualToPhysicalD(ea);
      if phyAddr == 1 {
        RaiseAddressException(0x900, ea);
        return;
      }
      if phyAddr >= 0x800_0000 {
        SetGpr(c.rD, outside);
        return;
      }
      var ret, value := SimLoadData(WordAddress(ea), outside);
      if ret == 0 {
        GetByteIsShifted(value, ea % 4);
        value := BitAnd(ShiftRight(value, (3 - ea % 4) * 8), 0xff);
        SetGpr(c.rD, if signed then SignExtend(value, 7) else value);
      }
    }

    /** `lhz` and `lhs` */
    method Lh(c: Control, signed: bool, outside: u32)
      requires Valid()
      modifies this, gpr
      ensures Abs() == LoadHalf(old(Abs()), c, signed, outside)
    {
      var ea := Plus(Exts(c.i), gpr[c.rA]);
      if ea % 2 != 0 {
        RaiseAddressException(0x600, ea);
        return;
      }
      var ret, value := SimLoadData(WordAddress(ea), outside);
      if ret == 0 {
        HalfLoaded(value, ea, signed);
        value := if ea / 2 % 2 == 0 then ShiftRight(value, 16) else BitAnd(value, 0xffff);
        if signed && value >= 0x8000 {
          value := value + 0xffff_0000;
        }
        SetGpr(c.rD, value);
      }
    }

    method Sw(c: Control)
      requires Valid()
      modifies this
      ensures Abs() == StoreWord(old(Abs()), c)
    {
      var ea := Plus(Exts(c.i), gpr[c.rA]);
      if ea % 4 != 0 {
        RaiseAddressException(0x600, ea);
      } else {
        SimStoreData(ea, gpr[c.rB]);
      }
    }

    method Sb(c: Control, outside: u32)
      requires Valid()
      modifies this
      ensures Abs() == StoreByte(old(Abs()), c, outside)
    {
      var ea := Plus(Exts(c.i), gpr[c.rA]);
      var phyAddr := VirtualToPhysicalD(ea);
      if phyAddr == 1 {
        RaiseAddressException(0x900, ea);
        return;
      }
      if phyAddr >= 0x800_0000 {
        return;
      }
      var ret, value := SimLoadData(WordAddress(ea), outside);
      if ret == 0 {
        var shift := (3 - ea % 4) * 8;
        AndFf(gpr[c.rB]);
        PutByteIsMasked(value, ea % 4, gpr[c.rB] % 256);
        value := BitAnd(value, Complement(ShiftLeft(0xff, shift)));
        value := BitOr(value, ShiftLeft(BitAnd(gpr[c.rB], 0xff), shift));
        SimStoreData(WordAddress(ea), value);
      }
    }

    method Sh(c: Control, outside: u32)
      requires Valid()
      modifies this
      ensures Abs() == StoreHalf(old(Abs()), c, outside)
    {
      var ea := Plus(Exts(c.i), gpr[c.rA]);
      if ea % 2 != 0 {
        RaiseAddressException(0x600, ea);
        return;
      }
      var ret, value := SimLoadData(WordAddress(ea), outside);
      if ret == 0 {
        PutHalfIsMasked(value, ea, gpr[c.rB]);
        value := BitAnd(value, if ea / 2 % 2 == 0 then 0xffff else Complement(0xffff));
        value := BitOr(value, if ea / 2 % 2 == 0 then ShiftLeft(gpr[c.rB], 16) else BitAnd(gpr[c.rB], 0xffff));
        SimStoreData(WordAddress(ea), value);
      }
    }

    method Access(c: Control, outside: u32)
      requires Valid()
      modifies this, gpr
      ensures Abs() == MemoryAccess(old(Abs()), c, outside)
    {
      if c.opcode == OP_LBZ {
        Lb(c, false, outside);
      } else if c.opcode == OP_LBS {
        Lb(c, true, outside);
      } else if c.opcode == OP_LHZ {
        Lh(c, false, outside);
      } else if c.opcode == OP_LHS {
        Lh(c, true, outside);
      } else if c.opcode == OP_SW {
        Sw(c);
      } else if c.opcode == OP_SB {
        Sb(c, outside);
      } else if c.opcode == OP_SH {
        Sh(c, outside);
      } else {
        Lwz(c, outside);
      }
    }

    // ---------------------------------------------------------------- branches

    method SetLr()
      requires Valid()
      modifies gpr
      ensures Abs() == Link(old(Abs()))
    {
      gpr[LR] := Plus(pc, 8);
    }

    /** `j`, `jal`, `bf`, `bnf`, `jr` and `jalr` */
    method Branch(c: Control)
      requires Valid() && IsBranchOp(c.opcode)
      modifies this, gpr
      ensures Abs() == Isa.Branch(old(Abs()), c)
    {
      var target := Plus(pc, SignExtend(c.n * 4 % WORD, 27));
      if c.opcode == OP_J {
        branchPc := target;
      } else if c.opcode == OP_JAL {
        branchPc := target;
        SetLr();
      } else if c.opcode == OP_BF {
        if sr.f {
          branchPc := target;
        }
      } else if c.opcode == OP_BNF {
        if !sr.f {
          branchPc := target;
        }
      } else {
        var address := gpr[c.rB];
        if address % 4 != 0 {
          RaiseAddressException(0x600, address);
        } else {
          branchPc := address;
          if c.opcode == OP_JALR {
            SetLr();
          }
        }
      }
    }

    // ---------------------------------------------------------------- special registers

    method SetSpr(n: u32, v: u32)
      requires Valid()
      modifies this
      ensures Abs() == Isa.SetSpr(old(Abs()), n, v)
    {
      if n == SPR_NPC {
        npc := v;
      } else if n == SPR_SR {
        sr := WritableSr(WordToSr(v));
      } else if n == SPR_PPC {
        pc := v;
      } else if n == SPR_EPCR {
        epcr := v;
      } else if n == SPR_EEAR {
        eear := v;
      } else if n == SPR_ESR {
        esr := WordToSr(v);
      } else if n == SPR_DSR {
        dsr := v;
      } else if n == SPR_MACLO {
        maclo := v;
      } else if n == SPR_MACHI {
        machi := v;
      } else {
        spr := spr[n := v];
      }
    }

    method SysTrap(c: Control) returns (ok: bool)
      requires Valid()
      modifies `epcr, `esr, `sr, `npc
      ensures Outcome(Isa.SysTrap(old(Abs()), c), ok, Abs())
    {
      ok := true;
      if c.inst / 0x1_0000 == 0x2000 {
        Sys();
      } else if c.inst / 0x1_0000 == 0x2100 {
        RaiseException(0xe00);
      } else {
        ok := false;
      }
    }

    // ---------------------------------------------------------------- execution

    method ArithmeticOp(op: nat, rD: Reg, a: u32, b: u32)
      requires Valid() && IsArithmetic(op)
      modifies gpr, `sr
      ensures Abs() == ArithmeticBase(old(Abs()), op, rD, a, b)
    {
      if op == 0x0 {
        Add(false, rD, a, b);
      } else if op == 0x1 {
        Add(sr.cy, rD, a, b);
      } else if op == 0x2 {
        Sub(rD, a, b);
      } else if op == 0x306 {
        MulShared(a, b, rD);
      } else if op == 0x30b {
        Mulu(a, b, rD);
      } else if op == 0x30a {
        Divu(rD, a, b);
      } else {
        Or32Div(rD, a, b);
      }
    }

    /** `alu` */
    method Alu(c: Control) returns (ok: bool)
      requires Valid()
      modifies this, gpr
      ensures Outcome(Isa.Alu(old(Abs()), c), ok, Abs())
    {
      ok := true;
      var a, b := gpr[c.rA], gpr[c.rB];
      if IsArithmetic(c.aluOp) {
        ArithmeticOp(c.aluOp, c.rD, a, b);
        CheckRange();
      } else if c.aluOp == 0xf {
        Ff1(c.rD, a);
      } else if c.aluOp == 0x10f {
        Fl1(c.rD, a);
      } else {
        match AluValue(c.aluOp, a, b, sr.f)
        case Some(v) => SetGpr(c.rD, v);
        case None => ok := false;
      }
    }

    /** The instructions with an immediate operand. */
    method Immediate(c: Control)
      requires Valid()
      modifies this, gpr
      ensures Abs() == Isa.Immediate(old(Abs()), c)
    {
      var a := gpr[c.rA];
      if c.opcode == OP_ADDI {
        Add(false, c.rD, a, Exts(c.i));
        CheckRange();
      } else if c.opcode == OP_ADDIC {
        Add(sr.cy, c.rD, a, Exts(c.i));
        CheckRange();
      } else if c.opcode == OP_MULI {
        MulShared(a, Exts(c.i), c.rD);
        CheckRange();
      } else if c.opcode == OP_ANDI {
        SetGpr(c.rD, BitAnd(a, c.k));
      } else if c.opcode == OP_ORI {
        SetGpr(c.rD, BitOr(a, c.k));
      } else {
        SetGpr(c.rD, BitXor(a, Exts(c.i)));
      }
    }

    /** `sf` and `sfi` */
    method CompareWith(c: Control, b: u32) returns (ok: bool)
      requires Valid()
      modifies `sr
      ensures Outcome(SetFlag(old(Abs()), c, b), ok, Abs())
    {
      match Compare(c.sfOp, gpr[c.rA], b)
      case Some(flag) =>
        sr := sr.(f := flag);
        ok := true;
      case None =>
        ok := false;
    }

    /** The instructions that are none of branch, access, immediate, comparison or register operation. */
    method ExecuteOther(c: Control) returns (ok: bool)
      requires Valid() && c.l < 32
      modifies this, gpr
      ensures Outcome(Isa.ExecuteOther(old(Abs()), c), ok, Abs())
    {
      ok := true;
      if c.opcode == OP_NOP {
      } else if c.opcode == OP_MAC || c.opcode == OP_MACI {
        ok := MultiplyAccumulate(c);
      } else if c.opcode == OP_MACRC_MOVHI {
        MacrcMovhi(c);
      } else if c.opcode == OP_RO_SHIFT_I {
        SetGpr(c.rD, ShiftedBy(c.roShiftOp, gpr[c.rA], c.l));
      } else if c.opcode == OP_MTSPR {
        SetSpr(BitOr(gpr[c.rA], c.k), gpr[c.rB]);
      } else if c.opcode == OP_MFSPR {
        var v := ReadSpr(BitOr(gpr[c.rA], c.k));
        SetGpr(c.rD, v);
      } else if c.opcode == OP_SYS_TRAP_SYNC {
        ok := SysTrap(c);
      } else if c.opcode == OP_RFE {
        Rfe();
      } else {
        ok := false;
      }
    }

    method ReadSpr(n: u32) returns (v: u32)
      requires Valid()
      ensures v == GetSpr(Abs(), n)
    {
      v := if n == SPR_NPC then npc
           else if n == SPR_SR then SrToWord(sr)
           else if n == SPR_PPC then pc
           else if n == SPR_EPCR then epcr
           else if n == SPR_EEAR then eear
           else if n == SPR_ESR then SrToWord(esr)
           else if n == SPR_DSR then dsr
           else if n == SPR_MACLO then maclo
           else if n == SPR_MACHI then machi
           else Lookup(spr, n);
    }

    /** `execute` without the final `cpu_advance_pc`; not `ok` where the simulator hangs. */
    method Dispatch(c: Control, outside: u32) returns (ok: bool)
      requires Valid() && c.l < 32
      modifies this, gpr
      ensures Outcome(Isa.Execute(old(Abs()), c, outside), ok, Abs())
    {
      ok := true;
      if IsBranchOp(c.opcode) {
        Branch(c);
      } else if IsAccessOp(c.opcode) {
        Access(c, outside);
      } else if IsImmediateOp(c.opcode) {
        Immediate(c);
      } else if c.opcode == OP_SFI {
        ok := CompareWith(c, Exts(c.i));
      } else if c.opcode == OP_SF {
        ok := CompareWith(c, gpr[c.rB]);
      } else if c.opcode == OP_ALU {
        ok := Alu(c);
      } else {
        ok := ExecuteOther(c);
      }
    }

    method Fetch() returns (inst: u32)
      requires Valid()
      modifies `epcr, `esr, `sr, `npc, `eear
      ensures (Abs(), inst) == Isa.Fetch(old(Abs()))
    {
      var ret;
      ret, inst := GuestLoadI(pc, NO_INSTRUCTION);
      if ret == 1 {
        RaiseAddressException(0xa00, pc);
      } else if ret == 2 {
        RaiseAddressException(0x400, pc);
      }
    }

    /** `cpu_exec_inst` */
    method ExecInst(outside: u32) returns (ok: bool)
      requires Valid()
      modifies this, gpr
      ensures Outcome(Step(old(Abs()), outside), ok, Abs())
    {
      var inst := Fetch();
      if inst == NO_INSTRUCTION {
        AdvancePc();
        return true;
      }
      ok := Dispatch(Decode(inst), outside);
      if ok {
        AdvancePc();
      }
    }
  }

  /** A method that hangs exactly where there is no next state, and otherwise reaches it. */
  predicate Outcome(spec: Option<State>, ok: bool, s: State) {
    match spec
    case Some(t) => ok && s == t
    case None => !ok
  }

  /** The return code and the value of a guest load. */
  predicate Reports(l: Loaded, content: u32, ret: nat, value: u32) {
    match l
    case Value(v) => ret == 0 && value == v
    case Unwritten => ret == 0 && value == content
    case TlbMiss => ret == 1 && value == content
    case Ignored => ret == 2 && value == content
  }

  /** The half-word load takes its half with a shift or a mask and extends its sign by an addition. */
  lemma HalfLoaded(value: u32, ea: u32, signed: bool)
    ensures var h := if ea / 2 % 2 == 0 then ShiftRight(value, 16) else BitAnd(value, 0xffff);
            HalfExtract(ea, signed)(value) == if signed && h >= 0x8000 then h + 0xffff_0000 else h
  {
    GetHalfIsShifted(value, ea);
  }

  lemma {:induction false} HighestOneAt(a: nat, k: nat)
    requires TestBit(a, k) && a < Pow2(k + 1)
    ensures HighestOne(a) == k + 1
  {
    if k > 0 {
      HalfBit(a, k - 1);
      HighestOneAt(a / 2, k - 1);
    }
  }

  lemma TopBitClear(a: nat, k: nat)
    requires !TestBit(a, k) && a < Pow2(k + 1)
    ensures a < Pow2(k)
  {
    ShrSmall(a, k + 1);
  }

  lemma {:induction false} LowestOneAt(a: u32, k: nat)
    requires k <= 32 && (forall j :: 0 <= j < k ==> !TestBit(a, j)) && (k == 32 || TestBit(a, k))
    ensures LowestOne(a) == if k == 32 then 0 else k + 1
  {
    if k == 32 {
      NoBits(a, 32);
      PowersOfTwo();
      ShrSmall(a, 32);
    } else {
      FirstBit(a, k);
    }
  }

  lemma {:induction false} NoBits(a: nat, k: nat)
    requires forall j :: 0 <= j < k ==> !TestBit(a, j)
    ensures Low(a, k) == 0
  {
    if k > 0 {
      NoBits(a, k - 1);
    }
  }

  lemma {:induction false} FirstBit(a: nat, k: nat)
    requires (forall j :: 0 <= j < k ==> !TestBit(a, j)) && TestBit(a, k)
    ensures LowestOne(a) == k + 1
  {
    if k > 0 {
      assert !TestBit(a, 0);
      forall j | 0 <= j < k - 1 ensures !TestBit(a / 2, j) {
        HalfBit(a, j);
        assert !TestBit(a, j + 1);
      }
      HalfBit(a, k - 1);
      FirstBit(a / 2, k - 1);
    }
  }

  /** The adder's three results are those of the state function. */
  lemma AddBaseIs(s: State, carryIn: bool, rD: Reg, a: u32, b: u32, result: u32, overflow: bool, carry: bool)
    requires result + Bit(carry) * WORD == a + b + Bit(carryIn)
    requires overflow <==> !FitsSigned(ToInt(a) + ToInt(b) + Bit(carryIn))
    ensures var t := Isa.SetGpr(s, rD, result);
            AddBase(s, carryIn, rD, a, b) == t.(sr := t.sr.(ov := overflow, cy := carry))
  {
    SumParts(a + b + Bit(carryIn), result, carry);
  }

  lemma SumParts(sum: nat, low: u32, carry: bool)
    requires sum == low + Bit(carry) * WORD
    ensures low == sum % WORD && (carry <==> sum >= WORD)
  {
  }

  lemma SmallWord(q: u32)
    ensures ToWord(q) == q
  {
  }
}
