/** The OR1K instruction simulator as a function on machine states: decoding, every instruction,
    exceptions, address translation and the delay slot.

    `outside` stands for what the model cannot see of one instruction: the value of an
    uninitialised local, or the byte that the real bus returns above 0x08000000. */
module Isa {
  import opened Common
  import opened Words
  import opened Arithmetic

  type Reg = r: nat | r < 32

  type u16 = n: nat | n < 0x1_0000

  type RegFile = g: seq<u32> | |g| == 32 witness seq(32, _ => 0)

  // ------------------------------------------------------------------ supervision register

  /** SR with its named flags; `high` is the upper half word. */
  datatype Sr = Sr(
    sm: bool, tee: bool, iee: bool, dce: bool, ice: bool, dme: bool, ime: bool, lee: bool,
    ce: bool, f: bool, cy: bool, ov: bool, ove: bool, dsx: bool, eph: bool, fo: bool, high: u16)

  function ToBits(n: nat, k: nat): (bits: seq<bool>)
    ensures |bits| == k
  {
    seq(k, i => 0 <= i && TestBit(n, i))
  }

  lemma {:induction false} BitsRoundTrip(n: nat, k: nat)
    requires n < Pow2(k)
    ensures FromBits(ToBits(n, k)) == n
  {
    if k > 0 {
      BitsRoundTrip(n / 2, k - 1);
      forall i | 0 <= i < k - 1 ensures TestBit(n, i + 1) == TestBit(n / 2, i) {
        HalfBit(n, i);
      }
      assert ToBits(n, k)[1..] == ToBits(n / 2, k - 1);
    }
  }

  lemma {:induction false} BitOfNumber(bits: seq<bool>, i: nat)
    requires i < |bits|
    ensures TestBit(FromBits(bits), i) == bits[i]
  {
    var n := FromBits(bits);
    assert n / 2 == FromBits(bits[1..]);
    if i > 0 {
      HalfBit(n, i - 1);
      BitOfNumber(bits[1..], i - 1);
    }
  }

  lemma NumberRoundTrip(bits: seq<bool>, k: nat)
    requires |bits| == k
    ensures ToBits(FromBits(bits), k) == bits
  {
    forall i | 0 <= i < k ensures TestBit(FromBits(bits), i) == bits[i] {
      BitOfNumber(bits, i);
    }
  }

  function ByteFlags(n: nat): (bits: seq<bool>)
    requires n < 256
    ensures |bits| == 8 && FromBits(bits) == n
  {
    assert Pow2(8) == 256;
    BitsRoundTrip(n, 8);
    ToBits(n, 8)
  }

  function FlagsByte(bits: seq<bool>): (n: nat)
    requires |bits| == 8
    ensures n < 256 && ByteFlags(n) == bits
  {
    assert Pow2(8) == 256;
    NumberRoundTrip(bits, 8);
    FromBits(bits)
  }

  function LowFlags(s: Sr): (b: seq<bool>)
    ensures |b| == 8
  {
    [s.sm, s.tee, s.iee, s.dce, s.ice, s.dme, s.ime, s.lee]
  }

  function HighFlags(s: Sr): (b: seq<bool>)
    ensures |b| == 8
  {
    [s.ce, s.f, s.cy, s.ov, s.ove, s.dsx, s.eph, s.fo]
  }

  function SrOf(a: seq<bool>, b: seq<bool>, high: u16): (s: Sr)
    requires |a| == 8 && |b| == 8
  {
    Sr(a[0], a[1], a[2], a[3], a[4], a[5], a[6], a[7], b[0], b[1], b[2], b[3], b[4], b[5], b[6], b[7], high)
  }

  lemma FlagsOfSr(a: seq<bool>, b: seq<bool>, high: u16)
    requires |a| == 8 && |b| == 8
    ensures LowFlags(SrOf(a, b, high)) == a && HighFlags(SrOf(a, b, high)) == b
  {
    Eight(a);
    Eight(b);
  }

  lemma Eight(a: seq<bool>)
    requires |a| == 8
    ensures [a[0], a[1], a[2], a[3], a[4], a[5], a[6], a[7]] == a
  {
  }

  lemma SrOfFlags(s: Sr)
    ensures SrOf(LowFlags(s), HighFlags(s), s.high) == s
  {
  }

  function FlagBytesWord(a: nat, b: nat, high: u16): u32
    requires a < 256 && b < 256
  {
    a + 256 * b + 65536 * high
  }

  function SrToWord(s: Sr): u32 {
    FlagBytesWord(FlagsByte(LowFlags(s)), FlagsByte(HighFlags(s)), s.high)
  }

  function WordToSr(w: u32): Sr {
    SrOf(ByteFlags(w % 256), ByteFlags(w / 256 % 256), w / 65536)
  }

  lemma FlagsRoundTrip(n: nat)
    requires n < 256
    ensures FlagsByte(ByteFlags(n)) == n
  {
  }

  lemma WordOfFlagBytes(a: nat, b: nat, high: u16)
    requires a < 256 && b < 256
    ensures SrToWord(SrOf(ByteFlags(a), ByteFlags(b), high)) == FlagBytesWord(a, b, high)
  {
    FlagsOfSr(ByteFlags(a), ByteFlags(b), high);
    FlagsRoundTrip(a);
    FlagsRoundTrip(b);
  }

  /** Keeping the flags of SR apart loses nothing. */
  lemma WordRoundTrip(w: u32)
    ensures SrToWord(WordToSr(w)) == w
  {
    WordOfFlagBytes(w % 256, w / 256 % 256, w / 65536);
    WordOfParts(w);
  }

  lemma WordOfParts(w: u32)
    ensures FlagBytesWord(w % 256, w / 256 % 256, w / 65536) == w
  {
  }

  lemma SrRoundTrip(s: Sr)
    ensures WordToSr(SrToWord(s)) == s
  {
    var a, b := FlagsByte(LowFlags(s)), FlagsByte(HighFlags(s));
    WordParts(a, b, s.high);
    SrOfFlags(s);
  }

  lemma WordParts(a: nat, b: nat, high: u16)
    requires a < 256 && b < 256
    ensures FlagBytesWord(a, b, high) % 256 == a && FlagBytesWord(a, b, high) / 256 % 256 == b && FlagBytesWord(a, b, high) / 65536 == high
  {
  }

  /** What l.mtspr writes into SR: the implemented bits, with the fixed one set. */
  function WritableSr(s: Sr): Sr {
    s.(fo := true, high := s.high % 2 + s.high / 4096 * 4096)
  }

  // ------------------------------------------------------------------ machine state

  /** The CPU structure, the word memory it reaches by physical address, and the special-purpose
      registers of the real processor (among them the TLBs).  `branchPc` is `NO_BRANCH` unless a
      branch has just been executed. */
  datatype State = State(
    gpr: RegFile, pc: u32, npc: u32, sr: Sr, machi: u32, maclo: u32, branchPc: u32,
    esr: Sr, epcr: u32, eear: u32, dsr: u32,
    mem: map<u32, u32>, spr: map<u32, u32>)

  const NO_BRANCH: u32 := 0xffff_ffff
  const NO_INSTRUCTION: u32 := 0xdead_beef
  const LR: Reg := 9

  function Lookup(m: map<u32, u32>, a: u32): u32 {
    if a in m then m[a] else 0
  }

  function Plus(a: u32, b: u32): u32 {
    (a + b) % WORD
  }

  function Minus(a: u32, b: u32): u32 {
    (a - b) % WORD
  }

  function SetGpr(s: State, r: Reg, v: u32): State {
    s.(gpr := s.gpr[r := if r == 0 then 0 else v])
  }

  predicate InDelaySlot(s: State) {
    s.npc != Plus(s.pc, 4)
  }

  /** `cpu_advance_pc` */
  function Advance(s: State): State {
    if s.branchPc != NO_BRANCH then s.(pc := s.npc, npc := s.branchPc, branchPc := NO_BRANCH)
    else s.(pc := s.npc, npc := Plus(s.npc, 4))
  }

  // ------------------------------------------------------------------ exceptions

  function Vector(s: State, offset: u32): u32 {
    if s.sr.eph then Plus(0xf000_0000, offset) else offset
  }

  function Supervisor(r: Sr): Sr {
    r.(dme := false, ime := false, sm := true, iee := false, tee := false)
  }

  /** Exceptions that restart the instruction, or the branch in front of its delay slot.  SR is
      saved after DSX has been set. */
  function Exception(s: State, offset: u32): State {
    var slot := InDelaySlot(s);
    var sr := s.sr.(dsx := slot);
    s.(epcr := if slot then Minus(s.pc, 4) else s.pc,
       esr := sr, sr := Supervisor(sr), npc := Vector(s, offset))
  }

  function AddressException(s: State, offset: u32, ea: u32): State {
    Exception(s, offset).(eear := ea)
  }

  /** The system call continues behind itself and saves SR before DSX is set. */
  function SysCall(s: State): State {
    var slot := InDelaySlot(s);
    s.(epcr := if slot then Minus(s.pc, 4) else s.npc,
       esr := s.sr, sr := Supervisor(s.sr.(dsx := slot)), npc := Vector(s, 0xc00))
  }

  function RangeCheck(s: State): State {
    if s.sr.ove && s.sr.ov then Exception(s, 0xb00) else s
  }

  // ------------------------------------------------------------------ decoding

  datatype Control = Control(
    inst: u32, opcode: nat, sfOp: nat, aluOp: nat, roShiftOp: nat, rD: Reg, rA: Reg, rB: Reg,
    n: u32, k: u32, i: u32, l: nat)

  const OP_J := 0x0
  const OP_JAL := 0x1
  const OP_BNF := 0x3
  const OP_BF := 0x4
  const OP_NOP := 0x5
  const OP_MACRC_MOVHI := 0x6
  const OP_SYS_TRAP_SYNC := 0x8
  const OP_RFE := 0x9
  const OP_JR := 0x11
  const OP_JALR := 0x12
  const OP_MACI := 0x13
  const OP_LWZ := 0x21
  const OP_LWS := 0x22
  const OP_LBZ := 0x23
  const OP_LBS := 0x24
  const OP_LHZ := 0x25
  const OP_LHS := 0x26
  const OP_ADDI := 0x27
  const OP_ADDIC := 0x28
  const OP_ANDI := 0x29
  const OP_ORI := 0x2a
  const OP_XORI := 0x2b
  const OP_MULI := 0x2c
  const OP_MFSPR := 0x2d
  const OP_RO_SHIFT_I := 0x2e
  const OP_SFI := 0x2f
  const OP_MTSPR := 0x30
  const OP_MAC := 0x31
  const OP_SW := 0x35
  const OP_SB := 0x36
  const OP_SH := 0x37
  const OP_ALU := 0x38
  const OP_SF := 0x39

  function Opcode(inst: u32): nat {
    inst / 0x400_0000 % 64
  }

  function Decode(inst: u32): Control {
    var opcode := Opcode(inst);
    var alu := inst % 1024;
    var shift := inst % 16 == 0xc || inst % 16 == 0x8;
    var split := inst / 0x20_0000 % 32 * 2048 + inst % 2048;
    Control(
      inst, opcode,
      inst / 0x20_0000 % 32,
      if shift then alu - alu / 16 % 4 * 16 else alu - alu / 16 % 16 * 16,
      inst / 64 % 4,
      inst / 0x20_0000 % 32, inst / 0x1_0000 % 32, inst / 2048 % 32,
      inst % 0x400_0000,
      if opcode == OP_MTSPR then split else inst % 0x1_0000,
      if opcode == OP_SW || opcode == OP_SH || opcode == OP_SB then split else inst % 0x1_0000,
      inst % 32)
  }

  /** `sign_extend`: all bits from the sign bit up become one if it is set. */
  function SignExtend(value: u32, bit: nat): u32
    requires bit < 32
  {
    Pow2Monotone(bit, 31);
    PowersOfTwo();
    if TestBit(value, bit) then Low(value, bit) + WORD - Pow2(bit) else value
  }

  function Exts(imm: u32): u32 {
    SignExtend(imm, 15)
  }

  /** The target of a pc-relative branch. */
  function BranchTarget(s: State, c: Control): u32 {
    Plus(s.pc, SignExtend(c.n * 4 % WORD, 27))
  }

  function EffectiveAddress(s: State, c: Control): u32 {
    Plus(Exts(c.i), s.gpr[c.rA])
  }

  // ------------------------------------------------------------------ translation and memory

  const DTLBMR: u32 := 0xa00
  const DTLBTR: u32 := 0xa80
  const ITLBMR: u32 := 0x1200
  const ITLBTR: u32 := 0x1280

  /** One way, 64 sets, pages of 8 kB; 1 stands for a TLB miss. */
  function TlbLookup(spr: map<u32, u32>, matchBase: u32, translateBase: u32, va: u32): u32
    requires matchBase < 0x1_0000 && translateBase < 0x1_0000
  {
    var index := va / 8192 % 64;
    var entry := Lookup(spr, matchBase + index);
    if entry % 2 == 1 && entry / 8192 == va / 8192
    then Lookup(spr, translateBase + index) / 8192 * 8192 + va % 8192
    else 1
  }

  function TranslateD(s: State, va: u32): u32 {
    if !s.sr.dme then va else TlbLookup(s.spr, DTLBMR, DTLBTR, va)
  }

  function TranslateI(s: State, va: u32): u32 {
    if !s.sr.ime then va else TlbLookup(s.spr, ITLBMR, ITLBTR, va)
  }

  /** The result of a guest load: physical address 0 reports success without loading, address 2
      reports a fault that nobody handles. */
  datatype Loaded = Value(v: u32) | Unwritten | TlbMiss | Ignored

  function LoadAt(s: State, pa: u32): Loaded {
    if pa > 2 then Value(Lookup(s.mem, pa)) else if pa == 0 then Unwritten else if pa == 1 then TlbMiss else Ignored
  }

  function LoadD(s: State, va: u32): Loaded {
    LoadAt(s, TranslateD(s, va))
  }

  /** `simStoreData` */
  function StoreD(s: State, va: u32, v: u32): State {
    var pa := TranslateD(s, va);
    if pa > 2 then s.(mem := s.mem[pa := v])
    else if pa == 1 then AddressException(s, 0x900, va)
    else s
  }

  function WordAddress(ea: u32): (a: u32)
    ensures a % 4 == 0 && a <= ea
  {
    ea - ea % 4
  }

  /** The byte of a word in lane `lane`; lane 0 is the most significant one. */
  function GetByte(w: u32, lane: nat): nat {
    if lane == 0 then w / 0x100_0000 else if lane == 1 then w / 0x1_0000 % 256
    else if lane == 2 then w / 0x100 % 256 else w % 256
  }

  /** Clear a lane and or the new byte in. */
  function PutByte(w: u32, lane: nat, b: nat): u32
    requires b < 256
  {
    if lane == 0 then w % 0x100_0000 + b * 0x100_0000
    else if lane == 1 then w - w / 0x1_0000 % 256 * 0x1_0000 + b * 0x1_0000
    else if lane == 2 then w - w / 0x100 % 256 * 0x100 + b * 0x100
    else w - w % 256 + b
  }

  function GetHalf(w: u32, ea: u32): nat {
    if ea / 2 % 2 == 0 then w / 0x1_0000 else w % 0x1_0000
  }

  function PutHalf(w: u32, ea: u32, h: u32): u32 {
    if ea / 2 % 2 == 0 then w % 0x1_0000 + h % 0x1_0000 * 0x1_0000 else w - w % 0x1_0000 + h % 0x1_0000
  }

  function Whole(w: u32): u32 {
    w
  }

  /** What a sub-word load takes out of the word around `ea`, and what a sub-word store makes of it. */
  function HalfExtract(ea: u32, signed: bool): u32 -> u32 {
    w => var h := GetHalf(w, ea); if signed && h >= 0x8000 then h + 0xffff_0000 else h
  }

  function ByteExtract(ea: u32, signed: bool): u32 -> u32 {
    w => var b := GetByte(w, ea % 4); if signed then SignExtend(b, 7) else b
  }

  function HalfChange(ea: u32, v: u32): u32 -> u32 {
    w => PutHalf(w, ea, v)
  }

  function ByteChange(ea: u32, v: u32): u32 -> u32 {
    w => PutByte(w, ea % 4, v % 256)
  }

  /** Load the word at `va` and put `extract` of it into rD. */
  function LoadInto(s: State, c: Control, va: u32, extract: u32 -> u32, outside: u32): State {
    match LoadD(s, va)
    case Value(v) => SetGpr(s, c.rD, extract(v))
    case Unwritten => SetGpr(s, c.rD, extract(outside))
    case TlbMiss => AddressException(s, 0x900, va)
    case Ignored => s
  }

  /** Load the word at `va`, change it and store it back. */
  function ReadModifyWrite(s: State, va: u32, change: u32 -> u32, outside: u32): State {
    match LoadD(s, va)
    case Value(v) => StoreD(s, va, change(v))
    case Unwritten => StoreD(s, va, change(outside))
    case TlbMiss => AddressException(s, 0x900, va)
    case Ignored => s
  }

  function LoadWord(s: State, c: Control, outside: u32): State {
    var ea := EffectiveAddress(s, c);
    if ea % 4 != 0 then AddressException(s, 0x600, ea) else LoadInto(s, c, ea, Whole, outside)
  }

  function LoadHalf(s: State, c: Control, signed: bool, outside: u32): State {
    var ea := EffectiveAddress(s, c);
    if ea % 2 != 0 then AddressException(s, 0x600, ea)
    else LoadInto(s, c, WordAddress(ea), HalfExtract(ea, signed), outside)
  }

  function LoadByte(s: State, c: Control, signed: bool, outside: u32): State {
    var ea := EffectiveAddress(s, c);
    var pa := TranslateD(s, ea);
    if pa == 1 then AddressException(s, 0x900, ea)
    else if pa >= 0x800_0000 then SetGpr(s, c.rD, outside)
    else LoadInto(s, c, WordAddress(ea), ByteExtract(ea, signed), outside)
  }

  function StoreWord(s: State, c: Control): State {
    var ea := EffectiveAddress(s, c);
    if ea % 4 != 0 then AddressException(s, 0x600, ea) else StoreD(s, ea, s.gpr[c.rB])
  }

  function StoreHalf(s: State, c: Control, outside: u32): State {
    var ea := EffectiveAddress(s, c);
    if ea % 2 != 0 then AddressException(s, 0x600, ea)
    else ReadModifyWrite(s, WordAddress(ea), HalfChange(ea, s.gpr[c.rB]), outside)
  }

  function StoreByte(s: State, c: Control, outside: u32): State {
    var ea := EffectiveAddress(s, c);
    var pa := TranslateD(s, ea);
    if pa == 1 then AddressException(s, 0x900, ea)
    else if pa >= 0x800_0000 then s
    else ReadModifyWrite(s, WordAddress(ea), ByteChange(ea, s.gpr[c.rB]), outside)
  }

  // ------------------------------------------------------------------ arithmetic instructions

  function AddBase(s: State, carryIn: bool, rD: Reg, a: u32, b: u32): State {
    var sum := a + b + Bit(carryIn);
    var t := SetGpr(s, rD, sum % WORD);
    t.(sr := t.sr.(ov := !FitsSigned(ToInt(a) + ToInt(b) + Bit(carryIn)), cy := sum >= WORD))
  }

  /** The signs of the operands and of the value in rD do not fit together. */
  predicate SubOverflows(a: u32, b: u32, r: u32) {
    (IsNeg(a) && !IsNeg(b) && !IsNeg(r)) || (!IsNeg(a) && IsNeg(b) && IsNeg(r))
  }

  /** l.sub adds the negation and then computes the flags anew from the register written. */
  function SubBase(s: State, rD: Reg, a: u32, b: u32): State {
    var t := AddBase(s, false, rD, a, Negate(b));
    var r := t.gpr[rD];
    t.(sr := t.sr.(cy := b > a, ov := SubOverflows(a, b, r)))
  }

  function MulBase(s: State, rD: Reg, a: u32, b: u32): State {
    var t := SetGpr(s, rD, ToWord(ToInt(a) * ToInt(b)));
    t.(sr := t.sr.(ov := !FitsSigned(ToInt(a) * ToInt(b)), cy := a * b >= WORD))
  }

  function MuluBase(s: State, rD: Reg, a: u32, b: u32): State {
    var t := SetGpr(s, rD, ToWord(a * b));
    t.(sr := t.sr.(ov := false, cy := a * b >= WORD))
  }

  /** Division leaves rD alone and sets the carry when the divisor is zero. */
  function DivBase(s: State, rD: Reg, a: u32, b: u32, signed: bool): State {
    var t := if b == 0 then s
             else SetGpr(s, rD, if signed then ToWord(TruncDiv(ToInt(a), ToInt(b))) else ToWord(a / b));
    t.(sr := t.sr.(ov := false, cy := b == 0))
  }

  /** The 64-bit accumulator. */
  function Mac(s: State): u64 {
    s.maclo + s.machi * WORD
  }

  function SetMac(s: State, m: u64): State {
    s.(machi := m / WORD, maclo := m % WORD)
  }

  function Accumulate(s: State, addend: int): State {
    SetMac(s, (Mac(s) + addend) % DWORD)
  }

  /** The position of the highest one bit, counted from 1; 0 for zero. */
  function HighestOne(a: nat): nat {
    if a == 0 then 0 else 1 + HighestOne(a / 2)
  }

  /** The position of the lowest one bit, counted from 1; 0 for zero. */
  function LowestOne(a: nat): nat {
    if a == 0 then 0 else if a % 2 == 1 then 1 else 1 + LowestOne(a / 2)
  }

  lemma {:induction false} OnesInWord(a: nat, k: nat)
    requires a < Pow2(k)
    ensures HighestOne(a) <= k && LowestOne(a) <= k
  {
    if k > 0 && a > 0 {
      OnesInWord(a / 2, k - 1);
    }
  }

  function WordHighestOne(a: u32): u32 {
    PowersOfTwo();
    OnesInWord(a, 32);
    HighestOne(a)
  }

  function WordLowestOne(a: u32): u32 {
    PowersOfTwo();
    OnesInWord(a, 32);
    LowestOne(a)
  }

  // ------------------------------------------------------------------ logic and shifts

  function ShiftLeft(a: u32, n: nat): u32 {
    Shl(a, n) % WORD
  }

  lemma {:induction false} ShrShrinks(a: nat, n: nat)
    ensures Shr(a, n) <= a
  {
    if n > 0 {
      ShrShrinks(a, n - 1);
    }
  }

  function ShiftRight(a: u32, n: nat): u32 {
    ShrShrinks(a, n);
    Shr(a, n)
  }

  function ShiftRightSigned(a: u32, n: nat): u32
    requires n < 32
  {
    if n == 0 then a else SignExtend(ShiftRight(a, n), 31 - n)
  }

  function RotateRight(a: u32, n: nat): u32
    requires n < 32
  {
    if n == 0 then a else BitOr(ShiftRight(a, n), ShiftLeft(a, 32 - n))
  }

  /** The value that a plain register operation computes, for the ALU codes that have one. */
  function AluValue(op: nat, a: u32, b: u32, flag: bool): Option<u32> {
    if op == 0x3 then Some(BitAnd(a, b))
    else if op == 0x4 then Some(BitOr(a, b))
    else if op == 0x5 then Some(BitXor(a, b))
    else if op == 0xd || op == 0x4d then Some(a)
    else if op == 0xc then Some(SignExtend(a % 0x1_0000, 15))
    else if op == 0x4c then Some(SignExtend(a % 256, 7))
    else if op == 0xcc then Some(a % 256)
    else if op == 0x8c then Some(a % 0x1_0000)
    else if op == 0xf then Some(WordLowestOne(a))
    else if op == 0x10f then Some(WordHighestOne(a))
    else if op == 0x8 then Some(ShiftLeft(a, b % 32))
    else if op == 0x48 then Some(ShiftRight(a, b % 32))
    else if op == 0x88 then Some(ShiftRightSigned(a, b % 32))
    else if op == 0xc8 then Some(RotateRight(a, b % 32))
    else if op == 0xe then Some(if flag then a else b)
    else None
  }

  predicate IsArithmetic(op: nat) {
    op == 0x0 || op == 0x1 || op == 0x2 || op == 0x306 || op == 0x30b || op == 0x30a || op == 0x309
  }

  /** The instructions that set carry and overflow. */
  function ArithmeticBase(s: State, op: nat, rD: Reg, a: u32, b: u32): State
    requires IsArithmetic(op)
  {
    if op == 0x0 then AddBase(s, false, rD, a, b)
    else if op == 0x1 then AddBase(s, s.sr.cy, rD, a, b)
    else if op == 0x2 then SubBase(s, rD, a, b)
    else if op == 0x306 then MulBase(s, rD, a, b)
    else if op == 0x30b then MuluBase(s, rD, a, b)
    else DivBase(s, rD, a, b, op == 0x309)
  }

  /** `alu`: the register-register instructions; no result for an unimplemented code. */
  function Alu(s: State, c: Control): Option<State> {
    var a, b := s.gpr[c.rA], s.gpr[c.rB];
    if IsArithmetic(c.aluOp) then Some(RangeCheck(ArithmeticBase(s, c.aluOp, c.rD, a, b)))
    else match AluValue(c.aluOp, a, b, s.sr.f)
         case Some(v) => Some(SetGpr(s, c.rD, v))
         case None => None
  }

  function ShiftedBy(op: nat, a: u32, n: nat): u32
    requires n < 32
  {
    if op == 0 then ShiftLeft(a, n)
    else if op == 1 then ShiftRight(a, n)
    else if op == 2 then ShiftRightSigned(a, n)
    else RotateRight(a, n)
  }

  /** The comparisons of l.sf and l.sfi. */
  function Compare(op: nat, a: u32, b: u32): Option<bool> {
    if op == 0x0 then Some(a == b)
    else if op == 0x1 then Some(a != b)
    else if op == 0x2 then Some(a > b)
    else if op == 0x3 then Some(a >= b)
    else if op == 0x4 then Some(a < b)
    else if op == 0x5 then Some(a <= b)
    else if op == 0xa then Some(ToInt(a) > ToInt(b))
    else if op == 0xb then Some(ToInt(a) >= ToInt(b))
    else if op == 0xc then Some(ToInt(a) < ToInt(b))
    else if op == 0xd then Some(ToInt(a) <= ToInt(b))
    else None
  }

  function SetFlag(s: State, c: Control, b: u32): Option<State> {
    match Compare(c.sfOp, s.gpr[c.rA], b)
    case Some(f) => Some(s.(sr := s.sr.(f := f)))
    case None => None
  }

  // ------------------------------------------------------------------ special registers

  const SPR_NPC: u32 := 16
  const SPR_SR: u32 := 17
  const SPR_PPC: u32 := 18
  const SPR_EPCR: u32 := 32
  const SPR_EEAR: u32 := 48
  const SPR_ESR: u32 := 64
  const SPR_MACLO: u32 := 0x2801
  const SPR_MACHI: u32 := 0x2802
  const SPR_DSR: u32 := 0x3014

  function SetSpr(s: State, n: u32, v: u32): State {
    if n == SPR_NPC then s.(npc := v)
    else if n == SPR_SR then s.(sr := WritableSr(WordToSr(v)))
    else if n == SPR_PPC then s.(pc := v)
    else if n == SPR_EPCR then s.(epcr := v)
    else if n == SPR_EEAR then s.(eear := v)
    else if n == SPR_ESR then s.(esr := WordToSr(v))
    else if n == SPR_DSR then s.(dsr := v)
    else if n == SPR_MACLO then s.(maclo := v)
    else if n == SPR_MACHI then s.(machi := v)
    else s.(spr := s.spr[n := v])
  }

  function GetSpr(s: State, n: u32): u32 {
    if n == SPR_NPC then s.npc
    else if n == SPR_SR then SrToWord(s.sr)
    else if n == SPR_PPC then s.pc
    else if n == SPR_EPCR then s.epcr
    else if n == SPR_EEAR then s.eear
    else if n == SPR_ESR then SrToWord(s.esr)
    else if n == SPR_DSR then s.dsr
    else if n == SPR_MACLO then s.maclo
    else if n == SPR_MACHI then s.machi
    else Lookup(s.spr, n)
  }

  // ------------------------------------------------------------------ control flow

  function Jump(s: State, target: u32): State {
    s.(branchPc := target)
  }

  function Link(s: State): State {
    s.(gpr := s.gpr[LR := Plus(s.pc, 8)])
  }

  predicate IsBranchOp(op: nat) {
    op == OP_J || op == OP_JAL || op == OP_BF || op == OP_BNF || op == OP_JR || op == OP_JALR
  }

  predicate IsRegisterJump(op: nat) {
    op == OP_JR || op == OP_JALR
  }

  /** The instruction is a branch that is taken to an acceptable address. */
  predicate Takes(s: State, c: Control) {
    || c.opcode == OP_J || c.opcode == OP_JAL
    || (c.opcode == OP_BF && s.sr.f) || (c.opcode == OP_BNF && !s.sr.f)
    || (IsRegisterJump(c.opcode) && s.gpr[c.rB] % 4 == 0)
  }

  function Target(s: State, c: Control): u32 {
    if IsRegisterJump(c.opcode) then s.gpr[c.rB] else BranchTarget(s, c)
  }

  function Branch(s: State, c: Control): State {
    if Takes(s, c) then
      var t := Jump(s, Target(s, c));
      if c.opcode == OP_JAL || c.opcode == OP_JALR then Link(t) else t
    else if IsRegisterJump(c.opcode) then AddressException(s, 0x600, s.gpr[c.rB])
    else s
  }

  // ------------------------------------------------------------------ execution

  predicate IsAccessOp(op: nat) {
    (OP_LWZ <= op <= OP_LHS) || (OP_SW <= op <= OP_SH)
  }

  function MemoryAccess(s: State, c: Control, outside: u32): State {
    if c.opcode == OP_LBZ then LoadByte(s, c, false, outside)
    else if c.opcode == OP_LBS then LoadByte(s, c, true, outside)
    else if c.opcode == OP_LHZ then LoadHalf(s, c, false, outside)
    else if c.opcode == OP_LHS then LoadHalf(s, c, true, outside)
    else if c.opcode == OP_SW then StoreWord(s, c)
    else if c.opcode == OP_SB then StoreByte(s, c, outside)
    else if c.opcode == OP_SH then StoreHalf(s, c, outside)
    else LoadWord(s, c, outside)
  }

  /** Instructions with an immediate operand. */
  function Immediate(s: State, c: Control): State {
    var a := s.gpr[c.rA];
    if c.opcode == OP_ADDI then RangeCheck(AddBase(s, false, c.rD, a, Exts(c.i)))
    else if c.opcode == OP_ADDIC then RangeCheck(AddBase(s, s.sr.cy, c.rD, a, Exts(c.i)))
    else if c.opcode == OP_MULI then RangeCheck(MulBase(s, c.rD, a, Exts(c.i)))
    else if c.opcode == OP_ANDI then SetGpr(s, c.rD, BitAnd(a, c.k))
    else if c.opcode == OP_ORI then SetGpr(s, c.rD, BitOr(a, c.k))
    else SetGpr(s, c.rD, BitXor(a, Exts(c.i)))
  }

  predicate IsImmediateOp(op: nat) {
    op == OP_ADDI || op == OP_ADDIC || op == OP_MULI || op == OP_ANDI || op == OP_ORI || op == OP_XORI
  }

  /** The signed product that l.mac, l.msb or l.maci adds to the accumulator. */
  function Product(s: State, c: Control): Option<int> {
    if c.opcode == OP_MACI then Some(ToInt(s.gpr[c.rA]) * ToInt(Exts(c.i)))
    else if c.inst % 16 == 2 then Some(-(ToInt(s.gpr[c.rA]) * ToInt(s.gpr[c.rB])))
    else if c.inst % 16 == 1 then Some(ToInt(s.gpr[c.rA]) * ToInt(s.gpr[c.rB]))
    else None
  }

  function MultiplyAccumulate(s: State, c: Control): Option<State> {
    match Product(s, c)
    case Some(p) => Some(Accumulate(s, p))
    case None => None
  }

  function MacrcMovhi(s: State, c: Control): State {
    if c.inst % 0x2_0000 == 0x1_0000 then SetMac(SetGpr(s, c.rD, s.maclo), 0)
    else SetGpr(s, c.rD, c.k * 0x1_0000 % WORD)
  }

  function SysTrap(s: State, c: Control): Option<State> {
    if c.inst / 0x1_0000 == 0x2000 then Some(SysCall(s))
    else if c.inst / 0x1_0000 == 0x2100 then Some(Exception(s, 0xe00))
    else None
  }

  function ReturnFromException(s: State): State {
    s.(sr := s.esr, npc := s.epcr)
  }

  /** The instructions without an immediate operand, memory access, comparison or register operation. */
  function ExecuteOther(s: State, c: Control): Option<State>
    requires c.l < 32
  {
    if c.opcode == OP_NOP then Some(s)
    else if c.opcode == OP_MAC || c.opcode == OP_MACI then MultiplyAccumulate(s, c)
    else if c.opcode == OP_MACRC_MOVHI then Some(MacrcMovhi(s, c))
    else if c.opcode == OP_RO_SHIFT_I then Some(SetGpr(s, c.rD, ShiftedBy(c.roShiftOp, s.gpr[c.rA], c.l)))
    else if c.opcode == OP_MTSPR then Some(SetSpr(s, BitOr(s.gpr[c.rA], c.k), s.gpr[c.rB]))
    else if c.opcode == OP_MFSPR then Some(SetGpr(s, c.rD, GetSpr(s, BitOr(s.gpr[c.rA], c.k))))
    else if c.opcode == OP_SYS_TRAP_SYNC then SysTrap(s, c)
    else if c.opcode == OP_RFE then Some(ReturnFromException(s))
    else None
  }

  /** `execute` up to the final `cpu_advance_pc`; no result for an unimplemented instruction, on
      which the simulator never returns. */
  function Execute(s: State, c: Control, outside: u32): Option<State>
    requires c.l < 32
  {
    if IsBranchOp(c.opcode) then Some(Branch(s, c))
    else if IsAccessOp(c.opcode) then Some(MemoryAccess(s, c, outside))
    else if IsImmediateOp(c.opcode) then Some(Immediate(s, c))
    else if c.opcode == OP_SFI then SetFlag(s, c, Exts(c.i))
    else if c.opcode == OP_SF then SetFlag(s, c, s.gpr[c.rB])
    else if c.opcode == OP_ALU then Alu(s, c)
    else ExecuteOther(s, c)
  }

  /** `fetch`: the state after a possible fault, and the instruction or the sentinel. */
  function Fetch(s: State): (State, u32) {
    match LoadAt(s, TranslateI(s, s.pc))
    case Value(inst) => (s, inst)
    case TlbMiss => (AddressException(s, 0xa00, s.pc), NO_INSTRUCTION)
    case Ignored => (AddressException(s, 0x400, s.pc), NO_INSTRUCTION)
    case Unwritten => (s, NO_INSTRUCTION)
  }

  /** `cpu_exec_inst` */
  function Step(s: State, outside: u32): Option<State> {
    var (t, inst) := Fetch(s);
    if inst == NO_INSTRUCTION then Some(Advance(t))
    else match Execute(t, Decode(inst), outside)
         case Some(u) => Some(Advance(u))
         case None => None
  }

  /** `cpu_init0` and `cpu_reset`. */
  function ResetState(mem: map<u32, u32>, spr: map<u32, u32>): State {
    var zero := WordToSr(0);
    State(seq(32, _ => 0), 0x100, 0x104, WordToSr(0x8001), 0, 0, NO_BRANCH, zero, 0, 0, 0, mem, spr)
  }
}
