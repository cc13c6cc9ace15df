/** Instruction words, special-purpose registers and TLB entries: what is put in is read back. */
module Encoding {
  import opened Common
  import opened Words
  import opened Arithmetic
  import opened Isa
  import opened Runs

  // ------------------------------------------------------------------ instruction words

  type u6 = n: nat | n < 64
  type u11 = n: nat | n < 2048
  type u26 = n: nat | n < 0x400_0000

  /** Opcode, three registers and eleven more bits. */
  function RegisterFormat(op: u6, d: Reg, a: Reg, b: Reg, low: u11): u32 {
    op * 0x400_0000 + d * 0x20_0000 + a * 0x1_0000 + b * 0x800 + low
  }

  function JumpFormat(op: u6, n: u26): u32 {
    op * 0x400_0000 + n
  }

  function ImmediateFormat(op: u6, d: Reg, a: Reg, imm: u16): u32 {
    op * 0x400_0000 + d * 0x20_0000 + a * 0x1_0000 + imm
  }

  /** Stores and l.mtspr keep the upper five bits of their immediate in the place of rD. */
  function SplitFormat(op: u6, a: Reg, b: Reg, imm: u16): u32 {
    RegisterFormat(op, imm / 2048, a, b, imm % 2048)
  }

  lemma UpperFields(op: u6, d: Reg, a: Reg, low: u16)
    ensures var w := op * 0x400_0000 + d * 0x20_0000 + a * 0x1_0000 + low;
            && w / 0x400_0000 % 64 == op && w / 0x20_0000 % 32 == d && w / 0x1_0000 % 32 == a && w % 0x1_0000 == low
  {
    var w := op * 0x400_0000 + d * 0x20_0000 + a * 0x1_0000 + low;
    DivModUnique(w, 0x1_0000, op * 1024 + d * 32 + a, low);
    DivModUnique(w, 0x20_0000, op * 32 + d, a * 0x1_0000 + low);
    DivModUnique(w, 0x400_0000, op, d * 0x20_0000 + a * 0x1_0000 + low);
  }

  lemma LowerFields(w: u32, upper: nat, b: Reg, low: u11)
    requires w == upper * 0x1_0000 + b * 2048 + low
    ensures w / 2048 % 32 == b && w % 2048 == low && w % 0x1_0000 == b * 2048 + low
  {
    DivModUnique(w, 2048, upper * 32 + b, low);
    DivModUnique(w, 0x1_0000, upper, b * 2048 + low);
  }

  /** The registers of a register-register instruction. */
  lemma DecodesRegisters(op: u6, d: Reg, a: Reg, b: Reg, low: u11)
    ensures var c := Decode(RegisterFormat(op, d, a, b, low));
            c.opcode == op && c.rD == d && c.rA == a && c.rB == b && c.sfOp == d
  {
    UpperFields(op, d, a, b * 2048 + low);
    LowerFields(RegisterFormat(op, d, a, b, low), op * 1024 + d * 32 + a, b, low);
  }

  lemma DecodesImmediate(op: u6, d: Reg, a: Reg, imm: u16)
    requires op != OP_MTSPR && op != OP_SW && op != OP_SH && op != OP_SB
    ensures var c := Decode(ImmediateFormat(op, d, a, imm));
            c.opcode == op && c.rD == d && c.rA == a && c.i == imm && c.k == imm
  {
    UpperFields(op, d, a, imm);
  }

  lemma DecodesSplit(op: u6, a: Reg, b: Reg, imm: u16)
    ensures var c := Decode(SplitFormat(op, a, b, imm));
            && c.opcode == op && c.rA == a && c.rB == b
            && (op == OP_SW || op == OP_SH || op == OP_SB ==> c.i == imm)
            && (op == OP_MTSPR ==> c.k == imm)
  {
    DecodesRegisters(op, imm / 2048, a, b, imm % 2048);
    UpperFields(op, imm / 2048, a, b * 2048 + imm % 2048);
    LowerFields(SplitFormat(op, a, b, imm), op * 1024 + imm / 2048 * 32 + a, b, imm % 2048);
  }

  /** A jump offset read as a two's complement number of 26 bits. */
  function SignedOffset(n: u26): int {
    if n >= 0x200_0000 then n - 0x400_0000 else n
  }

  lemma SignExtend27(v: u32)
    requires v < 0x1000_0000
    ensures SignExtend(v, 27) == ToWord(if v >= 0x800_0000 then v - 0x1000_0000 else v)
  {
    PowersOfTwentyEight();
    ShrSmall(v, 28);
  }

  lemma PowersOfTwentyEight()
    ensures Pow2(27) == 0x800_0000 && Pow2(28) == 0x1000_0000
  {
    assert Pow2(14) == 0x4000;
    assert Pow2(21) == 0x20_0000;
  }

  lemma DecodesJump(op: u6, n: u26)
    ensures var c := Decode(JumpFormat(op, n)); c.opcode == op && c.n == n
  {
    DivModUnique(JumpFormat(op, n), 0x400_0000, op, n);
  }

  /** A pc-relative branch goes to pc plus four times the signed offset. */
  lemma BranchTargetMeaning(s: State, c: Control)
    requires c.n < 0x400_0000
    ensures BranchTarget(s, c) == ToWord(s.pc + 4 * SignedOffset(c.n))
  {
    assert c.n * 4 % WORD == c.n * 4;
    SignExtend27(c.n * 4);
    AddModulo(s.pc, 4 * SignedOffset(c.n));
  }

  lemma AddModulo(a: u32, i: int)
    requires -0x1_0000_0000 < i < 0x1_0000_0000
    ensures Plus(a, ToWord(i)) == ToWord(a + i)
  {
  }

  /** An immediate operand is a two's complement number of 16 bits. */
  lemma ImmediateMeaning(imm: u16)
    ensures ToInt(Exts(imm)) == if imm >= 0x8000 then imm - 0x1_0000 else imm
  {
    assert Pow2(8) == 256;
    assert Pow2(15) == 0x8000 && Pow2(16) == 0x1_0000;
    ShrSmall(imm, 16);
  }

  // ------------------------------------------------------------------ special-purpose registers

  lemma SetThenGet(s: State, n: u32, v: u32)
    ensures n != SPR_SR ==> GetSpr(SetSpr(s, n, v), n) == v
  {
    if n == SPR_ESR {
      WordRoundTrip(v);
    }
  }

  /** What special-purpose register `n` reads as behind an `l.mtspr` of `v` at `s`.  NPC and PPC have
      moved on by then, and SR keeps its implemented bits. */
  function ReadBack(s: State, n: u32, v: u32): u32 {
    if n == SPR_NPC then Plus(v, 4)
    else if n == SPR_PPC then s.npc
    else if n == SPR_SR then SrToWord(WritableSr(WordToSr(v)))
    else v
  }

  /** The instruction at `s` accesses special-purpose register `n`. */
  predicate AccessesSpr(s: State, c: Control, op: nat, n: u32) {
    Fetched(s) == Some(c) && c.opcode == op && BitOr(s.gpr[c.rA], c.k) == n
  }

  lemma MtsprStep(s: State, c: Control, n: u32, outside: u32)
    requires AccessesSpr(s, c, OP_MTSPR, n)
    ensures Step(s, outside) == Some(Advance(SetSpr(s, n, s.gpr[c.rB])))
  {
    StepExecutes(s, c, outside);
  }

  lemma AdvanceSpr(s: State, n: u32)
    requires s.branchPc == NO_BRANCH
    ensures n != SPR_NPC && n != SPR_PPC ==> GetSpr(Advance(s), n) == GetSpr(s, n)
    ensures GetSpr(Advance(s), SPR_NPC) == Plus(s.npc, 4) && GetSpr(Advance(s), SPR_PPC) == s.npc
  {
    assert Advance(s).sr == s.sr && Advance(s).esr == s.esr;
  }

  /** An executed `l.mtspr` leaves its register as `ReadBack` says, and all others but NPC and PPC as
      they were. */
  lemma SprReadBack(s: State, c: Control, n: u32, m: u32, outside: u32)
    requires s.branchPc == NO_BRANCH && AccessesSpr(s, c, OP_MTSPR, n)
    ensures Step(s, outside).Some?
    ensures GetSpr(Step(s, outside).value, n) == ReadBack(s, n, s.gpr[c.rB])
    ensures m != n && m != SPR_NPC && m != SPR_PPC ==> GetSpr(Step(s, outside).value, m) == GetSpr(s, m)
  {
    var v := s.gpr[c.rB];
    MtsprStep(s, c, n, outside);
    AdvanceSpr(SetSpr(s, n, v), n);
    SetThenGet(s, n, v);
    SetKeepsPc(s, n, v);
    if m != n {
      AdvanceSpr(SetSpr(s, n, v), m);
      SprIndependent(s, n, m, v);
    }
  }

  lemma SetKeepsPc(s: State, n: u32, v: u32)
    ensures SetSpr(s, n, v).npc == (if n == SPR_NPC then v else s.npc) && SetSpr(s, n, v).branchPc == s.branchPc
    ensures n == SPR_SR ==> GetSpr(SetSpr(s, n, v), n) == SrToWord(WritableSr(WordToSr(v)))
  {
  }

  lemma MfsprStep(s: State, c: Control, n: u32, outside: u32)
    requires AccessesSpr(s, c, OP_MFSPR, n) && c.rD != 0
    ensures Step(s, outside).Some? && Step(s, outside).value.gpr[c.rD] == GetSpr(s, n)
  {
    StepExecutes(s, c, outside);
  }

  /** `l.mtspr` followed by `l.mfspr` of the same register. */
  lemma WriteThenRead(s: State, c: Control, d: Control, n: u32, o: u32, o': u32)
    requires s.branchPc == NO_BRANCH && AccessesSpr(s, c, OP_MTSPR, n)
    requires Step(s, o).Some? && AccessesSpr(Step(s, o).value, d, OP_MFSPR, n) && d.rD != 0
    ensures Step(Step(s, o).value, o').Some?
    ensures Step(Step(s, o).value, o').value.gpr[d.rD] == ReadBack(s, n, s.gpr[c.rB])
  {
    SprReadBack(s, c, n, n, o);
    MfsprStep(Step(s, o).value, d, n, o');
  }

  /** Writing one special-purpose register changes no other. */
  lemma SprIndependent(s: State, n: u32, m: u32, v: u32)
    requires n != m
    ensures GetSpr(SetSpr(s, n, v), m) == GetSpr(s, m)
  {
    if m == SPR_SR {
      assert SetSpr(s, n, v).sr == s.sr;
    } else if m == SPR_ESR {
      assert SetSpr(s, n, v).esr == s.esr;
    } else {
      OthersIndependent(s, n, m, v);
    }
  }

  lemma OthersIndependent(s: State, n: u32, m: u32, v: u32)
    requires n != m && m != SPR_SR && m != SPR_ESR
    ensures GetSpr(SetSpr(s, n, v), m) == GetSpr(s, m)
  {
  }

  /** SR keeps its implemented bits, and bit 15 reads as one. */
  lemma SrReadBack(s: State, v: u32)
    ensures WordToSr(GetSpr(SetSpr(s, SPR_SR, v), SPR_SR)) == WritableSr(WordToSr(v))
  {
    SrRoundTrip(WritableSr(WordToSr(v)));
  }

  /** The same as a mask on the word: bits 0 to 14, 16 and 28 to 31 are kept, bit 15 is set. */
  lemma WritableBits(v: u32)
    ensures SrToWord(WritableSr(WordToSr(v)))
         == v % 0x8000 + 0x8000 + v / 0x1_0000 % 2 * 0x1_0000 + v / 0x1000_0000 * 0x1000_0000
  {
    WordRoundTrip(v);
    var a, b := WritableWord(WordToSr(v));
    MaskedWord(v, a, b, WordToSr(v).fo, WordToSr(v).high);
  }

  lemma WritableWord(sr: Sr) returns (a: nat, b: nat)
    ensures a < 256 && b < 128
    ensures SrToWord(sr) == a + 256 * (b + 128 * Bit(sr.fo)) + 65536 * sr.high
    ensures SrToWord(WritableSr(sr)) == a + 256 * (b + 128) + 65536 * (sr.high % 2 + sr.high / 4096 * 4096)
  {
    var lower := HighFlags(sr)[..7];
    a, b := FlagsByte(LowFlags(sr)), FromBits(lower);
    WritableFlags(sr);
    LastFlag(lower, sr.fo);
    LastFlag(lower, true);
    FlagWord(sr);
    FlagWord(WritableSr(sr));
  }

  lemma WritableFlags(sr: Sr)
    ensures LowFlags(WritableSr(sr)) == LowFlags(sr)
    ensures HighFlags(WritableSr(sr)) == HighFlags(sr)[..7] + [true]
    ensures HighFlags(sr) == HighFlags(sr)[..7] + [sr.fo]
  {
  }

  lemma FlagWord(s: Sr)
    ensures SrToWord(s) == FromBits(LowFlags(s)) + 256 * FromBits(HighFlags(s)) + 65536 * s.high
  {
  }

  lemma FromBitsNext(bits: seq<bool>, i: nat)
    requires i < |bits|
    ensures FromBits(bits[i..]) == Bit(bits[i]) + 2 * FromBits(bits[i + 1..])
  {
    assert bits[i..][1..] == bits[i + 1..];
  }

  lemma FourBits(b: seq<bool>, i: nat)
    requires i + 4 <= |b|
    ensures FromBits(b[i..])
         == Bit(b[i]) + 2 * Bit(b[i + 1]) + 4 * Bit(b[i + 2]) + 8 * Bit(b[i + 3]) + 16 * FromBits(b[i + 4..])
  {
    FromBitsNext(b, i);
    FromBitsNext(b, i + 1);
    FromBitsNext(b, i + 2);
    FromBitsNext(b, i + 3);
  }

  lemma EightBits(b: seq<bool>)
    requires |b| == 8
    ensures FromBits(b) == FlagNumber(b[0], b[1], b[2], b[3], b[4], b[5], b[6], b[7])
  {
    FourBits(b, 0);
    FourBits(b, 4);
    assert b[0..] == b && b[8..] == [];
  }

  /** The number of eight flags. */
  function FlagNumber(b0: bool, b1: bool, b2: bool, b3: bool, b4: bool, b5: bool, b6: bool, b7: bool): nat {
    Bit(b0) + 0x2 * Bit(b1) + 0x4 * Bit(b2) + 0x8 * Bit(b3)
    + 0x10 * Bit(b4) + 0x20 * Bit(b5) + 0x40 * Bit(b6) + 0x80 * Bit(b7)
  }

  /** The place of each flag in the word. */
  lemma FlagPlaces(s: Sr)
    ensures SrToWord(s)
         == FlagNumber(s.sm, s.tee, s.iee, s.dce, s.ice, s.dme, s.ime, s.lee)
          + 0x100 * FlagNumber(s.ce, s.f, s.cy, s.ov, s.ove, s.dsx, s.eph, s.fo)
          + 0x1_0000 * s.high
  {
    FlagWord(s);
    LowPlaces(s);
    HighPlaces(s);
  }

  lemma LowPlaces(s: Sr)
    ensures FromBits(LowFlags(s)) == FlagNumber(s.sm, s.tee, s.iee, s.dce, s.ice, s.dme, s.ime, s.lee)
  {
    EightFlags(LowFlags(s), s.sm, s.tee, s.iee, s.dce, s.ice, s.dme, s.ime, s.lee);
  }

  lemma HighPlaces(s: Sr)
    ensures FromBits(HighFlags(s)) == FlagNumber(s.ce, s.f, s.cy, s.ov, s.ove, s.dsx, s.eph, s.fo)
  {
    EightFlags(HighFlags(s), s.ce, s.f, s.cy, s.ov, s.ove, s.dsx, s.eph, s.fo);
  }

  lemma EightFlags(b: seq<bool>, b0: bool, b1: bool, b2: bool, b3: bool, b4: bool, b5: bool, b6: bool, b7: bool)
    requires b == [b0, b1, b2, b3, b4, b5, b6, b7]
    ensures FromBits(b) == FlagNumber(b0, b1, b2, b3, b4, b5, b6, b7)
  {
    ElementsOf(b, b0, b1, b2, b3, b4, b5, b6, b7);
    EightBits(b);
  }

  lemma ElementsOf(b: seq<bool>, b0: bool, b1: bool, b2: bool, b3: bool, b4: bool, b5: bool, b6: bool, b7: bool)
    requires b == [b0, b1, b2, b3, b4, b5, b6, b7]
    ensures b[0] == b0 && b[1] == b1 && b[2] == b2 && b[3] == b3 && b[4] == b4 && b[5] == b5 && b[6] == b6 && b[7] == b7
  {
  }

  lemma LastFlag(bits: seq<bool>, x: bool)
    requires |bits| == 7
    ensures FromBits(bits + [x]) == FromBits(bits) + 128 * Bit(x)
    ensures FromBits(bits) < 128
  {
    assert Pow2(7) == 128;
    FromBitsLast(bits, x);
  }

  lemma {:induction false} FromBitsLast(bits: seq<bool>, x: bool)
    ensures FromBits(bits + [x]) == FromBits(bits) + if x then Pow2(|bits|) else 0
  {
    if |bits| == 0 {
      assert bits + [x] == [x];
    } else {
      assert (bits + [x])[1..] == bits[1..] + [x];
      FromBitsLast(bits[1..], x);
    }
  }

  lemma MaskedWord(v: u32, a: nat, b: nat, fo: bool, high: u16)
    requires a < 256 && b < 128 && v == a + 256 * (b + 128 * Bit(fo)) + 65536 * high
    ensures a + 256 * (b + 128) + 65536 * (high % 2 + high / 4096 * 4096)
         == v % 0x8000 + 0x8000 + v / 0x1_0000 % 2 * 0x1_0000 + v / 0x1000_0000 * 0x1000_0000
  {
    DivModUnique(v, 0x8000, Bit(fo) + 2 * high, a + 256 * b);
    DivModUnique(v, 0x1_0000, high, a + 256 * (b + 128 * Bit(fo)));
    DivModUnique(v, 0x1000_0000, high / 4096, high % 4096 * 65536 + a + 256 * (b + 128 * Bit(fo)));
  }

  // ------------------------------------------------------------------ translation

  type Page = n: nat | n < 0x8_0000
  type Offset = n: nat | n < 8192

  /** The TLB maps `page` to `frame`: a valid match register in the set of the page. */
  ghost predicate Maps(spr: map<u32, u32>, matchBase: u32, translateBase: u32, page: Page, frame: Page)
    requires matchBase < 0x1_0000 && translateBase < 0x1_0000
  {
    var m, t := Lookup(spr, matchBase + page % 64), Lookup(spr, translateBase + page % 64);
    m % 2 == 1 && m / 8192 == page && t / 8192 == frame
  }

  /** An address translates to the frame that its page is mapped to, or misses. */
  lemma TlbMeaning(spr: map<u32, u32>, matchBase: u32, translateBase: u32, page: Page, offset: Offset)
    requires matchBase < 0x1_0000 && translateBase < 0x1_0000
    ensures var pa := TlbLookup(spr, matchBase, translateBase, page * 8192 + offset);
            && (forall frame: Page :: Maps(spr, matchBase, translateBase, page, frame) ==> pa == frame * 8192 + offset)
            && ((forall frame: Page :: !Maps(spr, matchBase, translateBase, page, frame)) ==> pa == 1)
  {
    DivModUnique(page * 8192 + offset, 8192, page, offset);
    var t := Lookup(spr, translateBase + page % 64);
    assert t / 8192 < 0x8_0000;
    if forall frame: Page :: !Maps(spr, matchBase, translateBase, page, frame) {
      assert !Maps(spr, matchBase, translateBase, page, t / 8192);
    }
  }
}
