/** Instruction words read as numbers: the terms in which `ControlTransfer`, `ExceptionEntry`,
    `Operations` and `ByteMemory` say what an instruction word does to the state. */
module Fields {
  import opened Common
  import opened Words
  import opened Isa
  import opened Access
  import opened Runs
  import opened Encoding

  function Op(w: u32): nat {
    w / 0x400_0000
  }

  function D(w: u32): Reg {
    w / 0x20_0000 % 32
  }

  function A(w: u32): Reg {
    w / 0x1_0000 % 32
  }

  function B(w: u32): Reg {
    w / 0x800 % 32
  }

  function Imm(w: u32): u16 {
    w % 0x1_0000
  }

  /** The immediate of stores and l.mtspr. */
  function SplitImm(w: u32): u16 {
    w / 0x20_0000 % 32 * 0x800 + w % 0x800
  }

  /** The operation of a register-register instruction: four low bits, two high ones and, for shifts and
      extensions, two in between. */
  function AluCode(w: u32): nat {
    w / 0x100 % 4 * 0x100 + (if w % 16 == 0x8 || w % 16 == 0xc then w / 0x40 % 4 * 0x40 else 0) + w % 16
  }

  /** A number of `2 * half` values read as a two's complement number. */
  function Signed(n: nat, half: nat): int {
    if n >= half then n - 2 * half else n
  }

  /** `s` is about to execute `w`. */
  predicate At(s: State, w: u32) {
    Instruction(s) == Some(w) && s.branchPc == 0xffff_ffff
  }

  /** The state behind an instruction that does not branch. */
  function Next(s: State): State {
    s.(pc := s.npc, npc := (s.npc + 4) % 0x1_0000_0000)
  }

  /** The registers after a write, which r0 ignores. */
  function Written(g: RegFile, d: Reg, v: u32): RegFile {
    g[d := if d == 0 then 0 else v]
  }

  /** All fields of a control word are those of its instruction word. */
  predicate Matches(c: Control, w: u32) {
    && c.inst == w && c.opcode == Op(w) && c.rD == D(w) && c.rA == A(w) && c.rB == B(w)
    && c.n == w % 0x400_0000 && c.aluOp == AluCode(w) && c.sfOp == D(w) && c.roShiftOp == w / 0x40 % 4
    && c.l == w % 32
    && c.i == (if 0x35 <= Op(w) <= 0x37 then SplitImm(w) else Imm(w))
    && c.k == (if Op(w) == 0x30 then SplitImm(w) else Imm(w))
  }

  lemma DecodeMatches(w: u32)
    ensures Matches(Decode(w), w)
  {
    AluField(w);
  }

  lemma AluField(w: u32)
    ensures Decode(w).aluOp == AluCode(w)
  {
    WordDigits(w);
    var alu := AluDigits(w / 0x400, w / 0x100 % 4, w / 0x40 % 4, w / 0x10 % 4, w % 16, w);
  }

  lemma WordDigits(w: nat)
    ensures w == w / 0x400 * 0x400 + w / 0x100 % 4 * 0x100 + w / 0x40 % 4 * 0x40 + w / 0x10 % 4 * 0x10 + w % 16
  {
    var x, y, z := w / 0x10, w / 0x40, w / 0x100;
    DivModUnique(w, 0x40, x / 4, x % 4 * 16 + w % 16);
    DivModUnique(w, 0x100, y / 4, y % 4 * 0x40 + w % 0x40);
    DivModUnique(w, 0x400, z / 4, z % 4 * 0x100 + w % 0x100);
  }

  lemma AluDigits(r: nat, h: nat, m: nat, t: nat, l: nat, w: nat) returns (alu: nat)
    requires h < 4 && m < 4 && t < 4 && l < 16 && w == r * 0x400 + h * 0x100 + m * 0x40 + t * 0x10 + l
    ensures alu == w % 1024 == h * 0x100 + m * 0x40 + t * 0x10 + l
    ensures alu / 16 % 4 == t && alu / 16 % 16 == m * 4 + t
  {
    alu := w % 1024;
    DivModUnique(w, 1024, r, h * 0x100 + m * 0x40 + t * 0x10 + l);
    DivModUnique(alu, 16, h * 16 + m * 4 + t, l);
    DivModUnique(h * 16 + m * 4 + t, 4, h * 4 + m, t);
    DivModUnique(h * 16 + m * 4 + t, 16, h, m * 4 + t);
  }

  /** The control word of the instruction at `s`. */
  lemma Decoded(s: State, w: u32) returns (c: Control)
    requires At(s, w)
    ensures Fetched(s) == Some(c) && Matches(c, w)
  {
    c := Decode(w);
    DecodeMatches(w);
  }

  /** The instruction word at a physical address, unless it is the simulator's sentinel. */
  function WordAt(s: State, pa: u32): Option<u32> {
    if pa !in s.mem then Some(0) else if s.mem[pa] == 0xdead_beef then None else Some(s.mem[pa])
  }

  /** What the fetch delivers from the physical address of pc. */
  lemma FetchMeaning(s: State)
    ensures Instruction(s) == if TranslateI(s, s.pc) > 2 then WordAt(s, TranslateI(s, s.pc)) else None
  {
  }

  /** Where an instruction is fetched: in the frame that the TLB maps its page to; 1 stands for a miss. */
  lemma InstructionTranslation(s: State, va: u32, frame: Page)
    ensures !s.sr.ime ==> TranslateI(s, va) == va
    ensures s.sr.ime && Maps(s.spr, 0x1200, 0x1280, va / 8192, frame) ==> TranslateI(s, va) == frame * 8192 + va % 8192
    ensures s.sr.ime && (forall f: Page :: !Maps(s.spr, 0x1200, 0x1280, va / 8192, f)) ==> TranslateI(s, va) == 1
  {
    TlbMeaning(s.spr, 0x1200, 0x1280, va / 8192, va % 8192);
  }

  /** The same for data. */
  lemma DataTranslation(s: State, va: u32, frame: Page)
    ensures !s.sr.dme ==> TranslateD(s, va) == va
    ensures s.sr.dme && Maps(s.spr, 0xa00, 0xa80, va / 8192, frame) ==> TranslateD(s, va) == frame * 8192 + va % 8192
    ensures s.sr.dme && (forall f: Page :: !Maps(s.spr, 0xa00, 0xa80, va / 8192, f)) ==> TranslateD(s, va) == 1
  {
    TlbMeaning(s.spr, 0xa00, 0xa80, va / 8192, va % 8192);
  }

  // ------------------------------------------------------------------ loads and stores

  predicate IsLoadWord(w: u32) {
    0x21 <= Op(w) <= 0x26
  }

  predicate IsStoreWord(w: u32) {
    0x35 <= Op(w) <= 0x37
  }

  /** The address that a load or store accesses: rA plus the signed displacement. */
  function Address(s: State, w: u32): u32 {
    (s.gpr[A(w)] + Signed(if IsStoreWord(w) then SplitImm(w) else Imm(w), 0x8000)) % 0x1_0000_0000
  }

  /** l.lbz, l.lbs and l.sb access one byte, l.lhz, l.lhs and l.sh two, l.lwz, l.lws and l.sw four. */
  function Width(w: u32): (n: nat)
    ensures n > 0
  {
    if Op(w) == 0x23 || Op(w) == 0x24 || Op(w) == 0x36 then 1
    else if Op(w) == 0x25 || Op(w) == 0x26 || Op(w) == 0x37 then 2
    else 4
  }

  lemma AddressMeaning(s: State, c: Control, w: u32)
    requires Matches(c, w)
    ensures EffectiveAddress(s, c) == Address(s, w)
  {
    ImmediateWord(c.i);
    AddModulo(s.gpr[c.rA], Signed(c.i, 0x8000));
  }

  /** The fault of a load or store: a misaligned address goes to 0x600, else a translation that misses to
      0x900.  Words and halves are translated as whole words. */
  function AccessFault(s: State, w: u32): Option<Fault> {
    var ea, n := Address(s, w), Width(w);
    var va := if n == 1 then ea else ea - ea % 4;
    if ea % n != 0 then Some(Fault(0x600, ea))
    else if TranslateD(s, va) == 1 then Some(Fault(0x900, va))
    else None
  }

  lemma FaultMeaning(s: State, c: Control, w: u32)
    requires Matches(c, w) && (IsLoadWord(w) || IsStoreWord(w))
    ensures IsAccessOp(c.opcode) && FaultOf(s, c) == AccessFault(s, w) && Size(c.opcode) == Width(w)
  {
    AddressMeaning(s, c, w);
  }

  lemma ImmediateWord(imm: u16)
    ensures Exts(imm) == ToWord(Signed(imm, 0x8000))
  {
    ImmediateMeaning(imm);
    WordOfInt(Exts(imm));
  }

  lemma WordOfInt(x: u32)
    ensures ToWord(ToInt(x)) == x
  {
  }
}
