/** Sub-word accesses, done by reading, changing and writing back whole words, behave as accesses to
    a big-endian memory of bytes. */
module ByteMemory {
  import opened Common
  import opened Words
  import opened Isa
  import opened SubWords
  import opened Access
  import opened Runs
  import opened Fields

  /** Below this physical address bytes are reached through word memory. */
  const BYTE_BUS: u32 := 0x800_0000

  // ------------------------------------------------------------------ memory of bytes

  function ByteAt(bytes: map<u32, byte>, pa: int): byte {
    if 0 <= pa < WORD && pa in bytes then bytes[pa] else 0
  }

  /** The big-endian number in the `n` bytes from `pa` on. */
  function ReadBytes(bytes: map<u32, byte>, pa: nat, n: nat): nat {
    if n == 0 then 0 else ReadBytes(bytes, pa, n - 1) * 256 + ByteAt(bytes, pa + n - 1)
  }

  /** The low `n` bytes of `v` stored from `pa` on, the most significant one first. */
  function WriteBytes(bytes: map<u32, byte>, pa: nat, n: nat, v: nat): map<u32, byte>
    requires pa + n <= WORD
  {
    if n == 0 then bytes else WriteBytes(bytes, pa, n - 1, v / 256)[pa + n - 1 := v % 256]
  }

  /** Byte `i` of a number, counted from the least significant one. */
  function Digit(v: nat, i: nat): byte {
    if i == 0 then v % 256 else Digit(v / 256, i - 1)
  }

  lemma {:induction false} WrittenByte(bytes: map<u32, byte>, pa: nat, n: nat, v: nat, q: nat)
    requires pa + n <= WORD
    ensures ByteAt(WriteBytes(bytes, pa, n, v), q)
         == if pa <= q < pa + n then Digit(v, pa + n - 1 - q) else ByteAt(bytes, q)
  {
    if n > 0 {
      WrittenByte(bytes, pa, n - 1, v / 256, q);
    }
  }

  // ------------------------------------------------------------------ bytes of a word memory

  /** Word memory and byte memory hold the same bytes in the range of addresses that is modelled. */
  ghost predicate Agrees(mem: map<u32, u32>, bytes: map<u32, byte>) {
    forall q: u32 :: 4 <= q < BYTE_BUS ==> ByteAt(bytes, q) == GetByte(Lookup(mem, WordAddress(q)), q % 4)
  }

  /** `w'` is `w` with `n` bytes from lane `lane` on replaced by the low bytes of `v`. */
  ghost predicate Replaced(w: u32, w': u32, lane: nat, n: nat, v: nat) {
    forall k: nat :: k < 4 ==> GetByte(w', k) == if lane <= k < lane + n then Digit(v, lane + n - 1 - k) else GetByte(w, k)
  }

  /** The number in `n` lanes of a word. */
  function Lanes(w: u32, lane: nat, n: nat): nat {
    if n == 0 then 0 else Lanes(w, lane, n - 1) * 256 + GetByte(w, lane + n - 1)
  }

  lemma StoreAgrees(mem: map<u32, u32>, bytes: map<u32, byte>, pa: u32, n: nat, v: nat, w: u32)
    requires Agrees(mem, bytes) && pa % 4 + n <= 4 && pa + n <= WORD
    requires Replaced(Lookup(mem, WordAddress(pa)), w, pa % 4, n, v)
    ensures Agrees(mem[WordAddress(pa) := w], WriteBytes(bytes, pa, n, v))
  {
    var mem' := mem[WordAddress(pa) := w];
    forall q: u32 | 4 <= q < BYTE_BUS
      ensures ByteAt(WriteBytes(bytes, pa, n, v), q) == GetByte(Lookup(mem', WordAddress(q)), q % 4)
    {
      WrittenByte(bytes, pa, n, v, q);
      SameWord(pa, q, n);
    }
  }

  lemma SameWord(pa: u32, q: u32, n: nat)
    requires pa % 4 + n <= 4
    ensures pa <= q < pa + n ==> WordAddress(q) == WordAddress(pa)
    ensures WordAddress(q) == WordAddress(pa) ==> q - pa == q % 4 - pa % 4
  {
  }

  lemma {:induction false} LoadAgrees(mem: map<u32, u32>, bytes: map<u32, byte>, pa: u32, n: nat)
    requires Agrees(mem, bytes) && pa % 4 + n <= 4 && 4 <= pa < BYTE_BUS
    ensures ReadBytes(bytes, pa, n) == Lanes(Lookup(mem, WordAddress(pa)), pa % 4, n)
  {
    if n > 0 {
      LoadAgrees(mem, bytes, pa, n - 1);
      SameByte(pa, n - 1);
      assert ByteAt(bytes, pa + n - 1) == GetByte(Lookup(mem, WordAddress(pa + n - 1)), (pa + n - 1) % 4);
    }
  }

  lemma SameByte(pa: u32, k: nat)
    requires pa % 4 + k < 4 && pa < BYTE_BUS
    ensures WordAddress(pa + k) == WordAddress(pa) && (pa + k) % 4 == pa % 4 + k && pa + k < BYTE_BUS
  {
  }

  // ------------------------------------------------------------------ lanes of a word

  lemma ByteReplaced(w: u32, lane: nat, v: u32)
    requires lane < 4
    ensures Replaced(w, PutByte(w, lane, v % 256), lane, 1, v)
  {
    WordOfBytes(w);
    var b: byte := v % 256;
    var b0, b1, b2, b3 := GetByte(w, 0), GetByte(w, 1), GetByte(w, 2), GetByte(w, 3);
    PutIntoWord(b0, b1, b2, b3, lane, b);
    BytesOfWord(if lane == 0 then b else b0, if lane == 1 then b else b1,
                if lane == 2 then b else b2, if lane == 3 then b else b3);
  }

  lemma NextDigit(h: nat, l: byte, i: nat)
    ensures Digit(h * 256 + l, 0) == l && Digit(h * 256 + l, i + 1) == Digit(h, i)
  {
    TwoBytes(h, l);
  }

  lemma Digits(v: u32)
    ensures Digit(v, 0) == GetByte(v, 3) && Digit(v, 1) == GetByte(v, 2)
    ensures Digit(v, 2) == GetByte(v, 1) && Digit(v, 3) == GetByte(v, 0)
  {
    WordOfBytes(v);
    var b0: byte, b1: byte, b2: byte, b3: byte := GetByte(v, 0), GetByte(v, 1), GetByte(v, 2), GetByte(v, 3);
    var x := (b0 * 256 + b1) * 256 + b2;
    assert v == x * 256 + b3;
    DigitsOf(b0, b1, b2, b3, x);
  }

  lemma DigitsOf(b0: byte, b1: byte, b2: byte, b3: byte, x: nat)
    requires x == (b0 * 256 + b1) * 256 + b2
    ensures Digit(x * 256 + b3, 0) == b3 && Digit(x * 256 + b3, 1) == b2
    ensures Digit(x * 256 + b3, 2) == b1 && Digit(x * 256 + b3, 3) == b0
  {
    NextDigit(x, b3, 0);
    NextDigit(x, b3, 1);
    NextDigit(x, b3, 2);
    NextDigit(b0 * 256 + b1, b2, 0);
    NextDigit(b0 * 256 + b1, b2, 1);
    NextDigit(b0, b1, 0);
  }

  lemma HalfReplaced(w: u32, ea: u32, v: u32)
    requires ea % 2 == 0
    ensures Replaced(w, PutHalf(w, ea, v), ea % 4, 2, v)
  {
    var b0, b1, b2, b3 := GetByte(w, 0), GetByte(w, 1), GetByte(w, 2), GetByte(w, 3);
    var hi, lo := GetByte(v, 2), GetByte(v, 3);
    Digits(v);
    PutHalfIntoWord(w, ea, v);
    WordOfBytes(w);
    WordOfBytes(v);
    if ea % 4 == 0 {
      BytesOfWord(hi, lo, b2, b3);
      UpperHalf(w, PutHalf(w, ea, v), v);
    } else {
      BytesOfWord(b0, b1, hi, lo);
      LowerHalf(w, PutHalf(w, ea, v), v);
    }
  }

  lemma UpperHalf(w: u32, w': u32, v: nat)
    requires GetByte(w', 0) == Digit(v, 1) && GetByte(w', 1) == Digit(v, 0)
    requires GetByte(w', 2) == GetByte(w, 2) && GetByte(w', 3) == GetByte(w, 3)
    ensures Replaced(w, w', 0, 2, v)
  {
  }

  lemma LowerHalf(w: u32, w': u32, v: nat)
    requires GetByte(w', 0) == GetByte(w, 0) && GetByte(w', 1) == GetByte(w, 1)
    requires GetByte(w', 2) == Digit(v, 1) && GetByte(w', 3) == Digit(v, 0)
    ensures Replaced(w, w', 2, 2, v)
  {
  }

  lemma WordReplaced(w: u32, v: u32)
    ensures Replaced(w, v, 0, 4, v)
  {
    Digits(v);
  }

  lemma HalfLanes(w: u32, ea: u32)
    requires ea % 2 == 0
    ensures Lanes(w, ea % 4, 2) == GetHalf(w, ea)
  {
    Quarters(w);
    var h, l := w / 0x1_0000, w % 0x1_0000;
    assert h == h / 256 * 256 + h % 256 && l == l / 256 * 256 + l % 256;
    assert Lanes(w, ea % 4, 1) == GetByte(w, ea % 4);
    assert ea % 4 == if ea / 2 % 2 == 0 then 0 else 2;
  }

  lemma WordLanes(w: u32)
    ensures Lanes(w, 0, 4) == w
  {
    WordOfBytes(w);
    assert Lanes(w, 0, 1) == GetByte(w, 0);
    assert Lanes(w, 0, 2) == GetByte(w, 0) * 256 + GetByte(w, 1);
    assert Lanes(w, 0, 3) == Lanes(w, 0, 2) * 256 + GetByte(w, 2);
  }

  // ------------------------------------------------------------------ single accesses

  /** The register value of `n` loaded bytes: a two's complement number if the load is signed. */
  function Extended(v: nat, n: nat, signed: bool): u32 {
    ToWord(if signed && n == 1 && v >= 0x80 then v - 0x100
           else if signed && n == 2 && v >= 0x8000 then v - 0x1_0000
           else v)
  }

  lemma ExtendByte(b: byte)
    ensures SignExtend(b, 7) == Extended(b, 1, true)
  {
    assert Pow2(7) == 128 && Pow2(8) == 256;
    ShrSmall(b, 8);
  }

  lemma ByteExtracted(w: u32, ea: u32, pa: u32, signed: bool)
    requires ea % 4 == pa % 4
    ensures ByteExtract(ea, signed)(w) == Extended(Lanes(w, pa % 4, 1), 1, signed)
  {
    var b := GetByte(w, pa % 4);
    Quarters(w);
    assert Lanes(w, pa % 4, 1) == b;
    ExtendByte(b);
  }

  lemma HalfExtracted(w: u32, ea: u32, pa: u32, signed: bool)
    requires ea % 4 == pa % 4 && ea % 2 == 0
    ensures HalfExtract(ea, signed)(w) == Extended(Lanes(w, pa % 4, 2), 2, signed)
  {
    HalfLanes(w, ea);
    ExtendHalf(GetHalf(w, ea), signed);
  }

  lemma ExtendHalf(h: u16, signed: bool)
    ensures Extended(h, 2, signed) == if signed && h >= 0x8000 then h + 0xffff_0000 else h
  {
  }

  lemma WordExtracted(w: u32, pa: u32)
    requires pa % 4 == 0
    ensures w == Extended(Lanes(w, pa % 4, 4), 4, false)
  {
    WordLanes(w);
  }

  lemma WordLoaded(s: State, ea: u32)
    requires TranslateD(s, ea) >= 4
    ensures ea % 4 == TranslateD(s, ea) % 4
    ensures WordAddress(TranslateD(s, ea)) > 2
    ensures TranslateD(s, WordAddress(ea)) == WordAddress(TranslateD(s, ea))
    ensures LoadD(s, WordAddress(ea)) == Value(Lookup(s.mem, WordAddress(TranslateD(s, ea))))
  {
    WordTranslation(s, ea);
    AtLeastFour(TranslateD(s, ea));
  }

  lemma AtLeastFour(pa: u32)
    requires pa >= 4
    ensures WordAddress(pa) >= 4
  {
  }

  /** The data address `ea` reaches a physical address in the modelled range. */
  predicate InRange(s: State, ea: u32) {
    4 <= TranslateD(s, ea) < BYTE_BUS
  }

  /** What a load of `n` bytes from `ea` does: rD gets the bytes at the physical address. */
  ghost predicate LoadsBytes(s: State, bytes: map<u32, byte>, ea: u32, rD: Reg, n: nat, signed: bool, t: State) {
    t == SetGpr(s, rD, Extended(ReadBytes(bytes, TranslateD(s, ea), n), n, signed))
  }

  /** What a store of `n` bytes of `v` to `ea` does. */
  ghost predicate StoresBytes(s: State, bytes: map<u32, byte>, ea: u32, v: u32, n: nat, t: State) {
    var pa := TranslateD(s, ea);
    pa + n <= WORD && t == s.(mem := t.mem) && Agrees(t.mem, WriteBytes(bytes, pa, n, v))
  }

  lemma LoadByteRefines(s: State, bytes: map<u32, byte>, c: Control, signed: bool, outside: u32)
    requires Agrees(s.mem, bytes) && InRange(s, EffectiveAddress(s, c))
    ensures LoadsBytes(s, bytes, EffectiveAddress(s, c), c.rD, 1, signed, LoadByte(s, c, signed, outside))
  {
    var ea := EffectiveAddress(s, c);
    var pa := TranslateD(s, ea);
    WordLoaded(s, ea);
    LoadAgrees(s.mem, bytes, pa, 1);
    ByteExtracted(Lookup(s.mem, WordAddress(pa)), ea, pa, signed);
  }

  lemma LoadHalfRefines(s: State, bytes: map<u32, byte>, c: Control, signed: bool, outside: u32)
    requires Agrees(s.mem, bytes) && InRange(s, EffectiveAddress(s, c)) && EffectiveAddress(s, c) % 2 == 0
    ensures LoadsBytes(s, bytes, EffectiveAddress(s, c), c.rD, 2, signed, LoadHalf(s, c, signed, outside))
  {
    var ea := EffectiveAddress(s, c);
    var pa := TranslateD(s, ea);
    WordLoaded(s, ea);
    Even(ea, pa);
    LoadAgrees(s.mem, bytes, pa, 2);
    HalfExtracted(Lookup(s.mem, WordAddress(pa)), ea, pa, signed);
  }

  lemma Even(ea: u32, pa: u32)
    requires ea % 4 == pa % 4 && ea % 2 == 0
    ensures pa % 2 == 0 && pa % 4 + 2 <= 4
  {
  }

  lemma LoadWordRefines(s: State, bytes: map<u32, byte>, c: Control, outside: u32)
    requires Agrees(s.mem, bytes) && InRange(s, EffectiveAddress(s, c)) && EffectiveAddress(s, c) % 4 == 0
    ensures LoadsBytes(s, bytes, EffectiveAddress(s, c), c.rD, 4, false, LoadWord(s, c, outside))
  {
    var ea := EffectiveAddress(s, c);
    var pa := TranslateD(s, ea);
    WordLoaded(s, ea);
    LoadAgrees(s.mem, bytes, pa, 4);
    WordExtracted(Lookup(s.mem, WordAddress(pa)), pa);
  }

  lemma StoreByteRefines(s: State, bytes: map<u32, byte>, c: Control, outside: u32)
    requires Agrees(s.mem, bytes) && InRange(s, EffectiveAddress(s, c))
    ensures StoresBytes(s, bytes, EffectiveAddress(s, c), s.gpr[c.rB], 1, StoreByte(s, c, outside))
  {
    var ea, v := EffectiveAddress(s, c), s.gpr[c.rB];
    var pa := TranslateD(s, ea);
    var w := Lookup(s.mem, WordAddress(pa));
    WordLoaded(s, ea);
    ByteReplaced(w, pa % 4, v);
    StoreAgrees(s.mem, bytes, pa, 1, v, PutByte(w, pa % 4, v % 256));
  }

  lemma StoreHalfRefines(s: State, bytes: map<u32, byte>, c: Control, outside: u32)
    requires Agrees(s.mem, bytes) && InRange(s, EffectiveAddress(s, c)) && EffectiveAddress(s, c) % 2 == 0
    ensures StoresBytes(s, bytes, EffectiveAddress(s, c), s.gpr[c.rB], 2, StoreHalf(s, c, outside))
  {
    var ea, v := EffectiveAddress(s, c), s.gpr[c.rB];
    var pa := TranslateD(s, ea);
    var w := Lookup(s.mem, WordAddress(pa));
    WordLoaded(s, ea);
    Even(ea, pa);
    HalfReplaced(w, ea, v);
    StoreAgrees(s.mem, bytes, pa, 2, v, PutHalf(w, ea, v));
  }

  lemma StoreWordRefines(s: State, bytes: map<u32, byte>, c: Control)
    requires Agrees(s.mem, bytes) && InRange(s, EffectiveAddress(s, c)) && EffectiveAddress(s, c) % 4 == 0
    ensures StoresBytes(s, bytes, EffectiveAddress(s, c), s.gpr[c.rB], 4, StoreWord(s, c))
  {
    var ea, v := EffectiveAddress(s, c), s.gpr[c.rB];
    var pa := TranslateD(s, ea);
    WordLoaded(s, ea);
    WordReplaced(Lookup(s.mem, WordAddress(pa)), v);
    StoreAgrees(s.mem, bytes, pa, 4, v, v);
  }

  /** What the load `w` puts into rD, from the bytes at the physical address `pa`. */
  function LoadedValue(bytes: map<u32, byte>, pa: nat, w: u32): u32 {
    var half := ByteAt(bytes, pa) * 0x100 + ByteAt(bytes, pa + 1);
    if Op(w) == 0x23 then ByteAt(bytes, pa)
    else if Op(w) == 0x24 then Signed(ByteAt(bytes, pa), 0x80) % 0x1_0000_0000
    else if Op(w) == 0x25 then half
    else if Op(w) == 0x26 then Signed(half, 0x8000) % 0x1_0000_0000
    else half * 0x1_0000 + ByteAt(bytes, pa + 2) * 0x100 + ByteAt(bytes, pa + 3)
  }

  /** The bytes after the store `w` of `v` to the physical address `pa`. */
  function StoredBytes(bytes: map<u32, byte>, pa: nat, w: u32, v: u32): map<u32, byte>
    requires pa < BYTE_BUS
  {
    if Op(w) == 0x36 then bytes[pa := v % 0x100]
    else if Op(w) == 0x37 then bytes[pa := v / 0x100 % 0x100][pa + 1 := v % 0x100]
    else bytes[pa := v / 0x100_0000][pa + 1 := v / 0x1_0000 % 0x100][pa + 2 := v / 0x100 % 0x100][pa + 3 := v % 0x100]
  }

  predicate IsSignedWord(w: u32) {
    Op(w) == 0x24 || Op(w) == 0x26
  }

  lemma LoadedMeaning(bytes: map<u32, byte>, pa: nat, w: u32)
    requires IsLoadWord(w)
    ensures LoadedValue(bytes, pa, w) == Extended(ReadBytes(bytes, pa, Width(w)), Width(w), IsSignedWord(w))
  {
    BytesRead(bytes, pa);
  }

  lemma BytesRead(bytes: map<u32, byte>, pa: nat)
    ensures ReadBytes(bytes, pa, 1) == ByteAt(bytes, pa)
    ensures ReadBytes(bytes, pa, 2) == ByteAt(bytes, pa) * 0x100 + ByteAt(bytes, pa + 1)
    ensures ReadBytes(bytes, pa, 4) == (ByteAt(bytes, pa) * 0x100 + ByteAt(bytes, pa + 1)) * 0x1_0000
                                     + ByteAt(bytes, pa + 2) * 0x100 + ByteAt(bytes, pa + 3)
  {
    assert ReadBytes(bytes, pa, 1) == ByteAt(bytes, pa);
    assert ReadBytes(bytes, pa, 2) == ReadBytes(bytes, pa, 1) * 256 + ByteAt(bytes, pa + 1);
    assert ReadBytes(bytes, pa, 3) == ReadBytes(bytes, pa, 2) * 256 + ByteAt(bytes, pa + 2);
  }

  lemma StoredMeaning(bytes: map<u32, byte>, pa: nat, w: u32, v: u32)
    requires IsStoreWord(w) && pa < BYTE_BUS
    ensures StoredBytes(bytes, pa, w, v) == WriteBytes(bytes, pa, Width(w), v)
  {
    BytesOfNumber(v);
    assert forall x: nat :: WriteBytes(bytes, pa, 0, x) == bytes;
    if Width(w) == 2 {
      assert WriteBytes(bytes, pa, 1, v / 256) == bytes[pa := v / 256 % 256];
    } else if Width(w) == 4 {
      assert WriteBytes(bytes, pa, 1, v / 256 / 256 / 256) == bytes[pa := v / 256 / 256 / 256 % 256];
      assert WriteBytes(bytes, pa, 2, v / 256 / 256)
          == bytes[pa := v / 256 / 256 / 256 % 256][pa + 1 := v / 256 / 256 % 256];
    }
  }

  lemma BytesOfNumber(v: u32)
    ensures v / 256 / 256 == v / 0x1_0000 && v / 256 / 256 / 256 % 256 == v / 0x100_0000
  {
  }

  /** Every load and store that does not fault is the access to the byte memory. */
  lemma AccessRefines(s: State, bytes: map<u32, byte>, c: Control, w: u32, outside: u32)
    requires Agrees(s.mem, bytes) && Matches(c, w) && (IsLoadWord(w) || IsStoreWord(w))
    requires AccessFault(s, w).None? && InRange(s, Address(s, w))
    ensures var t := MemoryAccess(s, c, outside);
            if IsStoreWord(w) then StoresBytes(s, bytes, Address(s, w), s.gpr[B(w)], Width(w), t)
            else LoadsBytes(s, bytes, Address(s, w), D(w), Width(w), IsSignedWord(w), t)
  {
    AddressMeaning(s, c, w);
    if Width(w) == 1 && IsLoadWord(w) {
      LoadByteRefines(s, bytes, c, IsSignedWord(w), outside);
    } else if Width(w) == 2 && IsLoadWord(w) {
      LoadHalfRefines(s, bytes, c, IsSignedWord(w), outside);
    } else if Width(w) == 1 {
      StoreByteRefines(s, bytes, c, outside);
    } else if Width(w) == 2 {
      StoreHalfRefines(s, bytes, c, outside);
    } else if IsStoreWord(w) {
      StoreWordRefines(s, bytes, c);
    } else {
      LoadWordRefines(s, bytes, c, outside);
    }
  }

  lemma AccessResult(s: State, c: Control, outside: u32)
    requires Fetched(s) == Some(c) && IsAccessOp(c.opcode)
    ensures Step(s, outside) == Some(Advance(MemoryAccess(s, c, outside)))
  {
    StepExecutes(s, c, outside);
  }

  /** The instruction at `s` is a load or store that does not fault. */
  predicate Accesses(s: State, w: u32) {
    At(s, w) && (IsLoadWord(w) || IsStoreWord(w)) && AccessFault(s, w).None?
  }

  /** A load puts into rD what the bytes from its address on say: one, two or four of them, the most
      significant one first, extended with their sign by l.lbs (0x24) and l.lhs (0x26). */
  lemma LoadMeaning(s: State, bytes: map<u32, byte>, w: u32, outside: u32)
    requires Agrees(s.mem, bytes) && Accesses(s, w) && IsLoadWord(w) && InRange(s, Address(s, w))
    ensures Step(s, outside)
         == Some(Next(s).(gpr := Written(s.gpr, D(w), LoadedValue(bytes, TranslateD(s, Address(s, w)), w))))
  {
    var c := Decoded(s, w);
    AccessResult(s, c, outside);
    AccessRefines(s, bytes, c, w, outside);
    LoadedMeaning(bytes, TranslateD(s, Address(s, w)), w);
  }

  /** A store writes the low bytes of rB from its address on, the most significant one first, and changes
      nothing else. */
  lemma StoreMeaning(s: State, bytes: map<u32, byte>, w: u32, outside: u32)
    requires Agrees(s.mem, bytes) && Accesses(s, w) && IsStoreWord(w) && InRange(s, Address(s, w))
    ensures Step(s, outside).Some?
    ensures var t := Step(s, outside).value;
            && t == Next(s).(mem := t.mem)
            && Agrees(t.mem, StoredBytes(bytes, TranslateD(s, Address(s, w)), w, s.gpr[B(w)]))
  {
    var c := Decoded(s, w);
    AccessResult(s, c, outside);
    AccessRefines(s, bytes, c, w, outside);
    StoredMeaning(bytes, TranslateD(s, Address(s, w)), w, s.gpr[B(w)]);
  }

  /** Bytes from 0x08000000 on are outside the model: loaded from the bus and stored to it. */
  lemma ByteBus(s: State, w: u32, outside: u32)
    requires Accesses(s, w) && Width(w) == 1 && TranslateD(s, Address(s, w)) >= 0x800_0000
    ensures Step(s, outside) == Some(Next(s).(gpr := if IsLoadWord(w) then Written(s.gpr, D(w), outside) else s.gpr))
  {
    var c := Decoded(s, w);
    AccessResult(s, c, outside);
    AddressMeaning(s, c, w);
  }

  // ------------------------------------------------------------------ whole runs

  /** The byte memory after the instruction at `s`: stores elsewhere leave it alone. */
  function BytesAfter(s: State, bytes: map<u32, byte>): map<u32, byte> {
    match Instruction(s)
    case None => bytes
    case Some(w) =>
      if Accesses(s, w) && IsStoreWord(w) && InRange(s, Address(s, w))
      then StoredBytes(bytes, TranslateD(s, Address(s, w)), w, s.gpr[B(w)])
      else bytes
  }

  /** The byte memory after the first `k` instructions of a run. */
  function BytesAt(run: seq<State>, bytes: map<u32, byte>, k: nat): map<u32, byte>
    requires k <= |run|
  {
    if k == 0 then bytes else BytesAfter(run[k - 1], BytesAt(run, bytes, k - 1))
  }

  /** The words below the byte bus are the same. */
  ghost predicate LowWordsKept(mem: map<u32, u32>, mem': map<u32, u32>) {
    forall w: u32 :: w < BYTE_BUS ==> Lookup(mem', w) == Lookup(mem, w)
  }

  lemma KeptAgrees(mem: map<u32, u32>, mem': map<u32, u32>, bytes: map<u32, byte>)
    requires Agrees(mem, bytes) && LowWordsKept(mem, mem')
    ensures Agrees(mem', bytes)
  {
  }

  lemma OutOfRangeWord(s: State, ea: u32)
    requires TranslateD(s, ea) != 1 && !(4 <= TranslateD(s, ea) < BYTE_BUS)
    ensures TranslateD(s, WordAddress(ea)) == 0 || TranslateD(s, WordAddress(ea)) >= BYTE_BUS
  {
    WordTranslation(s, ea);
    RoundsOut(TranslateD(s, ea));
  }

  lemma RoundsOut(pa: u32)
    requires pa < 4 || pa >= BYTE_BUS
    ensures WordAddress(pa) == 0 || WordAddress(pa) >= BYTE_BUS
  {
  }

  lemma StoreKeepsLow(s: State, va: u32, v: u32)
    requires TranslateD(s, va) == 0 || TranslateD(s, va) >= BYTE_BUS
    ensures LowWordsKept(s.mem, StoreD(s, va, v).mem)
  {
  }

  lemma RewriteKeepsLow(s: State, va: u32, change: u32 -> u32, outside: u32)
    requires TranslateD(s, va) == 0 || TranslateD(s, va) >= BYTE_BUS
    ensures LowWordsKept(s.mem, ReadModifyWrite(s, va, change, outside).mem)
  {
    var l := LoadD(s, va);
    if l.Value? {
      StoreKeepsLow(s, va, change(l.v));
    } else if l.Unwritten? {
      StoreKeepsLow(s, va, change(outside));
    }
  }

  /** A translation of an even address is never 1. */
  lemma EvenIsNoMiss(s: State, ea: u32)
    requires ea % 2 == 0 && TranslateD(s, WordAddress(ea)) != 1
    ensures TranslateD(s, ea) != 1
  {
    if s.sr.dme {
      SamePage(ea);
    }
  }

  /** A store outside the range writes no word that holds bytes of the range: words below 4 are never
      written, and bytes at or above the byte bus are not in word memory. */
  lemma StoreOutOfRange(s: State, c: Control, outside: u32)
    requires IsStore(c.opcode) && FaultOf(s, c).None? && !InRange(s, EffectiveAddress(s, c))
    ensures LowWordsKept(s.mem, MemoryAccess(s, c, outside).mem)
  {
    var ea := EffectiveAddress(s, c);
    if c.opcode == OP_SB {
      OutOfRangeWord(s, ea);
      RewriteKeepsLow(s, WordAddress(ea), ByteChange(ea, s.gpr[c.rB]), outside);
    } else if c.opcode == OP_SH {
      EvenIsNoMiss(s, ea);
      OutOfRangeWord(s, ea);
      RewriteKeepsLow(s, WordAddress(ea), HalfChange(ea, s.gpr[c.rB]), outside);
    } else {
      OutOfRangeWord(s, ea);
      StoreKeepsLow(s, ea, s.gpr[c.rB]);
    }
  }

  lemma StoreElsewhere(s: State, bytes: map<u32, byte>, w: u32, outside: u32)
    requires Agrees(s.mem, bytes) && Accesses(s, w) && IsStoreWord(w) && !InRange(s, Address(s, w))
    ensures Step(s, outside).Some? && Agrees(Step(s, outside).value.mem, bytes)
  {
    var c := Decoded(s, w);
    AccessResult(s, c, outside);
    FaultMeaning(s, c, w);
    AddressMeaning(s, c, w);
    StoreOutOfRange(s, c, outside);
    KeptAgrees(s.mem, MemoryAccess(s, c, outside).mem, bytes);
  }

  /** No other instruction writes memory. */
  lemma MemoryKept(s: State, w: u32, outside: u32)
    requires Settled(s) && At(s, w) && Step(s, outside).Some? && !(Accesses(s, w) && IsStoreWord(w))
    ensures Step(s, outside).value.mem == s.mem
  {
    var c := Decoded(s, w);
    StepExecutes(s, c, outside);
    if IsAccessOp(c.opcode) {
      FaultMeaning(s, c, w);
      AccessShape(s, c, outside);
    } else {
      ExecuteReads(s, c, outside);
    }
  }

  lemma StepRefines(s: State, bytes: map<u32, byte>, outside: u32)
    requires Settled(s) && Agrees(s.mem, bytes) && Step(s, outside).Some?
    ensures Agrees(Step(s, outside).value.mem, BytesAfter(s, bytes))
  {
    match Instruction(s)
    case None =>
    case Some(w) =>
      if !(Accesses(s, w) && IsStoreWord(w)) {
        MemoryKept(s, w, outside);
      } else if InRange(s, Address(s, w)) {
        StoreMeaning(s, bytes, w, outside);
      } else {
        StoreElsewhere(s, bytes, w, outside);
      }
  }

  /** In every run, word memory holds at every point what a big-endian byte memory holds that is
      written by the same stores, wherever else the run loads and stores. */
  lemma {:induction false} MemoryRefines(run: seq<State>, outside: seq<u32>, bytes: map<u32, byte>, k: nat)
    requires IsRun(run, outside) && k < |run| && Settled(run[0]) && Agrees(run[0].mem, bytes)
    ensures Settled(run[k]) && Agrees(run[k].mem, BytesAt(run, bytes, k))
  {
    if k > 0 {
      MemoryRefines(run, outside, bytes, k - 1);
      assert Step(run[k - 1], outside[k - 1]) == Some(run[k - 1 + 1]);
      StepShape(run[k - 1], outside[k - 1]);
      StepRefines(run[k - 1], BytesAt(run, bytes, k - 1), outside[k - 1]);
    }
  }

  /** And every load of the run from the range returns what the byte memory holds then. */
  lemma LoadsRefine(run: seq<State>, outside: seq<u32>, bytes: map<u32, byte>, k: nat, w: u32)
    requires IsRun(run, outside) && k < |outside| && Settled(run[0]) && Agrees(run[0].mem, bytes)
    requires Accesses(run[k], w) && IsLoadWord(w) && InRange(run[k], Address(run[k], w))
    ensures var v := LoadedValue(BytesAt(run, bytes, k), TranslateD(run[k], Address(run[k], w)), w);
            run[k + 1] == Next(run[k]).(gpr := Written(run[k].gpr, D(w), v))
  {
    MemoryRefines(run, outside, bytes, k);
    assert Step(run[k], outside[k]) == Some(run[k + 1]);
    LoadMeaning(run[k], BytesAt(run, bytes, k), w, outside[k]);
  }

  /** Why the range starts at 4: word 0 cannot be written, and a byte access at address 1 is taken
      for a TLB miss. */
  lemma WordZeroIsSpecial(s: State, w: u32, v: u32)
    requires !s.sr.dme
    ensures StoreD(s, 0, v) == s && LoadD(s, 0) == Unwritten
    ensures Address(s, w) == 1 && Width(w) == 1 ==> AccessFault(s, w) == Some(Fault(0x900, 1))
  {
  }
}
