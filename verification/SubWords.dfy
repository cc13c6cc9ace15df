/** The bytes and half words of a word, as arithmetic and as the masks and shifts that take them out
    and put them in. */
module SubWords {
  import opened Common
  import opened Words
  import opened Isa

  /** A word from its bytes. */
  function Word(b0: byte, b1: byte, b2: byte, b3: byte): u32 {
    b0 * 0x100_0000 + b1 * 0x1_0000 + b2 * 0x100 + b3
  }

  lemma TwoBytes(h: nat, l: byte)
    ensures (h * 256 + l) / 256 == h && (h * 256 + l) % 256 == l
  {
  }

  /** The bytes of a word are the bytes of its half words. */
  lemma Quarters(w: u32)
    ensures GetByte(w, 0) == w / 0x1_0000 / 256 && GetByte(w, 1) == w / 0x1_0000 % 256
    ensures GetByte(w, 2) == w % 0x1_0000 / 256 && GetByte(w, 3) == w % 0x1_0000 % 256
    ensures GetByte(w, 0) < 256 && GetByte(w, 1) < 256 && GetByte(w, 2) < 256 && GetByte(w, 3) < 256
  {
    var h, l := w / 0x1_0000, w % 0x1_0000;
    DivModUnique(w, 0x100_0000, h / 256, h % 256 * 0x1_0000 + l);
    DivModUnique(w, 0x100, h * 256 + l / 256, l % 256);
    TwoBytes(h, l / 256);
  }

  lemma BytesOfWord(b0: byte, b1: byte, b2: byte, b3: byte)
    ensures var w := Word(b0, b1, b2, b3);
            GetByte(w, 0) == b0 && GetByte(w, 1) == b1 && GetByte(w, 2) == b2 && GetByte(w, 3) == b3
  {
    var w := Word(b0, b1, b2, b3);
    Quarters(w);
    DivModUnique(w, 0x1_0000, b0 * 256 + b1, b2 * 256 + b3);
    TwoBytes(b0, b1);
    TwoBytes(b2, b3);
  }

  lemma WordOfBytes(w: u32)
    ensures GetByte(w, 0) < 256 && GetByte(w, 1) < 256 && GetByte(w, 2) < 256 && GetByte(w, 3) < 256
    ensures w == Word(GetByte(w, 0), GetByte(w, 1), GetByte(w, 2), GetByte(w, 3))
  {
    Quarters(w);
  }

  lemma PutIntoWord(b0: byte, b1: byte, b2: byte, b3: byte, lane: nat, b: byte)
    requires lane < 4
    ensures PutByte(Word(b0, b1, b2, b3), lane, b)
         == Word(if lane == 0 then b else b0, if lane == 1 then b else b1,
                 if lane == 2 then b else b2, if lane == 3 then b else b3)
  {
    BytesOfWord(b0, b1, b2, b3);
  }

  lemma PutHalfIntoWord(w: u32, ea: u32, v: u32)
    requires ea % 2 == 0
    ensures GetByte(w, 0) < 256 && GetByte(w, 1) < 256 && GetByte(w, 2) < 256 && GetByte(w, 3) < 256
    ensures GetByte(v, 2) < 256 && GetByte(v, 3) < 256
    ensures PutHalf(w, ea, v)
         == if ea % 4 == 0 then Word(GetByte(v, 2), GetByte(v, 3), GetByte(w, 2), GetByte(w, 3))
            else Word(GetByte(w, 0), GetByte(w, 1), GetByte(v, 2), GetByte(v, 3))
  {
    Quarters(w);
    Quarters(v);
    assert ea / 2 % 2 == 0 <==> ea % 4 == 0;
  }

  // ------------------------------------------------------------------ bitwise operations by bytes

  lemma {:induction false} BitwiseSplit(f: (bool, bool) -> bool, a: nat, x: nat, b: nat, y: nat, m: nat, n: nat)
    requires a < Pow2(m) && b < Pow2(m)
    ensures Bitwise(f, a + Shl(x, m), b + Shl(y, m), m + n) == Bitwise(f, a, b, m) + Shl(Bitwise(f, x, y, n), m)
  {
    if m > 0 {
      assert (a + Shl(x, m)) / 2 == a / 2 + Shl(x, m - 1) && (b + Shl(y, m)) / 2 == b / 2 + Shl(y, m - 1);
      BitwiseSplit(f, a / 2, x, b / 2, y, m - 1, n);
    }
  }

  lemma ShlEight(x: nat)
    ensures Shl(x, 8) == 256 * x && Pow2(8) == 256
  {
    assert Shl(x, 1) == 2 * x;
    assert Shl(x, 2) == 4 * x;
    assert Shl(x, 4) == 16 * x;
    assert Shl(x, 6) == 64 * x;
  }

  function ByteWise(f: (bool, bool) -> bool, a: byte, b: byte): byte {
    ShlEight(0);
    Bitwise(f, a, b, 8)
  }

  /** The lowest byte and the rest; `m` is 8 more than `n`. */
  lemma LowestByte(f: (bool, bool) -> bool, a: byte, x: nat, b: byte, y: nat, n: nat, m: nat)
    requires m == 8 + n
    ensures Bitwise(f, a + 256 * x, b + 256 * y, m) == ByteWise(f, a, b) + 256 * Bitwise(f, x, y, n)
  {
    ShlEight(x);
    ShlEight(y);
    ShlEight(Bitwise(f, x, y, n));
    BitwiseSplit(f, a, x, b, y, 8, n);
  }

  /** `g` works on the lowest byte and the rest apart; the last argument is a number of bits. */
  ghost predicate SplitsAt(g: (nat, nat, nat) -> nat, a: byte, x: nat, b: byte, y: nat, n: nat) {
    g(a + 256 * x, b + 256 * y, 8 + n) == g(a, b, 8) + 256 * g(x, y, n)
  }

  ghost predicate Splits(g: (nat, nat, nat) -> nat) {
    forall a: byte, x: nat, b: byte, y: nat, n: nat :: SplitsAt(g, a, x, b, y, n)
  }

  lemma FourBytes(g: (nat, nat, nat) -> nat, a0: byte, a1: byte, a2: byte, a3: byte, b0: byte, b1: byte, b2: byte, b3: byte)
    requires Splits(g)
    ensures g(Word(a0, a1, a2, a3), Word(b0, b1, b2, b3), 32)
         == g(a3, b3, 8) + 256 * (g(a2, b2, 8) + 256 * (g(a1, b1, 8) + 256 * g(a0, b0, 8)))
  {
    var x1, y1 := a1 + 256 * a0, b1 + 256 * b0;
    var x2, y2 := a2 + 256 * x1, b2 + 256 * y1;
    assert SplitsAt(g, a1, a0, b1, b0, 8);
    assert SplitsAt(g, a2, x1, b2, y1, 16);
    assert SplitsAt(g, a3, x2, b3, y2, 24);
    assert Word(a0, a1, a2, a3) == a3 + 256 * x2 && Word(b0, b1, b2, b3) == b3 + 256 * y2;
  }

  function Operation(f: (bool, bool) -> bool): (nat, nat, nat) -> nat {
    (x, y, k) => Bitwise(f, x, y, k)
  }

  lemma OperationSplits(f: (bool, bool) -> bool)
    ensures Splits(Operation(f))
  {
    var g := Operation(f);
    forall a: byte, x: nat, b: byte, y: nat, n: nat ensures SplitsAt(g, a, x, b, y, n) {
      LowestByte(f, a, x, b, y, n, 8 + n);
    }
  }

  /** A bitwise operation on words is one on each of their bytes. */
  lemma BytesBitwise(f: (bool, bool) -> bool, a0: byte, a1: byte, a2: byte, a3: byte, b0: byte, b1: byte, b2: byte, b3: byte)
    ensures Bitwise(f, Word(a0, a1, a2, a3), Word(b0, b1, b2, b3), 32)
         == Word(ByteWise(f, a0, b0), ByteWise(f, a1, b1), ByteWise(f, a2, b2), ByteWise(f, a3, b3))
  {
    OperationSplits(f);
    FourBytes(Operation(f), a0, a1, a2, a3, b0, b1, b2, b3);
  }

  lemma {:induction false} OnesAndZeros(x: nat, k: nat)
    requires x < Pow2(k)
    ensures Bitwise(Both, x, Pow2(k) - 1, k) == x && Bitwise(Both, x, 0, k) == 0
    ensures Bitwise(Either, x, 0, k) == x && Bitwise(Either, 0, x, k) == x
  {
    if k > 0 {
      OnesAndZeros(x / 2, k - 1);
      assert (Pow2(k) - 1) / 2 == Pow2(k - 1) - 1 && (Pow2(k) - 1) % 2 == 1;
    }
  }

  lemma ByteOnesAndZeros(x: byte)
    ensures ByteWise(Both, x, 255) == x && ByteWise(Both, x, 0) == 0
    ensures ByteWise(Either, x, 0) == x && ByteWise(Either, 0, x) == x
  {
    ShlEight(0);
    OnesAndZeros(x, 8);
  }

  // ------------------------------------------------------------------ masks

  lemma AndBytes(a0: byte, a1: byte, a2: byte, a3: byte, b0: byte, b1: byte, b2: byte, b3: byte)
    ensures BitAnd(Word(a0, a1, a2, a3), Word(b0, b1, b2, b3))
         == Word(ByteWise(Both, a0, b0), ByteWise(Both, a1, b1), ByteWise(Both, a2, b2), ByteWise(Both, a3, b3))
  {
    BytesBitwise(Both, a0, a1, a2, a3, b0, b1, b2, b3);
  }

  lemma OrBytes(a0: byte, a1: byte, a2: byte, a3: byte, b0: byte, b1: byte, b2: byte, b3: byte)
    ensures BitOr(Word(a0, a1, a2, a3), Word(b0, b1, b2, b3))
         == Word(ByteWise(Either, a0, b0), ByteWise(Either, a1, b1), ByteWise(Either, a2, b2), ByteWise(Either, a3, b3))
  {
    BytesBitwise(Either, a0, a1, a2, a3, b0, b1, b2, b3);
  }

  /** `0xff << ((3 - lane) * 8)` */
  function LaneMask(lane: nat): u32
    requires lane < 4
  {
    ShiftLeft(0xff, (3 - lane) * 8)
  }

  lemma {:induction false} ShlTwice(x: nat, m: nat, n: nat)
    ensures Shl(Shl(x, m), n) == Shl(x, m + n)
  {
    if n > 0 {
      ShlTwice(x, m, n - 1);
    }
  }

  lemma ShlBytes(b: nat)
    ensures Shl(b, 0) == b && Shl(b, 8) == 0x100 * b && Shl(b, 16) == 0x1_0000 * b && Shl(b, 24) == 0x100_0000 * b
  {
    ShlEight(b);
    ShlEight(256 * b);
    ShlEight(0x1_0000 * b);
    ShlTwice(b, 8, 8);
    ShlTwice(b, 16, 8);
  }

  /** A byte shifted into its lane. */
  lemma ShiftedByte(b: byte, lane: nat)
    requires lane < 4
    ensures ShiftLeft(b, (3 - lane) * 8)
         == Word(if lane == 0 then b else 0, if lane == 1 then b else 0, if lane == 2 then b else 0, if lane == 3 then b else 0)
  {
    ShiftsIntoLanes(b);
  }

  lemma ShiftsIntoLanes(b: byte)
    ensures ShiftLeft(b, 24) == Word(b, 0, 0, 0) && ShiftLeft(b, 16) == Word(0, b, 0, 0)
    ensures ShiftLeft(b, 8) == Word(0, 0, b, 0) && ShiftLeft(b, 0) == Word(0, 0, 0, b)
  {
    ShlBytes(b);
  }

  /** The byte store's `value & ~(0xff << shift) | b << shift` replaces the byte. */
  lemma PutByteIsMasked(w: u32, lane: nat, b: byte)
    requires lane < 4
    ensures PutByte(w, lane, b) == BitOr(BitAnd(w, Complement(LaneMask(lane))), ShiftLeft(b, (3 - lane) * 8))
  {
    WordOfBytes(w);
    var b0, b1, b2, b3 := GetByte(w, 0), GetByte(w, 1), GetByte(w, 2), GetByte(w, 3);
    MaskOut(b0, b1, b2, b3, lane);
    ShiftedByte(b, lane);
    OrIn(b0, b1, b2, b3, lane, b);
    PutIntoWord(b0, b1, b2, b3, lane, b);
  }

  /** The word with one lane cleared. */
  function Cleared(b0: byte, b1: byte, b2: byte, b3: byte, lane: nat): u32 {
    Word(if lane == 0 then 0 else b0, if lane == 1 then 0 else b1, if lane == 2 then 0 else b2, if lane == 3 then 0 else b3)
  }

  lemma ComplementBytes(b0: byte, b1: byte, b2: byte, b3: byte)
    ensures Complement(Word(b0, b1, b2, b3)) == Word(255 - b0, 255 - b1, 255 - b2, 255 - b3)
  {
  }

  lemma InverseMask(lane: nat)
    requires lane < 4
    ensures Complement(LaneMask(lane))
         == Word(if lane == 0 then 0 else 255, if lane == 1 then 0 else 255,
                 if lane == 2 then 0 else 255, if lane == 3 then 0 else 255)
  {
    ShiftedByte(255, lane);
    ComplementBytes(if lane == 0 then 255 else 0, if lane == 1 then 255 else 0,
                    if lane == 2 then 255 else 0, if lane == 3 then 255 else 0);
  }

  lemma MaskOut(b0: byte, b1: byte, b2: byte, b3: byte, lane: nat)
    requires lane < 4
    ensures BitAnd(Word(b0, b1, b2, b3), Complement(LaneMask(lane))) == Cleared(b0, b1, b2, b3, lane)
  {
    var m0: byte, m1: byte := if lane == 0 then 0 else 255, if lane == 1 then 0 else 255;
    var m2: byte, m3: byte := if lane == 2 then 0 else 255, if lane == 3 then 0 else 255;
    InverseMask(lane);
    AndBytes(b0, b1, b2, b3, m0, m1, m2, m3);
    ByteOnesAndZeros(b0);
    ByteOnesAndZeros(b1);
    ByteOnesAndZeros(b2);
    ByteOnesAndZeros(b3);
  }

  lemma OrIn(b0: byte, b1: byte, b2: byte, b3: byte, lane: nat, b: byte)
    requires lane < 4
    ensures BitOr(Cleared(b0, b1, b2, b3, lane),
                  Word(if lane == 0 then b else 0, if lane == 1 then b else 0, if lane == 2 then b else 0, if lane == 3 then b else 0))
         == Word(if lane == 0 then b else b0, if lane == 1 then b else b1, if lane == 2 then b else b2, if lane == 3 then b else b3)
  {
    OrBytes(if lane == 0 then 0 else b0, if lane == 1 then 0 else b1, if lane == 2 then 0 else b2, if lane == 3 then 0 else b3,
            if lane == 0 then b else 0, if lane == 1 then b else 0, if lane == 2 then b else 0, if lane == 3 then b else 0);
    ByteOnesAndZeros(b0);
    ByteOnesAndZeros(b1);
    ByteOnesAndZeros(b2);
    ByteOnesAndZeros(b3);
    ByteOnesAndZeros(b);
  }

  // ------------------------------------------------------------------ taking bytes and halves out

  lemma ShrEight(x: nat)
    ensures Shr(x, 8) == x / 256
  {
    ShlEight(Shr(x, 8));
    SplitAt(x, 8);
    DivModUnique(x, 256, Shr(x, 8), Low(x, 8));
  }

  lemma ShrBytes(w: nat)
    ensures Shr(w, 8) == w / 256 && Shr(w, 16) == w / 256 / 256 && Shr(w, 24) == w / 256 / 256 / 256
  {
    ShrEight(w);
    ShrEight(w / 256);
    ShrEight(w / 256 / 256);
    ShrTwice(w, 8, 8);
    ShrTwice(w, 16, 8);
  }

  /** Masking with 0xff keeps the lowest byte. */
  lemma AndFf(w: u32)
    ensures BitAnd(w, 0xff) == w % 256
  {
    WordOfBytes(w);
    var b0, b1, b2, b3 := GetByte(w, 0), GetByte(w, 1), GetByte(w, 2), GetByte(w, 3);
    AndBytes(b0, b1, b2, b3, 0, 0, 0, 255);
    ByteOnesAndZeros(b0);
    ByteOnesAndZeros(b1);
    ByteOnesAndZeros(b2);
    ByteOnesAndZeros(b3);
  }

  /** Masking with 0xffff keeps the lower half, with its complement the upper one. */
  lemma AndHalves(w: u32)
    ensures BitAnd(w, 0xffff) == w % 0x1_0000
    ensures BitAnd(w, Complement(0xffff)) == w - w % 0x1_0000
  {
    WordOfBytes(w);
    var b0, b1, b2, b3 := GetByte(w, 0), GetByte(w, 1), GetByte(w, 2), GetByte(w, 3);
    AndHalfBytes(b0, b1, b2, b3);
    DivModUnique(w, 0x1_0000, b0 * 256 + b1, b2 * 256 + b3);
  }

  lemma AndHalfBytes(b0: byte, b1: byte, b2: byte, b3: byte)
    ensures BitAnd(Word(b0, b1, b2, b3), 0xffff) == Word(0, 0, b2, b3)
    ensures BitAnd(Word(b0, b1, b2, b3), Complement(0xffff)) == Word(b0, b1, 0, 0)
  {
    AndBytes(b0, b1, b2, b3, 0, 0, 255, 255);
    AndBytes(b0, b1, b2, b3, 255, 255, 0, 0);
    ByteOnesAndZeros(b0);
    ByteOnesAndZeros(b1);
    ByteOnesAndZeros(b2);
    ByteOnesAndZeros(b3);
  }

  lemma HalvesOfBytes(h: u16, l: u16)
    ensures Word(h / 256, h % 256, 0, 0) == h * 0x1_0000 && Word(0, 0, l / 256, l % 256) == l
    ensures Word(h / 256, h % 256, l / 256, l % 256) == h * 0x1_0000 + l
  {
  }

  /** Halves in their own places are or-ed by adding them. */
  lemma OrHalves(h: u16, l: u16)
    ensures BitOr(h * 0x1_0000, l) == h * 0x1_0000 + l && BitOr(l, h * 0x1_0000) == h * 0x1_0000 + l
  {
    HalvesOfBytes(h, l);
    OrHalfBytes(h / 256, h % 256, l / 256, l % 256);
  }

  lemma OrHalfBytes(a0: byte, a1: byte, b0: byte, b1: byte)
    ensures BitOr(Word(a0, a1, 0, 0), Word(0, 0, b0, b1)) == Word(a0, a1, b0, b1)
    ensures BitOr(Word(0, 0, b0, b1), Word(a0, a1, 0, 0)) == Word(a0, a1, b0, b1)
  {
    OrBytes(a0, a1, 0, 0, 0, 0, b0, b1);
    OrBytes(0, 0, b0, b1, a0, a1, 0, 0);
    ByteOnesAndZeros(a0);
    ByteOnesAndZeros(a1);
    ByteOnesAndZeros(b0);
    ByteOnesAndZeros(b1);
  }

  lemma ShiftRightBytes(w: u32)
    ensures ShiftRight(w, 0) == w && ShiftRight(w, 8) == w / 0x100
    ensures ShiftRight(w, 16) == w / 0x1_0000 && ShiftRight(w, 24) == w / 0x100_0000
  {
    ShrBytes(w);
    assert w / 256 / 256 == w / 0x1_0000;
    assert w / 256 / 256 / 256 == w / 0x100_0000;
  }

  /** The byte load's `(value >> shift) & 0xff`. */
  lemma GetByteIsShifted(w: u32, lane: nat)
    requires lane < 4
    ensures GetByte(w, lane) == BitAnd(ShiftRight(w, (3 - lane) * 8), 0xff)
  {
    ShiftRightBytes(w);
    AndFf(ShiftRight(w, (3 - lane) * 8));
    TopByte(w);
  }

  lemma TopByte(w: u32)
    ensures w / 0x100_0000 % 256 == w / 0x100_0000
  {
  }

  /** The half-word load's `value >> 16` or `value & 0xffff`. */
  lemma GetHalfIsShifted(w: u32, ea: u32)
    ensures GetHalf(w, ea) == if ea / 2 % 2 == 0 then ShiftRight(w, 16) else BitAnd(w, 0xffff)
  {
    ShiftRightBytes(w);
    AndHalves(w);
  }

  /** The half-word store's `value & 0xffff | v << 16` or `value & ~0xffff | v & 0xffff` replaces the half. */
  lemma PutHalfIsMasked(w: u32, ea: u32, v: u32)
    ensures PutHalf(w, ea, v)
         == if ea / 2 % 2 == 0 then BitOr(BitAnd(w, 0xffff), ShiftLeft(v, 16))
            else BitOr(BitAnd(w, Complement(0xffff)), BitAnd(v, 0xffff))
  {
    PutUpperHalf(w, v);
    PutLowerHalf(w, v);
  }

  lemma PutUpperHalf(w: u32, v: u32)
    ensures BitOr(BitAnd(w, 0xffff), ShiftLeft(v, 16)) == w % 0x1_0000 + v % 0x1_0000 * 0x1_0000
  {
    AndHalves(w);
    UpperPart(v);
    OrHalves(v % 0x1_0000, w % 0x1_0000);
  }

  lemma PutLowerHalf(w: u32, v: u32)
    ensures BitOr(BitAnd(w, Complement(0xffff)), BitAnd(v, 0xffff)) == w - w % 0x1_0000 + v % 0x1_0000
  {
    AndHalves(w);
    AndHalves(v);
    OrHalves(w / 0x1_0000, v % 0x1_0000);
    assert w - w % 0x1_0000 == w / 0x1_0000 * 0x1_0000;
  }

  lemma UpperPart(v: u32)
    ensures ShiftLeft(v, 16) == v % 0x1_0000 * 0x1_0000
  {
    ShlBytes(v);
    DivModUnique(0x1_0000 * v, WORD, v / 0x1_0000, v % 0x1_0000 * 0x1_0000);
  }
}
