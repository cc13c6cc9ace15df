/** The two bit-serial CRC-32 implementations of the JTAG bridge.

    The advanced debug unit shifts its register right (least significant bit first), the legacy
    unit shifts left.  Both use the polynomial of IEEE 802.3 section 3.2.9 without the final
    complement. */
module Crc {
  import opened Folds

  const POLY: bv32 := 0xedb88320

  // ------------------------------------------------------------------ the register

  predicate Odd(x: bv32) {
    x & 1 == 1
  }

  /** Whether the polynomial is added: the input bit differs from the bit shifted out. */
  predicate Feedback(c: bv32, d: bool) {
    d != Odd(c)
  }

  /** One input bit. */
  function Step(c: bv32, d: bool): bv32 {
    (c >> 1) ^ if Feedback(c, d) then POLY else 0
  }

  /** A whole bit stream. */
  function Crc32(c: bv32, bits: seq<bool>): bv32 {
    Fold(Step, c, bits)
  }

  function Half(x: bv32): bv32 {
    x >> 1
  }

  /** `x >> k` */
  function ShiftRight(x: bv32, k: nat): bv32 {
    Iterate(Half, x, k)
  }

  /** The low `n` bits of a word in the order in which JTAG shifts them. */
  function DataBits(data: bv32, n: nat): (bits: seq<bool>)
    ensures |bits| == n
  {
    Samples(Half, Odd, data, n)
  }

  method ComputeCrc(crcIn: bv32, dataIn: bv32, lengthBits: nat) returns (crcOut: bv32)
    requires lengthBits <= 32
    ensures crcOut == Crc32(crcIn, DataBits(dataIn, lengthBits))
  {
    crcOut := crcIn;
    var i := 0;
    while i < lengthBits
      invariant 0 <= i <= lengthBits
      invariant crcOut == Crc32(crcIn, DataBits(dataIn, i))
    {
      assert DataBits(dataIn, i + 1)[..i] == DataBits(dataIn, i);
      crcOut := ShiftIn(crcOut, Odd(ShiftRight(dataIn, i)));
      i := i + 1;
    }
  }

  /** The loop body of `ComputeCrc`, with the masks of the original. */
  method ShiftIn(crcIn: bv32, bit: bool) returns (crcOut: bv32)
    ensures crcOut == Step(crcIn, bit)
  {
    var d: bv32 := if bit then 0xffff_ffff else 0;
    var c: bv32 := if crcIn & 1 == 1 then 0xffff_ffff else 0;
    crcOut := crcIn >> 1;
    crcOut := crcOut ^ ((d ^ c) & POLY);
  }

  // ------------------------------------------------------------------ burst errors

  /** With the same input bit the step is injective: the top bit of the result tells whether the
      polynomial, whose top bit is set, was added. */
  lemma StepInjective()
    ensures Injective(Step)
  {
    forall c, e, d | Step(c, d) == Step(e, d)
      ensures c == e
    {
      StepInjectiveAt(c, e, d);
    }
  }

  lemma StepInjectiveAt(c: bv32, e: bv32, d: bool)
    requires Step(c, d) == Step(e, d)
    ensures c == e
  {
  }

  /** The registers agree in all but their `j` low bits. */
  predicate AgreeAbove(c: bv32, e: bv32, j: nat) {
    ShiftRight(c, j) == ShiftRight(e, j)
  }

  function Xor(x: bv32, y: bv32): bv32 {
    x ^ y
  }

  lemma HalfXor(x: bv32, y: bv32)
    ensures Half(Xor(x, y)) == Xor(Half(x), Half(y))
  {
  }

  lemma HalfRespectsXor()
    ensures Respects(Half, Xor)
  {
    forall s, t ensures Half(Xor(s, t)) == Xor(Half(s), Half(t)) {
      HalfXor(s, t);
    }
  }

  lemma XorCancel(a: bv32, b: bv32, p: bv32)
    requires Xor(a, p) == Xor(b, p)
    ensures a == b
  {
  }

  /** Adding the same word does not hide a difference above bit `j`. */
  lemma AgreeCancel(a: bv32, b: bv32, p: bv32, j: nat)
    requires AgreeAbove(Xor(a, p), Xor(b, p), j)
    ensures AgreeAbove(a, b, j)
  {
    HalfRespectsXor();
    IterateDistribute(Half, Xor, a, p, j);
    IterateDistribute(Half, Xor, b, p, j);
    XorCancel(ShiftRight(a, j), ShiftRight(b, j), ShiftRight(p, j));
  }

  lemma Shift2(x: bv32)
    ensures ShiftRight(x, 2) == x >> 2
  {
    assert ShiftRight(x, 1) == x >> 1;
  }

  lemma Shift4(x: bv32)
    ensures ShiftRight(x, 4) == x >> 4
  {
    IterateAdd(Half, x, 2, 2);
    Shift2(x);
    Shift2(x >> 2);
  }

  lemma Shift8(x: bv32)
    ensures ShiftRight(x, 8) == x >> 8
  {
    IterateAdd(Half, x, 4, 4);
    Shift4(x);
    Shift4(x >> 4);
  }

  lemma Shift16(x: bv32)
    ensures ShiftRight(x, 16) == x >> 16
  {
    IterateAdd(Half, x, 8, 8);
    Shift8(x);
    Shift8(x >> 8);
  }

  lemma Shift24(x: bv32)
    ensures ShiftRight(x, 24) == x >> 24
  {
    IterateAdd(Half, x, 16, 8);
    Shift16(x);
    Shift8(x >> 16);
  }

  /** Only the top bit is left after 31 shifts ... */
  lemma Shift31(x: bv32)
    ensures ShiftRight(x, 31) == x >> 31
  {
    IterateAdd(Half, x, 24, 4);
    IterateAdd(Half, x, 28, 2);
    Shift24(x);
    Shift4(x >> 24);
    Shift2(x >> 28);
    assert ShiftRight(x, 30) == x >> 30;
  }

  /** ... and nothing after 32. */
  lemma Shift32(x: bv32)
    ensures ShiftRight(x, 32) == 0
  {
    Shift31(x);
    assert ShiftRight(x, 32) == Half(ShiftRight(x, 31));
  }

  /** The top bit of a new register is the feedback that produced it. */
  lemma FeedbackVisible(c: bv32, e: bv32, x: bool, y: bool)
    requires Step(c, x) >> 31 == Step(e, y) >> 31
    ensures Feedback(c, x) == Feedback(e, y)
  {
  }

  function Addend(fed: bool): bv32 {
    if fed then POLY else 0
  }

  /** Going back one step: where the new registers agree above bit `j`, the feedbacks were equal
      and the old registers agree above bit `j + 1`. */
  lemma StepBack(c: bv32, e: bv32, x: bool, y: bool, j: nat)
    requires j < 32 && AgreeAbove(Step(c, x), Step(e, y), j)
    ensures Feedback(c, x) == Feedback(e, y) && AgreeAbove(c, e, j + 1)
  {
    IterateAgree(Half, Step(c, x), Step(e, y), j, 31);
    Shift31(Step(c, x));
    Shift31(Step(e, y));
    FeedbackVisible(c, e, x, y);
    StepXor(c, x);
    StepXor(e, y);
    AgreeCancel(Half(c), Half(e), Addend(Feedback(c, x)), j);
    IterateAdd(Half, c, 1, j);
    IterateAdd(Half, e, 1, j);
  }

  lemma StepXor(c: bv32, x: bool)
    ensures Step(c, x) == Xor(Half(c), Addend(Feedback(c, x)))
  {
    if Feedback(c, x) {
      StepFed(c, x);
    } else {
      StepPlain(c, x);
    }
  }

  lemma StepFed(c: bv32, x: bool)
    requires Feedback(c, x)
    ensures Step(c, x) == Xor(Half(c), Addend(true))
  {
  }

  lemma StepPlain(c: bv32, x: bool)
    requires !Feedback(c, x)
    ensures Step(c, x) == Xor(Half(c), Addend(false))
  {
  }

  /** From one register, two inputs of at most 32 bits with the same CRC are the same input. */
  lemma WindowInjective(c: bv32, x: seq<bool>, y: seq<bool>)
    requires |x| == |y| <= 32 && Crc32(c, x) == Crc32(c, y)
    ensures x == y
  {
    forall s, t, a, b, i: nat | i < 32 && AgreeAbove(Step(s, a), Step(t, b), i)
      ensures Feedback(s, a) == Feedback(t, b) && AgreeAbove(s, t, i + 1)
    {
      StepBack(s, t, a, b, i);
    }
    OutputsDetermined(Step, Feedback, AgreeAbove, 32, c, c, x, y, 0);
    InputsDetermined(Step, Feedback, c, x, y);
  }

  /** The streams have equal length and differ only inside `[k, k + 32)`. */
  predicate DifferInWindow(x: seq<bool>, y: seq<bool>, k: nat) {
    && |x| == |y| && k <= |x|
    && x[..k] == y[..k]
    && (k + 32 <= |x| ==> x[k + 32..] == y[k + 32..])
  }

  /** Burst-error detection: different streams that differ only inside one window of at most 32
      consecutive bits never have the same CRC, whatever their length. */
  lemma BurstDetected(c: bv32, x: seq<bool>, y: seq<bool>, k: nat)
    requires DifferInWindow(x, y, k) && x != y
    ensures Crc32(c, x) != Crc32(c, y)
  {
    if Crc32(c, x) == Crc32(c, y) {
      var m := if k + 32 <= |x| then k + 32 else |x|;
      var c1 := Crc32(c, x[..k]);
      assert x == x[..k] + x[k..m] + x[m..] && y == y[..k] + y[k..m] + y[m..];
      FoldAppend(Step, c, x[..k] + x[k..m], x[m..]);
      FoldAppend(Step, c, y[..k] + y[k..m], y[m..]);
      FoldAppend(Step, c, x[..k], x[k..m]);
      FoldAppend(Step, c, y[..k], y[k..m]);
      StepInjective();
      FoldInjective(Step, Crc32(c1, x[k..m]), Crc32(c1, y[k..m]), x[m..]);
      WindowInjective(c1, x[k..m], y[k..m]);
      assert false;
    }
  }

  /** The window cannot be wider: from every register there are two different 33-bit streams with
      the same CRC. */
  lemma WiderBurstUndetected(c: bv32) returns (x: seq<bool>, y: seq<bool>)
    ensures |x| == |y| == 33 && x != y && Crc32(c, x) == Crc32(c, y)
  {
    x := [false] + DataBits(Step(c, false), 32);
    y := [true] + DataBits(Step(c, true), 32);
    OneBit(c, false);
    OneBit(c, true);
    assert x[0] != y[0];
  }

  lemma OneBit(c: bv32, b: bool)
    ensures Crc32(c, [b] + DataBits(Step(c, b), 32)) == 0
  {
    FoldAppend(Step, c, [b], DataBits(Step(c, b), 32));
    assert Fold(Step, c, [b]) == Step(Fold(Step, c, []), b) by { assert [b][..0] == []; }
    SelfZero(Step(c, b));
  }

  // ------------------------------------------------------------------ linearity

  lemma FeedbackLinear(c: bv32, e: bv32, x: bool, y: bool)
    ensures Feedback(Xor(c, e), x != y) == (Feedback(c, x) != Feedback(e, y))
  {
  }

  lemma XorAssociative(a: bv32, b: bv32, c: bv32)
    ensures Xor(Xor(a, b), c) == Xor(a, Xor(b, c))
  {
  }

  lemma XorAssociates()
    ensures Associates(Xor)
  {
    forall x, y, z ensures Xor(Xor(x, y), z) == Xor(x, Xor(y, z)) {
      XorAssociative(x, y, z);
    }
  }

  lemma XorCommutes()
    ensures Commutes(Xor)
  {
  }

  lemma XorSwap(a: bv32, b: bv32, u: bv32, v: bv32)
    ensures Xor(Xor(a, b), Xor(u, v)) == Xor(Xor(a, u), Xor(b, v))
  {
    XorAssociates();
    XorCommutes();
    MiddleSwap(Xor, a, b, u, v);
  }

  lemma AddendMix(p: bool, q: bool)
    ensures Addend(p != q) == Xor(Addend(p), Addend(q))
  {
  }

  lemma StepLinear(c: bv32, e: bv32, x: bool, y: bool)
    ensures Step(Xor(c, e), x != y) == Xor(Step(c, x), Step(e, y))
  {
    var u, v := Addend(Feedback(c, x)), Addend(Feedback(e, y));
    calc {
      Step(Xor(c, e), x != y);
      { StepXor(Xor(c, e), x != y); }
      Xor(Half(Xor(c, e)), Addend(Feedback(Xor(c, e), x != y)));
      { HalfXor(c, e); FeedbackLinear(c, e, x, y); AddendMix(Feedback(c, x), Feedback(e, y)); }
      Xor(Xor(Half(c), Half(e)), Xor(u, v));
      { XorSwap(Half(c), Half(e), u, v); }
      Xor(Xor(Half(c), u), Xor(Half(e), v));
      { StepXor(c, x); StepXor(e, y); }
      Xor(Step(c, x), Step(e, y));
    }
  }

  /** The CRC is linear: the CRCs of two streams differ by the CRC of their difference. */
  lemma Linear(c: bv32, e: bv32, x: seq<bool>, y: seq<bool>)
    requires |x| == |y|
    ensures Crc32(Xor(c, e), Differences(x, y)) == Xor(Crc32(c, x), Crc32(e, y))
  {
    StepIsLinear();
    FoldLinear(Step, Xor, c, e, x, y);
  }

  lemma StepIsLinear()
    ensures LinearStep(Step, Xor)
  {
    forall s, t, a, b ensures Step(Xor(s, t), a != b) == Xor(Step(s, a), Step(t, b)) {
      StepLinear(s, t, a, b);
    }
  }

  /** A single one bit leaves the polynomial in the register, and a zero bit nothing; with linearity this says what
      the CRC of every stream is. */
  lemma Impulse()
    ensures Crc32(0, [true]) == 0xedb8_8320 && Crc32(0, [false]) == 0
  {
    assert [true][..0] == [] && [false][..0] == [];
    ImpulseStep();
  }

  lemma ImpulseStep()
    ensures Step(0, true) == 0xedb8_8320 && Step(0, false) == 0
  {
  }

  // ------------------------------------------------------------------ checked frames

  /** A register fed its own bits runs to zero. */
  lemma SelfZero(c: bv32)
    ensures Crc32(c, DataBits(c, 32)) == 0
  {
    forall t ensures Step(t, Odd(t)) == Half(t) {
      ZeroFeedback(t);
    }
    FoldSamples(Step, Half, Odd, c, 32);
    Shift32(c);
  }

  lemma ZeroFeedback(c: bv32)
    ensures Step(c, Odd(c)) == Half(c)
  {
  }

  /** The receiver's comparison: the CRC of the data equals the CRC word that follows it exactly
      when running over both leaves zero. */
  lemma FrameCheck(c: bv32, data: seq<bool>, crcRead: bv32)
    ensures Crc32(c, data) == crcRead <==> Crc32(c, data + DataBits(crcRead, 32)) == 0
  {
    var r, bits := Crc32(c, data), DataBits(crcRead, 32);
    FoldAppend(Step, c, data, bits);
    SelfZero(crcRead);
    if Crc32(r, bits) == 0 {
      StepInjective();
      FoldInjective(Step, r, crcRead, bits);
    }
  }

  /** A burst transfer, data and CRC word together, that arrives with errors confined to a window
      of 32 bits never passes the comparison. */
  lemma CorruptFrameRejected(c: bv32, sent: seq<bool>, received: seq<bool>, crcRead: bv32, k: nat)
    requires var whole := sent + DataBits(Crc32(c, sent), 32);
             var got := received + DataBits(crcRead, 32);
             whole != got && DifferInWindow(whole, got, k)
    ensures Crc32(c, received) != crcRead
  {
    FrameCheck(c, sent, Crc32(c, sent));
    FrameCheck(c, received, crcRead);
    BurstDetected(c, sent + DataBits(Crc32(c, sent), 32), received + DataBits(crcRead, 32), k);
  }

  // ------------------------------------------------------------------ bytes and words

  function And(x: bv32, y: bv32): bv32 {
    x & y
  }

  lemma HalfAnd(x: bv32, y: bv32)
    ensures Half(And(x, y)) == And(Half(x), Half(y))
  {
  }

  lemma OddAnd(x: bv32, y: bv32)
    ensures Odd(And(x, y)) == (Odd(x) && Odd(y))
  {
  }

  lemma HalfRespectsAnd()
    ensures Respects(Half, And)
  {
    forall s, t ensures Half(And(s, t)) == And(Half(s), Half(t)) {
      HalfAnd(s, t);
    }
  }

  lemma OddRespectsAnd()
    ensures Conjoins(Odd, And)
  {
    forall s, t ensures Odd(And(s, t)) == (Odd(s) && Odd(t)) {
      OddAnd(s, t);
    }
  }

  /** Masking with ones in the low `n` bits leaves the low `n` bits. */
  lemma MaskedBits(w: bv32, m: bv32, n: nat)
    requires forall i: nat :: i < n ==> Odd(Iterate(Half, m, i))
    ensures DataBits(And(w, m), n) == DataBits(w, n)
  {
    HalfRespectsAnd();
    OddRespectsAnd();
    SamplesMask(Half, Odd, And, w, m, n);
  }

  /** A word of the form 2^k - 1. */
  predicate AllOnes(m: bv32) {
    m & (m + 1) == 0
  }

  lemma HalfOnes(m: bv32)
    requires AllOnes(m)
    ensures AllOnes(Half(m))
    ensures m != 0 ==> Odd(m)
  {
  }

  lemma {:induction false} OnesAreOdd(m: bv32, n: nat, i: nat)
    requires AllOnes(m) && i <= n && Iterate(Half, m, n) != 0
    ensures AllOnes(Iterate(Half, m, i)) && Odd(Iterate(Half, m, i))
  {
    OnesShift(m, i);
    if Iterate(Half, m, i) == 0 {
      IterateAdd(Half, m, i, n - i);
      ZeroShift(n - i);
      assert false;
    }
    HalfOnes(Iterate(Half, m, i));
  }

  lemma {:induction false} OnesShift(m: bv32, i: nat)
    requires AllOnes(m)
    ensures AllOnes(Iterate(Half, m, i))
  {
    if i > 0 {
      OnesShift(m, i - 1);
      HalfOnes(Iterate(Half, m, i - 1));
    }
  }

  lemma {:induction false} ZeroShift(i: nat)
    ensures Iterate(Half, 0, i) == 0
  {
    if i > 0 {
      ZeroShift(i - 1);
      assert Half(0) == 0;
    }
  }

  lemma {:induction false} LowOnes(m: bv32, k: nat)
    requires (m == 0xff && k == 7) || (m == 0x7fff_ffff && k == 30)
    ensures forall i: nat :: i <= k ==> Odd(Iterate(Half, m, i))
  {
    forall i: nat | i <= k
      ensures Odd(Iterate(Half, m, i))
    {
      LastOne(m, k);
      OnesAreOdd(m, k, i);
    }
  }

  lemma LastOne(m: bv32, k: nat)
    requires (m == 0xff && k == 7) || (m == 0x7fff_ffff && k == 30)
    ensures AllOnes(m) && Iterate(Half, m, k) != 0
  {
    if k == 7 {
      IterateAdd(Half, m, 4, 2);
      Shift4(m);
      Shift2(m >> 4);
      assert Iterate(Half, m, 6) == 3;
    } else {
      IterateAdd(Half, m, 24, 4);
      IterateAdd(Half, m, 28, 2);
      Shift24(m);
      Shift4(m >> 24);
      Shift2(m >> 28);
    }
  }

  /** The bytes of a word in memory order on a little-endian host. */
  function LittleEndian(w: bv32): seq<bv32> {
    [And(w, 0xff), And(w >> 8, 0xff), And(w >> 16, 0xff), And(w >> 24, 0xff)]
  }

  function CrcByte(c: bv32, b: bv32): bv32 {
    Crc32(c, DataBits(b, 8))
  }

  function CrcWord(c: bv32, w: bv32): bv32 {
    Crc32(c, DataBits(w, 32))
  }

  function Bytes(ws: seq<bv32>): seq<bv32> {
    if |ws| == 0 then [] else Bytes(ws[..|ws| - 1]) + LittleEndian(ws[|ws| - 1])
  }

  /** The CRC over a buffer read back in one shot, a byte at a time. */
  method CrcOfBytes(crcIn: bv32, data: seq<bv32>) returns (crc: bv32)
    ensures crc == Fold(CrcByte, crcIn, data)
  {
    crc := crcIn;
    var i := 0;
    while i < |data|
      invariant 0 <= i <= |data|
      invariant crc == Fold(CrcByte, crcIn, data[..i])
    {
      FoldStep(CrcByte, crcIn, data, i);
      crc := ComputeCrc(crc, data[i], 8);
      i := i + 1;
    }
    assert data[..|data|] == data;
  }

  /** The CRC over a burst read word by word. */
  method CrcOfWords(crcIn: bv32, data: seq<bv32>) returns (crc: bv32)
    ensures crc == Fold(CrcWord, crcIn, data)
  {
    crc := crcIn;
    var i := 0;
    while i < |data|
      invariant 0 <= i <= |data|
      invariant crc == Fold(CrcWord, crcIn, data[..i])
    {
      FoldStep(CrcWord, crcIn, data, i);
      crc := ComputeCrc(crc, data[i], 32);
      i := i + 1;
    }
    assert data[..|data|] == data;
  }

  /** The bits of a word are those of its little-endian bytes, in order. */
  lemma WordBits(w: bv32)
    ensures DataBits(w, 32)
         == DataBits(w, 8) + DataBits(w >> 8, 8) + DataBits(w >> 16, 8) + DataBits(w >> 24, 8)
  {
    SamplesAppend(Half, Odd, w, 8, 8);
    SamplesAppend(Half, Odd, w, 16, 8);
    SamplesAppend(Half, Odd, w, 24, 8);
    Shift8(w);
    Shift16(w);
    Shift24(w);
  }

  lemma ByteBits(w: bv32)
    ensures DataBits(And(w, 0xff), 8) == DataBits(w, 8)
  {
    LowOnes(0xff, 7);
    MaskedBits(w, 0xff, 8);
  }

  lemma WordIsBytes(c: bv32, w: bv32)
    ensures CrcWord(c, w) == Fold(CrcByte, c, LittleEndian(w))
  {
    WordBits(w);
    ByteBits(w);
    ByteBits(w >> 8);
    ByteBits(w >> 16);
    ByteBits(w >> 24);
    FeedFour(c, DataBits(w, 8), DataBits(w >> 8, 8), DataBits(w >> 16, 8), DataBits(w >> 24, 8));
    FoldFour(CrcByte, c, LittleEndian(w));
  }

  lemma FeedFour(c: bv32, p: seq<bool>, q: seq<bool>, r: seq<bool>, t: seq<bool>)
    ensures Crc32(c, p + q + r + t) == Crc32(Crc32(Crc32(Crc32(c, p), q), r), t)
  {
    FoldAppend(Step, c, p + q + r, t);
    FoldAppend(Step, c, p + q, r);
    FoldAppend(Step, c, p, q);
  }

  /** The word-by-word transfer and the one-shot transfer compute the same CRC. */
  lemma {:induction false} WordwiseIsBytewise(c: bv32, ws: seq<bv32>)
    ensures Fold(CrcWord, c, ws) == Fold(CrcByte, c, Bytes(ws))
  {
    if |ws| > 0 {
      var n := |ws| - 1;
      WordwiseIsBytewise(c, ws[..n]);
      FoldAppend(CrcByte, c, Bytes(ws[..n]), LittleEndian(ws[n]));
      WordIsBytes(Fold(CrcWord, c, ws[..n]), ws[n]);
    }
  }
}
