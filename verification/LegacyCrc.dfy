/** The CRC and the bit order of the legacy debug unit. */
module LegacyCrc {
  import opened Folds
  import opened Crc

  const LEGACY_POLY: bv64 := 0x04c11db7

  /** The C function on `unsigned long`: the bit shifted out is bit 31 and higher bits are junk. */
  function LegacyCalc(crc: bv64, inputBit: bool): bv64 {
    var d: bv64 := if inputBit then 0xfff_ffff else 0;
    var crc32: bv64 := if (crc >> 31) & 1 == 1 then 0xfff_ffff else 0;
    (crc << 1) ^ ((d ^ crc32) & LEGACY_POLY)
  }

  /** The value of the static `int` register as an `unsigned long` argument. */
  function SignExtend(c: bv32): bv64 {
    if c & 0x8000_0000 != 0 then (c as bv64) | 0xffff_ffff_0000_0000 else c as bv64
  }

  /** The low word that assignment to an `int` keeps. */
  function Truncate(x: bv64): bv32 {
    (x & 0xffff_ffff) as bv32
  }

  /** One update of the static register. */
  function LegacyStep(c: bv32, d: bool): bv32 {
    Truncate(LegacyCalc(SignExtend(c), d))
  }

  function LegacyCrc32(c: bv32, bits: seq<bool>): bv32 {
    Fold(LegacyStep, c, bits)
  }

  /** The register read backwards. */
  function Reverse(x: bv32): bv32 {
    var x1 := ((x >> 1) & 0x5555_5555) | ((x & 0x5555_5555) << 1);
    var x2 := ((x1 >> 2) & 0x3333_3333) | ((x1 & 0x3333_3333) << 2);
    var x4 := ((x2 >> 4) & 0x0f0f_0f0f) | ((x2 & 0x0f0f_0f0f) << 4);
    var x8 := ((x4 >> 8) & 0x00ff_00ff) | ((x4 & 0x00ff_00ff) << 8);
    (x8 >> 16) | (x8 << 16)
  }

  predicate TopSet(c: bv32) {
    c & 0x8000_0000 != 0
  }

  /** The junk above bit 31 and the 28-bit masks do no harm: the register shifts left, and the
      polynomial is added exactly when the input bit differs from the bit shifted out. */
  lemma LegacyPlain(c: bv32, d: bool)
    requires d == TopSet(c)
    ensures LegacyStep(c, d) == c << 1
  {
    if d {
      LegacyPlainSet(c);
    } else {
      LegacyPlainClear(c);
    }
  }

  lemma LegacyPlainSet(c: bv32)
    requires TopSet(c)
    ensures LegacyStep(c, true) == c << 1
  {
  }

  lemma LegacyPlainClear(c: bv32)
    requires !TopSet(c)
    ensures LegacyStep(c, false) == c << 1
  {
  }

  lemma LegacyFed(c: bv32, d: bool)
    requires d != TopSet(c)
    ensures LegacyStep(c, d) == (c << 1) ^ 0x04c1_1db7
  {
    if d {
      LegacyFedSet(c);
    } else {
      LegacyFedClear(c);
    }
  }

  lemma LegacyFedSet(c: bv32)
    requires !TopSet(c)
    ensures LegacyStep(c, true) == (c << 1) ^ 0x04c1_1db7
  {
  }

  lemma LegacyFedClear(c: bv32)
    requires TopSet(c)
    ensures LegacyStep(c, false) == (c << 1) ^ 0x04c1_1db7
  {
  }

  lemma ReversePlain(c: bv32, d: bool)
    requires d == TopSet(c)
    ensures Reverse(c << 1) == Step(Reverse(c), d)
  {
  }

  lemma ReverseFed(c: bv32, d: bool)
    requires d != TopSet(c)
    ensures Reverse((c << 1) ^ 0x04c1_1db7) == Step(Reverse(c), d)
  {
  }

  lemma ReverseStep(c: bv32, d: bool)
    ensures Reverse(LegacyStep(c, d)) == Step(Reverse(c), d)
  {
    if d == TopSet(c) {
      LegacyPlain(c, d);
      ReversePlain(c, d);
    } else {
      LegacyFed(c, d);
      ReverseFed(c, d);
    }
  }

  lemma ReverseInvolution(x: bv32)
    ensures Reverse(Reverse(x)) == x
  {
  }

  /** Duality: on every bit stream the left-shifting register is the right-shifting one read
      backwards. */
  lemma LegacyIsReversed(c: bv32, bits: seq<bool>)
    ensures Reverse(LegacyCrc32(c, bits)) == Crc32(Reverse(c), bits)
  {
    forall s, d ensures Reverse(LegacyStep(s, d)) == Step(Reverse(s), d) {
      ReverseStep(s, d);
    }
    FoldHomomorphism(LegacyStep, Step, Reverse, c, bits);
  }

  /** A single one bit leaves the polynomial in the register. */
  lemma LegacyImpulse()
    ensures LegacyCrc32(0, [true]) == 0x04c1_1db7
  {
    assert [true][..0] == [];
    LegacyImpulseStep();
  }

  lemma LegacyImpulseStep()
    ensures LegacyStep(0, true) == 0x04c1_1db7
  {
  }

  /** So the legacy CRC detects the same bursts. */
  lemma LegacyBurstDetected(c: bv32, x: seq<bool>, y: seq<bool>, k: nat)
    requires DifferInWindow(x, y, k) && x != y
    ensures LegacyCrc32(c, x) != LegacyCrc32(c, y)
  {
    LegacyIsReversed(c, x);
    LegacyIsReversed(c, y);
    BurstDetected(Reverse(c), x, y, k);
  }

  // ------------------------------------------------------------------ bit order on the wire

  function Reversed<T>(s: seq<T>): (r: seq<T>)
    ensures |r| == |s|
  {
    if |s| == 0 then [] else [s[|s| - 1]] + Reversed(s[..|s| - 1])
  }

  /** Append a bit at the least significant end. */
  function PushBit(acc: bv32, b: bool): bv32 {
    (acc << 1) | if b then 1 else 0
  }

  /** `legacy_write_stream`: the word is reversed, because the cable sends the low bit first, and
      the CRC runs over the data bits in the order in which they are sent. */
  method WriteStream(stream: bv32, len: nat, crcW: bv32) returns (wire: seq<bool>, crc: bv32)
    requires len <= 32
    ensures wire == Reversed(DataBits(stream, len))
    ensures crc == LegacyCrc32(crcW, wire)
  {
    var outdata := ReverseWord(stream, len);
    PushedBits(DataBits(stream, len));
    wire := DataBits(outdata, len);
    crc := FeedHighFirst(stream, len, crcW);
  }

  /** The loop that runs the CRC over the data bits, high bit first. */
  method FeedHighFirst(data: bv32, len: nat, crcIn: bv32) returns (crc: bv32)
    ensures crc == LegacyCrc32(crcIn, Reversed(DataBits(data, len)))
  {
    crc := crcIn;
    var i := len;
    ghost var bits := Reversed(DataBits(data, len));
    while i > 0
      invariant 0 <= i <= len
      invariant crc == Fold(LegacyStep, crcIn, bits[..len - i])
    {
      i := i - 1;
      FoldStep(LegacyStep, crcIn, bits, len - 1 - i);
      HighFirst(data, len, i);
      crc := LegacyStep(crc, Odd(ShiftRight(data, i)));
    }
    assert bits[..len] == bits;
  }

  lemma HighFirst(data: bv32, len: nat, i: nat)
    requires i < len
    ensures Reversed(DataBits(data, len))[len - 1 - i] == Odd(ShiftRight(data, i))
  {
    ReversedAt(DataBits(data, len), len - 1 - i);
    SamplesAt(Half, Odd, data, len, i);
  }

  /** The first `i` bits of a word pushed into a register. */
  function Pushed(word: bv32, i: nat): bv32 {
    Fold(PushBit, 0, DataBits(word, i))
  }

  /** The reversal loop of `legacy_write_stream` and `legacy_read_stream`. */
  method ReverseWord(word: bv32, len: nat) returns (outdata: bv32)
    requires len <= 32
    ensures outdata == Pushed(word, len)
  {
    outdata := 0;
    var stream, i := word, 0;
    while i < len
      invariant 0 <= i <= len
      invariant i < len ==> stream == ShiftRight(word, i)
      invariant outdata == if 0 < i < len then Double(Pushed(word, i)) else Pushed(word, i)
    {
      outdata := Insert(outdata, stream, word, i);
      if i < len - 1 {
        outdata := Double(outdata);
        stream := Half(stream);
      }
      i := i + 1;
    }
  }

  function Double(x: bv32): bv32 {
    x << 1
  }

  method Insert(outdata: bv32, stream: bv32, ghost word: bv32, ghost i: nat) returns (r: bv32)
    requires stream == ShiftRight(word, i)
    requires outdata == if i > 0 then Double(Pushed(word, i)) else Pushed(word, i)
    ensures r == Pushed(word, i + 1)
  {
    FoldStep(PushBit, 0, DataBits(word, i + 1), i);
    assert DataBits(word, i + 1)[..i] == DataBits(word, i);
    assert DataBits(word, i + 1)[..i + 1] == DataBits(word, i + 1);
    InsertBit(Pushed(word, i), stream);
    ghost var acc := Pushed(word, i);
    assert outdata == Double(acc);
    r := outdata | (stream & 1);
  }

  lemma InsertBit(acc: bv32, stream: bv32)
    ensures Double(acc) | (stream & 1) == PushBit(acc, Odd(stream))
  {
    LowBit(stream);
  }

  lemma LowBit(x: bv32)
    ensures x & 1 == if Odd(x) then 1 else 0
  {
  }

  lemma {:induction false} ReversedAt<T>(s: seq<T>, k: nat)
    requires k < |s|
    ensures Reversed(s)[k] == s[|s| - 1 - k]
  {
    if k > 0 {
      ReversedAt(s[..|s| - 1], k - 1);
    }
  }

  lemma {:induction false} SamplesAt<S, B>(h: S -> S, o: S -> B, s: S, n: nat, i: nat)
    requires i < n
    ensures Samples(h, o, s, n)[i] == o(Iterate(h, s, i))
  {
    if i < n - 1 {
      SamplesAt(h, o, s, n - 1, i);
    }
  }

  /** Pushing bits one after the other leaves them in reverse order. */
  lemma {:induction false} PushedBits(bits: seq<bool>)
    requires |bits| <= 32
    ensures DataBits(Fold(PushBit, 0, bits), |bits|) == Reversed(bits)
  {
    if |bits| > 0 {
      var n := |bits| - 1;
      var acc := Fold(PushBit, 0, bits[..n]);
      PushedBits(bits[..n]);
      SamplesAppend(Half, Odd, PushBit(acc, bits[n]), 1, n);
      PushHalf(acc, bits[n]);
      FirstSample(PushBit(acc, bits[n]), bits[n]);
      KeepLow31(acc, n);
      assert Iterate(Half, PushBit(acc, bits[n]), 1) == And(acc, 0x7fff_ffff);
    }
  }

  lemma FirstSample(w: bv32, b: bool)
    requires Odd(w) == b
    ensures Samples(Half, Odd, w, 1) == [b]
  {
    assert Iterate(Half, w, 0) == w;
    assert Samples(Half, Odd, w, 0) == [];
  }

  lemma PushHalf(acc: bv32, b: bool)
    ensures Half(PushBit(acc, b)) == And(acc, 0x7fff_ffff)
    ensures Odd(PushBit(acc, b)) == b
  {
  }

  lemma KeepLow31(acc: bv32, n: nat)
    requires n <= 31
    ensures DataBits(And(acc, 0x7fff_ffff), n) == DataBits(acc, n)
  {
    LowOnes(0x7fff_ffff, 30);
    MaskedBits(acc, 0x7fff_ffff, n);
  }
}
