/** The bit-serial arithmetic of the simulator: ripple adder, shift-and-add multiplier, signed
    multiplier and restoring divider, each proved against integer arithmetic. */
module Arithmetic {
  import opened Words

  function Bit(b: bool): nat {
    if b then 1 else 0
  }

  predicate FitsSigned(i: int) {
    -0x8000_0000 <= i < 0x8000_0000
  }

  // ------------------------------------------------------------------ addition

  predicate IsOverflow(a: u32, b: u32, r: u32) {
    (IsNeg(a) && IsNeg(b) && !IsNeg(r)) || (!IsNeg(a) && !IsNeg(b) && IsNeg(r))
  }

  /** One full-adder cell per bit, least significant first. */
  method CalcAdd(carryIn: bool, a: u32, b: u32) returns (res: u32, overflow: bool, carry: bool)
    ensures res + Bit(carry) * WORD == a + b + Bit(carryIn)
    ensures overflow <==> !FitsSigned(ToInt(a) + ToInt(b) + Bit(carryIn))
  {
    var r: nat, c, idx := 0, carryIn, 0;
    while idx < 32
      invariant 0 <= idx <= 32
      invariant r + (if c then Pow2(idx) else 0) == Low(a, idx) + Low(b, idx) + Bit(carryIn)
      invariant r < Pow2(idx)
    {
      var bitA, bitB := TestBit(a, idx), TestBit(b, idx);
      FullAdder(bitA, bitB, c, Pow2(idx));
      r := r + if (bitA != bitB) != c then Pow2(idx) else 0;
      c := (bitA && bitB) || (c && bitA != bitB);
      idx := idx + 1;
    }
    LowWord(a);
    LowWord(b);
    res := r;
    carry := c;
    overflow := IsOverflow(a, b, res);
    OverflowMeaning(a, b, carryIn, res, carry);
  }

  /** Sum bit and carry of one cell at the place `p`. */
  lemma FullAdder(bitA: bool, bitB: bool, c: bool, p: nat)
    ensures (if (bitA != bitB) != c then p else 0) + (if (bitA && bitB) || (c && bitA != bitB) then 2 * p else 0)
         == (if bitA then p else 0) + (if bitB then p else 0) + (if c then p else 0)
  {
  }

  lemma LowWord(a: u32)
    ensures Low(a, 32) == a && Pow2(32) == WORD
  {
    PowersOfTwo();
    ShrSmall(a, 32);
  }

  lemma OverflowMeaning(a: u32, b: u32, carryIn: bool, r: u32, carry: bool)
    requires r + Bit(carry) * WORD == a + b + Bit(carryIn)
    ensures IsOverflow(a, b, r) <==> !FitsSigned(ToInt(a) + ToInt(b) + Bit(carryIn))
  {
  }

  // ------------------------------------------------------------------ multiplication

  /** The product `m * k` as the sum of the shifted copies of `m` that the bits of `k` select. */
  function Times(m: nat, k: nat): nat
    decreases k
  {
    if k == 0 then 0 else Times(2 * m, k / 2) + if k % 2 == 1 then m else 0
  }

  lemma {:induction false} TimesIsProduct(m: nat, k: nat)
    ensures Times(m, k) == m * k
    decreases k
  {
    if k > 0 {
      TimesIsProduct(2 * m, k / 2);
      HalveProduct(m, k / 2, k % 2);
    }
  }

  lemma HalveProduct(m: nat, h: nat, b: nat)
    requires b < 2
    ensures m * (2 * h + b) == (2 * m) * h + if b == 1 then m else 0
  {
  }

  /** Shift-and-add multiplication: 32 steps over a 64-bit accumulator. */
  method CalcMulu(a: u32, b: u32) returns (prod: u64)
    ensures prod == a * b
  {
    prod := 0;
    var mand: u64, mier: u32, idx := a, b, 0;
    LowWord(b);
    while idx < 32
      invariant 0 <= idx <= 32
      invariant mand == Shl(a, idx) && mier < Pow2(32 - idx)
      invariant Times(a, b) == Times(mand, mier) + prod
    {
      MuluRoom(a, b, idx, mand, mier, prod);
      if mier % 2 == 1 {
        prod := (prod + mand) % DWORD;
      }
      mand := mand * 2 % DWORD;
      mier := mier / 2;
      idx := idx + 1;
    }
    TimesIsProduct(a, b);
  }

  /** Neither the shifted multiplicand nor the running sum leaves 64 bits. */
  lemma MuluRoom(a: u32, b: u32, idx: nat, mand: nat, mier: nat, prod: nat)
    requires idx < 32 && mand == Shl(a, idx)
    requires Times(a, b) == Times(mand, mier) + prod
    ensures mand * 2 % DWORD == mand * 2 == Shl(a, idx + 1)
    ensures mier % 2 == 1 ==> (prod + mand) % DWORD == prod + mand
  {
    TimesBound(a, b);
    ShiftBound(a);
    ShlMonotoneCount(a, idx + 1, 32);
  }

  lemma {:induction false} ShlMonotoneCount(x: nat, j: nat, k: nat)
    requires j <= k
    ensures Shl(x, j) <= Shl(x, k)
    decreases k - j
  {
    if j < k {
      ShlMonotoneCount(x, j + 1, k);
    }
  }

  lemma TimesBound(a: u32, b: u32)
    ensures Times(a, b) < DWORD
  {
    TimesIsProduct(a, b);
    MulMonotone(a, 0xffff_ffff, b, 0xffff_ffff);
  }

  lemma MulMonotone(a: nat, x: nat, b: nat, y: nat)
    requires a <= x && b <= y
    ensures a * b <= x * y
  {
    assert a * b <= x * b;
  }

  lemma ShiftBound(a: u32)
    ensures Shl(a, 32) < DWORD
  {
    PowersOfTwo();
    ShlMonotone(a + 1, Pow2(32), 32);
    ShlAdd(a, 1, 32);
    ShlPow2(0, 32);
    ShlPow2(32, 32);
  }

  /** Two's complement negation of a word: complement and add one. */
  function Negate(x: u32): u32 {
    (WORD - 1 - x + 1) % WORD
  }

  lemma NegateMagnitude(x: u32)
    ensures IsNeg(x) ==> Negate(x) == -ToInt(x)
    ensures !IsNeg(x) ==> x == ToInt(x)
  {
  }

  /** Signed multiplication through absolute values; the most negative word is its own absolute
      value here and still gives the exact product. */
  method CalcMul(a: u32, b: u32) returns (prod: int)
    ensures prod == ToInt(a) * ToInt(b)
  {
    var signA, signB := IsNeg(a), IsNeg(b);
    var x, y := if signA then Negate(a) else a, if signB then Negate(b) else b;
    NegateMagnitude(a);
    NegateMagnitude(b);
    var mag := CalcMulu(x, y);
    SignedProduct(ToInt(a), ToInt(b), x, y);
    if signA != signB {
      mag := DWORD - 1 - (mag - 1) % DWORD;
    }
    prod := if mag >= DWORD / 2 then mag - DWORD else mag;
  }

  lemma SignedProduct(a: int, b: int, x: nat, y: nat)
    requires x == (if a < 0 then -a else a) && y == (if b < 0 then -b else b)
    requires x <= 0x8000_0000 && y <= 0x8000_0000
    ensures a * b == if (a < 0) != (b < 0) then -(x * y) else x * y
    ensures 0 <= x * y <= 0x4000_0000_0000_0000
  {
    MulMonotone(x, 0x8000_0000, y, 0x8000_0000);
  }

  // ------------------------------------------------------------------ division

  /** Restoring division in one 64-bit register `rq`: the partial remainder is kept in bits 33 and
      up, below it the dividend bits not yet used, and behind them the quotient found so far. */
  method CalcDivu(divisor: u32, dividend: u32) returns (quotient: u32, remainder: u32)
    requires divisor > 0
    ensures quotient == dividend / divisor
    ensures remainder == dividend % divisor % 0x8000_0000
  {
    var rq: u64 := dividend * 2 % DWORD;
    var idx := 0;
    while idx < 32
      invariant 0 <= idx <= 32
      invariant rq == Packed(dividend, divisor, idx)
    {
      rq := TryDivisor(rq, divisor, dividend, idx);
      idx := idx + 1;
    }
    DivResult(dividend, divisor);
    quotient := rq % WORD;
    remainder := rq / (2 * WORD);
  }

  /** The loop body: subtract the divisor if it fits, then shift. */
  method TryDivisor(rq: u64, divisor: u32, ghost dividend: u32, ghost k: nat) returns (next: u64)
    requires divisor > 0 && k < 32
    requires rq == Packed(dividend, divisor, k)
    ensures next == Packed(dividend, divisor, k + 1)
  {
    ghost var s := DivSteps(dividend, divisor, k);
    DivRoom(dividend, divisor, k);
    Unpack(s, rq);
    var rem: int := rq / WORD % WORD;
    rem := rem - divisor;
    if rem < 0 {
      StepKeeps(s, divisor);
      next := rq * 2 % DWORD;
    } else {
      StepTakes(s, divisor);
      SmallShift(rem);
      next := rq % WORD + rem * WORD % DWORD;
      OddRemainder(next);
      next := next * 2 % DWORD;
      next := next + 1;
    }
  }

  /** The state of the division: the partial remainder `r` and the 33 bits `tail` behind it. */
  datatype DivState = DivState(r: nat, tail: nat)

  function Register(s: DivState): nat {
    s.r * (2 * WORD) + s.tail
  }

  /** One long-division step: the next dividend bit joins the remainder, the divisor is tried. */
  function DivStep(s: DivState, d: u32): (s': DivState)
    ensures s'.tail < 2 * WORD
  {
    var x := 2 * s.r + s.tail / WORD;
    if x < d then DivState(x, 2 * (s.tail % WORD)) else DivState(x - d, 2 * (s.tail % WORD) + 1)
  }

  /** The same step on the packed register, when the divisor does not fit and when it does. */
  lemma StepKeeps(s: DivState, d: u32)
    requires 2 * s.r + s.tail / WORD < d
    ensures Register(DivStep(s, d)) == 2 * Register(s)
  {
    assert s.tail == s.tail / WORD * WORD + s.tail % WORD;
  }

  lemma StepTakes(s: DivState, d: u32)
    requires 2 * s.r + s.tail / WORD >= d
    ensures Register(DivStep(s, d)) == 2 * (s.tail % WORD + (2 * s.r + s.tail / WORD - d) * WORD) + 1
  {
  }

  lemma Unpack(s: DivState, rq: u64)
    requires s.tail < 2 * WORD && 2 * s.r + s.tail / WORD < WORD && rq == Register(s) % DWORD
    ensures rq == Register(s) && rq / WORD % WORD == 2 * s.r + s.tail / WORD && rq % WORD == s.tail % WORD
  {
    var x, low := 2 * s.r + s.tail / WORD, s.tail % WORD;
    assert Register(s) == x * WORD + low;
    DivModUnique(Register(s), WORD, x, low);
  }

  lemma SmallShift(z: u32)
    ensures z * WORD % DWORD == z * WORD
  {
  }

  lemma OddRemainder(y: nat)
    ensures (y * 2 + 1) % DWORD == y * 2 % DWORD + 1 < DWORD
  {
    var h := DWORD / 2;
    var q, m := y / h, y % h;
    assert y * 2 == q * DWORD + 2 * m;
    DivModUnique(y * 2, DWORD, q, 2 * m);
    DivModUnique(y * 2 + 1, DWORD, q, 2 * m + 1);
  }

  /** `k` steps of long division in base two, on unbounded numbers. */
  function DivSteps(n: u32, d: u32, k: nat): (s: DivState)
    ensures s.tail < 2 * WORD
  {
    if k == 0 then DivState(0, 2 * n)
    else DivStep(DivSteps(n, d, k - 1), d)
  }

  /** The 64-bit register after `k` steps. */
  function Packed(n: u32, d: u32, k: nat): u64 {
    Register(DivSteps(n, d, k)) % DWORD
  }

  /** The quotient after `k` steps. */
  function Quotient(n: u32, d: u32, k: nat): nat
  {
    if k == 0 then 0
    else
      var DivState(r, tail) := DivSteps(n, d, k - 1);
      var x := 2 * r + tail / WORD;
      2 * Quotient(n, d, k - 1) + if x < d then 0 else 1
  }

  /** The tail holds the unused low bits of the dividend and, behind them, the quotient. */
  lemma {:induction false} DivTail(n: u32, d: u32, k: nat)
    requires k <= 32
    ensures DivSteps(n, d, k).tail == Shl(Low(n, 32 - k), k + 1) + Quotient(n, d, k)
    ensures Quotient(n, d, k) < Pow2(k)
  {
    if k == 0 {
      LowWord(n);
    } else {
      DivTail(n, d, k - 1);
      NextBit(n, d, k - 1);
      UnusedBits(n, k - 1);
      FreeBits(n, k - 1);
    }
  }

  /** So the dividend bits enter the remainder from the top. */
  lemma NextBit(n: u32, d: u32, k: nat)
    requires k < 32
    requires DivSteps(n, d, k).tail == Shl(Low(n, 32 - k), k + 1) + Quotient(n, d, k)
    requires Quotient(n, d, k) < Pow2(k)
    ensures DivSteps(n, d, k).tail / WORD == Bit(TestBit(n, 31 - k))
  {
    UnusedBits(n, k);
    FreeBits(n, k);
  }

  /** The highest unused dividend bit is bit 32 of the shifted tail ... */
  lemma UnusedBits(n: u32, k: nat)
    requires k < 32
    ensures Shl(Low(n, 32 - k), k + 1) == Shl(Low(n, 31 - k), k + 1) + Bit(TestBit(n, 31 - k)) * WORD
  {
    PowersOfTwo();
    ShlPow2(31 - k, k + 1);
    ShlAdd(Low(n, 31 - k), Pow2(31 - k), k + 1);
  }

  /** ... and the rest leaves the low `k + 1` bits of the word free. */
  lemma FreeBits(n: u32, k: nat)
    requires k < 32
    ensures Shl(Low(n, 31 - k), k + 1) + Pow2(k + 1) <= WORD
  {
    PowersOfTwo();
    ShlPow2(31 - k, k + 1);
    ShlPow2(0, k + 1);
    ShlAdd(Low(n, 31 - k), 1, k + 1);
    ShlMonotone(Low(n, 31 - k) + 1, Pow2(31 - k), k + 1);
  }

  /** `Quotient` times the divisor, accumulated step by step. */
  function Covered(n: u32, d: u32, k: nat): nat {
    if k == 0 then 0
    else
      var s := DivSteps(n, d, k - 1);
      2 * Covered(n, d, k - 1) + if 2 * s.r + s.tail / WORD < d then 0 else d
  }

  lemma {:induction false} CoveredIsProduct(n: u32, d: u32, k: nat)
    ensures Covered(n, d, k) == Quotient(n, d, k) * d
  {
    if k > 0 {
      CoveredIsProduct(n, d, k - 1);
      DoubleProduct(Quotient(n, d, k - 1), d);
    }
  }

  lemma DoubleProduct(q: nat, d: nat)
    ensures (2 * q) * d == 2 * (q * d) && (2 * q + 1) * d == 2 * (q * d) + d
  {
  }

  /** Long division: the top `k` dividend bits are `quotient * divisor + remainder`, and the
      partial remainder stays below 2^k. */
  lemma {:induction false} DivInvariant(n: u32, d: u32, k: nat)
    requires d > 0 && k <= 32
    ensures Shr(n, 32 - k) == Covered(n, d, k) + DivSteps(n, d, k).r
    ensures DivSteps(n, d, k).r < d
    ensures Shr(n, 32 - k) < Pow2(k)
  {
    PowersOfTwo();
    if k == 0 {
      ShrSmall(n, 32);
    } else {
      DivInvariant(n, d, k - 1);
      DivTail(n, d, k - 1);
      NextBit(n, d, k - 1);
      assert Shr(n, 33 - k) == Shr(n, 32 - k) / 2;
    }
  }

  /** Before the last step the number tried against the divisor is a 32-bit word. */
  lemma DivRoom(n: u32, d: u32, k: nat)
    requires d > 0 && k < 32
    ensures 2 * DivSteps(n, d, k).r + DivSteps(n, d, k).tail / WORD < WORD
  {
    DivInvariant(n, d, k);
    DivTail(n, d, k);
    NextBit(n, d, k);
    Pow2Monotone(k, 31);
    PowersOfTwo();
  }

  /** The last shift pushes the top bit of the remainder out of the register. */
  lemma DivResult(n: u32, d: u32)
    requires d > 0
    ensures var rq := Packed(n, d, 32);
            rq % WORD == n / d && rq / (2 * WORD) == n % d % 0x8000_0000
  {
    DivInvariant(n, d, 32);
    DivTail(n, d, 32);
    CoveredIsProduct(n, d, 32);
    PowersOfTwo();
    ShlZero(33);
    var q, r := Quotient(n, d, 32), DivSteps(n, d, 32).r;
    DivModUnique(n, d, q, r);
    UnpackRegister(r, q);
  }

  lemma UnpackRegister(r: u32, q: u32)
    ensures var rq := Register(DivState(r, q)) % DWORD;
            rq % WORD == q && rq / (2 * WORD) == r % 0x8000_0000
  {
    var h, l := r / 0x8000_0000, r % 0x8000_0000;
    var rq := l * (2 * WORD) + q;
    assert Register(DivState(r, q)) == h * DWORD + rq;
    DivModUnique(Register(DivState(r, q)), DWORD, h, rq);
    DivModUnique(rq, WORD, 2 * l, q);
    DivModUnique(rq, 2 * WORD, l, q);
  }

  /** Division truncated toward zero, as C and the architecture define it. */
  function TruncDiv(a: int, b: int): int
    requires b != 0
  {
    var q := (if a < 0 then -a else a) / (if b < 0 then -b else b);
    if (a < 0) != (b < 0) then -q else q
  }

  /** Signed division through absolute values. */
  method CalcDiv(divisor: u32, dividend: u32) returns (quotient: u32)
    requires divisor != 0
    ensures quotient == ToWord(TruncDiv(ToInt(dividend), ToInt(divisor)))
  {
    var signDivisor, signDividend := IsNeg(divisor), IsNeg(dividend);
    var d, n := if signDivisor then Negate(divisor) else divisor, if signDividend then Negate(dividend) else dividend;
    NegateMagnitude(divisor);
    NegateMagnitude(dividend);
    var q, r := CalcDivu(d, n);
    quotient := q;
    SignedQuotient(ToInt(dividend), ToInt(divisor), n, d, q);
    NegateWord(q);
    if signDivisor != signDividend {
      quotient := WORD - 1 - (q - 1) % WORD;
    }
  }

  lemma SignedQuotient(a: int, b: int, n: nat, d: nat, q: int)
    requires b != 0 && d > 0 && q == n / d
    requires n == (if a < 0 then -a else a) && d == (if b < 0 then -b else b)
    ensures TruncDiv(a, b) == if (a < 0) != (b < 0) then -q else q
  {
  }

  lemma NegateWord(q: u32)
    ensures WORD - 1 - (q - 1) % WORD == ToWord(-(q as int))
    ensures ToWord(q) == q
  {
  }

  /** `TruncDiv` is division toward zero: the remainder is smaller than the divisor and has the
      sign of the dividend. */
  lemma TruncDivMeaning(a: int, b: int)
    requires b != 0
    ensures var r := a - TruncDiv(a, b) * b;
            && (if r < 0 then -r else r) < (if b < 0 then -b else b)
            && (r == 0 || (r < 0 <==> a < 0))
  {
    var x, y := if a < 0 then -a else a, if b < 0 then -b else b;
    assert x == x / y * y + x % y;
    assert TruncDiv(a, b) * b == if a < 0 then -(x / y * y) else x / y * y;
  }
}
