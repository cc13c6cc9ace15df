/** What the logic, shift and extension instructions mean, bit by bit and as numbers. */
module Bits {
  import opened Words
  import opened Isa

  // ------------------------------------------------------------------ bitwise operations

  /** Each bit of the result is the operation on the bits of the operands. */
  lemma {:induction false} BitwiseBits(f: (bool, bool) -> bool, x: nat, y: nat, k: nat, i: nat)
    requires i < k
    ensures TestBit(Bitwise(f, x, y, k), i) == f(TestBit(x, i), TestBit(y, i))
  {
    var r := Bitwise(f, x, y, k);
    assert r / 2 == Bitwise(f, x / 2, y / 2, k - 1);
    if i > 0 {
      HalfBit(r, i - 1);
      HalfBit(x, i - 1);
      HalfBit(y, i - 1);
      BitwiseBits(f, x / 2, y / 2, k - 1, i - 1);
    }
  }

  lemma LogicBits(x: u32, y: u32, i: nat)
    requires i < 32
    ensures TestBit(BitAnd(x, y), i) == (TestBit(x, i) && TestBit(y, i))
    ensures TestBit(BitOr(x, y), i) == (TestBit(x, i) || TestBit(y, i))
    ensures TestBit(BitXor(x, y), i) == (TestBit(x, i) != TestBit(y, i))
  {
    BitwiseBits(Both, x, y, 32, i);
    BitwiseBits(Either, x, y, 32, i);
    BitwiseBits(Differ, x, y, 32, i);
  }

  /** Words with the same bits are the same. */
  lemma {:induction false} SameBits(x: nat, y: nat, k: nat)
    requires x < Pow2(k) && y < Pow2(k)
    requires forall i :: 0 <= i < k ==> TestBit(x, i) == TestBit(y, i)
    ensures x == y
  {
    if k > 0 {
      assert TestBit(x, 0) == TestBit(y, 0);
      forall i | 0 <= i < k - 1 ensures TestBit(x / 2, i) == TestBit(y / 2, i) {
        HalfBit(x, i);
        HalfBit(y, i);
        assert TestBit(x, i + 1) == TestBit(y, i + 1);
      }
      SameBits(x / 2, y / 2, k - 1);
    }
  }

  // ------------------------------------------------------------------ shifts

  /** Bit `i` of a right shift is bit `i + n`. */
  lemma ShiftRightBits(a: u32, n: nat, i: nat)
    ensures TestBit(ShiftRight(a, n), i) == TestBit(a, n + i)
  {
    ShrTwice(a, n, i);
  }

  lemma {:induction false} ShrShl(a: nat, n: nat)
    ensures Shr(Shl(a, n), n) == a
  {
    if n > 0 {
      ShrShl(a, n - 1);
      HalfBit(2 * Shl(a, n - 1), n - 1);
    }
  }

  /** Reducing a word modulo 2^k keeps its low bits. */
  lemma {:induction false} ModuloBits(a: nat, k: nat, i: nat)
    requires i < k
    ensures TestBit(a % Pow2(k), i) == TestBit(a, i)
  {
    HalveModulo(a, Pow2(k - 1));
    if i > 0 {
      HalfBit(a % Pow2(k), i - 1);
      HalfBit(a, i - 1);
      ModuloBits(a / 2, k - 1, i - 1);
    }
  }

  lemma HalveModulo(a: nat, p: nat)
    requires p > 0
    ensures a % (2 * p) % 2 == a % 2 && a % (2 * p) / 2 == a / 2 % p
  {
    var q, r := a / 2 / p, a / 2 % p;
    assert a / 2 == q * p + r;
    Doubled(a, p, q, r);
    DivModUnique(a, 2 * p, q, 2 * r + a % 2);
  }

  lemma Doubled(a: nat, p: nat, q: nat, r: nat)
    requires a / 2 == q * p + r
    ensures a == q * (2 * p) + (2 * r + a % 2)
  {
  }

  /** Bit `i` of a left shift is bit `i - n`, or 0. */
  lemma ShiftLeftBits(a: u32, n: nat, i: nat)
    requires i < 32
    ensures TestBit(ShiftLeft(a, n), i) == (i >= n && TestBit(a, i - n))
  {
    PowersOfTwo();
    ModuloBits(Shl(a, n), 32, i);
    if i >= n {
      ShrTwice(Shl(a, n), n, i - n);
      ShrShl(a, n);
    } else {
      LowZeros(a, n, i);
    }
  }

  lemma {:induction false} LowZeros(a: nat, n: nat, i: nat)
    requires i < n
    ensures !TestBit(Shl(a, n), i)
  {
    if i > 0 {
      HalfBit(Shl(a, n), i - 1);
      LowZeros(a, n - 1, i - 1);
    }
  }

  /** No word has a bit above 31. */
  lemma NoHighBits(a: u32, i: nat)
    requires i >= 32
    ensures !TestBit(a, i)
  {
    PowersOfTwo();
    ShrSmall(a, 32);
    ShrTwice(a, 32, i - 32);
    ShrZero(i - 32);
  }

  lemma {:induction false} ShrZero(n: nat)
    ensures Shr(0, n) == 0
  {
    if n > 0 {
      ShrZero(n - 1);
    }
  }

  /** Rotation moves every bit `n` places down, around the word. */
  lemma RotateBits(a: u32, n: nat, i: nat)
    requires n < 32 && i < 32
    ensures TestBit(RotateRight(a, n), i) == TestBit(a, (i + n) % 32)
  {
    if n > 0 {
      LogicBits(ShiftRight(a, n), ShiftLeft(a, 32 - n), i);
      ShiftRightBits(a, n, i);
      ShiftLeftBits(a, 32 - n, i);
      if i + n >= 32 {
        NoHighBits(a, n + i);
      }
    }
  }

  lemma RotateBackBit(a: u32, n: nat, i: nat)
    requires 0 < n < 32 && i < 32
    ensures TestBit(RotateRight(RotateRight(a, n), 32 - n), i) == TestBit(a, i)
  {
    RotateBits(RotateRight(a, n), 32 - n, i);
    RotateBits(a, n, (i + 32 - n) % 32);
    assert ((i + 32 - n) % 32 + n) % 32 == i;
  }

  /** Rotating on by the rest of the word undoes a rotation. */
  lemma RotateBack(a: u32, n: nat)
    requires 0 < n < 32
    ensures RotateRight(RotateRight(a, n), 32 - n) == a
  {
    var r := RotateRight(a, n);
    forall i | 0 <= i < 32 ensures TestBit(RotateRight(r, 32 - n), i) == TestBit(a, i) {
      RotateBackBit(a, n, i);
    }
    PowersOfTwo();
    SameBits(RotateRight(r, 32 - n), a, 32);
  }

  // ------------------------------------------------------------------ first and last one bit

  /** Bit `r - 1` is one, and none below it. */
  lemma {:induction false} LowestOneMeaning(a: nat)
    requires a > 0
    ensures var r := LowestOne(a); r > 0 && TestBit(a, r - 1) && forall j :: 0 <= j < r - 1 ==> !TestBit(a, j)
  {
    if a % 2 == 0 {
      LowestOneMeaning(a / 2);
      var r := LowestOne(a / 2);
      HalfBit(a, r - 1);
      forall j | 0 <= j < r ensures !TestBit(a, j) {
        if j > 0 {
          HalfBit(a, j - 1);
        }
      }
    }
  }

  /** Bit `r - 1` is one, and none above it. */
  lemma {:induction false} HighestOneMeaning(a: nat)
    requires a > 0
    ensures var r := HighestOne(a); r > 0 && TestBit(a, r - 1) && a < Pow2(r)
  {
    if a > 1 {
      HighestOneMeaning(a / 2);
      HalfBit(a, HighestOne(a / 2) - 1);
    }
  }

  // ------------------------------------------------------------------ signs

  /** `sign_extend` reads its argument as a two's complement number of `bit + 1` bits. */
  lemma SignExtendMeaning(value: u32, bit: nat)
    requires bit < 31 && value < Pow2(bit + 1)
    ensures ToInt(SignExtend(value, bit)) == if TestBit(value, bit) then value - Pow2(bit + 1) else value
  {
    ShrSmall(value, bit + 1);
    Pow2Monotone(bit + 1, 31);
    PowersOfTwo();
  }

  /** Division by 2^n, rounding down. */
  function Floor(i: int, n: nat): int {
    if n == 0 then i else Floor(i, n - 1) / 2
  }

  lemma {:induction false} FloorNegative(a: u32, n: nat)
    requires n < 32 && IsNeg(a)
    ensures Floor(a - WORD, n) == Shr(a, n) - Pow2(32 - n)
  {
    PowersOfTwo();
    if n > 0 {
      FloorNegative(a, n - 1);
      assert Pow2(32 - n + 1) == 2 * Pow2(32 - n);
    }
  }

  lemma {:induction false} FloorPositive(a: nat, n: nat)
    ensures Floor(a, n) == Shr(a, n)
  {
    if n > 0 {
      FloorPositive(a, n - 1);
    }
  }

  lemma {:induction false} ShrBound(a: nat, k: nat, n: nat)
    requires a < Pow2(k) && n <= k
    ensures Shr(a, n) < Pow2(k - n)
  {
    if n > 0 {
      ShrBound(a, k, n - 1);
      assert Pow2(k - n + 1) == 2 * Pow2(k - n);
    }
  }

  /** The sign bit of a word is bit 31. */
  lemma SignBit(a: u32)
    ensures TestBit(a, 31) <==> IsNeg(a)
  {
    PowersOfTwo();
    ShrSmall(a, 32);
  }

  /** l.sra and l.srai divide by a power of two, rounding down. */
  lemma ArithmeticShift(a: u32, n: nat)
    requires n < 32
    ensures ToInt(ShiftRightSigned(a, n)) == Floor(ToInt(a), n)
  {
    if n > 0 {
      PowersOfTwo();
      ShrBound(a, 32, n);
      SignBit(a);
      ShiftRightBits(a, n, 31 - n);
      SignExtendMeaning(ShiftRight(a, n), 31 - n);
      if IsNeg(a) {
        FloorNegative(a, n);
      } else {
        FloorPositive(a, n);
      }
    }
  }
}
