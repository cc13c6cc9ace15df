/** 32-bit machine words as numbers.

    A `u32` is a natural number below 2^32 and a `u64` one below 2^64; every wrap-around of the
    C code is written out.  Shifts and low parts are defined one bit at a time, which keeps the
    proofs about bit-serial loops linear. */
module Words {

  const WORD: nat := 0x1_0000_0000
  const DWORD: nat := 0x1_0000_0000_0000_0000

  type u32 = n: nat | n < 0x1_0000_0000
  type u64 = n: nat | n < 0x1_0000_0000_0000_0000

  function Pow2(k: nat): (p: nat)
    ensures p > 0
  {
    if k == 0 then 1 else 2 * Pow2(k - 1)
  }

  /** `n >> k` */
  function Shr(n: nat, k: nat): nat {
    if k == 0 then n else Shr(n, k - 1) / 2
  }

  /** `n << k`, without truncation */
  function Shl(n: nat, k: nat): nat {
    if k == 0 then n else 2 * Shl(n, k - 1)
  }

  /** Bit `k` of `n`. */
  predicate TestBit(n: nat, k: nat) {
    Shr(n, k) % 2 == 1
  }

  /** Halving a number moves its bits down. */
  lemma {:induction false} HalfBit(n: nat, k: nat)
    ensures Shr(n, k + 1) == Shr(n / 2, k) && TestBit(n, k + 1) == TestBit(n / 2, k)
  {
    if k > 0 {
      HalfBit(n, k - 1);
    }
  }

  /** The number held in the low `k` bits of `n`. */
  function Low(n: nat, k: nat): (r: nat)
    ensures r < Pow2(k)
  {
    if k == 0 then 0 else Low(n, k - 1) + if TestBit(n, k - 1) then Pow2(k - 1) else 0
  }

  /** The number with these bits, low bit first. */
  function FromBits(bits: seq<bool>): (n: nat)
    ensures n < Pow2(|bits|)
  {
    if |bits| == 0 then 0 else (if bits[0] then 1 else 0) + 2 * FromBits(bits[1..])
  }

  lemma {:induction false} Pow2Monotone(j: nat, k: nat)
    requires j <= k
    ensures Pow2(j) <= Pow2(k)
    decreases k - j
  {
    if j < k {
      Pow2Monotone(j + 1, k);
    }
  }

  lemma {:induction false} ShlPow2(j: nat, k: nat)
    ensures Shl(Pow2(j), k) == Pow2(j + k)
  {
    if k > 0 {
      ShlPow2(j, k - 1);
    }
  }

  lemma {:induction false} ShrTwice(a: nat, m: nat, n: nat)
    ensures Shr(Shr(a, m), n) == Shr(a, m + n)
  {
    if n > 0 {
      ShrTwice(a, m, n - 1);
    }
  }

  lemma {:induction false} ShlAdd(x: nat, y: nat, k: nat)
    ensures Shl(x + y, k) == Shl(x, k) + Shl(y, k)
  {
    if k > 0 {
      ShlAdd(x, y, k - 1);
    }
  }

  lemma {:induction false} ShlZero(k: nat)
    ensures Shl(0, k) == 0
  {
    if k > 0 {
      ShlZero(k - 1);
    }
  }

  lemma {:induction false} ShlMonotone(x: nat, y: nat, k: nat)
    requires x <= y
    ensures Shl(x, k) <= Shl(y, k)
  {
    if k > 0 {
      ShlMonotone(x, y, k - 1);
    }
  }

  /** Splitting a number at bit `k` loses nothing. */
  lemma {:induction false} SplitAt(n: nat, k: nat)
    ensures n == Shl(Shr(n, k), k) + Low(n, k)
  {
    if k > 0 {
      SplitAt(n, k - 1);
      var q, b := Shr(n, k), if TestBit(n, k - 1) then 1 else 0;
      assert Shr(n, k - 1) == q + q + b;
      ShlAdd(q + q, b, k - 1);
      ShlAdd(q, q, k - 1);
      if b == 1 {
        ShlPow2(0, k - 1);
      } else {
        ShlZero(k - 1);
      }
    }
  }

  /** A number below 2^k has no bits at `k` and above. */
  lemma {:induction false} ShrSmall(n: nat, k: nat)
    requires n < Pow2(k)
    ensures Shr(n, k) == 0 && Low(n, k) == n
  {
    SplitAt(n, k);
    if Shr(n, k) > 0 {
      ShlMonotone(1, Shr(n, k), k);
      ShlPow2(0, k);
      assert false;
    }
    ShlZero(k);
  }

  lemma PowersOfTwo()
    ensures Pow2(31) == 0x8000_0000 && Pow2(32) == WORD && Pow2(33) == 2 * WORD && Pow2(64) == DWORD
  {
    assert Pow2(8) == 256;
    assert Pow2(16) == 65536;
    assert Pow2(24) == 0x100_0000;
    assert Pow2(31) == 0x8000_0000;
    assert Pow2(40) == 256 * WORD;
    assert Pow2(48) == 65536 * WORD;
    assert Pow2(56) == 0x100_0000 * WORD;
  }

  /** Quotient and remainder are determined by their defining equation. */
  lemma DivModUnique(n: int, d: int, q: int, r: int)
    requires d > 0 && n == q * d + r && 0 <= r < d
    ensures n / d == q && n % d == r
  {
    var q', r' := n / d, n % d;
    assert n == q' * d + r';
    assert (q - q') * d == r' - r;
    if q > q' {
      MulAtLeast(q - q', d);
    } else if q < q' {
      MulAtLeast(q' - q, d);
    }
  }

  lemma MulAtLeast(k: int, d: int)
    requires k >= 1 && d > 0
    ensures k * d >= d
  {
  }

  predicate IsNeg(x: u32) {
    x >= 0x8000_0000
  }

  /** A word read as a two's complement number. */
  function ToInt(x: u32): (i: int)
    ensures -0x8000_0000 <= i < 0x8000_0000
  {
    if IsNeg(x) then x - WORD else x
  }

  /** The low word of a number, as a C conversion to `u32` takes it. */
  function ToWord(i: int): u32 {
    i % WORD
  }

  /** A bitwise operation on the low `k` bits of two words. */
  function Bitwise(f: (bool, bool) -> bool, x: nat, y: nat, k: nat): (r: nat)
    ensures r < Pow2(k)
  {
    if k == 0 then 0
    else (if f(x % 2 == 1, y % 2 == 1) then 1 else 0) + 2 * Bitwise(f, x / 2, y / 2, k - 1)
  }

  predicate Both(a: bool, b: bool) {
    a && b
  }

  predicate Either(a: bool, b: bool) {
    a || b
  }

  predicate Differ(a: bool, b: bool) {
    a != b
  }

  function BitAnd(x: u32, y: u32): u32 {
    PowersOfTwo();
    Bitwise(Both, x, y, 32)
  }

  function BitOr(x: u32, y: u32): u32 {
    PowersOfTwo();
    Bitwise(Either, x, y, 32)
  }

  function BitXor(x: u32, y: u32): u32 {
    PowersOfTwo();
    Bitwise(Differ, x, y, 32)
  }

  /** `~x` */
  function Complement(x: u32): u32 {
    0xffff_ffff - x
  }
}
