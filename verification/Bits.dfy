/** Bit searches on 32- and 64-bit words, with words as numbers and shifts as the arithmetic they are. */
module Bits {
  import opened Bytes

  /** The number of zero bits below the lowest set bit. */
  function TrailingZeros(n: nat): (z: nat)
    requires n > 0
  {
    if n % 2 == 1 then 0 else 1 + TrailingZeros(n / 2)
  }

  /** n << s in 32 bits. */
  function ShiftLeft32(n: nat, s: nat): (r: nat)
    requires n < U32
    ensures r < U32
    decreases s
  {
    if s == 0 then n else ShiftLeft32(2 * n % U32, s - 1)
  }

  function Pow2(k: nat): (p: nat)
    ensures p >= 1
  {
    if k == 0 then 1 else 2 * Pow2(k - 1)
  }

  /** Bits above the lowest set one do not matter. */
  lemma {:induction false} HighBitsIgnored(low: nat, high: nat, k: nat)
    requires 0 < low < Pow2(k)
    ensures TrailingZeros(low + high * Pow2(k)) == TrailingZeros(low)
  {
    var p := Pow2(k - 1);
    DoubledFactor(high, p);
    if low % 2 == 0 {
      HighBitsIgnored(low / 2, high, k - 1);
      assert (low + high * Pow2(k)) / 2 == low / 2 + high * p;
    }
  }

  lemma {:induction false} ShiftedZeros(high: nat, k: nat)
    requires high > 0
    ensures high * Pow2(k) > 0 && TrailingZeros(high * Pow2(k)) == k + TrailingZeros(high)
  {
    hide TrailingZeros;
    if k == 0 {
      assert high * Pow2(0) == high;
    } else {
      var p := Pow2(k - 1);
      ShiftedZeros(high, k - 1);
      DoubledFactor(high, p);
      DoublingAddsZero(high * p);
    }
  }

  lemma DoubledFactor(a: nat, p: nat)
    ensures a * (2 * p) == 2 * (a * p)
  {
  }

  lemma DoublingAddsZero(n: nat)
    requires n > 0
    ensures TrailingZeros(2 * n) == TrailingZeros(n) + 1
  {
    assert 2 * n / 2 == n && 2 * n % 2 == 0;
  }

  lemma {:induction false} ZerosBound(n: nat, k: nat)
    requires 0 < n < Pow2(k)
    ensures TrailingZeros(n) < k
  {
    if n % 2 == 0 {
      ZerosBound(n / 2, k - 1);
    }
  }

  lemma EightMore(k: nat)
    ensures Pow2(k + 8) == 256 * Pow2(k)
  {
    assert Pow2(k + 2) == 4 * Pow2(k);
    assert Pow2(k + 4) == 16 * Pow2(k);
    assert Pow2(k + 6) == 64 * Pow2(k);
  }

  lemma Pow2Values()
    ensures Pow2(0) == 1 && Pow2(1) == 2 && Pow2(31) == 0x8000_0000 && Pow2(32) == U32 && Pow2(64) == U64
  {
    EightMore(0);
    EightMore(8);
    EightMore(16);
    EightMore(24);
    assert Pow2(32) == 2 * Pow2(31);
    EightMore(32);
    EightMore(40);
    EightMore(48);
    EightMore(56);
  }

  lemma ShiftByOne(n: nat)
    requires 0 < n < U32
    ensures 2 * n % U32 == 0 <==> TrailingZeros(n) == 31
    ensures 2 * n % U32 != 0 ==> TrailingZeros(2 * n % U32) == TrailingZeros(n) + 1
  {
    DoubledInWord(n);
    Pow2Values();
    if n < 0x8000_0000 {
      ZerosBound(n, 31);
    } else if n == 0x8000_0000 {
      ShiftedZeros(1, 31);
    } else {
      HighBitsIgnored(n - 0x8000_0000, 1, 31);
      ZerosBound(n - 0x8000_0000, 31);
    }
  }

  lemma DoubledInWord(n: nat)
    requires 0 < n < U32
    ensures n < 0x8000_0000 ==> 2 * n % U32 == 2 * n && TrailingZeros(2 * n) == TrailingZeros(n) + 1
    ensures n == 0x8000_0000 ==> 2 * n % U32 == 0
    ensures n > 0x8000_0000 ==>
              2 * n % U32 == 2 * (n - 0x8000_0000) && TrailingZeros(2 * (n - 0x8000_0000)) == TrailingZeros(n - 0x8000_0000) + 1
  {
    DoublingAddsZero(n);
    if n > 0x8000_0000 {
      DoublingAddsZero(n - 0x8000_0000);
    }
  }

  /** Shifting left adds zeros until the lowest set bit falls out of the word. */
  lemma {:induction false} ShiftAddsZeros(n: nat, s: nat)
    requires 0 < n < U32
    ensures ShiftLeft32(n, s) == 0 <==> TrailingZeros(n) + s >= 32
    ensures ShiftLeft32(n, s) != 0 ==> TrailingZeros(ShiftLeft32(n, s)) == TrailingZeros(n) + s
    decreases s
  {
    if s == 0 {
      Pow2Values();
      ZerosBound(n, 32);
    } else {
      ShiftByOne(n);
      if 2 * n % U32 == 0 {
        ZeroStaysZero(s - 1);
      } else {
        ShiftAddsZeros(2 * n % U32, s - 1);
      }
    }
  }

  lemma {:induction false} ZeroStaysZero(s: nat)
    ensures ShiftLeft32(0, s) == 0
  {
    if s > 0 {
      ZeroStaysZero(s - 1);
    }
  }

  /** The portable search for the lowest set bit. */
  method FindLSBSetNonZero(n0: nat) returns (rc: nat)
    requires 0 < n0 < U32
    ensures rc == TrailingZeros(n0)
  {
    var n := n0;
    rc := 31;
    var i, shift := 4, 16;
    Pow2Values();
    ZerosBound(n, 32);
    while i >= 0
      invariant -1 <= i <= 4
      invariant shift == if i == 4 then 16 else if i == 3 then 8 else if i == 2 then 4 else if i == 1 then 2 else if i == 0 then 1 else 0
      invariant 0 < n < U32 && TrailingZeros(n) + rc == TrailingZeros(n0) + 31
      invariant 32 - (if i >= 0 then 2 * shift else 1) <= TrailingZeros(n) <= 31
    {
      ShiftAddsZeros(n, shift);
      var x := ShiftLeft32(n, shift);
      if x != 0 {
        n := x;
        rc := rc - shift;
      }
      ZerosBound(n, 32);
      shift := shift / 2;
      i := i - 1;
    }
  }

  /** The 64-bit search looks into the bottom half first. */
  method FindLSBSetNonZero64(n: nat) returns (rc: nat)
    requires 0 < n < U64
    ensures rc == TrailingZeros(n)
  {
    var bottomBits := n % U32;
    Pow2Values();
    if bottomBits == 0 {
      ShiftedZeros(n / U32, 32);
      var top := FindLSBSetNonZero(n / U32);
      rc := 32 + top;
    } else {
      HighBitsIgnored(bottomBits, n / U32, 32);
      rc := FindLSBSetNonZero(bottomBits);
    }
  }

  /** x >> s. */
  function ShiftRight(x: nat, s: nat): nat
  {
    if s == 0 then x else ShiftRight(x / 2, s - 1)
  }

  lemma {:induction false} ShiftRightTwice(x: nat, s: nat, t: nat)
    ensures ShiftRight(ShiftRight(x, s), t) == ShiftRight(x, s + t)
    decreases s
  {
    if s > 0 {
      ShiftRightTwice(x / 2, s - 1, t);
    }
  }

  /** The shifted value has as many bits fewer as it was shifted by. */
  lemma {:induction false} ShiftRightBits(x: nat, s: nat, bits: nat)
    ensures ShiftRight(x, s) < Pow2(bits) <==> x < Pow2(s + bits)
    decreases s
  {
    if s > 0 {
      ShiftRightBits(x / 2, s - 1, bits);
    }
  }

  /** One round of Log2Floor: decides whether the highest set bit lies in the upper or the lower half of value. */
  method HalveSearch(ghost n: nat, value: nat, log: nat, shift: nat) returns (value1: nat, log1: nat)
    requires 0 < value < Pow2(shift + shift) && value == ShiftRight(n, log)
    ensures 0 < value1 < Pow2(shift) && value1 == ShiftRight(n, log1)
    ensures log <= log1 <= log + shift
  {
    var x := ShiftRight(value, shift);
    value1, log1 := value, log;
    ShiftRightBits(value, shift, shift);
    ShiftRightBits(value, shift, 0);
    if x != 0 {
      ShiftRightTwice(n, log, shift);
      value1, log1 := x, log + shift;
    }
  }

  /** The portable floor of the binary logarithm; -1 for zero. */
  method Log2Floor(n: nat) returns (log: int)
    requires n < U32
    ensures n == 0 ==> log == -1
    ensures n > 0 ==> 0 <= log <= 31 && Pow2(log) <= n < Pow2(log + 1)
  {
    hide Pow2;
    if n == 0 { return -1; }
    var value: nat := n;
    log := 0;
    var i, shift := 4, 16;
    Pow2Values();
    while i >= 0
      invariant -1 <= i <= 4
      invariant shift == if i == 4 then 16 else if i == 3 then 8 else if i == 2 then 4 else if i == 1 then 2 else if i == 0 then 1 else 0
      invariant 0 <= log <= 32 - if i >= 0 then 2 * shift else 1
      invariant 0 < value < Pow2(if i >= 0 then shift + shift else 1)
      invariant value == ShiftRight(n, log)
    {
      value, log := HalveSearch(n, value, log, shift);
      shift := shift / 2;
      i := i - 1;
    }
    ShiftRightBits(n, log, 0);
    ShiftRightBits(n, log, 1);
  }
}
