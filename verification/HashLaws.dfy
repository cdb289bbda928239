/** What the hash function is: a multiplication in 32 bits by one odd number, of which the top bits are kept. */
module HashLaws {
  import opened Bytes
  import opened Bits
  import opened HashTable

  lemma Unshifted(w: nat)
    ensures HashBytes(w, 0) == w * 0x1e35a7bd % U32
  {
    assert MULTIPLIER == 0x1e35a7bd;
  }

  /** The hash of the number 1 is the multiplier. */
  lemma HashOfOne()
    ensures HashBytes(1, 0) == 0x1e35a7bd
  {
    Unshifted(1);
  }

  /** Hashing is linear in 32 bits. */
  lemma HashIsAdditive(a: nat, b: nat)
    requires a < U32 && b < U32
    ensures HashBytes((a + b) % U32, 0) == (HashBytes(a, 0) + HashBytes(b, 0)) % U32
  {
    Unshifted(a);
    Unshifted(b);
    Unshifted((a + b) % U32);
    SumOfProducts(a, b, (a + b) % U32);
  }

  lemma SumOfProducts(a: nat, b: nat, c: nat)
    requires a < U32 && b < U32 && c == (a + b) % U32
    ensures c * 0x1e35a7bd % U32 == (a * 0x1e35a7bd % U32 + b * 0x1e35a7bd % U32) % U32
  {
    var q, qa, qb := (a + b) / U32, a * 0x1e35a7bd / U32, b * 0x1e35a7bd / U32;
    var ra, rb := a * 0x1e35a7bd % U32, b * 0x1e35a7bd % U32;
    assert a + b == q * U32 + c;
    assert a * 0x1e35a7bd == qa * U32 + ra && b * 0x1e35a7bd == qb * U32 + rb;
    assert c * 0x1e35a7bd == ra + rb + (qa + qb - q * 0x1e35a7bd) * U32;
    SameRemainder(c * 0x1e35a7bd, ra + rb, qa + qb - q * 0x1e35a7bd);
  }

  lemma SameRemainder(x: int, y: int, k: int)
    requires x == y + k * U32
    ensures x % U32 == y % U32
  {
  }

  /** No two words have the same hash before the low bits are dropped: the multiplier has an inverse in 32 bits. */
  lemma HashIsInjective(a: nat, b: nat)
    requires a < U32 && b < U32 && HashBytes(a, 0) == HashBytes(b, 0)
    ensures a == b
  {
    Unshifted(a);
    Unshifted(b);
    Inverted(a);
    Inverted(b);
  }

  lemma Inverted(w: nat)
    requires w < U32
    ensures w * 0x1e35a7bd % U32 * 582306709 % U32 == w
  {
    var q, r := w * 0x1e35a7bd / U32, w * 0x1e35a7bd % U32;
    assert w * 0x1e35a7bd == q * U32 + r;
    assert 0x1e35a7bd * 582306709 == 1 + 68715810 * U32;
    assert r * 582306709 == w + (68715810 * w - q * 582306709) * U32;
    SameRemainder(r * 582306709, w, 68715810 * w - q * 582306709);
  }

  /** A shifted hash is what is left of the product without its low bits. */
  lemma HashKeepsTopBits(w: nat, s: nat)
    ensures HashBytes(w, s) * Pow2(s) <= HashBytes(w, 0) < (HashBytes(w, s) + 1) * Pow2(s)
  {
    ShiftRightWindow(Product32(w, MULTIPLIER), s);
  }

  /** The hash of a table with Pow2(bits) entries keeps that many bits. */
  lemma TableHash(bits: nat, w: nat)
    requires bits <= 32
    ensures var h := HashWithBits(bits)(w);
            h * Pow2(32 - bits) <= w * 0x1e35a7bd % U32 < (h + 1) * Pow2(32 - bits)
  {
    Unshifted(w);
    HashKeepsTopBits(w, 32 - bits);
  }

  lemma {:induction false} ShiftRightWindow(x: nat, s: nat)
    ensures ShiftRight(x, s) * Pow2(s) <= x < (ShiftRight(x, s) + 1) * Pow2(s)
    decreases s
  {
    if s > 0 {
      var r, p := ShiftRight(x, s), Pow2(s - 1);
      ShiftRightWindow(x / 2, s - 1);
      DoubledFactor(r, p);
      DoubledFactor(r + 1, p);
      HalfWindow(x, r * p, (r + 1) * p);
    }
  }

  lemma HalfWindow(x: nat, low: nat, high: nat)
    requires low <= x / 2 < high
    ensures 2 * low <= x < 2 * high
  {
  }
}
