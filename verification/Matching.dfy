/** How far two places of the input agree: compared word by word, then located by a bit search. */
module Matching {
  import opened Bytes
  import opened Bits

  /** The largest n with s1[0..n] == s2[0..n] and n <= limit - s2. */
  function MatchLength(inp: seq<Byte>, s1: nat, s2: nat, limit: nat): (n: nat)
    requires s1 <= s2 <= limit <= |inp|
    ensures s2 + n <= limit
    decreases limit - s2
  {
    if s2 == limit || inp[s1] != inp[s2] then 0 else 1 + MatchLength(inp, s1 + 1, s2 + 1, limit)
  }

  /** n is the match length exactly if n bytes agree and the next ones, if any, do not. */
  lemma {:induction false} MatchLengthIsLargest(inp: seq<Byte>, s1: nat, s2: nat, limit: nat, n: nat)
    requires s1 <= s2 && s2 + n <= limit <= |inp|
    ensures n == MatchLength(inp, s1, s2, limit) <==>
            inp[s1..s1 + n] == inp[s2..s2 + n] && (s2 + n < limit ==> inp[s1 + n] != inp[s2 + n])
    decreases n
  {
    var a, b := inp[s1..s1 + n], inp[s2..s2 + n];
    if n > 0 {
      assert a[1..] == inp[s1 + 1..s1 + n] && b[1..] == inp[s2 + 1..s2 + n];
      HeadAndTail(a, b);
      MatchLengthIsLargest(inp, s1 + 1, s2 + 1, limit, n - 1);
    } else {
      assert a == b;
    }
  }

  lemma HeadAndTail(a: seq<Byte>, b: seq<Byte>)
    requires |a| == |b| > 0
    ensures a == b <==> a[0] == b[0] && a[1..] == b[1..]
  {
    assert a == [a[0]] + a[1..] && b == [b[0]] + b[1..];
  }

  /** Equal bytes may be skipped. */
  lemma {:induction false} MatchSkips(inp: seq<Byte>, s1: nat, s2: nat, limit: nat, k: nat)
    requires s1 <= s2 && s2 + k <= limit <= |inp|
    requires inp[s1..s1 + k] == inp[s2..s2 + k]
    ensures MatchLength(inp, s1, s2, limit) == k + MatchLength(inp, s1 + k, s2 + k, limit)
    decreases k
  {
    if k > 0 {
      assert inp[s1] == inp[s1..s1 + k][0] && inp[s2] == inp[s2..s2 + k][0];
      assert inp[s1 + 1..s1 + k] == inp[s1..s1 + k][1..] && inp[s2 + 1..s2 + k] == inp[s2..s2 + k][1..];
      MatchSkips(inp, s1 + 1, s2 + 1, limit, k - 1);
    }
  }

  /** a ^ b, bit by bit. */
  function Xor(a: nat, b: nat): (x: nat)
    decreases a + b
  {
    if a == 0 && b == 0 then 0 else (if a % 2 == b % 2 then 0 else 1) + 2 * Xor(a / 2, b / 2)
  }

  lemma {:induction false} XorIsZero(a: nat, b: nat)
    ensures Xor(a, b) == 0 <==> a == b
    decreases a + b
  {
    if a != 0 || b != 0 {
      XorIsZero(a / 2, b / 2);
    }
  }

  lemma {:induction false} XorBound(a: nat, b: nat, k: nat)
    requires a < Pow2(k) && b < Pow2(k)
    ensures Xor(a, b) < Pow2(k)
  {
    if k > 0 && (a != 0 || b != 0) {
      XorBound(a / 2, b / 2, k - 1);
    }
  }

  /** Below the lowest set bit of a ^ b, a and b agree; at it they differ. */
  lemma XorZeros(a: nat, b: nat)
    requires a != b
    ensures Xor(a, b) > 0
    ensures a % 2 != b % 2 ==> TrailingZeros(Xor(a, b)) == 0
    ensures a % 2 == b % 2 ==> a / 2 != b / 2 && TrailingZeros(Xor(a, b)) == 1 + TrailingZeros(Xor(a / 2, b / 2))
  {
    XorIsZero(a, b);
    XorIsZero(a / 2, b / 2);
    LowestDigit(Xor(a, b), if a % 2 == b % 2 then 0 else 1, Xor(a / 2, b / 2));
  }

  lemma LowestDigit(x: nat, d: nat, y: nat)
    requires x == d + 2 * y && d < 2 && x > 0
    ensures d == 1 ==> TrailingZeros(x) == 0
    ensures d == 0 ==> y > 0 && TrailingZeros(x) == 1 + TrailingZeros(y)
  {
    assert x % 2 == d && x / 2 == y;
  }

  /** The low k bits agree. */
  predicate LowBitsAgree(a: nat, b: nat, k: nat)
  {
    k == 0 || (a % 2 == b % 2 && LowBitsAgree(a / 2, b / 2, k - 1))
  }

  lemma {:induction false} ZerosAreAgreement(a: nat, b: nat, k: nat)
    requires a != b
    ensures Xor(a, b) > 0
    ensures LowBitsAgree(a, b, k) <==> TrailingZeros(Xor(a, b)) >= k
    decreases k
  {
    XorZeros(a, b);
    if k > 0 && a % 2 == b % 2 {
      ZerosAreAgreement(a / 2, b / 2, k - 1);
    }
  }

  lemma {:induction false} AgreementSkips(a: nat, b: nat, k: nat)
    requires a != b && LowBitsAgree(a, b, k)
    ensures ShiftRight(a, k) != ShiftRight(b, k) && Xor(ShiftRight(a, k), ShiftRight(b, k)) > 0 && Xor(a, b) > 0
    ensures TrailingZeros(Xor(a, b)) == k + TrailingZeros(Xor(ShiftRight(a, k), ShiftRight(b, k)))
    decreases k
  {
    XorZeros(a, b);
    if k > 0 {
      AgreementSkips(a / 2, b / 2, k - 1);
    }
  }

  lemma EightBits(a: nat)
    ensures ShiftRight(a, 8) == a / 256
  {
    FourBits(a, 4);
    FourBits(a / 16, 0);
    assert a / 256 == a / 16 / 16;
  }

  lemma FourBits(a: nat, k: nat)
    ensures ShiftRight(a, 4 + k) == ShiftRight(a / 16, k)
  {
    var a1, a2, a3 := a / 2, a / 4, a / 8;
    assert a2 == a1 / 2 && a3 == a2 / 2 && a / 16 == a3 / 2;
    assert ShiftRight(a2, 2 + k) == ShiftRight(a3, 1 + k);
  }

  lemma ByteAgreement(a: nat, b: nat)
    ensures LowBitsAgree(a, b, 8) <==> a % 256 == b % 256
  {
    NibbleAgreement(a, b, 4);
    NibbleAgreement(a / 16, b / 16, 0);
    TwoNibbles(a);
    TwoNibbles(b);
  }

  lemma TwoNibbles(a: nat)
    ensures a % 256 == a % 16 + 16 * (a / 16 % 16)
  {
    var low, high := a % 16, a / 16;
    var middle, top := high % 16, high / 16;
    assert a == 16 * high + low && high == 16 * top + middle;
    assert a == 256 * top + (16 * middle + low);
    RemainderOf256(top, 16 * middle + low);
  }

  lemma RemainderOf256(q: nat, r: nat)
    requires r < 256
    ensures (256 * q + r) % 256 == r
  {
  }

  lemma NibbleAgreement(a: nat, b: nat, more: nat)
    ensures LowBitsAgree(a, b, 4 + more) <==> a % 16 == b % 16 && LowBitsAgree(a / 16, b / 16, more)
  {
    PairAgreement(a, b, 2 + more);
    PairAgreement(a / 4, b / 4, more);
    TwoPairs(a);
    TwoPairs(b);
  }

  lemma PairAgreement(a: nat, b: nat, more: nat)
    ensures LowBitsAgree(a, b, 2 + more) <==> a % 4 == b % 4 && LowBitsAgree(a / 4, b / 4, more)
  {
    assert a / 4 == a / 2 / 2 && a % 4 == a % 2 + 2 * (a / 2 % 2);
    assert b / 4 == b / 2 / 2 && b % 4 == b % 2 + 2 * (b / 2 % 2);
  }

  lemma TwoPairs(a: nat)
    ensures a % 16 == a % 4 + 4 * (a / 4 % 4) && a / 16 == a / 4 / 4
  {
  }

  /** A word load: w bytes, little-endian. */
  function LoadWord(inp: seq<Byte>, i: nat, w: nat): nat
    requires i + w <= |inp|
  {
    LittleEndian(inp[i..i + w])
  }

  lemma {:induction false} LoadBound(inp: seq<Byte>, i: nat, w: nat)
    requires i + w <= |inp|
    ensures LoadWord(inp, i, w) < Pow2(8 * w)
    decreases w
  {
    if w > 0 {
      LoadBound(inp, i + 1, w - 1);
      LoadSplits(inp, i, w);
      EightMore(8 * (w - 1));
    }
  }

  lemma LoadSplits(inp: seq<Byte>, i: nat, w: nat)
    requires w > 0 && i + w <= |inp|
    ensures LoadWord(inp, i, w) == inp[i] as int + 256 * LoadWord(inp, i + 1, w - 1)
    ensures LoadWord(inp, i, w) % 256 == inp[i] as int && LoadWord(inp, i, w) / 256 == LoadWord(inp, i + 1, w - 1)
  {
    assert inp[i..i + w][1..] == inp[i + 1..i + 1 + (w - 1)];
    LowestByte(inp[i], LoadWord(inp, i + 1, w - 1));
  }

  /** Where two words differ, the lowest set bit of their exclusive or lies in the first byte that differs. */
  lemma {:induction false} DifferingWords(inp: seq<Byte>, s1: nat, s2: nat, limit: nat, w: nat)
    requires s1 <= s2 && s2 + w <= limit <= |inp|
    requires LoadWord(inp, s1, w) != LoadWord(inp, s2, w)
    ensures Xor(LoadWord(inp, s1, w), LoadWord(inp, s2, w)) > 0
    ensures MatchLength(inp, s1, s2, limit) == TrailingZeros(Xor(LoadWord(inp, s1, w), LoadWord(inp, s2, w))) / 8
    decreases w
  {
    var a, b := LoadWord(inp, s1, w), LoadWord(inp, s2, w);
    LoadSplits(inp, s1, w);
    LoadSplits(inp, s2, w);
    ByteAgreement(a, b);
    ZerosAreAgreement(a, b, 8);
    if inp[s1] == inp[s2] {
      AgreementSkips(a, b, 8);
      EightBits(a);
      EightBits(b);
      DifferingWords(inp, s1 + 1, s2 + 1, limit, w - 1);
    }
  }

  /** Where two words agree, so do their bytes. */
  lemma EqualWords(inp: seq<Byte>, s1: nat, s2: nat, limit: nat, w: nat)
    requires s1 <= s2 && s2 + w <= limit <= |inp|
    requires LoadWord(inp, s1, w) == LoadWord(inp, s2, w)
    ensures MatchLength(inp, s1, s2, limit) == w + MatchLength(inp, s1 + w, s2 + w, limit)
  {
    LittleEndianInjective(inp[s1..s1 + w], inp[s2..s2 + w]);
    MatchSkips(inp, s1, s2, limit, w);
  }

  lemma XorOfWords(inp: seq<Byte>, i: nat, j: nat, w: nat)
    requires i + w <= |inp| && j + w <= |inp|
    ensures Xor(LoadWord(inp, i, w), LoadWord(inp, j, w)) < Pow2(8 * w)
  {
    LoadBound(inp, i, w);
    LoadBound(inp, j, w);
    XorBound(LoadWord(inp, i, w), LoadWord(inp, j, w), 8 * w);
  }

  /** The match length of two differing 64-bit words. */
  method DifferenceIn64(inp: seq<Byte>, s1: nat, s2: nat, limit: nat) returns (n: nat)
    requires s1 <= s2 && s2 + 8 <= limit <= |inp| && LoadWord(inp, s1, 8) != LoadWord(inp, s2, 8)
    ensures n == MatchLength(inp, s1, s2, limit) < 8
  {
    DifferingWords(inp, s1, s2, limit, 8);
    XorOfWords(inp, s1, s2, 8);
    Pow2Values();
    var x := Xor(LoadWord(inp, s1, 8), LoadWord(inp, s2, 8));
    var matchingBits := FindLSBSetNonZero64(x);
    ZerosBound(x, 64);
    n := matchingBits / 8;
  }

  /** The byte loop at the end of both versions, with matched bytes known to agree. */
  method MatchBytes(inp: seq<Byte>, s1: nat, s20: nat, matched0: nat, limit: nat) returns (matched: nat)
    requires s1 <= s20 && s20 + matched0 <= limit <= |inp|
    requires MatchLength(inp, s1, s20, limit) == matched0 + MatchLength(inp, s1 + matched0, s20 + matched0, limit)
    ensures matched == MatchLength(inp, s1, s20, limit)
  {
    matched := matched0;
    var s2 := s20 + matched;
    while s2 < limit
      invariant s2 == s20 + matched <= limit
      invariant MatchLength(inp, s1, s20, limit) == matched + MatchLength(inp, s1 + matched, s2, limit)
    {
      if inp[s1 + matched] == inp[s2] {
        s2 := s2 + 1;
        matched := matched + 1;
      } else {
        return;
      }
    }
  }

  /** The word loop of the 64-bit version; done if a differing word has settled the match. */
  method MatchWords(inp: seq<Byte>, s1: nat, s20: nat, matched0: nat, limit: nat) returns (matched: nat, done: bool)
    requires s1 <= s20 && s20 + matched0 <= limit <= |inp|
    requires MatchLength(inp, s1, s20, limit) == matched0 + MatchLength(inp, s1 + matched0, s20 + matched0, limit)
    ensures matched0 <= matched && s20 + matched <= limit && (matched0 == matched || s20 + matched0 + 8 <= limit)
    ensures done ==> matched == MatchLength(inp, s1, s20, limit) && s20 + matched0 + 8 <= limit
    ensures !done ==> MatchLength(inp, s1, s20, limit) == matched + MatchLength(inp, s1 + matched, s20 + matched, limit)
  {
    hide MatchLength, LoadWord;
    matched := matched0;
    var s2 := s20 + matched;
    while s2 + 8 <= limit
      invariant s2 == s20 + matched <= limit && matched0 <= matched && (matched0 == matched || s20 + matched0 + 8 <= limit)
      invariant MatchLength(inp, s1, s20, limit) == matched + MatchLength(inp, s1 + matched, s2, limit)
    {
      if LoadWord(inp, s2, 8) == LoadWord(inp, s1 + matched, 8) {
        EqualWords(inp, s1 + matched, s2, limit, 8);
        s2 := s2 + 8;
        matched := matched + 8;
      } else {
        var more := DifferenceIn64(inp, s1 + matched, s2, limit);
        matched := matched + more;
        return matched, true;
      }
    }
    done := false;
  }

  /** FindMatchLength for 64-bit little-endian machines. */
  method FindMatchLength(inp: seq<Byte>, s1: nat, s2: nat, limit: nat) returns (matched: nat, lessThan8: bool)
    requires s1 <= s2 <= limit <= |inp|
    ensures matched == MatchLength(inp, s1, s2, limit)
    ensures lessThan8 <==> matched < 8
  {
    matched := 0;
    if s2 + 8 <= limit {
      if LoadWord(inp, s1, 8) != LoadWord(inp, s2, 8) {
        matched := DifferenceIn64(inp, s1, s2, limit);
        return matched, true;
      } else {
        EqualWords(inp, s1, s2, limit, 8);
        matched := 8;
      }
    }
    var done;
    matched, done := MatchWords(inp, s1, s2, matched, limit);
    if done { return matched, false; }
    matched := MatchBytes(inp, s1, s2, matched, limit);
    lessThan8 := matched < 8;
  }

  /** The portable version of FindMatchLength, with 32-bit words. */
  method FindMatchLengthPortable(inp: seq<Byte>, s1: nat, s20: nat, limit: nat) returns (matched: nat, lessThan8: bool)
    requires s1 <= s20 <= limit <= |inp|
    ensures matched == MatchLength(inp, s1, s20, limit)
    ensures lessThan8 <==> matched < 8
  {
    var s2 := s20;
    matched := 0;
    while s2 + 4 <= limit && LoadWord(inp, s2, 4) == LoadWord(inp, s1 + matched, 4)
      invariant s2 == s20 + matched <= limit
      invariant MatchLength(inp, s1, s20, limit) == matched + MatchLength(inp, s1 + matched, s2, limit)
    {
      EqualWords(inp, s1 + matched, s2, limit, 4);
      s2 := s2 + 4;
      matched := matched + 4;
    }
    if s2 + 4 <= limit {
      var more := DifferenceIn32(inp, s1 + matched, s2, limit);
      matched := matched + more;
    } else {
      matched := MatchBytes(inp, s1, s20, matched, limit);
    }
    lessThan8 := matched < 8;
  }

  /** The match length of two differing 32-bit words. */
  method DifferenceIn32(inp: seq<Byte>, s1: nat, s2: nat, limit: nat) returns (n: nat)
    requires s1 <= s2 && s2 + 4 <= limit <= |inp| && LoadWord(inp, s1, 4) != LoadWord(inp, s2, 4)
    ensures n == MatchLength(inp, s1, s2, limit) < 4
  {
    DifferingWords(inp, s1, s2, limit, 4);
    XorOfWords(inp, s1, s2, 4);
    Pow2Values();
    var x := Xor(LoadWord(inp, s1, 4), LoadWord(inp, s2, 4));
    var matchingBits := FindLSBSetNonZero(x);
    ZerosBound(x, 32);
    n := matchingBits / 8;
  }

  /** v >> 8 * k. */
  function DropBytes(v: nat, k: nat): nat
    decreases k
  {
    if k == 0 then v else DropBytes(v / 256, k - 1)
  }

  /** The 32-bit word at a byte offset inside an eight-byte word. */
  function GetUint32AtOffset(v: nat, offset: nat): nat
    requires offset <= 4
  {
    DropBytes(v, offset) % U32
  }

  lemma {:induction false} DroppedBytes(inp: seq<Byte>, i: nat, w: nat, k: nat)
    requires i + w <= |inp| && k <= w
    ensures DropBytes(LoadWord(inp, i, w), k) == LoadWord(inp, i + k, w - k)
    decreases k
  {
    if k > 0 {
      LoadSplits(inp, i, w);
      DroppedBytes(inp, i + 1, w - 1, k - 1);
    }
  }

  lemma LowWord(inp: seq<Byte>, i: nat, w: nat)
    requires i + w <= |inp| && w >= 4
    ensures LoadWord(inp, i, w) % U32 == Load32(inp, i)
  {
    LoadSplits(inp, i, w);
    LoadSplits(inp, i + 1, w - 1);
    LoadSplits(inp, i + 2, w - 2);
    LoadSplits(inp, i + 3, w - 3);
    SplitWord(Load32(inp, i), LoadWord(inp, i + 4, w - 4), LoadWord(inp, i, w));
  }

  lemma SplitWord(low: nat, high: nat, v: nat)
    requires low < U32 && v == low + U32 * high
    ensures v % U32 == low
  {
  }

  /** Taking a word out of an eight-byte load is loading it at its own position. */
  lemma OverlappingLoads(inp: seq<Byte>, i: nat, offset: nat)
    requires i + 8 <= |inp| && offset <= 4
    ensures GetUint32AtOffset(LoadWord(inp, i, 8), offset) == Load32(inp, i + offset)
  {
    DroppedBytes(inp, i, 8, offset);
    LowWord(inp, i + offset, 8 - offset);
  }
}
