/** Bytes, little-endian numbers and the two integer widths the codec relies on. */
module Bytes {

  type Byte = b: int | 0 <= b < 256

  /** Number of values of a uint32 and of a 64-bit size_t. */
  const U32 := 0x1_0000_0000
  const U64 := 0x1_0000_0000_0000_0000

  /** The size of a compression block, and of the blocks that scattered output is kept in. */
  const BLOCK_SIZE := 65536

  datatype Option<+T> = None | Some(value: T)

  /** The value of a little-endian number of any width. */
  function LittleEndian(s: seq<Byte>): nat
  {
    if s == [] then 0 else s[0] as int + 256 * LittleEndian(s[1..])
  }

  /** An unaligned 32-bit little-endian load at index i. */
  function Load32(s: seq<Byte>, i: nat): (word: nat)
    requires i + 4 <= |s|
    ensures word < U32
  {
    s[i] as int + 256 * s[i + 1] as int + 65536 * s[i + 2] as int + 16777216 * s[i + 3] as int
  }

  /** An unsigned subtraction of one wraps below zero. */
  function MinusOneU64(n: nat): nat
  {
    if n == 0 then U64 - 1 else n - 1
  }

  /** Two loads agree exactly when the four bytes do. */
  lemma SameLoadSameBytes(s: seq<Byte>, i: nat, j: nat)
    requires i + 4 <= |s| && j + 4 <= |s|
    ensures Load32(s, i) == Load32(s, j) <==> s[i..i + 4] == s[j..j + 4]
  {
    var a, b := s[i..i + 4], s[j..j + 4];
    assert a == [s[i], s[i + 1], s[i + 2], s[i + 3]];
    assert b == [s[j], s[j + 1], s[j + 2], s[j + 3]];
    if Load32(s, i) == Load32(s, j) {
      FourDigits(s[i], s[i + 1], s[i + 2], s[i + 3], s[j], s[j + 1], s[j + 2], s[j + 3]);
    }
  }

  lemma FourDigits(a0: Byte, a1: Byte, a2: Byte, a3: Byte, b0: Byte, b1: Byte, b2: Byte, b3: Byte)
    requires a0 as int + 256 * a1 as int + 65536 * a2 as int + 16777216 * a3 as int
          == b0 as int + 256 * b1 as int + 65536 * b2 as int + 16777216 * b3 as int
    ensures a0 == b0 && a1 == b1 && a2 == b2 && a3 == b3
  {
    var x, y := a1 as int + 256 * a2 as int + 65536 * a3 as int, b1 as int + 256 * b2 as int + 65536 * b3 as int;
    assert a0 as int + 256 * x == b0 as int + 256 * y;
    assert x == y;
  }

  lemma {:induction false} LittleEndianInjective(x: seq<Byte>, y: seq<Byte>)
    requires |x| == |y|
    ensures LittleEndian(x) == LittleEndian(y) <==> x == y
  {
    if x != [] {
      LowestByte(x[0], LittleEndian(x[1..]));
      LowestByte(y[0], LittleEndian(y[1..]));
      LittleEndianInjective(x[1..], y[1..]);
      assert x == [x[0]] + x[1..] && y == [y[0]] + y[1..];
    }
  }

  lemma LowestByte(b: Byte, high: nat)
    ensures (b as int + 256 * high) % 256 == b as int && (b as int + 256 * high) / 256 == high
  {
  }
}
