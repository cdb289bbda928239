/** The byte encodings of literals and copies that the compressor uses, and what they decode to. */
module Elements {
  import opened Bytes
  import opened Format

  /** The bytes of n, least significant first, as few as possible. */
  function LengthBytes(n: nat): (s: seq<Byte>)
    ensures n > 0 ==> s != []
  {
    if n == 0 then [] else [n % 256] + LengthBytes(n / 256)
  }

  function LiteralHeader(len: nat): (s: seq<Byte>)
    requires 0 < len < U32
    ensures s != []
  {
    var n := len - 1;
    if n < 60 then [4 * n]
    else
      LengthBytesSize(n);
      [4 * (59 + |LengthBytes(n)|)] + LengthBytes(n)
  }

  function LiteralElement(literal: seq<Byte>): seq<Byte>
    requires 0 < |literal| < U32
  {
    LiteralHeader(|literal|) + literal
  }

  /** One copy tag. */
  function CopyPiece(offset: nat, len: nat): (s: seq<Byte>)
    requires offset < 65536 && 4 <= len <= 64
    ensures 2 <= |s| <= 3
  {
    if len < 12 && offset < 2048 then [1 + 4 * (len - 4) + 32 * (offset / 256), offset % 256]
    else [2 + 4 * (len - 1), offset % 256, offset / 256]
  }

  /** A copy of any length, split so that every piece has length 4 to 64. */
  function CopyElement(offset: nat, len: nat): (s: seq<Byte>)
    requires offset < 65536 && len >= 4
    ensures s != []
    decreases len
  {
    if len >= 68 then CopyPiece(offset, 64) + CopyElement(offset, len - 64)
    else if len > 64 then CopyPiece(offset, 60) + CopyPiece(offset, len - 60)
    else CopyPiece(offset, len)
  }

  /** In every stream with enough room, decoding bytes turns the output before into the output after. */
  ghost predicate Yields(bytes: seq<Byte>, before: seq<Byte>, after: seq<Byte>)
  {
    && |before| <= |after|
    && forall rest: seq<Byte>, limit: nat :: |after| <= limit ==>
         DecodeElements(bytes + rest, before, limit) == DecodeElements(rest, after, limit)
  }

  lemma YieldsNothing(out: seq<Byte>)
    ensures Yields([], out, out)
  {
    forall rest: seq<Byte>, limit: nat
      ensures DecodeElements([] + rest, out, limit) == DecodeElements(rest, out, limit)
    {
      assert [] + rest == rest;
    }
  }

  lemma YieldsConcat(a: seq<Byte>, b: seq<Byte>, x: seq<Byte>, y: seq<Byte>, z: seq<Byte>)
    requires Yields(a, x, y) && Yields(b, y, z)
    ensures Yields(a + b, x, z)
  {
    hide DecodeElements;
    forall rest: seq<Byte>, limit: nat | |z| <= limit
      ensures DecodeElements((a + b) + rest, x, limit) == DecodeElements(rest, z, limit)
    {
      assert (a + b) + rest == a + (b + rest);
    }
  }

  lemma {:induction false} LengthBytesSize(n: nat)
    requires n < U32
    ensures |LengthBytes(n)| <= 4
    ensures n < 16777216 ==> |LengthBytes(n)| <= 3
    ensures n < 65536 ==> |LengthBytes(n)| <= 2
    ensures n < 256 ==> |LengthBytes(n)| <= 1
    ensures n == 0 ==> |LengthBytes(n)| == 0
  {
    if n > 0 {
      LengthBytesSize(n / 256);
    }
  }

  lemma {:induction false} LengthBytesValue(n: nat)
    ensures LittleEndian(LengthBytes(n)) == n
  {
    if n > 0 {
      LengthBytesValue(n / 256);
      assert LengthBytes(n)[1..] == LengthBytes(n / 256);
    }
  }

  lemma HeaderIsParsed(len: nat, rest: seq<Byte>)
    requires 0 < len < U32
    ensures ParseTag(LiteralHeader(len) + rest) == Some((LiteralTag(len), |LiteralHeader(len)|))
  {
    var n := len - 1;
    var c := LiteralHeader(len) + rest;
    if n >= 60 {
      LengthBytesSize(n);
      LengthBytesValue(n);
      var k := |LengthBytes(n)|;
      assert c[0] == 4 * (59 + k) && TagExtra(c[0]) == k;
      assert c[1..1 + k] == LengthBytes(n);
    }
  }

  /** An emitted literal appends its bytes. */
  lemma LiteralYields(literal: seq<Byte>, out: seq<Byte>)
    requires 0 < |literal| < U32
    ensures Yields(LiteralElement(literal), out, out + literal)
  {
    var header := LiteralHeader(|literal|);
    forall rest: seq<Byte>, limit: nat | |out + literal| <= limit
      ensures DecodeElements(LiteralElement(literal) + rest, out, limit) == DecodeElements(rest, out + literal, limit)
    {
      assert LiteralElement(literal) + rest == header + (literal + rest);
      HeaderIsParsed(|literal|, literal + rest);
      assert (header + (literal + rest))[|header|..] == literal + rest;
      assert (literal + rest)[|literal|..] == rest && (literal + rest)[..|literal|] == literal;
    }
  }

  lemma PieceIsParsed(offset: nat, len: nat, rest: seq<Byte>)
    requires offset < 65536 && 4 <= len <= 64
    ensures ParseTag(CopyPiece(offset, len) + rest) == Some((CopyTag(offset, len), |CopyPiece(offset, len)|))
  {
    var piece := CopyPiece(offset, len);
    var c := piece + rest;
    if len < 12 && offset < 2048 {
      OneByteOffset(offset, len, c[0]);
      assert c[1..2] == [offset % 256];
      assert LittleEndian([offset % 256]) == offset % 256 + 256 * LittleEndian([]);
    } else {
      assert c[1..3] == [offset % 256, offset / 256];
      assert [offset % 256, offset / 256][1..] == [offset / 256];
      assert LittleEndian([offset / 256]) == offset / 256;
      assert LittleEndian([offset % 256, offset / 256]) == offset;
      assert c[0] / 4 == len - 1 && c[0] % 4 == 2;
    }
  }

  lemma OneByteOffset(offset: nat, len: nat, t: Byte)
    requires offset < 2048 && 4 <= len < 12 && t == 1 + 4 * (len - 4) + 32 * (offset / 256)
    ensures t % 4 == 1 && t / 32 == offset / 256 && t / 4 % 8 + 4 == len
  {
  }

  /** An emitted copy tag performs its copy. */
  lemma PieceYields(offset: nat, len: nat, out: seq<Byte>)
    requires 1 <= offset < 65536 && offset <= |out| && 4 <= len <= 64
    ensures Yields(CopyPiece(offset, len), out, CopyBytes(out, offset, len))
  {
    var piece := CopyPiece(offset, len);
    forall rest: seq<Byte>, limit: nat | |CopyBytes(out, offset, len)| <= limit
      ensures DecodeElements(piece + rest, out, limit) == DecodeElements(rest, CopyBytes(out, offset, len), limit)
    {
      PieceIsParsed(offset, len, rest);
      assert (piece + rest)[|piece|..] == rest;
    }
  }

  lemma PieceFirst(more: seq<Byte>, offset: nat, a: nat, b: nat, out: seq<Byte>)
    requires 1 <= offset < 65536 && offset <= |out| && 4 <= a <= 64
    requires Yields(more, CopyBytes(out, offset, a), CopyBytes(CopyBytes(out, offset, a), offset, b))
    ensures Yields(CopyPiece(offset, a) + more, out, CopyBytes(out, offset, a + b))
  {
    PieceYields(offset, a, out);
    CopyConcat(out, offset, a, b);
    YieldsConcat(CopyPiece(offset, a), more, out, CopyBytes(out, offset, a), CopyBytes(out, offset, a + b));
  }

  /** An emitted copy of any length has the effect of one overlapping copy. */
  lemma {:induction false} CopyYields(offset: nat, len: nat, out: seq<Byte>)
    requires 1 <= offset < 65536 && offset <= |out| && len >= 4
    ensures Yields(CopyElement(offset, len), out, CopyBytes(out, offset, len))
    decreases len
  {
    hide Yields;
    if len >= 68 {
      CopyYields(offset, len - 64, CopyBytes(out, offset, 64));
      PieceFirst(CopyElement(offset, len - 64), offset, 64, len - 64, out);
    } else if len > 64 {
      PieceYields(offset, len - 60, CopyBytes(out, offset, 60));
      PieceFirst(CopyPiece(offset, len - 60), offset, 60, len - 60, out);
    } else {
      PieceYields(offset, len, out);
    }
  }

  /** A literal costs at most one byte more than it holds up to 60 bytes, two up to 256, three up to 65536. */
  lemma LiteralSize(literal: seq<Byte>)
    requires 0 < |literal| <= 65536
    ensures |LiteralElement(literal)| <= |literal| + (if |literal| <= 60 then 1 else if |literal| <= 256 then 2 else 3)
  {
    LengthBytesSize(|literal| - 1);
  }

  /** A copy is at least one byte shorter than what it produces. */
  lemma {:induction false} CopySize(offset: nat, len: nat)
    requires offset < 65536 && len >= 4
    ensures |CopyElement(offset, len)| <= len - 1
    decreases len
  {
    if len >= 68 {
      CopySize(offset, len - 64);
    }
  }
}
