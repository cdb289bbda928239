/** What the encodings of literals and copies are, said without the functions that build them. */
module Encodings {
  import opened Bytes
  import opened Format
  import opened Elements
  import opened Semantics

  /** The tag of a copy takes two bytes exactly if a length of three bits and an offset of eleven bits will do. */
  lemma PieceSize(offset: nat, len: nat)
    requires offset < 65536 && 4 <= len <= 64
    ensures |CopyPiece(offset, len)| == if len < 12 && offset < 2048 then 2 else 3
  {
  }

  /** No other tag for the copy is as short. */
  lemma ShortestCopy(offset: nat, len: nat, p: seq<Byte>)
    requires offset < 65536 && 4 <= len <= 64
    requires p != [] && ParseTag(p) == Some((CopyTag(offset, len), |p|))
    ensures p == CopyPiece(offset, len) || |p| > |CopyPiece(offset, len)|
  {
    var t := p[0];
    if t % 4 == 1 {
      assert p[1..2] == [p[1]] && LittleEndian([p[1]]) == p[1] as int + 256 * LittleEndian([]);
      OneByteTag(t, p[1], offset, len);
      assert p == [t, p[1]];
    } else if t % 4 == 2 {
      assert p[1..3] == [p[1], p[2]] && [p[1], p[2]][1..] == [p[2]];
      assert LittleEndian([p[2]]) == p[2];
      assert LittleEndian([p[1], p[2]]) == p[1] as int + 256 * p[2] as int;
      assert t == 2 + 4 * (len - 1);
      assert p == [t, p[1], p[2]];
    }
  }

  lemma OneByteTag(t: Byte, b: Byte, offset: nat, len: nat)
    requires t % 4 == 1 && t / 32 * 256 + b as int == offset && t / 4 % 8 + 4 == len
    ensures len < 12 && offset < 2048 && b == offset % 256 && t == 1 + 4 * (len - 4) + 32 * (offset / 256)
  {
    assert t == 32 * (t / 32) + 4 * (t / 4 % 8) + t % 4;
  }

  lemma {:induction false} LengthBytesCount(n: nat)
    requires n < U32
    ensures |LengthBytes(n)| == if n == 0 then 0 else if n < 256 then 1 else if n < 65536 then 2 else if n < 16777216 then 3 else 4
  {
    if n > 0 {
      LengthBytesCount(n / 256);
    }
  }

  /** The size of a literal's tag and length. */
  lemma HeaderSize(len: nat)
    requires 0 < len < U32
    ensures |LiteralHeader(len)| ==
            if len <= 60 then 1 else if len <= 256 then 2 else if len <= 65536 then 3 else if len <= 16777216 then 4 else 5
  {
    LengthBytesCount(len - 1);
  }

  /** The shortest little-endian form of a number is unique. */
  lemma {:induction false} ShortestLength(s: seq<Byte>, n: nat)
    requires LittleEndian(s) == n && |s| <= |LengthBytes(n)|
    ensures s == LengthBytes(n)
  {
    if n > 0 {
      LowestByte(s[0], LittleEndian(s[1..]));
      ShortestLength(s[1..], n / 256);
      assert s == [s[0]] + s[1..];
    }
  }

  /** No other tag for a literal is as short. */
  lemma ShortestLiteral(len: nat, p: seq<Byte>)
    requires 0 < len < U32
    requires p != [] && ParseTag(p) == Some((LiteralTag(len), |p|))
    ensures p == LiteralHeader(len) || |p| > |LiteralHeader(len)|
  {
    var t, n := p[0], len - 1;
    if t / 4 < 60 {
      assert p == [t] && t == 4 * n;
    } else {
      var s, k := p[1..], t / 4 - 59;
      assert p[1..1 + k] == s && p == [t] + s;
      SmallerThanWord(s);
      assert LittleEndian(s) == n;
      if n < 60 {
      } else if |s| <= |LengthBytes(n)| {
        ShortestLength(s, n);
        assert t == 4 * (59 + k);
      }
    }
  }

  lemma SmallerThanWord(s: seq<Byte>)
    requires |s| <= 4
    ensures LittleEndian(s) < U32
  {
    if |s| > 0 {
      assert LittleEndian(s) == s[0] as int + 256 * LittleEndian(s[1..]);
      if |s| > 1 {
        assert LittleEndian(s[1..]) == s[1] as int + 256 * LittleEndian(s[2..]);
        if |s| > 2 {
          assert LittleEndian(s[2..]) == s[2] as int + 256 * LittleEndian(s[3..]);
          if |s| > 3 {
            assert LittleEndian(s[3..]) == s[3] as int + 256 * LittleEndian(s[4..]);
          }
        }
      }
    }
  }

  /** One copy tag in front of other elements. */
  lemma PieceThenElements(offset: nat, len: nat, rest: seq<Byte>)
    requires offset < 65536 && 4 <= len <= 64
    ensures Semantics.Elements(CopyPiece(offset, len) + rest) ==
            match Semantics.Elements(rest) case None => None case Some(es) => Some([Copy(offset, len)] + es)
  {
    PieceIsParsed(offset, len, rest);
    assert (CopyPiece(offset, len) + rest)[|CopyPiece(offset, len)|..] == rest;
  }

  /** The pieces of a copy: as many of length 64 as leave at least four bytes, then the rest in one piece, or in one of
      length 60 and another if it is longer than 64. */
  function Pieces(offset: nat, len: nat): seq<Element>
    requires len >= 4
  {
    var rest := len - (len - 4) / 64 * 64;
    seq((len - 4) / 64, _ => Copy(offset, 64))
    + if rest > 64 then [Copy(offset, 60), Copy(offset, rest - 60)] else [Copy(offset, rest)]
  }

  lemma {:induction false} CopyPieces(offset: nat, len: nat)
    requires offset < 65536 && len >= 4
    ensures Semantics.Elements(CopyElement(offset, len)) == Some(Pieces(offset, len))
    decreases len
  {
    hide Semantics.Elements, CopyPiece;
    if len >= 68 {
      PieceThenElements(offset, 64, CopyElement(offset, len - 64));
      CopyPieces(offset, len - 64);
      PiecesStep(offset, len);
    } else if len > 64 {
      PieceThenElements(offset, 60, CopyPiece(offset, len - 60));
      LastPiece(offset, len - 60);
      assert [Copy(offset, 60)] + [Copy(offset, len - 60)] == [Copy(offset, 60), Copy(offset, len - 60)] == Pieces(offset, len);
    } else {
      LastPiece(offset, len);
      assert Pieces(offset, len) == [Copy(offset, len)];
    }
  }

  lemma OneWholeLess(len: nat)
    requires len >= 68
    ensures (len - 64 - 4) / 64 == (len - 4) / 64 - 1
  {
  }

  lemma PiecesStep(offset: nat, len: nat)
    requires len >= 68
    ensures Pieces(offset, len) == [Copy(offset, 64)] + Pieces(offset, len - 64)
  {
    OneWholeLess(len);
  }

  lemma LastPiece(offset: nat, len: nat)
    requires offset < 65536 && 4 <= len <= 64
    ensures Semantics.Elements(CopyPiece(offset, len)) == Some([Copy(offset, len)])
  {
    PieceThenElements(offset, len, []);
    assert CopyPiece(offset, len) + [] == CopyPiece(offset, len);
    assert [Copy(offset, len)] + [] == [Copy(offset, len)];
  }

  /** The exact number of bytes that a copy takes. */
  lemma {:induction false} CopyElementSize(offset: nat, len: nat)
    requires offset < 65536 && len >= 4
    ensures var whole, rest := (len - 4) / 64, len - (len - 4) / 64 * 64;
            var last := if rest > 64 then rest - 60 else rest;
            |CopyElement(offset, len)|
            == 3 * whole + (if rest > 64 then 3 else 0) + if last < 12 && offset < 2048 then 2 else 3
    decreases len
  {
    hide CopyPiece;
    if len >= 68 {
      OneWholeLess(len);
      PieceSize(offset, 64);
      CopyElementSize(offset, len - 64);
    } else if len > 64 {
      PieceSize(offset, 60);
      PieceSize(offset, len - 60);
    } else {
      PieceSize(offset, len);
    }
  }

  /** The tags of the format. A literal: a length up to 60 in the tag byte. */
  lemma ShortLiteralTag(len: nat, rest: seq<Byte>)
    requires 1 <= len <= 60
    ensures ParseTag([4 * (len - 1)] + rest) == Some((LiteralTag(len), 1))
  {
  }

  /** A literal: any length in one to four bytes behind the tag byte. */
  lemma LongLiteralTag(s: seq<Byte>, rest: seq<Byte>)
    requires 1 <= |s| <= 4 && LittleEndian(s) + 1 < U32
    ensures ParseTag([4 * (59 + |s|)] + s + rest) == Some((LiteralTag(LittleEndian(s) + 1), 1 + |s|))
  {
    hide ParseTag, LittleEndian;
    TrailerInPlace(4 * (59 + |s|), s, rest);
  }

  /** A copy: eleven bits of offset, the three high ones in the tag byte. */
  lemma OneByteCopyTag(len: nat, high: nat, low: Byte, rest: seq<Byte>)
    requires 4 <= len <= 11 && high < 8
    ensures ParseTag([1 + 4 * (len - 4) + 32 * high] + [low] + rest) == Some((CopyTag(256 * high + low as int, len), 2))
  {
    assert [low][1..] == [];
    assert LittleEndian([low]) == low as int + 256 * LittleEndian([low][1..]);
    hide ParseTag, LittleEndian;
    OneByteFields(len, high);
    TrailerInPlace(1 + 4 * (len - 4) + 32 * high, [low], rest);
  }

  /** A copy: two or four bytes of offset behind the tag byte. */
  lemma WideCopyTag(len: nat, s: seq<Byte>, rest: seq<Byte>)
    requires 1 <= len <= 64 && (|s| == 2 || |s| == 4)
    ensures var kind := if |s| == 2 then 2 else 3;
            ParseTag([kind + 4 * (len - 1)] + s + rest) == Some((CopyTag(LittleEndian(s), len), 1 + |s|))
  {
    hide ParseTag, LittleEndian;
    var kind := if |s| == 2 then 2 else 3;
    TrailerInPlace(kind + 4 * (len - 1), s, rest);
  }

  lemma OneByteFields(len: nat, high: nat)
    requires 4 <= len <= 11 && high < 8
    ensures var t := 1 + 4 * (len - 4) + 32 * high;
            t < 256 && t % 4 == 1 && t / 32 == high && t / 4 % 8 + 4 == len
  {
  }

  lemma TrailerInPlace(t: Byte, s: seq<Byte>, rest: seq<Byte>)
    requires |s| == TagExtra(t)
    ensures ParseTag([t] + s + rest) == Some((TagMeaning(t, LittleEndian(s)), 1 + |s|))
  {
    var c := [t] + s + rest;
    assert c[1..1 + |s|] == s;
  }
}
