/** The emitters: they store elements in the output buffer, sometimes with stores wider than the element. */
module Emit {
  import opened Bytes
  import opened IncrementalCopy
  import opened Elements

  /** *op = b. */
  method Store(dst: array<Byte>, op: nat, b: Byte)
    requires op < dst.Length
    modifies dst
    ensures dst[..op + 1] == old(dst[..op]) + [b]
    ensures dst[op + 1..] == old(dst[op + 1..])
  {
    dst[op] := b;
  }

  /** Stores the tag and length of a literal longer than 60 bytes: the tag last, once the length bytes are counted. */
  method EmitLongHeader(dst: array<Byte>, op0: nat, len: nat) returns (op: nat)
    requires 60 < len < U32 && op0 + |LiteralHeader(len)| <= dst.Length
    modifies dst
    ensures op == op0 + |LiteralHeader(len)| && dst[..op] == old(dst[..op0]) + LiteralHeader(len)
  {
    LengthBytesSize(len - 1);
    var count;
    op, count := EmitLengthBytes(dst, op0 + 1, len - 1);
    ghost var before, done := dst[..op0], LengthBytes(len - 1);
    assert dst[op0 + 1..op] == done;
    dst[op0] := 4 * (59 + count);
    assert dst[..op] == before + [dst[op0]] + dst[op0 + 1..op];
  }

  /** The loop that stores n's bytes, the lowest first, and counts them. */
  method EmitLengthBytes(dst: array<Byte>, op0: nat, n0: nat) returns (op: nat, count: nat)
    requires op0 + |LengthBytes(n0)| <= dst.Length
    modifies dst
    ensures count == |LengthBytes(n0)| && op == op0 + count
    ensures dst[..op] == old(dst[..op0]) + LengthBytes(n0)
  {
    var n := n0;
    op := op0;
    count := 0;
    while n > 0
      invariant op == op0 + count && count + |LengthBytes(n)| == |LengthBytes(n0)|
      invariant dst[..op] + LengthBytes(n) == old(dst[..op0]) + LengthBytes(n0)
    {
      assert LengthBytes(n) == [n % 256] + LengthBytes(n / 256);
      Store(dst, op, n % 256);
      op := op + 1;
      n := n / 256;
      count := count + 1;
    }
  }

  /** Emits inp[pos..pos + len] as a literal. On the fast path sixteen bytes are moved, whatever the length. */
  method EmitLiteral(dst: array<Byte>, op0: nat, inp: seq<Byte>, pos: nat, len: nat, allowFastPath: bool) returns (op: nat)
    requires 0 < len < U32 && pos + len <= |inp|
    requires allowFastPath ==> pos + 16 <= |inp| && op0 + 17 <= dst.Length
    requires op0 + |LiteralElement(inp[pos..pos + len])| <= dst.Length
    modifies dst
    ensures op == op0 + |LiteralElement(inp[pos..pos + len])|
    ensures dst[..op] == old(dst[..op0]) + LiteralElement(inp[pos..pos + len])
  {
    hide LiteralHeader;
    var n := len - 1;
    JoinElement(old(dst[..op0]), LiteralHeader(len), inp[pos..pos + len]);
    if allowFastPath && len <= 16 {
      op := EmitShortHeader(dst, op0, len);
      op := AppendWide(dst, op, inp[pos..pos + 16], len);
      assert inp[pos..pos + 16][..len] == inp[pos..pos + len];
      return;
    }
    if n < 60 {
      op := EmitShortHeader(dst, op0, len);
    } else {
      op := EmitLongHeader(dst, op0, len);
    }
    op := AppendCopy(dst, op, inp[pos..pos + len]);
  }

  lemma JoinElement(written: seq<Byte>, header: seq<Byte>, body: seq<Byte>)
    ensures (written + header) + body == written + (header + body)
  {
  }

  method EmitShortHeader(dst: array<Byte>, op0: nat, len: nat) returns (op: nat)
    requires 0 < len <= 60 && op0 < dst.Length
    modifies dst
    ensures op == op0 + |LiteralHeader(len)| == op0 + 1 && dst[..op] == old(dst[..op0]) + LiteralHeader(len)
  {
    Store(dst, op0, 4 * (len - 1));
    op := op0 + 1;
  }

  /** memcpy behind what is written. */
  method AppendCopy(dst: array<Byte>, op0: nat, bytes: seq<Byte>) returns (op: nat)
    requires op0 + |bytes| <= dst.Length
    modifies dst
    ensures op == op0 + |bytes| && dst[..op] == old(dst[..op0]) + bytes
  {
    MemCopy(bytes, dst, op0);
    op := op0 + |bytes|;
    assert dst[..op] == dst[..op0] + dst[op0..op];
  }

  /** A sixteen-byte store of which len bytes count. */
  method AppendWide(dst: array<Byte>, op0: nat, bytes: seq<Byte>, len: nat) returns (op: nat)
    requires |bytes| == 16 && len <= 16 && op0 + 16 <= dst.Length
    modifies dst
    ensures op == op0 + len && dst[..op] == old(dst[..op0]) + bytes[..len]
  {
    UnalignedCopy128(bytes, dst, op0);
    op := op0 + len;
    assert dst[..op] == dst[..op0] + dst[op0..op];
  }

  /** Emits one copy tag. The three-byte form is stored as four bytes. */
  method EmitCopyAtMost64(dst: array<Byte>, op0: nat, offset: nat, len: nat, lenLessThan12: bool) returns (op: nat)
    requires 4 <= len <= 64 && offset < 65536 && (lenLessThan12 <==> len < 12)
    requires op0 + |CopyPiece(offset, len)| + 1 <= dst.Length
    modifies dst
    ensures op == op0 + |CopyPiece(offset, len)| && dst[..op] == old(dst[..op0]) + CopyPiece(offset, len)
  {
    if lenLessThan12 && offset < 2048 {
      OffsetBits(offset);
      Store(dst, op0, 1 + 4 * (len - 4) + offset / 8 / 32 % 8 * 32);
      Store(dst, op0 + 1, offset % 256);
      op := op0 + 2;
    } else {
      var u := 2 + 4 * (len - 1) + 256 * offset;
      WordBytes(2 + 4 * (len - 1), offset);
      Store32(dst, op0, u);
      op := op0 + 3;
      assert dst[..op] == dst[..op0 + 4][..op];
    }
  }

  /** ((offset >> 3) & 0xe0) holds the offset's upper three bits in the tag byte's upper three bits. */
  lemma OffsetBits(offset: nat)
    requires offset < 2048
    ensures offset / 8 / 32 % 8 == offset / 256 < 8
  {
  }

  /** A little-endian 32-bit store. */
  method Store32(dst: array<Byte>, op: nat, u: nat)
    requires op + 4 <= dst.Length && u < U32
    modifies dst
    ensures dst[..op + 4] == old(dst[..op]) + [u % 256, u / 256 % 256, u / 65536 % 256, u / 16777216]
  {
    dst[op] := u % 256;
    dst[op + 1] := u / 256 % 256;
    dst[op + 2] := u / 65536 % 256;
    dst[op + 3] := u / 16777216;
  }

  lemma WordBytes(low: nat, offset: nat)
    requires low < 256 && offset < 65536
    ensures var u := low + 256 * offset;
            u < U32 && u % 256 == low && u / 256 % 256 == offset % 256 && u / 65536 % 256 == offset / 256
  {
    var u := low + 256 * offset;
    assert u / 256 == offset;
    assert u / 65536 == offset / 256;
  }

  /** Emits a copy as pieces of length 4 to 64. */
  method EmitCopy(dst: array<Byte>, op0: nat, offset: nat, len0: nat, lenLessThan12: bool) returns (op: nat)
    requires len0 >= 4 && offset < 65536 && (lenLessThan12 <==> len0 < 12)
    requires op0 + |CopyElement(offset, len0)| + 1 <= dst.Length
    modifies dst
    ensures op == op0 + |CopyElement(offset, len0)| && dst[..op] == old(dst[..op0]) + CopyElement(offset, len0)
  {
    if lenLessThan12 {
      op := EmitCopyAtMost64(dst, op0, offset, len0, true);
      return;
    }
    var len;
    op, len := EmitCopies64(dst, op0, offset, len0);
    op := EmitCopyEnd(dst, op, offset, len);
  }

  /** The loop that emits 64-byte copies while at least four bytes remain behind them. */
  method EmitCopies64(dst: array<Byte>, op0: nat, offset: nat, len0: nat) returns (op: nat, len: nat)
    requires len0 >= 4 && offset < 65536
    requires op0 + |CopyElement(offset, len0)| + 1 <= dst.Length
    modifies dst
    ensures 4 <= len < 68 && op + |CopyElement(offset, len)| == op0 + |CopyElement(offset, len0)|
    ensures op <= dst.Length && dst[..op] + CopyElement(offset, len) == old(dst[..op0]) + CopyElement(offset, len0)
  {
    hide CopyPiece;
    op, len := op0, len0;
    while len >= 68
      invariant len >= 4 && op + |CopyElement(offset, len)| == op0 + |CopyElement(offset, len0)|
      invariant dst[..op] + CopyElement(offset, len) == old(dst[..op0]) + CopyElement(offset, len0)
    {
      assert CopyElement(offset, len) == CopyPiece(offset, 64) + CopyElement(offset, len - 64);
      op := EmitCopyAtMost64(dst, op, offset, 64, false);
      len := len - 64;
    }
  }

  /** One or two copies finish the job. */
  method EmitCopyEnd(dst: array<Byte>, op0: nat, offset: nat, len0: nat) returns (op: nat)
    requires 4 <= len0 < 68 && offset < 65536
    requires op0 + |CopyElement(offset, len0)| + 1 <= dst.Length
    modifies dst
    ensures op == op0 + |CopyElement(offset, len0)| && dst[..op] == old(dst[..op0]) + CopyElement(offset, len0)
  {
    var len := len0;
    op := op0;
    if len > 64 {
      op := EmitCopyAtMost64(dst, op, offset, 60, false);
      len := len - 60;
    }
    op := EmitCopyAtMost64(dst, op, offset, len, len < 12);
  }
}
