/** The main results about compressing and decompressing whole strings. */
module RoundTrip {
  import opened Bytes
  import opened Format
  import opened Varint
  import opened SourceSink
  import opened BlockCompressor
  import opened Compress
  import opened Uncompress
  import Semantics
  import Description

  /** A stream that produces x within any limit produces it within the limits that x fits in, and no other. */
  lemma LimitMatters(c: seq<Byte>, x: seq<Byte>, limit: nat)
    requires DecodeElements(c, [], |x|) == Some(x)
    ensures DecodeElements(c, [], limit) == if |x| <= limit then Some(x) else None
  {
    hide DecodeElements, Semantics.Elements, Semantics.Perform;
    Semantics.DecoderPerformsElements(c, [], |x|);
    Semantics.DecoderPerformsElements(c, [], limit);
  }

  lemma BlocksDecode(x: seq<Byte>, fast: bool)
    ensures DecodeElements(CompressedBlocks(x, fast), [], |x|) == Some(x)
  {
    hide CompressedBlocks;
    var blocks := CompressedBlocks(x, fast);
    BlocksYield([], x, fast);
    assert [] + x == x && blocks + [] == blocks;
    assert DecodeElements(blocks + [], [], |x|) == DecodeElements([], x, |x|);
  }

  /** What was compressed is what decompression returns, for both settings of fast and exactly the inputs below 2^32 bytes.
      The length of a longer input is cut off, and what was compressed is refused. */
  lemma UncompressCompress(x: seq<Byte>, fast: bool)
    ensures Uncompressed(Compressed(x, fast)) == Accept(x) <==> |x| < U32
    ensures |x| >= U32 ==> Uncompressed(Compressed(x, fast)) == Reject
  {
    hide CompressedBlocks, DecodeElements, VarintBytes, ParseVarint;
    var length, blocks := |x| % U32, CompressedBlocks(x, fast);
    var header := VarintBytes(length);
    VarintRoundTrip(length, blocks);
    assert (header + blocks)[|header|..] == blocks;
    BlocksDecode(x, fast);
    LimitMatters(blocks, x, length);
  }

  /** A compressed string stands for x exactly if it is the length of x followed by whole elements that produce x. */
  lemma AcceptedStreams(c: seq<Byte>, x: seq<Byte>)
    ensures Uncompressed(c) == Accept(x) <==>
              ParseVarint(c).Some?
              && var (len, n) := ParseVarint(c).value;
                 && len == |x| && Semantics.Elements(c[n..]).Some?
                 && Semantics.Perform(Semantics.Elements(c[n..]).value, []) == Some(x)
  {
    if ParseVarint(c).Some? {
      var (len, n) := ParseVarint(c).value;
      Semantics.DecoderPerformsElements(c[n..], [], len);
    }
  }

  /** RawCompress and RawCompress2 on a flat input: the number of bytes stored at the front of compressed. */
  method RawCompress(input: seq<Byte>, compressed: array<Byte>, fast: bool) returns (length: nat, ghost roomy: bool)
    requires 32 + |input| + |input| / 6 <= compressed.Length
    modifies compressed
    ensures length == |Compressed(input, fast)| <= compressed.Length
    ensures compressed[..length] == Compressed(input, fast)
    ensures roomy <==> MaximumFits(|input|, compressed.Length)
  {
    var reader := new Source(input);
    var writer := new UncheckedByteArraySink(compressed);
    CompressedSize(input, fast);
    var written;
    written, roomy := Compress.Compress(reader, Unchecked(writer), fast);
    length := writer.dest;
  }

  /** Compress on strings: grows the output to the maximal length first and cuts it back afterwards. */
  method CompressString(input: seq<Byte>, enableSkip: bool) returns (compressed: seq<Byte>, ghost roomy: bool)
    ensures compressed == Compressed(input, enableSkip)
    ensures |compressed| <= 32 + |input| + |input| / 6
    ensures Uncompressed(compressed) == Accept(input) <==> |input| < U32
    ensures roomy <==> input == [] || |input| >= 65538
  {
    var buf := new Byte[MaxCompressedLength(|input|)];
    var length;
    length, roomy := RawCompress(input, buf, enableSkip);
    MaximumFitsExactly(|input|);
    compressed := buf[..length];
    UncompressCompress(input, enableSkip);
  }

  /** A stream that by the description holds a literal of 2^32 bytes, and so none of the declared length 0, is accepted as
      one that produces nothing. */
  lemma HugeLiteralIsEmpty()
    ensures Uncompressed([0, 252, 255, 255, 255, 255]) == Accept([])
    ensures Description.Described([252, 255, 255, 255, 255], [], 0) == None
  {
    var c: seq<Byte> := [0, 252, 255, 255, 255, 255];
    var tags := c[1..];
    assert tags == [252, 255, 255, 255, 255];
    Description.CodeAgainstDescription(tags, [], 0);
    assert Place(0) == 1;
    assert ParseVarint(c) == Some((0, 1));
    assert tags[1..5] == [255, 255, 255, 255];
    Description.AllBitsSet(tags[1..5]);
    assert ParseTag(tags) == Some((LiteralTag(0), 5));
    assert tags[5..] == [] && tags[5..][..0] == [] && tags[5..][0..] == [];
    assert DecodeLiteral(tags[5..], [], 0, 0) == DecodeElements([], [], 0);
  }
}
