/** The decompression entry points, one for each kind of output. */
module Uncompress {
  import opened Bytes
  import opened Format
  import Varint
  import opened Progress
  import opened Scatter
  import Sequences
  import opened SourceSink
  import ArrayWriter
  import IOVecWriter
  import ScatteredWriter
  import Validator
  import opened Writers
  import Decompressor

  /** What a compressed string stands for: a varint with the length, then elements producing exactly that many bytes. */
  function Uncompressed(c: seq<Byte>): Verdict
  {
    match Varint.ParseVarint(c)
    case None => Reject
    case Some((len, n)) => DecodeTags(c[n..], len)
  }

  /** The length that a compressed string declares. */
  function DeclaredLength(c: seq<Byte>): Option<nat>
  {
    match Varint.ParseVarint(c)
    case None => None
    case Some((len, n)) => Some(len)
  }

  /** The number of bytes that a compressed string asks for. */
  function DeclaredBytes(c: seq<Byte>): nat
  {
    if DeclaredLength(c) == None then 0 else DeclaredLength(c).value
  }

  /** Of the memory it was given, which held was, the writer has changed nothing but the len bytes from its start on. */
  ghost predicate Kept(writer: Writer, len: nat, was: seq<Byte>)
    reads writer.Object(), writer.Repr()
  {
    var now := writer.Memory();
    && |now| == |was|
    && match writer
       case Flat(w) =>
         && w.start <= w.op <= w.start + len <= |was|
         && now[..w.start] == was[..w.start] && now[w.start + len..] == was[w.start + len..]
       case IOVec(_) => Beyond(now, len) == Beyond(was, len)
       case _ => true
  }

  /** What the writer holds outside, once it has been told that len bytes are to come. */
  ghost function Around(writer: Writer, len: nat, was: seq<Byte>): (seq<Byte>, seq<Byte>)
    requires writer.Flat? ==> writer.array_.start + len <= |was|
  {
    match writer
    case Flat(w) => (was[..w.start], was[w.start + len..])
    case IOVec(_) => ([], Beyond(was, len))
    case _ => ([], [])
  }

  lemma StartOfOutside(writer: Writer, len: nat)
    requires writer.Valid() && (writer.Flat? ==> writer.array_.opLimit == writer.array_.start + len <= writer.array_.base.Length)
    requires writer.IOVec? ==> writer.iovec.outputLimit == len
    ensures writer.Outside() == Around(writer, len, writer.Memory())
  {
  }

  lemma KeptIfOutsideKept(writer: Writer, len: nat, was: seq<Byte>)
    requires writer.Valid() && |was| == |writer.Memory()| && (writer.Flat? ==> writer.array_.start + len <= |was|)
    requires writer.Outside() == Around(writer, len, was)
    ensures Kept(writer, len, was)
  {
    match writer
    case Flat(w) => assert |w.base[w.opLimit..]| == |was[w.start + len..]|;
    case IOVec(w) => assert |Beyond(writer.Memory(), w.outputLimit)| == |Beyond(was, len)|;
    case _ =>
  }

  lemma MemorySize(writer: Writer)
    ensures |writer.Memory()| == match writer
                                 case Flat(w) => w.base.Length
                                 case IOVec(w) => Start(w.iovs, |w.iovs|)
                                 case _ => 0
  {
    if writer.IOVec? {
      var iovs := writer.iovec.iovs;
      StartIsLength(iovs, |iovs|);
      assert Snapshot(iovs)[..|iovs|] == Snapshot(iovs);
    }
  }

  lemma IOVecKept(w: IOVecWriter.IOVecWriter, len: nat, was: seq<Byte>)
    requires w.Valid() && Kept(IOVec(w), len, was)
    ensures |Flatten(Snapshot(w.iovs))| == |was| && Beyond(Flatten(Snapshot(w.iovs)), len) == Beyond(was, len)
    ensures w.progress.Running? ==> w.progress.out <= Flatten(Snapshot(w.iovs)) && |w.progress.out| <= Start(w.iovs, |w.iovs|)
  {
  }

  lemma IdleIsKept(writer: Writer)
    requires writer.Valid() && writer.Progress() == Idle
    ensures Kept(writer, 0, writer.Memory())
  {
  }

  method InternalUncompressAllTags(decompressor: Decompressor.Decompressor, writer: Writer, len: nat) returns (ok: bool)
    requires decompressor.Valid() && !decompressor.eof && decompressor.Apart(writer)
    requires writer.Valid() && writer.Progress() == Idle && writer.Unflushed() && writer.Fits(len)
    modifies decompressor, decompressor.reader, decompressor.scratch, writer.Repr(), writer.Sinks()
    ensures writer.Valid() && fresh(writer.Repr() - old(writer.Repr()))
    ensures Kept(writer, len, old(writer.Memory()))
    ensures ok <==> writer.Started(len).Running? && DecodeTags(old(decompressor.Rest()), len).Accept?
    ensures ok ==> writer.Progress() == Running(DecodeTags(old(decompressor.Rest()), len).out, len)
    ensures ok ==> decompressor.reader.left == []
    ensures ok && writer.Scattered? ==>
              writer.scattered.allocator.dest.contents == old(writer.scattered.allocator.dest.contents) + writer.Progress().out
  {
    hide Writer.Valid, Writer.Unflushed, Writer.Outside, Writer.Memory, Kept, Around, DecodeElements;
    ghost var memory := writer.Memory();
    MemorySize(writer);
    writer.SetExpectedLength(len);
    StartOfOutside(writer, len);
    decompressor.DecompressAllTags(writer);
    OutcomeAtEnd(writer.Progress());
    writer.Flush();
    MemorySize(writer);
    KeptIfOutsideKept(writer, len, memory);
    var complete := writer.CheckLength();
    ok := decompressor.eof && complete;
  }

  /** A decompressor that has read the length from the front of the stream. */
  method ReadLength(reader: Source) returns (decompressor: Decompressor.Decompressor, len: Option<nat>)
    modifies reader
    ensures fresh(decompressor) && fresh(decompressor.scratch) && decompressor.reader == reader
    ensures decompressor.Valid() && !decompressor.eof
    ensures len == DeclaredLength(old(reader.left))
    ensures len.Some? ==> Uncompressed(old(reader.left)) == DecodeTags(decompressor.Rest(), len.value)
  {
    hide DecodeTags;
    decompressor := new Decompressor.Decompressor(reader);
    len := decompressor.ReadUncompressedLength();
  }

  method InternalUncompress(reader: Source, writer: Writer) returns (ok: bool)
    requires writer.Valid() && writer.Progress() == Idle && writer.Unflushed()
    requires DeclaredLength(reader.left).Some? ==> writer.Fits(DeclaredLength(reader.left).value)
    requires reader !in writer.Repr()
    modifies reader, writer.Repr(), writer.Sinks()
    ensures writer.Valid() && fresh(writer.Repr() - old(writer.Repr()))
    ensures ok <==> Uncompressed(old(reader.left)).Accept? && writer.Started(|Uncompressed(old(reader.left)).out|).Running?
    ensures ok ==> writer.Progress() == Running(Uncompressed(old(reader.left)).out, |Uncompressed(old(reader.left)).out|)
    ensures ok ==> reader.left == []
    ensures Kept(writer, DeclaredBytes(old(reader.left)), old(writer.Memory()))
    ensures ok && writer.Scattered? ==>
              writer.scattered.allocator.dest.contents == old(writer.scattered.allocator.dest.contents) + writer.Progress().out
  {
    hide Writer.Valid, Writer.Unflushed, Writer.Memory, Kept, DecodeTags;
    var decompressor, len := ReadLength(reader);
    if len == None {
      IdleIsKept(writer);
      return false;
    }
    ok := InternalUncompressAllTags(decompressor, writer, len.value);
  }

  /** Decompression from any source into a flat array that has room for the declared length. */
  method RawUncompress(compressed: Source, uncompressed: array<Byte>) returns (ok: bool)
    requires DeclaredLength(compressed.left).Some? ==> DeclaredLength(compressed.left).value <= uncompressed.Length
    modifies compressed, uncompressed
    ensures ok <==> Uncompressed(old(compressed.left)).Accept?
    ensures ok ==> var out := Uncompressed(old(compressed.left)).out;
                   |out| <= uncompressed.Length && uncompressed[..|out|] == out
    ensures ok ==> compressed.left == []
    ensures var len := DeclaredBytes(old(compressed.left)); uncompressed[len..] == old(uncompressed[len..])
  {
    LengthFits32Bits(compressed.left);
    var w := new ArrayWriter.ArrayWriter(uncompressed, 0);
    ok := InternalUncompress(compressed, Flat(w));
  }

  /** Decompression into separate buffers: succeeds exactly if the stream is valid and they have room for its length. */
  method RawUncompressToIOVec(compressed: Source, iov: seq<array<Byte>>) returns (ok: bool)
    requires Sequences.Distinct(iov) && (iov == [] ==> DeclaredLength(compressed.left) in {None, Some(0)})
    modifies compressed, iov
    ensures ok <==> Uncompressed(old(compressed.left)).Accept?
                    && |Uncompressed(old(compressed.left)).out| <= Start(iov, |iov|)
    ensures ok ==> Uncompressed(old(compressed.left)).out <= Flatten(Snapshot(iov)) && compressed.left == []
    ensures |Flatten(Snapshot(iov))| == Start(iov, |iov|) == |old(Flatten(Snapshot(iov)))|
    ensures Beyond(Flatten(Snapshot(iov)), DeclaredBytes(old(compressed.left)))
         == Beyond(old(Flatten(Snapshot(iov))), DeclaredBytes(old(compressed.left)))
  {
    LengthFits32Bits(compressed.left);
    hide Flatten, Snapshot, Start, Beyond, Uncompressed, DeclaredLength, DeclaredBytes, Writer.Repr;
    var w := new IOVecWriter.IOVecWriter(iov);
    ok := IntoBuffers(compressed, w);
  }

  /** RawUncompressToIOVec with the writer in place. */
  method IntoBuffers(compressed: Source, w: IOVecWriter.IOVecWriter) returns (ok: bool)
    requires w.Valid() && w.progress == Idle && DeclaredBytes(compressed.left) < U32
    requires w.iovs == [] ==> DeclaredBytes(compressed.left) == 0
    modifies compressed, w, w.iovs
    ensures ok <==> Uncompressed(old(compressed.left)).Accept?
                    && |Uncompressed(old(compressed.left)).out| <= Start(w.iovs, |w.iovs|)
    ensures ok ==> Uncompressed(old(compressed.left)).out <= Flatten(Snapshot(w.iovs)) && compressed.left == []
    ensures |Flatten(Snapshot(w.iovs))| == Start(w.iovs, |w.iovs|) == |old(Flatten(Snapshot(w.iovs)))|
    ensures Beyond(Flatten(Snapshot(w.iovs)), DeclaredBytes(old(compressed.left)))
         == Beyond(old(Flatten(Snapshot(w.iovs))), DeclaredBytes(old(compressed.left)))
  {
    hide Flatten, Snapshot, Start, Sequences.Distinct, Beyond, Kept, Uncompressed;
    ghost var was, len := Flatten(Snapshot(w.iovs)), DeclaredBytes(compressed.left);
    MemorySize(IOVec(w));
    ok := InternalUncompress(compressed, IOVec(w));
    IOVecKept(w, len, was);
  }

  /** Validation without output. */
  method IsValidCompressed(compressed: Source) returns (ok: bool)
    modifies compressed
    ensures ok <==> Uncompressed(old(compressed.left)).Accept?
    ensures ok ==> compressed.left == []
  {
    LengthFits32Bits(compressed.left);
    var w := new Validator.Validator();
    ok := InternalUncompress(compressed, Validating(w));
  }

  lemma LengthFits32Bits(c: seq<Byte>)
    ensures DeclaredLength(c).Some? ==> DeclaredLength(c).value < U32
    ensures Uncompressed(c).Accept? ==> DeclaredLength(c) == Some(|Uncompressed(c).out|)
  {
    if Varint.ParseVarint(c).Some? {
      Varint.ParsedFits32Bits(c, 0);
    }
  }

  /** GetUncompressedLength on a flat string. */
  method GetUncompressedLength(compressed: seq<Byte>) returns (r: Option<nat>)
    ensures r == DeclaredLength(compressed)
  {
    var parsed := Varint.Parse32WithLimit(compressed);
    match parsed
    case None => r := None;
    case Some((v, n)) => r := Some(v);
  }

  /** Decompression of a string into a string of the declared length. */
  method UncompressString(compressed: seq<Byte>) returns (ok: bool, uncompressed: seq<Byte>)
    ensures ok <==> Uncompressed(compressed).Accept?
    ensures ok ==> Uncompressed(compressed) == Accept(uncompressed)
  {
    LengthFits32Bits(compressed);
    var ulength := GetUncompressedLength(compressed);
    if ulength == None { return false, []; }
    var buf := new Byte[ulength.value];
    var reader := new Source(compressed);
    ok := RawUncompress(reader, buf);
    uncompressed := buf[..];
  }

  /** Decompression from a source to a sink. offered is the buffer that a sink without one of its own comes up with. If the
      buffer has room for the declared length the flat writer fills it, otherwise the output goes through blocks. */
  method UncompressToSink(compressed: Source, uncompressed: AppendSink, offered: array<Byte>) returns (ok: bool)
    requires uncompressed.HasRoom(DeclaredBytes(compressed.left))
    modifies compressed, uncompressed.Repr(), offered
    ensures ok <==> Uncompressed(old(compressed.left)).Accept?
    ensures ok ==> uncompressed.Contents() == old(uncompressed.Contents()) + Uncompressed(old(compressed.left)).out
    ensures ok ==> compressed.left == []
  {
    LengthFits32Bits(compressed.left);
    var decompressor, len := ReadLength(compressed);
    if len == None { return false; }
    var buf, at, allocatedSize := uncompressed.GetAppendBufferVariable(len.value, offered);
    if allocatedSize >= len.value {
      ok := ThroughBuffer(decompressor, uncompressed, buf, at, len.value);
    } else {
      ok := ThroughBlocks(decompressor, uncompressed.sink, len.value);
    }
  }

  /** The flat writer fills a buffer, which the sink appends; nothing is copied if it is the sink's own. */
  method ThroughBuffer(decompressor: Decompressor.Decompressor, uncompressed: AppendSink, buf: array<Byte>, at: nat, len: nat) returns (ok: bool)
    requires decompressor.Valid() && !decompressor.eof && buf != decompressor.scratch && len < U32
    requires decompressor.scratch !in uncompressed.Repr()
    requires uncompressed.HasRoom(0) && at + len <= buf.Length
    requires uncompressed.Unchecked? ==> buf == uncompressed.array_.buf && at == uncompressed.array_.dest
    modifies decompressor, decompressor.reader, decompressor.scratch, uncompressed.Repr(), buf
    ensures ok <==> DecodeTags(old(decompressor.Rest()), len).Accept?
    ensures ok ==> uncompressed.Contents() == old(uncompressed.Contents()) + DecodeTags(old(decompressor.Rest()), len).out
    ensures ok ==> decompressor.reader.left == []
  {
    hide DecodeTags, Flatten, Snapshot, Beyond;
    var w := new ArrayWriter.ArrayWriter(buf, at);
    ok := InternalUncompressAllTags(decompressor, Flat(w), len);
    assert uncompressed.Contents() == old(uncompressed.Contents());
    uncompressed.Append(buf, at, w.Produced());
  }

  method ThroughBlocks(decompressor: Decompressor.Decompressor, uncompressed: Sink, len: nat) returns (ok: bool)
    requires decompressor.Valid() && !decompressor.eof && len < U32
    modifies decompressor, decompressor.reader, decompressor.scratch, uncompressed
    ensures ok <==> DecodeTags(old(decompressor.Rest()), len).Accept?
    ensures ok ==> uncompressed.contents == old(uncompressed.contents) + DecodeTags(old(decompressor.Rest()), len).out
    ensures ok ==> decompressor.reader.left == []
  {
    var allocator := new ScatteredWriter.SinkAllocator(uncompressed);
    var w := new ScatteredWriter.ScatteredWriter(allocator);
    ok := InternalUncompressAllTags(decompressor, Scattered(w), len);
  }
}
