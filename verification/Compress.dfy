/** Compress: splits the input into blocks, whatever regions the source hands out, and compresses each one. */
module Compress {
  import opened Bytes
  import opened Bits
  import opened Varint
  import opened SourceSink
  import opened IncrementalCopy
  import opened Elements
  import opened Matcher
  import opened HashTable
  import opened BlockCompressor

  /** The part of the input that goes into the next block. */
  function BlockLength(n: nat): (m: nat)
    ensures m <= n && m <= BLOCK_SIZE && (n > 0 ==> m > 0)
  {
    if n <= BLOCK_SIZE then n else BLOCK_SIZE
  }

  /** The blocks of x, compressed one after the other. */
  function CompressedBlocks(x: seq<Byte>, fast: bool): seq<Byte>
    decreases |x|
  {
    if x == [] then []
    else
      var n := BlockLength(|x|);
      CompressedBlock(x[..n], TableBits(8, n), fast) + CompressedBlocks(x[n..], fast)
  }

  /** The length as it is stored: Encode32 takes 32 bits of it. */
  function LengthHeader(n: nat): (header: seq<Byte>)
    ensures |header| <= 5
  {
    VarintRoundTrip(n % U32, []);
    VarintBytes(n % U32)
  }

  /** The compressed form of x: its length, then its blocks. */
  function Compressed(x: seq<Byte>, fast: bool): seq<Byte>
  {
    LengthHeader(|x|) + CompressedBlocks(x, fast)
  }

  /** All blocks together decode to the whole input, behind any prefix. */
  lemma {:induction false} BlocksYield(prefix: seq<Byte>, x: seq<Byte>, fast: bool)
    ensures Yields(CompressedBlocks(x, fast), prefix, prefix + x)
    decreases |x|
  {
    hide Yields, Fragment;
    if x == [] {
      assert prefix + x == prefix;
      YieldsNothing(prefix);
    } else {
      var n := BlockLength(|x|);
      var bits := TableBits(8, n);
      HashesIntoTable(bits);
      FragmentYields(prefix, x[..n], HashWithBits(bits), StepWidth(fast), Pow2(bits));
      BlocksYield(prefix + x[..n], x[n..], fast);
      assert (prefix + x[..n]) + x[n..] == prefix + x;
      YieldsConcat(CompressedBlock(x[..n], bits, fast), CompressedBlocks(x[n..], fast), prefix, prefix + x[..n], prefix + x);
    }
  }

  /** Small for blocks in a row. */
  lemma {:induction false} BlocksSize(x: seq<Byte>, fast: bool)
    ensures 60 * 65536 * |CompressedBlocks(x, fast)| <= 65536 * 61 * |x| + 60 * (|x| + 65535)
    ensures x == [] ==> CompressedBlocks(x, fast) == []
    decreases |x|
  {
    hide Fragment;
    if x != [] {
      var n := BlockLength(|x|);
      var bits := TableBits(8, n);
      HashesIntoTable(bits);
      FragmentSize(x[..n], HashWithBits(bits), StepWidth(fast), Pow2(bits));
      BlocksSize(x[n..], fast);
    }
  }

  /** The documented bound: compressing never takes more than 32 + n + n/6 bytes. */
  lemma CompressedSize(x: seq<Byte>, fast: bool)
    ensures |Compressed(x, fast)| <= 32 + |x| + |x| / 6
  {
    hide CompressedBlocks, LengthHeader;
    BlocksSize(x, fast);
    BoundFollows(|LengthHeader(|x|)|, |CompressedBlocks(x, fast)|, |x|);
  }

  lemma BoundFollows(header: nat, blocks: nat, n: nat)
    requires header <= 5 && 3932160 * blocks <= 3997756 * n + 3932100
    ensures header + blocks <= 32 + n + n / 6
  {
    var q := n / 6;
    assert n <= 6 * q + 5;
    assert blocks <= n + q + 2;
  }

  /** Reads the next block: straight from the peeked region if that is large enough, else through a scratch buffer.
      pending bytes of it are still to be skipped. */
  method ReadBlock(reader: Source, scratch0: array?<Byte>, numToRead: nat)
    returns (block: seq<Byte>, pending: nat, scratch: array?<Byte>)
    requires 0 < numToRead <= |reader.left|
    requires scratch0 != null ==> numToRead <= scratch0.Length
    modifies reader, scratch0
    ensures block == old(reader.left)[..numToRead]
    ensures pending <= |reader.left| && reader.left[pending..] == old(reader.left)[numToRead..]
    ensures scratch == scratch0 || (scratch != null && fresh(scratch) && scratch.Length == numToRead)
  {
    scratch := scratch0;
    var fragment := reader.Peek();
    if |fragment| >= numToRead {
      block, pending := fragment[..numToRead], numToRead;
    } else {
      if scratch == null {
        scratch := new Byte[numToRead];
      }
      Gather(reader, scratch, fragment, numToRead);
      block, pending := scratch[..numToRead], 0;
    }
  }

  lemma PrefixGrows(buffer: seq<Byte>, x: seq<Byte>, k: nat, n: nat)
    requires |buffer| == k + n <= |x| && buffer[..k] == x[..k] && buffer[k..] == x[k..][..n]
    ensures buffer == x[..k + n]
  {
    assert buffer == buffer[..k] + buffer[k..];
  }

  /** Collects numToRead bytes of the source, the peeked fragment first, in scratch. */
  method Gather(reader: Source, scratch: array<Byte>, fragment0: seq<Byte>, numToRead: nat)
    requires fragment0 <= reader.left && |fragment0| < numToRead <= |reader.left| && numToRead <= scratch.Length
    modifies reader, scratch
    ensures scratch[..numToRead] == old(reader.left)[..numToRead] && reader.left == old(reader.left)[numToRead..]
  {
    ghost var x := reader.left;
    var bytesRead := |fragment0|;
    MemCopy(fragment0, scratch, 0);
    reader.Skip(bytesRead);
    while bytesRead < numToRead
      invariant bytesRead <= numToRead && reader.left == x[bytesRead..] && scratch[..bytesRead] == x[..bytesRead]
    {
      var fragment := reader.Peek();
      var n := if |fragment| <= numToRead - bytesRead then |fragment| else numToRead - bytesRead;
      MemCopy(fragment[..n], scratch, bytesRead);
      assert fragment[..n] == reader.left[..n];
      PrefixGrows(scratch[..bytesRead + n], x, bytesRead, n);
      bytesRead := bytesRead + n;
      reader.Skip(n);
    }
  }

  lemma StoreRoomFits(n: nat)
    ensures StoreRoom(n) <= MaxCompressedLength(n)
  {
  }

  /** Compresses one block straight into the sink's buffer, or into scratch and from there into the sink. */
  method CompressBlock(block: seq<Byte>, writer: AppendSink, wmem: WorkingMemory, scratchOutput: array<Byte>, fast: bool)
    returns (written: nat, ghost roomy: bool)
    requires 0 < |block| <= BLOCK_SIZE && wmem.Valid() && MaxCompressedLength(|block|) <= scratchOutput.Length
    requires writer.HasRoom(StoreRoom(|block|)) && scratchOutput !in writer.Repr()
    modifies wmem, wmem.smallTable, wmem.largeTable, scratchOutput, writer.Repr()
    ensures wmem.Valid() && writer.HasRoom(0)
    ensures wmem.largeTable != null ==> fresh(wmem.largeTable) || wmem.largeTable == old(wmem.largeTable)
    ensures writer.Contents() == old(writer.Contents()) + CompressedBlock(block, TableBits(8, |block|), fast)
    ensures written == |CompressedBlock(block, TableBits(8, |block|), fast)|
    ensures writer.Unchecked? ==> writer.array_.dest == old(writer.array_.dest) + written
    ensures roomy <==> old(writer.HasRoom(MaxCompressedLength(|block|)))
  {
    hide CompressedBlock, TableBits, StoreRoom, MaxCompressedLength, Pow2;
    StoreRoomFits(|block|);
    var table, tableSize := wmem.GetHashTable(|block|);
    var dest, at := writer.GetAppendBuffer(scratchOutput);
    ghost var element := CompressedBlock(block, TableBits(8, |block|), fast);
    ghost var before := dest[..at];
    var end;
    end, roomy := CompressFragment(block, dest, at, table, tableSize, TableBits(8, |block|), fast);
    written := end - at;
    assert dest[at..end] == (before + element)[at..] == element;
    writer.Append(dest, at, written);
  }

  /** The unwritten part of a sink with its own buffer is large enough for what done bytes have left of n: every store
      stays inside MaxCompressedLength(n), although the length varint already takes up some of it. */
  predicate Ample(written: nat, done: nat, n: nat, room: nat)
  {
    done <= n && 60 * BLOCK_SIZE * written <= BLOCK_SIZE * (300 + 61 * done) + 60 * done && MaxCompressedLength(n) <= room
  }

  lemma AmpleAtStart(header: nat, n: nat, room: nat)
    requires header <= 5 && MaxCompressedLength(n) <= room
    ensures Ample(header, 0, n, room)
  {
  }

  /** No block is longer than the one before. */
  lemma LaterBlockFits(n: nat)
    ensures var m := BlockLength(n);
            BlockLength(n - m) <= m && MaxCompressedLength(BlockLength(n - m)) <= MaxCompressedLength(m)
  {
  }

  lemma AmpleForBlock(written: nat, done: nat, n: nat, room: nat, m: nat)
    requires Ample(written, done, n, room) && done % BLOCK_SIZE == 0 && done + m <= n
    ensures written + StoreRoom(m) <= room
  {
  }

  lemma AmpleAfterBlock(written: nat, done: nat, n: nat, room: nat, block: seq<Byte>, fast: bool)
    requires Ample(written, done, n, room) && |block| == BlockLength(n - done) && done % BLOCK_SIZE == 0
    ensures var bits := TableBits(8, |block|);
            done + |block| == n || (Ample(written + |CompressedBlock(block, bits, fast)|, done + |block|, n, room)
                                    && (done + |block|) % BLOCK_SIZE == 0)
  {
    hide Fragment;
    var bits := TableBits(8, |block|);
    HashesIntoTable(bits);
    FragmentSize(block, HashWithBits(bits), StepWidth(fast), Pow2(bits));
  }

  /** Compressed one after the other into space bytes, every block of x finds the room that the documentation of
      CompressFragment asks for: MaxCompressedLength of its size. */
  predicate Roomy(x: seq<Byte>, fast: bool, space: int)
    decreases |x|
  {
    x == [] ||
    var n := BlockLength(|x|);
    && MaxCompressedLength(n) <= space
    && Roomy(x[n..], fast, space - |CompressedBlock(x[..n], TableBits(8, n), fast)|)
  }

  lemma RoomyStep(x: seq<Byte>, fast: bool, space: int)
    requires x != []
    ensures var n := BlockLength(|x|);
            Roomy(x, fast, space) <==>
              MaxCompressedLength(n) <= space && Roomy(x[n..], fast, space - |CompressedBlock(x[..n], TableBits(8, n), fast)|)
  {
    hide CompressedBlock, TableBits, MaxCompressedLength;
  }

  /** Behind the length, the maximum for the first block still fits into space bytes. */
  predicate MaximumFits(n: nat, space: int)
  {
    n == 0 || |LengthHeader(n)| + MaxCompressedLength(BlockLength(n)) <= space
  }

  /** Behind at least one whole block there is so much left over that the next one finds all the documented room. */
  lemma AmpleIsRoomy(written: nat, done: nat, n: nat, room: nat, m: nat)
    requires Ample(written, done, n, room) && done % BLOCK_SIZE == 0 && done > 0 && done + m <= n && m <= BLOCK_SIZE
    ensures written + MaxCompressedLength(m) <= room
  {
  }

  lemma {:induction false} LaterBlocksRoomy(x: seq<Byte>, fast: bool, written: nat, done: nat, n: nat, room: nat)
    requires done + |x| == n && (x != [] ==> Ample(written, done, n, room) && done % BLOCK_SIZE == 0 && done > 0)
    ensures Roomy(x, fast, room - written)
    decreases |x|
  {
    hide Ample, MaxCompressedLength, CompressedBlock, TableBits;
    if x != [] {
      var m := BlockLength(|x|);
      AmpleIsRoomy(written, done, n, room, m);
      AmpleAfterBlock(written, done, n, room, x[..m], fast);
      LaterBlocksRoomy(x[m..], fast, written + |CompressedBlock(x[..m], TableBits(8, m), fast)|, done + m, n, room);
    }
  }

  /** In a buffer of at least the maximal length, all blocks find the documented room if and only if the first one does. */
  lemma RoomyIff(x: seq<Byte>, fast: bool, room: nat)
    requires MaxCompressedLength(|x|) <= room
    ensures Roomy(x, fast, room - |LengthHeader(|x|)|) <==> MaximumFits(|x|, room)
  {
    hide Ample, MaxCompressedLength, CompressedBlock, TableBits;
    if x != [] {
      var n, m, header := |x|, BlockLength(|x|), |LengthHeader(|x|)|;
      AmpleAtStart(header, n, room);
      AmpleAfterBlock(header, 0, n, room, x[..m], fast);
      LaterBlocksRoomy(x[m..], fast, header + |CompressedBlock(x[..m], TableBits(8, m), fast)|, m, n, room);
    }
  }

  /** A buffer of exactly the maximal length is too small for that by the length varint, unless the input is empty or
      longer than one block by at least two bytes. */
  lemma MaximumFitsExactly(n: nat)
    ensures MaximumFits(n, 32 + n + n / 6) <==> n == 0 || n >= 65538
  {
    VarintSize(n % U32);
  }

  /** One byte of input, compressed into a buffer of the maximal length. */
  lemma OneByteIsNotRoomy(x: seq<Byte>, fast: bool)
    requires |x| == 1
    ensures !Roomy(x, fast, MaxCompressedLength(1) - |LengthHeader(1)|)
  {
  }

  /** Compresses everything left in the source, independently of how it is cut into regions. */
  method Compress(reader: Source, writer: AppendSink, fast: bool) returns (written: nat, ghost roomy: bool)
    requires reader !in writer.Repr()
    requires writer.HasRoom(MaxCompressedLength(|reader.left|))
    modifies reader, writer.Repr()
    ensures writer.HasRoom(0) && reader.left == []
    ensures writer.Contents() == old(writer.Contents()) + Compressed(old(reader.left), fast)
    ensures written == |Compressed(old(reader.left), fast)|
    ensures roomy <==> writer.Collecting? || MaximumFits(|old(reader.left)|, old(writer.Space()))
  {
    hide CompressedBlocks, LengthHeader, Roomy, MaximumFits, MaxCompressedLength;
    var n := reader.Available();
    written := AppendLength(n, writer);
    if writer.Unchecked? {
      RoomyIff(reader.left, fast, old(writer.Space()));
    }
    var more;
    more, roomy := CompressBlocks(reader, writer, written, fast);
    written := written + more;
  }

  /** Appends the length varint. */
  method AppendLength(n: nat, writer: AppendSink) returns (written: nat)
    requires writer.HasRoom(MaxCompressedLength(n))
    modifies writer.Repr()
    ensures writer.HasRoom(0) && written == |LengthHeader(n)| <= 5
    ensures writer.Contents() == old(writer.Contents()) + LengthHeader(n)
    ensures writer.Unchecked? ==> writer.array_.dest == old(writer.array_.dest) + written
  {
    hide VarintBytes;
    var bytes := Encode32(n % U32);
    VarintRoundTrip(n % U32, []);
    var ulength := new Byte[|bytes|](i requires 0 <= i < |bytes| => bytes[i]);
    assert ulength[0..|bytes|] == bytes;
    writer.Append(ulength, 0, |bytes|);
    written := |bytes|;
  }

  /** The first done bytes of x have been compressed: written bytes on top of what the sink held at the start. */
  predicate SoFar(x: seq<Byte>, fast: bool, done: nat, start: seq<Byte>, contents: seq<Byte>, written: nat)
  {
    && done <= |x|
    && contents + CompressedBlocks(x[done..], fast) == start + CompressedBlocks(x, fast)
    && written + |CompressedBlocks(x[done..], fast)| == |CompressedBlocks(x, fast)|
  }

  lemma SoFarStart(x: seq<Byte>, fast: bool, start: seq<Byte>)
    ensures SoFar(x, fast, 0, start, start, 0)
  {
    assert x[0..] == x;
  }

  lemma SoFarStep(x: seq<Byte>, fast: bool, done: nat, n: nat, start: seq<Byte>, contents: seq<Byte>, written: nat)
    requires SoFar(x, fast, done, start, contents, written) && done < |x| && n == BlockLength(|x| - done)
    ensures var bytes := CompressedBlock(x[done..][..n], TableBits(8, n), fast);
            SoFar(x, fast, done + n, start, contents + bytes, written + |bytes|)
  {
    hide CompressedBlock, CompressedBlocks, TableBits;
    BlocksStep(x[done..], fast);
    assert x[done..][n..] == x[done + n..];
    var bytes, rest := CompressedBlock(x[done..][..n], TableBits(8, n), fast), CompressedBlocks(x[done + n..], fast);
    assert (contents + bytes) + rest == contents + (bytes + rest);
  }

  lemma SoFarEnd(x: seq<Byte>, fast: bool, start: seq<Byte>, contents: seq<Byte>, written: nat)
    requires SoFar(x, fast, |x|, start, contents, written)
    ensures contents == start + CompressedBlocks(x, fast) && written == |CompressedBlocks(x, fast)|
  {
    NoBlocks(fast);
    assert x[|x|..] == [];
  }

  /** roomy says whether the first done bytes of x found the documented room, if the sink has a buffer of its own. */
  predicate RoomySoFar(own: bool, roomy: bool, x: seq<Byte>, fast: bool, done: nat, start: int, space: int)
  {
    && done <= |x|
    && if own then (roomy && Roomy(x[done..], fast, space) <==> Roomy(x, fast, start)) else roomy
  }

  lemma RoomyAtStart(own: bool, x: seq<Byte>, fast: bool, start: int)
    ensures RoomySoFar(own, true, x, fast, 0, start, start)
  {
    assert x[0..] == x;
  }

  lemma RoomyAfterBlock(own: bool, roomy: bool, blockRoomy: bool, x: seq<Byte>, fast: bool, done: nat, n: nat,
                        start: int, space: int, later: int)
    requires RoomySoFar(own, roomy, x, fast, done, start, space) && done < |x| && n == BlockLength(|x| - done)
    requires if own then blockRoomy <==> MaxCompressedLength(n) <= space else blockRoomy
    requires own ==> later == space - |CompressedBlock(x[done..][..n], TableBits(8, n), fast)|
    ensures RoomySoFar(own, roomy && blockRoomy, x, fast, done + n, start, later)
  {
    hide CompressedBlock, TableBits, MaxCompressedLength, Roomy;
    RoomyStep(x[done..], fast, space);
    assert x[done..][n..] == x[done + n..];
  }

  lemma RoomyAtEnd(own: bool, roomy: bool, x: seq<Byte>, fast: bool, start: int, space: int)
    requires RoomySoFar(own, roomy, x, fast, |x|, start, space)
    ensures roomy <==> !own || Roomy(x, fast, start)
  {
    assert x[|x|..] == [];
  }

  /** What holds between two blocks: the output so far, the room that is left and whether the documented room was there;
      start and startSpace are the contents and the space at the start of the loop. */
  predicate BetweenBlocks(own: bool, x: seq<Byte>, fast: bool, done: nat, header: nat, room: nat, start: seq<Byte>, startSpace: int,
                          contents: seq<Byte>, space: int, written: nat, roomy: bool)
  {
    && SoFar(x, fast, done, start, contents, written)
    && RoomySoFar(own, roomy, x, fast, done, startSpace, space)
    && (own ==> space == room - header - written)
    && (done < |x| ==> done % BLOCK_SIZE == 0 && Ample(header + written, done, |x|, room))
  }

  lemma BeforeBlocks(own: bool, x: seq<Byte>, fast: bool, header: nat, room: nat, start: seq<Byte>, space: int)
    requires header <= 5 && MaxCompressedLength(|x|) <= room && (own ==> space == room - header)
    ensures BetweenBlocks(own, x, fast, 0, header, room, start, space, start, space, 0, true)
  {
    hide Ample, MaxCompressedLength, SoFar, RoomySoFar;
    AmpleAtStart(header, |x|, room);
    SoFarStart(x, fast, start);
    RoomyAtStart(own, x, fast, space);
  }

  lemma RoomForBlock(own: bool, x: seq<Byte>, fast: bool, done: nat, n: nat, header: nat, room: nat, start: seq<Byte>, startSpace: int,
                     contents: seq<Byte>, space: int, written: nat, roomy: bool)
    requires BetweenBlocks(own, x, fast, done, header, room, start, startSpace, contents, space, written, roomy)
    requires done < |x| && n == BlockLength(|x| - done)
    ensures own ==> StoreRoom(n) <= space
  {
    hide SoFar, RoomySoFar, Ample, StoreRoom;
    AmpleForBlock(header + written, done, |x|, room, n);
  }

  lemma AfterBlock(own: bool, x: seq<Byte>, fast: bool, done: nat, n: nat, header: nat, room: nat, start: seq<Byte>, startSpace: int,
                   contents: seq<Byte>, space: int, later: int, written: nat, roomy: bool, blockRoomy: bool)
    requires BetweenBlocks(own, x, fast, done, header, room, start, startSpace, contents, space, written, roomy)
    requires done < |x| && n == BlockLength(|x| - done)
    requires if own then blockRoomy <==> MaxCompressedLength(n) <= space else blockRoomy
    requires own ==> later == space - |CompressedBlock(x[done..][..n], TableBits(8, n), fast)|
    ensures var bytes := CompressedBlock(x[done..][..n], TableBits(8, n), fast);
            BetweenBlocks(own, x, fast, done + n, header, room, start, startSpace, contents + bytes, later,
                          written + |bytes|, roomy && blockRoomy)
  {
    hide SoFar, RoomySoFar, Ample, MaxCompressedLength, CompressedBlock, TableBits;
    SoFarStep(x, fast, done, n, start, contents, written);
    RoomyAfterBlock(own, roomy, blockRoomy, x, fast, done, n, startSpace, space, later);
    AmpleAfterBlock(header + written, done, |x|, room, x[done..][..n], fast);
  }

  lemma BehindBlocks(own: bool, x: seq<Byte>, fast: bool, header: nat, room: nat, start: seq<Byte>, startSpace: int,
                     contents: seq<Byte>, space: int, written: nat, roomy: bool)
    requires BetweenBlocks(own, x, fast, |x|, header, room, start, startSpace, contents, space, written, roomy)
    ensures contents == start + CompressedBlocks(x, fast) && written == |CompressedBlocks(x, fast)|
    ensures roomy <==> !own || Roomy(x, fast, startSpace)
  {
    hide SoFar, RoomySoFar, Ample, Roomy, CompressedBlocks;
    SoFarEnd(x, fast, start, contents, written);
    RoomyAtEnd(own, roomy, x, fast, startSpace, space);
  }

  /** The loop of Compress, behind the length. */
  method CompressBlocks(reader: Source, writer: AppendSink, ghost header: nat, fast: bool) returns (written: nat, ghost roomy: bool)
    requires reader !in writer.Repr() && header <= 5
    requires writer.HasRoom(0)
    requires writer.Unchecked? ==> writer.array_.dest - header + MaxCompressedLength(|reader.left|) <= writer.array_.buf.Length
    modifies reader, writer.Repr()
    ensures writer.HasRoom(0) && reader.left == []
    ensures writer.Contents() == old(writer.Contents()) + CompressedBlocks(old(reader.left), fast)
    ensures written == |CompressedBlocks(old(reader.left), fast)|
    ensures roomy <==> writer.Collecting? || Roomy(old(reader.left), fast, old(writer.Space()))
  {
    hide CompressedBlocks, CompressedBlock, StoreRoom, MaxCompressedLength, TableBits, Roomy, BetweenBlocks, BlockLength, AppendSink.Contents;
    var wmem := new WorkingMemory();
    var scratch: array?<Byte>, scratchOutput: array?<Byte> := null, null;
    var n := reader.Available();
    ghost var x, done: nat, own := reader.left, 0, writer.Unchecked?;
    ghost var start, startSpace := writer.Contents(), writer.Space();
    ghost var room := if own then startSpace + header else MaxCompressedLength(n);
    written, roomy := 0, true;
    BeforeBlocks(own, x, fast, header, room, start, startSpace);
    while n > 0
      invariant done + n == |x| && reader.left == x[done..] && writer.HasRoom(0)
      invariant wmem.Valid() && fresh(wmem) && fresh(wmem.smallTable) && (wmem.largeTable != null ==> fresh(wmem.largeTable))
      invariant scratch != null ==> fresh(scratch) && BlockLength(n) <= scratch.Length
      invariant scratchOutput != null ==> fresh(scratchOutput) && MaxCompressedLength(BlockLength(n)) <= scratchOutput.Length
      invariant BetweenBlocks(own, x, fast, done, header, room, start, startSpace, writer.Contents(), writer.Space(), written, roomy)
    {
      var numToRead := BlockLength(n);
      ghost var contents, space := writer.Contents(), writer.Space();
      RoomForBlock(own, x, fast, done, numToRead, header, room, start, startSpace, contents, space, written, roomy);
      LaterBlockFits(n);
      var more;
      ghost var blockRoomy;
      more, scratch, scratchOutput, blockRoomy := CompressNext(reader, writer, wmem, scratch, scratchOutput, numToRead, fast);
      AfterBlock(own, x, fast, done, numToRead, header, room, start, startSpace, contents, space, writer.Space(), written, roomy, blockRoomy);
      written, roomy := written + more, roomy && blockRoomy;
      n := n - numToRead;
      done := done + numToRead;
    }
    BehindBlocks(own, x, fast, header, room, start, startSpace, writer.Contents(), writer.Space(), written, roomy);
  }

  lemma NoBlocks(fast: bool)
    ensures CompressedBlocks([], fast) == [] && forall space :: Roomy([], fast, space)
  {
  }

  /** One iteration: reads a block, compresses it and skips what is still pending of it. */
  method CompressNext(reader: Source, writer: AppendSink, wmem: WorkingMemory, scratch0: array?<Byte>, scratchOutput0: array?<Byte>,
                      numToRead: nat, fast: bool)
    returns (written: nat, scratch: array?<Byte>, scratchOutput: array?<Byte>, ghost roomy: bool)
    requires 0 < numToRead <= |reader.left| && numToRead <= BLOCK_SIZE && wmem.Valid()
    requires scratch0 != null ==> numToRead <= scratch0.Length && scratch0 !in writer.Repr()
    requires scratchOutput0 != null ==> MaxCompressedLength(numToRead) <= scratchOutput0.Length && scratchOutput0 !in writer.Repr()
    requires writer.HasRoom(StoreRoom(numToRead)) && reader !in writer.Repr()
    modifies reader, wmem, wmem.smallTable, wmem.largeTable, scratch0, scratchOutput0, writer.Repr()
    ensures wmem.Valid() && writer.HasRoom(0) && reader.left == old(reader.left)[numToRead..]
    ensures wmem.largeTable != null ==> fresh(wmem.largeTable) || wmem.largeTable == old(wmem.largeTable)
    ensures scratch == scratch0 || (scratch != null && fresh(scratch) && scratch.Length == numToRead)
    ensures scratchOutput != null && (scratchOutput == scratchOutput0
              || (fresh(scratchOutput) && scratchOutput.Length == MaxCompressedLength(numToRead)))
    ensures var bytes := CompressedBlock(old(reader.left)[..numToRead], TableBits(8, numToRead), fast);
            written == |bytes| && writer.Contents() == old(writer.Contents()) + bytes
    ensures writer.Unchecked? ==> writer.array_.dest == old(writer.array_.dest) + written
    ensures roomy <==> old(writer.HasRoom(MaxCompressedLength(numToRead)))
  {
    hide CompressedBlock, TableBits, MaxCompressedLength, StoreRoom;
    var block, pending;
    block, pending, scratch := ReadBlock(reader, scratch0, numToRead);
    scratchOutput := scratchOutput0;
    if scratchOutput == null {
      scratchOutput := new Byte[MaxCompressedLength(numToRead)];
    }
    written, roomy := CompressBlock(block, writer, wmem, scratchOutput, fast);
    reader.Skip(pending);
  }

  /** The first block and the others. */
  lemma BlocksStep(x: seq<Byte>, fast: bool)
    requires x != []
    ensures BlockLength(|x|) == if |x| <= 65536 then |x| else 65536
    ensures var n := BlockLength(|x|);
            CompressedBlocks(x, fast) == CompressedBlock(x[..n], TableBits(8, n), fast) + CompressedBlocks(x[n..], fast)
  {
    hide CompressedBlock;
  }
}
