/** Decompression into 64 KB blocks that are handed to a sink at the end. */
module ScatteredWriter {
  import opened Bytes
  import opened Format
  import opened IncrementalCopy
  import opened Progress
  import opened Scatter
  import opened Sequences
  import opened SourceSink

  /** Allocates blocks and remembers them until they can be given to the sink. */
  class SinkAllocator {
    const dest: Sink
    var blocks: seq<array<Byte>>

    constructor (dest: Sink)
      ensures this.dest == dest && blocks == []
    {
      this.dest := dest;
      blocks := [];
    }

    method Allocate(size: nat) returns (block: array<Byte>)
      modifies this
      ensures fresh(block) && block.Length == size
      ensures blocks == old(blocks) + [block]
    {
      block := new Byte[size];
      blocks := blocks + [block];
    }

    /** Hands the blocks over in order, but no more than size bytes in all. */
    method Flush(size: nat)
      modifies this, dest
      ensures blocks == []
      ensures var all := old(Flatten(Snapshot(blocks)));
              dest.contents == old(dest.contents) + if size <= |all| then all[..size] else all
    {
      var sizeWritten := 0;
      ghost var mem := Snapshot(blocks);
      for i := 0 to |blocks|
        invariant blocks == old(blocks) && Snapshot(blocks) == mem
        invariant sizeWritten <= size
        invariant sizeWritten < size ==> sizeWritten == |Flatten(mem[..i])|
        invariant sizeWritten <= |Flatten(mem[..i])|
        invariant dest.contents == old(dest.contents) + Flatten(mem[..i])[..sizeWritten]
      {
        var room := size - sizeWritten;
        var blockSize := if blocks[i].Length <= room then blocks[i].Length else room;
        assert mem[..i + 1][..i] == mem[..i];
        dest.Append(blocks[i][..blockSize]);
        sizeWritten := sizeWritten + blockSize;
      }
      assert mem[..|blocks|] == mem;
      blocks := [];
    }
  }

  /** All blocks but the last have the full size, and together they are no larger than expected; full bytes lie
      in the blocks before the last, and out is what has been produced: those and ptr bytes of the last block,
      whose size is lim. */
  ghost predicate Layout(mem: seq<seq<Byte>>, out: seq<Byte>, full: nat, ptr: nat, lim: nat, expected: nat)
  {
    && |out| == full + ptr && ptr <= lim && full + lim <= expected
    && if mem == [] then full == lim == 0
       else
         && Uniform(mem, BLOCK_SIZE)
         && |mem[|mem| - 1]| == lim <= BLOCK_SIZE && (lim == BLOCK_SIZE || full + lim == expected)
         && full == |Flatten(mem[..|mem| - 1])| && out <= Flatten(mem)
  }

  lemma LayoutCounts(mem: seq<seq<Byte>>, out: seq<Byte>, full: nat, ptr: nat, lim: nat, expected: nat)
    requires Layout(mem, out, full, ptr, lim, expected)
    ensures |out| == full + ptr && ptr <= lim && full + lim <= expected
  {
  }

  /** Storing bytes behind the filled part of the last block keeps the layout. */
  lemma LayoutPut(mem: seq<seq<Byte>>, row: seq<Byte>, bytes: seq<Byte>, out: seq<Byte>, full: nat, ptr: nat, lim: nat, expected: nat)
    requires Layout(mem, out, full, ptr, lim, expected) && mem != []
    requires |row| == lim && ptr + |bytes| <= lim && row[..ptr] == mem[|mem| - 1][..ptr] && row[ptr..ptr + |bytes|] == bytes
    ensures Layout(mem[|mem| - 1 := row], out + bytes, full, ptr + |bytes|, lim, expected)
  {
    PutExtends(mem, |mem| - 1, row, ptr, bytes, out);
    assert mem[|mem| - 1 := row][..|mem| - 1] == mem[..|mem| - 1];
  }

  /** When the last block is full and more bytes are expected, a new block of the right size keeps the layout. */
  lemma LayoutGrow(mem: seq<seq<Byte>>, block: seq<Byte>, out: seq<Byte>, full: nat, lim: nat, expected: nat)
    requires Layout(mem, out, full, lim, lim, expected) && |out| < expected
    requires |block| == if BLOCK_SIZE <= expected - |out| then BLOCK_SIZE else expected - |out|
    ensures Layout(mem + [block], out, |out|, 0, |block|, expected)
  {
    if mem == [] {
      assert mem + [block] == [block] && [block][..0] == [];
    } else {
      FlattenAround(mem, |mem| - 1);
      assert mem[|mem| - 1 + 1..] == [];
      assert out == Flatten(mem);
    }
    FlattenSnoc(mem, block);
    assert (mem + [block])[..|mem|] == mem;
  }

  class ScatteredWriter {
    const allocator: SinkAllocator
    var blocks: seq<array<Byte>>
    var expected: nat
    var fullSize: nat
    var opPtr: nat    // next unfilled byte of the last block
    var opLimit: nat  // size of the last block
    ghost var flushed: bool
    ghost var progress: Progress

    ghost predicate Valid()
      reads this, blocks
    {
      && Distinct(blocks) && expected < U32
      && match progress
         case Idle => blocks == [] && fullSize == opPtr == opLimit == 0
         case Running(out, limit) =>
           expected == limit && Layout(Snapshot(blocks), out, fullSize, opPtr, opLimit, expected)
         case Rejected => true
         case Cramped => false
    }

    function LastBlock(): array<Byte>
      requires blocks != []
      reads this
    {
      blocks[|blocks| - 1]
    }

    /** May be appended to. */
    ghost predicate Ready()
      reads this, allocator
    {
      Open(progress) && Unflushed()
    }

    /** The blocks are still with the allocator. */
    ghost predicate Unflushed()
      reads this, allocator
    {
      !flushed && allocator.blocks == blocks
    }

    constructor (allocator: SinkAllocator)
      requires allocator.blocks == []
      ensures Valid() && progress == Idle && Unflushed() && this.allocator == allocator && blocks == []
    {
      this.allocator := allocator;
      blocks := [];
      expected := 0;
      fullSize := 0;
      opPtr := 0;
      opLimit := 0;
      flushed := false;
      progress := Idle;
    }

    function Size(): nat
      reads this
    {
      fullSize + opPtr
    }

    method SetExpectedLength(len: nat)
      requires Valid() && progress == Idle && Unflushed() && len < U32
      modifies this
      ensures Valid() && progress == Running([], len) && Unflushed() && blocks == []
    {
      expected := len;
      progress := Running([], len);
    }

    method CheckLength() returns (ok: bool)
      requires Valid()
      ensures progress.Running? ==> (ok <==> |progress.out| == progress.limit)
    {
      ok := Size() == expected;
    }

    /** Asks the allocator to write the blocks to the sink. */
    method Flush()
      requires Valid() && Unflushed()
      modifies this, allocator, allocator.dest
      ensures Valid() && progress == old(progress) && flushed
      ensures blocks == old(blocks)
      ensures progress.Running? ==> allocator.dest.contents == old(allocator.dest.contents) + progress.out
    {
      ghost var p := progress;
      allocator.Flush(Size());
      flushed := true;
    }

    /** The memcpy of Append: stores bytes in the last block, which has room for them. */
    method Put(bytes: seq<Byte>)
      requires Valid() && Ready() && opPtr + |bytes| <= opLimit
      modifies this`opPtr, this`progress, blocks
      ensures Valid() && Ready() && progress == AfterAppend(old(progress), bytes)
      ensures opPtr == old(opPtr) + |bytes|
    {
      if blocks != [] {
        ghost var before := Snapshot(blocks);
        MemCopy(bytes, LastBlock(), opPtr);
        Advance(bytes, |bytes|, before);
      } else {
        assert progress.out + bytes == progress.out;
      }
    }

    /** Accounts for bytes that were just stored behind the filled part of the last block. */
    method Advance(ghost bytes: seq<Byte>, n: nat, ghost before: seq<seq<Byte>>)
      requires Distinct(blocks) && blocks != [] && Ready() && progress.Running? && progress.limit == expected < U32
      requires n == |bytes| && opPtr + n <= opLimit == LastBlock().Length
      requires Layout(before, progress.out, fullSize, opPtr, opLimit, expected)
      requires |before| == |blocks| && before[|blocks| - 1 := LastBlock()[..]] == Snapshot(blocks)
      requires LastBlock()[..opPtr] == before[|blocks| - 1][..opPtr] && LastBlock()[opPtr..opPtr + n] == bytes
      modifies this`opPtr, this`progress
      ensures Valid() && Ready() && progress == AfterAppend(old(progress), bytes)
      ensures opPtr == old(opPtr) + n
    {
      hide Layout, Distinct;
      LayoutPut(before, LastBlock()[..], bytes, progress.out, fullSize, opPtr, opLimit, expected);
      progress := AfterAppend(progress, bytes);
      opPtr := opPtr + n;
    }

    /** The last block is full and len more bytes are to come: makes room for them unless they exceed what is expected. */
    method NextBlock(len: nat) returns (ok: bool)
      requires Valid() && Ready() && opPtr == opLimit && len > 0
      modifies this, allocator
      ensures Valid() && Unflushed()
      ensures ok <==> |old(progress.out)| + len <= expected
      ensures expected == old(expected)
      ensures ok ==> progress == old(progress) && opPtr == 0 < opLimit
      ensures !ok ==> progress.Rejected?
      ensures forall i :: 0 <= i < |blocks| ==> blocks[i] in old(blocks) || fresh(blocks[i])
    {
      if fullSize + opPtr + len > expected {
        fullSize := fullSize + opPtr;
        progress := Rejected;
        return false;
      }
      AddBlock();
      ok := true;
    }

    /** Counts the last block as full and allocates the next one. */
    method AddBlock()
      requires Valid() && Ready() && opPtr == opLimit && |progress.out| < expected
      modifies this, allocator
      ensures Valid() && Ready() && progress == old(progress) && expected == old(expected)
      ensures opPtr == 0 < opLimit
      ensures exists b :: fresh(b) && blocks == old(blocks) + [b]
    {
      hide Layout, Distinct, Snapshot;
      ghost var mem := Snapshot(blocks);
      LayoutCounts(mem, progress.out, fullSize, opPtr, opLimit, expected);
      fullSize := fullSize + opPtr;
      var bsize := if BLOCK_SIZE <= expected - fullSize then BLOCK_SIZE else expected - fullSize;
      var block := allocator.Allocate(bsize);
      LayoutGrow(mem, block[..], progress.out, fullSize - opPtr, opLimit, expected);
      opPtr := 0;
      opLimit := bsize;
      AddBuffer(blocks, block);
      blocks := blocks + [block];
    }

    /** One round of SlowAppend: fills the last block with the front of ip and makes room for the rest. */
    method FillBlock(ip: seq<Byte>) returns (ok: bool)
      requires Valid() && Ready() && |ip| > opLimit - opPtr
      modifies this, allocator, blocks
      ensures Valid() && Unflushed()
      ensures ok ==> Ready() && opPtr == 0 < opLimit
      ensures ok ==> AfterAppend(progress, ip[old(opLimit - opPtr)..]) == AfterAppend(old(progress), ip)
      ensures !ok ==> progress == AfterAppend(old(progress), ip) && progress.Rejected?
      ensures forall i :: 0 <= i < |blocks| ==> blocks[i] in old(blocks) || fresh(blocks[i])
    {
      var avail := opLimit - opPtr;
      AppendInParts(progress, ip[..avail], ip[avail..]);
      assert ip == ip[..avail] + ip[avail..];
      Put(ip[..avail]);
      ok := NextBlock(|ip| - avail);
    }

    method SlowAppend(ip0: seq<Byte>) returns (ok: bool)
      requires Valid() && Ready() && |ip0| > opLimit - opPtr
      modifies this, allocator, blocks
      ensures Valid() && Unflushed() && progress == AfterAppend(old(progress), ip0)
      ensures ok <==> !progress.Rejected?
      ensures forall i :: 0 <= i < |blocks| ==> blocks[i] in old(blocks) || fresh(blocks[i])
    {
      hide Flatten, Uniform, Snapshot, Distinct, AfterAppend;
      var ip := ip0;
      var avail := opLimit - opPtr;
      while |ip| > avail
        invariant Valid() && Ready() && avail == opLimit - opPtr
        invariant AfterAppend(progress, ip) == AfterAppend(old(progress), ip0)
        invariant forall i :: 0 <= i < |blocks| ==> blocks[i] in old(blocks) || fresh(blocks[i])
        decreases |ip|, if avail == 0 then 1 else 0
      {
        ok := FillBlock(ip);
        if !ok { return; }
        ip := ip[avail..];
        avail := opLimit - opPtr;
      }
      Put(ip);
      ok := true;
    }

    method Append(ip: seq<Byte>) returns (ok: bool)
      requires Valid() && Ready()
      modifies this, allocator, blocks
      ensures Valid() && Unflushed() && progress == AfterAppend(old(progress), ip)
      ensures ok <==> !progress.Rejected?
      ensures forall i :: 0 <= i < |blocks| ==> blocks[i] in old(blocks) || fresh(blocks[i])
    {
      var avail := opLimit - opPtr;
      if |ip| <= avail {
        Put(ip);
        ok := true;
      } else {
        ok := SlowAppend(ip);
      }
    }

    /** ip is everything readable behind the tag; len bytes of it are the literal. */
    method TryFastAppend(ip: seq<Byte>, len: nat) returns (ok: bool)
      requires Valid() && Ready()
      modifies this, blocks
      ensures Valid() && Ready()
      ensures ok ==> len <= 16 && len + 5 <= |ip| && progress == AfterAppend(old(progress), ip[..len])
      ensures !ok ==> progress == old(progress)
      ensures blocks == old(blocks)
    {
      ok := false;
      var spaceLeft := opLimit - opPtr;
      if len <= 16 && |ip| >= 21 && spaceLeft >= 16 {
        ghost var before := Snapshot(blocks);
        UnalignedCopy128(ip, LastBlock(), opPtr);
        Advance(ip[..len], len, before);
        ok := true;
      }
    }

    method AppendFromSelf(offset: nat, len: nat) returns (ok: bool)
      requires Valid() && Ready()
      modifies this, allocator, blocks
      ensures Valid() && Unflushed() && progress == AfterCopy(old(progress), offset, len)
      ensures ok <==> !progress.Rejected?
      ensures forall i :: 0 <= i < |blocks| ==> blocks[i] in old(blocks) || fresh(blocks[i])
    {
      var opEnd := opPtr + len;
      if MinusOneU64(offset) < opPtr && opEnd <= opLimit {
        CopyInBlock(offset, len);
        ok := true;
      } else {
        ok := SlowAppendFromSelf(offset, len);
      }
    }

    /** Copying inside the last block is copying inside everything produced so far. */
    lemma CurrentBytes(offset: nat, n: nat)
      requires Valid() && Ready() && 1 <= offset <= opPtr && opPtr + n <= opLimit
      ensures AfterCopy(progress, offset, n) == AfterAppend(progress, CopyBytes(LastBlock()[..opPtr], offset, n)[opPtr..])
    {
      CopyOfCurrentPiece(Snapshot(blocks), progress.out, |blocks| - 1, opPtr, offset, n);
    }

    /** The fast path: source and target both lie in the last block. */
    method CopyInBlock(offset: nat, len: nat)
      requires Valid() && Ready() && 1 <= offset <= opPtr && opPtr + len <= opLimit
      modifies this, blocks
      ensures Valid() && Ready() && progress == AfterCopy(old(progress), offset, len)
      ensures blocks == old(blocks)
    {
      hide Flatten, Uniform, CopyBytes, AfterCopy, AfterAppend;
      ghost var before := Snapshot(blocks);
      var block := LastBlock();
      ghost var filled := block[..opPtr];
      ghost var bytes := CopyBytes(filled, offset, len)[opPtr..];
      CurrentBytes(offset, len);
      var _ := IncrementalCopy.IncrementalCopy(block, opPtr - offset, opPtr, opPtr + len, opLimit);
      Advance(bytes, len, before);
    }

    method SlowAppendFromSelf(offset: nat, len0: nat) returns (ok: bool)
      requires Valid() && Ready()
      modifies this, allocator, blocks
      ensures Valid() && Unflushed() && progress == AfterCopy(old(progress), offset, len0)
      ensures ok <==> !progress.Rejected?
      ensures forall i :: 0 <= i < |blocks| ==> blocks[i] in old(blocks) || fresh(blocks[i])
    {
      var cur := Size();
      if MinusOneU64(offset) >= cur {
        progress := Rejected;
        return false;
      }
      if expected - cur < len0 {
        progress := Rejected;
        return false;
      }
      CopyByBytes(cur - offset, offset, len0);
      ok := true;
    }

    /** The loop of SlowAppendFromSelf. */
    method CopyByBytes(src0: nat, offset: nat, len0: nat)
      requires Valid() && Ready() && offset >= 1 && src0 + offset == |progress.out| && |progress.out| + len0 <= expected
      modifies this, allocator, blocks
      ensures Valid() && Ready() && progress == AfterCopy(old(progress), offset, len0)
      ensures forall i :: 0 <= i < |blocks| ==> blocks[i] in old(blocks) || fresh(blocks[i])
    {
      hide Flatten, Uniform, Snapshot, Distinct, AfterCopy;
      ghost var target := AfterCopy(progress, offset, len0);
      var src: nat, len: nat := src0, len0;
      while len > 0
        invariant Valid() && Ready() && src + offset == |progress.out| && |progress.out| + len <= expected
        invariant AfterCopy(progress, offset, len) == target
        invariant forall i :: 0 <= i < |blocks| ==> blocks[i] in old(blocks) || fresh(blocks[i])
      {
        len := len - 1;
        AppendByteAt(src, offset, len);
        src := src + 1;
      }
      NoCopy(progress, offset);
    }

    /** One round of the slow copy: appends the byte at src, with more bytes to follow. */
    method AppendByteAt(src: nat, offset: nat, ghost more: nat)
      requires Valid() && Ready() && offset >= 1 && src + offset == |progress.out| < expected
      modifies this, allocator, blocks
      ensures Valid() && Ready() && expected == old(expected) && |progress.out| == |old(progress.out)| + 1
      ensures AfterCopy(progress, offset, more) == AfterCopy(old(progress), offset, more + 1)
      ensures forall i :: 0 <= i < |blocks| ==> blocks[i] in old(blocks) || fresh(blocks[i])
    {
      var c := ByteAt(src);
      AppendedByte(progress, offset, c, more);
      var _ := Append([c]);
    }

    /** blocks_[src >> kBlockLog][src & (kBlockSize - 1)] is the byte produced at position src. */
    method ByteAt(src: nat) returns (c: Byte)
      requires Valid() && Ready() && src < |progress.out|
      ensures c == progress.out[src]
    {
      PositionInPieces(Snapshot(blocks), src);
      c := blocks[src / BLOCK_SIZE][src % BLOCK_SIZE];
    }
  }

  /** Appending the byte that lies offset back is the first step of a copy. */
  lemma AppendedByte(p: Progress, offset: nat, c: Byte, more: nat)
    requires p.Running? && 1 <= offset <= |p.out| < p.limit && c == p.out[|p.out| - offset]
    ensures AfterAppend(p, [c]) == Running(p.out + [c], p.limit)
    ensures AfterCopy(AfterAppend(p, [c]), offset, more) == AfterCopy(p, offset, more + 1)
  {
    assert CopyBytes(p.out, offset, 0) == p.out;
    assert CopyBytes(p.out, offset, 1) == p.out + [c];
    CopyInParts(p, offset, 1, more);
  }
}
