/** Decompression into a list of separate buffers. */
module IOVecWriter {
  import opened Bytes
  import opened Format
  import opened IncrementalCopy
  import opened Progress
  import opened Scatter
  import opened Sequences

  class IOVecWriter {
    const iovs: seq<array<Byte>>
    var currIndex: nat
    var currWritten: nat
    var totalWritten: nat
    var outputLimit: nat
    ghost var progress: Progress

    ghost predicate Valid()
      reads this, iovs
    {
      && Distinct(iovs)
      && (if iovs == [] then currIndex == currWritten == 0 else currIndex < |iovs| && currWritten <= iovs[currIndex].Length)
      && totalWritten == Start(iovs, currIndex) + currWritten
      && outputLimit < U64
      && match progress
         case Idle => totalWritten == 0
         case Running(out, limit) =>
           && outputLimit == limit <= Start(iovs, |iovs|) && totalWritten == |out| <= limit < U32
           && out <= Flatten(Snapshot(iovs))
         case Rejected => true
         case Cramped => iovs != [] && Start(iovs, |iovs|) < outputLimit
    }

    /** What the buffers hold beyond the declared length. */
    ghost function Outside(): seq<Byte>
      reads this`outputLimit, iovs
    {
      Beyond(Flatten(Snapshot(iovs)), outputLimit)
    }

    constructor (iovs: seq<array<Byte>>)
      requires Distinct(iovs)
      ensures Valid() && progress == Idle && this.iovs == iovs
    {
      this.iovs := iovs;
      currIndex := 0;
      currWritten := 0;
      totalWritten := 0;
      outputLimit := U64 - 1;
      progress := Idle;
    }

    method SetExpectedLength(len: nat)
      requires Valid() && progress == Idle && len < U32 && (iovs == [] ==> len == 0)
      modifies this
      ensures Valid()
      ensures progress == if len <= Start(iovs, |iovs|) then Running([], len) else Cramped
      ensures outputLimit == len
    {
      outputLimit := len;
      progress := if len <= Start(iovs, |iovs|) then Running([], len) else Cramped;
    }

    method CheckLength() returns (ok: bool)
      requires Valid()
      ensures progress.Running? ==> (ok <==> |progress.out| == progress.limit)
      ensures progress.Cramped? ==> !ok
    {
      if iovs != [] {
        StartMonotone(iovs, currIndex + 1, |iovs|);
      }
      ok := totalWritten == outputLimit;
    }

    /** A store of n bytes behind the filled part of the current buffer that stays within the declared length. */
    lemma StoreKeepsOutside(before: seq<seq<Byte>>, n: nat)
      requires currIndex < |iovs| == |before| && currWritten + n <= iovs[currIndex].Length == |before[currIndex]|
      requires before[currIndex := iovs[currIndex][..]] == Snapshot(iovs)
      requires iovs[currIndex][currWritten + n..] == before[currIndex][currWritten + n..]
      requires Start(iovs, currIndex) + currWritten + n <= outputLimit || Start(iovs, |iovs|) < outputLimit
      ensures Outside() == Beyond(Flatten(before), outputLimit)
    {
      hide Flatten, Start, Beyond;
      StartIsLength(iovs, currIndex);
      StartIsLength(iovs, |iovs|);
      assert Snapshot(iovs)[..|iovs|] == Snapshot(iovs);
      assert Snapshot(iovs)[..currIndex] == before[..currIndex];
      var now := Snapshot(iovs);
      assert before == now[currIndex := before[currIndex]];
      PutKeepsBeyond(now, currIndex, before[currIndex], currWritten + n, outputLimit);
    }

    /** Accounts for bytes that were just stored behind the filled part of the current buffer. */
    method Advance(ghost bytes: seq<Byte>, n: nat, ghost before: seq<seq<Byte>>)
      requires Distinct(iovs) && currIndex < |iovs| && n == |bytes| && currWritten + n <= iovs[currIndex].Length
      requires totalWritten == Start(iovs, currIndex) + currWritten && outputLimit < U64
      requires |before| == |iovs| && before[currIndex := iovs[currIndex][..]] == Snapshot(iovs)
      requires |before[currIndex]| == iovs[currIndex].Length
      requires iovs[currIndex][..currWritten] == before[currIndex][..currWritten]
      requires iovs[currIndex][currWritten..currWritten + n] == bytes
      requires match progress
               case Running(out, limit) =>
                 && outputLimit == limit <= Start(iovs, |iovs|) && totalWritten == |out| && |out| + n <= limit < U32
                 && out <= Flatten(before)
               case Cramped => iovs != [] && Start(iovs, |iovs|) < outputLimit
               case _ => false
      modifies this
      ensures Valid() && progress == AfterAppend(old(progress), bytes) && Open(progress)
      ensures currIndex == old(currIndex) && currWritten == old(currWritten) + n
      ensures totalWritten == old(totalWritten) + n && outputLimit == old(outputLimit)
    {
      hide Flatten, Start, Distinct;
      if progress.Running? {
        StartIsLength(iovs, currIndex);
        assert Snapshot(iovs)[..currIndex] == before[..currIndex];
        PutExtends(before, currIndex, iovs[currIndex][..], currWritten, bytes, progress.out);
      }
      progress := AfterAppend(progress, bytes);
      currWritten := currWritten + n;
      totalWritten := totalWritten + n;
    }

    /** The memcpy of Append: stores bytes in the current buffer. */
    method Put(bytes: seq<Byte>)
      requires Valid() && Open(progress) && iovs != [] && currWritten + |bytes| <= iovs[currIndex].Length
      requires progress.Running? ==> totalWritten + |bytes| <= outputLimit
      modifies this, iovs[currIndex]
      ensures Valid() && progress == AfterAppend(old(progress), bytes) && Open(progress)
      ensures currIndex == old(currIndex) && currWritten == old(currWritten) + |bytes|
      ensures totalWritten == old(totalWritten) + |bytes| && outputLimit == old(outputLimit)
      ensures Outside() == old(Outside())
    {
      hide Flatten, Beyond, Start;
      ghost var before := Snapshot(iovs);
      MemCopy(bytes, iovs[currIndex], currWritten);
      StoreKeepsOutside(before, |bytes|);
      Advance(bytes, |bytes|, before);
    }

    /** Stores as much of ip as the current buffer still holds. */
    method PutSome(ip: seq<Byte>) returns (toWrite: nat)
      requires Valid() && Open(progress) && ip != []
      requires progress.Running? ==> totalWritten + |ip| <= outputLimit
      modifies this, iovs[currIndex]
      ensures Valid() && Open(progress) && toWrite <= |ip|
      ensures progress.Running? <==> old(progress).Running?
      ensures AfterAppend(progress, ip[toWrite..]) == AfterAppend(old(progress), ip)
      ensures totalWritten == old(totalWritten) + toWrite && currIndex == old(currIndex) && outputLimit == old(outputLimit)
      ensures toWrite > 0 || iovs[currIndex].Length == old(currWritten)
      ensures toWrite == |ip| || currWritten == iovs[currIndex].Length
      ensures Outside() == old(Outside())
    {
      hide Flatten, Beyond, Distinct, Start, Outside;
      var room := iovs[currIndex].Length - currWritten;
      toWrite := if |ip| <= room then |ip| else room;
      AppendInParts(progress, ip[..toWrite], ip[toWrite..]);
      assert ip == ip[..toWrite] + ip[toWrite..];
      Put(ip[..toWrite]);
    }

    /** Moves on to the next buffer once the current one is full. */
    method NextBuffer()
      requires Valid() && currIndex + 1 < |iovs| && currWritten == iovs[currIndex].Length
      modifies this`currIndex, this`currWritten
      ensures Valid()
      ensures currIndex == old(currIndex) + 1 && currWritten == 0
      ensures Outside() == old(Outside())
    {
      currWritten := 0;
      currIndex := currIndex + 1;
    }

    /** One round of Append's loop: false if the last buffer is full, else the number of bytes stored. */
    method AppendSome(ip: seq<Byte>) returns (ok: bool, toWrite: nat)
      requires Valid() && Open(progress) && ip != []
      requires totalWritten + |ip| <= outputLimit
      modifies this, iovs
      ensures Valid() && Open(progress) && toWrite <= |ip| && outputLimit == old(outputLimit)
      ensures progress.Running? <==> old(progress).Running?
      ensures totalWritten == old(totalWritten) + toWrite && currIndex >= old(currIndex)
      ensures ok ==> AfterAppend(progress, ip[toWrite..]) == AfterAppend(old(progress), ip)
      ensures ok ==> toWrite > 0 || currIndex > old(currIndex)
      ensures !ok ==> progress.Cramped? && Full() && toWrite == 0
      ensures Outside() == old(Outside())
    {
      hide Flatten, Beyond, Distinct, Outside;
      ok, toWrite := true, 0;
      if currWritten >= iovs[currIndex].Length {
        if currIndex + 1 >= |iovs| {
          return false, 0;
        }
        NextBuffer();
      }
      toWrite := PutSome(ip);
    }

    method Append(ip0: seq<Byte>) returns (ok: bool)
      requires Valid() && Open(progress)
      modifies this, iovs
      ensures Valid() && progress == AfterAppend(old(progress), ip0)
      ensures old(progress).Running? ==> (ok <==> !progress.Rejected?)
      ensures outputLimit == old(outputLimit) && currIndex >= old(currIndex)
      ensures totalWritten <= old(totalWritten) + |ip0|
      ensures ok ==> totalWritten == old(totalWritten) + |ip0|
      ensures !ok ==> progress.Rejected? || Full() || (totalWritten == old(totalWritten) && totalWritten + |ip0| > outputLimit)
      ensures Outside() == old(Outside())
    {
      hide Start, Flatten, Distinct, Outside;
      var ip := ip0;
      if totalWritten + |ip| > outputLimit {
        progress := AfterAppend(progress, ip);
        return false;
      }
      while |ip| > 0
        invariant Valid() && Open(progress)
        invariant AfterAppend(progress, ip) == AfterAppend(old(progress), ip0)
        invariant progress.Running? <==> old(progress).Running?
        invariant totalWritten + |ip| == old(totalWritten) + |ip0| <= outputLimit == old(outputLimit)
        invariant currIndex >= old(currIndex)
        invariant Outside() == old(Outside())
        decreases |ip| + |iovs| - currIndex
      {
        var toWrite;
        ok, toWrite := AppendSome(ip);
        if !ok { return; }
        ip := ip[toWrite..];
      }
      ok := true;
    }

    /** The last buffer is filled to the brim. */
    ghost predicate Full()
      reads this
    {
      currIndex + 1 == |iovs| && currWritten == iovs[currIndex].Length
    }

    /** ip is everything readable behind the tag; len bytes of it are the literal. */
    method TryFastAppend(ip: seq<Byte>, len: nat) returns (ok: bool)
      requires Valid() && Open(progress)
      modifies this, iovs
      ensures Valid()
      ensures ok ==> len <= 16 && len + 5 <= |ip| && progress == AfterAppend(old(progress), ip[..len]) && Open(progress)
      ensures !ok ==> progress == old(progress)
      ensures Outside() == old(Outside())
    {
      hide Flatten, Beyond, Start;
      ok := false;
      var spaceLeft := outputLimit - totalWritten;
      if len <= 16 && |ip| >= 21 && spaceLeft >= 16 && iovs[currIndex].Length - currWritten >= 16 {
        ghost var before := Snapshot(iovs);
        UnalignedCopy128(ip, iovs[currIndex], currWritten);
        assert iovs[currIndex][currWritten..currWritten + len] == ip[..len];
        StoreKeepsOutside(before, 16);
        Advance(ip[..len], len, before);
        ok := true;
      }
    }

    /** Finds the buffer and the position in it that lie offset bytes back. */
    method Locate(offset0: nat) returns (fromIndex: nat, fromOffset: nat)
      requires Valid() && 1 <= offset0 <= totalWritten
      ensures fromIndex <= currIndex && fromOffset <= iovs[fromIndex].Length
      ensures Start(iovs, fromIndex) + fromOffset + offset0 == totalWritten
    {
      var offset := offset0;
      fromIndex := currIndex;
      fromOffset := currWritten;
      while offset > 0
        invariant 0 < offset <= Start(iovs, fromIndex) + fromOffset
        invariant fromIndex <= currIndex && fromOffset <= iovs[fromIndex].Length
        invariant Start(iovs, fromIndex) + fromOffset + offset0 == totalWritten + offset
        decreases fromIndex
      {
        if fromOffset >= offset {
          fromOffset := fromOffset - offset;
          break;
        }
        offset := offset - fromOffset;
        fromIndex := fromIndex - 1;
        fromOffset := iovs[fromIndex].Length;
      }
    }

    /** Where a copy reads next: offset bytes behind the end, unless a cramped writer has already dropped bytes. */
    ghost predicate Behind(fromIndex: nat, fromOffset: nat, offset: nat)
      reads this
    {
      && fromIndex <= currIndex < |iovs| && fromOffset <= iovs[fromIndex].Length
      && (Start(iovs, fromIndex) + fromOffset + offset == totalWritten || (progress.Cramped? && Full()))
    }

    /** Bytes that lie in an earlier buffer are finished, so copying them needs no overlap. */
    lemma EarlierBytes(fromIndex: nat, fromOffset: nat, offset: nat, n: nat)
      requires Valid() && Open(progress) && offset >= 1
      requires fromIndex < currIndex && fromOffset + n <= iovs[fromIndex].Length
      requires Start(iovs, fromIndex) + fromOffset + offset == totalWritten
      ensures AfterCopy(progress, offset, n) == AfterAppend(progress, iovs[fromIndex][fromOffset..fromOffset + n])
    {
      hide CopyBytes, Distinct;
      if progress.Running? {
        StartMonotone(iovs, fromIndex + 1, currIndex);
        StartIsLength(iovs, fromIndex);
        CopyOfEarlierPiece(Snapshot(iovs), progress.out, fromIndex, fromOffset, offset, n);
      }
    }

    /** Copies n bytes of an earlier buffer to the end; the result of Append is not looked at. */
    method CopyAcross(fromIndex: nat, fromOffset: nat, offset: nat, n: nat, ghost more: nat)
      requires Valid() && Open(progress) && offset >= 1 && Behind(fromIndex, fromOffset, offset)
      requires fromIndex < currIndex && fromOffset + n <= iovs[fromIndex].Length
      requires totalWritten + n <= outputLimit
      modifies this, iovs
      ensures Valid() && Open(progress) && outputLimit == old(outputLimit) && currIndex >= old(currIndex)
      ensures progress.Running? <==> old(progress).Running?
      ensures AfterCopy(progress, offset, more) == AfterCopy(old(progress), offset, n + more)
      ensures totalWritten <= old(totalWritten) + n
      ensures Behind(fromIndex, fromOffset + n, offset)
      ensures Outside() == old(Outside())
    {
      hide Flatten, Beyond, Distinct, CopyBytes, Outside;
      CopyInParts(progress, offset, n, more);
      var bytes := iovs[fromIndex][fromOffset..fromOffset + n];
      if progress.Running? {
        EarlierBytes(fromIndex, fromOffset, offset, n);
      }
      var _ := Append(bytes);
    }

    /** Copying inside the current buffer is copying inside everything written so far. */
    lemma CurrentBytes(offset: nat, n: nat)
      requires Valid() && progress.Running? && 1 <= offset <= currWritten
      ensures offset <= |progress.out|
      ensures CopyBytes(progress.out, offset, n) == progress.out + CopyBytes(iovs[currIndex][..currWritten], offset, n)[currWritten..]
    {
      StartIsLength(iovs, currIndex);
      CopyOfCurrentPiece(Snapshot(iovs), progress.out, currIndex, currWritten, offset, n);
    }

    /** The stores of CopyWithin. */
    method StoreCopy(fromOffset: nat, offset: nat, n: nat)
      requires Distinct(iovs) && currIndex < |iovs| && offset >= 1 && fromOffset + offset == currWritten
      requires currWritten + n <= iovs[currIndex].Length
      modifies iovs[currIndex]
      ensures var row, was := iovs[currIndex][..], old(iovs[currIndex][..]);
              && row[..currWritten] == was[..currWritten] && row[currWritten + n..] == was[currWritten + n..]
              && row[currWritten..currWritten + n] == CopyBytes(was[..currWritten], offset, n)[currWritten..]
      ensures Snapshot(iovs) == old(Snapshot(iovs))[currIndex := iovs[currIndex][..]]
    {
      hide CopyBytes;
      ghost var was := iovs[currIndex][..];
      var _ := IncrementalCopySlow(iovs[currIndex], fromOffset, currWritten, currWritten + n);
      SlowlyCopiedParts(iovs[currIndex][..], was, offset, currWritten, currWritten + n);
    }

    /** Copies n bytes inside the current buffer, a byte at a time. */
    method CopyWithin(fromOffset: nat, offset: nat, n: nat, ghost more: nat)
      requires Valid() && Open(progress) && offset >= 1 && fromOffset + offset == currWritten
      requires currWritten + n <= iovs[currIndex].Length
      requires progress.Running? ==> totalWritten + n <= outputLimit
      modifies this, iovs
      ensures Valid() && Open(progress) && outputLimit == old(outputLimit) && currIndex == old(currIndex)
      ensures progress.Running? <==> old(progress).Running?
      ensures AfterCopy(progress, offset, more) == AfterCopy(old(progress), offset, n + more)
      ensures totalWritten == old(totalWritten) + n && currWritten == old(currWritten) + n
      ensures Outside() == old(Outside())
    {
      hide CopyBytes, Start, Flatten, Beyond;
      ghost var before := Snapshot(iovs);
      var row := iovs[currIndex];
      CopyInParts(progress, offset, n, more);
      ghost var filled := row[..currWritten];
      ghost var bytes := CopyBytes(filled, offset, n)[currWritten..];
      if progress.Running? {
        CurrentBytes(offset, n);
      }
      StoreCopy(fromOffset, offset, n);
      StoreKeepsOutside(before, n);
      Advance(bytes, n, before);
    }

    /** One round of AppendFromSelf's copy loop while the source lies in an earlier buffer. */
    method RoundAcross(fromIndex0: nat, fromOffset0: nat, offset: nat, len0: nat) returns (fromIndex: nat, fromOffset: nat, len: nat)
      requires Valid() && Open(progress) && offset >= 1 && Behind(fromIndex0, fromOffset0, offset)
      requires 0 < len0 && totalWritten + len0 <= outputLimit && fromIndex0 < currIndex
      modifies this, iovs
      ensures Valid() && Open(progress) && (progress.Running? <==> old(progress).Running?)
      ensures len <= len0 && totalWritten + len <= outputLimit == old(outputLimit) && currIndex >= old(currIndex)
      ensures AfterCopy(progress, offset, len) == AfterCopy(old(progress), offset, len0)
      ensures Behind(fromIndex, fromOffset, offset)
      ensures len < len0 || fromIndex > fromIndex0
      ensures fromIndex >= fromIndex0
      ensures Outside() == old(Outside())
    {
      hide Flatten, Distinct, CopyBytes, Outside;
      var rest := iovs[fromIndex0].Length - fromOffset0;
      var toCopy := if rest <= len0 then rest else len0;
      len := len0 - toCopy;
      CopyAcross(fromIndex0, fromOffset0, offset, toCopy, len);
      fromIndex, fromOffset := fromIndex0, fromOffset0 + toCopy;
      if len > 0 {
        NextSource(fromIndex, offset);
        fromIndex, fromOffset := fromIndex + 1, 0;
      }
    }

    /** The end of one buffer and the start of the next are the same place. */
    lemma NextSource(fromIndex: nat, offset: nat)
      requires fromIndex < currIndex < |iovs| && Behind(fromIndex, iovs[fromIndex].Length, offset)
      ensures Behind(fromIndex + 1, 0, offset)
    {
    }

    /** One round while source and target share the current buffer; false if the last buffer is full. */
    method RoundWithin(fromOffset0: nat, offset: nat, len0: nat) returns (ok: bool, fromOffset: nat, len: nat)
      requires Valid() && Open(progress) && offset >= 1 && Behind(currIndex, fromOffset0, offset)
      requires 0 < len0 && totalWritten + len0 <= outputLimit
      modifies this, iovs
      ensures Valid() && Open(progress) && (progress.Running? <==> old(progress).Running?)
      ensures len <= len0 && totalWritten + len <= outputLimit == old(outputLimit) && currIndex >= old(currIndex)
      ensures AfterCopy(progress, offset, len) == AfterCopy(old(progress), offset, len0)
      ensures Behind(old(currIndex), fromOffset, offset)
      ensures ok ==> len < len0 || currIndex > old(currIndex)
      ensures !ok ==> progress.Cramped?
      ensures Outside() == old(Outside())
    {
      hide Flatten, Distinct, CopyBytes, Outside;
      fromOffset, len := fromOffset0, len0;
      var rest := iovs[currIndex].Length - currWritten;
      var toCopy := if rest <= len then rest else len;
      if toCopy == 0 {
        if currIndex + 1 >= |iovs| {
          return false, fromOffset, len;
        }
        NextBuffer();
        return true, fromOffset, len;
      }
      len := len0 - toCopy;
      CopyWithin(fromOffset, offset, toCopy, len);
      fromOffset := fromOffset + toCopy;
      ok := true;
    }

    method AppendFromSelf(offset: nat, len0: nat) returns (ok: bool)
      requires Valid() && Open(progress)
      modifies this, iovs
      ensures Valid() && progress == AfterCopy(old(progress), offset, len0)
      ensures old(progress).Running? ==> (ok <==> !progress.Rejected?)
      ensures Outside() == old(Outside())
    {
      hide Flatten, Distinct, CopyBytes;
      if offset > totalWritten || offset == 0 {
        progress := AfterCopy(progress, offset, len0);
        return false;
      }
      var spaceLeft := outputLimit - totalWritten;
      if len0 > spaceLeft {
        progress := AfterCopy(progress, offset, len0);
        return false;
      }
      var fromIndex, fromOffset := Locate(offset);
      ok := CopyRun(fromIndex, fromOffset, offset, len0);
    }

    /** The copy loop of AppendFromSelf. */
    method CopyRun(fromIndex0: nat, fromOffset0: nat, offset: nat, len0: nat) returns (ok: bool)
      requires Valid() && Open(progress) && offset >= 1 && Behind(fromIndex0, fromOffset0, offset)
      requires totalWritten + len0 <= outputLimit
      modifies this, iovs
      ensures Valid() && Open(progress) && (progress.Running? <==> old(progress).Running?)
      ensures progress == AfterCopy(old(progress), offset, len0)
      ensures !ok ==> progress.Cramped?
      ensures Outside() == old(Outside())
    {
      hide Flatten, Distinct, Outside;
      var fromIndex, fromOffset, len := fromIndex0, fromOffset0, len0;
      ghost var target := AfterCopy(progress, offset, len0);
      while len > 0
        invariant Valid() && Open(progress) && (progress.Running? <==> target.Running?)
        invariant totalWritten + len <= outputLimit && Behind(fromIndex, fromOffset, offset)
        invariant AfterCopy(progress, offset, len) == target
        invariant Outside() == old(Outside())
        decreases len, 2 * |iovs| - fromIndex - currIndex
      {
        if fromIndex != currIndex {
          fromIndex, fromOffset, len := RoundAcross(fromIndex, fromOffset, offset, len);
        } else {
          ok, fromOffset, len := RoundWithin(fromOffset, offset, len);
          if !ok {
            return;
          }
        }
      }
      ok := true;
    }
  }
}
