/** In-place overlapping copies inside one buffer: the byte-at-a-time form and the fast form that refines it. */
module IncrementalCopy {
  import opened Bytes
  import opened Format

  /** Moves eight bytes through a temporary. */
  method UnalignedCopy64(buf: array<Byte>, src: nat, dst: nat)
    requires src + 8 <= buf.Length && dst + 8 <= buf.Length
    modifies buf
    ensures forall k :: 0 <= k < buf.Length ==>
              buf[k] == if dst <= k < dst + 8 then old(buf[src + (k - dst)]) else old(buf[k])
  {
    var tmp := buf[src..src + 8];
    forall j | 0 <= j < 8 {
      buf[dst + j] := tmp[j];
    }
  }

  /** Moves sixteen bytes from ip into buf. */
  method UnalignedCopy128(ip: seq<Byte>, buf: array<Byte>, dst: nat)
    requires 16 <= |ip| && dst + 16 <= buf.Length
    modifies buf
    ensures buf[..dst] == old(buf[..dst]) && buf[dst + 16..] == old(buf[dst + 16..])
    ensures forall n :: 0 <= n <= 16 ==> buf[dst..dst + n] == ip[..n]
  {
    forall j | 0 <= j < 16 {
      buf[dst + j] := ip[j];
    }
  }

  /** memcpy from ip into buf. */
  method MemCopy(ip: seq<Byte>, buf: array<Byte>, dst: nat)
    requires dst + |ip| <= buf.Length
    modifies buf
    ensures buf[..dst] == old(buf[..dst]) && buf[dst + |ip|..] == old(buf[dst + |ip|..])
    ensures buf[dst..dst + |ip|] == ip
  {
    forall j | 0 <= j < |ip| {
      buf[dst + j] := ip[j];
    }
  }

  /** t repeats with the given period from base on. */
  ghost predicate Periodic(t: seq<Byte>, base: nat, period: nat)
  {
    forall k :: base + period <= k < |t| ==> t[k] == t[k - period]
  }

  /** The buffer holds the first n bytes of t and still its old bytes from end on. */
  ghost predicate Done(now: seq<Byte>, was: seq<Byte>, t: seq<Byte>, n: nat, end: nat)
  {
    && |now| == |was| && n <= |t| && n <= |now| && end <= |was|
    && now[..n] == t[..n]
    && now[end..] == was[end..]
  }

  /** The bytes of a periodic text are where an eight-byte copy looks for them. */
  lemma CopiedBytesAreRight(before: seq<Byte>, after: seq<Byte>, was: seq<Byte>, t: seq<Byte>, src: nat, op: nat, n: nat, end: nat)
    requires Done(before, was, t, op, end) && src + n <= op && n <= 8
    requires op + n <= |t| && op + 8 <= end
    requires Periodic(t, src, op - src)
    requires |after| == |before|
    requires forall k {:trigger after[k]} :: 0 <= k < |after| ==> after[k] == if op <= k < op + 8 then before[src + (k - op)] else before[k]
    ensures Done(after, was, t, op + n, end)
  {
    forall k | 0 <= k < op + n
      ensures after[k] == t[k]
    {
      if k < op {
        assert before[..op][k] == t[..op][k];
      } else {
        var q := src + (k - op);
        assert after[k] == before[q] == before[..op][q] == t[..op][q] == t[q];
        assert t[k] == t[k - (op - src)];
      }
    }
    assert after[..op + n] == t[..op + n];
    assert forall k :: end <= k < |after| ==> after[k] == before[k];
    assert after[end..] == before[end..];
  }

  lemma DoneBelow(now: seq<Byte>, was: seq<Byte>, t: seq<Byte>, n: nat, m: nat, end: nat)
    requires Done(now, was, t, n, end) && m <= n
    ensures Done(now, was, t, m, end)
  {
    assert now[..m] == now[..n][..m] && t[..m] == t[..n][..m];
  }

  lemma PeriodDoubles(t: seq<Byte>, base: nat, period: nat)
    requires Periodic(t, base, period)
    ensures Periodic(t, base, 2 * period)
  {
    forall k | base + 2 * period <= k < |t|
      ensures t[k] == t[k - 2 * period]
    {
      assert t[k] == t[k - period];
    }
  }

  lemma PeriodFromLaterBase(t: seq<Byte>, base: nat, later: nat, period: nat)
    requires Periodic(t, base, period) && base <= later
    ensures Periodic(t, later, period)
  {
  }

  /** What a copy leaves in the buffer below its end is a prefix of any longer copy. */
  lemma TargetIsPeriodic(out: seq<Byte>, offset: nat, len: nat)
    requires 1 <= offset <= |out|
    ensures Periodic(CopyBytes(out, offset, len), |out| - offset, offset)
  {
    CopyIsPeriodic(out, offset, len, CopyBytes(out, offset, len));
  }

  /** Continuing a periodic text byte by byte from any point gives the same text. */
  lemma SuffixOfTarget(t: seq<Byte>, src: nat, op: nat, opLimit: nat)
    requires src < op <= |t| && opLimit <= |t| && Periodic(t, src, op - src)
    ensures op <= opLimit ==> CopyBytes(t[..op], op - src, opLimit - op) == t[..opLimit]
  {
    if op <= opLimit {
      CopyIsPeriodic(t[..op], op - src, opLimit - op, t[..opLimit]);
    }
  }

  /** Copies [src, src + (opLimit - op)) to [op, opLimit) a byte at a time. */
  method IncrementalCopySlow(buf: array<Byte>, src0: nat, op0: nat, opLimit: nat) returns (end: nat)
    requires src0 < op0 <= buf.Length && opLimit <= buf.Length
    modifies buf
    ensures end == opLimit
    ensures op0 <= opLimit ==> SlowlyCopied(buf[..], old(buf[..]), op0 - src0, op0, opLimit)
    ensures opLimit < op0 ==> buf[..] == old(buf[..])
  {
    var src: nat, op: nat := src0, op0;
    ghost var was := buf[..];
    NothingCopied(was, op0 - src0, op0);
    while op < opLimit
      invariant op0 <= op && (op <= opLimit || op == op0) && op - src == op0 - src0
      invariant SlowlyCopied(buf[..], was, op0 - src0, op0, op)
    {
      hide SlowlyCopied;
      ghost var before := buf[..];
      buf[op] := buf[src];
      OneMoreCopied(before, buf[..], was, op0 - src0, op0, op);
      op, src := op + 1, src + 1;
    }
    end := opLimit;
  }

  /** now is was with the bytes from op0 to op filled in by a copy. */
  ghost predicate SlowlyCopied(now: seq<Byte>, was: seq<Byte>, offset: nat, op0: nat, op: nat)
  {
    && 1 <= offset <= op0 <= op <= |now| == |was|
    && now[..op] == CopyBytes(was[..op0], offset, op - op0)
    && now[op..] == was[op..]
  }

  lemma NothingCopied(was: seq<Byte>, offset: nat, op0: nat)
    requires 1 <= offset <= op0 <= |was|
    ensures SlowlyCopied(was, was, offset, op0, op0)
  {
  }

  lemma OneMoreCopied(before: seq<Byte>, now: seq<Byte>, was: seq<Byte>, offset: nat, op0: nat, op: nat)
    requires SlowlyCopied(before, was, offset, op0, op) && op < |before| && now == before[op := before[op - offset]]
    ensures SlowlyCopied(now, was, offset, op0, op + 1)
  {
    assert now[..op + 1] == before[..op] + [before[..op][op - offset]];
    assert before[op..][1..] == now[op + 1..];
  }

  /** The parts of the buffer after a copy. */
  lemma SlowlyCopiedParts(now: seq<Byte>, was: seq<Byte>, offset: nat, op0: nat, op: nat)
    requires SlowlyCopied(now, was, offset, op0, op)
    ensures now[..op0] == was[..op0] && now[op..] == was[op..]
    ensures now[op0..op] == CopyBytes(was[..op0], offset, op - op0)[op0..]
  {
    CopyInBuffer(now, was[..op0], offset, op - op0);
  }

  /** Finishing byte by byte reaches the target text, if that is not reached already. */
  lemma DoneSlowly(before: seq<Byte>, now: seq<Byte>, was: seq<Byte>, t: seq<Byte>, src: nat, op: nat, opLimit: nat, end: nat)
    requires src < op <= end && opLimit <= end <= |t|
    requires Done(before, was, t, op, end) && Periodic(t, src, op - src)
    requires if op <= opLimit then SlowlyCopied(now, before, op - src, op, opLimit) else now == before
    ensures Done(now, was, t, opLimit, end)
  {
    if op <= opLimit {
      SuffixOfTarget(t, src, op, opLimit);
      assert before[..op] == t[..op];
      assert now[end..] == now[opLimit..][end - opLimit..] && before[end..] == before[opLimit..][end - opLimit..];
    } else {
      DoneBelow(now, was, t, op, opLimit, end);
    }
  }

  /** One eight-byte move that advances the finished part by n bytes towards the target text t. */
  method AdvanceBy64(buf: array<Byte>, src: nat, op: nat, ghost n: nat, ghost was: seq<Byte>, ghost t: seq<Byte>, ghost end: nat)
    requires src < op && src + n <= op && n <= 8 && op + n <= |t| && op + 8 <= end
    requires Done(buf[..], was, t, op, end) && Periodic(t, src, op - src)
    modifies buf
    ensures Done(buf[..], was, t, op + n, end)
  {
    ghost var before := buf[..];
    UnalignedCopy64(buf, src, op);
    CopiedBytesAreRight(before, buf[..], was, t, src, op, n, end);
  }

  /** Repeats a pattern shorter than eight bytes until source and target are at least eight bytes apart. */
  method ExpandPattern(buf: array<Byte>, src: nat, op0: nat, ghost was: seq<Byte>, ghost t: seq<Byte>, ghost end: nat) returns (op: nat)
    requires src < op0 < src + 8 && op0 + 14 <= end <= |t|
    requires Done(buf[..], was, t, op0, end) && Periodic(t, src, op0 - src)
    modifies buf
    ensures src + 8 <= op <= op0 + 13
    ensures Done(buf[..], was, t, op, end) && Periodic(t, src, op - src)
  {
    op := op0;
    var patternSize := op - src;
    while patternSize < 8
      invariant patternSize == op - src >= 1 && op <= op0 + 13 && (patternSize < 8 ==> op <= op0 + 6)
      invariant Done(buf[..], was, t, op, end) && Periodic(t, src, op - src)
      decreases 8 - patternSize
    {
      AdvanceBy64(buf, src, op, patternSize, was, t, end);
      PeriodDoubles(t, src, patternSize);
      op := op + patternSize;
      patternSize := patternSize * 2;
    }
  }

  /** Copies [src, src + (opLimit - op)) to [op, opLimit), in blocks where the slack up to bufLimit allows it. */
  method IncrementalCopy(buf: array<Byte>, src0: nat, op0: nat, opLimit: nat, bufLimit: nat) returns (end: nat)
    requires src0 < op0 <= opLimit <= bufLimit <= buf.Length
    modifies buf
    ensures end == opLimit
    ensures buf[..opLimit] == CopyBytes(old(buf[..op0]), op0 - src0, opLimit - op0)
    ensures buf[bufLimit..] == old(buf[bufLimit..])
    ensures buf[..op0] == old(buf[..op0])
    ensures buf[op0..opLimit] == CopyBytes(old(buf[..op0]), op0 - src0, opLimit - op0)[op0..]
  {
    ghost var was, out := buf[..], buf[..op0];
    ghost var t := CopyBytes(out, op0 - src0, bufLimit - op0);
    TargetIsPeriodic(out, op0 - src0, bufLimit - op0);
    end := CopyTowards(buf, src0, op0, opLimit, bufLimit, was, t);
    TargetReached(buf[..], out, t, op0 - src0, opLimit - op0, bufLimit - op0, opLimit);
    assert buf[..opLimit] == CopyBytes(out, op0 - src0, opLimit - op0);
  }

  /** A buffer that agrees with a long copy up to m holds the copy of length len. */
  lemma TargetReached(now: seq<Byte>, out: seq<Byte>, t: seq<Byte>, offset: nat, len: nat, long: nat, m: nat)
    requires 1 <= offset <= |out| && len <= long && m == |out| + len <= |now|
    requires t == CopyBytes(out, offset, long) && now[..m] == t[..m]
    ensures now[..m] == CopyBytes(out, offset, len)
    ensures now[..|out|] == out && now[|out|..m] == CopyBytes(out, offset, len)[|out|..]
  {
    CopyPrefix(out, offset, len, long);
    CopyInBuffer(now, out, offset, len);
  }

  /** The body of IncrementalCopy, with the text t it works towards. */
  method CopyTowards(buf: array<Byte>, src: nat, op0: nat, opLimit: nat, bufLimit: nat, ghost was: seq<Byte>, ghost t: seq<Byte>)
    returns (end: nat)
    requires src < op0 <= opLimit <= bufLimit <= |t| && bufLimit <= buf.Length
    requires Done(buf[..], was, t, op0, bufLimit) && Periodic(t, src, op0 - src)
    modifies buf
    ensures end == opLimit
    ensures Done(buf[..], was, t, opLimit, bufLimit)
  {
    var op := op0;
    if op - src < 8 {
      if op + 14 <= bufLimit {
        op := ExpandPattern(buf, src, op, was, t, bufLimit);
        if op >= opLimit {
          DoneBelow(buf[..], was, t, op, opLimit, bufLimit);
          return opLimit;
        }
      } else {
        ghost var before := buf[..];
        end := IncrementalCopySlow(buf, src, op, opLimit);
        DoneSlowly(before, buf[..], was, t, src, op, opLimit, bufLimit);
        return;
      }
    }
    end := CopyBlocks(buf, src, op, opLimit, bufLimit, was, t);
  }

  /** The part of IncrementalCopy behind pattern expansion: two eight-byte moves at a time, then one, then bytes. */
  method CopyBlocks(buf: array<Byte>, src0: nat, op0: nat, opLimit: nat, bufLimit: nat, ghost was: seq<Byte>, ghost t: seq<Byte>)
    returns (end: nat)
    requires src0 + 8 <= op0 <= opLimit <= bufLimit <= |t| && bufLimit <= buf.Length
    requires Done(buf[..], was, t, op0, bufLimit) && Periodic(t, src0, op0 - src0)
    modifies buf
    ensures end == opLimit
    ensures Done(buf[..], was, t, opLimit, bufLimit)
  {
    hide Done, Periodic, SlowlyCopied;
    var src: nat, op: nat := src0, op0;
    while op + 16 <= bufLimit
      invariant src + 8 <= op <= opLimit
      invariant Done(buf[..], was, t, op, bufLimit) && Periodic(t, src, op - src)
      decreases bufLimit - op
    {
      AdvanceBy64(buf, src, op, 8, was, t, bufLimit);
      PeriodFromLaterBase(t, src, src + 8, op - src);
      AdvanceBy64(buf, src + 8, op + 8, 8, was, t, bufLimit);
      PeriodFromLaterBase(t, src, src + 16, op - src);
      src := src + 16;
      op := op + 16;
      if op >= opLimit {
        DoneBelow(buf[..], was, t, op, opLimit, bufLimit);
        return opLimit;
      }
    }
    if op + 8 <= bufLimit {
      AdvanceBy64(buf, src, op, 8, was, t, bufLimit);
      PeriodFromLaterBase(t, src, src + 8, op - src);
      src := src + 8;
      op := op + 8;
    }
    ghost var before := buf[..];
    end := IncrementalCopySlow(buf, src, op, opLimit);
    DoneSlowly(before, buf[..], was, t, src, op, opLimit, bufLimit);
  }
}
