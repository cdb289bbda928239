/** Decompression into one flat array. */
module ArrayWriter {
  import opened Bytes
  import opened Format
  import opened IncrementalCopy
  import opened Progress

  /** Copying behind a head that nobody refers to. */
  lemma CopyBehindHead(now: seq<Byte>, was: seq<Byte>, start: nat, op: nat, offset: nat, len: nat)
    requires start <= op <= op + len <= |now| && op <= |was| && 1 <= offset <= op - start
    requires now[..op + len] == CopyBytes(was[..op], offset, len)
    ensures now[start..op + len] == CopyBytes(was[start..op], offset, len)
    ensures now[..start] == was[..start]
  {
    assert was[..op] == was[..start] + was[start..op];
    CopyIgnoresHead(was[..start], was[start..op], offset, len);
    var copied := now[..op + len];
    assert copied[..start] == now[..start] && copied[start..] == now[start..op + len];
  }

  /** What is unchanged around a store is unchanged around a larger stretch. */
  lemma SameOutside(now: seq<Byte>, was: seq<Byte>, start: nat, from: nat, to: nat, limit: nat)
    requires start <= from <= to <= limit <= |now| == |was|
    requires now[..from] == was[..from] && now[to..] == was[to..]
    ensures now[..start] == was[..start] && now[limit..] == was[limit..]
  {
    assert now[..start] == now[..from][..start] && was[..start] == was[..from][..start];
    assert now[limit..] == now[to..][limit - to..] && was[limit..] == was[to..][limit - to..];
  }

  /** The writer fills base from start on. */
  class ArrayWriter {
    const base: array<Byte>
    const start: nat
    var op: nat
    var opLimit: nat
    ghost var progress: Progress

    ghost predicate Valid()
      reads this, base
    {
      && start <= op <= opLimit <= base.Length && opLimit - start < U32
      && match progress
         case Idle => op == opLimit == start
         case Running(out, limit) => opLimit == start + limit && base[start..op] == out
         case Rejected => true
         case Cramped => false
    }

    /** What lies before and behind the bytes to be written. */
    ghost function Outside(): (seq<Byte>, seq<Byte>)
      requires Valid()
      reads this, base
    {
      (base[..start], base[opLimit..])
    }

    constructor (dst: array<Byte>, start: nat)
      requires start <= dst.Length
      ensures Valid() && progress == Idle && base == dst && this.start == start
    {
      base := dst;
      this.start := start;
      op := start;
      opLimit := start;
      progress := Idle;
    }

    method SetExpectedLength(len: nat)
      requires Valid() && progress == Idle && start + len <= base.Length && len < U32
      modifies this
      ensures Valid() && progress == Running([], len) && opLimit == start + len
    {
      opLimit := op + len;
      progress := Running([], len);
    }

    method CheckLength() returns (ok: bool)
      requires Valid()
      ensures progress.Running? ==> (ok <==> |progress.out| == progress.limit)
    {
      ok := op == opLimit;
    }

    method Append(ip: seq<Byte>) returns (ok: bool)
      requires Valid() && Open(progress)
      modifies this, base
      ensures Valid() && progress == AfterAppend(old(progress), ip)
      ensures ok <==> !progress.Rejected?
      ensures Outside() == old(Outside())
    {
      progress := AfterAppend(progress, ip);
      var spaceLeft := opLimit - op;
      if spaceLeft < |ip| { return false; }
      ghost var was := base[..];
      MemCopy(ip, base, op);
      SameOutside(base[..], was, start, op, op + |ip|, opLimit);
      op := op + |ip|;
      assert base[start..op] == old(base[start..op]) + ip;
      ok := true;
    }

    /** ip is everything readable behind the tag; len bytes of it are the literal. */
    method TryFastAppend(ip: seq<Byte>, len: nat) returns (ok: bool)
      requires Valid() && Open(progress)
      modifies this, base
      ensures Valid()
      ensures ok ==> len <= 16 && len + 5 <= |ip| && progress == AfterAppend(old(progress), ip[..len]) && Open(progress)
      ensures !ok ==> progress == old(progress)
      ensures Outside() == old(Outside())
    {
      var spaceLeft := opLimit - op;
      if len <= 16 && |ip| >= 21 && spaceLeft >= 16 {
        ghost var was := base[..];
        UnalignedCopy128(ip, base, op);
        SameOutside(base[..], was, start, op, op + 16, opLimit);
        op := op + len;
        progress := AfterAppend(progress, ip[..len]);
        assert base[start..op] == old(base[start..op]) + ip[..len];
        ok := true;
      } else {
        ok := false;
      }
    }

    method AppendFromSelf(offset: nat, len: nat) returns (ok: bool)
      requires Valid() && Open(progress)
      modifies this, base
      ensures Valid() && progress == AfterCopy(old(progress), offset, len)
      ensures ok <==> !progress.Rejected?
      ensures Outside() == old(Outside())
    {
      hide CopyBytes;
      progress := AfterCopy(progress, offset, len);
      var opEnd := op + len;
      if Produced() <= MinusOneU64(offset) || opEnd > opLimit { return false; }
      ghost var was := base[..];
      op := IncrementalCopy.IncrementalCopy(base, op - offset, op, opEnd, opLimit);
      CopyBehindHead(base[..], was, start, opEnd - len, offset, len);
      assert base[start..op] == CopyBytes(was[start..opEnd - len], offset, len);
      SameOutside(base[..], was, start, start, opLimit, opLimit);
      ok := true;
    }

    function Produced(): nat
      requires start <= op
      reads this
    {
      op - start
    }
  }
}
