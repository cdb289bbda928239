/** The writer that only checks whether a stream could be decompressed. */
module Validator {
  import opened Bytes
  import opened Progress

  class Validator {
    var expected: nat
    var produced: nat
    ghost var progress: Progress

    ghost predicate Valid()
      reads this
    {
      && expected < U32
      && match progress
         case Idle => expected == produced == 0
         case Running(out, limit) => expected == limit && produced == |out| <= limit
         case Rejected => true
         case Cramped => false
    }

    constructor ()
      ensures Valid() && progress == Idle
    {
      expected := 0;
      produced := 0;
      progress := Idle;
    }

    method SetExpectedLength(len: nat)
      requires Valid() && progress == Idle && len < U32
      modifies this
      ensures Valid() && progress == Running([], len)
    {
      expected := len;
      progress := Running([], len);
    }

    method CheckLength() returns (ok: bool)
      requires Valid()
      ensures progress.Running? ==> (ok <==> |progress.out| == progress.limit)
    {
      ok := expected == produced;
    }

    method Append(ip: seq<Byte>) returns (ok: bool)
      requires Valid() && Open(progress)
      modifies this
      ensures Valid() && progress == AfterAppend(old(progress), ip)
      ensures ok <==> !progress.Rejected?
    {
      progress := AfterAppend(progress, ip);
      produced := produced + |ip|;
      ok := produced <= expected;
    }

    /** Always declines. */
    method TryFastAppend(ip: seq<Byte>, len: nat) returns (ok: bool)
      requires Valid() && Open(progress)
      ensures !ok
    {
      ok := false;
    }

    method AppendFromSelf(offset: nat, len: nat) returns (ok: bool)
      requires Valid() && Open(progress)
      modifies this
      ensures Valid() && progress == AfterCopy(old(progress), offset, len)
      ensures ok <==> !progress.Rejected?
    {
      progress := AfterCopy(progress, offset, len);
      if produced <= MinusOneU64(offset) { return false; }
      produced := produced + len;
      ok := produced <= expected;
    }
  }
}
