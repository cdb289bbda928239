/** What a decompression writer has produced so far, as the flat reference decoder sees it. */
module Progress {
  import opened Bytes
  import opened Format

  /** Running: out has been produced of a declared length limit.
      Rejected: the writer has refused an append; its bytes no longer mean anything.
      Cramped: the declared length exceeds the room the writer was given, so the length check can never pass. */
  datatype Progress = Idle | Running(out: seq<Byte>, limit: nat) | Rejected | Cramped

  function AfterAppend(p: Progress, bytes: seq<Byte>): Progress
  {
    match p
    case Running(out, limit) => if |out| + |bytes| <= limit then Running(out + bytes, limit) else Rejected
    case _ => p
  }

  function AfterCopy(p: Progress, offset: nat, len: nat): Progress
  {
    match p
    case Running(out, limit) =>
      if offset == 0 || offset > |out| || |out| + len > limit then Rejected
      else Running(CopyBytes(out, offset, len), limit)
    case _ => p
  }

  /** The writer may be called: a length is set and nothing has been refused. */
  predicate Open(p: Progress)
  {
    p.Running? || p.Cramped?
  }

  /** How progress may change while a stream is decoded: output only grows, until something is refused. */
  predicate Follows(p: Progress, q: Progress)
  {
    match p
    case Running(out, limit) => q.Rejected? || (q.Running? && q.limit == limit && out <= q.out)
    case _ => q == p
  }

  /** What the reference decoder makes of the rest of a stream. */
  function Outcome(p: Progress, rest: seq<Byte>): Option<seq<Byte>>
  {
    if p.Running? then DecodeElements(rest, p.out, p.limit) else None
  }

  /** The same when the next len bytes belong to a literal whose tag has been read. */
  function LiteralOutcome(p: Progress, rest: seq<Byte>, len: nat): Option<seq<Byte>>
  {
    if p.Running? then DecodeLiteral(rest, p.out, len, p.limit) else None
  }

  /** Reading a whole tag passes the verdict on to what is behind it. */
  lemma OutcomeOfTag(p: Progress, rest: seq<Byte>)
    requires rest != []
    ensures match ParseTag(rest)
            case None => Outcome(p, rest) == None
            case Some((LiteralTag(len), size)) => Outcome(p, rest) == LiteralOutcome(p, rest[size..], len)
            case Some((CopyTag(offset, len), size)) => Outcome(p, rest) == Outcome(AfterCopy(p, offset, len), rest[size..])
  {
  }

  lemma OutcomeOfWholeLiteral(p: Progress, rest: seq<Byte>, len: nat)
    requires len <= |rest|
    ensures LiteralOutcome(p, rest, len) == Outcome(AfterAppend(p, rest[..len]), rest[len..])
  {
  }

  lemma OutcomeAtEnd(p: Progress)
    ensures Outcome(p, []) == if p.Running? then Some(p.out) else None
  {
  }

  lemma LiteralCutShort(p: Progress, len: nat)
    ensures len > 0 ==> LiteralOutcome(p, [], len) == None
    ensures !p.Running? ==> forall rest :: LiteralOutcome(p, rest, len) == None
  {
  }

  /** A literal may be appended in parts as its bytes become available. */
  lemma OutcomeOfPartialLiteral(p: Progress, part: seq<Byte>, rest: seq<Byte>, len: nat)
    requires |part| <= len
    ensures LiteralOutcome(p, part + rest, len) == LiteralOutcome(AfterAppend(p, part), rest, len - |part|)
  {
    if p.Running? && |rest| >= len - |part| && |p.out| + len <= p.limit {
      assert (part + rest)[len..] == rest[len - |part|..];
      assert p.out + (part + rest)[..len] == (p.out + part) + rest[..len - |part|];
    }
  }

  lemma NoCopy(p: Progress, offset: nat)
    requires Open(p)
    ensures p.Running? && 1 <= offset <= |p.out| && |p.out| <= p.limit ==> AfterCopy(p, offset, 0) == p
    ensures p.Cramped? ==> AfterCopy(p, offset, 0) == p
  {
  }

  lemma CopyInParts(p: Progress, offset: nat, a: nat, b: nat)
    ensures !AfterCopy(p, offset, a).Rejected? ==> AfterCopy(AfterCopy(p, offset, a), offset, b) == AfterCopy(p, offset, a + b)
  {
    if AfterCopy(p, offset, a).Running? {
      CopyConcat(p.out, offset, a, b);
    }
  }

  lemma AppendInParts(p: Progress, a: seq<Byte>, b: seq<Byte>)
    ensures p.Running? && |p.out| + |a + b| <= p.limit ==> AfterAppend(p, a).Running?
    ensures AfterAppend(p, a).Running? ==> AfterAppend(AfterAppend(p, a), b) == AfterAppend(p, a + b)
  {
    if p.Running? {
      assert p.out + (a + b) == (p.out + a) + b;
    }
  }
}
