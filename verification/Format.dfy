/** The Snappy stream as a decoder reads it: tags, the copy semantics and a flat reference decoder.
    Sections 2.1 and 2.2 of the "Snappy compressed format description". */
module Format {
  import opened Bytes

  /** Appends len bytes, one at a time, each read offset positions back; source and target may overlap. */
  function CopyBytes(out: seq<Byte>, offset: nat, len: nat): (r: seq<Byte>)
    requires 1 <= offset <= |out|
    ensures |r| == |out| + len && out <= r
  {
    if len == 0 then out
    else
      var r := CopyBytes(out, offset, len - 1);
      r + [r[|r| - offset]]
  }

  /** A byte string that starts with out and repeats with period offset is the copy, and conversely. */
  lemma {:induction false} CopyIsPeriodic(out: seq<Byte>, offset: nat, len: nat, r: seq<Byte>)
    requires 1 <= offset <= |out|
    requires |r| == |out| + len && out <= r
    ensures r == CopyBytes(out, offset, len) <==> forall k :: |out| <= k < |r| ==> r[k] == r[k - offset]
  {
    if len == 0 {
      assert r == out;
    } else {
      var s := r[..|r| - 1];
      CopyIsPeriodic(out, offset, len - 1, s);
      var c := CopyBytes(out, offset, len - 1);
      if r == CopyBytes(out, offset, len) {
        assert s == c;
        forall k | |out| <= k < |r|
          ensures r[k] == r[k - offset]
        {
          if k < |s| {
            assert s[k] == s[k - offset];
          }
        }
      }
      if forall k :: |out| <= k < |r| ==> r[k] == r[k - offset] {
        forall k | |out| <= k < |s|
          ensures s[k] == s[k - offset]
        {
          assert r[k] == r[k - offset];
        }
        assert r == s + [r[|r| - 1]];
      }
    }
  }

  /** Two copies in a row with the same offset are one longer copy. */
  lemma {:induction false} CopyConcat(out: seq<Byte>, offset: nat, a: nat, b: nat)
    requires 1 <= offset <= |out|
    ensures CopyBytes(CopyBytes(out, offset, a), offset, b) == CopyBytes(out, offset, a + b)
  {
    if b != 0 {
      CopyConcat(out, offset, a, b - 1);
    }
  }

  /** A shorter copy is a prefix of a longer one. */
  lemma CopyPrefix(out: seq<Byte>, offset: nat, a: nat, b: nat)
    requires 1 <= offset <= |out| && a <= b
    ensures CopyBytes(out, offset, a) == CopyBytes(out, offset, b)[..|out| + a]
  {
    CopyConcat(out, offset, a, b - a);
  }

  /** A copy no longer than its offset appends bytes that are all there already. */
  lemma CopyWithoutOverlap(out: seq<Byte>, offset: nat, len: nat)
    requires 1 <= offset <= |out| && len <= offset
    ensures CopyBytes(out, offset, len) == out + out[|out| - offset..|out| - offset + len]
  {
    CopyIsPeriodic(out, offset, len, out + out[|out| - offset..|out| - offset + len]);
  }

  /** A copy only looks at the last offset bytes. */
  lemma {:induction false} CopyIgnoresHead(head: seq<Byte>, tail: seq<Byte>, offset: nat, len: nat)
    requires 1 <= offset <= |tail|
    ensures CopyBytes(head + tail, offset, len) == head + CopyBytes(tail, offset, len)
  {
    if len != 0 {
      CopyIgnoresHead(head, tail, offset, len - 1);
    }
  }

  /** A buffer that starts with the copy starts with what was there and continues with the copied bytes. */
  lemma CopyInBuffer(now: seq<Byte>, filled: seq<Byte>, offset: nat, len: nat)
    requires 1 <= offset <= |filled| && |filled| + len <= |now|
    requires now[..|filled| + len] == CopyBytes(filled, offset, len)
    ensures now[..|filled|] == filled
    ensures now[|filled|..|filled| + len] == CopyBytes(filled, offset, len)[|filled|..]
  {
    var copied := now[..|filled| + len];
    assert copied[..|filled|] == now[..|filled|];
    assert copied[|filled|..] == now[|filled|..|filled| + len];
  }

  /** What a tag asks for. */
  datatype Tag = LiteralTag(len: nat) | CopyTag(offset: nat, len: nat)

  /** The number of bytes that follow tag byte t and belong to the tag. */
  function TagExtra(t: Byte): (n: nat)
    ensures n <= 4
  {
    match t % 4
    case 0 => if t / 4 < 60 then 0 else t / 4 - 59
    case 1 => 1
    case 2 => 2
    case _ => 4
  }

  /** The meaning of tag byte t whose extra bytes hold trailer. The length of a long literal is
      computed in 32 bits, so a stored 0xFFFFFFFF means the empty literal. */
  function TagMeaning(t: Byte, trailer: nat): Tag
  {
    match t % 4
    case 0 => LiteralTag(if t / 4 < 60 then t / 4 + 1 else (trailer + 1) % U32)
    case 1 => CopyTag(t / 32 * 256 + trailer, t / 4 % 8 + 4)
    case _ => CopyTag(trailer, t / 4 + 1)
  }

  /** The first tag of c and the number of bytes it takes, if all of them are there. */
  function ParseTag(c: seq<Byte>): (r: Option<(Tag, nat)>)
    requires c != []
    ensures r.Some? ==> 1 <= r.value.1 <= |c|
  {
    var size := 1 + TagExtra(c[0]);
    if |c| < size then None
    else Some((TagMeaning(c[0], LittleEndian(c[1..size])), size))
  }

  /** The flat reference decoder: out is what has been produced, limit is the declared length, which no element may
      exceed. None if an element is cut short or refused, else everything produced. */
  function DecodeElements(c: seq<Byte>, out: seq<Byte>, limit: nat): (r: Option<seq<Byte>>)
    ensures r.Some? ==> out <= r.value && (|out| <= limit ==> |r.value| <= limit)
    decreases |c|, 0
  {
    if c == [] then Some(out)
    else
      match ParseTag(c)
      case None => None
      case Some((LiteralTag(len), size)) => DecodeLiteral(c[size..], out, len, limit)
      case Some((CopyTag(offset, len), size)) =>
        if offset == 0 || offset > |out| || |out| + len > limit then None
        else DecodeElements(c[size..], CopyBytes(out, offset, len), limit)
  }

  /** Decodes c, which starts with len literal bytes. */
  function DecodeLiteral(c: seq<Byte>, out: seq<Byte>, len: nat, limit: nat): (r: Option<seq<Byte>>)
    ensures r.Some? ==> out <= r.value && (|out| <= limit ==> |r.value| <= limit)
    decreases |c|, 1
  {
    if |c| < len || |out| + len > limit then None
    else DecodeElements(c[len..], out + c[..len], limit)
  }

  datatype Verdict = Accept(out: seq<Byte>) | Reject

  /** Accepts a sequence of elements that produces exactly limit bytes. */
  function DecodeTags(c: seq<Byte>, limit: nat): (v: Verdict)
    ensures v.Accept? ==> |v.out| == limit
  {
    match DecodeElements(c, [], limit)
    case Some(out) => if |out| == limit then Accept(out) else Reject
    case None => Reject
  }
}
