/** A stream as a sequence of elements, and what elements mean: an independent reading of what the decoder computes. */
module Semantics {
  import opened Bytes
  import opened Format

  datatype Element = Literal(bytes: seq<Byte>) | Copy(offset: nat, len: nat)

  /** The element at the front of c and the number of bytes it takes. */
  function FirstElement(c: seq<Byte>): (r: Option<(Element, nat)>)
    requires c != []
    ensures r.Some? ==> 1 <= r.value.1 <= |c|
  {
    match ParseTag(c)
    case None => None
    case Some((LiteralTag(len), size)) =>
      if |c| < size + len then None else Some((Literal(c[size..size + len]), size + len))
    case Some((CopyTag(offset, len), size)) => Some((Copy(offset, len), size))
  }

  /** All elements of c, if c ends on an element boundary. */
  function Elements(c: seq<Byte>): Option<seq<Element>>
    decreases |c|
  {
    if c == [] then Some([])
    else
      match FirstElement(c)
      case None => None
      case Some((e, size)) =>
        match Elements(c[size..])
        case None => None
        case Some(es) => Some([e] + es)
  }

  /** Elements performed on what has been produced; a copy must refer to something produced. */
  function Perform(es: seq<Element>, out: seq<Byte>): Option<seq<Byte>>
  {
    if es == [] then Some(out)
    else
      match es[0]
      case Literal(bytes) => Perform(es[1..], out + bytes)
      case Copy(offset, len) =>
        if offset == 0 || offset > |out| then None else Perform(es[1..], CopyBytes(out, offset, len))
  }

  lemma {:induction false} PerformGrows(es: seq<Element>, out: seq<Byte>)
    ensures Perform(es, out).Some? ==> |out| <= |Perform(es, out).value|
    decreases |es|
  {
    if es != [] {
      match es[0]
      case Literal(bytes) => PerformGrows(es[1..], out + bytes);
      case Copy(offset, len) =>
        if !(offset == 0 || offset > |out|) {
          PerformGrows(es[1..], CopyBytes(out, offset, len));
        }
    }
  }

  /** A whole stream, read as elements that are performed without looking at the length, which is compared at the end. */
  function PerformWithin(c: seq<Byte>, out: seq<Byte>, limit: nat): Option<seq<Byte>>
  {
    match Elements(c)
    case None => None
    case Some(es) =>
      match Perform(es, out)
      case None => None
      case Some(r) => if |r| <= limit then Some(r) else None
  }

  /** The decoder's checks along the way change nothing: it gets to the end exactly of the streams that consist of whole
      elements whose performance stays within the declared length, and returns what they produce. */
  lemma {:induction false} DecoderPerformsElements(c: seq<Byte>, out: seq<Byte>, limit: nat)
    requires |out| <= limit
    ensures DecodeElements(c, out, limit) == PerformWithin(c, out, limit)
    decreases |c|
  {
    if c != [] && FirstElement(c).Some? {
      var (e, size) := FirstElement(c).value;
      match e {
        case Literal(bytes) => LiteralStep(c, out, limit, bytes, size);
        case Copy(offset, len) => CopyStep(c, out, limit, offset, len, size);
      }
      if Apply(e, out).Some? && |Apply(e, out).value| <= limit {
        DecoderPerformsElements(c[size..], Apply(e, out).value, limit);
        PerformStep(c, out, limit, e, size);
      }
    }
  }

  /** One element performed. */
  function Apply(e: Element, out: seq<Byte>): Option<seq<Byte>>
  {
    match e
    case Literal(bytes) => Some(out + bytes)
    case Copy(offset, len) => if offset == 0 || offset > |out| then None else Some(CopyBytes(out, offset, len))
  }

  lemma PerformStep(c: seq<Byte>, out: seq<Byte>, limit: nat, e: Element, size: nat)
    requires c != [] && FirstElement(c) == Some((e, size))
    ensures Apply(e, out) == None ==> PerformWithin(c, out, limit) == None
    ensures Apply(e, out).Some? ==> PerformWithin(c, out, limit) == PerformWithin(c[size..], Apply(e, out).value, limit)
    ensures Apply(e, out).Some? && |Apply(e, out).value| > limit ==> PerformWithin(c, out, limit) == None
  {
    var rest := Elements(c[size..]);
    if rest.Some? {
      assert ([e] + rest.value)[1..] == rest.value;
      if Apply(e, out).Some? {
        PerformGrows(rest.value, Apply(e, out).value);
      }
    }
  }

  lemma LiteralStep(c: seq<Byte>, out: seq<Byte>, limit: nat, bytes: seq<Byte>, size: nat)
    requires c != [] && FirstElement(c) == Some((Literal(bytes), size))
    ensures DecodeElements(c, out, limit) == if |out + bytes| > limit then None else DecodeElements(c[size..], out + bytes, limit)
    ensures |out + bytes| > limit ==> PerformWithin(c, out, limit) == None
  {
    var header := ParseTag(c).value.1;
    assert c[header..][..|bytes|] == bytes && c[header..][|bytes|..] == c[size..];
    PerformStep(c, out, limit, Literal(bytes), size);
  }

  lemma CopyStep(c: seq<Byte>, out: seq<Byte>, limit: nat, offset: nat, len: nat, size: nat)
    requires c != [] && FirstElement(c) == Some((Copy(offset, len), size))
    ensures DecodeElements(c, out, limit) ==
            if offset == 0 || offset > |out| || |out| + len > limit then None
            else DecodeElements(c[size..], CopyBytes(out, offset, len), limit)
    ensures offset == 0 || offset > |out| || |out| + len > limit ==> PerformWithin(c, out, limit) == None
  {
    PerformStep(c, out, limit, Copy(offset, len), size);
  }
}
