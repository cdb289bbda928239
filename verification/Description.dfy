/** The format as its description has it, where a literal may be 2^32 bytes long, compared with what the code decodes. */
module Description {
  import opened Bytes
  import opened Format
  import opened Semantics
  import opened Varint
  import opened Uncompress

  /** The meaning of a tag, with the length of a long literal not cut off to 32 bits. */
  function DescribedTag(t: Byte, trailer: nat): Tag
  {
    if t % 4 == 0 && t / 4 >= 60 then LiteralTag(trailer + 1) else TagMeaning(t, trailer)
  }

  /** A decoder that follows the description. */
  function Described(c: seq<Byte>, out: seq<Byte>, limit: nat): Option<seq<Byte>>
    decreases |c|
  {
    if c == [] then Some(out)
    else
      var size := 1 + TagExtra(c[0]);
      if |c| < size then None
      else
        match DescribedTag(c[0], LittleEndian(c[1..size]))
        case LiteralTag(len) =>
          if |c| < size + len || |out| + len > limit then None
          else Described(c[size + len..], out + c[size..size + len], limit)
        case CopyTag(offset, len) =>
          if offset == 0 || offset > |out| || |out| + len > limit then None
          else Described(c[size..], CopyBytes(out, offset, len), limit)
  }

  /** The tag of a literal of 2^32 bytes. */
  predicate StartsHuge(c: seq<Byte>)
  {
    |c| >= 5 && c[..5] == [252, 255, 255, 255, 255]
  }

  /** One of the elements of c has that tag. */
  predicate HasHuge(c: seq<Byte>)
    decreases |c|
  {
    c != [] && (StartsHuge(c)
                || match FirstElement(c)
                   case None => false
                   case Some((_, size)) => HasHuge(c[size..]))
  }

  /** Four length bytes hold 2^32 - 1 exactly if all their bits are set; fewer hold less. */
  lemma AllBitsSet(s: seq<Byte>)
    requires |s| <= 4
    ensures LittleEndian(s) < U32
    ensures LittleEndian(s) == U32 - 1 <==> s == [255, 255, 255, 255]
  {
    var ones := [255, 255, 255, 255];
    Bound(s, 4);
    assert ones[1..] == [255, 255, 255] && ones[1..][1..] == [255, 255] && ones[1..][1..][1..] == [255];
    assert LittleEndian([255]) == 255 && LittleEndian([255, 255]) == 65535 && LittleEndian([255, 255, 255]) == 16777215;
    if |s| == 4 {
      LittleEndianInjective(s, ones);
    } else {
      Bound(s, 3);
    }
  }

  lemma {:induction false} Bound(s: seq<Byte>, k: nat)
    requires |s| <= k <= 4
    ensures LittleEndian(s) < if k == 4 then U32 else if k == 3 then 16777216 else if k == 2 then 65536 else if k == 1 then 256 else 1
  {
    if s != [] {
      Bound(s[1..], k - 1);
    }
  }

  /** One element, read as described. */
  lemma DescribedStep(c: seq<Byte>, out: seq<Byte>, limit: nat)
    requires c != [] && limit < U32
    ensures StartsHuge(c) ==> Described(c, out, limit) == None
    ensures !StartsHuge(c) ==>
              match FirstElement(c)
              case None => Described(c, out, limit) == None && DecodeElements(c, out, limit) == None
              case Some((e, size)) =>
                Described(c, out, limit) ==
                if Apply(e, out) == None || |Apply(e, out).value| > limit then None
                else Described(c[size..], Apply(e, out).value, limit)
  {
    hide CopyBytes, LittleEndian;
    if |c| >= 1 + TagExtra(c[0]) {
      HugeTag(c);
    }
  }

  /** The code decodes every stream as described, but for those with a literal of 2^32 bytes: by the description such a
      literal can never fit the declared length, while the code takes it for an empty one and goes on. */
  lemma {:induction false} CodeAgainstDescription(c: seq<Byte>, out: seq<Byte>, limit: nat)
    requires limit < U32
    ensures Described(c, out, limit) == if HasHuge(c) then None else DecodeElements(c, out, limit)
    decreases |c|
  {
    hide CopyBytes, FirstElement, PerformWithin;
    if c != [] {
      DescribedStep(c, out, limit);
      if !StartsHuge(c) && FirstElement(c).Some? {
        var (e, size) := FirstElement(c).value;
        match e {
          case Literal(bytes) => LiteralStep(c, out, limit, bytes, size);
          case Copy(offset, len) => CopyStep(c, out, limit, offset, len, size);
        }
        if Apply(e, out).Some? {
          CodeAgainstDescription(c[size..], Apply(e, out).value, limit);
        }
      }
    }
  }

  lemma HugeTag(c: seq<Byte>)
    requires c != [] && |c| >= 1 + TagExtra(c[0])
    ensures var trailer := LittleEndian(c[1..1 + TagExtra(c[0])]);
            && (StartsHuge(c) <==> DescribedTag(c[0], trailer) == LiteralTag(U32))
            && (!StartsHuge(c) ==> DescribedTag(c[0], trailer) == TagMeaning(c[0], trailer))
  {
    var size := 1 + TagExtra(c[0]);
    AllBitsSet(c[1..size]);
    if size == 5 {
      assert c[..5] == [c[0]] + c[1..5];
      assert StartsHuge(c) <==> c[0] == 252 && c[1..5] == [255, 255, 255, 255];
    } else if |c| >= 5 {
      assert c[..5][0] == c[0];
    }
  }

  /** Where the code comes to the end of a stream, the description agrees exactly if there is no such literal in it. */
  lemma AgreesUnlessHuge(c: seq<Byte>, out: seq<Byte>, limit: nat)
    requires limit < U32 && DecodeElements(c, out, limit).Some?
    ensures Described(c, out, limit) == DecodeElements(c, out, limit) <==> !HasHuge(c)
  {
    CodeAgainstDescription(c, out, limit);
  }

  /** What a whole compressed string stands for by the description. */
  function DescribedString(c: seq<Byte>): Verdict
  {
    match ParseVarint(c)
    case None => Reject
    case Some((len, n)) =>
      match Described(c[n..], [], len)
      case Some(out) => if |out| == len then Accept(out) else Reject
      case None => Reject
  }

  /** One of the elements behind the length is a literal of 2^32 bytes. */
  predicate HasHugeElement(c: seq<Byte>)
  {
    match ParseVarint(c)
    case None => false
    case Some((_, n)) => HasHuge(c[n..])
  }

  /** On whole strings: the code never refuses what the description accepts, and it accepts what the description refuses
      exactly if there is a literal of 2^32 bytes among the elements. */
  lemma StringsAgainstDescription(c: seq<Byte>)
    ensures DescribedString(c) == if HasHugeElement(c) then Reject else Uncompressed(c)
    ensures Uncompressed(c).Accept? ==> (DescribedString(c) == Uncompressed(c) <==> !HasHugeElement(c))
  {
    if ParseVarint(c).Some? {
      var (len, n) := ParseVarint(c).value;
      ParsedFits32Bits(c, 0);
      CodeAgainstDescription(c[n..], [], len);
    }
  }
}
