/** The streaming decompressor: reads tags from regions of a source, stitching together what a region border splits. */
module Decompressor {
  import opened Bytes
  import opened Format
  import opened TagTable
  import opened Varint
  import opened Progress
  import opened SourceSink
  import opened Writers
  import opened IncrementalCopy

  const MAXIMUM_TAG_LENGTH := 5

  /** word & wordmask[k]: the bottom k bytes of a 32-bit word. */
  function MaskWord(word: nat, k: nat): nat
    requires k <= 4
  {
    match k
    case 0 => 0
    case 1 => word % 256
    case 2 => word % 65536
    case 3 => word % 16777216
    case _ => word
  }

  /** Masking a load leaves the little-endian number in its first k bytes, whatever the other bytes are. */
  lemma MaskedLoad(s: seq<Byte>, i: nat, k: nat)
    requires i + 4 <= |s| && k <= 4
    ensures MaskWord(Load32(s, i), k) == LittleEndian(s[i..i + k])
  {
    LittleEndianDigits(s[i..i + k]);
    MaskedDigits(s[i], s[i + 1], s[i + 2], s[i + 3]);
  }

  lemma MaskedDigits(b0: Byte, b1: Byte, b2: Byte, b3: Byte)
    ensures var w := b0 as int + 256 * b1 as int + 65536 * b2 as int + 16777216 * b3 as int;
            && w % 256 == b0
            && w % 65536 == b0 as int + 256 * b1 as int
            && w % 16777216 == b0 as int + 256 * b1 as int + 65536 * b2 as int
  {
    var w := b0 as int + 256 * b1 as int + 65536 * b2 as int + 16777216 * b3 as int;
    assert w == b0 as int + 256 * (b1 as int + 256 * b2 as int + 65536 * b3 as int);
    assert w == (b0 as int + 256 * b1 as int) + 65536 * (b2 as int + 256 * b3 as int);
  }

  lemma LittleEndianDigits(s: seq<Byte>)
    requires |s| <= 4
    ensures |s| == 0 ==> LittleEndian(s) == 0
    ensures |s| == 1 ==> LittleEndian(s) == s[0] as int
    ensures |s| == 2 ==> LittleEndian(s) == s[0] as int + 256 * s[1] as int
    ensures |s| == 3 ==> LittleEndian(s) == s[0] as int + 256 * s[1] as int + 65536 * s[2] as int
    ensures |s| == 4 ==> LittleEndian(s) == s[0] as int + 256 * s[1] as int + 65536 * s[2] as int + 16777216 * s[3] as int
  {
    if |s| > 0 {
      LittleEndianDigits(s[1..]);
    }
  }

  /** Shifting a group left and right again in 32 bits loses something exactly when the group does not fit. */
  lemma ShiftLosesBits(val: nat, i: nat)
    requires val < 128 && i <= 4
    ensures val * Place(i) % U32 / Place(i) == val <==> val * Place(i) < U32
  {
    PlaceValues();
    ShiftedGroup(val);
  }

  lemma ShiftedGroup(val: nat)
    requires val < 128
    ensures val * 1 % U32 / 1 == val && val * 128 % U32 / 128 == val
    ensures val * 16384 % U32 / 16384 == val && val * 2097152 % U32 / 2097152 == val
    ensures val * 268435456 % U32 / 268435456 == val <==> val < 16
  {
    assert val == val / 16 * 16 + val % 16;
    assert val * 268435456 == val / 16 * U32 + val % 16 * 268435456;
  }

  /** One group of a varint. */
  lemma ParseStep(c: seq<Byte>, i: nat)
    requires i <= 5
    ensures c == [] || i == 5 ==> ParseFrom(c, i) == None
    ensures c != [] && i < 5 ==>
              var group := c[0] % 128 * Place(i);
              ParseFrom(c, i) ==
              if group >= U32 then None
              else if c[0] < 128 then Some((group, 1))
              else match ParseFrom(c[1..], i + 1) case None => None case Some((v, n)) => Some((group + v, n + 1))
  {
  }

  class Decompressor {
    const reader: Source
    const scratch: array<Byte>
    var region: seq<Byte>  // the region last peeked from the reader
    var inScratch: bool    // whether ip points into scratch or into region
    var ip: nat
    var ipLimit: nat
    var peeked: nat        // bytes peeked from the reader that are still to be skipped
    var eof: bool

    ghost predicate Valid()
      reads this, reader, scratch
    {
      && scratch.Length == MAXIMUM_TAG_LENGTH && ip <= ipLimit
      && if inScratch then ipLimit <= MAXIMUM_TAG_LENGTH && peeked == 0
         else ipLimit == peeked == |region| && region <= reader.left
    }

    /** The memory that ip points into. */
    function Memory(): seq<Byte>
      reads this, scratch
    {
      if inScratch then scratch[..] else region
    }

    /** The bytes of the stream that have not been consumed yet. */
    ghost function Rest(): seq<Byte>
      requires Valid()
      reads this, reader, scratch
    {
      if inScratch then scratch[ip..ipLimit] + reader.left else reader.left[ip..]
    }

    /** The next tag and its extra bytes are all in memory, and so are four bytes behind the tag byte. */
    ghost predicate TagReady()
      requires Valid()
      reads this, reader, scratch
    {
      && ip < ipLimit && ip + 1 + TagExtra(Memory()[ip]) <= ipLimit
      && ip + MAXIMUM_TAG_LENGTH <= |Memory()|
    }

    constructor (reader: Source)
      ensures Valid() && !eof && this.reader == reader && fresh(scratch)
      ensures !inScratch && region == []
    {
      this.reader := reader;
      scratch := new Byte[MAXIMUM_TAG_LENGTH];
      region := [];
      inScratch := false;
      ip := 0;
      ipLimit := 0;
      peeked := 0;
      eof := false;
    }

    /** Reads the uncompressed length at the start of the stream, one peeked byte at a time. */
    method ReadUncompressedLength() returns (r: Option<nat>)
      requires Valid() && !inScratch && region == []
      modifies reader
      ensures Valid() && Rest() == reader.left
      ensures match ParseVarint(old(reader.left))
              case None => r == None
              case Some((v, n)) => r == Some(v) && reader.left == old(reader.left)[n..]
    {
      hide ParseFrom, Place;
      ghost var c := reader.left;
      var result: nat := 0;
      var i: nat := 0;
      while true
        invariant i <= 5 && i <= |c| && reader.left == c[i..]
        invariant match ParseFrom(c[i..], i)
                  case None => ParseVarint(c) == None
                  case Some((v, n)) => ParseVarint(c) == Some((result + v, n + i))
        decreases 5 - i
      {
        ParseStep(c[i..], i);
        if 7 * i >= 32 { return None; }
        var peek := reader.Peek();
        if |peek| == 0 { return None; }
        var b: nat := peek[0];
        reader.Skip(1);
        var val := b % 128;
        ShiftLosesBits(val, i);
        if val * Place(i) % U32 / Place(i) != val { return None; }
        result := result + val * Place(i);
        i := i + 1;
        if b < 128 { return Some(result); }
      }
    }

    /** Moves n bytes from ip to the start of scratch and gives up the region. */
    method MoveToScratch(n: nat)
      requires Valid() && n == ipLimit - ip && n <= MAXIMUM_TAG_LENGTH
      modifies this, scratch, reader
      ensures Valid() && inScratch && ip == 0 && ipLimit == n && eof == old(eof)
      ensures Rest() == old(Rest()) && scratch[..n] == old(Memory()[ip..ipLimit])
    {
      var bytes := Memory()[ip..ipLimit];
      ghost var rest := Rest();
      forall j | 0 <= j < n {
        scratch[j] := bytes[j];
      }
      assert scratch[..n] == bytes;
      assert !inScratch ==> rest == bytes + reader.left[peeked..];
      reader.Skip(peeked);
      peeked := 0;
      inScratch := true;
      ip := 0;
      ipLimit := n;
    }

    /** Reads bytes from as many regions as it takes until needed bytes are in scratch; false at the end of input. */
    method Stitch(needed: nat) returns (ok: bool)
      requires Valid() && inScratch && ip == 0 && ipLimit <= needed <= MAXIMUM_TAG_LENGTH
      modifies this, scratch, reader
      ensures Valid() && inScratch && ip == 0 && eof == old(eof)
      ensures Rest() == old(Rest())
      ensures ok ==> ipLimit == needed
      ensures !ok ==> |Rest()| < needed
    {
      var nbuf := ipLimit;
      while nbuf < needed
        invariant Valid() && inScratch && ip == 0 && nbuf == ipLimit <= needed && eof == old(eof)
        invariant Rest() == old(Rest())
      {
        var src := reader.Peek();
        if |src| == 0 { return false; }
        var toAdd := if needed - nbuf <= |src| then needed - nbuf else |src|;
        ghost var before, left := scratch[..nbuf], reader.left;
        MemCopy(src[..toAdd], scratch, nbuf);
        assert scratch[..nbuf + toAdd][nbuf..] == src[..toAdd] == left[..toAdd];
        Stitched(scratch[..nbuf + toAdd], before, left, toAdd);
        reader.Skip(toAdd);
        nbuf := nbuf + toAdd;
        ipLimit := nbuf;
      }
      ok := true;
    }

    /** Makes the next tag available. Fails at the end of input and when the input ends inside the tag. */
    method RefillTag() returns (ok: bool)
      requires Valid() && !eof
      modifies this, scratch, reader
      ensures ok ==> Valid() && TagReady() && !eof && Rest() == old(Rest())
      ensures !ok ==> (eof <==> old(Rest()) == []) && (eof ==> reader.left == [])
      ensures !ok && old(Rest()) != [] ==> ParseTag(old(Rest())) == None
    {
      if ip == ipLimit {
        FetchRegion();
        if eof { return false; }
      }
      hide CharTable;
      FirstInMemory();
      ghost var rest := Rest();
      var c := Memory()[ip];
      TableMatchesFormat(c);
      var needed := CharTable(c) / 2048 + 1;
      var nbuf := ipLimit - ip;
      if nbuf < needed {
        MoveToScratch(nbuf);
        ok := Stitch(needed);
      } else if nbuf < MAXIMUM_TAG_LENGTH {
        MoveToScratch(nbuf);
        ok := true;
      } else {
        ok := true;
      }
      if ok {
        FirstInMemory();
      }
    }

    lemma FirstInMemory()
      requires Valid() && ip < ipLimit
      ensures Rest() != [] && Memory()[ip] == Rest()[0]
    {
    }

    /** The stream continues with what is in memory. */
    lemma FrontInMemory(n: nat)
      requires Valid() && ip + n <= ipLimit
      ensures n <= |Rest()| && Rest()[..n] == Memory()[ip..ip + n]
    {
      if inScratch {
        assert Rest()[..n] == scratch[ip..ipLimit][..n];
      }
    }

    /** Everything buffered is used up: skips it and peeks at the next region. */
    method NextRegion()
      requires Valid()
      modifies this, reader
      ensures Valid() && !inScratch && ip == 0 && eof == old(eof)
      ensures Rest() == old(reader.left[peeked..])
      ensures ip < ipLimit <==> Rest() != []
    {
      reader.Skip(peeked);
      region := reader.Peek();
      peeked := |region|;
      inScratch := false;
      ip := 0;
      ipLimit := |region|;
    }

    /** Fetches the next region where a tag is to start and notes the end of input. */
    method FetchRegion()
      requires Valid() && ip == ipLimit
      modifies this, reader
      ensures Valid() && !inScratch && ip == 0 && Rest() == old(Rest())
      ensures eof <==> Rest() == []
      ensures eof ==> reader.left == []
      ensures !eof ==> ip < ipLimit
    {
      NextRegion();
      eof := ipLimit == 0;
    }

    /** RefillTag, unless so much is buffered that no tag can need more. */
    method MaybeRefill() returns (ok: bool)
      requires Valid() && !eof
      modifies this, scratch, reader
      ensures ok ==> Valid() && TagReady() && !eof && Rest() == old(Rest())
      ensures !ok ==> (eof <==> old(Rest()) == []) && (eof ==> reader.left == [])
      ensures !ok && old(Rest()) != [] ==> ParseTag(old(Rest())) == None
    {
      if ipLimit - ip < MAXIMUM_TAG_LENGTH {
        ok := RefillTag();
      } else {
        ok := true;
      }
    }

    /** The writer shares no memory with the decompressor. */
    ghost predicate Apart(writer: Writer)
      reads writer.Object()
    {
      {this, reader, scratch} !! writer.Repr()
    }

    /** All len bytes of a literal go to the writer, region by region. */
    method AppendLiteral(len: nat, writer: Writer) returns (ok: bool)
      requires Valid() && !eof && writer.Ready() && Apart(writer)
      modifies this, reader, scratch, writer.Repr()
      ensures writer.Valid() && writer.Unflushed() && fresh(writer.Repr() - old(writer.Repr())) && Apart(writer)
      ensures writer.Outside() == old(writer.Outside())
      ensures Follows(old(writer.Progress()), writer.Progress())
      ensures !eof
      ensures ok ==> Valid() && writer.Ready()
      ensures ok ==> Outcome(writer.Progress(), Rest()) == LiteralOutcome(old(writer.Progress()), old(Rest()), len)
      ensures ok ==> |Rest()| <= |old(Rest())|
      ensures !ok ==> LiteralOutcome(old(writer.Progress()), old(Rest()), len) == None
    {
      hide Writer.Valid, Writer.Unflushed, Writer.Outside, LiteralOutcome, DecodeElements, DecodeLiteral, CopyBytes, Rest;
      var literalLength: nat := len;
      var avail := ipLimit - ip;
      while avail < literalLength
        invariant Valid() && !eof && writer.Ready() && avail == ipLimit - ip
        invariant fresh(writer.Repr() - old(writer.Repr())) && Apart(writer)
        invariant writer.Outside() == old(writer.Outside())
        invariant Follows(old(writer.Progress()), writer.Progress())
        invariant LiteralOutcome(writer.Progress(), Rest(), literalLength) == LiteralOutcome(old(writer.Progress()), old(Rest()), len)
        invariant |Rest()| <= |old(Rest())|
        decreases |Rest()|, if ip == ipLimit then 1 else 0
      {
        ok := AppendRegion(literalLength, writer);
        if !ok { return; }
        literalLength := literalLength - avail;
        avail := ipLimit - ip;
      }
      ok := AppendBuffered(literalLength, writer);
    }

    /** The end of AppendLiteral: all that is left of the literal is buffered. */
    method AppendBuffered(len: nat, writer: Writer) returns (ok: bool)
      requires Valid() && !eof && writer.Ready() && Apart(writer) && len <= ipLimit - ip
      modifies this, writer.Repr()
      ensures writer.Valid() && writer.Unflushed() && fresh(writer.Repr() - old(writer.Repr())) && Apart(writer)
      ensures writer.Outside() == old(writer.Outside())
      ensures Follows(old(writer.Progress()), writer.Progress())
      ensures !eof
      ensures ok ==> Valid() && writer.Ready()
      ensures ok ==> Outcome(writer.Progress(), Rest()) == LiteralOutcome(old(writer.Progress()), old(Rest()), len)
      ensures ok ==> |Rest()| <= |old(Rest())|
      ensures !ok ==> LiteralOutcome(old(writer.Progress()), old(Rest()), len) == None
    {
      hide Writer.Valid, Writer.Unflushed, Writer.Outside, LiteralOutcome, DecodeElements, Rest, CopyBytes;
      FrontInMemory(len);
      OutcomeOfWholeLiteral(writer.Progress(), Rest(), len);
      var bytes := Memory()[ip..ip + len];
      ok := writer.Append(bytes);
      assert Apart(writer);
      Consume(len);
    }

    /** ip += n. */
    method Consume(n: nat)
      requires Valid() && ip + n <= ipLimit
      modifies this`ip
      ensures Valid() && Rest() == old(Rest())[n..] && ip == old(ip) + n
    {
      if inScratch {
        BehindSome(scratch[ip..ipLimit], reader.left, n);
        assert scratch[ip..ipLimit][n..] == scratch[ip + n..ipLimit];
      }
      ip := ip + n;
    }

    /** One round of AppendLiteral: everything buffered goes to the writer and the next region is fetched. */
    method AppendRegion(len: nat, writer: Writer) returns (ok: bool)
      requires Valid() && !eof && writer.Ready() && Apart(writer) && ipLimit - ip < len
      modifies this, reader, scratch, writer.Repr()
      ensures writer.Valid() && writer.Unflushed() && fresh(writer.Repr() - old(writer.Repr())) && Apart(writer)
      ensures writer.Outside() == old(writer.Outside())
      ensures Follows(old(writer.Progress()), writer.Progress())
      ensures !eof
      ensures ok ==> Valid() && writer.Ready()
      ensures ok ==> LiteralOutcome(writer.Progress(), Rest(), len - old(ipLimit - ip)) == LiteralOutcome(old(writer.Progress()), old(Rest()), len)
      ensures ok ==> |Rest()| == |old(Rest())| - old(ipLimit - ip) && ip < ipLimit
      ensures !ok ==> LiteralOutcome(old(writer.Progress()), old(Rest()), len) == None
    {
      hide Writer.Valid, Writer.Unflushed, Writer.Outside, DecodeElements, DecodeLiteral, LiteralOutcome, CopyBytes;
      var part := Memory()[ip..ipLimit];
      ghost var rest := reader.left[peeked..];
      assert Rest() == part + rest;
      OutcomeOfPartialLiteral(writer.Progress(), part, rest, len);
      ok := writer.Append(part);
      assert Apart(writer);
      LiteralCutShort(writer.Progress(), len - |part|);
      if ok {
        NextRegion();
        ok := ip < ipLimit;
      }
    }

    /** The tag byte c has just been read: its extra bytes, and four bytes in all, can be loaded at ip. */
    ghost predicate TrailerReady(c: Byte)
      requires Valid()
      reads this, reader, scratch
    {
      ip + TagExtra(c) <= ipLimit && ip + 4 <= |Memory()|
    }

    /** Reads the tag byte. */
    method ReadTagByte() returns (c: Byte)
      requires Valid() && TagReady()
      modifies this`ip
      ensures Valid() && TrailerReady(c)
      ensures old(Rest()) == [c] + Rest()
    {
      c := Memory()[ip];
      Consume(1);
    }

    /** Loads the k extra bytes of a tag as one number and moves past them. */
    method ReadTrailer(c: Byte, k: nat) returns (trailer: nat)
      requires Valid() && TrailerReady(c) && k == TagExtra(c)
      modifies this`ip
      ensures Valid()
      ensures ParseTag([c] + old(Rest())) == Some((TagMeaning(c, trailer), 1 + k))
      ensures Rest() == old(Rest())[k..] && k <= |old(Rest())|
    {
      trailer := MaskWord(Load32(Memory(), ip), k);
      MaskedLoad(Memory(), ip, k);
      FrontInMemory(k);
      assert ([c] + Rest())[1..1 + k] == Rest()[..k];
      Consume(k);
    }

    /** The MAYBE_REFILL behind an element, seen together with the writer: false if the stream ends here, in a tag or not. */
    method NextTag(writer: Writer) returns (more: bool)
      requires Valid() && !eof && writer.Ready() && Apart(writer)
      modifies this, scratch, reader
      ensures writer.Ready() && writer.Progress() == old(writer.Progress()) && writer.Repr() == old(writer.Repr())
      ensures writer.Outside() == old(writer.Outside())
      ensures more ==> Valid() && TagReady() && !eof && Rest() == old(Rest())
      ensures !more ==> Outcome(writer.Progress(), old(Rest())) == if eof then Outcome(writer.Progress(), []) else None
      ensures eof ==> reader.left == []
    {
      hide Writer.Valid, Writer.Unflushed, Writer.Outside, LiteralOutcome, DecodeElements, ParseTag, Rest, TagReady;
      if Rest() != [] {
        OutcomeOfTag(writer.Progress(), Rest());
      }
      more := MaybeRefill();
    }

    /** A literal element whose tag byte c has been read. */
    method ProcessLiteral(c: Byte, writer: Writer) returns (more: bool)
      requires Valid() && TrailerReady(c) && c % 4 == 0 && !eof && writer.Ready() && Apart(writer)
      modifies this, reader, scratch, writer.Repr()
      ensures writer.Valid() && writer.Unflushed() && fresh(writer.Repr() - old(writer.Repr())) && Apart(writer)
      ensures writer.Outside() == old(writer.Outside())
      ensures Follows(old(writer.Progress()), writer.Progress())
      ensures more ==> Valid() && TagReady() && !eof && writer.Ready() && |Rest()| <= |old(Rest())|
      ensures more ==> Outcome(writer.Progress(), Rest()) == Outcome(old(writer.Progress()), [c] + old(Rest()))
      ensures !more ==> Outcome(old(writer.Progress()), [c] + old(Rest())) == if eof then Outcome(writer.Progress(), []) else None
      ensures writer.Progress().Rejected? ==> !eof
      ensures eof ==> reader.left == []
    {
      hide Writer.Valid, Writer.Unflushed, Writer.Outside, Valid, TagReady, TrailerReady, Rest;
      var literalLength := c / 4 + 1;
      more := TryFastLiteral(c, literalLength, writer);
      if more { return; }
      OutcomeOfTag(writer.Progress(), [c] + Rest());
      literalLength := ReadLiteralLength(c, literalLength);
      more := AppendLiteral(literalLength, writer);
      if more {
        more := NextTag(writer);
      }
    }

    /** The length of a literal, which may be stored behind the tag byte; computed in 32 bits. */
    method ReadLiteralLength(c: Byte, short: nat) returns (len: nat)
      requires Valid() && TrailerReady(c) && c % 4 == 0 && short == c / 4 + 1
      modifies this`ip
      ensures Valid()
      ensures exists size :: 0 < size <= 1 + |old(Rest())| && Rest() == ([c] + old(Rest()))[size..]
                             && ParseTag([c] + old(Rest())) == Some((LiteralTag(len), size))
    {
      len := short;
      ghost var whole := [c] + Rest();
      if len >= 61 {
        var lengthLength := len - 60;
        var trailer := ReadTrailer(c, lengthLength);
        len := (trailer + 1) % U32;
        assert Rest() == whole[1 + lengthLength..];
      } else {
        assert Rest() == whole[1..];
      }
    }

    /** The fast path for a literal: taken, it leaves room for the next tag. */
    method TryFastLiteral(c: Byte, len: nat, writer: Writer) returns (ok: bool)
      requires Valid() && TrailerReady(c) && c % 4 == 0 && len == c / 4 + 1 && !eof && writer.Ready() && Apart(writer)
      modifies this, writer.Repr()
      ensures writer.Ready() && fresh(writer.Repr() - old(writer.Repr())) && Apart(writer)
      ensures writer.Outside() == old(writer.Outside())
      ensures Follows(old(writer.Progress()), writer.Progress())
      ensures Valid() && !eof && |Rest()| <= |old(Rest())|
      ensures ok ==> TagReady()
      ensures ok ==> Outcome(writer.Progress(), Rest()) == Outcome(old(writer.Progress()), [c] + old(Rest()))
      ensures !ok ==> writer.Progress() == old(writer.Progress()) && Rest() == old(Rest()) && TrailerReady(c)
    {
      hide Writer.Valid, Writer.Unflushed, Writer.Outside, LiteralOutcome, DecodeElements;
      ok := writer.TryFastAppend(Memory()[ip..ipLimit], len);
      assert Apart(writer);
      if ok {
        FastLiteralOutcome(old(writer.Progress()), c, Rest(), len);
        assert Memory()[ip..ipLimit][..len] == Rest()[..len];
        Consume(len);
      }
    }

    /** A copy element whose tag byte c has been read. */
    method ProcessCopy(c: Byte, writer: Writer) returns (more: bool)
      requires Valid() && TrailerReady(c) && c % 4 != 0 && !eof && writer.Ready() && Apart(writer)
      modifies this, reader, scratch, writer.Repr()
      ensures writer.Valid() && writer.Unflushed() && fresh(writer.Repr() - old(writer.Repr())) && Apart(writer)
      ensures writer.Outside() == old(writer.Outside())
      ensures Follows(old(writer.Progress()), writer.Progress())
      ensures more ==> Valid() && TagReady() && !eof && writer.Ready() && |Rest()| <= |old(Rest())|
      ensures more ==> Outcome(writer.Progress(), Rest()) == Outcome(old(writer.Progress()), [c] + old(Rest()))
      ensures !more ==> Outcome(old(writer.Progress()), [c] + old(Rest())) == if eof then Outcome(writer.Progress(), []) else None
      ensures writer.Progress().Rejected? ==> !eof
      ensures eof ==> reader.left == []
    {
      hide Writer.Valid, Writer.Unflushed, Writer.Outside, Valid, TagReady, TrailerReady, Rest;
      OutcomeOfTag(writer.Progress(), [c] + Rest());
      var offset, length := ReadCopy(c);
      more := writer.AppendFromSelf(offset, length);
      if more {
        more := NextTag(writer);
      }
    }

    /** Offset and length of a copy, from the lookup table and the extra bytes. */
    method ReadCopy(c: Byte) returns (offset: nat, length: nat)
      requires Valid() && TrailerReady(c) && c % 4 != 0
      modifies this`ip
      ensures Valid() && |Rest()| <= |old(Rest())|
      ensures exists size :: 0 < size <= 1 + |old(Rest())| && Rest() == ([c] + old(Rest()))[size..]
                             && ParseTag([c] + old(Rest())) == Some((CopyTag(offset, length), size))
    {
      hide CharTable, TagMeaning;
      ghost var whole := [c] + Rest();
      TableMatchesFormat(c);
      var entry := CharTable(c);
      var extra := entry / 2048;
      var trailer := ReadTrailer(c, extra);
      length := entry % 256;
      var copyOffset := entry / 256 % 8 * 256;
      offset := copyOffset + trailer;
      CopyMeaning(c, trailer);
      BehindFirst(c, whole[1..], extra);
    }

    /** Processes elements until the input ends or an element is wrong; eof tells the two apart. */
    method DecompressAllTags(writer: Writer)
      requires Valid() && !eof && writer.Ready() && Apart(writer)
      modifies this, reader, scratch, writer.Repr()
      ensures writer.Valid() && writer.Unflushed() && fresh(writer.Repr() - old(writer.Repr())) && Apart(writer)
      ensures writer.Outside() == old(writer.Outside())
      ensures Follows(old(writer.Progress()), writer.Progress())
      ensures Outcome(old(writer.Progress()), old(Rest())) == if eof then Outcome(writer.Progress(), []) else None
      ensures old(writer.Progress()).Running? ==> (eof <==> Outcome(old(writer.Progress()), old(Rest())).Some?)
      ensures writer.Progress().Rejected? ==> !eof
      ensures eof ==> reader.left == []
    {
      hide Writer.Valid, Writer.Unflushed, Writer.Outside, Valid, TrailerReady, Rest, DecodeElements;
      ghost var target := Outcome(writer.Progress(), Rest());
      var more := NextTag(writer);
      while more
        invariant writer.Valid() && writer.Unflushed() && fresh(writer.Repr() - old(writer.Repr())) && Apart(writer)
        invariant writer.Outside() == old(writer.Outside())
        invariant Follows(old(writer.Progress()), writer.Progress())
        invariant more ==> Valid() && TagReady() && !eof && writer.Ready()
        invariant more ==> Outcome(writer.Progress(), Rest()) == target
        invariant !more ==> target == if eof then Outcome(writer.Progress(), []) else None
        invariant writer.Progress().Rejected? ==> !eof
        invariant eof ==> reader.left == []
        decreases more, if more then |Rest()| else 0
      {
        var c := ReadTagByte();
        if c % 4 == 0 {
          more := ProcessLiteral(c, writer);
        } else {
          more := ProcessCopy(c, writer);
        }
      }
      OutcomeAtEnd(writer.Progress());
    }
  }

  /** Offset and length of a copy as the lookup table has them. */
  lemma CopyMeaning(c: Byte, trailer: nat)
    requires c % 4 != 0
    ensures TagMeaning(c, trailer) == CopyTag(CharTable(c) / 256 % 8 * 256 + trailer, CharTable(c) % 256)
  {
    hide CharTable;
    TableMatchesFormat(c);
  }

  lemma Stitched(now: seq<Byte>, before: seq<Byte>, left: seq<Byte>, n: nat)
    requires n <= |left| && |now| == |before| + n && now[..|before|] == before && now[|before|..] == left[..n]
    ensures now + left[n..] == before + left
  {
    assert now == before + left[..n];
    assert left == left[..n] + left[n..];
  }

  lemma BehindSome(a: seq<Byte>, b: seq<Byte>, n: nat)
    requires n <= |a|
    ensures (a + b)[n..] == a[n..] + b
  {
  }

  lemma BehindFirst(c: Byte, rest: seq<Byte>, k: nat)
    requires k <= |rest|
    ensures ([c] + rest)[1..] == rest && ([c] + rest)[1 + k..] == rest[k..]
  {
  }

  lemma FastLiteralOutcome(p: Progress, c: Byte, rest: seq<Byte>, len: nat)
    requires c % 4 == 0 && len == c / 4 + 1 <= 16 && len <= |rest|
    ensures Outcome(p, [c] + rest) == Outcome(AfterAppend(p, rest[..len]), rest[len..])
  {
    OutcomeOfTag(p, [c] + rest);
    assert ([c] + rest)[1..] == rest;
    OutcomeOfWholeLiteral(p, rest, len);
  }
}
