/** The byte endpoints the codec reads from and writes to. */
module SourceSink {
  import opened Bytes
  import opened IncrementalCopy

  /** A Source: what is left to read, handed out in regions whose sizes nobody controls. */
  class Source {
    var left: seq<Byte>

    constructor (data: seq<Byte>)
      ensures left == data
    {
      left := data;
    }

    function Available(): nat
      reads this
    {
      |left|
    }

    /** The next flat region: any non-empty prefix of what is left below 2^32 bytes, or nothing at the end. */
    method Peek() returns (region: seq<Byte>)
      ensures region <= left && |region| < U32
      ensures region == [] <==> left == []
    {
      if left == [] {
        region := [];
      } else {
        var n :| 1 <= n <= |left| && n < U32;
        region := left[..n];
      }
    }

    method Skip(n: nat)
      requires n <= |left|
      modifies this
      ensures left == old(left)[n..]
    {
      left := left[n..];
    }
  }

  /** A Sink that keeps every default of the base class: it has no buffer of its own to offer. */
  class Sink {
    var contents: seq<Byte>

    constructor ()
      ensures contents == []
    {
      contents := [];
    }

    method Append(bytes: seq<Byte>)
      modifies this
      ensures contents == old(contents) + bytes
    {
      contents := contents + bytes;
    }
  }

  /** A sink over a flat array, without any bound checks of its own. */
  class UncheckedByteArraySink {
    const buf: array<Byte>
    var dest: nat

    constructor (buf: array<Byte>)
      ensures this.buf == buf && dest == 0
    {
      this.buf := buf;
      dest := 0;
    }

    /** Appends n bytes found in data from position from on; nothing is copied if they are in place already. */
    method Append(data: array<Byte>, from: nat, n: nat)
      requires from + n <= data.Length && dest + n <= buf.Length
      modifies this`dest, buf
      ensures dest == old(dest) + n
      ensures buf[..dest] == old(buf[..dest]) + old(data[from..from + n])
    {
      if !(data == buf && from == dest) {
        MemCopy(data[from..from + n], buf, dest);
      }
      dest := dest + n;
      assert buf[..dest] == buf[..old(dest)] + buf[old(dest)..dest];
    }
  }

  /** The sinks a compressor can write to: one that keeps a buffer of its own, and any that does not. */
  datatype AppendSink = Unchecked(array_: UncheckedByteArraySink) | Collecting(sink: Sink)
  {
    ghost function Repr(): set<object>
    {
      match this
      case Unchecked(s) => {s, s.buf}
      case Collecting(s) => {s}
    }

    ghost function Contents(): seq<Byte>
      reads Repr()
    {
      match this
      case Unchecked(s) => if s.dest <= s.buf.Length then s.buf[..s.dest] else []
      case Collecting(s) => s.contents
    }

    /** At least n more bytes fit. */
    ghost predicate HasRoom(n: nat)
      reads Repr()
    {
      Unchecked? ==> array_.dest + n <= array_.buf.Length
    }

    /** The bytes that are left of the sink's own buffer. */
    ghost function Space(): int
      reads Repr()
    {
      if Unchecked? then array_.buf.Length - array_.dest else 0
    }

    /** Where the caller may write before it appends: behind the contents, or in its own scratch buffer. */
    method GetAppendBuffer(scratch: array<Byte>) returns (buf: array<Byte>, at: nat)
      ensures if Unchecked? then buf == array_.buf && at == array_.dest else buf == scratch && at == 0
    {
      match this
      case Unchecked(s) => buf, at := s.buf, s.dest;
      case Collecting(_) => buf, at := scratch, 0;
    }

    /** A buffer for hint bytes: behind the contents, where the sink gives out as much as it is asked for, or whatever
        buffer offered a sink without one comes up with. */
    method GetAppendBufferVariable(hint: nat, offered: array<Byte>) returns (buf: array<Byte>, at: nat, allocatedSize: nat)
      ensures if Unchecked? then buf == array_.buf && at == array_.dest && allocatedSize == hint
              else buf == offered && at == 0 && allocatedSize == offered.Length
    {
      match this
      case Unchecked(s) => buf, at, allocatedSize := s.buf, s.dest, hint;
      case Collecting(_) => buf, at, allocatedSize := offered, 0, offered.Length;
    }

    method Append(data: array<Byte>, from: nat, n: nat)
      requires from + n <= data.Length && HasRoom(n)
      modifies Repr()
      ensures HasRoom(0) && Contents() == old(Contents()) + old(data[from..from + n])
      ensures Unchecked? ==> array_.dest == old(array_.dest) + n
    {
      match this
      case Unchecked(s) => s.Append(data, from, n);
      case Collecting(s) => s.Append(data[from..from + n]);
    }
  }
}
