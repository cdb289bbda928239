/** The writers a decompressor can be used with: the instances of its Writer template parameter. */
module Writers {
  import opened Bytes
  import opened Progress
  import opened Scatter
  import ArrayWriter
  import IOVecWriter
  import ScatteredWriter
  import Validator

  ghost function Objects(bufs: seq<array<Byte>>): (objects: set<object>)
    ensures forall i :: 0 <= i < |bufs| ==> bufs[i] in objects
    ensures forall o :: o in objects ==> exists i :: 0 <= i < |bufs| && o == bufs[i]
  {
    set i | 0 <= i < |bufs| :: bufs[i] as object
  }

  datatype Writer =
    | Flat(array_: ArrayWriter.ArrayWriter)
    | IOVec(iovec: IOVecWriter.IOVecWriter)
    | Scattered(scattered: ScatteredWriter.ScatteredWriter)
    | Validating(validator: Validator.Validator)
  {
    /** The writer object itself. */
    ghost function Object(): object
    {
      match this
      case Flat(w) => w
      case IOVec(w) => w
      case Scattered(w) => w
      case Validating(w) => w
    }

    /** Every object an append may change. */
    ghost function Repr(): (objects: set<object>)
      reads Object()
      ensures Object() in objects
    {
      match this
      case Flat(w) => {w, w.base}
      case IOVec(w) => {w as object} + Objects(w.iovs)
      case Scattered(w) => {w as object, w.allocator} + Objects(w.blocks)
      case Validating(w) => {w}
    }

    /** The sink that Flush writes to. */
    ghost function Sinks(): set<object>
    {
      match this
      case Scattered(w) => {w.allocator.dest}
      case _ => {}
    }

    ghost predicate Valid()
      reads Object(), Repr()
    {
      match this
      case Flat(w) => w.Valid()
      case IOVec(w) => w.Valid()
      case Scattered(w) => w.Valid()
      case Validating(w) => w.Valid()
    }

    ghost function Progress(): Progress
      reads Object()
    {
      match this
      case Flat(w) => w.progress
      case IOVec(w) => w.progress
      case Scattered(w) => w.progress
      case Validating(w) => w.progress
    }

    /** Nothing has been flushed yet. */
    ghost predicate Unflushed()
      reads Object(), Repr()
    {
      match this
      case Scattered(w) => w.Unflushed()
      case _ => true
    }

    ghost predicate Ready()
      reads Object(), Repr()
    {
      Valid() && Open(Progress()) && Unflushed()
    }

    /** What the memory behind the writer holds outside the bytes it was told to write. */
    ghost function Outside(): (seq<Byte>, seq<Byte>)
      requires Valid()
      reads Object(), Repr()
    {
      match this
      case Flat(w) => w.Outside()
      case IOVec(w) => ([], w.Outside())
      case _ => ([], [])
    }

    /** All the memory that the writer was given to write to; the other writers bring their own. */
    ghost function Memory(): seq<Byte>
      reads Object(), Repr()
    {
      match this
      case Flat(w) => w.base[..]
      case IOVec(w) => Flatten(Snapshot(w.iovs))
      case _ => []
    }

    /** The declared length fits the memory behind the writer, as far as the caller has to see to that. */
    ghost predicate Fits(len: nat)
    {
      len < U32 && (Flat? ==> array_.start + len <= array_.base.Length) && (IOVec? && iovec.iovs == [] ==> len == 0)
    }

    /** The progress a writer makes its start with. */
    ghost function Started(len: nat): Progress
    {
      if IOVec? && len > Start(iovec.iovs, |iovec.iovs|) then Cramped else Running([], len)
    }

    method SetExpectedLength(len: nat)
      requires Valid() && Progress() == Idle && Unflushed() && Fits(len)
      modifies Object()
      ensures Ready() && Progress() == Started(len) && Repr() == old(Repr())
      ensures Flat? ==> array_.opLimit == array_.start + len
      ensures IOVec? ==> iovec.outputLimit == len
      ensures Memory() == old(Memory())
    {
      match this
      case Flat(w) => w.SetExpectedLength(len);
      case IOVec(w) => w.SetExpectedLength(len);
      case Scattered(w) => w.SetExpectedLength(len);
      case Validating(w) => w.SetExpectedLength(len);
    }

    method Append(ip: seq<Byte>) returns (ok: bool)
      requires Ready()
      modifies Repr()
      ensures Valid() && Unflushed() && Progress() == AfterAppend(old(Progress()), ip)
      ensures !Progress().Cramped? ==> (ok <==> !Progress().Rejected?)
      ensures fresh(Repr() - old(Repr())) && Outside() == old(Outside())
    {
      hide Flatten, Beyond, Start;
      match this
      case Flat(w) => ok := w.Append(ip);
      case IOVec(w) => ok := w.Append(ip);
      case Scattered(w) => ok := w.Append(ip);
      case Validating(w) => ok := w.Append(ip);
    }

    method TryFastAppend(ip: seq<Byte>, len: nat) returns (ok: bool)
      requires Ready()
      modifies Repr()
      ensures Ready()
      ensures ok ==> len <= 16 && len + 5 <= |ip| && Progress() == AfterAppend(old(Progress()), ip[..len])
      ensures !ok ==> Progress() == old(Progress())
      ensures fresh(Repr() - old(Repr())) && Outside() == old(Outside())
    {
      hide Flatten, Beyond, Start;
      match this
      case Flat(w) => ok := w.TryFastAppend(ip, len);
      case IOVec(w) => ok := w.TryFastAppend(ip, len);
      case Scattered(w) => ok := w.TryFastAppend(ip, len);
      case Validating(w) => ok := w.TryFastAppend(ip, len);
    }

    method AppendFromSelf(offset: nat, len: nat) returns (ok: bool)
      requires Ready()
      modifies Repr()
      ensures Valid() && Unflushed() && Progress() == AfterCopy(old(Progress()), offset, len)
      ensures !Progress().Cramped? ==> (ok <==> !Progress().Rejected?)
      ensures fresh(Repr() - old(Repr())) && Outside() == old(Outside())
    {
      hide Flatten, Beyond, Start;
      match this
      case Flat(w) => ok := w.AppendFromSelf(offset, len);
      case IOVec(w) => ok := w.AppendFromSelf(offset, len);
      case Scattered(w) => ok := w.AppendFromSelf(offset, len);
      case Validating(w) => ok := w.AppendFromSelf(offset, len);
    }

    method Flush()
      requires Valid() && Unflushed()
      modifies Repr(), Sinks()
      ensures Valid() && Progress() == old(Progress()) && Repr() == old(Repr()) && Outside() == old(Outside())
      ensures Scattered? && Progress().Running? ==>
                scattered.allocator.dest.contents == old(scattered.allocator.dest.contents) + Progress().out
    {
      match this
      case Scattered(w) => w.Flush();
      case _ =>
    }

    method CheckLength() returns (ok: bool)
      requires Valid()
      ensures Progress().Running? ==> (ok <==> |Progress().out| == Progress().limit)
      ensures Progress().Cramped? ==> !ok
    {
      match this
      case Flat(w) => ok := w.CheckLength();
      case IOVec(w) => ok := w.CheckLength();
      case Scattered(w) => ok := w.CheckLength();
      case Validating(w) => ok := w.CheckLength();
    }
  }
}
