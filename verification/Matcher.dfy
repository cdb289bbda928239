/** The matcher of CompressFragment as a function of its input: which literals and copies one block turns into. */
module Matcher {
  import opened Bytes
  import opened Format
  import opened Matching
  import opened Elements

  const INPUT_MARGIN := 15

  /** Hash table entries are 16-bit positions in the block. */
  type Position = p: nat | p < 65536

  type Table = seq<Position>

  /** How far the scan moves on from a position when the skip counter has a given value. */
  type Schedule = (nat, nat) -> nat

  /** The schedule never stands still; the skip counter starts at 32 and only grows. */
  ghost predicate Advances(step: Schedule)
  {
    forall ip: nat, skip: nat :: skip >= 32 ==> step(ip, skip) >= 1
  }

  /** The two schedules of the code: one byte further for every 32 bytes without a match, or one byte at a time. */
  function StepWidth(fast: bool): (step: Schedule)
    ensures Advances(step)
  {
    (ip: nat, skip: nat) => if fast then skip / 32 else 1
  }

  /** hash maps every word to an index below size. */
  ghost predicate HashesInto(hash: nat -> nat, size: nat)
  {
    forall w :: hash(w) < size
  }

  /** All table entries lie before ip. */
  ghost predicate Before(table: Table, ip: nat)
  {
    forall i :: 0 <= i < |table| ==> table[i] < ip
  }

  lemma BeforeLater(table: Table, ip: nat, later: nat)
    requires Before(table, ip) && ip <= later
    ensures Before(table, later)
  {
  }

  /** The last position at which scanning may look, plus one margin: ip_limit. */
  function Limit(inp: seq<Byte>): nat
    requires |inp| >= INPUT_MARGIN
  {
    |inp| - INPUT_MARGIN
  }

  datatype ScanResult = Exhausted | Found(ip: nat, candidate: nat, table: Table)

  /** Step 1: looks for a position whose four bytes occurred before at the table's candidate. */
  function Scan(inp: seq<Byte>, hash: nat -> nat, step: Schedule, table: Table, ip: nat, skip: nat): (r: ScanResult)
    requires INPUT_MARGIN <= |inp| <= BLOCK_SIZE && HashesInto(hash, |table|) && Advances(step)
    requires 1 <= ip <= Limit(inp) + 1 && Before(table, ip) && skip >= 32
    ensures r.Found? ==> r.candidate < r.ip < Limit(inp) && ip <= r.ip && |r.table| == |table| && Before(r.table, r.ip + 1)
    ensures r.Found? ==> Load32(inp, r.ip) == Load32(inp, r.candidate)
    decreases |inp| - ip
  {
    var width := step(ip, skip);
    var nextIp := ip + width;
    if nextIp > Limit(inp) then Exhausted
    else
      var h := hash(Load32(inp, ip));
      var candidate := table[h];
      var marked := table[h := ip];
      if Load32(inp, ip) == Load32(inp, candidate) then Found(ip, candidate, marked)
      else Scan(inp, hash, step, marked, nextIp, skip + width)
  }

  /** One round of the scan. */
  lemma ScanStep(inp: seq<Byte>, hash: nat -> nat, step: Schedule, table: Table, ip: nat, skip: nat, width: nat)
    requires INPUT_MARGIN <= |inp| <= BLOCK_SIZE && HashesInto(hash, |table|) && Advances(step)
    requires 1 <= ip <= Limit(inp) + 1 && Before(table, ip) && skip >= 32
    requires width == step(ip, skip)
    ensures ip + width > Limit(inp) ==> Scan(inp, hash, step, table, ip, skip) == Exhausted
    ensures ip + width <= Limit(inp) ==>
              var h := hash(Load32(inp, ip));
              var marked := table[h := ip];
              Scan(inp, hash, step, table, ip, skip) ==
              if Load32(inp, ip) == Load32(inp, table[h]) then Found(ip, table[h], marked)
              else Scan(inp, hash, step, marked, ip + width, skip + width)
  {
  }

  datatype CopiesResult = CopiesResult(bytes: seq<Byte>, ip: nat, table: Table, more: bool)

  /** Step 3: copies for the match at ip and for every match that follows immediately. */
  function Copies(inp: seq<Byte>, hash: nat -> nat, table: Table, ip: nat, candidate: nat): (r: CopiesResult)
    requires INPUT_MARGIN <= |inp| <= BLOCK_SIZE && HashesInto(hash, |table|)
    requires candidate < ip < Limit(inp) && Before(table, ip + 1)
    ensures ip + 4 <= r.ip <= |inp| && |r.table| == |table|
    ensures r.more ==> r.ip < Limit(inp) && Before(r.table, r.ip + 1)
    decreases |inp| - ip
  {
    var matched := 4 + MatchLength(inp, candidate + 4, ip + 4, |inp|);
    var element := CopyElement(ip - candidate, matched);
    var next := ip + matched;
    if next >= Limit(inp) then CopiesResult(element, next, table, false)
    else
      var marked := table[hash(Load32(inp, next - 1)) := next - 1];
      var h := hash(Load32(inp, next));
      var nextCandidate := marked[h];
      var marked2 := marked[h := next];
      if Load32(inp, next) == Load32(inp, nextCandidate) then
        var r := Copies(inp, hash, marked2, next, nextCandidate);
        r.(bytes := element + r.bytes)
      else CopiesResult(element, next, marked2, true)
  }

  /** One round of step 3. */
  lemma CopiesStep(inp: seq<Byte>, hash: nat -> nat, table: Table, ip: nat, candidate: nat, next: nat)
    requires INPUT_MARGIN <= |inp| <= BLOCK_SIZE && HashesInto(hash, |table|)
    requires candidate < ip < Limit(inp) && Before(table, ip + 1)
    requires next == ip + 4 + MatchLength(inp, candidate + 4, ip + 4, |inp|)
    ensures next >= Limit(inp) ==>
              Copies(inp, hash, table, ip, candidate) == CopiesResult(CopyElement(ip - candidate, next - ip), next, table, false)
    ensures next < Limit(inp) ==>
              var marked := table[hash(Load32(inp, next - 1)) := next - 1];
              var h := hash(Load32(inp, next));
              var marked2 := marked[h := next];
              && marked[h] < next && Before(marked2, next + 1)
              && Copies(inp, hash, table, ip, candidate) ==
                 if Load32(inp, next) == Load32(inp, marked[h]) then
                   var r := Copies(inp, hash, marked2, next, marked[h]);
                   r.(bytes := CopyElement(ip - candidate, next - ip) + r.bytes)
                 else CopiesResult(CopyElement(ip - candidate, next - ip), next, marked2, true)
  {
  }

  /** The remaining bytes as a literal. */
  function Remainder(inp: seq<Byte>, nextEmit: nat): seq<Byte>
    requires nextEmit <= |inp| <= BLOCK_SIZE
  {
    if nextEmit < |inp| then LiteralElement(inp[nextEmit..]) else []
  }

  /** The main loop: everything emitted from nextEmit on when scanning continues at ip. */
  function MainLoop(inp: seq<Byte>, hash: nat -> nat, step: Schedule, table: Table, ip: nat, nextEmit: nat): (bytes: seq<Byte>)
    requires INPUT_MARGIN <= |inp| <= BLOCK_SIZE && HashesInto(hash, |table|) && Advances(step)
    requires nextEmit < ip <= Limit(inp) + 1 && Before(table, ip)
    decreases |inp| - ip
  {
    match Scan(inp, hash, step, table, ip, 32)
    case Exhausted => Remainder(inp, nextEmit)
    case Found(at, candidate, marked) =>
      var copies := Copies(inp, hash, marked, at, candidate);
      LiteralElement(inp[nextEmit..at]) + copies.bytes + AfterCopies(inp, hash, step, copies)
  }

  /** What is emitted behind the copies of one match. */
  function AfterCopies(inp: seq<Byte>, hash: nat -> nat, step: Schedule, copies: CopiesResult): seq<Byte>
    requires INPUT_MARGIN <= |inp| <= BLOCK_SIZE && HashesInto(hash, |copies.table|) && copies.ip <= |inp| && Advances(step)
    requires copies.more ==> copies.ip < Limit(inp) && Before(copies.table, copies.ip + 1)
    decreases |inp| - copies.ip
  {
    if copies.more then MainLoop(inp, hash, step, copies.table, copies.ip + 1, copies.ip) else Remainder(inp, copies.ip)
  }

  /** One iteration of the main loop. */
  lemma MainLoopStep(inp: seq<Byte>, hash: nat -> nat, step: Schedule, table: Table, ip: nat, nextEmit: nat)
    requires INPUT_MARGIN <= |inp| <= BLOCK_SIZE && HashesInto(hash, |table|) && Advances(step)
    requires nextEmit < ip <= Limit(inp) + 1 && Before(table, ip)
    ensures var r := Scan(inp, hash, step, table, ip, 32);
            && (r.Exhausted? ==> MainLoop(inp, hash, step, table, ip, nextEmit) == Remainder(inp, nextEmit))
            && (r.Found? ==>
                  var copies := Copies(inp, hash, r.table, r.ip, r.candidate);
                  MainLoop(inp, hash, step, table, ip, nextEmit)
                  == (LiteralElement(inp[nextEmit..r.ip]) + copies.bytes) + AfterCopies(inp, hash, step, copies))
  {
    hide Scan, Copies, AfterCopies, Remainder, LiteralElement, Before, HashesInto;
  }

  /** The compressed form of one block, for a table of the given size that starts out as zeros. */
  function Fragment(inp: seq<Byte>, hash: nat -> nat, step: Schedule, tableSize: nat): seq<Byte>
    requires |inp| <= BLOCK_SIZE && HashesInto(hash, tableSize) && Advances(step)
  {
    if |inp| >= INPUT_MARGIN then MainLoop(inp, hash, step, seq(tableSize, _ => 0), 1, 0)
    else Remainder(inp, 0)
  }

  /** Copying from an earlier occurrence reproduces the match, even when the two overlap. */
  lemma MatchIsCopy(prefix: seq<Byte>, inp: seq<Byte>, candidate: nat, ip: nat, matched: nat)
    requires candidate < ip && ip + matched <= |inp|
    requires inp[candidate..candidate + matched] == inp[ip..ip + matched]
    ensures CopyBytes(prefix + inp[..ip], ip - candidate, matched) == prefix + inp[..ip + matched]
  {
    var out, r, offset := prefix + inp[..ip], prefix + inp[..ip + matched], ip - candidate;
    forall k | |out| <= k < |r|
      ensures r[k] == r[k - offset]
    {
      var j := k - |out|;
      assert inp[candidate..candidate + matched][j] == inp[ip..ip + matched][j];
    }
    CopyIsPeriodic(out, offset, matched, r);
  }

  lemma MatchAfterFour(inp: seq<Byte>, candidate: nat, ip: nat) returns (matched: nat)
    requires candidate < ip && ip + 4 <= |inp| && Load32(inp, ip) == Load32(inp, candidate)
    ensures matched == 4 + MatchLength(inp, candidate + 4, ip + 4, |inp|)
    ensures inp[candidate..candidate + matched] == inp[ip..ip + matched]
  {
    var n := MatchLength(inp, candidate + 4, ip + 4, |inp|);
    matched := 4 + n;
    SameLoadSameBytes(inp, ip, candidate);
    MatchLengthIsLargest(inp, candidate + 4, ip + 4, |inp|, n);
    assert inp[candidate..candidate + matched] == inp[candidate..candidate + 4] + inp[candidate + 4..candidate + 4 + n];
    assert inp[ip..ip + matched] == inp[ip..ip + 4] + inp[ip + 4..ip + 4 + n];
  }

  /** The copies of step 3 produce exactly the input they cover. */
  lemma {:induction false} CopiesYield(prefix: seq<Byte>, inp: seq<Byte>, hash: nat -> nat, table: Table, ip: nat, candidate: nat)
    requires INPUT_MARGIN <= |inp| <= BLOCK_SIZE && HashesInto(hash, |table|)
    requires candidate < ip < Limit(inp) && Before(table, ip + 1)
    requires Load32(inp, ip) == Load32(inp, candidate)
    ensures var r := Copies(inp, hash, table, ip, candidate);
            Yields(r.bytes, prefix + inp[..ip], prefix + inp[..r.ip])
    decreases |inp| - ip
  {
    hide Yields, CopyElement, MatchLength, CopyBytes, Copies;
    var matched := MatchAfterFour(inp, candidate, ip);
    MatchIsCopy(prefix, inp, candidate, ip, matched);
    var next := ip + matched;
    CopiesStep(inp, hash, table, ip, candidate, next);
    CopyYields(ip - candidate, matched, prefix + inp[..ip]);
    if next < Limit(inp) {
      var marked := table[hash(Load32(inp, next - 1)) := next - 1];
      var h := hash(Load32(inp, next));
      var nextCandidate := marked[h];
      var marked2 := marked[h := next];
      if Load32(inp, next) == Load32(inp, nextCandidate) {
        CopiesYield(prefix, inp, hash, marked2, next, nextCandidate);
        var r := Copies(inp, hash, marked2, next, nextCandidate);
        YieldsConcat(CopyElement(ip - candidate, matched), r.bytes, prefix + inp[..ip], prefix + inp[..next], prefix + inp[..r.ip]);
      }
    }
  }

  lemma RemainderYields(prefix: seq<Byte>, inp: seq<Byte>, nextEmit: nat)
    requires nextEmit <= |inp| <= BLOCK_SIZE
    ensures Yields(Remainder(inp, nextEmit), prefix + inp[..nextEmit], prefix + inp)
  {
    hide Yields;
    if nextEmit < |inp| {
      LiteralYields(inp[nextEmit..], prefix + inp[..nextEmit]);
      assert (prefix + inp[..nextEmit]) + inp[nextEmit..] == prefix + inp;
    } else {
      YieldsNothing(prefix + inp);
      assert inp[..nextEmit] == inp;
    }
  }

  /** What the main loop emits produces exactly the rest of the input, whatever the hash function and the schedule. */
  lemma {:induction false} MainLoopYields(prefix: seq<Byte>, inp: seq<Byte>, hash: nat -> nat, step: Schedule, table: Table, ip: nat, nextEmit: nat)
    requires INPUT_MARGIN <= |inp| <= BLOCK_SIZE && HashesInto(hash, |table|) && Advances(step)
    requires nextEmit < ip <= Limit(inp) + 1 && Before(table, ip)
    ensures Yields(MainLoop(inp, hash, step, table, ip, nextEmit), prefix + inp[..nextEmit], prefix + inp)
    decreases |inp| - ip
  {
    hide Yields, Before, HashesInto, Scan, Copies, Remainder;
    match Scan(inp, hash, step, table, ip, 32)
    case Exhausted => RemainderYields(prefix, inp, nextEmit);
    case Found(at, candidate, marked) =>
      var literal, copies := inp[nextEmit..at], Copies(inp, hash, marked, at, candidate);
      LiteralYields(literal, prefix + inp[..nextEmit]);
      assert (prefix + inp[..nextEmit]) + literal == prefix + inp[..at];
      CopiesYield(prefix, inp, hash, marked, at, candidate);
      YieldsConcat(LiteralElement(literal), copies.bytes, prefix + inp[..nextEmit], prefix + inp[..at], prefix + inp[..copies.ip]);
      if copies.more {
        MainLoopYields(prefix, inp, hash, step, copies.table, copies.ip + 1, copies.ip);
      } else {
        RemainderYields(prefix, inp, copies.ip);
      }
      YieldsConcat(LiteralElement(literal) + copies.bytes, AfterCopies(inp, hash, step, copies),
                   prefix + inp[..nextEmit], prefix + inp[..copies.ip], prefix + inp);
  }

  /** Any hash function and any schedule give a valid bitstream: a block's compressed form decodes to the block, behind any prefix. */
  lemma FragmentYields(prefix: seq<Byte>, inp: seq<Byte>, hash: nat -> nat, step: Schedule, tableSize: nat)
    requires |inp| <= BLOCK_SIZE && HashesInto(hash, tableSize) && Advances(step)
    ensures Yields(Fragment(inp, hash, step, tableSize), prefix, prefix + inp)
  {
    hide Yields;
    assert prefix + inp[..0] == prefix;
    if |inp| >= INPUT_MARGIN {
      MainLoopYields(prefix, inp, hash, step, seq(tableSize, _ => 0), 1, 0);
    } else {
      RemainderYields(prefix, inp, 0);
    }
  }

  lemma {:induction false} CopiesSize(inp: seq<Byte>, hash: nat -> nat, table: Table, ip: nat, candidate: nat)
    requires INPUT_MARGIN <= |inp| <= BLOCK_SIZE && HashesInto(hash, |table|)
    requires candidate < ip < Limit(inp) && Before(table, ip + 1)
    ensures var r := Copies(inp, hash, table, ip, candidate);
            |r.bytes| <= r.ip - ip - 1
    decreases |inp| - ip
  {
    var matched := 4 + MatchLength(inp, candidate + 4, ip + 4, |inp|);
    CopySize(ip - candidate, matched);
    var next := ip + matched;
    if next < Limit(inp) {
      var marked := table[hash(Load32(inp, next - 1)) := next - 1];
      var h := hash(Load32(inp, next));
      var nextCandidate := marked[h];
      var marked2 := marked[h := next];
      if Load32(inp, next) == Load32(inp, nextCandidate) {
        CopiesSize(inp, hash, marked2, next, nextCandidate);
      }
    }
  }

  /** size bytes of output for consumed bytes of input expand by at most one part in sixty, and one byte. */
  predicate Small(size: nat, consumed: nat)
  {
    60 * size <= 61 * consumed + 60
  }

  lemma RemainderSize(inp: seq<Byte>, nextEmit: nat)
    requires nextEmit <= |inp| <= BLOCK_SIZE
    ensures Small(|Remainder(inp, nextEmit)|, |inp| - nextEmit)
  {
    if nextEmit < |inp| {
      LiteralSize(inp[nextEmit..]);
    }
  }

  lemma {:induction false} MainLoopSize(inp: seq<Byte>, hash: nat -> nat, step: Schedule, table: Table, ip: nat, nextEmit: nat)
    requires INPUT_MARGIN <= |inp| <= BLOCK_SIZE && HashesInto(hash, |table|) && Advances(step)
    requires nextEmit < ip <= Limit(inp) + 1 && Before(table, ip)
    ensures Small(|MainLoop(inp, hash, step, table, ip, nextEmit)|, |inp| - nextEmit)
    decreases |inp| - ip
  {
    hide Before, HashesInto, Scan, Copies, Remainder, LiteralElement;
    match Scan(inp, hash, step, table, ip, 32)
    case Exhausted => RemainderSize(inp, nextEmit);
    case Found(at, candidate, marked) =>
      var copies := Copies(inp, hash, marked, at, candidate);
      LiteralSize(inp[nextEmit..at]);
      CopiesSize(inp, hash, marked, at, candidate);
      if copies.more {
        MainLoopSize(inp, hash, step, copies.table, copies.ip + 1, copies.ip);
      } else {
        RemainderSize(inp, copies.ip);
      }
  }

  lemma FragmentSize(inp: seq<Byte>, hash: nat -> nat, step: Schedule, tableSize: nat)
    requires |inp| <= BLOCK_SIZE && HashesInto(hash, tableSize) && Advances(step)
    ensures Small(|Fragment(inp, hash, step, tableSize)|, |inp|)
  {
    if |inp| >= INPUT_MARGIN {
      MainLoopSize(inp, hash, step, seq(tableSize, _ => 0), 1, 0);
    } else {
      RemainderSize(inp, 0);
    }
  }
}
