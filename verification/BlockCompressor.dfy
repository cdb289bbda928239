/** CompressFragment: the matcher's loops over one block, its hash table and the output buffer. */
module BlockCompressor {
  import opened Bytes
  import opened Bits
  import opened Matching
  import opened Elements
  import opened Emit
  import opened Matcher
  import opened HashTable

  /** Step 1: scans forward for a four-byte match, marking every position it looks at. nextHash0 is the hash at ip0. */
  method ScanForMatch(inp: seq<Byte>, hash: nat -> nat, fast: bool, table: array<Position>, ghost size: nat, ip0: nat, nextHash0: nat)
    returns (found: bool, ip: nat, candidate: nat)
    requires INPUT_MARGIN <= |inp| <= BLOCK_SIZE && size <= table.Length && HashesInto(hash, size)
    requires 1 <= ip0 <= Limit(inp) + 1 && Before(table[..size], ip0)
    requires nextHash0 == hash(Load32(inp, ip0))
    modifies table
    ensures match Scan(inp, hash, StepWidth(fast), old(table[..size]), ip0, 32)
            case Exhausted => !found
            case Found(at, from, marked) => found && ip == at && candidate == from && table[..size] == marked
  {
    hide Scan;
    ghost var target := Scan(inp, hash, StepWidth(fast), table[..size], ip0, 32);
    var ipLimit := Limit(inp);
    var skip: nat := 32;
    var nextIp, nextHash := ip0, nextHash0;
    ip, candidate := ip0, 0;
    while true
      invariant ip0 <= nextIp <= Limit(inp) + 1 && nextHash == hash(Load32(inp, nextIp)) && Before(table[..size], nextIp)
      invariant 32 <= skip <= 32 + nextIp
      invariant Scan(inp, hash, StepWidth(fast), table[..size], nextIp, skip) == target
      decreases |inp| - nextIp
    {
      ip := nextIp;
      var h := nextHash;
      var bytesBetweenHashLookups: nat := 1;
      if fast {
        bytesBetweenHashLookups := skip / 32;
      }
      ScanStep(inp, hash, StepWidth(fast), table[..size], ip, skip, bytesBetweenHashLookups);
      skip := skip + bytesBetweenHashLookups;
      nextIp := ip + bytesBetweenHashLookups;
      if nextIp > ipLimit {
        return false, ip, candidate;
      }
      nextHash := hash(Load32(inp, nextIp));
      candidate := table[h];
      ghost var was := table[..size];
      assert candidate == was[h];
      table[h] := ip;
      assert table[..size] == was[h := ip];
      if Load32(inp, ip) == Load32(inp, candidate) {
        return true, ip, candidate;
      }
    }
  }

  /** The state of step 3: the match to be copied next, and the output still to come on top of what op has reached. */
  ghost predicate CopiesToCome(written: seq<Byte>, remaining: CopiesResult, before: seq<Byte>, total: CopiesResult)
  {
    && written + remaining.bytes == before + total.bytes
    && remaining.(bytes := []) == total.(bytes := [])
  }

  lemma CopiesAdvance(written: seq<Byte>, remaining: CopiesResult, element: seq<Byte>, before: seq<Byte>, total: CopiesResult)
    requires CopiesToCome(written, remaining, before, total)
    ensures forall next: CopiesResult :: remaining == next.(bytes := element + next.bytes) ==>
              CopiesToCome(written + element, next, before, total)
    ensures remaining.bytes == element ==> written + element == before + total.bytes
  {
    forall next: CopiesResult | remaining == next.(bytes := element + next.bytes)
      ensures CopiesToCome(written + element, next, before, total)
    {
      assert (written + element) + next.bytes == written + remaining.bytes;
    }
  }

  /** Finds out how long the match at ip is and emits it as a copy. */
  method EmitMatch(inp: seq<Byte>, dst: array<Byte>, op0: nat, base: nat, candidate: nat) returns (op: nat, ip: nat)
    requires |inp| <= BLOCK_SIZE && candidate < base && base + 4 <= |inp|
    requires op0 + |CopyElement(base - candidate, 4 + MatchLength(inp, candidate + 4, base + 4, |inp|))| + 1 <= dst.Length
    modifies dst
    ensures ip == base + 4 + MatchLength(inp, candidate + 4, base + 4, |inp|)
    ensures op == op0 + |CopyElement(base - candidate, ip - base)|
    ensures dst[..op] == old(dst[..op0]) + CopyElement(base - candidate, ip - base)
  {
    var n, lessThan8 := FindMatchLength(inp, candidate + 4, base + 4, |inp|);
    var matched := 4 + n;
    ip := base + matched;
    op := EmitCopy(dst, op0, base - candidate, matched, lessThan8);
  }

  /** Step 3: emits copies as long as one match follows the other. */
  method EmitCopies(inp: seq<Byte>, hash: nat -> nat, table: array<Position>, ghost size: nat, dst: array<Byte>, op0: nat,
                    ip0: nat, candidate0: nat)
    returns (op: nat, ip: nat, more: bool, nextHash: nat)
    requires INPUT_MARGIN <= |inp| <= BLOCK_SIZE && size <= table.Length && HashesInto(hash, size)
    requires candidate0 < ip0 < Limit(inp) && Before(table[..size], ip0 + 1)
    requires op0 + |Copies(inp, hash, table[..size], ip0, candidate0).bytes| + 1 <= dst.Length
    modifies dst, table
    ensures var r := Copies(inp, hash, old(table[..size]), ip0, candidate0);
            && op == op0 + |r.bytes| && dst[..op] == old(dst[..op0]) + r.bytes
            && ip == r.ip && more == r.more && (more ==> table[..size] == r.table && nextHash == hash(Load32(inp, ip + 1)))
  {
    hide Copies, Before;
    ghost var total, before := Copies(inp, hash, table[..size], ip0, candidate0), dst[..op0];
    op, ip, more, nextHash := op0, ip0, false, 0;
    var candidate: nat, again := candidate0, true;
    while again
      invariant again ==> candidate < ip < Limit(inp) && Before(table[..size], ip + 1)
      invariant op <= dst.Length
      invariant again ==> op + |Copies(inp, hash, table[..size], ip, candidate).bytes| + 1 <= dst.Length
      invariant again ==> CopiesToCome(dst[..op], Copies(inp, hash, table[..size], ip, candidate), before, total)
      invariant !again ==> dst[..op] == before + total.bytes && ip == total.ip && more == total.more
      invariant !again && more ==> table[..size] == total.table && ip < Limit(inp) && nextHash == hash(Load32(inp, ip + 1))
      decreases again, |inp| - ip
    {
      ghost var element, written, remaining := [], dst[..op], Copies(inp, hash, table[..size], ip, candidate);
      op, ip, candidate, again, more, nextHash, element := CopyRound(inp, hash, table, size, dst, op, ip, candidate);
      CopiesAdvance(written, remaining, element, before, total);
    }
  }

  /** One round of step 3. The ghost result is the copy it emitted. */
  method CopyRound(inp: seq<Byte>, hash: nat -> nat, table: array<Position>, ghost size: nat, dst: array<Byte>, op0: nat,
                   base: nat, from: nat)
    returns (op: nat, ip: nat, candidate: nat, again: bool, more: bool, nextHash: nat, ghost element: seq<Byte>)
    requires INPUT_MARGIN <= |inp| <= BLOCK_SIZE && size <= table.Length && HashesInto(hash, size)
    requires from < base < Limit(inp) && Before(table[..size], base + 1)
    requires op0 + |Copies(inp, hash, table[..size], base, from).bytes| + 1 <= dst.Length
    modifies dst, table
    ensures op == op0 + |element| <= dst.Length && dst[..op] == old(dst[..op0]) + element && base < ip <= |inp|
    ensures again ==>
              && candidate < ip < Limit(inp) && Before(table[..size], ip + 1)
              && var next := Copies(inp, hash, table[..size], ip, candidate);
                 Copies(inp, hash, old(table[..size]), base, from) == next.(bytes := element + next.bytes)
    ensures !again ==>
              var r := Copies(inp, hash, old(table[..size]), base, from);
              && r == CopiesResult(element, ip, r.table, more)
              && (more ==> r.table == table[..size] && ip < Limit(inp) && nextHash == hash(Load32(inp, ip + 1)))
  {
    hide Copies, Before;
    CopiesStep(inp, hash, table[..size], base, from, base + 4 + MatchLength(inp, from + 4, base + 4, |inp|));
    candidate, again, more, nextHash := 0, false, false, 0;
    op, ip := EmitMatch(inp, dst, op0, base, from);
    element := CopyElement(base - from, ip - base);
    if ip < Limit(inp) {
      BeforeLater(table[..size], base + 1, ip);
      again, candidate, nextHash := MarkAndLook(inp, hash, table, size, ip);
      more := !again;
    }
  }

  /** The end of step 3: marks the two positions at the end of the match and looks whether another match follows. */
  method MarkAndLook(inp: seq<Byte>, hash: nat -> nat, table: array<Position>, ghost size: nat, ip: nat)
    returns (again: bool, candidate: nat, nextHash: nat)
    requires INPUT_MARGIN <= |inp| <= BLOCK_SIZE && size <= table.Length && HashesInto(hash, size)
    requires 1 <= ip < Limit(inp) && Before(table[..size], ip)
    modifies table
    ensures var marked: Table := old(table[..size])[hash(Load32(inp, ip - 1)) := (ip - 1) as Position];
            var h := hash(Load32(inp, ip));
            && candidate == marked[h] < ip && table[..size] == marked[h := ip]
            && (again <==> Load32(inp, ip) == Load32(inp, candidate))
    ensures nextHash == hash(Load32(inp, ip + 1))
  {
    var inputBytes := LoadWord(inp, ip - 1, 8);
    OverlappingLoads(inp, ip - 1, 0);
    OverlappingLoads(inp, ip - 1, 1);
    OverlappingLoads(inp, ip - 1, 2);
    ghost var was := table[..size];
    var prevHash := hash(GetUint32AtOffset(inputBytes, 0));
    var previous: Position := ip - 1;
    table[prevHash] := previous;
    ghost var marked := table[..size];
    assert marked == was[prevHash := previous];
    var curHash := hash(GetUint32AtOffset(inputBytes, 1));
    candidate := table[curHash];
    assert candidate == marked[curHash];
    var candidateBytes := Load32(inp, candidate);
    table[curHash] := ip;
    assert table[..size] == marked[curHash := ip];
    again := GetUint32AtOffset(inputBytes, 1) == candidateBytes;
    nextHash := hash(GetUint32AtOffset(inputBytes, 2));
  }

  /** One iteration of the main loop; more if another one follows, starting at ip with nextHash. */
  method CompressRound(inp: seq<Byte>, hash: nat -> nat, fast: bool, table: array<Position>, ghost size: nat,
                       dst: array<Byte>, op0: nat, ip0: nat, nextEmit0: nat, nextHash0: nat)
    returns (op: nat, ip: nat, nextEmit: nat, more: bool, nextHash: nat)
    requires INPUT_MARGIN <= |inp| <= BLOCK_SIZE && size <= table.Length && HashesInto(hash, size)
    requires nextEmit0 < ip0 <= Limit(inp) + 1 && Before(table[..size], ip0) && nextHash0 == hash(Load32(inp, ip0))
    requires op0 + |MainLoop(inp, hash, StepWidth(fast), table[..size], ip0, nextEmit0)| + 17 <= dst.Length
    modifies dst, table
    ensures op <= dst.Length && nextEmit <= |inp|
    ensures var all := old(dst[..op0]) + MainLoop(inp, hash, StepWidth(fast), old(table[..size]), ip0, nextEmit0);
            if more then
              && ip == nextEmit + 1 && ip0 < ip <= Limit(inp) && Before(table[..size], ip) && nextHash == hash(Load32(inp, ip))
              && dst[..op] + MainLoop(inp, hash, StepWidth(fast), table[..size], ip, nextEmit) == all
            else dst[..op] + Remainder(inp, nextEmit) == all
  {
    hide Scan, Copies, MainLoop, Remainder, Before;
    MainLoopStep(inp, hash, StepWidth(fast), table[..size], ip0, nextEmit0);
    op, nextEmit, more, nextHash := op0, nextEmit0, false, nextHash0;
    var found, at, candidate := ScanForMatch(inp, hash, fast, table, size, ip0, nextHash0);
    ip := at;
    if !found { return; }
    ghost var before, marked := dst[..op0], table[..size];
    op, ip, more, nextHash := EmitFound(inp, hash, table, size, dst, op, nextEmit, at, candidate);
    ConcatAssociates(before, LiteralElement(inp[nextEmit0..at]) + Copies(inp, hash, marked, at, candidate).bytes,
                     AfterCopies(inp, hash, StepWidth(fast), Copies(inp, hash, marked, at, candidate)));
    nextEmit := ip;
    ip := ip + 1;
  }

  lemma ConcatAssociates(a: seq<Byte>, b: seq<Byte>, c: seq<Byte>)
    ensures (a + b) + c == a + (b + c)
  {
  }

  /** Steps 2 and 3 for a match that the scan has found: the literal before it, then the copies. */
  method EmitFound(inp: seq<Byte>, hash: nat -> nat, table: array<Position>, ghost size: nat, dst: array<Byte>, op0: nat,
                   nextEmit: nat, at: nat, candidate: nat)
    returns (op: nat, ip: nat, more: bool, nextHash: nat)
    requires INPUT_MARGIN <= |inp| <= BLOCK_SIZE && size <= table.Length && HashesInto(hash, size)
    requires candidate < at < Limit(inp) && nextEmit < at && Before(table[..size], at + 1)
    requires op0 + |LiteralElement(inp[nextEmit..at])| + |Copies(inp, hash, table[..size], at, candidate).bytes| + 17 <= dst.Length
    modifies dst, table
    ensures var r := Copies(inp, hash, old(table[..size]), at, candidate);
            && op <= dst.Length && dst[..op] == old(dst[..op0]) + (LiteralElement(inp[nextEmit..at]) + r.bytes)
            && ip == r.ip && more == r.more && (more ==> table[..size] == r.table && nextHash == hash(Load32(inp, ip + 1)))
  {
    hide Copies, Before;
    ghost var before, bytes := dst[..op0], Copies(inp, hash, table[..size], at, candidate).bytes;
    op := EmitLiteral(dst, op0, inp, nextEmit, at - nextEmit, true);
    op, ip, more, nextHash := EmitCopies(inp, hash, table, size, dst, op, at, candidate);
    ConcatAssociates(before, LiteralElement(inp[nextEmit..at]), bytes);
  }

  /** CompressFragment for any hash function: fills dst from op0 on and returns the end of what it wrote. */
  method CompressWithHash(inp: seq<Byte>, hash: nat -> nat, fast: bool, table: array<Position>, ghost size: nat,
                          dst: array<Byte>, op0: nat)
    returns (op: nat)
    requires |inp| <= BLOCK_SIZE && size <= table.Length && HashesInto(hash, size)
    requires table[..size] == seq(size, _ => 0)
    requires op0 + StoreRoom(|inp|) <= dst.Length
    modifies dst, table
    ensures op == op0 + |Fragment(inp, hash, StepWidth(fast), size)| <= dst.Length
    ensures dst[..op] == old(dst[..op0]) + Fragment(inp, hash, StepWidth(fast), size)
  {
    hide MainLoop, Remainder;
    FragmentSize(inp, hash, StepWidth(fast), size);
    ghost var all := dst[..op0] + Fragment(inp, hash, StepWidth(fast), size);
    op := op0;
    var nextEmit: nat := 0;
    if |inp| >= INPUT_MARGIN {
      var ip: nat, nextHash, more := 1, hash(Load32(inp, 1)), true;
      while more
        invariant op <= dst.Length && nextEmit <= |inp|
        invariant more ==> nextEmit < ip <= Limit(inp) + 1 && Before(table[..size], ip) && nextHash == hash(Load32(inp, ip))
        invariant more ==> dst[..op] + MainLoop(inp, hash, StepWidth(fast), table[..size], ip, nextEmit) == all
        invariant !more ==> dst[..op] + Remainder(inp, nextEmit) == all
        decreases more, |inp| - ip
      {
        op, ip, nextEmit, more, nextHash := CompressRound(inp, hash, fast, table, size, dst, op, ip, nextEmit, nextHash);
      }
    }
    op := EmitRemainder(inp, dst, op, nextEmit);
  }

  /** Emits the remaining bytes as a literal. */
  method EmitRemainder(inp: seq<Byte>, dst: array<Byte>, op0: nat, nextEmit: nat) returns (op: nat)
    requires nextEmit <= |inp| <= BLOCK_SIZE && op0 + |Remainder(inp, nextEmit)| <= dst.Length
    modifies dst
    ensures op == op0 + |Remainder(inp, nextEmit)| && dst[..op] == old(dst[..op0]) + Remainder(inp, nextEmit)
  {
    op := op0;
    if nextEmit < |inp| {
      assert inp[nextEmit..|inp|] == inp[nextEmit..];
      op := EmitLiteral(dst, op, inp, nextEmit, |inp| - nextEmit, false);
    }
  }

  /** The size of a buffer that is always large enough for n bytes of input. */
  function MaxCompressedLength(n: nat): nat
  {
    32 + n + n / 6
  }

  /** A sixth more and 32 bytes. */
  lemma MaximumInNumbers(n: nat)
    ensures 6 * (MaxCompressedLength(n) - 32) <= 7 * n < 6 * (MaxCompressedLength(n) - 31)
  {
  }

  /** Room for every store that compressing n bytes makes, the over-wide ones included. */
  function StoreRoom(n: nat): nat
  {
    n + n / 60 + 18
  }

  /** A block compressed with the hash function of a table of Pow2(bits) entries. */
  function CompressedBlock(inp: seq<Byte>, bits: nat, fast: bool): (bytes: seq<Byte>)
    requires |inp| <= BLOCK_SIZE && bits <= 32
  {
    HashesIntoTable(bits);
    Fragment(inp, HashWithBits(bits), StepWidth(fast), Pow2(bits))
  }

  /** CompressFragment: derives the hash function from the table size, which is a power of two. The ghost result says whether
      it was given the room its documentation asks for; the room it needs is less. */
  method CompressFragment(inp: seq<Byte>, dst: array<Byte>, op0: nat, table: array<Position>, tableSize: nat, ghost bits: nat, fast: bool)
    returns (op: nat, ghost roomy: bool)
    requires |inp| <= BLOCK_SIZE && bits < 32 && tableSize == Pow2(bits) <= table.Length
    requires table[..tableSize] == seq(tableSize, _ => 0)
    requires op0 + StoreRoom(|inp|) <= dst.Length
    modifies dst, table
    ensures op == op0 + |CompressedBlock(inp, bits, fast)| <= dst.Length
    ensures dst[..op] == old(dst[..op0]) + CompressedBlock(inp, bits, fast)
    ensures roomy <==> op0 + MaxCompressedLength(|inp|) <= dst.Length
  {
    roomy := op0 + MaxCompressedLength(|inp|) <= dst.Length;
    Pow2Values();
    PowersGrow(bits, 32);
    var log := Log2Floor(tableSize);
    LogIsExact(bits, log);
    HashesIntoTable(log);
    op := CompressWithHash(inp, HashWithBits(log), fast, table, tableSize, dst, op0);
  }
}
