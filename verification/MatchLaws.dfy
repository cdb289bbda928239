/** What the matcher finds, said without its table: the candidate for a position is the last position marked so far whose
    four bytes have the same hash. */
module MatchLaws {
  import opened Bytes
  import opened Matching
  import opened Elements
  import opened Matcher

  /** The four bytes at p as a number. */
  function Word(inp: seq<Byte>, p: nat): nat
  {
    if p + 4 <= |inp| then Load32(inp, p) else 0
  }

  /** The last of the marked positions with hash h, and 0 if there is none. */
  function Latest(inp: seq<Byte>, hash: nat -> nat, marks: seq<nat>, h: nat): nat
  {
    if marks == [] then 0
    else if hash(Word(inp, marks[|marks| - 1])) == h then marks[|marks| - 1]
    else Latest(inp, hash, marks[..|marks| - 1], h)
  }

  /** Position i of the marks is the last one with hash h; -1 if there is none. */
  ghost predicate IsLast(inp: seq<Byte>, hash: nat -> nat, marks: seq<nat>, h: nat, i: int)
  {
    && -1 <= i < |marks|
    && (i >= 0 ==> hash(Word(inp, marks[i])) == h)
    && forall j :: i < j < |marks| ==> hash(Word(inp, marks[j])) != h
  }

  lemma {:induction false} LatestIsLast(inp: seq<Byte>, hash: nat -> nat, marks: seq<nat>, h: nat, i: int)
    requires IsLast(inp, hash, marks, h, i)
    ensures Latest(inp, hash, marks, h) == if i < 0 then 0 else marks[i]
  {
    if i + 1 < |marks| {
      var init := marks[..|marks| - 1];
      assert forall j :: 0 <= j < |init| ==> init[j] == marks[j];
      LatestIsLast(inp, hash, init, h, i);
    }
  }

  /** The candidate for position p. */
  function Candidate(inp: seq<Byte>, hash: nat -> nat, marks: seq<nat>, p: nat): nat
  {
    Latest(inp, hash, marks, hash(Word(inp, p)))
  }

  /** The four bytes at p are those at its candidate. */
  predicate Repeats(inp: seq<Byte>, hash: nat -> nat, marks: seq<nat>, p: nat)
  {
    Word(inp, p) == Word(inp, Candidate(inp, hash, marks, p))
  }

  /** The table holds the last marked position for every hash. */
  ghost predicate Remembers(table: Table, inp: seq<Byte>, hash: nat -> nat, marks: seq<nat>)
  {
    forall h :: 0 <= h < |table| ==> table[h] == Latest(inp, hash, marks, h)
  }

  lemma MarkRemembered(table: Table, inp: seq<Byte>, hash: nat -> nat, marks: seq<nat>, p: Position)
    requires Remembers(table, inp, hash, marks) && HashesInto(hash, |table|)
    ensures Remembers(table[hash(Word(inp, p)) := p], inp, hash, marks + [p])
  {
    assert (marks + [p])[..|marks|] == marks;
  }

  /** The position that is looked at after k steps of a scan, and all positions before it. */
  function ProbeAt(step: Schedule, ip: nat, skip: nat, k: nat): nat
    decreases k
  {
    if k == 0 then ip else ProbeAt(step, ip + step(ip, skip), skip + step(ip, skip), k - 1)
  }

  function Probes(step: Schedule, ip: nat, skip: nat, k: nat): (ps: seq<nat>)
    ensures |ps| == k
    decreases k
  {
    if k == 0 then [] else [ip] + Probes(step, ip + step(ip, skip), skip + step(ip, skip), k - 1)
  }

  /** None of the first k positions looked at repeats its candidate, and none of them is the end of the scan. */
  ghost predicate Misses(inp: seq<Byte>, hash: nat -> nat, step: Schedule, marks: seq<nat>, ip: nat, skip: nat, k: nat)
  {
    forall j :: 0 <= j < k ==> MissesAt(inp, hash, step, marks, ip, skip, j)
  }

  ghost predicate MissesAt(inp: seq<Byte>, hash: nat -> nat, step: Schedule, marks: seq<nat>, ip: nat, skip: nat, j: nat)
  {
    && !Repeats(inp, hash, marks + Probes(step, ip, skip, j), ProbeAt(step, ip, skip, j))
    && ProbeAt(step, ip, skip, j + 1) + 15 <= |inp|
  }

  lemma MissesFromNext(inp: seq<Byte>, hash: nat -> nat, step: Schedule, marks: seq<nat>, ip: nat, skip: nat, k: nat)
    requires !Repeats(inp, hash, marks, ip) && ip + step(ip, skip) + 15 <= |inp|
    requires Misses(inp, hash, step, marks + [ip], ip + step(ip, skip), skip + step(ip, skip), k)
    ensures Misses(inp, hash, step, marks, ip, skip, k + 1)
  {
    forall j | 0 <= j < k + 1
      ensures MissesAt(inp, hash, step, marks, ip, skip, j)
    {
      if j == 0 {
        assert marks + Probes(step, ip, skip, 0) == marks;
        assert ProbeAt(step, ip, skip, 1) == ProbeAt(step, ip + step(ip, skip), skip + step(ip, skip), 0);
      } else {
        var next, nextSkip := ip + step(ip, skip), skip + step(ip, skip);
        assert MissesAt(inp, hash, step, marks + [ip], next, nextSkip, j - 1);
        assert marks + Probes(step, ip, skip, j) == (marks + [ip]) + Probes(step, next, nextSkip, j - 1);
      }
    }
  }

  /** A scan stops at the first position looked at whose four bytes are those at its candidate, and gives up when the
      next position lies beyond the limit. */
  lemma {:induction false} ScanStopsAtFirstRepeat(inp: seq<Byte>, hash: nat -> nat, step: Schedule, table: Table, ip: nat, skip: nat, marks: seq<nat>)
    returns (k: nat)
    requires INPUT_MARGIN <= |inp| <= BLOCK_SIZE && HashesInto(hash, |table|) && Advances(step)
    requires 1 <= ip <= Limit(inp) + 1 && Before(table, ip) && skip >= 32
    requires Remembers(table, inp, hash, marks)
    ensures Misses(inp, hash, step, marks, ip, skip, k)
    ensures match Scan(inp, hash, step, table, ip, skip)
            case Exhausted => ProbeAt(step, ip, skip, k + 1) > |inp| - 15
            case Found(at, candidate, marked) =>
              var seen := marks + Probes(step, ip, skip, k);
              && at == ProbeAt(step, ip, skip, k) && ProbeAt(step, ip, skip, k + 1) <= |inp| - 15
              && candidate == Candidate(inp, hash, seen, at) && Repeats(inp, hash, seen, at)
              && Remembers(marked, inp, hash, seen + [at])
    decreases |inp| - ip
  {
    hide Scan, Latest;
    var width := step(ip, skip);
    var next, nextSkip := ip + width, skip + width;
    assert ProbeAt(step, ip, skip, 1) == ProbeAt(step, next, nextSkip, 0) == next;
    ScanStep(inp, hash, step, table, ip, skip, width);
    k := 0;
    if next <= Limit(inp) {
      var h := hash(Load32(inp, ip));
      MarkRemembered(table, inp, hash, marks, ip);
      assert marks + Probes(step, ip, skip, 0) == marks;
      if Load32(inp, ip) != Load32(inp, table[h]) {
        var rest := ScanStopsAtFirstRepeat(inp, hash, step, table[h := ip], next, nextSkip, marks + [ip]);
        k := rest + 1;
        MissesFromNext(inp, hash, step, marks, ip, skip, rest);
        assert marks + Probes(step, ip, skip, k) == (marks + [ip]) + Probes(step, next, nextSkip, rest);
      }
    }
  }

  /** A match: len bytes at position at are those at position from. */
  datatype Match = Match(at: nat, from: nat, len: nat)

  function End(m: Match): nat
  {
    m.at + m.len
  }

  /** Matches that follow each other without a gap, each as long as possible, each found at the last marked position with
      the same hash; before the end of a match is looked up, the position in front of it is marked. The chain ends where
      nothing repeats or the limit is reached. */
  ghost predicate Chain(inp: seq<Byte>, hash: nat -> nat, marks: seq<nat>, ms: seq<Match>)
    decreases |ms|
  {
    && ms != [] && ms[0].from < ms[0].at <= |inp|
    && ms[0].len == MatchLength(inp, ms[0].from, ms[0].at, |inp|) >= 4
    && var e := End(ms[0]);
       if |ms| == 1 then e + 15 >= |inp| || !Repeats(inp, hash, marks + [e - 1], e)
       else
         && e + 15 < |inp| && Repeats(inp, hash, marks + [e - 1], e)
         && ms[1].at == e && ms[1].from == Candidate(inp, hash, marks + [e - 1], e)
         && Chain(inp, hash, marks + [e - 1, e], ms[1..])
  }

  /** The positions that are marked while a chain is followed, as far as more is to come. */
  function ChainMarks(ms: seq<Match>): seq<nat>
    requires forall i :: 0 <= i < |ms| ==> End(ms[i]) >= 1
  {
    if ms == [] then [] else [End(ms[0]) - 1, End(ms[0])] + ChainMarks(ms[1..])
  }

  /** A chain written as copies. */
  function ChainBytes(ms: seq<Match>): seq<Byte>
    requires forall i :: 0 <= i < |ms| ==> ms[i].from < ms[i].at && ms[i].at - ms[i].from < 65536 && ms[i].len >= 4
  {
    if ms == [] then [] else CopyElement(ms[0].at - ms[0].from, ms[0].len) + ChainBytes(ms[1..])
  }

  lemma {:induction false} ChainBounds(inp: seq<Byte>, hash: nat -> nat, marks: seq<nat>, ms: seq<Match>)
    requires Chain(inp, hash, marks, ms) && |inp| <= BLOCK_SIZE
    ensures ms != []
    ensures forall i :: 0 <= i < |ms| ==>
              ms[i].from < ms[i].at && ms[i].at - ms[i].from < 65536 && ms[i].len >= 4 && End(ms[i]) <= |inp|
    decreases |ms|
  {
    if |ms| > 1 {
      ChainBounds(inp, hash, marks + [End(ms[0]) - 1, End(ms[0])], ms[1..]);
      assert forall i :: 1 <= i < |ms| ==> ms[i] == ms[1..][i - 1];
    }
  }

  /** Step 3 follows a chain. */
  lemma {:induction false} CopiesFollowChain(inp: seq<Byte>, hash: nat -> nat, table: Table, ip: nat, candidate: nat, marks: seq<nat>)
    returns (ms: seq<Match>)
    requires INPUT_MARGIN <= |inp| <= BLOCK_SIZE && HashesInto(hash, |table|)
    requires candidate < ip < Limit(inp) && Before(table, ip + 1)
    requires Load32(inp, ip) == Load32(inp, candidate) && Remembers(table, inp, hash, marks)
    ensures Chain(inp, hash, marks, ms) && ms[0].at == ip && ms[0].from == candidate
    ensures forall i :: 0 <= i < |ms| ==>
              ms[i].from < ms[i].at && ms[i].at - ms[i].from < 65536 && ms[i].len >= 4 && End(ms[i]) <= |inp|
    ensures var r := Copies(inp, hash, table, ip, candidate);
            && r.bytes == ChainBytes(ms) && r.ip == End(ms[|ms| - 1]) && (r.more <==> r.ip + 15 < |inp|)
            && (r.more ==> Remembers(r.table, inp, hash, marks + ChainMarks(ms)))
    decreases |inp| - ip
  {
    hide Copies, CopyElement, MatchLength, Latest, HashesInto, Chain, ChainBytes, ChainMarks, Remembers;
    var e := FirstMatch(inp, candidate, ip);
    var m := Match(ip, candidate, e - ip);
    CopiesStep(inp, hash, table, ip, candidate, e);
    ms := [m];
    SingleChain(m);
    if e >= Limit(inp) || !Repeats(inp, hash, marks + [e - 1], e) {
      ChainEnds(inp, hash, marks, m);
    }
    if e < Limit(inp) {
      var marked2 := MarkEnd(inp, hash, table, marks, e);
      var next := Candidate(inp, hash, marks + [e - 1], e);
      if Repeats(inp, hash, marks + [e - 1], e) {
        var rest := CopiesFollowChain(inp, hash, marked2, e, next, marks + [e - 1, e]);
        ms := [m] + rest;
        ChainGoesOn(inp, hash, marks, m, rest);
        LongerChain(marks, m, rest);
      }
    }
  }

  lemma ChainEnds(inp: seq<Byte>, hash: nat -> nat, marks: seq<nat>, m: Match)
    requires m.from < m.at <= |inp| && m.len == MatchLength(inp, m.from, m.at, |inp|) >= 4
    requires End(m) + 15 >= |inp| || !Repeats(inp, hash, marks + [End(m) - 1], End(m))
    ensures Chain(inp, hash, marks, [m])
  {
  }

  lemma ChainGoesOn(inp: seq<Byte>, hash: nat -> nat, marks: seq<nat>, m: Match, rest: seq<Match>)
    requires m.from < m.at <= |inp| && m.len == MatchLength(inp, m.from, m.at, |inp|) >= 4
    requires End(m) + 15 < |inp| && Repeats(inp, hash, marks + [End(m) - 1], End(m))
    requires Chain(inp, hash, marks + [End(m) - 1, End(m)], rest)
    requires rest[0].at == End(m) && rest[0].from == Candidate(inp, hash, marks + [End(m) - 1], End(m))
    ensures Chain(inp, hash, marks, [m] + rest)
  {
    assert ([m] + rest)[1..] == rest;
  }

  /** The first match of step 3 and where it ends. */
  lemma FirstMatch(inp: seq<Byte>, candidate: nat, ip: nat) returns (e: nat)
    requires candidate < ip && ip + 4 <= |inp| && Load32(inp, ip) == Load32(inp, candidate)
    ensures e == ip + 4 + MatchLength(inp, candidate + 4, ip + 4, |inp|)
    ensures MatchLength(inp, candidate, ip, |inp|) == e - ip >= 4 && e <= |inp|
  {
    SameLoadSameBytes(inp, ip, candidate);
    MatchSkips(inp, candidate, ip, |inp|, 4);
    e := ip + 4 + MatchLength(inp, candidate + 4, ip + 4, |inp|);
  }

  /** The two positions at the end of a match are marked, the candidate is read in between. */
  lemma MarkEnd(inp: seq<Byte>, hash: nat -> nat, table: Table, marks: seq<nat>, e: nat) returns (marked2: Table)
    requires INPUT_MARGIN <= |inp| <= BLOCK_SIZE && HashesInto(hash, |table|)
    requires 1 <= e < Limit(inp) && Remembers(table, inp, hash, marks)
    ensures var marked := table[hash(Load32(inp, e - 1)) := e - 1];
            marked[hash(Load32(inp, e))] == Candidate(inp, hash, marks + [e - 1], e) && marked2 == marked[hash(Load32(inp, e)) := e]
    ensures Remembers(marked2, inp, hash, marks + [e - 1, e])
  {
    hide Latest;
    MarkRemembered(table, inp, hash, marks, e - 1);
    var marked := table[hash(Load32(inp, e - 1)) := e - 1];
    MarkRemembered(marked, inp, hash, marks + [e - 1], e);
    marked2 := marked[hash(Load32(inp, e)) := e];
    assert (marks + [e - 1]) + [e] == marks + [e - 1, e];
  }

  lemma SingleChain(m: Match)
    requires m.from < m.at && m.at - m.from < 65536 && m.len >= 4
    ensures ChainBytes([m]) == CopyElement(m.at - m.from, m.len) && ChainMarks([m]) == [End(m) - 1, End(m)]
  {
    assert [m][1..] == [];
  }

  lemma LongerChain(marks: seq<nat>, m: Match, rest: seq<Match>)
    requires m.from < m.at && m.at - m.from < 65536 && m.len >= 4
    requires forall i :: 0 <= i < |rest| ==> rest[i].from < rest[i].at && rest[i].at - rest[i].from < 65536 && rest[i].len >= 4
    ensures var ms := [m] + rest;
            && (forall i :: 0 <= i < |ms| ==> ms[i].from < ms[i].at && ms[i].at - ms[i].from < 65536 && ms[i].len >= 4)
            && ChainBytes(ms) == CopyElement(m.at - m.from, m.len) + ChainBytes(rest)
            && marks + ChainMarks(ms) == (marks + [End(m) - 1, End(m)]) + ChainMarks(rest)
  {
    assert ([m] + rest)[1..] == rest;
  }

  /** One turn of the main loop: how many positions the scan looks at in vain, and the chain that follows. */
  datatype Turn = Turn(misses: nat, chain: seq<Match>)

  /** What the main loop does from position ip on when everything from nextEmit on is still to be emitted. */
  ghost predicate Turns(inp: seq<Byte>, hash: nat -> nat, step: Schedule, marks: seq<nat>, ip: nat, nextEmit: nat,
                        turns: seq<Turn>, bytes: seq<Byte>)
    requires |inp| <= BLOCK_SIZE
    decreases |turns|
  {
    if turns == [] then
      && nextEmit <= |inp| && bytes == Remainder(inp, nextEmit)
      && exists k: nat :: Misses(inp, hash, step, marks, ip, 32, k) && ProbeAt(step, ip, 32, k + 1) + 15 > |inp|
    else
      var k, chain := turns[0].misses, turns[0].chain;
      var at, seen := ProbeAt(step, ip, 32, k), marks + Probes(step, ip, 32, k);
      && Misses(inp, hash, step, marks, ip, 32, k) && ProbeAt(step, ip, 32, k + 1) + 15 <= |inp|
      && Repeats(inp, hash, seen, at) && nextEmit < at <= |inp|
      && Chain(inp, hash, seen + [at], chain) && chain[0].at == at && chain[0].from == Candidate(inp, hash, seen, at)
      && (ChainBounds(inp, hash, seen + [at], chain);
          var e := End(chain[|chain| - 1]);
          var emitted := LiteralElement(inp[nextEmit..at]) + ChainBytes(chain);
          && emitted <= bytes
          && if e + 15 >= |inp| then |turns| == 1 && bytes[|emitted|..] == Remainder(inp, e)
             else Turns(inp, hash, step, seen + [at] + ChainMarks(chain), e + 1, e, turns[1..], bytes[|emitted|..]))
  }

  /** The main loop is made of such turns. */
  lemma {:induction false} MainLoopTakesTurns(inp: seq<Byte>, hash: nat -> nat, step: Schedule, table: Table, ip: nat, nextEmit: nat, marks: seq<nat>)
    returns (turns: seq<Turn>)
    requires INPUT_MARGIN <= |inp| <= BLOCK_SIZE && HashesInto(hash, |table|) && Advances(step)
    requires nextEmit < ip <= Limit(inp) + 1 && Before(table, ip) && Remembers(table, inp, hash, marks)
    ensures Turns(inp, hash, step, marks, ip, nextEmit, turns, MainLoop(inp, hash, step, table, ip, nextEmit))
    decreases |inp| - ip
  {
    hide Scan, Copies, Chain, Misses, LiteralElement, ChainBytes, Before, HashesInto, Remembers, Latest, Turns, Remainder, Repeats;
    var k := ScanStopsAtFirstRepeat(inp, hash, step, table, ip, 32, marks);
    MainLoopStep(inp, hash, step, table, ip, nextEmit);
    match Scan(inp, hash, step, table, ip, 32)
    case Exhausted =>
      turns := [];
      NoTurn(inp, hash, step, marks, ip, nextEmit, k);
    case Found(at, candidate, marked) =>
      var seen := marks + Probes(step, ip, 32, k);
      var chain := CopiesFollowChain(inp, hash, marked, at, candidate, seen + [at]);
      var copies := Copies(inp, hash, marked, at, candidate);
      var rest, others := AfterCopies(inp, hash, step, copies), [];
      if copies.more {
        others := MainLoopTakesTurns(inp, hash, step, copies.table, copies.ip + 1, copies.ip, seen + [at] + ChainMarks(chain));
      }
      turns := [Turn(k, chain)] + others;
      OneTurn(inp, hash, step, marks, ip, nextEmit, Turn(k, chain), others, rest);
  }

  lemma NoTurn(inp: seq<Byte>, hash: nat -> nat, step: Schedule, marks: seq<nat>, ip: nat, nextEmit: nat, k: nat)
    requires nextEmit <= |inp| <= BLOCK_SIZE
    requires Misses(inp, hash, step, marks, ip, 32, k) && ProbeAt(step, ip, 32, k + 1) + 15 > |inp|
    ensures Turns(inp, hash, step, marks, ip, nextEmit, [], Remainder(inp, nextEmit))
  {
    hide Misses;
  }

  lemma OneTurn(inp: seq<Byte>, hash: nat -> nat, step: Schedule, marks: seq<nat>, ip: nat, nextEmit: nat,
                turn: Turn, others: seq<Turn>, rest: seq<Byte>)
    requires |inp| <= BLOCK_SIZE
    requires var at, seen := ProbeAt(step, ip, 32, turn.misses), marks + Probes(step, ip, 32, turn.misses);
             && Misses(inp, hash, step, marks, ip, 32, turn.misses) && ProbeAt(step, ip, 32, turn.misses + 1) + 15 <= |inp|
             && Repeats(inp, hash, seen, at) && nextEmit < at <= |inp| && Chain(inp, hash, seen + [at], turn.chain)
             && turn.chain[0].at == at && turn.chain[0].from == Candidate(inp, hash, seen, at)
             && (forall i :: 0 <= i < |turn.chain| ==> var m := turn.chain[i];
                   m.from < m.at && m.at - m.from < 65536 && m.len >= 4 && End(m) <= |inp|)
             && var e := End(turn.chain[|turn.chain| - 1]);
                if e + 15 >= |inp| then others == [] && rest == Remainder(inp, e)
                else Turns(inp, hash, step, seen + [at] + ChainMarks(turn.chain), e + 1, e, others, rest)
    ensures var at := ProbeAt(step, ip, 32, turn.misses);
            Turns(inp, hash, step, marks, ip, nextEmit, [turn] + others,
                  LiteralElement(inp[nextEmit..at]) + ChainBytes(turn.chain) + rest)
  {
    hide Chain, Misses, LiteralElement, ChainBytes, Remainder, Repeats, Latest, Probes, ProbeAt, ChainMarks;
    var at := ProbeAt(step, ip, 32, turn.misses);
    var emitted := LiteralElement(inp[nextEmit..at]) + ChainBytes(turn.chain);
    assert (emitted + rest)[|emitted|..] == rest && ([turn] + others)[1..] == others;
  }

  /** The compressed form of a block: turns from the second position on with nothing marked, or one literal. Besides the
      input, the hash function and the schedule nothing has an influence on it. */
  lemma FragmentTakesTurns(inp: seq<Byte>, hash: nat -> nat, step: Schedule, tableSize: nat) returns (turns: seq<Turn>)
    requires |inp| <= BLOCK_SIZE && HashesInto(hash, tableSize) && Advances(step)
    ensures |inp| >= 15 ==> Turns(inp, hash, step, [], 1, 0, turns, Fragment(inp, hash, step, tableSize))
    ensures |inp| < 15 ==> Fragment(inp, hash, step, tableSize) == Remainder(inp, 0)
  {
    turns := [];
    if |inp| >= 15 {
      turns := MainLoopTakesTurns(inp, hash, step, seq(tableSize, _ => 0), 1, 0, []);
    }
  }

  /** Given where it starts, there is only one chain. */
  lemma {:induction false} OneChain(inp: seq<Byte>, hash: nat -> nat, marks: seq<nat>, a: seq<Match>, b: seq<Match>)
    requires Chain(inp, hash, marks, a) && Chain(inp, hash, marks, b) && a[0].at == b[0].at && a[0].from == b[0].from
    ensures a == b
    decreases |a|
  {
    hide MatchLength, Repeats, Latest;
    assert a[0] == b[0];
    var e := End(a[0]);
    if |a| > 1 {
      assert |b| > 1;
      OneChain(inp, hash, marks + [e - 1, e], a[1..], b[1..]);
      assert a == [a[0]] + a[1..] && b == [b[0]] + b[1..];
    } else {
      assert a == [a[0]] && b == [b[0]];
    }
  }

  /** A scan can stop in one place only. */
  lemma OneStop(inp: seq<Byte>, hash: nat -> nat, step: Schedule, marks: seq<nat>, ip: nat, j: nat, k: nat)
    requires Misses(inp, hash, step, marks, ip, 32, j) && Misses(inp, hash, step, marks, ip, 32, k)
    requires ProbeAt(step, ip, 32, j + 1) + 15 > |inp|
             || Repeats(inp, hash, marks + Probes(step, ip, 32, j), ProbeAt(step, ip, 32, j))
    requires ProbeAt(step, ip, 32, k + 1) + 15 > |inp|
             || Repeats(inp, hash, marks + Probes(step, ip, 32, k), ProbeAt(step, ip, 32, k))
    ensures j == k
  {
    hide Repeats, ProbeAt, Probes;
    var least := if j < k then j else k;
    assert j != k ==> MissesAt(inp, hash, step, marks, ip, 32, least);
  }

  /** What is emitted is determined. */
  lemma {:induction false} OneResult(inp: seq<Byte>, hash: nat -> nat, step: Schedule, marks: seq<nat>, ip: nat, nextEmit: nat,
                                     a: seq<Turn>, b: seq<Turn>, x: seq<Byte>, y: seq<Byte>)
    requires |inp| <= BLOCK_SIZE
    requires Turns(inp, hash, step, marks, ip, nextEmit, a, x) && Turns(inp, hash, step, marks, ip, nextEmit, b, y)
    ensures x == y
    decreases |a|
  {
    hide Misses, Repeats, Chain, ChainBytes, LiteralElement, Remainder, Latest, Probes, ProbeAt;
    var j := StopOf(inp, hash, step, marks, ip, nextEmit, a, x);
    var k := StopOf(inp, hash, step, marks, ip, nextEmit, b, y);
    OneStop(inp, hash, step, marks, ip, j, k);
    if a != [] {
      assert b != [];
      var at, seen := ProbeAt(step, ip, 32, k), marks + Probes(step, ip, 32, k);
      OneChain(inp, hash, seen + [at], a[0].chain, b[0].chain);
      ChainBounds(inp, hash, seen + [at], a[0].chain);
      var e := End(a[0].chain[|a[0].chain| - 1]);
      var emitted := LiteralElement(inp[nextEmit..at]) + ChainBytes(a[0].chain);
      if e + 15 < |inp| {
        OneResult(inp, hash, step, seen + [at] + ChainMarks(a[0].chain), e + 1, e, a[1..], b[1..], x[|emitted|..], y[|emitted|..]);
      }
      assert x == emitted + x[|emitted|..] && y == emitted + y[|emitted|..];
    }
  }

  /** Where the scan of the first turn stops. */
  lemma StopOf(inp: seq<Byte>, hash: nat -> nat, step: Schedule, marks: seq<nat>, ip: nat, nextEmit: nat, turns: seq<Turn>, bytes: seq<Byte>)
    returns (k: nat)
    requires |inp| <= BLOCK_SIZE && Turns(inp, hash, step, marks, ip, nextEmit, turns, bytes)
    ensures Misses(inp, hash, step, marks, ip, 32, k)
    ensures turns == [] ==> ProbeAt(step, ip, 32, k + 1) + 15 > |inp|
    ensures turns != [] ==> k == turns[0].misses && ProbeAt(step, ip, 32, k + 1) + 15 <= |inp|
                            && Repeats(inp, hash, marks + Probes(step, ip, 32, k), ProbeAt(step, ip, 32, k))
  {
    hide Misses, Repeats, Chain, ChainBytes, LiteralElement, Remainder, Latest, Probes, ProbeAt;
    if turns == [] {
      k :| Misses(inp, hash, step, marks, ip, 32, k) && ProbeAt(step, ip, 32, k + 1) + 15 > |inp|;
    } else {
      k := turns[0].misses;
    }
  }

  /** The turns say all there is to say: they allow one result only, the compressed form of the block. */
  lemma TurnsGiveFragment(inp: seq<Byte>, hash: nat -> nat, step: Schedule, tableSize: nat, turns: seq<Turn>, bytes: seq<Byte>)
    requires 15 <= |inp| <= BLOCK_SIZE && HashesInto(hash, tableSize) && Advances(step)
    requires Turns(inp, hash, step, [], 1, 0, turns, bytes)
    ensures bytes == Fragment(inp, hash, step, tableSize)
  {
    hide Turns, Fragment;
    var others := FragmentTakesTurns(inp, hash, step, tableSize);
    OneResult(inp, hash, step, [], 1, 0, turns, others, bytes, Fragment(inp, hash, step, tableSize));
  }

  /** As long as the schedule takes single steps, every position is looked at. */
  lemma {:induction false} SingleSteps(step: Schedule, ip: nat, skip: nat, k: nat)
    requires forall p: nat, s: nat :: ip <= p < ip + k && s - skip == p - ip ==> step(p, s) == 1
    ensures ProbeAt(step, ip, skip, k) == ip + k && Probes(step, ip, skip, k) == seq(k, i requires 0 <= i => ip + i)
    decreases k
  {
    if k > 0 {
      assert step(ip, skip) == 1;
      SingleSteps(step, ip + 1, skip + 1, k - 1);
    }
  }

  /** Without fast every position is looked at; with fast the step is the number of whole 32s in the skip counter, so the
      first 32 positions are looked at and then every second one. */
  lemma StepsOfTheCode(ip: nat, skip: nat, k: nat)
    ensures StepWidth(false)(ip, skip) == 1
    ensures 32 * StepWidth(true)(ip, skip) <= skip < 32 * StepWidth(true)(ip, skip) + 32
    ensures ProbeAt(StepWidth(false), ip, 32, k) == ip + k
    ensures k <= 32 ==> ProbeAt(StepWidth(true), ip, 32, k) == ip + k
  {
    SingleSteps(StepWidth(false), ip, 32, k);
    if k <= 32 {
      SingleSteps(StepWidth(true), ip, 32, k);
    }
  }
}
