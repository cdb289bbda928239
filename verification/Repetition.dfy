/** Repeated input is found to be repeated. */
module Repetition {
  import opened Bytes
  import opened Bits
  import opened Matching
  import opened Elements
  import opened Matcher
  import opened MatchLaws
  import opened HashTable
  import opened HashLaws
  import opened BlockCompressor
  import opened Compress
  import Encodings
  import Varint

  /** The input repeats itself every p bytes. */
  predicate Periodic(inp: seq<Byte>, p: nat)
  {
    forall i :: p <= i < |inp| ==> inp[i] == inp[i - p]
  }

  /** The words at the first p positions have different hashes. */
  ghost predicate Told(inp: seq<Byte>, hash: nat -> nat, p: nat)
  {
    forall i, j :: 0 <= i < j < p ==> hash(Word(inp, i)) != hash(Word(inp, j))
  }

  lemma PeriodMatches(inp: seq<Byte>, p: nat)
    requires 1 <= p <= |inp| && Periodic(inp, p)
    ensures MatchLength(inp, 0, p, |inp|) == |inp| - p
  {
    var n := |inp| - p;
    forall i | 0 <= i < n
      ensures inp[..n][i] == inp[p..p + n][i]
    {
      assert inp[i + p] == inp[i + p - p];
    }
    assert inp[0..0 + n] == inp[..n];
    MatchLengthIsLargest(inp, 0, p, |inp|, n);
  }

  lemma SameWord(inp: seq<Byte>, p: nat)
    requires 1 <= p && p + 4 <= |inp| && Periodic(inp, p)
    ensures Word(inp, p) == Word(inp, 0)
  {
    assert inp[p] == inp[p - p] && inp[p + 1] == inp[p + 1 - p] && inp[p + 2] == inp[p + 2 - p] && inp[p + 3] == inp[p + 3 - p];
  }

  /** The scan looks at the positions of the first period in vain and finds the second one. */
  lemma FirstPeriodMisses(inp: seq<Byte>, hash: nat -> nat, step: Schedule, p: nat)
    requires 1 <= p && p + 16 <= |inp| && Periodic(inp, p) && Told(inp, hash, p)
    requires forall q: nat, s: nat :: 1 <= q <= p && s - 32 == q - 1 ==> step(q, s) == 1
    ensures Misses(inp, hash, step, [], 1, 32, p - 1)
    ensures ProbeAt(step, 1, 32, p - 1) == p && ProbeAt(step, 1, 32, p) == p + 1
    ensures Candidate(inp, hash, [] + Probes(step, 1, 32, p - 1), p) == 0
  {
    hide Latest, Probes, ProbeAt, Word;
    forall j | 0 <= j < p - 1
      ensures MissesAt(inp, hash, step, [], 1, 32, j)
    {
      SingleSteps(step, 1, 32, j);
      SingleSteps(step, 1, 32, j + 1);
      LatestIsLast(inp, hash, [] + Probes(step, 1, 32, j), hash(Word(inp, 1 + j)), -1);
      assert hash(Word(inp, 0)) != hash(Word(inp, 1 + j));
    }
    SingleSteps(step, 1, 32, p - 1);
    SingleSteps(step, 1, 32, p);
    SameWord(inp, p);
    LatestIsLast(inp, hash, [] + Probes(step, 1, 32, p - 1), hash(Word(inp, p)), -1);
  }

  /** An input of period p whose first p words have different hashes becomes one literal with the first period and one copy
      of all the rest, as long as every position is looked at. */
  lemma PeriodIsFound(inp: seq<Byte>, hash: nat -> nat, step: Schedule, tableSize: nat, p: nat)
    requires |inp| <= BLOCK_SIZE && HashesInto(hash, tableSize) && Advances(step)
    requires 1 <= p && p + 16 <= |inp| && Periodic(inp, p) && Told(inp, hash, p)
    requires forall q: nat, s: nat :: 1 <= q <= p && s - 32 == q - 1 ==> step(q, s) == 1
    ensures Fragment(inp, hash, step, tableSize) == LiteralElement(inp[..p]) + CopyElement(p, |inp| - p)
  {
    hide MatchLength, LiteralElement, CopyElement, Fragment, Probes, Latest;
    FirstPeriodMisses(inp, hash, step, p);
    PeriodMatches(inp, p);
    SameWord(inp, p);
    var m := Match(p, 0, |inp| - p);
    var bytes := LiteralElement(inp[..p]) + CopyElement(p, |inp| - p);
    SingleChain(m);
    var seen := [] + Probes(step, 1, 32, p - 1);
    assert Chain(inp, hash, seen + [p], [m]);
    OneTurn(inp, hash, step, [], 1, 0, Turn(p - 1, [m]), [], []);
    assert inp[0..p] == inp[..p] && bytes + [] == bytes;
    TurnsGiveFragment(inp, hash, step, tableSize, [Turn(p - 1, [m])] + [], bytes);
  }

  /** The schedules of the code look at every position for long enough: for ever without fast, for 32 positions with it. */
  lemma PeriodOfBlock(x: seq<Byte>, p: nat, fast: bool)
    requires 1 <= p && p + 16 <= |x| <= BLOCK_SIZE && Periodic(x, p) && (fast ==> p <= 32)
    requires Told(x, HashWithBits(TableBits(8, |x|)), p)
    ensures CompressedBlocks(x, fast) == LiteralElement(x[..p]) + CopyElement(p, |x| - p)
  {
    hide Fragment, LiteralElement, CopyElement, Periodic, Told, TableBits, HashWithBits;
    var bits := TableBits(8, |x|);
    HashesIntoTable(bits);
    PeriodIsFound(x, HashWithBits(bits), StepWidth(fast), Pow2(bits), p);
    assert x[..|x|] == x && x[|x|..] == [];
    assert CompressedBlocks(x[|x|..], fast) == [];
  }

  /** The top eight bits of a product, from which q times 2^32 is cut off. */
  lemma EightBitHash(w: nat, q: nat, h: nat)
    requires h < 256 && h * 16777216 <= w * 0x1e35a7bd - q * U32 < (h + 1) * 16777216
    ensures HashWithBits(8)(w) == h
  {
    var r := w * 0x1e35a7bd - q * U32;
    SameRemainder(w * 0x1e35a7bd, r, q);
    TableHash(8, w);
    TwentyFourBits();
    SameWindow(r, HashWithBits(8)(w), h);
  }

  lemma TwentyFourBits()
    ensures Pow2(24) == 16777216
  {
    EightMore(0);
    EightMore(8);
    EightMore(16);
  }

  lemma SameWindow(r: nat, k: nat, h: nat)
    requires k * 16777216 <= r < (k + 1) * 16777216 && h * 16777216 <= r < (h + 1) * 16777216
    ensures k == h
  {
  }

  const TEN: seq<Byte> := [97, 98, 99, 100, 101, 102, 103, 104, 105, 106]

  function TenHash(i: nat): nat
    requires i < 10
  {
    [174, 103, 31, 216, 145, 73, 2, 88, 132, 36][i]
  }

  function Letter(k: nat): nat
  {
    97 + if k < 10 then k else k - 10
  }

  lemma WordsOfTen(x: seq<Byte>, i: nat)
    requires |x| >= 14 && x[..10] == TEN && Periodic(x, 10) && i < 10
    ensures Word(x, i) == TenWord(i)
  {
    TenByte(x, i);
    TenByte(x, i + 1);
    TenByte(x, i + 2);
    TenByte(x, i + 3);
  }

  lemma TenByte(x: seq<Byte>, k: nat)
    requires |x| >= 14 && x[..10] == TEN && Periodic(x, 10) && k < 13
    ensures x[k] == Letter(k)
  {
    var j := if k < 10 then k else k - 10;
    assert x[j] == x[..10][j] == TEN[j];
  }

  function TenWord(i: nat): nat
    requires i < 10
  {
    Letter(i) + 256 * Letter(i + 1) + 65536 * Letter(i + 2) + 16777216 * Letter(i + 3)
  }

  /** The hashes of the ten words of "abcdefghij", over and over. */
  lemma TenHashes(i: nat)
    requires i < 10
    ensures HashWithBits(8)(TenWord(i)) == TenHash(i)
  {
    hide HashWithBits;
    if i == 0 {
      EightBitHash(1684234849, 198750177, 174);
    } else if i == 1 {
      EightBitHash(1701077858, 200737757, 103);
    } else if i == 2 {
      EightBitHash(1717920867, 202725337, 31);
    } else if i == 3 {
      EightBitHash(1734763876, 204712916, 216);
    } else if i == 4 {
      EightBitHash(1751606885, 206700496, 145);
    } else if i == 5 {
      EightBitHash(1768449894, 208688076, 73);
    } else if i == 6 {
      EightBitHash(1785292903, 210675656, 2);
    } else if i == 7 {
      EightBitHash(1634363752, 192865078, 88);
    } else if i == 8 {
      EightBitHash(1650551401, 194775321, 132);
    } else if i == 9 {
      EightBitHash(1667391850, 196762599, 36);
    }
  }

  lemma TenDiffer(i: nat, j: nat)
    requires i < j < 10
    ensures TenHash(i) != TenHash(j)
  {
  }

  /** "abcdefghij" over and over, 200 bytes of it, takes 22: two for the length, eleven for the literal, and three copies. */
  lemma TwentyTimesTenLetters(x: seq<Byte>, fast: bool)
    requires |x| == 200 && x[..10] == TEN && Periodic(x, 10)
    ensures CompressedBlocks(x, fast) == LiteralElement(TEN) + CopyElement(10, 190)
    ensures |Compressed(x, fast)| == 22
  {
    hide Word, TenWord, TenHash, HashWithBits, CopyElement, LiteralHeader, Periodic, CompressedBlocks;
    TenAreTold(x);
    SmallestTable(200);
    PeriodOfBlock(x, 10, fast);
    Encodings.CopyElementSize(10, 190);
    Encodings.HeaderSize(10);
    Varint.VarintSize(200);
  }

  lemma TenAreTold(x: seq<Byte>)
    requires |x| >= 14 && x[..10] == TEN && Periodic(x, 10)
    ensures Told(x, HashWithBits(8), 10)
  {
    hide Word, TenWord, TenHash, HashWithBits, Periodic;
    forall i, j | 0 <= i < j < 10
      ensures HashWithBits(8)(Word(x, i)) != HashWithBits(8)(Word(x, j))
    {
      WordsOfTen(x, i);
      WordsOfTen(x, j);
      TenHashes(i);
      TenHashes(j);
      TenDiffer(i, j);
    }
  }

  lemma SmallestTable(n: nat)
    requires n <= 256
    ensures TableBits(8, n) == 8
  {
    EightMore(0);
    assert Pow2(0) == 1;
  }
}
