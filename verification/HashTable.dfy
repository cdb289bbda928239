/** The hash function and the working memory that the hash table of a block lives in. */
module HashTable {
  import opened Bytes
  import opened Bits
  import opened Matcher

  const MAX_TABLE_BITS := 14
  const SMALL_TABLE_SIZE := 1024

  const MULTIPLIER := 0x1e35a7bd

  /** A 32-bit product. */
  function Product32(a: nat, b: nat): (p: nat)
    ensures p < U32
  {
    a * b % U32
  }

  /** A 32-bit multiplication of which the top bits are kept. */
  function HashBytes(bytes: nat, shift: nat): nat
  {
    ShiftRight(Product32(bytes, MULTIPLIER), shift)
  }

  /** The hash function that goes with a table of Pow2(bits) entries. */
  function HashWithBits(bits: nat): nat -> nat
    requires bits <= 32
  {
    (w: nat) => HashBytes(w, 32 - bits)
  }

  /** Every hash is an index into the table. */
  lemma HashesIntoTable(bits: nat)
    requires bits <= 32
    ensures HashesInto(HashWithBits(bits), Pow2(bits))
  {
    forall w: nat
      ensures HashWithBits(bits)(w) < Pow2(bits)
    {
      Pow2Values();
      ShiftRightBits(Product32(w, MULTIPLIER), 32 - bits, bits);
    }
  }

  /** The size of the table for an input of n bytes, as a power of two no smaller than 2^k. */
  function TableBits(k: nat, n: nat): (bits: nat)
    requires k <= MAX_TABLE_BITS
    ensures k <= bits <= MAX_TABLE_BITS
    decreases MAX_TABLE_BITS - k
  {
    if k < MAX_TABLE_BITS && Pow2(k) < n then TableBits(k + 1, n) else k
  }

  /** The table is as large as the input if it may be, and not twice as large as that takes. */
  lemma {:induction false} TableBitsFit(k: nat, n: nat)
    requires k <= MAX_TABLE_BITS
    ensures var bits := TableBits(k, n);
            (n <= Pow2(bits) || bits == MAX_TABLE_BITS) && (bits == k || Pow2(bits - 1) < n)
    decreases MAX_TABLE_BITS - k
  {
    if k < MAX_TABLE_BITS && Pow2(k) < n {
      TableBitsFit(k + 1, n);
    }
  }

  lemma TablePowers()
    ensures Pow2(8) == 256 && Pow2(10) == 1024 && Pow2(14) == 16384
  {
    assert Pow2(0) == 1;
    EightMore(0);
    assert Pow2(10) == 4 * Pow2(8);
    assert Pow2(14) == 16 * Pow2(10);
  }

  lemma {:induction false} PowersGrow(a: nat, b: nat)
    requires a < b
    ensures 2 * Pow2(a) <= Pow2(b)
  {
    if a + 1 < b {
      PowersGrow(a, b - 1);
    }
  }

  /** The logarithm of a power of two is its exponent. */
  lemma LogIsExact(bits: nat, log: nat)
    requires Pow2(log) <= Pow2(bits) < Pow2(log + 1)
    ensures log == bits
  {
    if log < bits { PowersGrow(log, bits); }
    if bits < log { PowersGrow(bits, log); }
  }

  /** The size of the table is 256, 512, .. or 16384: the first of them that is no smaller than the input, or the last. */
  lemma TableInNumbers(n: nat)
    ensures var size := Pow2(TableBits(8, n));
            && 256 <= size <= 16384 && (n <= size || size == 16384) && (size == 256 || size < 2 * n)
            && 8 <= TableBits(8, n) <= 14
  {
    var bits := TableBits(8, n);
    TablePowers();
    TableBitsFit(8, n);
    if 8 < bits { PowersGrow(8, bits); }
    if bits < 14 { PowersGrow(bits, 14); }
    if bits > 8 {
      assert Pow2(bits) == 2 * Pow2(bits - 1);
    }
  }

  class WorkingMemory {
    const smallTable: array<Position>
    var largeTable: array?<Position>

    ghost predicate Valid()
      reads this
    {
      smallTable.Length == SMALL_TABLE_SIZE
      && (largeTable != null ==> largeTable.Length == Pow2(MAX_TABLE_BITS) && largeTable != smallTable)
    }

    constructor ()
      ensures Valid() && fresh(smallTable) && largeTable == null
    {
      smallTable := new Position[SMALL_TABLE_SIZE];
      largeTable := null;
    }

    /** A zeroed table that is large enough for the input but not larger than useful. */
    method GetHashTable(inputSize: nat) returns (table: array<Position>, tableSize: nat)
      requires Valid()
      modifies this, smallTable, largeTable
      ensures Valid()
      ensures table == smallTable || table == largeTable
      ensures largeTable != null ==> fresh(largeTable) || largeTable == old(largeTable)
      ensures tableSize == Pow2(TableBits(8, inputSize)) <= table.Length
      ensures 256 <= tableSize <= 16384 && (inputSize <= tableSize || tableSize == 16384)
      ensures tableSize == 256 || tableSize < 2 * inputSize
      ensures table == smallTable <==> tableSize <= 1024
      ensures table[..tableSize] == seq(tableSize, _ => 0)
    {
      TablePowers();
      TableInNumbers(inputSize);
      var htsize: nat := 256;
      ghost var bits := 8;
      while htsize < Pow2(MAX_TABLE_BITS) && htsize < inputSize
        invariant 8 <= bits <= MAX_TABLE_BITS && htsize == Pow2(bits)
        invariant TableBits(bits, inputSize) == TableBits(8, inputSize)
        decreases MAX_TABLE_BITS - bits
      {
        assert bits < MAX_TABLE_BITS;
        htsize := htsize * 2;
        bits := bits + 1;
      }
      if bits < MAX_TABLE_BITS { PowersGrow(bits, MAX_TABLE_BITS); }
      if htsize <= SMALL_TABLE_SIZE {
        table := smallTable;
      } else {
        if largeTable == null {
          largeTable := new Position[Pow2(MAX_TABLE_BITS)];
        }
        table := largeTable;
      }
      tableSize := htsize;
      forall i | 0 <= i < tableSize {
        table[i] := 0;
      }
    }
  }
}
