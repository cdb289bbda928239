/** The decoder's tag lookup table: one packed entry per tag byte. */
module TagTable {
  import opened Bytes
  import opened Format

  /** The table, eight entries to a row. */
  function Row(r: nat): (row: seq<nat>)
    requires r < 32
    ensures |row| == 8
  {
    match r
    case 0 => [0x0001, 0x0804, 0x1001, 0x2001, 0x0002, 0x0805, 0x1002, 0x2002]
    case 1 => [0x0003, 0x0806, 0x1003, 0x2003, 0x0004, 0x0807, 0x1004, 0x2004]
    case 2 => [0x0005, 0x0808, 0x1005, 0x2005, 0x0006, 0x0809, 0x1006, 0x2006]
    case 3 => [0x0007, 0x080a, 0x1007, 0x2007, 0x0008, 0x080b, 0x1008, 0x2008]
    case 4 => [0x0009, 0x0904, 0x1009, 0x2009, 0x000a, 0x0905, 0x100a, 0x200a]
    case 5 => [0x000b, 0x0906, 0x100b, 0x200b, 0x000c, 0x0907, 0x100c, 0x200c]
    case 6 => [0x000d, 0x0908, 0x100d, 0x200d, 0x000e, 0x0909, 0x100e, 0x200e]
    case 7 => [0x000f, 0x090a, 0x100f, 0x200f, 0x0010, 0x090b, 0x1010, 0x2010]
    case 8 => [0x0011, 0x0a04, 0x1011, 0x2011, 0x0012, 0x0a05, 0x1012, 0x2012]
    case 9 => [0x0013, 0x0a06, 0x1013, 0x2013, 0x0014, 0x0a07, 0x1014, 0x2014]
    case 10 => [0x0015, 0x0a08, 0x1015, 0x2015, 0x0016, 0x0a09, 0x1016, 0x2016]
    case 11 => [0x0017, 0x0a0a, 0x1017, 0x2017, 0x0018, 0x0a0b, 0x1018, 0x2018]
    case 12 => [0x0019, 0x0b04, 0x1019, 0x2019, 0x001a, 0x0b05, 0x101a, 0x201a]
    case 13 => [0x001b, 0x0b06, 0x101b, 0x201b, 0x001c, 0x0b07, 0x101c, 0x201c]
    case 14 => [0x001d, 0x0b08, 0x101d, 0x201d, 0x001e, 0x0b09, 0x101e, 0x201e]
    case 15 => [0x001f, 0x0b0a, 0x101f, 0x201f, 0x0020, 0x0b0b, 0x1020, 0x2020]
    case 16 => [0x0021, 0x0c04, 0x1021, 0x2021, 0x0022, 0x0c05, 0x1022, 0x2022]
    case 17 => [0x0023, 0x0c06, 0x1023, 0x2023, 0x0024, 0x0c07, 0x1024, 0x2024]
    case 18 => [0x0025, 0x0c08, 0x1025, 0x2025, 0x0026, 0x0c09, 0x1026, 0x2026]
    case 19 => [0x0027, 0x0c0a, 0x1027, 0x2027, 0x0028, 0x0c0b, 0x1028, 0x2028]
    case 20 => [0x0029, 0x0d04, 0x1029, 0x2029, 0x002a, 0x0d05, 0x102a, 0x202a]
    case 21 => [0x002b, 0x0d06, 0x102b, 0x202b, 0x002c, 0x0d07, 0x102c, 0x202c]
    case 22 => [0x002d, 0x0d08, 0x102d, 0x202d, 0x002e, 0x0d09, 0x102e, 0x202e]
    case 23 => [0x002f, 0x0d0a, 0x102f, 0x202f, 0x0030, 0x0d0b, 0x1030, 0x2030]
    case 24 => [0x0031, 0x0e04, 0x1031, 0x2031, 0x0032, 0x0e05, 0x1032, 0x2032]
    case 25 => [0x0033, 0x0e06, 0x1033, 0x2033, 0x0034, 0x0e07, 0x1034, 0x2034]
    case 26 => [0x0035, 0x0e08, 0x1035, 0x2035, 0x0036, 0x0e09, 0x1036, 0x2036]
    case 27 => [0x0037, 0x0e0a, 0x1037, 0x2037, 0x0038, 0x0e0b, 0x1038, 0x2038]
    case 28 => [0x0039, 0x0f04, 0x1039, 0x2039, 0x003a, 0x0f05, 0x103a, 0x203a]
    case 29 => [0x003b, 0x0f06, 0x103b, 0x203b, 0x003c, 0x0f07, 0x103c, 0x203c]
    case 30 => [0x0801, 0x0f08, 0x103d, 0x203d, 0x1001, 0x0f09, 0x103e, 0x203e]
    case _ => [0x1801, 0x0f0a, 0x103f, 0x203f, 0x2001, 0x0f0b, 0x1040, 0x2040]
  }

  function CharTable(c: Byte): nat
  {
    Row(c / 8)[c % 8]
  }

  /** A packed entry: length in bits 0..7, copy offset / 256 in bits 8..10, extra bytes in bits 11..13. */
  function Pack(len: nat, offsetHigh: nat, extra: nat): nat
  {
    len + 256 * offsetHigh + 2048 * extra
  }

  lemma Unpack(len: nat, offsetHigh: nat, extra: nat)
    requires len < 256 && offsetHigh < 8
    ensures var e := Pack(len, offsetHigh, extra);
            e % 256 == len && e / 256 % 8 == offsetHigh && e / 2048 == extra
  {
    var high := offsetHigh + 8 * extra;
    LowestByte(len, high);
    assert high % 8 == offsetHigh && high / 8 == extra;
    Halves(Pack(len, offsetHigh, extra));
  }

  lemma Halves(e: nat)
    ensures e / 2048 == e / 256 / 8
  {
  }

  /** The entry of a literal tag whose upper six bits are m. */
  function LiteralEntry(m: nat): nat
  {
    if m < 60 then Pack(m + 1, 0, 0) else Pack(1, 0, m - 59)
  }

  /** Row r as the format describes tags 8r .. 8r + 7. */
  function ExpectedRow(r: nat): (row: seq<nat>)
    requires r < 32
    ensures |row| == 8
  {
    [ LiteralEntry(2 * r), Pack(r % 4 * 2 + 4, r / 4, 1), Pack(2 * r + 1, 0, 2), Pack(2 * r + 1, 0, 4),
      LiteralEntry(2 * r + 1), Pack(r % 4 * 2 + 5, r / 4, 1), Pack(2 * r + 2, 0, 2), Pack(2 * r + 2, 0, 4) ]
  }

  lemma Rows0To7(r: nat)
    requires r < 8
    ensures Row(r) == ExpectedRow(r)
  {
  }

  lemma Rows8To15(r: nat)
    requires 8 <= r < 16
    ensures Row(r) == ExpectedRow(r)
  {
  }

  lemma Rows16To23(r: nat)
    requires 16 <= r < 24
    ensures Row(r) == ExpectedRow(r)
  {
  }

  lemma Rows24To31(r: nat)
    requires 24 <= r < 32
    ensures Row(r) == ExpectedRow(r)
  {
  }

  lemma RowMatches(r: nat)
    requires r < 32
    ensures Row(r) == ExpectedRow(r)
  {
    if r < 8 { Rows0To7(r); } else if r < 16 { Rows8To15(r); } else if r < 24 { Rows16To23(r); } else { Rows24To31(r); }
  }

  /** The tag bits of byte c seen from row c / 8 and column c % 8. */
  lemma TagBits(c: Byte)
    ensures var r, j := c / 8, c % 8;
            c % 4 == j % 4 && c / 4 == 2 * r + j / 4 && c / 32 == r / 4 && c / 4 % 8 == r % 4 * 2 + j / 4
  {
    var r, j := c / 8, c % 8;
    assert c == 8 * r + j;
    assert c / 4 == 2 * r + j / 4;
    assert r == r / 4 * 4 + r % 4;
    FourRows(r / 4, r % 4, j / 4);
  }

  lemma FourRows(q: nat, t: nat, h: nat)
    requires t < 4 && h < 2
    ensures (2 * (4 * q + t) + h) % 8 == t * 2 + h
  {
    assert 2 * (4 * q + t) + h == 8 * q + (t * 2 + h);
  }

  /** The packed form of what the format says about tag byte c. */
  function PackedTag(c: Byte): nat
  {
    match c % 4
    case 0 => LiteralEntry(c / 4)
    case 1 => Pack(c / 4 % 8 + 4, c / 32, 1)
    case _ => Pack(c / 4 + 1, 0, TagExtra(c))
  }

  lemma LeftColumns(c: Byte, r: nat, j: nat)
    requires r < 32 && j < 4
    requires c % 4 == j && c / 4 == 2 * r && c / 32 == r / 4 && c / 4 % 8 == r % 4 * 2
    ensures ExpectedRow(r)[j] == PackedTag(c)
  {
    if j == 0 {} else if j == 1 {} else if j == 2 {} else {}
  }

  lemma RightColumns(c: Byte, r: nat, j: nat)
    requires r < 32 && j < 4
    requires c % 4 == j && c / 4 == 2 * r + 1 && c / 32 == r / 4 && c / 4 % 8 == r % 4 * 2 + 1
    ensures ExpectedRow(r)[j + 4] == PackedTag(c)
  {
    if j == 0 {} else if j == 1 {} else if j == 2 {} else {}
  }

  lemma ColumnMatches(c: Byte)
    ensures ExpectedRow(c / 8)[c % 8] == PackedTag(c)
  {
    TagBits(c);
    if c % 8 < 4 { LeftColumns(c, c / 8, c % 8); } else { RightColumns(c, c / 8, c % 8 - 4); }
  }

  lemma TableIsPackedTags(c: Byte)
    ensures CharTable(c) == PackedTag(c)
  {
    RowMatches(c / 8);
    ColumnMatches(c);
  }

  /** Every table entry is the format's reading of its tag byte: the number of extra bytes, the copy offset's
      high bits and the length. A long literal's length field is a placeholder. */
  lemma TableMatchesFormat(c: Byte)
    ensures CharTable(c) / 2048 == TagExtra(c)
    ensures c % 4 == 1 ==> CharTable(c) / 256 % 8 == c / 32 && CharTable(c) % 256 == c / 4 % 8 + 4
    ensures c % 4 >= 2 ==> CharTable(c) / 256 % 8 == 0 && CharTable(c) % 256 == c / 4 + 1
    ensures c % 4 == 0 && c / 4 < 60 ==> CharTable(c) % 256 == c / 4 + 1
  {
    TableIsPackedTags(c);
    if c % 4 == 0 {
      if c / 4 < 60 { Unpack(c / 4 + 1, 0, 0); } else { Unpack(1, 0, c / 4 - 59); }
    } else if c % 4 == 1 {
      Unpack(c / 4 % 8 + 4, c / 32, 1);
    } else {
      Unpack(c / 4 + 1, 0, TagExtra(c));
    }
  }
}
