/** The little-endian varint that stores the uncompressed length.
    Section 1 of the "Snappy compressed format description". */
module Varint {
  import opened Bytes

  /** 128 to the power i. */
  function Place(i: nat): (p: nat)
    ensures p >= 1
  {
    if i == 0 then 1 else 128 * Place(i - 1)
  }

  /** Reads the groups of a varint from group i on: the value they contribute and the bytes they take. */
  function ParseFrom(c: seq<Byte>, i: nat): (r: Option<(nat, nat)>)
    requires i <= 5
    ensures r.Some? ==> 1 <= r.value.1 <= |c| && r.value.1 <= 5 - i
    decreases 5 - i
  {
    if c == [] || i == 5 then None
    else
      var group := c[0] % 128 * Place(i);
      if group >= U32 then None
      else if c[0] < 128 then Some((group, 1))
      else
        match ParseFrom(c[1..], i + 1)
        case None => None
        case Some((v, n)) => Some((group + v, n + 1))
  }

  /** The varint at the front of c: its value and its size, if it is complete and fits 32 bits. */
  function ParseVarint(c: seq<Byte>): (r: Option<(nat, nat)>)
    ensures r.Some? ==> 1 <= r.value.1 <= |c|
  {
    ParseFrom(c, 0)
  }

  /** The shortest varint of v. */
  function VarintBytes(v: nat): (s: seq<Byte>)
    ensures s != []
  {
    if v < 128 then [v] else [v % 128 + 128] + VarintBytes(v / 128)
  }

  lemma PlaceValues()
    ensures Place(0) == 1 && Place(1) == 128 && Place(2) == 16384 && Place(3) == 2097152 && Place(4) == 268435456
  {
    assert Place(1) == 128 * Place(0);
    assert Place(2) == 128 * Place(1);
    assert Place(3) == 128 * Place(2);
    assert Place(4) == 128 * Place(3);
  }

  /** The groups from i on contribute a multiple of Place(i). */
  lemma {:induction false} ParsedIsMultiple(c: seq<Byte>, i: nat) returns (k: nat)
    requires i <= 5 && ParseFrom(c, i).Some?
    ensures ParseFrom(c, i).value.0 == k * Place(i)
    decreases 5 - i
  {
    if c[0] < 128 {
      k := c[0] % 128;
    } else {
      var m := ParsedIsMultiple(c[1..], i + 1);
      k := c[0] % 128 + 128 * m;
      Regroup(c[0] % 128, m, Place(i));
    }
  }

  lemma Regroup(low: nat, high: nat, place: nat)
    ensures low * place + high * (128 * place) == (low + 128 * high) * place
  {
  }

  /** A parsed value fits 32 bits. */
  lemma {:induction false} ParsedFits32Bits(c: seq<Byte>, i: nat)
    requires i <= 5 && ParseFrom(c, i).Some?
    ensures ParseFrom(c, i).value.0 < U32
    decreases 5 - i
  {
    if c[0] >= 128 {
      var m := ParsedIsMultiple(c[1..], i + 1);
      ParsedFits32Bits(c[1..], i + 1);
      GroupFits(c[0] % 128, m, i);
    }
  }

  /** Below 2^32 there is room for the next lower group. */
  lemma GroupFits(low: nat, high: nat, i: nat)
    requires i < 4 && low < 128 && high * Place(i + 1) < U32
    ensures low * Place(i) + high * Place(i + 1) < U32
  {
    PlaceValues();
    if i == 0 {} else if i == 1 {} else if i == 2 {} else {}
  }

  lemma NextGroup(low: nat, high: nat, i: nat)
    ensures low * Place(i) + high * Place(i + 1) == (low + 128 * high) * Place(i)
  {
    Regroup(low, high, Place(i));
  }

  /** Parsing from group i undoes encoding. */
  lemma {:induction false} ParseFromEncoded(v: nat, i: nat, rest: seq<Byte>)
    requires i < 5 && v * Place(i) < U32
    ensures ParseFrom(VarintBytes(v) + rest, i) == Some((v * Place(i), |VarintBytes(v)|))
    decreases 5 - i
  {
    var c := VarintBytes(v) + rest;
    hide Place;
    if v >= 128 {
      NextGroup(v % 128, v / 128, i);
      HighGroupsFit(v, i);
      ParseFromEncoded(v / 128, i + 1, rest);
      assert c[1..] == VarintBytes(v / 128) + rest;
    }
  }

  lemma HighGroupsFit(v: nat, i: nat)
    requires i < 5 && v >= 128 && v * Place(i) < U32
    ensures i < 4 && v / 128 * Place(i + 1) < U32 && v % 128 * Place(i) < U32
  {
    PlaceValues();
    if i == 0 {} else if i == 1 {} else if i == 2 {} else if i == 3 {} else {}
  }

  /** Parsing a varint followed by anything gives the value back and stops right behind it. */
  lemma VarintRoundTrip(v: nat, rest: seq<Byte>)
    requires v < U32
    ensures ParseVarint(VarintBytes(v) + rest) == Some((v, |VarintBytes(v)|))
    ensures |VarintBytes(v)| <= 5
  {
    assert Place(0) == 1;
    assert v * Place(0) == v;
    ParseFromEncoded(v, 0, rest);
    ParseFromEncoded(v, 0, []);
    assert VarintBytes(v) + [] == VarintBytes(v);
  }

  /** Seven bits to a byte. */
  lemma VarintSize(v: nat)
    requires v < U32
    ensures |VarintBytes(v)| == if v < 128 then 1 else if v < 16384 then 2 else if v < 2097152 then 3 else if v < 268435456 then 4 else 5
  {
    NestedDivisions(v);
    FourGroups(v, v / 128, v / 16384, v / 2097152, v / 268435456);
  }

  /** Varint::Encode32: the bytes written behind ptr, one branch per encoded size. */
  method Encode32(v: nat) returns (s: seq<Byte>)
    requires v < U32
    ensures s == VarintBytes(v)
  {
    var v7, v14, v21, v28 := v / 128, v / 16384, v / 2097152, v / 268435456;
    NestedDivisions(v);
    FourGroups(v, v7, v14, v21, v28);
    if v < 128 {
      s := [v];
    } else if v < 16384 {
      s := [v % 128 + 128];
      s := s + [v7];
    } else if v < 2097152 {
      s := [v % 128 + 128];
      s := s + [v7 % 128 + 128];
      s := s + [v14];
    } else if v < 268435456 {
      s := [v % 128 + 128];
      s := s + [v7 % 128 + 128];
      s := s + [v14 % 128 + 128];
      s := s + [v21];
    } else {
      s := [v % 128 + 128];
      s := s + [v7 % 128 + 128];
      s := s + [v14 % 128 + 128];
      s := s + [v21 % 128 + 128];
      s := s + [v28];
    }
  }

  lemma NestedDivisions(v: nat)
    requires v < U32
    ensures v / 128 / 128 == v / 16384 && v / 16384 / 128 == v / 2097152 && v / 2097152 / 128 == v / 268435456
    ensures v < 16384 <==> v / 128 < 128
    ensures v < 2097152 <==> v / 16384 < 128
    ensures v < 268435456 <==> v / 2097152 < 128
    ensures v / 268435456 < 16
  {
  }

  /** The shortest varint written out by size; v1 .. v4 are v shifted right by 7, 14, 21 and 28 bits. */
  lemma FourGroups(v: nat, v1: nat, v2: nat, v3: nat, v4: nat)
    requires v1 == v / 128 && v2 == v1 / 128 && v3 == v2 / 128 && v4 == v3 / 128 && v4 < 16
    ensures VarintBytes(v) ==
            if v < 128 then [v]
            else if v1 < 128 then [v % 128 + 128, v1]
            else if v2 < 128 then [v % 128 + 128, v1 % 128 + 128, v2]
            else if v3 < 128 then [v % 128 + 128, v1 % 128 + 128, v2 % 128 + 128, v3]
            else [v % 128 + 128, v1 % 128 + 128, v2 % 128 + 128, v3 % 128 + 128, v4]
  {
    if v >= 128 {
      assert VarintBytes(v) == [v % 128 + 128] + VarintBytes(v1);
      if v1 >= 128 {
        assert VarintBytes(v1) == [v1 % 128 + 128] + VarintBytes(v2);
        if v2 >= 128 {
          assert VarintBytes(v2) == [v2 % 128 + 128] + VarintBytes(v3);
          if v3 >= 128 {
            assert VarintBytes(v3) == [v3 % 128 + 128] + [v4];
          }
        }
      }
    }
  }

  /** Varint::Parse32WithLimit over the bytes between ptr and limit: the value and the bytes consumed, or None for NULL. */
  method Parse32WithLimit(c: seq<Byte>) returns (r: Option<(nat, nat)>)
    ensures r == ParseVarint(c)
  {
    PlaceValues();
    if |c| <= 0 { return None; }
    var b: nat := c[0];
    var result := b % 128;
    if b < 128 { return Some((result, 1)); }
    if |c| <= 1 { return None; }
    b := c[1];
    assert c[1] == c[1..][0];
    result := result + b % 128 * 128;
    if b < 128 { return Some((result, 2)); }
    if |c| <= 2 { return None; }
    b := c[2];
    result := result + b % 128 * 16384;
    if b < 128 { return Some((result, 3)); }
    if |c| <= 3 { return None; }
    b := c[3];
    result := result + b % 128 * 2097152;
    if b < 128 { return Some((result, 4)); }
    if |c| <= 4 { return None; }
    b := c[4];
    result := result + b % 128 * 268435456;
    if b < 16 { return Some((result, 5)); }
    return None;
  }
}
