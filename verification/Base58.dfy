/** Base58 and Base58Check: byte strings as numbers, written with 58 letters, with the leading zeros kept. */
module Base58 {
  import opened Bytes

  const ALPHABET := "123456789" + "ABCDEFGH" + "JKLMN" + "PQRSTUVWXYZ" + "abcdefghijk" + "mnopqrstuvwxyz"

  /** The text consists of letters of the alphabet. */
  predicate IsText(s: string) {
    forall i :: 0 <= i < |s| ==> s[i] in ALPHABET
  }

  /** The letter for a digit: six runs of consecutive characters. */
  function LetterCode(i: nat): nat {
    if i < 9 then 49 + i
    else if i < 17 then 65 + i - 9
    else if i < 22 then 74 + i - 17
    else if i < 33 then 80 + i - 22
    else if i < 44 then 97 + i - 33
    else 109 + i - 44
  }

  lemma Runs(i: nat)
    ensures i < 9 ==> "123456789"[i] as int == 49 + i
    ensures i < 8 ==> "ABCDEFGH"[i] as int == 65 + i
    ensures i < 5 ==> "JKLMN"[i] as int == 74 + i
    ensures i < 11 ==> "PQRSTUVWXYZ"[i] as int == 80 + i
    ensures i < 11 ==> "abcdefghijk"[i] as int == 97 + i
    ensures i < 14 ==> "mnopqrstuvwxyz"[i] as int == 109 + i
  {
  }

  lemma AlphabetRuns(i: nat)
    requires i < 58
    ensures |ALPHABET| == 58 && ALPHABET[i] as int == LetterCode(i)
  {
    Runs(i);
    if 9 <= i { Runs(i - 9); }
    if 17 <= i { Runs(i - 17); }
    if 22 <= i { Runs(i - 22); }
    if 33 <= i { Runs(i - 33); }
    if 44 <= i { Runs(i - 44); }
  }

  /** The letters ascend, and they are the digits and letters of ASCII without 0, O, I and l. */
  lemma LettersOfAlphabet(i: nat, j: nat)
    requires i < j < 58
    ensures |ALPHABET| == 58 && ALPHABET[i] < ALPHABET[j]
  {
    AlphabetRuns(i);
    AlphabetRuns(j);
  }

  lemma WhichLetters(c: char)
    ensures c in ALPHABET <==>
            ('0' <= c <= '9' || 'A' <= c <= 'Z' || 'a' <= c <= 'z') && c != '0' && c != 'O' && c != 'I' && c != 'l'
  {
    if c in ALPHABET {
      var i :| 0 <= i < |ALPHABET| && ALPHABET[i] == c;
      AlphabetSize();
      AlphabetRuns(i);
    }
    AlphabetSize();
    if '1' <= c <= '9' {
      AlphabetRuns(c as int - 49);
    } else if 'A' <= c <= 'H' {
      AlphabetRuns(c as int - 65 + 9);
    } else if 'J' <= c <= 'N' {
      AlphabetRuns(c as int - 74 + 17);
    } else if 'P' <= c <= 'Z' {
      AlphabetRuns(c as int - 80 + 22);
    } else if 'a' <= c <= 'k' {
      AlphabetRuns(c as int - 97 + 33);
    } else if 'm' <= c <= 'z' {
      AlphabetRuns(c as int - 109 + 44);
    }
  }

  /** alphabet.index: the first position of c in letters, or None where a ValueError is raised. */
  function Index(letters: string, c: char): (r: Option<nat>)
    ensures r.Some? ==> r.value < |letters| && letters[r.value] == c
    ensures r.None? <==> c !in letters
  {
    if letters == [] then None
    else if letters[0] == c then Some(0)
    else
      match Index(letters[1..], c)
      case None => None
      case Some(i) => Some(i + 1)
  }

  /** No letter occurs twice, so looking a letter up gives its digit back. */
  lemma IndexOfLetter(i: nat)
    requires i < |ALPHABET|
    ensures Index(ALPHABET, ALPHABET[i]) == Some(i)
  {
    hide Index;
    AlphabetSize();
    SameLetter(i, Index(ALPHABET, ALPHABET[i]).value);
  }

  lemma AlphabetSize()
    ensures |ALPHABET| == 58
  {
  }

  lemma SameLetter(i: nat, j: nat)
    requires i < 58 && j < 58
    ensures |ALPHABET| == 58 && (ALPHABET[i] == ALPHABET[j] ==> i == j)
  {
    AlphabetRuns(i);
    AlphabetRuns(j);
    LetterCodesDiffer(i, j);
  }

  lemma LetterCodesDiffer(i: nat, j: nat)
    requires i < 58 && j < 58
    ensures LetterCode(i) == LetterCode(j) ==> i == j
  {
  }

  /** The two bases that are converted into each other. */
  type Base = b: nat | b == 58 || b == 256 witness 58

  /** The number whose digits are ds, the highest first. */
  function Value(ds: seq<int>, base: Base): int {
    if ds == [] then 0 else Value(ds[..|ds| - 1], base) * base + ds[|ds| - 1]
  }

  predicate AllDigits(ds: seq<int>, base: Base) {
    forall i :: 0 <= i < |ds| ==> 0 <= ds[i] < base
  }

  /** The digits of n, highest first, without leading zeros. */
  function Digits(n: nat, base: Base): (ds: seq<int>)
    ensures AllDigits(ds, base)
    ensures ds != [] ==> ds[0] != 0
    ensures n == 0 ==> ds == []
    decreases n
  {
    if n == 0 then []
    else
      Split(n, base);
      Digits(n / base, base) + [n % base]
  }

  lemma Split(n: nat, base: Base)
    ensures n == n / base * base + n % base && 0 <= n % base < base
    ensures n > 0 ==> 0 <= n / base < n
    ensures n / base == 0 ==> n % base == n
  {
    if base == 58 {
      assert n == n / 58 * 58 + n % 58;
    } else {
      assert n == n / 256 * 256 + n % 256;
    }
  }

  lemma SplitUnique(q: nat, d: nat, base: Base)
    requires d < base
    ensures (q * base + d) / base == q && (q * base + d) % base == d
  {
    if base == 58 {
      assert (q * 58 + d) / 58 == q && (q * 58 + d) % 58 == d;
    } else {
      assert (q * 256 + d) / 256 == q && (q * 256 + d) % 256 == d;
    }
  }

  lemma {:induction false} ValueIsNatural(ds: seq<int>, base: Base)
    requires AllDigits(ds, base)
    ensures Value(ds, base) >= 0
    ensures ds != [] && ds[0] != 0 ==> Value(ds, base) > 0
  {
    if ds != [] {
      ValueIsNatural(ds[..|ds| - 1], base);
      assert Value(ds[..|ds| - 1], base) * base >= Value(ds[..|ds| - 1], base);
    }
  }

  /** Writing a number in a base and reading it back. */
  lemma {:induction false} ValueOfDigits(n: nat, base: Base)
    ensures Value(Digits(n, base), base) == n
    decreases n
  {
    if n > 0 {
      Split(n, base);
      ValueOfDigits(n / base, base);
      assert Digits(n, base)[..|Digits(n, base)| - 1] == Digits(n / base, base);
    }
  }

  /** A digit string without leading zeros is the only one for its number. */
  lemma {:induction false} DigitsOfValue(ds: seq<int>, base: Base)
    requires AllDigits(ds, base) && (ds != [] ==> ds[0] != 0)
    ensures Value(ds, base) >= 0
    ensures Digits(Value(ds, base), base) == ds
  {
    ValueIsNatural(ds, base);
    if ds != [] {
      var high, low := ds[..|ds| - 1], ds[|ds| - 1];
      ValueIsNatural(high, base);
      DigitsOfValue(high, base);
      SplitUnique(Value(high, base), low, base);
      assert ds == high + [low];
    }
  }

  function Power(base: Base, k: nat): nat {
    if k == 0 then 1 else base * Power(base, k - 1)
  }

  /** A digit in front counts with the weight of its place. */
  lemma {:induction false} ValuePrepend(d: int, ds: seq<int>, base: Base)
    ensures Value([d] + ds, base) == d * Power(base, |ds|) + Value(ds, base)
  {
    var all := [d] + ds;
    if ds == [] {
      assert Value(all, base) == Value(all[..0], base) * base + d;
    } else {
      var high, p := ds[..|ds| - 1], Power(base, |ds| - 1);
      ValuePrepend(d, high, base);
      assert all[..|all| - 1] == [d] + high;
      assert (d * p + Value(high, base)) * base == d * (base * p) + Value(high, base) * base;
    }
  }

  /** The weights of the places are the powers of the base. */
  lemma Weights(base: Base, k: nat)
    ensures Power(base, 0) == 1 && Power(base, 1) == base && Power(base, 2) == base * base
    ensures Power(base, k + 1) == base * Power(base, k)
  {
  }

  /** How many times c stands at the front of s. */
  function Leading<T(==)>(s: seq<T>, c: T): (n: nat)
    ensures n <= |s| && (n < |s| ==> s[n] != c)
    ensures forall i :: 0 <= i < n ==> s[i] == c
  {
    if s == [] || s[0] != c then 0 else 1 + Leading(s[1..], c)
  }

  function Repeat<T>(c: T, n: nat): (s: seq<T>)
    ensures |s| == n && forall i :: 0 <= i < n ==> s[i] == c
  {
    seq(n, _ => c)
  }

  lemma LeadingOfPadded<T>(c: T, n: nat, rest: seq<T>)
    requires rest != [] ==> rest[0] != c
    ensures Leading(Repeat(c, n) + rest, c) == n
    ensures (Repeat(c, n) + rest)[n..] == rest
  {
    var all := Repeat(c, n) + rest;
    assert forall i :: 0 <= i < n ==> all[i] == c;
    assert n < |all| ==> all[n] == rest[0];
  }

  lemma PaddedAgain<T>(s: seq<T>, c: T)
    ensures s == Repeat(c, Leading(s, c)) + s[Leading(s, c)..]
  {
  }

  /** Digits as text, and the digits of a text. */
  function Letters(ds: seq<int>): (s: string)
    requires AllDigits(ds, 58)
    ensures |s| == |ds|
  {
    seq(|ds|, i requires 0 <= i < |ds| => ALPHABET[ds[i]])
  }

  function LetterDigits(s: string): (ds: seq<int>)
    requires IsText(s)
    ensures |ds| == |s| && AllDigits(ds, 58)
  {
    seq(|s|, i requires 0 <= i < |s| => Index(ALPHABET, s[i]).value)
  }

  lemma DigitsOfLetters(ds: seq<int>)
    requires AllDigits(ds, 58)
    ensures IsText(Letters(ds)) && LetterDigits(Letters(ds)) == ds
  {
    hide Index;
    forall i | 0 <= i < |ds|
      ensures Index(ALPHABET, Letters(ds)[i]) == Some(ds[i])
    {
      IndexOfLetter(ds[i]);
    }
  }

  lemma LettersOfDigits(s: string)
    requires IsText(s)
    ensures Letters(LetterDigits(s)) == s
  {
  }

  /** What b58encode returns: one '1' for each leading zero byte, then the rest as a number in base 58. */
  function Encoded(v: seq<Byte>): string {
    var zeros := Leading(v, 0);
    ValueIsNatural(v[zeros..], 256);
    Repeat('1', zeros) + Letters(Digits(Value(v[zeros..], 256), 58))
  }

  /** What b58decode returns, or None where it raises a ValueError. */
  function Decoded(s: string): Option<seq<Byte>> {
    var ones := Leading(s, '1');
    if !IsText(s[ones..]) then None
    else
      ValueIsNatural(LetterDigits(s[ones..]), 58);
      Some(Repeat(0, ones) + Digits(Value(LetterDigits(s[ones..]), 58), 256))
  }

  lemma ZeroIsOne(ds: seq<int>)
    requires AllDigits(ds, 58) && ds != []
    ensures ds[0] == 0 <==> Letters(ds)[0] == '1'
  {
    AlphabetRuns(0);
    AlphabetRuns(ds[0]);
  }

  /** Every byte string survives encoding, leading zeros included. */
  lemma DecodeEncode(v: seq<Byte>)
    ensures IsText(Encoded(v)) && Decoded(Encoded(v)) == Some(v)
  {
    hide IsText, Letters, LetterDigits, Digits, Value, Leading, Repeat, AllDigits;
    var zeros := Leading(v, 0);
    var rest := v[zeros..];
    DigitsOfValue(rest, 256);
    var n := Value(rest, 256);
    var ds := Digits(n, 58);
    ValueOfDigits(n, 58);
    DigitsOfLetters(ds);
    if ds != [] {
      ZeroIsOne(ds);
    }
    LeadingOfPadded('1', zeros, Letters(ds));
    PaddedAgain(v, 0);
    OnesAreText(zeros, Letters(ds));
    assert Leading(Encoded(v), '1') == zeros;
    assert Encoded(v)[zeros..] == Letters(ds);
    assert LetterDigits(Encoded(v)[zeros..]) == ds;
    assert Digits(n, 256) == rest;
    assert Decoded(Encoded(v)).value == Repeat(0, zeros) + rest;
  }

  lemma OnesAreText(n: nat, s: string)
    ensures IsText(Repeat('1', n) + s) <==> IsText(s)
  {
    var all := Repeat('1', n) + s;
    AlphabetRuns(0);
    assert ALPHABET[0] == '1';
    assert all[n..] == s;
    if IsText(all) {
      forall i | 0 <= i < |s|
        ensures s[i] in ALPHABET
      {
        assert all[n + i] == s[i];
      }
    }
  }

  /** Every text over the alphabet is the encoding of what it decodes to, and no other text decodes. */
  lemma EncodeDecode(s: string)
    ensures Decoded(s).Some? <==> IsText(s)
    ensures IsText(s) ==> Encoded(Decoded(s).value) == s
  {
    hide IsText, Letters, LetterDigits, Digits, Value, Leading, Repeat, AllDigits;
    var ones := Leading(s, '1');
    var rest := s[ones..];
    PaddedAgain(s, '1');
    OnesAreText(ones, rest);
    if IsText(s) {
      var ds := LetterDigits(rest);
      LettersOfDigits(rest);
      if ds != [] {
        ZeroIsOne(ds);
      }
      DigitsOfValue(ds, 58);
      var n := Value(ds, 58);
      var bytes := Digits(n, 256);
      ValueOfDigits(n, 256);
      LeadingOfPadded(0, ones, bytes);
    }
  }

  /** As numbers, byte string and text are the same, and as many letters '1' stand in front as there are zero bytes. */
  lemma EncodedNumber(v: seq<Byte>)
    ensures IsText(Encoded(v)) && Value(LetterDigits(Encoded(v)), 58) == Value(v, 256)
    ensures Leading(Encoded(v), '1') == Leading(v, 0)
  {
    hide IsText, Letters, LetterDigits, Digits, Value, Leading, Repeat, AllDigits;
    var zeros := Leading(v, 0);
    var rest := v[zeros..];
    DigitsOfValue(rest, 256);
    var n := Value(rest, 256);
    var ds := Digits(n, 58);
    ValueOfDigits(n, 58);
    DigitsOfLetters(ds);
    if ds != [] {
      ZeroIsOne(ds);
    }
    LeadingOfPadded('1', zeros, Letters(ds));
    PaddedAgain(v, 0);
    OnesAreText(zeros, Letters(ds));
    ZerosInFront(v, zeros, 256);
    OnesInFront(Encoded(v), zeros);
  }

  lemma {:induction false} ZerosInFront(ds: seq<int>, n: nat, base: Base)
    requires n <= |ds| && forall i :: 0 <= i < n ==> ds[i] == 0
    ensures Value(ds, base) == Value(ds[n..], base)
    decreases n
  {
    if n == 0 {
      assert ds[0..] == ds;
    } else {
      ZerosInFront(ds[1..], n - 1, base);
      ValuePrepend(0, ds[1..], base);
      assert ds == [0] + ds[1..] && ds[1..][n - 1..] == ds[n..];
    }
  }

  lemma OnesInFront(s: string, n: nat)
    requires IsText(s) && n <= |s| && forall i :: 0 <= i < n ==> s[i] == '1'
    ensures IsText(s[n..]) && Value(LetterDigits(s), 58) == Value(LetterDigits(s[n..]), 58)
  {
    hide Value;
    AlphabetRuns(0);
    IndexOfLetter(0);
    assert ALPHABET[0] == '1';
    ZerosInFront(LetterDigits(s), n, 58);
    assert LetterDigits(s)[n..] == LetterDigits(s[n..]);
  }

  lemma DigitsOf255()
    ensures Value([255], 256) == 255 && Digits(255, 58) == [4, 23]
  {
    assert [255][..0] == [];
    assert Value([255], 256) == Value([], 256) * 256 + 255;
    assert Digits(4, 58) == Digits(0, 58) + [4];
    assert Digits(255, 58) == Digits(4, 58) + [23];
  }

  lemma LettersOf255()
    ensures Letters([4, 23]) == "5Q"
  {
    AlphabetRuns(4);
    AlphabetRuns(23);
    assert ALPHABET[4] == '5' && ALPHABET[23] == 'Q';
  }

  /** A byte and a text, as an example: 255 is 4 times 58 and 23. */
  lemma EncodingOf255()
    ensures Encoded([255]) == "5Q" && Encoded([0, 255]) == "15Q"
  {
    hide Digits, Letters, Value;
    DigitsOf255();
    LettersOf255();
    assert Leading([255], 0) == 0;
    assert [0, 255][1..] == [255] && Leading([0, 255], 0) == 1;
    assert [255][0..] == [255];
    assert Repeat('1', 0) + "5Q" == "5Q";
    assert Repeat('1', 1) == "1" && "1" + "5Q" == "15Q";
  }

  /** Encoding is a bijection between byte strings and texts over the alphabet. */
  lemma Bijection(v: seq<Byte>, s: string)
    ensures Encoded(v) == s <==> Decoded(s) == Some(v)
  {
    DecodeEncode(v);
    EncodeDecode(s);
  }

  /** The first four bytes of a digest: digest[:4]. */
  function Checksum(digest: seq<Byte>): seq<Byte> {
    if |digest| <= 4 then digest else digest[..4]
  }

  /** What b58encode_check returns; hash stands for SHA-256 applied twice. */
  function EncodedCheck(v: seq<Byte>, hash: seq<Byte> -> seq<Byte>): string {
    Encoded(v + Checksum(hash(v)))
  }

  datatype CheckResult = Valid(payload: seq<Byte>) | NotBase58 | InvalidChecksum

  /** What b58decode_check returns: result[:-4] if result[-4:] is its checksum. */
  function DecodedCheck(s: string, hash: seq<Byte> -> seq<Byte>): CheckResult {
    match Decoded(s)
    case None => NotBase58
    case Some(result) =>
      var cut := if |result| < 4 then 0 else |result| - 4;
      if result[cut..] == Checksum(hash(result[..cut])) then Valid(result[..cut]) else InvalidChecksum
  }

  /** The checked form round-trips exactly when the hash yields the four bytes that are cut off again; the empty payload always does. */
  lemma CheckRoundTrip(v: seq<Byte>, hash: seq<Byte> -> seq<Byte>)
    ensures DecodedCheck(EncodedCheck(v, hash), hash) == Valid(v) <==> |hash(v)| >= 4 || v == []
  {
    hide Encoded, Decoded;
    var sum := Checksum(hash(v));
    DecodeEncode(v + sum);
    var cut := if |v + sum| < 4 then 0 else |v + sum| - 4;
    if cut == |v| {
      assert (v + sum)[..cut] == v && (v + sum)[cut..] == sum;
    }
  }

  /** With a hash of at least four bytes, decoding accepts nothing but what encoding produces. */
  lemma CheckAcceptsOnlyEncoded(s: string, v: seq<Byte>, hash: seq<Byte> -> seq<Byte>)
    requires forall x :: |hash(x)| >= 4
    ensures DecodedCheck(s, hash) == Valid(v) <==> s == EncodedCheck(v, hash)
  {
    hide Encoded, Decoded;
    CheckRoundTrip(v, hash);
    EncodeDecode(s);
    if DecodedCheck(s, hash) == Valid(v) {
      var result := Decoded(s).value;
      assert result == v + Checksum(hash(v));
    }
  }

  /** The payload is followed by the first four bytes of its digest. */
  lemma ChecksumInFront(v: seq<Byte>, hash: seq<Byte> -> seq<Byte>)
    ensures |hash(v)| >= 4 ==> Decoded(EncodedCheck(v, hash)) == Some(v + hash(v)[..4])
    ensures |hash(v)| < 4 ==> Decoded(EncodedCheck(v, hash)) == Some(v + hash(v))
  {
    hide Encoded, Decoded;
    DecodeEncode(v + Checksum(hash(v)));
    if |hash(v)| == 4 {
      assert hash(v)[..4] == hash(v);
    }
  }

  /** With digests of four bytes and more, a text is valid exactly if it stands for a payload and the first four bytes of
      its digest. */
  lemma ValidChecksum(s: string, v: seq<Byte>, hash: seq<Byte> -> seq<Byte>)
    requires forall x :: |hash(x)| >= 4
    ensures DecodedCheck(s, hash) == Valid(v) <==> Decoded(s) == Some(v + hash(v)[..4])
    ensures DecodedCheck(s, hash) == NotBase58 <==> !IsText(s)
  {
    hide Encoded, Decoded;
    CheckAcceptsOnlyEncoded(s, v, hash);
    ChecksumInFront(v, hash);
    EncodeDecode(s);
    DecodeEncode(v + Checksum(hash(v)));
  }

  method B58EncodeInt(i: nat, defaultOne: bool) returns (text: string)
    ensures text == if i == 0 && defaultOne then "1" else Letters(Digits(i, 58))
  {
    if i == 0 && defaultOne {
      AlphabetRuns(0);
      assert ALPHABET[0] == '1';
      return [ALPHABET[0]];
    }
    text := "";
    var n := i;
    while n != 0
      invariant Letters(Digits(n, 58)) + text == Letters(Digits(i, 58))
    {
      Split(n, 58);
      ghost var whole := Digits(n, 58);
      ghost var high := Digits(n / 58, 58);
      assert Letters(whole) == Letters(high) + [ALPHABET[n % 58]];
      text := [ALPHABET[n % 58]] + text;
      n := n / 58;
    }
  }

  /** One round of b58encode's loop. */
  lemma PrependByte(v: seq<Byte>, i: nat)
    requires i < |v|
    ensures Power(256, |v| - i) == Power(256, |v| - i - 1) * 256
    ensures Value(v[i..], 256) == Power(256, |v| - i - 1) * v[i] + Value(v[i + 1..], 256) >= 0
  {
    ValuePrepend(v[i], v[i + 1..], 256);
    assert v[i..] == [v[i]] + v[i + 1..];
    ValueIsNatural(v[i..], 256);
  }

  /** One round of b58decode_int's loop. */
  lemma AppendLetter(s: string, i: nat)
    requires i < |s| && IsText(s[..i + 1])
    ensures IsText(s[..i])
    ensures Value(LetterDigits(s[..i + 1]), 58) == Value(LetterDigits(s[..i]), 58) * 58 + Index(ALPHABET, s[i]).value
  {
    var shorter, longer := s[..i], s[..i + 1];
    forall j | 0 <= j < i
      ensures shorter[j] in ALPHABET
    {
      assert shorter[j] == longer[j];
    }
    var ds := LetterDigits(longer);
    assert ds[..i] == LetterDigits(shorter);
  }

  lemma ExtendText(s: string, i: nat)
    requires i < |s|
    ensures IsText(s[..i + 1]) <==> IsText(s[..i]) && s[i] in ALPHABET
    ensures IsText(s) ==> IsText(s[..i + 1])
  {
    var shorter, longer := s[..i], s[..i + 1];
    assert longer == shorter + [s[i]];
    assert longer[i] == s[i];
    assert forall j :: 0 <= j < i ==> shorter[j] == longer[j];
    assert forall j :: 0 <= j <= i ==> longer[j] == s[j];
  }

  /** One round of b58decode's loop. */
  lemma AppendByte(acc: nat, high: nat, low: Byte, result: seq<Byte>)
    requires acc > 0 && high == acc / 256 && low == acc % 256
    ensures high < acc
    ensures Digits(high, 256) + Reversed(result + [low]) == Digits(acc, 256) + Reversed(result)
  {
    hide Reversed;
    Split(acc, 256);
    assert Digits(acc, 256) == Digits(high, 256) + [low];
    ReversedAppend(result, low);
    JoinAround(Digits(high, 256), low, Reversed(result));
  }

  lemma JoinAround(a: seq<int>, x: int, b: seq<int>)
    ensures a + ([x] + b) == (a + [x]) + b
  {
  }

  method B58Encode(v: seq<Byte>) returns (text: string)
    ensures text == Encoded(v)
  {
    hide Leading, Digits, Letters, Repeat, AllDigits;
    var stripped := v[Leading(v, 0)..];
    var pad := |v| - |stripped|;
    var p: nat, acc: nat := 1, 0;
    var i := |stripped|;
    while i > 0
      invariant 0 <= i <= |stripped|
      invariant p == Power(256, |stripped| - i) && acc == Value(stripped[i..], 256)
    {
      i := i - 1;
      PrependByte(stripped, i);
      acc := acc + p * stripped[i];
      p := p * 256;
    }
    assert stripped[0..] == stripped;
    var result := B58EncodeInt(acc, false);
    text := Repeat('1', pad) + result;
  }

  method B58DecodeInt(s: string) returns (decimal: Option<nat>)
    ensures decimal.Some? <==> IsText(s)
    ensures IsText(s) ==> decimal.value == Value(LetterDigits(s), 58)
  {
    hide Index, LetterDigits, AllDigits;
    var sum: nat := 0;
    assert s[..0] == "";
    for i := 0 to |s|
      invariant IsText(s[..i]) && sum == Value(LetterDigits(s[..i]), 58)
    {
      var index := Index(ALPHABET, s[i]);
      if index.None? {
        return None;
      }
      ExtendText(s, i);
      AppendLetter(s, i);
      sum := sum * 58 + index.value;
    }
    assert s[..|s|] == s;
    decimal := Some(sum);
  }

  function Reversed(s: seq<Byte>): seq<Byte> {
    if s == [] then [] else Reversed(s[1..]) + [s[0]]
  }

  lemma {:induction false} ReversedAppend(s: seq<Byte>, x: Byte)
    ensures Reversed(s + [x]) == [x] + Reversed(s)
  {
    if s != [] {
      ReversedAppend(s[1..], x);
      assert (s + [x])[1..] == s[1..] + [x];
    }
  }

  method B58Decode(s: string) returns (v: Option<seq<Byte>>)
    ensures v == Decoded(s)
  {
    hide Leading, Index, LetterDigits, IsText, Value, Digits, AllDigits;
    var stripped := s[Leading(s, '1')..];
    var number := B58DecodeInt(stripped);
    if number.None? {
      return None;
    }
    var acc: nat, result: seq<Byte> := number.value, [];
    while acc > 0
      invariant Digits(acc, 256) + Reversed(result) == Digits(number.value, 256)
    {
      var high: nat, low: Byte := acc / 256, acc % 256;
      AppendByte(acc, high, low, result);
      acc, result := high, result + [low];
    }
    assert Digits(acc, 256) + Reversed(result) == Reversed(result);
    v := Some(Repeat(0, |s| - |stripped|) + Reversed(result));
    assert v.value == Decoded(s).value;
  }

  method B58EncodeCheck(v: seq<Byte>, hash: seq<Byte> -> seq<Byte>) returns (text: string)
    ensures text == EncodedCheck(v, hash)
  {
    text := B58Encode(v + Checksum(hash(v)));
  }

  method B58DecodeCheck(s: string, hash: seq<Byte> -> seq<Byte>) returns (r: CheckResult)
    ensures r == DecodedCheck(s, hash)
  {
    var decoded := B58Decode(s);
    if decoded.None? {
      return NotBase58;
    }
    var cut := if |decoded.value| < 4 then 0 else |decoded.value| - 4;
    var result, check := decoded.value[..cut], decoded.value[cut..];
    r := if check != Checksum(hash(result)) then InvalidChecksum else Valid(result);
  }
}
