/**
 * Revisions as ULID text: 48 bits of milliseconds and 80 bits of entropy, written as 26 digits of
 * Crockford base 32 (the ULID specification, sections "Encoding" and "Binary Layout and Byte Order").
 */
module Ulid {
  import opened Wrappers
  import opened TextOrder
  import opened Numerals

  type Revision = string

  type byte = n: nat | n < 0x100
  type uint16 = n: nat | n < 0x1_0000
  type uint64 = n: nat | n < 0x1_0000_0000_0000_0000

  const CROCKFORD := "0123456789ABCDEFGHJKMNPQRSTVWXYZ"
  const TIME_LIMIT: nat := 0x1_0000_0000_0000
  const ENTROPY_LIMIT: nat := 0x1_0000_0000_0000_0000_0000
  const ULID_LIMIT: nat := 0x1_0000_0000_0000_0000_0000_0000_0000_0000

  const INITIAL_REVISION: Revision := "00000000000000000000000000"

  datatype ParseError = WrongLength | Overflow | InvalidCharacter

  function UlidText(time: nat, entropy: nat): Revision
    requires entropy < ENTROPY_LIMIT
  {
    Text(time * ENTROPY_LIMIT + entropy, 26, CROCKFORD)
  }

  function Upper(c: char): char {
    if 'a' <= c <= 'z' then (c as int - 32) as char else c
  }

  /** Parsing reads either case; a leading digit above 7 would need more than 128 bits. */
  function ParseUlid(text: string): (r: Result<nat, ParseError>)
    ensures r.Err? <==>
      || |text| != 26
      || text[0] > '7'
      || exists i :: 0 <= i < 26 && Upper(text[i]) !in CROCKFORD
  {
    if |text| != 26 then Err(WrongLength)
    else if text[0] > '7' then Err(Overflow)
    else
      var upper := seq(26, i requires 0 <= i < 26 => Upper(text[i]));
      ParseFails(upper, CROCKFORD);
      match Parse(upper, CROCKFORD)
      case Some(n) =>
        assert forall i :: 0 <= i < 26 ==> Upper(text[i]) == upper[i];
        Ok(n)
      case None =>
        assert forall i :: 0 <= i < 26 ==> Upper(text[i]) == upper[i];
        Err(InvalidCharacter)
  }

  lemma {:induction false} ParseFails(text: string, alphabet: string)
    ensures Parse(text, alphabet).None? <==> exists i :: 0 <= i < |text| && text[i] !in alphabet
  {
    if text != "" {
      ParseFails(text[..|text| - 1], alphabet);
      assert forall i :: 0 <= i < |text| - 1 ==> text[..|text| - 1][i] == text[i];
    }
  }

  lemma CrockfordAscends()
    ensures Ascending(CROCKFORD) && |CROCKFORD| == 32 && CROCKFORD[7] == '7' && CROCKFORD[31] == 'Z'
  {
  }

  /** The alphabet of the ULID specification: the digits, and the letters without I, L, O and U. */
  predicate IsCrockford(c: char) {
    ('0' <= c <= '9' || 'A' <= c <= 'Z') && c !in "ILOU"
  }

  function CrockfordDigit(d: nat): char
    requires d < 32
  {
    if d < 10 then '0' + d as char
    else if d < 18 then 'A' + (d - 10) as char
    else if d < 20 then 'J' + (d - 18) as char
    else if d < 22 then 'M' + (d - 20) as char
    else if d < 27 then 'P' + (d - 22) as char
    else 'V' + (d - 27) as char
  }

  lemma CrockfordDigits(d: nat)
    requires d < 32
    ensures CROCKFORD[d] == CrockfordDigit(d) && IsCrockford(CROCKFORD[d])
  {
  }

  lemma CrockfordExactly(c: char)
    ensures c in CROCKFORD <==> IsCrockford(c)
  {
    if IsCrockford(c) {
      var n := c as int;
      var d := if n < 58 then n - 48 else if n < 73 then n - 55 else if n < 76 then n - 56 else if n < 79 then n - 57
               else if n < 85 then n - 58 else n - 59;
      CrockfordDigits(d);
      assert CROCKFORD[d] == c;
    } else if c in CROCKFORD {
      var d :| 0 <= d < 32 && CROCKFORD[d] == c;
      CrockfordDigits(d);
    }
  }

  /** The characters of a written ULID: the 26 base-32 digits of its 128 bits, most significant first. */
  lemma UlidCharacter(time: nat, entropy: nat, k: nat)
    requires time < TIME_LIMIT && entropy < ENTROPY_LIMIT && k < 26
    ensures |UlidText(time, entropy)| == 26 && Pow(32, 25 - k) > 0
    ensures UlidText(time, entropy)[k]
         == CrockfordDigit((time * 0x1_0000_0000_0000_0000_0000 + entropy) / Pow(32, 25 - k) % 32)
  {
    var n := time * ENTROPY_LIMIT + entropy;
    PowPositive(32, 25 - k);
    TextDigit(n, 26, CROCKFORD, k);
    CrockfordDigits(n / Pow(32, 25 - k) % 32);
  }

  lemma UpperCrockford(c: char)
    requires c in CROCKFORD
    ensures Upper(c) == c
  {
    CrockfordAscends();
    var i :| 0 <= i < 32 && CROCKFORD[i] == c;
  }

  lemma Base32Powers()
    ensures Pow(32, 26) == 4 * ULID_LIMIT
    ensures Pow(32, 25) * 8 == ULID_LIMIT
  {
    assert Pow(32, 8) == 0x100_0000_0000;
    PowJoin(32, 8, 8);
    PowJoin(32, 16, 8);
    PowJoin(32, 24, 1);
    PowJoin(32, 25, 1);
    assert Pow(32, 1) == 32;
  }

  lemma BytePowers()
    ensures Pow(256, 2) == 0x1_0000
    ensures Pow(256, 6) == TIME_LIMIT
    ensures Pow(256, 8) == 0x1_0000_0000_0000_0000
    ensures Pow(256, 10) == ENTROPY_LIMIT
    ensures Pow(256, 16) == ULID_LIMIT
  {
  }

  lemma PackOrder(t1: nat, e1: nat, t2: nat, e2: nat)
    requires t1 < TIME_LIMIT && t2 < TIME_LIMIT && e1 < ENTROPY_LIMIT && e2 < ENTROPY_LIMIT
    ensures t1 * ENTROPY_LIMIT + e1 < ULID_LIMIT
    ensures t1 * ENTROPY_LIMIT + e1 < t2 * ENTROPY_LIMIT + e2 <==> t1 < t2 || (t1 == t2 && e1 < e2)
    ensures t1 * ENTROPY_LIMIT + e1 == t2 * ENTROPY_LIMIT + e2 <==> t1 == t2 && e1 == e2
  {
  }

  lemma WritingKeepsOrder(m: nat, n: nat)
    requires m < ULID_LIMIT && n < ULID_LIMIT
    ensures Less(Text(m, 26, CROCKFORD), Text(n, 26, CROCKFORD)) <==> m < n
    ensures Text(m, 26, CROCKFORD) == Text(n, 26, CROCKFORD) <==> m == n
  {
    CrockfordAscends();
    Base32Powers();
    TextOrderIsNumericOrder(m, n, 26, CROCKFORD);
  }

  /** ULID text compares as (time, entropy) pairs do, and no two pairs share a text. */
  lemma UlidOrder(t1: nat, e1: nat, t2: nat, e2: nat)
    requires t1 < TIME_LIMIT && t2 < TIME_LIMIT && e1 < ENTROPY_LIMIT && e2 < ENTROPY_LIMIT
    ensures Less(UlidText(t1, e1), UlidText(t2, e2)) <==> t1 < t2 || (t1 == t2 && e1 < e2)
    ensures UlidText(t1, e1) == UlidText(t2, e2) <==> t1 == t2 && e1 == e2
  {
    PackOrder(t1, e1, t2, e2);
    PackOrder(t2, e2, t1, e1);
    WritingKeepsOrder(t1 * ENTROPY_LIMIT + e1, t2 * ENTROPY_LIMIT + e2);
  }

  lemma InitialIsZero()
    ensures INITIAL_REVISION == UlidText(0, 0)
  {
    ZeroText(26);
    assert forall i :: 0 <= i < 26 ==> INITIAL_REVISION[i] == '0';
  }

  lemma {:induction false} ZeroText(width: nat)
    ensures forall i :: 0 <= i < width ==> Text(0, width, CROCKFORD)[i] == '0'
  {
    if width > 0 {
      ZeroText(width - 1);
    }
  }

  /** What the parser accepts, character by character: either case, and no more than 128 bits. */
  predicate IsUlidText(text: string) {
    && |text| == 26 && '0' <= text[0] <= '7'
    && forall i :: 0 <= i < 26 ==>
      IsCrockford(text[i]) || ('a' <= text[i] <= 'z' && text[i] !in "ilou")
  }

  lemma ParsesExactlyWhen(text: string)
    ensures ParseUlid(text).Ok? <==> IsUlidText(text)
  {
    if |text| == 26 {
      forall i | 0 <= i < 26
        ensures Upper(text[i]) in CROCKFORD <==> IsCrockford(text[i]) || ('a' <= text[i] <= 'z' && text[i] !in "ilou")
      {
        UpperLetter(text[i]);
        CrockfordExactly(Upper(text[i]));
      }
      if ParseUlid(text).Ok? {
        assert Upper(text[0]) in CROCKFORD;
      }
    }
  }

  lemma UpperLetter(c: char)
    ensures IsCrockford(Upper(c)) <==> IsCrockford(c) || ('a' <= c <= 'z' && c !in "ilou")
  {
  }

  /** Lower-case letters are read as their upper-case forms. */
  lemma CaseIgnored(a: string, b: string)
    requires |a| == |b| == 26
    requires forall i :: 0 <= i < 26 ==>
      a[i] == b[i] || ('a' <= a[i] <= 'z' && b[i] as int == a[i] as int - 32)
    ensures ParseUlid(a) == ParseUlid(b)
  {
    assert a[0] != b[0] ==> a[0] > '7' && b[0] > '7';
    assert forall i :: 0 <= i < 26 ==> Upper(a[i]) == Upper(b[i]);
    assert seq(26, i requires 0 <= i < 26 => Upper(a[i])) == seq(26, i requires 0 <= i < 26 => Upper(b[i]));
  }

  /** Only the zero pair is written as the initial revision. */
  lemma InitialOnlyZero(time: nat, entropy: nat)
    requires time < TIME_LIMIT && entropy < ENTROPY_LIMIT
    ensures UlidText(time, entropy) == INITIAL_REVISION <==> time == 0 && entropy == 0
  {
    InitialIsZero();
    UlidOrder(time, entropy, 0, 0);
  }
}

/** The revisions of the JetStream store: a ULID whose entropy packs (stream sequence, event index). */
module RevisionEncoder {
  import opened Wrappers
  import opened TextOrder
  import opened Numerals
  import opened Ulid

  datatype EncodeError = BigTime

  /** The ULID's sixteen bytes: six of time, eight of sequence, two of index, all big-endian. */
  function RevisionBytes(timestamp: nat, sequence: uint64, index: uint16): (bytes: seq<nat>)
    ensures |bytes| == 16
  {
    Digits(timestamp, 6, 256) + Digits(sequence, 8, 256) + Digits(index, 2, 256)
  }

  function RevisionText(timestamp: nat, sequence: uint64, index: uint16): Revision {
    Text(Value(RevisionBytes(timestamp, sequence, index), 256), 26, CROCKFORD)
  }

  /** binary.BigEndian.PutUint64 and PutUint16: the value's bytes, most significant first. */
  method PutBigEndian(buffer: array<byte>, offset: nat, width: nat, value: nat)
    requires offset + width <= buffer.Length
    modifies buffer
    ensures buffer[offset..offset + width] == Digits(value, width, 256)
    ensures forall i :: 0 <= i < buffer.Length && !(offset <= i < offset + width) ==> buffer[i] == old(buffer[i])
  {
    var rest := value;
    var i := width;
    while i > 0
      invariant 0 <= i <= width
      invariant Digits(value, width, 256) == Digits(rest, i, 256) + buffer[offset + i..offset + width]
      invariant forall k :: 0 <= k < buffer.Length && !(offset + i <= k < offset + width) ==>
        buffer[k] == old(buffer[k])
    {
      i := i - 1;
      ghost var written := buffer[offset + i + 1..offset + width];
      buffer[offset + i] := rest % 256;
      assert buffer[offset + i..offset + width] == [buffer[offset + i]] + written;
      rest := rest / 256;
    }
  }

  /** Writes the entropy buffer in place; only a time beyond 48 bits is refused. */
  method EncodeRevision(timestamp: uint64, sequence: uint64, index: uint16) returns (r: Result<Revision, EncodeError>)
    ensures r == if timestamp < TIME_LIMIT then Ok(RevisionText(timestamp, sequence, index)) else Err(BigTime)
  {
    if timestamp >= TIME_LIMIT {
      return Err(BigTime);
    }
    var time := Digits(timestamp, 6, 256);
    var entropy := new byte[10];
    PutBigEndian(entropy, 0, 8, sequence);
    ghost var high := entropy[0..8];
    PutBigEndian(entropy, 8, 2, index);
    assert entropy[0..8] == high;
    assert entropy[..] == entropy[0..8] + entropy[8..10];
    assert time + entropy[..] == RevisionBytes(timestamp, sequence, index);
    r := Ok(Text(Value(time + entropy[..], 256), 26, CROCKFORD));
  }

  /** The first eight bytes of the parsed ULID's entropy. */
  function DecodeSequenceNumber(revision: Revision): Result<nat, ParseError> {
    match ParseUlid(revision)
    case Err(e) => Err(e)
    case Ok(n) => Ok(Value(Digits(n, 16, 256)[6..14], 256))
  }

  lemma JoinedValue(high: seq<nat>, low: seq<nat>, power: nat)
    requires Pow(256, |low|) == power
    ensures Value(high + low, 256) == Value(high, 256) * power + Value(low, 256)
  {
    ValueOfJoin(high, low, 256);
  }

  lemma BytesValue(timestamp: nat, sequence: uint64, index: uint16)
    requires timestamp < TIME_LIMIT
    ensures Value(RevisionBytes(timestamp, sequence, index), 256)
         == (timestamp * 0x1_0000_0000_0000_0000 + sequence) * 0x1_0000 + index
  {
    BytePowers();
    DigitsValue(timestamp, 6, 256);
    DigitsValue(sequence, 8, 256);
    DigitsValue(index, 2, 256);
    var t, s := Digits(timestamp, 6, 256), Digits(sequence, 8, 256);
    JoinedValue(t, s, 0x1_0000_0000_0000_0000);
    JoinedValue(t + s, Digits(index, 2, 256), 0x1_0000);
  }

  /** The characters of a written revision: the base-32 digits of its time, sequence and index. */
  lemma RevisionCharacter(timestamp: nat, sequence: uint64, index: uint16, k: nat)
    requires timestamp < TIME_LIMIT && k < 26
    ensures |RevisionText(timestamp, sequence, index)| == 26 && Pow(32, 25 - k) > 0
    ensures RevisionText(timestamp, sequence, index)[k]
         == CrockfordDigit((timestamp * 0x1_0000_0000_0000_0000_0000 + sequence * 0x1_0000 + index)
                           / Pow(32, 25 - k) % 32)
  {
    RevisionNumber(timestamp, sequence, index);
    UlidCharacter(timestamp, sequence * 0x1_0000 + index, k);
  }

  /** The bytes write the packed number. */
  lemma RevisionNumber(timestamp: nat, sequence: uint64, index: uint16)
    requires timestamp < TIME_LIMIT
    ensures Value(RevisionBytes(timestamp, sequence, index), 256)
         == timestamp * ENTROPY_LIMIT + (sequence * 0x1_0000 + index)
    ensures RevisionText(timestamp, sequence, index) == UlidText(timestamp, sequence * 0x1_0000 + index)
  {
    BytesValue(timestamp, sequence, index);
  }

  /** Revision text compares as (timestamp, sequence, index) triples do, and no two triples share a text. */
  lemma RevisionOrder(t1: nat, s1: uint64, i1: uint16, t2: nat, s2: uint64, i2: uint16)
    requires t1 < TIME_LIMIT && t2 < TIME_LIMIT
    ensures Less(RevisionText(t1, s1, i1), RevisionText(t2, s2, i2)) <==>
      t1 < t2 || (t1 == t2 && (s1 < s2 || (s1 == s2 && i1 < i2)))
    ensures RevisionText(t1, s1, i1) == RevisionText(t2, s2, i2) <==> t1 == t2 && s1 == s2 && i1 == i2
  {
    RevisionNumber(t1, s1, i1);
    RevisionNumber(t2, s2, i2);
    UlidOrder(t1, s1 * 0x1_0000 + i1, t2, s2 * 0x1_0000 + i2);
  }

  /** A revision, as the store writes it, always parses to the number it packs. */
  lemma ParseRevision(timestamp: nat, sequence: uint64, index: uint16)
    requires timestamp < TIME_LIMIT
    ensures ParseUlid(RevisionText(timestamp, sequence, index))
         == Ok(Value(RevisionBytes(timestamp, sequence, index), 256))
  {
    RevisionNumber(timestamp, sequence, index);
    ParseUlidText(Value(RevisionBytes(timestamp, sequence, index), 256));
  }

  lemma ParseUlidText(n: nat)
    requires n < ULID_LIMIT
    ensures ParseUlid(Text(n, 26, CROCKFORD)) == Ok(n)
  {
    CrockfordAscends();
    Base32Powers();
    ParseText(n, 26, CROCKFORD);
    var text := Text(n, 26, CROCKFORD);
    LeadingDigit(n, 26, CROCKFORD, 7);
    UpperText(text);
  }

  lemma UpperText(text: string)
    requires |text| == 26 && forall c :: c in text ==> c in CROCKFORD
    ensures seq(26, i requires 0 <= i < 26 => Upper(text[i])) == text
  {
    forall i | 0 <= i < 26
      ensures Upper(text[i]) == text[i]
    {
      assert text[i] in text;
      UpperCrockford(text[i]);
    }
  }

  /** Decoding gives back exactly the encoded sequence, whatever the time and the index. */
  lemma DecodeEncoded(timestamp: nat, sequence: uint64, index: uint16)
    requires timestamp < TIME_LIMIT
    ensures DecodeSequenceNumber(RevisionText(timestamp, sequence, index)) == Ok(sequence)
  {
    BytePowers();
    ParseRevision(timestamp, sequence, index);
    var bytes := RevisionBytes(timestamp, sequence, index);
    ValueDigits(bytes, 256);
    assert bytes[6..14] == Digits(sequence, 8, 256);
    DigitsValue(sequence, 8, 256);
  }

  lemma Unpack(n: nat) returns (timestamp: nat, sequence: uint64, index: uint16)
    requires n < ULID_LIMIT
    ensures timestamp < TIME_LIMIT
    ensures RevisionBytes(timestamp, sequence, index) == Digits(n, 16, 256)
    ensures Value(RevisionBytes(timestamp, sequence, index), 256) == n
  {
    BytePowers();
    var bytes := Digits(n, 16, 256);
    DigitsValue(n, 16, 256);
    PartDigits(bytes, 0, 6);
    PartDigits(bytes, 6, 14);
    PartDigits(bytes, 14, 16);
    timestamp, sequence, index := Part(bytes, 0, 6), Part(bytes, 6, 14), Part(bytes, 14, 16);
    assert bytes[0..6] + bytes[6..14] + bytes[14..16] == bytes;
  }

  function Part(bytes: seq<nat>, from: nat, to: nat): nat
    requires from <= to <= |bytes|
  {
    Value(bytes[from..to], 256)
  }

  lemma PartDigits(bytes: seq<nat>, from: nat, to: nat)
    requires from <= to <= |bytes| && forall k :: 0 <= k < |bytes| ==> bytes[k] < 256
    ensures Part(bytes, from, to) < Pow(256, to - from)
    ensures Digits(Part(bytes, from, to), to - from, 256) == bytes[from..to]
  {
    ValueDigits(bytes[from..to], 256);
  }

  lemma ParsedText(text: string)
    requires ParseUlid(text).Ok? && forall c :: c in text ==> c in CROCKFORD
    ensures ParseUlid(text).value < ULID_LIMIT
    ensures Text(ParseUlid(text).value, 26, CROCKFORD) == text
  {
    UpperText(text);
    TextParse(text, CROCKFORD);
    BelowLimit(text);
  }

  /** Conversely every upper-case text the parser accepts is the revision of some triple with the decoded sequence. */
  lemma EncodeDecoded(text: string) returns (timestamp: nat, sequence: uint64, index: uint16)
    requires ParseUlid(text).Ok? && forall c :: c in text ==> c in CROCKFORD
    ensures timestamp < TIME_LIMIT
    ensures DecodeSequenceNumber(text) == Ok(sequence)
    ensures RevisionText(timestamp, sequence, index) == text
  {
    ParsedText(text);
    timestamp, sequence, index := Unpack(ParseUlid(text).value);
    DecodeEncoded(timestamp, sequence, index);
  }

  lemma BelowLimit(text: string)
    requires |text| == 26 && text[0] <= '7' && Parse(text, CROCKFORD).Some?
    ensures Parse(text, CROCKFORD).value < ULID_LIMIT
  {
    CrockfordAscends();
    ParsedBelow(text, CROCKFORD, 7);
    Base32Powers();
  }
}
