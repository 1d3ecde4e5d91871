/** What Base58 text looks like: which characters it is made of, and which text belongs to which bytes
    (picocoin/base58.c:21-204). */
module Base58Form {
  import opened Common
  import opened Digits
  import opened Base58

  /** The digits without 0, the capitals without I and O, the small letters without l. */
  function Rank(c: char): int
  {
    if '1' <= c <= '9' then c as int - '1' as int
    else if 'A' <= c <= 'H' then c as int - 'A' as int + 9
    else if 'J' <= c <= 'N' then c as int - 'J' as int + 17
    else if 'P' <= c <= 'Z' then c as int - 'P' as int + 22
    else if 'a' <= c <= 'k' then c as int - 'a' as int + 33
    else if 'm' <= c <= 'z' then c as int - 'm' as int + 44
    else -1
  }

  lemma RankIsInjective(a: char, b: char)
    requires Rank(a) == Rank(b) >= 0
    ensures a == b
  {
  }

  lemma FirstRanks(d: nat)
    requires d < 17
    ensures Rank(FirstCapitals()[d]) == d
  {
    assert d in {0, 1, 2, 3, 4, 5, 6, 7, 8, 9, 10, 11, 12, 13, 14, 15, 16};
  }

  lemma LastRanks(d: nat)
    requires d < 16
    ensures Rank(LastCapitals()[d]) == 17 + d
  {
    assert d in {0, 1, 2, 3, 4, 5, 6, 7, 8, 9, 10, 11, 12, 13, 14, 15};
  }

  lemma SmallRanks(d: nat)
    requires d < 25
    ensures Rank(Smalls()[d]) == 33 + d
  {
    if d < 13 {
      assert d in {0, 1, 2, 3, 4, 5, 6, 7, 8, 9, 10, 11, 12};
    } else {
      assert d in {13, 14, 15, 16, 17, 18, 19, 20, 21, 22, 23, 24};
    }
  }

  lemma RankOfChar(d: nat)
    requires d < 58
    ensures Rank(CharOf(d)) == d
  {
    hide Rank, FirstCapitals, LastCapitals, Smalls;
    if d < 17 {
      FirstRanks(d);
    } else if d < 33 {
      LastRanks(d - 17);
    } else {
      SmallRanks(d - 33);
    }
  }

  /** The alphabet, and the value of each of its characters. */
  lemma AlphabetIs(c: char)
    ensures InAlphabet(c) <==> Rank(c) >= 0
    ensures InAlphabet(c) ==> DigitOf(c) == Rank(c)
  {
    hide InAlphabet, DigitOf, CharOf, Rank;
    RankBound(c);
    if Rank(c) >= 0 {
      var k := Rank(c);
      RankOfChar(k);
      RankIsInjective(c, CharOf(k));
      CharRoundTrip(k);
    } else if InAlphabet(c) {
      DigitRoundTrip(c);
      RankOfChar(DigitOf(c));
    }
  }

  lemma RankBound(c: char)
    ensures Rank(c) < 58
  {
  }

  // ----- bytes and text -----

  /** Leading ones and value of an encoding. */
  lemma EncodingHas(data: seq<Byte>)
    ensures IsBase58(Encoding(data))
    ensures LeadingCount(Encoding(data), '1') == LeadingCount(data, 0)
    ensures Value(58, DigitsOf(Encoding(data))) == Value(256, data)
  {
    hide Value, ToDigits, CharOf, DigitOf, InAlphabet, LeadingCount;
    var z, v := LeadingCount(data, 0), Value(256, data);
    var body := ToDigits(58, v);
    ToDigitsProperties(58, v);
    var ds := Zeros(z) + body;
    var s := TextOf(ds);
    DigitsOfText(ds);
    LeadingZeros(58, z, body);
    forall i | 0 <= i < |ds|
      ensures s[i] == '1' <==> ds[i] == 0
    {
      OnlyZeroIsOne(ds[i]);
    }
    assert v == 0 ==> body == [] by { EmptyNumber(58); }
    LeadingCountIs(s, '1', z);
  }

  /** The text of some bytes is the one Base58 string with as many leading ones as they have leading zeros
      and with the same value, read in base 58, as they have in base 256. */
  lemma EncodingIs(data: seq<Byte>, s: string)
    requires IsBase58(s)
    ensures s == Encoding(data) <==>
            LeadingCount(s, '1') == LeadingCount(data, 0) && Value(58, DigitsOf(s)) == Value(256, data)
  {
    hide Value, Encoding, LeadingCount, DigitsOf, IsBase58, BytesOf;
    EncodingHas(data);
    if LeadingCount(s, '1') == LeadingCount(data, 0) && Value(58, DigitsOf(s)) == Value(256, data) {
      DecodingOfEncoding(data);
      assert Decoding(s) == Decoding(Encoding(data));
      EncodingOfDecoding(s);
    }
  }

  /** The checked text: type byte if there is one, payload, and the four checksum bytes of both. */
  lemma CheckedBytes(hash4: seq<Byte> -> Checksum, addrtype: Option<Byte>, data: seq<Byte>)
    ensures var payload := if addrtype.Some? then [addrtype.value] + data else data;
            DecodedText(CheckedText(hash4, addrtype, data)) == Some(payload + hash4(payload))
  {
    hide Encoding, DecodedText;
    var payload := TypeByte(addrtype) + data;
    EncodingIsCString(payload + hash4(payload));
    assert addrtype.None? ==> payload == data;
  }

  /** Whatever the checked decoder returns was under the checksum. */
  lemma CheckedMeans(hash4: seq<Byte> -> Checksum, wantType: bool, s: string)
    ensures CheckedDecoding(hash4, wantType, s).Some? <==>
            DecodedText(s).Some? && |DecodedText(s).value| >= 4 &&
            var d := DecodedText(s).value; hash4(d[..|d| - 4]) == d[|d| - 4..]
  {
    hide DecodedText;
  }

  // ----- white space -----

  /** The characters that may surround the text: tab, line feed, vertical tab, form feed, carriage return, blank. */
  lemma SpacesAre(c: char)
    ensures IsSpace(c) <==> c as int in {9, 10, 11, 12, 13, 32}
  {
  }
}
