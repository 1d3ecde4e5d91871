/** Base58 text for byte strings (picocoin/base58.c:21-204) on top of the conversion between byte
    strings and big integers (picocoin/bignum.c:13-50). OpenSSL's BIGNUM is a Dafny integer; its
    MPI format, a four-byte length before big-endian bytes whose top bit is the sign, is spelled out. */
module Base58 {
  import opened Common
  import opened Digits
  import opened Alphabets

  /** Lengths are handed on as C ints. */
  const MAX_LENGTH := 0x7FFF_FF00

  // ----- big integers and byte strings -----

  function LengthPrefix(n: nat): seq<Byte>
  {
    [n / 0x100_0000 % 256, n / 0x1_0000 % 256, n / 256 % 256, n % 256]
  }

  function PrefixValue(m: seq<Byte>): nat
    requires |m| >= 4
  {
    m[0] as int * 0x100_0000 + m[1] as int * 0x1_0000 + m[2] as int * 256 + m[3]
  }

  /** BN_mpi2bn: fails if the length does not match. */
  function MpiToNumber(m: seq<Byte>): Option<int>
  {
    if |m| < 4 || PrefixValue(m) != |m| - 4 then None
    else if |m| == 4 then Some(0)
    else if m[4] < 128 then Some(Value(256, m[4..]))
    else Some(0 - Value(256, [m[4] - 128] + m[5..]) as int)
  }

  /** BN_bn2mpi, for the non-negative numbers that occur here. */
  function NumberToMpi(v: nat): seq<Byte>
  {
    var ds := BytesOf(v);
    var body: seq<Byte> := if ds != [] && ds[0] >= 128 then [0] + ds else ds;
    LengthPrefix(|body|) + body
  }

  /** The big-endian bytes of a number, none for 0. */
  function BytesOf(v: nat): (bs: seq<Byte>)
  {
    ToDigitsProperties(256, v);
    ToDigits(256, v)
  }

  /** `bn_setvch`: little-endian bytes, sign in the top bit, to a number. */
  function SetVch(data: seq<Byte>): Option<int>
  {
    MpiToNumber(LengthPrefix(|data|) + Reverse(data))
  }

  /** `bn_getvch`: the MPI form without its length, little-endian. */
  function GetVch(v: nat): seq<Byte>
  {
    var m := NumberToMpi(v);
    if |m| <= 4 then [] else Reverse(m[4..])
  }

  lemma PrefixOfLength(n: nat)
    requires n < 0x1_0000_0000
    ensures PrefixValue(LengthPrefix(n)) == n
  {
    var a, b, c := n / 256, n / 0x1_0000, n / 0x100_0000;
    assert b == a / 256 && c == b / 256;
    assert c % 256 == c;
  }

  lemma ReverseOfPadded(data: seq<Byte>)
    ensures Reverse(Reverse(data) + [0]) == [0] + data
  {
  }

  lemma ValueOfPadded(data: seq<Byte>)
    ensures Value(256, [0] + data) == Value(256, data)
  {
    hide Value;
    assert [0] + data == Zeros(1) + data;
    LeadingZeros(256, 1, data);
  }

  /** A number in MPI form whose sign bit is clear. */
  lemma MpiOfPositive(body: seq<Byte>)
    requires 0 < |body| < 0x1_0000_0000 && body[0] < 128
    ensures MpiToNumber(LengthPrefix(|body|) + body) == Some(Value(256, body))
  {
    hide Value, LengthPrefix, PrefixValue;
    PrefixIsFour(|body|);
    PrefixOfLength(|body|);
    PrefixOfConcat(LengthPrefix(|body|), body);
    var m := LengthPrefix(|body|) + body;
    assert m[4..] == body;
  }

  /** A trailing zero byte keeps the number positive: the bytes are read as an unsigned number. */
  lemma SetVchIsValue(data: seq<Byte>)
    requires |data| <= MAX_LENGTH
    ensures SetVch(Reverse(data) + [0]) == Some(Value(256, data))
  {
    hide Value, MpiToNumber, LengthPrefix;
    ReverseOfPadded(data);
    ValueOfPadded(data);
    MpiOfPositive([0] + data);
  }

  lemma PrefixIsFour(n: nat)
    ensures |LengthPrefix(n)| == 4
  {
  }

  lemma PrefixOfConcat(a: seq<Byte>, b: seq<Byte>)
    requires |a| == 4
    ensures PrefixValue(a + b) == PrefixValue(a)
  {
  }

  /** The sign byte that the MPI form may add. */
  function DropSignByte(le: seq<Byte>): seq<Byte>
  {
    if |le| >= 2 && le[|le| - 1] == 0 && le[|le| - 2] >= 128 then le[..|le| - 1] else le
  }

  lemma GetVchIsBytes(v: nat)
    ensures DropSignByte(GetVch(v)) == Reverse(BytesOf(v))
  {
    hide ToDigits;
    var ds := BytesOf(v);
    ToDigitsProperties(256, v);
    var m := NumberToMpi(v);
    if ds != [] && ds[0] >= 128 {
      assert m[4..] == [0] + ds;
      assert Reverse([0] + ds) == Reverse(ds) + [0];
    } else {
      assert m[4..] == ds;
      if ds == [] {
        assert Reverse(ds) == [];
      } else {
        assert v > 0 by { if v == 0 { EmptyNumber(256); } }
      }
    }
  }

  // ----- text -----

  function Alphabet(): (a: string)
    ensures |a| == 58
  {
    Capitals() + Smalls()
  }

  function Capitals(): (a: string)
    ensures |a| == 33
  {
    FirstCapitals() + LastCapitals()
  }

  function FirstCapitals(): (a: string)
    ensures |a| == 17
  {
    "123456789ABCDEFGH"
  }

  function LastCapitals(): (a: string)
    ensures |a| == 16
  {
    "JKLMNPQRSTUVWXYZ"
  }

  function Smalls(): (a: string)
    ensures |a| == 25
  {
    "abcdefghijkmnopqrstuvwxyz"
  }

  lemma CapitalsAscend()
    ensures Ascending(Capitals()) && forall i :: 0 <= i < 33 ==> ' ' < Capitals()[i] < 'a'
  {
    hide FirstCapitals, LastCapitals;
    FirstCapitalsAscend();
    LastCapitalsAscend();
  }

  lemma FirstCapitalsAscend()
    ensures Ascending(FirstCapitals()) && forall i :: 0 <= i < 17 ==> ' ' < FirstCapitals()[i] < 'I'
  {
    var a := FirstCapitals();
    assert forall i :: 0 <= i < 16 ==> a[i] < a[i + 1];
    AscendingFromSteps(a);
  }

  lemma LastCapitalsAscend()
    ensures Ascending(LastCapitals()) && forall i :: 0 <= i < 16 ==> 'I' < LastCapitals()[i] < 'a'
  {
    var a := LastCapitals();
    assert forall i :: 0 <= i < 15 ==> a[i] < a[i + 1];
    AscendingFromSteps(a);
  }

  lemma SmallsAscend()
    ensures Ascending(Smalls()) && forall i :: 0 <= i < 25 ==> 'a' <= Smalls()[i]
  {
    var a := Smalls();
    assert forall i :: 0 <= i < 24 ==> a[i] < a[i + 1];
    AscendingFromSteps(a);
  }

  lemma AlphabetIsAscending()
    ensures Ascending(Alphabet()) && forall i :: 0 <= i < 58 ==> ' ' < Alphabet()[i]
  {
    hide Capitals, Smalls;
    CapitalsAscend();
    SmallsAscend();
  }

  predicate InAlphabet(c: char)
  {
    Find(Alphabet(), c, 0) >= 0
  }

  function DigitOf(c: char): (d: nat)
    requires InAlphabet(c)
    ensures d < 58
  {
    Find(Alphabet(), c, 0)
  }

  function CharOf(d: nat): char
    requires d < 58
  {
    Alphabet()[d]
  }

  lemma CharRoundTrip(d: nat)
    requires d < 58
    ensures InAlphabet(CharOf(d)) && DigitOf(CharOf(d)) == d
  {
    hide Alphabet, Find;
    AlphabetIsAscending();
    FindLetter(Alphabet(), d, 0);
  }

  lemma DigitRoundTrip(c: char)
    requires InAlphabet(c)
    ensures CharOf(DigitOf(c)) == c
  {
    hide Alphabet;
  }

  lemma OneIsZero()
    ensures InAlphabet('1') && DigitOf('1') == 0 && CharOf(0) == '1'
  {
    hide Find, InAlphabet, DigitOf;
    CharRoundTrip(0);
  }

  /** C's isspace, in the C locale. */
  predicate IsSpace(c: char)
  {
    c == ' ' || 9 <= c as int <= 13
  }

  lemma SpaceIsNoLetter(c: char)
    requires InAlphabet(c)
    ensures !IsSpace(c)
  {
    hide Alphabet;
    AlphabetIsAscending();
  }

  predicate IsBase58(s: string)
  {
    forall i :: 0 <= i < |s| ==> InAlphabet(s[i])
  }

  predicate AllSpaces(s: string)
  {
    forall i :: 0 <= i < |s| ==> IsSpace(s[i])
  }

  function TextOf(ds: seq<nat>): (s: string)
    requires AreDigits(58, ds)
    ensures |s| == |ds|
  {
    seq(|ds|, i requires 0 <= i < |ds| => CharOf(ds[i]))
  }

  function DigitsOf(s: string): (ds: seq<nat>)
    requires IsBase58(s)
    ensures |ds| == |s| && AreDigits(58, ds)
  {
    seq(|s|, i requires 0 <= i < |s| => DigitOf(s[i]))
  }

  lemma TextOfDigits(s: string)
    requires IsBase58(s)
    ensures TextOf(DigitsOf(s)) == s
  {
    hide InAlphabet, DigitOf, CharOf;
    forall i | 0 <= i < |s|
      ensures TextOf(DigitsOf(s))[i] == s[i]
    {
      DigitRoundTrip(s[i]);
    }
  }

  lemma DigitsOfText(ds: seq<nat>)
    requires AreDigits(58, ds)
    ensures IsBase58(TextOf(ds)) && DigitsOf(TextOf(ds)) == ds
  {
    hide InAlphabet, DigitOf, CharOf;
    forall i | 0 <= i < |ds|
      ensures InAlphabet(TextOf(ds)[i]) && DigitOf(TextOf(ds)[i]) == ds[i]
    {
      CharRoundTrip(ds[i]);
    }
  }

  /** How many elements at the front equal x. */
  function LeadingCount<T(==)>(s: seq<T>, x: T): (n: nat)
    ensures n <= |s| && (forall i :: 0 <= i < n ==> s[i] == x) && (n < |s| ==> s[n] != x)
  {
    if s != [] && s[0] == x then 1 + LeadingCount(s[1..], x) else 0
  }

  lemma {:induction false} LeadingCountIs<T>(s: seq<T>, x: T, n: nat)
    requires n <= |s| && (forall i :: 0 <= i < n ==> s[i] == x) && (n < |s| ==> s[n] != x)
    ensures LeadingCount(s, x) == n
  {
    if n > 0 {
      LeadingCountIs(s[1..], x, n - 1);
    }
  }

  // ----- what the codec computes -----

  /** A 1 for each leading zero byte, then the number in base 58. */
  function Encoding(data: seq<Byte>): string
  {
    ToDigitsProperties(58, Value(256, data));
    TextOf(Zeros(LeadingCount(data, 0)) + ToDigits(58, Value(256, data)))
  }

  /** A zero byte for each leading 1, then the bytes of the number. */
  function Decoding(s: string): seq<Byte>
    requires IsBase58(s)
  {
    var zeros: seq<Byte> := Zeros(LeadingCount(s, '1'));
    zeros + BytesOf(Value(58, DigitsOf(s)))
  }

  lemma ValueOfLeadingZeros(base: nat, ds: seq<nat>, z: nat)
    requires z <= |ds| && forall i :: 0 <= i < z ==> ds[i] == 0
    ensures ds == Zeros(z) + ds[z..] && Value(base, ds) == Value(base, ds[z..])
  {
    hide Value;
    assert ds == Zeros(z) + ds[z..];
    LeadingZeros(base, z, ds[z..]);
  }

  lemma OnlyZeroIsOne(d: nat)
    requires d < 58
    ensures CharOf(d) == '1' <==> d == 0
  {
    hide InAlphabet, DigitOf, CharOf;
    CharRoundTrip(d);
    OneIsZero();
  }

  /** Decoding undoes encoding, for every byte string. */
  lemma DecodingOfEncoding(data: seq<Byte>)
    ensures IsBase58(Encoding(data)) && Decoding(Encoding(data)) == data
  {
    hide Value, ToDigits, CharOf, DigitOf, InAlphabet, LeadingCount;
    var z, v := LeadingCount(data, 0), Value(256, data);
    var body := ToDigits(58, v);
    ToDigitsProperties(58, v);
    var ds := Zeros(z) + body;
    var s := TextOf(ds);
    DigitsOfText(ds);
    LeadingZeros(58, z, body);
    forall i | 0 <= i < |ds|
      ensures s[i] == '1' <==> ds[i] == 0
    {
      OnlyZeroIsOne(ds[i]);
    }
    assert v == 0 ==> body == [] by { EmptyNumber(58); }
    LeadingCountIs(s, '1', z);
    ValueOfLeadingZeros(256, data, z);
    ToDigitsOfValue(256, data[z..]);
  }

  /** Encoding undoes decoding, for every string over the alphabet. */
  lemma EncodingOfDecoding(s: string)
    requires IsBase58(s)
    ensures Encoding(Decoding(s)) == s
  {
    hide Value, ToDigits, CharOf, DigitOf, InAlphabet, LeadingCount;
    var z, ds := LeadingCount(s, '1'), DigitsOf(s);
    var v := Value(58, ds);
    forall i | 0 <= i < |s|
      ensures s[i] == '1' <==> ds[i] == 0
    {
      OnlyZeroIsOne(ds[i]);
      DigitRoundTrip(s[i]);
    }
    ValueOfLeadingZeros(58, ds, z);
    ToDigitsOfValue(58, ds[z..]);
    var data := Decoding(s);
    ToDigitsProperties(256, v);
    assert v == 0 ==> BytesOf(v) == [] by { EmptyNumber(256); }
    LeadingCountIs(data, 0, z);
    LeadingZeros(256, z, BytesOf(v));
    TextOfDigits(s);
  }

  // ----- the length of the text -----

  lemma PowAdd(base: nat, m: nat, n: nat)
    ensures Pow(base, m + n) == Pow(base, m) * Pow(base, n)
  {
    if m > 0 {
      PowAdd(base, m - 1, n);
      MulAssoc(base, Pow(base, m - 1), Pow(base, n));
    }
  }

  lemma MulAssoc(a: nat, b: nat, c: nat)
    ensures a * (b * c) == a * b * c
  {
  }

  lemma PowValues()
    ensures Pow(58, 1) == 58 && Pow(58, 2) == 3364 && Pow(58, 3) == 195112 && Pow(58, 5) == 656356768
    ensures Pow(58, 6) == 38068692544 && Pow(58, 7) == 2207984167552 && Pow(58, 9) == 7427658739644928
    ensures Pow(58, 10) == 430804206899405824 && Pow(58, 11) == 24986644000165537792
  {
    assert Pow(58, 4) == 11316496;
    assert Pow(58, 8) == 128063081718016;
  }

  lemma Pow256Values()
    ensures Pow(256, 0) == 1 && Pow(256, 1) == 256 && Pow(256, 2) == 65536 && Pow(256, 3) == 16777216
    ensures Pow(256, 4) == 4294967296 && Pow(256, 5) == 1099511627776 && Pow(256, 6) == 281474976710656
    ensures Pow(256, 7) == 72057594037927936 && Pow(256, 8) == 18446744073709551616
  {
  }

  lemma MulBoth(a: nat, b: nat, c: nat, d: nat)
    requires a <= b && c <= d
    ensures a * c <= b * d
  {
    MulMono(a, b, c);
    MulMono(c, d, b);
  }

  /** Eleven Base58 digits hold eight bytes, so 11m/8 + 1 digits hold m bytes. */
  lemma {:induction false} DigitsSuffice(m: nat)
    ensures Pow(256, m) <= Pow(58, 11 * m / 8 + 1)
  {
    hide Pow;
    PowValues();
    Pow256Values();
    if m >= 8 {
      DigitsSuffice(m - 8);
      PowAdd(256, m - 8, 8);
      PowAdd(58, 11 * (m - 8) / 8 + 1, 11);
      assert 11 * m / 8 + 1 == 11 * (m - 8) / 8 + 1 + 11;
      MulBoth(Pow(256, m - 8), Pow(58, 11 * (m - 8) / 8 + 1), Pow(256, 8), Pow(58, 11));
    }
  }

  lemma DigitCountOfBytes(data: seq<Byte>)
    ensures |ToDigits(58, Value(256, data))| <= 11 * |data| / 8 + 1
  {
    hide Pow, Value, ToDigits;
    ValueBound(256, data);
    DigitsSuffice(|data|);
    DigitCount(58, Value(256, data), 11 * |data| / 8 + 1);
  }

  /** The buffer that `base58_encode` reserves, n * 138 / 100 + 1, is always large enough. */
  lemma EncodingLength(data: seq<Byte>)
    ensures |Encoding(data)| <= |data| * 138 / 100 + 1
  {
    hide Value, ToDigits, LeadingCount, CharOf;
    var z := LeadingCount(data, 0);
    ValueOfLeadingZeros(256, data, z);
    DigitCountOfBytes(data[z..]);
    ToDigitsProperties(58, Value(256, data));
  }

  // ----- the code -----

  /** `base58_encode`. */
  method EncodeBytes(data: seq<Byte>) returns (text: string)
    requires |data| <= MAX_LENGTH
    ensures text == Encoding(data)
  {
    hide Value, ToDigits, CharOf, LeadingCount, SetVch;
    var swapbuf: seq<Byte> := Reverse(data) + [0];
    SetVchIsValue(data);
    ghost var v := Value(256, data);
    var bn: nat := SetVch(swapbuf).value;
    var rs := "";
    ghost var ds: seq<nat> := [];
    assert ToDigits(58, v) == ToDigits(58, bn) + Reverse(ds);
    while bn > 0
      invariant AreDigits(58, ds) && rs == TextOf(ds)
      invariant ToDigits(58, v) == ToDigits(58, bn) + Reverse(ds)
    {
      DigitSplit(bn);
      ReverseAppend(ds, bn % 58);
      assert ToDigits(58, bn / 58) + [bn % 58] + Reverse(ds) == ToDigits(58, bn / 58) + ([bn % 58] + Reverse(ds));
      rs, ds := rs + [CharOf(bn % 58)], ds + [bn % 58];
      bn := bn / 58;
    }
    EmptyNumber(58);
    assert ToDigits(58, v) == Reverse(ds);
    var i := 0;
    OneIsZero();
    while i < |data| && data[i] == 0
      invariant 0 <= i <= |data| && forall k :: 0 <= k < i ==> data[k] == 0
      invariant AreDigits(58, ds + Zeros(i)) && rs == TextOf(ds + Zeros(i))
    {
      rs := rs + [CharOf(0)];
      i := i + 1;
    }
    LeadingCountIs(data, 0, i);
    text := Reverse(rs);
    assert Reverse(ds + Zeros(i)) == Zeros(i) + Reverse(ds);
  }

  lemma DigitSplit(n: nat)
    requires n > 0
    ensures ToDigits(58, n) == ToDigits(58, n / 58) + [n % 58] && n / 58 < n && n % 58 < 58
  {
  }

  function DropSpaces(s: string): string
  {
    if s != "" && IsSpace(s[0]) then DropSpaces(s[1..]) else s
  }

  /** How many characters at the front belong to the alphabet. */
  function LetterCount(s: string): (n: nat)
    ensures n <= |s| && IsBase58(s[..n]) && (n < |s| ==> !InAlphabet(s[n]))
  {
    if s != "" && InAlphabet(s[0]) then
      var n := LetterCount(s[1..]);
      OneMoreLetter(s, n);
      n + 1
    else 0
  }

  lemma OneMoreLetter(s: string, n: nat)
    requires s != "" && InAlphabet(s[0]) && n < |s| && IsBase58(s[1..][..n])
    ensures IsBase58(s[..n + 1])
  {
    hide InAlphabet;
    assert s[..n + 1] == [s[0]] + s[1..][..n];
  }

  /** What `base58_decode` makes of a C string: surrounding white space is skipped, any other
      character outside the alphabet is an error. */
  function DecodedText(s: string): Option<seq<Byte>>
  {
    var t := DropSpaces(s);
    var n := LetterCount(t);
    if AllSpaces(t[n..]) then Some(Decoding(t[..n])) else None
  }

  lemma {:induction false} DropSpacesOf(a: string, s: string)
    requires AllSpaces(a) && (s == "" || !IsSpace(s[0]))
    ensures DropSpaces(a + s) == s
  {
    if a == "" {
      assert a + s == s;
    } else {
      assert (a + s)[1..] == a[1..] + s;
      DropSpacesOf(a[1..], s);
    }
  }

  lemma {:induction false} LetterCountIs(s: string, n: nat)
    requires n <= |s| && IsBase58(s[..n]) && (n < |s| ==> !InAlphabet(s[n]))
    ensures LetterCount(s) == n
  {
    hide InAlphabet;
    if n > 0 {
      assert InAlphabet(s[..n][0]);
      var rest := s[1..][..n - 1];
      forall i | 0 <= i < |rest|
        ensures InAlphabet(rest[i])
      {
        assert InAlphabet(s[..n][i + 1]);
      }
      LetterCountIs(s[1..], n - 1);
    }
  }

  /** White space around a Base58 string makes no difference. */
  lemma SpacesAreIgnored(a: string, s: string, b: string)
    requires AllSpaces(a) && IsBase58(s) && AllSpaces(b)
    ensures DecodedText(a + s + b) == Some(Decoding(s))
  {
    hide InAlphabet, IsSpace, Decoding;
    if s == "" {
      assert a + s + b == (a + b) + "";
      assert AllSpaces(a + b);
      DropSpacesOf(a + b, "");
      LetterCountIs("", 0);
      assert ""[..0] == s;
    } else {
      var t := s + b;
      assert a + s + b == a + t;
      SpaceIsNoLetter(t[0]);
      DropSpacesOf(a, t);
      assert t[..|s|] == s && t[|s|..] == b;
      if b != "" {
        if InAlphabet(b[0]) {
          SpaceIsNoLetter(b[0]);
        }
      }
      LetterCountIs(t, |s|);
    }
  }

  lemma Reattach(s: string, a: string, b: string)
    requires s != "" && s[1..] == a + b
    ensures s == [s[0]] + a + b
  {
    assert s == [s[0]] + s[1..];
  }

  lemma {:induction false} DroppedSpaces(s: string) returns (a: string)
    ensures AllSpaces(a) && s == a + DropSpaces(s)
  {
    hide IsSpace;
    if s != "" && IsSpace(s[0]) {
      var a' := DroppedSpaces(s[1..]);
      a := [s[0]] + a';
      Reattach(s, a', DropSpaces(s[1..]));
    } else {
      a := "";
    }
  }

  /** Nothing else is accepted. */
  lemma AcceptedForm(text: string) returns (a: string, s: string, b: string)
    requires DecodedText(text).Some?
    ensures AllSpaces(a) && IsBase58(s) && AllSpaces(b) && text == a + s + b
  {
    hide InAlphabet, IsSpace, Decoding, AllSpaces, IsBase58, DropSpaces, LetterCount;
    a := DroppedSpaces(text);
    var t := DropSpaces(text);
    var n := LetterCount(t);
    s, b := t[..n], t[n..];
    Joined(text, a, t, n);
  }

  lemma Joined(text: string, a: string, t: string, n: nat)
    requires text == a + t && n <= |t|
    ensures text == a + t[..n] + t[n..]
  {
    assert t == t[..n] + t[n..];
  }

  lemma {:induction false} LeadingOnes(t: string, n: nat)
    requires n <= |t| && (n < |t| ==> t[n] != '1')
    ensures LeadingCount(t, '1') == LeadingCount(t[..n], '1')
  {
    hide LeadingCount;
    var z := LeadingCount(t[..n], '1');
    assert forall i :: 0 <= i < z ==> t[i] == t[..n][i];
    LeadingCountIs(t, '1', z);
  }

  method SkipSpaces(t: string, p: nat) returns (q: nat)
    requires p <= |t|
    ensures p <= q <= |t| && AllSpaces(t[p..q]) && (q < |t| ==> !IsSpace(t[q]))
  {
    q := p;
    while q < |t| && IsSpace(t[q])
      invariant p <= q <= |t| && AllSpaces(t[p..q])
    {
      assert t[p..q + 1] == t[p..q] + [t[q]];
      q := q + 1;
    }
  }

  /** The digit loop of `base58_decode`. */
  method ReadDigits(t: string) returns (p: nat, bn: nat)
    ensures p <= |t| && IsBase58(t[..p]) && (p < |t| ==> !InAlphabet(t[p]))
    ensures bn == Value(58, DigitsOf(t[..p]))
  {
    hide InAlphabet, DigitOf, Value;
    p, bn := 0, 0;
    EmptyNumber(58);
    while p < |t| && InAlphabet(t[p])
      invariant 0 <= p <= |t| && IsBase58(t[..p])
      invariant bn == Value(58, DigitsOf(t[..p]))
    {
      assert t[..p + 1] == t[..p] + [t[p]];
      AppendDigit(58, DigitsOf(t[..p]), DigitOf(t[p]));
      assert DigitsOf(t[..p + 1]) == DigitsOf(t[..p]) + [DigitOf(t[p])];
      bn := bn * 58 + DigitOf(t[p]);
      p := p + 1;
    }
  }

  /** `base58_decode`, on a C string: the end of `s` is its terminating NUL. */
  method DecodeText(s: string) returns (ret: Option<seq<Byte>>)
    requires '\0' !in s
    ensures ret == DecodedText(s)
  {
    hide InAlphabet, IsSpace, DigitOf, Value, LeadingCount, GetVch, DropSignByte, BytesOf, LetterCount, DropSpaces;
    var start := SkipSpaces(s, 0);
    var t := s[start..];
    assert s == s[0..start] + t;
    DropSpacesOf(s[0..start], t);
    var p, bn := ReadDigits(t);
    LetterCountIs(t, p);
    var q := SkipSpaces(t, p);
    if q != |t| {
      assert t[p..][q - p] == t[q];
      return None;
    }
    assert t[p..q] == t[p..];
    var tmp := DropSignByte(GetVch(bn));
    GetVchIsBytes(bn);
    assert Reverse(tmp) == BytesOf(bn);
    var leading: nat := 0;
    while leading < |t| && t[leading] == '1'
      invariant leading <= |t| && forall i :: 0 <= i < leading ==> t[i] == '1'
    {
      leading := leading + 1;
    }
    LeadingCountIs(t, '1', leading);
    OneIsZero();
    LeadingOnes(t, p);
    var zeros: seq<Byte> := Zeros(leading);
    ret := Some(zeros + Reverse(tmp));
  }

  // ----- the checked form -----

  type Checksum = s: seq<Byte> | |s| == 4 witness [0, 0, 0, 0]

  function TypeByte(addrtype: Option<Byte>): seq<Byte>
  {
    if addrtype.Some? then [addrtype.value] else []
  }

  /** `base58_encode_check`; `hash4` stands for `bu_Hash4`. */
  method EncodeCheck(hash4: seq<Byte> -> Checksum, addrtype: Option<Byte>, data: seq<Byte>) returns (text: string)
    requires |data| + 5 <= MAX_LENGTH
    ensures text == CheckedText(hash4, addrtype, data)
  {
    var s := TypeByte(addrtype) + data;
    text := EncodeBytes(s + hash4(s));
  }

  function CheckedText(hash4: seq<Byte> -> Checksum, addrtype: Option<Byte>, data: seq<Byte>): string
  {
    var s := TypeByte(addrtype) + data;
    Encoding(s + hash4(s))
  }

  /** `base58_decode_check`: the type byte, if one was asked for, and the payload. */
  method DecodeCheck(hash4: seq<Byte> -> Checksum, wantType: bool, s: string)
    returns (r: Option<(Byte, seq<Byte>)>)
    requires '\0' !in s
    ensures r == CheckedDecoding(hash4, wantType, s)
  {
    hide DecodedText;
    var d := DecodeText(s);
    if d.None? || |d.value| < 4 {
      return None;
    }
    var n := |d.value| - 4;
    if hash4(d.value[..n]) != d.value[n..] {
      return None;
    }
    var payload := d.value[..n];
    if wantType {
      if payload == [] {
        return Some((0, []));
      }
      return Some((payload[0], payload[1..]));
    }
    r := Some((0, payload));
  }

  function CheckedDecoding(hash4: seq<Byte> -> Checksum, wantType: bool, s: string): Option<(Byte, seq<Byte>)>
  {
    match DecodedText(s)
    case None => None
    case Some(d) => Unwrapped(hash4, wantType, d)
  }

  /** Checks and removes the last four bytes, then splits off the type byte. */
  function Unwrapped(hash4: seq<Byte> -> Checksum, wantType: bool, d: seq<Byte>): Option<(Byte, seq<Byte>)>
  {
    if |d| < 4 || hash4(d[..|d| - 4]) != d[|d| - 4..] then None
    else Split(wantType, d[..|d| - 4])
  }

  function Split(wantType: bool, payload: seq<Byte>): Option<(Byte, seq<Byte>)>
  {
    if wantType && payload != [] then Some((payload[0], payload[1..])) else Some((0, payload))
  }

  lemma UnwrappedOf(hash4: seq<Byte> -> Checksum, wantType: bool, s: seq<Byte>)
    ensures Unwrapped(hash4, wantType, s + hash4(s)) == Split(wantType, s)
  {
    hide Split;
    var d := s + hash4(s);
    assert d[..|d| - 4] == s && d[|d| - 4..] == hash4(s);
  }

  lemma EncodingIsCString(data: seq<Byte>)
    ensures DecodedText(Encoding(data)) == Some(data)
  {
    hide Encoding, Decoding;
    DecodingOfEncoding(data);
    SpacesAreIgnored("", Encoding(data), "");
    assert "" + Encoding(data) + "" == Encoding(data);
  }

  /** The checked pair returns type byte and payload. */
  lemma CheckedRoundTrip(hash4: seq<Byte> -> Checksum, addrtype: Option<Byte>, data: seq<Byte>)
    ensures CheckedDecoding(hash4, addrtype.Some?, CheckedText(hash4, addrtype, data))
         == Some((if addrtype.Some? then addrtype.value else 0, data))
  {
    hide Encoding, DecodedText, Unwrapped;
    var s := TypeByte(addrtype) + data;
    EncodingIsCString(s + hash4(s));
    UnwrappedOf(hash4, addrtype.Some?, s);
    if addrtype.Some? {
      assert s[1..] == data;
    } else {
      assert s == data;
    }
  }

  lemma DecodedBytes(hash4: seq<Byte> -> Checksum, wantType: bool, s: string)
    requires IsBase58(s) && CheckedDecoding(hash4, wantType, s).Some?
    ensures var d := Decoding(s);
            && |d| >= 4 && s == Encoding(d) && d == d[..|d| - 4] + hash4(d[..|d| - 4])
            && CheckedDecoding(hash4, wantType, s) == Split(wantType, d[..|d| - 4])
  {
    hide Encoding, Decoding, DecodedText, Split;
    SpacesAreIgnored("", s, "");
    assert "" + s + "" == s;
    var d := Decoding(s);
    assert d == d[..|d| - 4] + d[|d| - 4..];
    EncodingOfDecoding(s);
  }

  /** Whatever the checked decoder accepts, over the bare alphabet, is a text the encoder writes; if a type
      byte was asked for, exactly if there was one. */
  lemma CheckedTextIsUnique(hash4: seq<Byte> -> Checksum, wantType: bool, s: string)
    requires IsBase58(s) && CheckedDecoding(hash4, wantType, s).Some?
    ensures var r := CheckedDecoding(hash4, wantType, s).value;
            if wantType then s == CheckedText(hash4, Some(r.0), r.1) <==> |Decoding(s)| > 4
            else s == CheckedText(hash4, None, r.1)
  {
    hide Encoding, Decoding, CheckedDecoding;
    DecodedBytes(hash4, wantType, s);
    var d := Decoding(s);
    var payload := d[..|d| - 4];
    if wantType && payload == [] {
      var other := [0] + [];
      DecodingOfEncoding(other + hash4(other));
    } else if wantType {
      assert [payload[0]] + payload[1..] == payload;
    } else {
      assert TypeByte(None) + payload == payload;
    }
  }
}
