/** The `NxtAddress` object (js/jay.ext.js:10): reading an address or a decimal account number,
    printing an address, and getting the account number back. */
module NxtAddress {
  import opened Common
  import opened Gf32
  import opened NxtCode
  import opened Digits
  import opened Alphabets

  // ----- account numbers -----

  predicate IsDigitChar(c: char)
  {
    '0' <= c <= '9'
  }

  function DigitOf(c: char): (d: nat)
    requires IsDigitChar(c)
    ensures d < 10
  {
    c as nat - '0' as nat
  }

  function CharOf(d: nat): (c: char)
    requires d < 10
    ensures IsDigitChar(c) && DigitOf(c) == d
  {
    (d + '0' as nat) as char
  }

  predicate AllDigitChars(r: string)
  {
    forall i :: 0 <= i < |r| ==> IsDigitChar(r[i])
  }

  /** The regular expression ^\d{1,20}$. */
  predicate IsDecimal(r: string)
  {
    1 <= |r| <= 20 && AllDigitChars(r)
  }

  /** Twenty-digit numbers are taken only if they start with 1. */
  predicate IsAccepted(r: string)
    requires IsDecimal(r)
  {
    !(|r| == 20 && r[0] != '1')
  }

  function DigitsOf(r: string): (ds: seq<nat>)
    requires AllDigitChars(r)
    ensures |ds| == |r| && AreDigits(10, ds)
    ensures forall i :: 0 <= i < |r| ==> ds[i] == DigitOf(r[i])
  {
    seq(|r|, i requires 0 <= i < |r| => DigitOf(r[i]))
  }

  function NumberOf(r: string): nat
    requires AllDigitChars(r)
  {
    Value(10, DigitsOf(r))
  }

  function TextOf(ds: seq<nat>): (r: string)
    requires AreDigits(10, ds)
    ensures |r| == |ds| && AllDigitChars(r) && DigitsOf(r) == ds
  {
    seq(|ds|, i requires 0 <= i < |ds| => CharOf(ds[i]))
  }

  /** The usual decimal notation, without leading zeros. */
  function Decimal(n: nat): string
  {
    NumeralProperties(10, n);
    TextOf(Numeral(10, n))
  }

  /** The 13 message symbols for the base-32 digits `e`, least significant first, padded with 0. */
  function Pad(e: seq<nat>): (m: seq<bv5>)
    requires AreDigits(32, e)
    ensures |m| == MESSAGE_LENGTH
  {
    seq(MESSAGE_LENGTH, o requires 0 <= o < MESSAGE_LENGTH => if o < |e| then e[o] as bv5 else 0)
  }

  /** The message that carries account number n. */
  function MessageOf(n: nat): (m: seq<bv5>)
    ensures |m| == MESSAGE_LENGTH
  {
    NumeralProperties(32, n);
    Pad(Reverse(Numeral(32, n)))
  }

  function SymbolValues(m: seq<bv5>): (ds: seq<nat>)
    ensures |ds| == |m| && AreDigits(32, ds)
  {
    seq(|m|, i requires 0 <= i < |m| => m[i] as nat)
  }

  /** The account number a word carries: its first 13 symbols, least significant first. */
  function AccountNumber(w: seq<bv5>): nat
    requires |w| >= MESSAGE_LENGTH
  {
    Value(32, Reverse(SymbolValues(w[..MESSAGE_LENGTH])))
  }

  lemma FiveBits(x: nat)
    requires x < 32
    ensures (x as bv5) as nat == x
  {
  }

  /** Thirteen symbols are enough for every number below 32^13. */
  lemma AccountNumberOfMessage(n: nat)
    requires n < Pow(32, MESSAGE_LENGTH)
    ensures AccountNumber(MessageOf(n)) == n
  {
    hide Pow, Value, ToDigits;
    var ds := Numeral(32, n);
    NumeralProperties(32, n);
    DigitCount(32, n, MESSAGE_LENGTH);
    var m := MessageOf(n);
    var padding := MESSAGE_LENGTH - |ds|;
    assert m[..MESSAGE_LENGTH] == m;
    var e := Reverse(ds);
    forall i | 0 <= i < MESSAGE_LENGTH
      ensures SymbolValues(m)[i] == if i < |e| then e[i] else 0
    {
      if i < |e| {
        FiveBits(e[i]);
      }
    }
    assert Reverse(SymbolValues(m)) == Zeros(padding) + ds;
    LeadingZeros(32, padding, ds);
  }

  lemma PowTen(n: nat)
    requires n <= 19
    ensures Pow(10, n) <= 10000000000000000000
    decreases 19 - n
  {
    if n < 19 {
      PowTen(n + 1);
      PowPositive(10, n);
    } else {
      assert Pow(10, 5) == 100000;
      assert Pow(10, 10) == 10000000000;
      assert Pow(10, 15) == 1000000000000000;
    }
  }

  lemma Pow32()
    ensures Pow(32, 13) == 36893488147419103232
  {
    assert Pow(32, 5) == 33554432;
    assert Pow(32, 9) == 35184372088832;
  }

  /** Every accepted decimal fits into 13 symbols, so no digit of it is cut off. */
  lemma AcceptedFits(r: string)
    requires IsDecimal(r) && IsAccepted(r)
    ensures NumberOf(r) < Pow(32, MESSAGE_LENGTH)
  {
    hide Pow, Value;
    Pow32();
    var ds := DigitsOf(r);
    if |r| < 20 {
      ValueBound(10, ds);
      PowTen(|ds|);
    } else {
      assert ds == [1] + ds[1..];
      LeadingDigit(1, ds[1..]);
      ValueBound(10, ds[1..]);
      PowTen(19);
    }
  }

  lemma {:induction false} LeadingDigit(d: nat, ds: seq<nat>)
    ensures Value(10, [d] + ds) == d * Pow(10, |ds|) + Value(10, ds)
  {
    var all := [d] + ds;
    if ds == [] {
      assert all[..0] == [];
    } else {
      assert all[..|all| - 1] == [d] + ds[..|ds| - 1];
      LeadingDigit(d, ds[..|ds| - 1]);
    }
  }

  /** The number survives the trip through base 32 for every accepted decimal. */
  lemma DecimalRoundTrip(r: string)
    requires IsDecimal(r) && IsAccepted(r)
    ensures AccountNumber(Encode(MessageOf(NumberOf(r)))) == NumberOf(r)
  {
    hide Pow, Value, Run;
    AcceptedFits(r);
    AccountNumberOfMessage(NumberOf(r));
    var m := MessageOf(NumberOf(r));
    assert Encode(m)[..MESSAGE_LENGTH] == m[..MESSAGE_LENGTH];
  }

  /** A decimal without leading zeros is its own canonical form. */
  lemma CanonicalDecimal(r: string)
    requires r != "" && AllDigitChars(r) && (r[0] != '0' || r == "0")
    ensures Decimal(NumberOf(r)) == r
  {
    var ds := DigitsOf(r);
    if r == "0" {
      AppendDigit(10, [], 0);
      assert ds == [] + [0];
    } else {
      ToDigitsOfValue(10, ds);
    }
    assert TextOf(ds) == r;
  }

  // ----- printed addresses -----

  function Alphabet(): (a: string)
    ensures |a| == 32
  {
    "23456789ABCDEFGHJKLMNPQRSTUVWXYZ"
  }

  lemma AlphabetIsAscending()
    ensures Ascending(Alphabet())
  {
    var a := Alphabet();
    assert forall i :: 0 <= i < 31 ==> a[i] < a[i + 1];
    AscendingFromSteps(a);
  }

  /** Where the t-th printed symbol sits in the word: the permutation `d`. */
  function Slot(t: nat): (i: nat)
    requires t < WORD_LENGTH
    ensures i < WORD_LENGTH
  {
    [3, 2, 1, 0, 7, 6, 5, 4, 13, 14, 15, 16, 12, 8, 9, 10, 11][t]
  }

  lemma SlotIsInvolution(t: nat)
    requires t < WORD_LENGTH
    ensures Slot(Slot(t)) == t
  {
  }

  /** From word order to printed order, and back. */
  function Permute(w: seq<bv5>): (r: seq<bv5>)
    requires |w| == WORD_LENGTH
    ensures |r| == WORD_LENGTH
  {
    seq(WORD_LENGTH, t requires 0 <= t < WORD_LENGTH => w[Slot(t)])
  }

  lemma PermuteTwice(w: seq<bv5>)
    requires |w| == WORD_LENGTH
    ensures Permute(Permute(w)) == w
  {
    hide Slot;
    forall t | 0 <= t < WORD_LENGTH
      ensures Permute(Permute(w))[t] == w[t]
    {
      SlotIsInvolution(t);
    }
  }

  function CharOfSymbol(x: bv5): char
  {
    Alphabet()[x as nat]
  }

  /** The printed form of the first t symbols: groups of four, a dash after each of the first three. */
  function Body(w: seq<bv5>, t: nat): string
    requires |w| == WORD_LENGTH && t <= WORD_LENGTH
  {
    if t == 0 then "" else
      Body(w, t - 1) + [CharOfSymbol(w[Slot(t - 1)])] + Dash(t - 1)
  }

  function Dash(t: nat): string
  {
    if t % 4 == 3 && t < 13 then "-" else ""
  }

  function Text(w: seq<bv5>): string
    requires |w| == WORD_LENGTH
  {
    "NXT-" + Body(w, WORD_LENGTH)
  }

  // ----- reading -----

  /** The white space of JavaScript's \s. */
  predicate IsSpace(c: char)
  {
    var x := c as int;
    9 <= x <= 13 || x == 32 || x == 0xA0 || x == 0x1680 || 0x2000 <= x <= 0x200A ||
    x == 0x2028 || x == 0x2029 || x == 0x202F || x == 0x205F || x == 0x3000 || x == 0xFEFF
  }

  function TrimLeft(s: string): string
  {
    if s != [] && IsSpace(s[0]) then TrimLeft(s[1..]) else s
  }

  function TrimRight(s: string): string
  {
    if s != [] && IsSpace(s[|s| - 1]) then TrimRight(s[..|s| - 1]) else s
  }

  function UpperChar(c: char): char
  {
    if 'a' <= c <= 'z' then (c as int - 'a' as int + 'A' as int) as char else c
  }

  function Upper(s: string): (r: string)
    ensures |r| == |s|
  {
    seq(|s|, i requires 0 <= i < |s| => UpperChar(s[i]))
  }

  function StripPrefix(s: string): string
  {
    if |s| >= 4 && s[..4] == "NXT-" then s[4..] else s
  }

  /** What `set` looks at: trimmed, in capitals, without the leading "NXT-". */
  function Clean(text: string): string
  {
    StripPrefix(Upper(TrimRight(TrimLeft(text))))
  }

  /** The symbols of a text; characters outside the alphabet are passed over. */
  function Symbols(s: string): seq<bv5>
  {
    if s == [] then [] else
      var i := Find(Alphabet(), s[|s| - 1], 0);
      Symbols(s[..|s| - 1]) + if i >= 0 then [i as bv5] else []
  }

  /** The word that `set` stores for a text it accepts. */
  ghost function Reading(text: string, allowDecimal: bool): (w: Option<seq<bv5>>)
    ensures w.Some? ==> |w.value| == WORD_LENGTH
  {
    var r := Clean(text);
    if IsDecimal(r) then
      if allowDecimal && IsAccepted(r) then Some(Encode(MessageOf(NumberOf(r)))) else None
    else
      var f := Symbols(r);
      if |f| == WORD_LENGTH && IsCodeword(Permute(f)) then Some(Permute(f)) else None
  }

  /** Whatever `set` accepts passes the check. */
  lemma AcceptedIsCodeword(text: string, allowDecimal: bool)
    requires Reading(text, allowDecimal).Some?
    ensures IsCodeword(Reading(text, allowDecimal).value)
  {
    hide IsCodeword, Run;
    var r := Clean(text);
    if IsDecimal(r) {
      EncodeIsCodeword(MessageOf(NumberOf(r)));
    }
  }

  predicate IsAddressChar(c: char)
  {
    c == '-' || '2' <= c <= '9' || 'A' <= c <= 'Z'
  }

  lemma AlphabetChar(i: nat)
    requires i < 32
    ensures IsAddressChar(Alphabet()[i]) && Alphabet()[i] != '-'
  {
  }

  lemma DashIsNoSymbol()
    ensures Find(Alphabet(), '-', 0) == -1
  {
    hide Alphabet;
    var i := Find(Alphabet(), '-', 0);
    if i >= 0 {
      AlphabetChar(i);
    }
  }

  lemma SymbolsOfLetter(s: string, x: bv5)
    ensures Symbols(s + [CharOfSymbol(x)]) == Symbols(s) + [x]
  {
    hide Alphabet, Find;
    var all := s + [CharOfSymbol(x)];
    AlphabetIsAscending();
    FindLetter(Alphabet(), x as nat, 0);
    assert all[..|all| - 1] == s;
    BackToBits(x);
  }

  lemma BackToBits(x: bv5)
    ensures (x as nat) as bv5 == x
  {
  }

  lemma SymbolsOfDash(s: string, t: nat)
    ensures Symbols(s + Dash(t)) == Symbols(s)
  {
    hide Find, Alphabet;
    var all := s + Dash(t);
    DashIsNoSymbol();
    if Dash(t) == "-" {
      assert all[..|all| - 1] == s;
    } else {
      assert all == s;
    }
  }

  lemma {:induction false} BodySymbols(w: seq<bv5>, t: nat)
    requires |w| == WORD_LENGTH && t <= WORD_LENGTH
    ensures Symbols(Body(w, t)) == Permute(w)[..t]
  {
    hide Symbols, Slot, CharOfSymbol, Dash;
    if t == 0 {
      SymbolsOfNothing();
    } else {
      BodySymbols(w, t - 1);
      var x := w[Slot(t - 1)];
      SymbolsOfLetter(Body(w, t - 1), x);
      SymbolsOfDash(Body(w, t - 1) + [CharOfSymbol(x)], t - 1);
      assert Permute(w)[..t] == Permute(w)[..t - 1] + [x];
    }
  }

  lemma SymbolsOfNothing()
    ensures Symbols("") == []
  {
  }

  lemma {:induction false} BodyChars(w: seq<bv5>, t: nat)
    requires |w| == WORD_LENGTH && t <= WORD_LENGTH
    ensures forall i :: 0 <= i < |Body(w, t)| ==> IsAddressChar(Body(w, t)[i])
    ensures t >= 4 ==> '-' in Body(w, t)
  {
    hide IsAddressChar, Slot, Alphabet;
    if t > 0 {
      BodyChars(w, t - 1);
      AlphabetChar(w[Slot(t - 1)] as nat);
      DashIsAddressChar();
    }
  }

  lemma DashIsAddressChar()
    ensures IsAddressChar('-')
  {
  }

  lemma CleanAddress(s: string)
    requires |s| > 4 && s[..4] == "NXT-" && forall i :: 0 <= i < |s| ==> IsAddressChar(s[i])
    ensures Clean(s) == s[4..]
  {
    assert TrimLeft(s) == s;
    assert TrimRight(s) == s;
    assert Upper(s) == s;
  }

  lemma LettersOfPrefix()
    ensures IsAddressChar('N') && IsAddressChar('X') && IsAddressChar('T') && IsAddressChar('-')
  {
  }

  lemma BodyHasDash(w: seq<bv5>)
    requires |w| == WORD_LENGTH
    ensures !IsDecimal(Body(w, WORD_LENGTH)) && |Body(w, WORD_LENGTH)| > 0
  {
    hide Body;
    BodyChars(w, WORD_LENGTH);
  }

  /** What is left of a printed address: its symbols in printed order. */
  lemma TextSymbols(w: seq<bv5>)
    requires |w| == WORD_LENGTH
    ensures !IsDecimal(Clean(Text(w))) && Symbols(Clean(Text(w))) == Permute(w)
  {
    hide Body, Slot, Clean, IsDecimal, Symbols, Permute, IsAddressChar;
    LettersOfPrefix();
    var text, body := Text(w), Body(w, WORD_LENGTH);
    BodySymbols(w, WORD_LENGTH);
    BodyChars(w, WORD_LENGTH);
    BodyHasDash(w);
    assert text[..4] == "NXT-" && text[4..] == body;
    CleanAddress(text);
    assert Permute(w)[..WORD_LENGTH] == Permute(w);
  }

  /** Reading a printed address gives the same word back, for every word that passes the check. */
  lemma TextRoundTrip(w: seq<bv5>, allowDecimal: bool)
    requires |w| == WORD_LENGTH && IsCodeword(w)
    ensures Reading(Text(w), allowDecimal) == Some(w)
  {
    hide IsCodeword, Text, Clean, IsDecimal, Symbols, Permute;
    TextSymbols(w);
    PermuteTwice(w);
  }

  ghost function DifferingPlaces(a: seq<bv5>, b: seq<bv5>): set<nat>
    requires |a| == |b|
  {
    set i: nat | i < |a| && a[i] != b[i]
  }

  lemma {:induction false} DistanceIsCardinality(a: seq<bv5>, b: seq<bv5>)
    requires |a| == |b|
    ensures Distance(a, b) == |DifferingPlaces(a, b)|
  {
    var places := DifferingPlaces(a, b);
    if a == [] {
      assert places == {};
    } else {
      var last := |a| - 1;
      var fewer := DifferingPlaces(a[..last], b[..last]);
      DistanceIsCardinality(a[..last], b[..last]);
      assert places == if a[last] == b[last] then fewer else fewer + {last};
    }
  }

  ghost function SlotsOf(s: set<nat>): set<nat>
    requires forall i :: i in s ==> i < WORD_LENGTH
  {
    set i | i in s :: Slot(i)
  }

  lemma {:induction false} SlotsKeepSize(s: set<nat>)
    requires forall i :: i in s ==> i < WORD_LENGTH
    ensures |SlotsOf(s)| == |s|
  {
    hide Slot;
    if i :| i in s {
      SlotsKeepSize(s - {i});
      SlotsDiffer(i);
      assert SlotsOf(s) == SlotsOf(s - {i}) + {Slot(i)};
    } else {
      assert SlotsOf(s) == {};
    }
  }

  /** Printing order does not change how many symbols differ. */
  lemma PermuteKeepsDistance(a: seq<bv5>, b: seq<bv5>)
    requires |a| == |b| == WORD_LENGTH
    ensures Distance(Permute(a), Permute(b)) == Distance(a, b)
  {
    hide Distance, Slot;
    var s, t := DifferingPlaces(a, b), DifferingPlaces(Permute(a), Permute(b));
    DistanceIsCardinality(a, b);
    DistanceIsCardinality(Permute(a), Permute(b));
    SlotsCover();
    forall i | i in t
      ensures i in SlotsOf(s)
    {
      assert Slot(i) in s;
    }
    assert SlotsOf(s) == t;
    SlotsKeepSize(s);
  }

  /** One to four wrong symbols in an accepted address: the altered text is refused, unless it consists
      of digits only and is taken for an account number. */
  lemma TypoIsRejected(text: string, typo: string, allowDecimal: bool)
    requires !IsDecimal(Clean(text)) && Reading(text, allowDecimal).Some?
    requires |Symbols(Clean(text))| == |Symbols(Clean(typo))| == WORD_LENGTH
    requires 1 <= Distance(Symbols(Clean(text)), Symbols(Clean(typo))) <= 4
    ensures Reading(typo, allowDecimal) == None
       <==> !(allowDecimal && IsDecimal(Clean(typo)) && IsAccepted(Clean(typo)))
  {
    hide IsCodeword, Permute, Clean, Symbols, IsDecimal, IsAccepted;
    var a, b := Symbols(Clean(text)), Symbols(Clean(typo));
    PermuteKeepsDistance(a, b);
    if IsCodeword(Permute(b)) {
      MinimumDistance(Permute(a), Permute(b));
      DistanceOfEqual(Permute(a));
    }
  }

  function Twos(n: nat): (s: string)
    ensures |s| == n && forall i :: 0 <= i < n ==> s[i] == '2'
  {
    seq(n, _ => '2')
  }

  function ZeroWord(n: nat): seq<bv5>
  {
    seq(n, _ => 0)
  }

  lemma {:induction false} SymbolsOfTwos(n: nat)
    ensures Symbols(Twos(n)) == ZeroWord(n)
  {
    hide Symbols;
    if n == 0 {
      SymbolsOfNothing();
      assert Twos(0) == "";
    } else {
      SymbolsOfTwos(n - 1);
      SymbolsOfLetter(Twos(n - 1), 0);
      assert Twos(n) == Twos(n - 1) + [CharOfSymbol(0)];
    }
  }

  lemma ZeroIsCodeword()
    ensures IsCodeword(ZeroWord(WORD_LENGTH)) && Permute(ZeroWord(WORD_LENGTH)) == ZeroWord(WORD_LENGTH)
  {
    hide Syndrome, Slot;
    forall e | 1 <= e <= 4
      ensures Syndrome(ZeroWord(WORD_LENGTH), e) == 0
    {
      SyndromeOfZero(ZeroWord(WORD_LENGTH), e);
    }
  }

  lemma CleanDigits(s: string)
    requires s != "" && AllDigitChars(s)
    ensures Clean(s) == s
  {
    assert TrimLeft(s) == s;
    assert TrimRight(s) == s;
    assert Upper(s) == s;
    assert |s| >= 4 ==> s[..4][0] == s[0];
  }

  /** The exception is real: NXT-2222-2222-2222-22222 is an address, and with its last symbol mistyped
      and the punctuation left out it is read as an account number. */
  lemma DigitTypoIsAccepted()
    ensures var w, typo := ZeroWord(WORD_LENGTH), Twos(16) + "3";
            && Reading(Text(w), true) == Some(w) && !IsDecimal(Clean(Text(w)))
            && |Symbols(Clean(typo))| == WORD_LENGTH
            && Distance(Symbols(Clean(Text(w))), Symbols(Clean(typo))) == 1
            && Reading(typo, true).Some?
  {
    hide IsCodeword, Permute, Symbols, Text, Clean, Encode, MessageOf;
    var w, typo := ZeroWord(WORD_LENGTH), Twos(16) + "3";
    ZeroIsCodeword();
    TextSymbols(w);
    TextRoundTrip(w, true);
    CleanDigits(typo);
    SymbolsOfTwos(16);
    SymbolsOfLetter(Twos(16), 1);
    assert typo == Twos(16) + [CharOfSymbol(1)];
    var v := Symbols(typo);
    assert w[..16] == ZeroWord(16) == v[..16];
    DistanceOfEqual(w[..16]);
  }

  // ----- the object -----

  class Address {
    const u: array<bv5>
    const h: array<bv5>

    ghost predicate Valid()
      reads this
    {
      u.Length == WORD_LENGTH && h.Length == 5 && u != h
    }

    constructor ()
      ensures Valid() && fresh(u) && fresh(h)
      ensures u[..] == [1] + seq(16, _ => 0)
    {
      u := new bv5[WORD_LENGTH](i => if i == 0 then 1 else 0);
      h := new bv5[5](_ => 0);
    }

    /** Function `o`. */
    method Reset()
      requires Valid()
      modifies u
      ensures u[..] == seq(WORD_LENGTH, _ => 1)
    {
      for r := 0 to 17
        invariant forall i :: 0 <= i < r ==> u[i] == 1
      {
        u[r] := 1;
      }
    }

    /** Function `i`: the shift-register encoder fills in the four parity symbols. */
    method FillParity()
      requires Valid()
      modifies u
      ensures u[..] == Encode(old(u[..MESSAGE_LENGTH]))
    {
      hide Shift;
      ghost var m := u[..MESSAGE_LENGTH];
      var r := Register(0, 0, 0, 0);
      for e := 13 downto 0
        invariant u[..MESSAGE_LENGTH] == m
        invariant r == Run(m, e)
      {
        assert u[e] == u[..MESSAGE_LENGTH][e];
        r := Shift(r, u[e]);
      }
      u[13], u[14], u[15], u[16] := r.r0, r.r1, r.r2, r.r3;
      assert u[..MESSAGE_LENGTH] == m;
    }

    /** The inner loop of `ok`: one syndrome, over the 31 positions without 13..26. */
    method SyndromeAt(e: nat) returns (n: bv5)
      requires Valid() && 1 <= e <= 4
      ensures n == Syndrome(u[..], e)
    {
      hide Add, Mul, Exp, Power, Syndrome;
      n := 0;
      SyndromeOfPrefix(u[..], e, 0);
      for f := 0 to 31
        invariant n == Syndrome(u[..Seen(f)], e)
      {
        if !(12 < f < 27) {
          var i := if f > 26 then f - 14 else f;
          n := Add(n, Mul(u[i], Exp(e * f % 31)));
          SyndromeOfPrefix(u[..], e, i);
          PowerOfExp(f, e);
          assert e * f == f * e;
          assert u[..][..i] == u[..i] && u[..][..i + 1] == u[..i + 1];
        }
      }
      assert u[..Seen(31)] == u[..];
    }

    /** Function `ok`. */
    method Ok() returns (ok: bool)
      requires Valid()
      modifies h
      ensures ok <==> IsCodeword(u[..])
      ensures forall e :: 1 <= e <= 4 ==> h[e] == Syndrome(u[..], e)
    {
      hide Syndrome;
      ghost var w := u[..];
      var r: bv5 := 0;
      for e := 1 to 5
        invariant u[..] == w
        invariant r == 0 <==> forall k :: 1 <= k < e ==> Syndrome(w, k) == 0
        invariant forall k :: 1 <= k < e ==> h[k] == Syndrome(w, k)
      {
        var n := SyndromeAt(e);
        OrIsZero(r, n);
        r := r | n;
        h[e] := n;
      }
      ok := 0 == r;
    }

    /** Function `a`, for 17 symbols. */
    method Place(f: seq<bv5>)
      requires Valid() && |f| == WORD_LENGTH
      modifies u
      ensures u[..] == Permute(f)
    {
      for n := 0 to 17
        invariant forall t :: 0 <= t < n ==> u[Slot(t)] == f[t]
      {
        SlotsDiffer(n);
        u[Slot(n)] := f[n];
      }
      SlotsCover();
    }

    /** Function `s`: a decimal account number, refused only if it has 20 digits and no leading 1. */
    method SetDecimal(r: string) returns (ok: bool)
      requires Valid() && IsDecimal(r)
      modifies u
      ensures ok <==> IsAccepted(r)
      ensures u[..] == if ok then Encode(MessageOf(NumberOf(r))) else old(u[..])
    {
      hide Value, Run, Numeral, Encode, Pad;
      var n := |r|;
      if 20 == n && r[0] != '1' {
        return false;
      }
      var t := new nat[n](i requires 0 <= i < n => DigitOf(r[i]));
      assert t[..n] == DigitsOf(r);
      var e := ChangeBase(t, n, 10, 32);
      NumeralProperties(32, NumberOf(r));
      assert e == Reverse(Numeral(32, NumberOf(r)));
      StoreMessage(e);
      FillParity();
      return true;
    }

    method StoreMessage(e: seq<nat>)
      requires Valid() && AreDigits(32, e)
      modifies u
      ensures u[..MESSAGE_LENGTH] == Pad(e)
    {
      for o := 0 to 13
        invariant forall i :: 0 <= i < o ==> u[i] == Pad(e)[i]
      {
        u[o] := if o < |e| then e[o] as bv5 else 0;
      }
    }

    /** Function `account_id`. */
    method AccountId() returns (r: string)
      requires Valid()
      ensures r == Decimal(AccountNumber(u[..]))
    {
      hide Value, Numeral;
      var t := new nat[13](f requires 0 <= f < 13 reads this, u requires Valid() => u[12 - f] as nat);
      assert u[..][..MESSAGE_LENGTH] == u[..MESSAGE_LENGTH];
      assert t[..13] == Reverse(SymbolValues(u[..MESSAGE_LENGTH]));
      var e := ChangeBase(t, 13, 32, 10);
      NumeralProperties(10, AccountNumber(u[..]));
      r := TextOf(Reverse(e));
    }

    /** Function `toString`. */
    method ToString() returns (r: string)
      requires Valid()
      ensures r == Text(u[..])
    {
      hide Slot, Alphabet;
      r := "NXT-";
      for t := 0 to 17
        invariant r == "NXT-" + Body(u[..], t)
      {
        r := r + [CharOfSymbol(u[Slot(t)])];
        if t % 4 == 3 && 13 > t {
          r := r + "-";
        }
      }
    }

    /** Function `set`: true exactly for the texts that have a reading, which is then stored;
        otherwise every symbol is left at 1. */
    method Set(text: string, allowDecimal: bool) returns (ok: bool)
      requires Valid()
      modifies u, h
      ensures ok <==> Reading(text, allowDecimal).Some?
      ensures u[..] == if ok then Reading(text, allowDecimal).value else seq(WORD_LENGTH, _ => 1)
    {
      hide Clean, Permute, IsCodeword, Symbols, MessageOf, NumberOf, Encode;
      Reset();
      var r := Clean(text);
      if IsDecimal(r) {
        if allowDecimal {
          ok := SetDecimal(r);
          return;
        }
      } else {
        var f := ReadSymbols(r);
        if |f| > 18 {
          return false;
        }
        if |f| == WORD_LENGTH {
          Place(f);
          var good := Ok();
          if good {
            return true;
          }
        }
      }
      Reset();
      return false;
    }
  }

  /** The symbol loop of `set`, which gives up at the 19th symbol. */
  method ReadSymbols(r: string) returns (f: seq<bv5>)
    ensures |Symbols(r)| <= 18 ==> f == Symbols(r)
    ensures |Symbols(r)| > 18 ==> |f| > 18
  {
    hide Find, Alphabet;
    f := [];
    for i := 0 to |r|
      invariant f == Symbols(r[..i])
    {
      assert r[..i + 1][..i] == r[..i];
      var k := Find(Alphabet(), r[i], 0);
      if k >= 0 {
        f := f + [k as bv5];
        if |f| > 18 {
          SymbolsGrow(r, i + 1);
          return;
        }
      }
    }
    assert r[..|r|] == r;
  }

  lemma {:induction false} SymbolsGrow(r: string, i: nat)
    requires i <= |r|
    ensures |Symbols(r[..i])| <= |Symbols(r)|
    decreases |r| - i
  {
    hide Find, Alphabet;
    if i == |r| {
      assert r[..i] == r;
    } else {
      SymbolsGrow(r, i + 1);
      assert r[..i + 1][..i] == r[..i];
    }
  }

  /** How many symbols the syndrome loop has weighed before position f. */
  function Seen(f: nat): (i: nat)
    requires f <= 31
    ensures i <= WORD_LENGTH
  {
    if f <= 13 then f else if f <= 27 then 13 else f - 14
  }

  lemma SyndromeOfPrefix(w: seq<bv5>, e: nat, i: nat)
    requires |w| == WORD_LENGTH && i < WORD_LENGTH
    ensures Syndrome(w[..0], e) == 0
    ensures Syndrome(w[..i + 1], e) == Add(Syndrome(w[..i], e), Mul(w[i], Power(Exp(Position(i)), e)))
  {
    hide Add, Mul, Exp, Power;
    assert w[..i + 1][..i] == w[..i];
  }

  lemma OrIsZero(a: bv5, b: bv5)
    ensures a | b == 0 <==> a == 0 && b == 0
  {
  }

  lemma SlotsDiffer(n: nat)
    requires n < WORD_LENGTH
    ensures forall t :: 0 <= t < WORD_LENGTH && t != n ==> Slot(t) != Slot(n)
  {
    hide Slot;
    forall t | 0 <= t < WORD_LENGTH && t != n
      ensures Slot(t) != Slot(n)
    {
      SlotIsInvolution(t);
      SlotIsInvolution(n);
    }
  }

  lemma SlotsCover()
    ensures forall i :: 0 <= i < WORD_LENGTH ==> Slot(Slot(i)) == i
  {
    hide Slot;
    forall i | 0 <= i < WORD_LENGTH
      ensures Slot(Slot(i)) == i
    {
      SlotIsInvolution(i);
    }
  }

  /** Storing an account number and asking for it again. */
  method SetThenAccountId(a: Address, r: string) returns (ok: bool, id: string)
    requires a.Valid() && IsDecimal(Clean(r))
    modifies a.u, a.h
    ensures ok <==> IsAccepted(Clean(r))
    ensures ok ==> IsCodeword(a.u[..]) && id == Decimal(NumberOf(Clean(r)))
  {
    hide Clean, IsCodeword, Encode, MessageOf, NumberOf, Decimal, AccountNumber;
    id := "";
    ok := a.Set(r, true);
    if ok {
      id := a.AccountId();
      AcceptedIsCodeword(r, true);
      DecimalRoundTrip(Clean(r));
    }
  }

  /** Printing an address that passes the check and reading the print restores every symbol. */
  method PrintThenSet(a: Address, b: Address) returns (ok: bool)
    requires a.Valid() && b.Valid() && a.u != b.u && a.u != b.h && IsCodeword(a.u[..])
    modifies b.u, b.h
    ensures ok && b.u[..] == a.u[..]
  {
    hide IsCodeword, Text, Reading;
    var text := a.ToString();
    TextRoundTrip(a.u[..], true);
    ok := b.Set(text, true);
  }
}
