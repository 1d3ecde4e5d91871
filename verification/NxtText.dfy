/** What a printed NXT address looks like, character by character, in terms of the account number and its
    parity symbols (js/jay.ext.js:10), and that `set` reads it in any case and inside white space. */
module NxtText {
  import opened Common
  import opened Digits
  import opened Gf32
  import opened NxtCode
  import opened NxtAddress

  /** The letter for a base-32 digit. */
  function Letter(d: nat): char
    requires d < 32
  {
    "23456789ABCDEFGHJKLMNPQRSTUVWXYZ"[d]
  }

  lemma LetterOfSymbol(x: bv5)
    ensures (x as nat) < 32 && CharOfSymbol(x) == Letter(x as nat)
  {
  }

  lemma BodyStep(w: seq<bv5>, t: nat)
    requires |w| == WORD_LENGTH && t < WORD_LENGTH
    ensures Body(w, t + 1) == Body(w, t) + [CharOfSymbol(w[Slot(t)])] + Dash(t)
  {
    hide Slot, CharOfSymbol, Dash;
  }

  lemma Slots()
    ensures Slot(0) == 3 && Slot(1) == 2 && Slot(2) == 1 && Slot(3) == 0 && Slot(4) == 7 && Slot(5) == 6 && Slot(6) == 5 && Slot(7) == 4 && Slot(8) == 13
    ensures Slot(9) == 14 && Slot(10) == 15 && Slot(11) == 16 && Slot(12) == 12 && Slot(13) == 8 && Slot(14) == 9 && Slot(15) == 10 && Slot(16) == 11
  {
  }

  lemma Dashes()
    ensures Dash(3) == "-" && Dash(7) == "-" && Dash(11) == "-"
    ensures forall t: nat :: t < 17 && t != 3 && t != 7 && t != 11 ==> Dash(t) == ""
  {
  }

  /** The letters of four symbols of a word. */
  function Four(w: seq<bv5>, a: nat, b: nat, c: nat, d: nat): (s: string)
    requires a < |w| && b < |w| && c < |w| && d < |w|
    ensures |s| == 4
  {
    [CharOfSymbol(w[a]), CharOfSymbol(w[b]), CharOfSymbol(w[c]), CharOfSymbol(w[d])]
  }

  /** Four symbols in a row, the last one with what is printed behind it. */
  lemma GroupStep(w: seq<bv5>, t: nat)
    requires |w| == WORD_LENGTH && t + 4 <= WORD_LENGTH && Dash(t) == Dash(t + 1) == Dash(t + 2) == ""
    ensures Body(w, t + 4) == Body(w, t) + Four(w, Slot(t), Slot(t + 1), Slot(t + 2), Slot(t + 3)) + Dash(t + 3)
  {
    hide CharOfSymbol, Body, Slot, Dash;
    BodyStep(w, t);
    BodyStep(w, t + 1);
    BodyStep(w, t + 2);
    BodyStep(w, t + 3);
  }

  lemma BodyStarts(w: seq<bv5>)
    requires |w| == WORD_LENGTH
    ensures Body(w, 0) == ""
  {
  }

  /** The printed form of a word, group by group. */
  lemma WordLayout(w: seq<bv5>)
    requires |w| == WORD_LENGTH
    ensures Text(w) == "NXT-" + (Four(w, 3, 2, 1, 0) + ("-" + (Four(w, 7, 6, 5, 4) + ("-" + (Four(w, 13, 14, 15, 16)
                     + ("-" + ([CharOfSymbol(w[12])] + Four(w, 8, 9, 10, 11))))))))
  {
    hide CharOfSymbol, Body, Slot, Dash, Four;
    Slots();
    Dashes();
    BodyStarts(w);
    GroupStep(w, 0);
    GroupStep(w, 4);
    GroupStep(w, 8);
    BodyStep(w, 12);
    GroupStep(w, 13);
    Regroup(Four(w, 3, 2, 1, 0), Four(w, 7, 6, 5, 4), Four(w, 13, 14, 15, 16), [CharOfSymbol(w[12])], Four(w, 8, 9, 10, 11));
  }

  lemma Regroup(a: string, b: string, c: string, d: string, e: string)
    ensures "" + a + "-" + b + "-" + c + "-" + d + "" + e + "" == a + ("-" + (b + ("-" + (c + ("-" + (d + e))))))
  {
    assert c + ("-" + (d + e)) == c + "-" + d + e;
    assert b + ("-" + (c + "-" + d + e)) == b + "-" + c + "-" + d + e;
  }

  /** The value of a symbol. */
  function Sym(w: seq<bv5>, i: nat): (d: nat)
    requires i < |w|
    ensures d < 32
  {
    LetterOfSymbol(w[i]);
    w[i] as nat
  }

  /** The symbols of a message are the base-32 digits of the number, the lowest first. */
  lemma MessageDigit(n: nat, i: nat)
    requires i < MESSAGE_LENGTH
    ensures Sym(MessageOf(n), i) == DigitAt(32, n, i)
  {
    hide ToDigits, DigitAt;
    NumeralProperties(32, n);
    var ds := Numeral(32, n);
    NumeralDigit(n, i);
    if i < |ds| {
      assert Reverse(ds)[i] == ds[|ds| - 1 - i];
      FiveBits(ds[|ds| - 1 - i]);
    }
  }

  lemma NumeralDigit(n: nat, i: nat)
    ensures var ds := Numeral(32, n);
            DigitAt(32, n, i) == if i < |ds| then ds[|ds| - 1 - i] else 0
  {
    hide DigitAt, ToDigits;
    ToDigitsAt(32, n, i);
    if n == 0 {
      EmptyNumber(32);
    } else {
      NumeralOfPositive(32, n);
    }
  }

  /** The letter of a base-32 digit of a number. */
  function L(n: nat, i: nat): char
  {
    Letter(DigitAt(32, n, i))
  }

  lemma SymbolLetter(n: nat, i: nat)
    requires i < MESSAGE_LENGTH
    ensures CharOfSymbol(Encode(MessageOf(n))[i]) == L(n, i)
  {
    hide Encode, MessageOf, DigitAt, Letter, CharOfSymbol;
    var m, w := MessageOf(n), Encode(MessageOf(n));
    EncodeKeeps(m);
    MessageDigit(n, i);
    SameSymbol(w, m, i);
    LetterOfSymbol(w[i]);
  }

  lemma FourLetters(n: nat, a: nat, b: nat, c: nat, d: nat)
    requires a < MESSAGE_LENGTH && b < MESSAGE_LENGTH && c < MESSAGE_LENGTH && d < MESSAGE_LENGTH
    ensures Four(Encode(MessageOf(n)), a, b, c, d) == [L(n, a), L(n, b), L(n, c), L(n, d)]
  {
    hide Encode, MessageOf, L, CharOfSymbol;
    SymbolLetter(n, a);
    SymbolLetter(n, b);
    SymbolLetter(n, c);
    SymbolLetter(n, d);
  }

  /** The printed address of an account number: four groups behind "NXT-". The first two and the last hold the
      base-32 digits 3 2 1 0, 7 6 5 4 and 12 8 9 10 11 of the number, the third the parity symbols in order. */
  lemma AddressLayout(n: nat)
    ensures var w := Encode(MessageOf(n));
            Text(w) == "NXT-" + ([L(n, 3), L(n, 2), L(n, 1), L(n, 0)] + ("-" + ([L(n, 7), L(n, 6), L(n, 5), L(n, 4)]
                     + ("-" + ([Letter(Sym(w, 13)), Letter(Sym(w, 14)), Letter(Sym(w, 15)), Letter(Sym(w, 16))]
                     + ("-" + ([L(n, 12)] + [L(n, 8), L(n, 9), L(n, 10), L(n, 11)])))))))
  {
    hide Text, Encode, MessageOf, L, CharOfSymbol, Letter;
    var w := Encode(MessageOf(n));
    WordLayout(w);
    FourLetters(n, 3, 2, 1, 0);
    FourLetters(n, 7, 6, 5, 4);
    FourLetters(n, 8, 9, 10, 11);
    SymbolLetter(n, 12);
    LetterOfSymbol(w[13]);
    LetterOfSymbol(w[14]);
    LetterOfSymbol(w[15]);
    LetterOfSymbol(w[16]);
  }

  lemma EncodeKeeps(m: seq<bv5>)
    requires |m| == MESSAGE_LENGTH
    ensures |Encode(m)| == WORD_LENGTH && Encode(m)[..MESSAGE_LENGTH] == m
  {
    hide Run;
  }

  lemma SameSymbol(w: seq<bv5>, m: seq<bv5>, i: nat)
    requires i < |m| <= |w| && w[..|m|] == m
    ensures Sym(w, i) == Sym(m, i)
  {
    assert w[i] == w[..|m|][i];
  }

  // ----- reading with blanks and in any case -----

  predicate IsWhite(c: char)
  {
    c as int == 32 || 9 <= c as int <= 13
  }

  lemma WhiteIsSpace(c: char)
    requires IsWhite(c)
    ensures IsSpace(c)
  {
  }

  predicate AllWhite(a: string)
  {
    forall i :: 0 <= i < |a| ==> IsWhite(a[i])
  }

  lemma {:induction false} TrimmedLeft(a: string, u: string)
    requires AllWhite(a) && u != "" && !IsSpace(u[0])
    ensures TrimLeft(a + u) == u
  {
    hide IsSpace, IsWhite;
    if a == "" {
      assert a + u == u;
    } else {
      WhiteIsSpace(a[0]);
      assert (a + u)[1..] == a[1..] + u;
      TrimmedLeft(a[1..], u);
    }
  }

  lemma {:induction false} TrimmedRight(u: string, b: string)
    requires AllWhite(b) && u != "" && !IsSpace(u[|u| - 1])
    ensures TrimRight(u + b) == u
  {
    hide IsSpace, IsWhite;
    if b == "" {
      assert u + b == u;
    } else {
      var all := u + b;
      WhiteIsSpace(b[|b| - 1]);
      assert all[|all| - 1] == b[|b| - 1] && all[..|all| - 1] == u + b[..|b| - 1];
      TrimmedRight(u, b[..|b| - 1]);
    }
  }

  /** The same text, with small letters or capitals. */
  predicate SameInAnyCase(t: string, s: string)
  {
    |t| == |s| && forall i :: 0 <= i < |s| ==>
      t[i] == s[i] || ('A' <= s[i] <= 'Z' && t[i] as int == s[i] as int + 32)
  }

  lemma UpperOf(t: string, s: string)
    requires SameInAnyCase(t, s) && forall i :: 0 <= i < |s| ==> IsAddressChar(s[i])
    ensures Upper(t) == s && forall i :: 0 <= i < |t| ==> !IsSpace(t[i])
  {
  }

  /** Blanks around a printed address and small letters in it make no difference. */
  lemma ReadInAnyCase(w: seq<bv5>, t: string, a: string, b: string, allowDecimal: bool)
    requires |w| == WORD_LENGTH && IsCodeword(w) && SameInAnyCase(t, Text(w)) && AllWhite(a) && AllWhite(b)
    ensures Reading(a + t + b, allowDecimal) == Some(w)
  {
    hide IsCodeword, Text, Symbols, Permute, IsDecimal, IsSpace, SameInAnyCase, IsAddressChar;
    TextIsPlain(w);
    UpperOf(t, Text(w));
    UpperLength(t);
    assert a + t + b == a + (t + b);
    TrimmedLeft(a, t + b);
    TrimmedRight(t, b);
    TextRoundTrip(w, allowDecimal);
    CleanText(w);
    PermuteTwice(w);
    TextSymbols(w);
  }

  lemma UpperLength(t: string)
    ensures |Upper(t)| == |t|
  {
  }

  lemma TextIsPlain(w: seq<bv5>)
    requires |w| == WORD_LENGTH
    ensures Text(w) != "" && forall i :: 0 <= i < |Text(w)| ==> IsAddressChar(Text(w)[i])
  {
    hide Body, IsAddressChar, Slot;
    LettersOfPrefix();
    BodyChars(w, WORD_LENGTH);
  }

  lemma CleanText(w: seq<bv5>)
    requires |w| == WORD_LENGTH
    ensures Clean(Text(w)) == StripPrefix(Text(w))
  {
    hide Text;
    TextIsPlain(w);
    var s := Text(w);
    UpperOf(s, s);
    assert TrimLeft(s) == s;
    assert TrimRight(s) == s;
  }

  // ----- which account numbers are accepted -----

  /** Up to 19 digits, or 20 digits for a number from 10^19 to below 2 * 10^19. */
  lemma AcceptedIff(r: string)
    requires IsDecimal(r)
    ensures IsAccepted(r) <==> |r| < 20 || 10000000000000000000 <= NumberOf(r) < 20000000000000000000
  {
    hide Pow, Value;
    if |r| == 20 {
      var ds := DigitsOf(r);
      var d := ds[0];
      assert ds == [d] + ds[1..];
      LeadingDigit(d, ds[1..]);
      ValueBound(10, ds[1..]);
      TenToNineteen();
      assert d == 1 <==> r[0] == '1';
    }
  }

  lemma TenToNineteen()
    ensures Pow(10, 19) == 10000000000000000000
  {
    assert Pow(10, 5) == 100000;
    assert Pow(10, 10) == 10000000000;
    assert Pow(10, 15) == 1000000000000000;
  }

  /** Every account number below 2 * 10^19 is accepted in its usual notation, and encoded. */
  lemma EveryNumberIsAccepted(n: nat)
    requires n < 20000000000000000000
    ensures Reading(Decimal(n), true) == Some(Encode(MessageOf(n)))
  {
    hide Encode, MessageOf, Pow, Value;
    var r := Decimal(n);
    UsualNotation(n);
    AcceptedIff(r);
    CleanDigits(r);
  }

  lemma UsualNotation(n: nat)
    requires n < 20000000000000000000
    ensures IsDecimal(Decimal(n)) && NumberOf(Decimal(n)) == n
    ensures |Decimal(n)| < 20 || n >= 10000000000000000000
  {
    hide Pow, Value, ToDigits;
    NumeralProperties(10, n);
    TenToNineteen();
    TwentyDigits();
    if n == 0 {
      assert |Numeral(10, 0)| == 1;
    } else {
      NumeralOfPositive(10, n);
      NoDigitsIffZero(10, n);
      DigitCount(10, n, 20);
      if n < 10000000000000000000 {
        DigitCount(10, n, 19);
      }
    }
  }

  lemma TwentyDigits()
    ensures Pow(10, 20) == 100000000000000000000
  {
    TenToNineteen();
  }
}
