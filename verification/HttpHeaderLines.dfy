/** What the header loop of `getHTTPResponse` (miniupnpc/miniwget.c:93-176) finds in headers that are
    written as lines: the end, the length and the encoding, said in terms of the lines. */
module HttpHeaderLines {
  import opened Common
  import opened HttpHeader
  import opened Digits

  // ----- headers as lines -----

  predicate IsLine(l: seq<Byte>)
  {
    l != [] && forall i :: 0 <= i < |l| ==> !IsEol(l[i])
  }

  predicate AllLines(lines: seq<seq<Byte>>)
  {
    forall k :: 0 <= k < |lines| ==> IsLine(lines[k])
  }

  /** Lines end in CR LF, or all of them in a single LF. */
  predicate IsBreak(eol: seq<Byte>)
  {
    eol == [CR, LF] || eol == [LF]
  }

  /** The lines, closed by an empty one. */
  function Text(lines: seq<seq<Byte>>, eol: seq<Byte>): (h: seq<Byte>)
    ensures |h| >= |eol|
  {
    if lines == [] then eol else lines[0] + (eol + Text(lines[1..], eol))
  }

  // ----- the end of the headers -----

  /** The scan runs over a line and its break. */
  lemma {:induction false} ScanLine(g: seq<Byte>, i: nat, stop: nat)
    requires i <= stop && stop + 1 < |g| && forall k :: i <= k < stop ==> !IsEol(g[k])
    ensures ScanEnd(g, i) == ScanEnd(g, stop)
    decreases stop - i
  {
    if i < stop {
      assert !IsEol(g[i]);
      ScanLine(g, i + 1, stop);
    }
  }

  lemma BreakBeforeLine(g: seq<Byte>, i: nat, eol: seq<Byte>)
    requires IsBreak(eol) && i + |eol| + 1 < |g| && g[i..i + |eol|] == eol && !IsEol(g[i + |eol|])
    ensures ScanEnd(g, i) == ScanEnd(g, i + |eol| + 1)
  {
    assert g[i] == g[i..i + |eol|][0];
    if |eol| == 2 {
      assert g[i + 1] == g[i..i + |eol|][1];
    }
  }

  lemma BreakBeforeEmptyLine(g: seq<Byte>, i: nat, eol: seq<Byte>)
    requires IsBreak(eol) && i + 2 * |eol| <= |g| && g[i..i + 2 * |eol|] == eol + eol
    ensures ScanEnd(g, i) == i + 2 * |eol|
  {
    var x := g[i..i + 2 * |eol|];
    assert g[i] == x[0] && g[i + 1] == x[1];
    if |eol| == 2 {
      assert g[i + 2] == x[2] && g[i + 3] == x[3];
    }
  }

  lemma TextStart(lines: seq<seq<Byte>>, eol: seq<Byte>)
    requires lines != [] && AllLines(lines)
    ensures Text(lines, eol) != [] && Text(lines, eol)[0] == lines[0][0] && !IsEol(lines[0][0])
  {
    assert IsLine(lines[0]);
  }

  lemma ScanToBreak(g: seq<Byte>, s: nat, i: nat, l: seq<Byte>, eol: seq<Byte>, rest: seq<Byte>)
    requires IsBreak(eol) && IsLine(l) && s <= i <= s + 1 && s <= |g| && g[s..] == l + (eol + rest) && rest != []
    ensures ScanEnd(g, i) == ScanEnd(g, s + |l|)
  {
    hide ScanEnd, IsEol;
    LineAt(g, s, l, eol, rest);
    ScanLine(g, i, s + |l|);
  }

  lemma ScanLastLine(g: seq<Byte>, s: nat, i: nat, l: seq<Byte>, eol: seq<Byte>)
    requires IsBreak(eol) && IsLine(l) && s <= i <= s + 1 && s <= |g| && g[s..] == l + (eol + eol)
    ensures ScanEnd(g, i) == |g|
  {
    hide ScanEnd, IsEol, IsLine;
    BreakLength(eol);
    ScanToBreak(g, s, i, l, eol, eol);
    LineAt(g, s, l, eol, eol);
    assert g[s + |l|..] == eol + eol;
    BreakBeforeEmptyLine(g, s + |l|, eol);
  }

  lemma ScanOtherLine(g: seq<Byte>, s: nat, i: nat, l: seq<Byte>, eol: seq<Byte>, rest: seq<Byte>)
    requires IsBreak(eol) && IsLine(l) && s <= i <= s + 1 && s <= |g| && g[s..] == l + (eol + rest)
    requires |rest| >= 2 && !IsEol(rest[0])
    ensures ScanEnd(g, i) == ScanEnd(g, s + |l| + |eol| + 1)
  {
    hide ScanEnd, IsEol, IsLine, IsBreak;
    LineAt(g, s, l, eol, rest);
    ScanToBreak(g, s, i, l, eol, rest);
    assert g[s + |l| + |eol|] == g[s + |l| + |eol|..][0];
    BreakBeforeLine(g, s + |l|, eol);
  }

  /** From the start of a line, or from behind its first character. */
  lemma {:induction false} ScanText(g: seq<Byte>, s: nat, i: nat, lines: seq<seq<Byte>>, eol: seq<Byte>)
    requires IsBreak(eol) && AllLines(lines) && lines != []
    requires s <= i <= s + 1 && s <= |g| && g[s..] == Text(lines, eol)
    ensures ScanEnd(g, i) == |g|
    decreases |lines|
  {
    hide AllLines, IsBreak, IsLine, ScanEnd, IsEol;
    var l, rest := lines[0], Text(lines[1..], eol);
    FirstIsLine(lines);
    BreakLength(eol);
    if |lines| == 1 {
      assert lines[1..] == [];
      ScanLastLine(g, s, i, l, eol);
    } else {
      var s' := s + |l| + |eol|;
      TailLines(lines);
      TextStart(lines[1..], eol);
      TextIsLong(lines[1..], eol);
      LineAt(g, s, l, eol, rest);
      ScanOtherLine(g, s, i, l, eol, rest);
      ScanText(g, s', s' + 1, lines[1..], eol);
    }
  }

  lemma FirstIsLine(lines: seq<seq<Byte>>)
    requires lines != [] && AllLines(lines)
    ensures IsLine(lines[0])
  {
  }

  lemma BreakLength(eol: seq<Byte>)
    requires IsBreak(eol)
    ensures 1 <= |eol| <= 2 && IsEol(eol[0])
  {
  }

  lemma TailLines(lines: seq<seq<Byte>>)
    requires lines != [] && AllLines(lines)
    ensures AllLines(lines[1..])
  {
  }

  lemma TextIsLong(lines: seq<seq<Byte>>, eol: seq<Byte>)
    requires lines != [] && AllLines(lines)
    ensures |Text(lines, eol)| >= 1 + 2 * |eol|
  {
    assert IsLine(lines[0]);
  }

  /** Where the parts of a line stand in the text. */
  lemma LineAt(g: seq<Byte>, s: nat, l: seq<Byte>, eol: seq<Byte>, rest: seq<Byte>)
    requires s <= |g| && g[s..] == l + (eol + rest)
    ensures |g| == s + |l| + |eol| + |rest|
    ensures forall k :: s <= k < s + |l| ==> g[k] == l[k - s]
    ensures g[s + |l|..s + |l| + |eol|] == eol && g[s + |l| + |eol|..] == rest
  {
    var x := g[s..];
    assert forall k :: s <= k < s + |l| ==> g[k] == x[k - s];
    assert x[|l|..] == eol + rest;
    assert g[s + |l|..] == x[|l|..];
    assert (eol + rest)[..|eol|] == eol;
    assert g[s + |l|..s + |l| + |eol|] == g[s + |l|..][..|eol|];
    assert g[s + |l| + |eol|..] == x[|l|..][|eol|..];
  }

  /** Lines closed by an empty one are a header block: the scan finds the end behind the empty line. */
  lemma TextIsHeader(lines: seq<seq<Byte>>, eol: seq<Byte>)
    requires IsBreak(eol) && AllLines(lines) && lines != []
    ensures IsHeader(Text(lines, eol))
  {
    var h := Text(lines, eol);
    assert h[0..] == h;
    TextStart(lines, eol);
    ScanText(h, 0, 0, lines, eol);
  }

  // ----- what a line says -----

  const COLON: Byte := 58

  /** The first colon from index k on, or the length of the line. */
  function ColonFrom(l: seq<Byte>, k: nat): (c: nat)
    requires k <= |l|
    ensures k <= c <= |l|
    ensures c < |l| ==> l[c] == COLON
    ensures forall i :: k <= i < c ==> l[i] != COLON
    decreases |l| - k
  {
    if k == |l| || l[k] == COLON then k else ColonFrom(l, k + 1)
  }

  /** A line has a name if a colon stands behind its first character. */
  predicate HasName(l: seq<Byte>)
  {
    l != [] && ColonFrom(l, 1) < |l|
  }

  function NameOf(l: seq<Byte>): seq<Byte>
    requires HasName(l)
  {
    l[..ColonFrom(l, 1)]
  }

  function DropBlanks(v: seq<Byte>): seq<Byte>
  {
    if v != [] && IsBlank(v[0]) then DropBlanks(v[1..]) else v
  }

  /** What stands behind the colon and the blanks after it. */
  function ValueOf(l: seq<Byte>): seq<Byte>
    requires HasName(l)
  {
    DropBlanks(l[ColonFrom(l, 1) + 1..])
  }

  /** The same text in either case. */
  predicate Similar(t: seq<Byte>, lit: seq<Byte>)
  {
    |t| == |lit| && forall i :: 0 <= i < |t| ==> SameLetter(t[i], lit[i])
  }

  /** The given byte, or its capital if it is a small letter. */
  predicate SameLetter(c: Byte, l: Byte)
  {
    c == l || (97 <= l <= 122 && c == l - 32)
  }

  predicate NoCapitals(lit: seq<Byte>)
  {
    forall i :: 0 <= i < |lit| ==> !(65 <= lit[i] <= 90)
  }

  lemma LowerMeans(c: Byte, l: Byte)
    requires !(65 <= l <= 90)
    ensures Lower(c) == l <==> SameLetter(c, l)
  {
  }

  lemma NamesHaveNoCapitals()
    ensures NoCapitals(CONTENT_LENGTH) && NoCapitals(TRANSFER_ENCODING) && NoCapitals(CHUNKED)
  {
  }

  /** A name is taken for `lit` if it is a prefix of it, or goes on behind it with a NUL. */
  predicate NameIs(name: seq<Byte>, lit: seq<Byte>)
  {
    if |name| <= |lit| then Similar(name, lit[..|name|])
    else Similar(name[..|lit|], lit) && name[|lit|] == 0
  }

  predicate AllSpace(t: seq<Byte>)
  {
    forall i :: 0 <= i < |t| ==> IsSpace(t[i])
  }

  /** atoi of a text. */
  function Number(t: seq<Byte>): int
  {
    Atoi(t, 0)
  }

  predicate IsLengthLine(l: seq<Byte>)
  {
    HasName(l) && NameIs(NameOf(l), CONTENT_LENGTH)
  }

  predicate IsChunkedLine(l: seq<Byte>)
  {
    HasName(l) && NameIs(NameOf(l), TRANSFER_ENCODING) && |ValueOf(l)| >= 7 && Similar(ValueOf(l)[..7], CHUNKED)
  }

  /** One line, followed in the headers by `rest`, then by the body bytes x. */
  function Heard(l: seq<Byte>, rest: seq<Byte>, x: seq<Byte>, info: Info): Info
  {
    if IsLengthLine(l) then
      info.(contentLength := Number(ValueOf(l) + (rest + x)),
            settled := info.settled && !AllSpace(ValueOf(l) + rest))
    else if IsChunkedLine(l) then info.(chunked := true)
    else info
  }

  function Told(lines: seq<seq<Byte>>, eol: seq<Byte>, x: seq<Byte>, info: Info): Info
    decreases |lines|
  {
    if lines == [] then info
    else Told(lines[1..], eol, x, Heard(lines[0], eol + Text(lines[1..], eol), x, info))
  }

  // ----- the C string functions on a line -----

  lemma {:induction false} NameCompared(g: seq<Byte>, at: nat, lit: seq<Byte>, n: nat)
    requires at + n <= |g| && NoCapitals(lit)
    ensures SameText(g, at, lit, n) <==> NameIs(g[at..at + n], lit)
    decreases n
  {
    var name := g[at..at + n];
    if n > 0 && lit != [] {
      LowerMeans(g[at], lit[0]);
      NameCompared(g, at + 1, lit[1..], n - 1);
      assert g[at + 1..at + 1 + (n - 1)] == name[1..];
      NameSplits(name, lit);
    }
  }

  lemma NameSplits(name: seq<Byte>, lit: seq<Byte>)
    requires name != [] && lit != []
    ensures NameIs(name, lit) <==> SameLetter(name[0], lit[0]) && NameIs(name[1..], lit[1..])
  {
    hide SameLetter;
    var n := if |name| <= |lit| then |name| else |lit|;
    SimilarSplits(name[..n], lit[..n]);
    assert name[..n][1..] == name[1..][..n - 1] && lit[..n][1..] == lit[1..][..n - 1];
    assert |name| <= |lit| ==> name[..n] == name && name[1..][..n - 1] == name[1..];
    assert |name| > |lit| ==> lit[..n] == lit && lit[1..][..n - 1] == lit[1..];
  }

  lemma SimilarSplits(t: seq<Byte>, lit: seq<Byte>)
    requires |t| == |lit| > 0
    ensures Similar(t, lit) <==> SameLetter(t[0], lit[0]) && Similar(t[1..], lit[1..])
  {
    hide SameLetter;
    if SameLetter(t[0], lit[0]) && Similar(t[1..], lit[1..]) {
      forall i | 0 <= i < |t|
        ensures SameLetter(t[i], lit[i])
      {
        if i > 0 {
          assert t[i] == t[1..][i - 1] && lit[i] == lit[1..][i - 1];
        }
      }
    }
  }

  /** The same for a value, which ends at the latest at a line break. */
  lemma {:induction false} ValueCompared(g: seq<Byte>, at: nat, lit: seq<Byte>, stop: nat)
    requires at <= stop < |g| && IsEol(g[stop]) && NoCapitals(lit)
    requires forall i :: 0 <= i < |lit| ==> !IsEol(lit[i])
    ensures SameText(g, at, lit, |lit|) <==> at + |lit| <= stop && Similar(g[at..at + |lit|], lit)
    decreases |lit|
  {
    if lit != [] && at < stop {
      assert forall i :: 0 <= i < |lit[1..]| ==> lit[1..][i] == lit[i + 1];
      LowerMeans(g[at], lit[0]);
      ValueCompared(g, at + 1, lit[1..], stop);
      if at + |lit| <= stop {
        SimilarSplits(g[at..at + |lit|], lit);
        assert g[at..at + |lit|][1..] == g[at + 1..at + 1 + |lit[1..]|];
      }
    }
  }

  lemma {:induction false} SkipSpacesShifts(g: seq<Byte>, at: nat, i: nat)
    requires at <= |g|
    ensures SkipSpaces(g, at + i) == at + SkipSpaces(g[at..], i)
    decreases |g| - at - i
  {
    if at + i < |g| && IsSpace(g[at + i]) {
      SkipSpacesShifts(g, at, i + 1);
    }
  }

  lemma {:induction false} ReadDigitsShifts(g: seq<Byte>, at: nat, i: nat, acc: nat)
    requires at <= |g|
    ensures ReadDigits(g, at + i, acc) == ReadDigits(g[at..], i, acc)
    decreases |g| - at - i
  {
    if at + i < |g| && IsDigit(g[at + i]) {
      ReadDigitsShifts(g, at, i + 1, 10 * acc + g[at + i] - 48);
    }
  }

  lemma AtoiShifts(g: seq<Byte>, at: nat)
    requires at <= |g|
    ensures Atoi(g, at) == Number(g[at..])
  {
    hide SkipSpaces, ReadDigits;
    SkipSpacesShifts(g, at, 0);
    var i := SkipSpaces(g[at..], 0);
    ReadDigitsShifts(g, at, i, 0);
    ReadDigitsShifts(g, at, i + 1, 0);
  }

  lemma {:induction false} SettledMeans(h: seq<Byte>, at: nat)
    requires at <= |h|
    ensures Settled(h, at) <==> !AllSpace(h[at..])
    decreases |h| - at
  {
    if at < |h| && IsSpace(h[at]) {
      SettledMeans(h, at + 1);
      assert h[at..] == [h[at]] + h[at + 1..];
    } else if at < |h| {
      assert !IsSpace(h[at..][0]);
    }
  }

  lemma {:induction false} BlanksDropped(g: seq<Byte>, e: nat, i: nat, stop: nat)
    requires i < stop < e <= |g| && !IsBlank(g[stop])
    ensures var j := SkipBlanks(g, e, i);
            && i <= j < stop && (forall k :: i < k <= j ==> IsBlank(g[k]))
            && DropBlanks(g[i + 1..stop]) == g[j + 1..stop]
    decreases stop - i
  {
    if i + 1 < stop && IsBlank(g[i + 1]) {
      BlanksDropped(g, e, i + 1, stop);
      assert g[i + 1..stop][1..] == g[i + 2..stop];
    }
  }

  // ----- the loop over a line -----

  /** The loop behind the line break at `stop`. */
  function NextLine(g: seq<Byte>, e: nat, stop: nat, info: Info): Info
    requires e <= |g|
  {
    var j := SkipEol(g, stop);
    Lines(g, e, j + 1, j, j, 0, info)
  }

  /** Behind the colon nothing but the line break matters. */
  lemma {:induction false} ScanValue(g: seq<Byte>, e: nat, i: nat, s: nat, c: nat, v: nat, info: Info, stop: nat)
    requires i <= stop && stop + 1 < e <= |g| && c > s && IsEol(g[stop])
    requires forall k :: i <= k < stop ==> !IsEol(g[k])
    ensures Lines(g, e, i, s, c, v, info) == NextLine(g, e, stop, EndLine(g, e, s, c, v, info))
    decreases stop - i
  {
    hide EndLine, SkipEol;
    if i < stop {
      assert !IsEol(g[i]);
      ScanValue(g, e, i + 1, s, c, v, info, stop);
    }
  }

  lemma ColonSkips(l: seq<Byte>, k: nat, m: nat)
    requires k <= m <= |l| && forall i :: k <= i < m ==> l[i] != COLON
    ensures ColonFrom(l, k) == ColonFrom(l, m)
    decreases m - k
  {
    if k < m {
      ColonSkips(l, k + 1, m);
    }
  }

  /** Where the search for the colon stands at index i of a line that starts at s. */
  function Searched(s: nat, i: nat): (k: nat)
    requires s <= i
    ensures k >= 1
  {
    if i == s then 1 else i - s
  }

  ghost predicate LineStandsAt(g: seq<Byte>, s: nat, l: seq<Byte>, e: nat)
  {
    && s + |l| + 1 < e <= |g| && IsLine(l) && IsEol(g[s + |l|])
    && forall k :: s <= k < s + |l| ==> g[k] == l[k - s]
  }

  /** At the end of a line whose colon is at c, or is missing. */
  function Ended(g: seq<Byte>, e: nat, s: nat, l: seq<Byte>, c: nat, info: Info): Info
    requires e <= |g|
  {
    if c < |l| then EndLine(g, e, s, s + c, SkipBlanks(g, e, s + c) + 1, info) else info
  }

  lemma BlankIsNoEol(c: Byte)
    ensures IsEol(c) ==> !IsBlank(c) && c != COLON
    ensures IsBlank(c) ==> c != COLON
  {
  }

  /** The colon that counts was found. */
  lemma FromColon(g: seq<Byte>, e: nat, i: nat, s: nat, l: seq<Byte>, v: nat, info: Info)
    requires LineStandsAt(g, s, l, e) && s < i < s + |l| && g[i] == COLON
    ensures Lines(g, e, i, s, s, v, info) == NextLine(g, e, s + |l|, Ended(g, e, s, l, i - s, info))
  {
    hide EndLine, SkipEol, NextLine, SkipBlanks, IsEol, IsBlank;
    var stop := s + |l|;
    BlankIsNoEol(g[stop]);
    BlanksDropped(g, e, i, stop);
    var j := SkipBlanks(g, e, i);
    forall k | j + 1 <= k < stop
      ensures !IsEol(g[k])
    {
      assert g[k] == l[k - s];
    }
    ScanValue(g, e, j + 1, s, i, j + 1, info, stop);
  }

  lemma PlainByte(g: seq<Byte>, e: nat, i: nat, s: nat, v: nat, info: Info)
    requires i + 1 < e <= |g| && !IsEol(g[i]) && g[i] != COLON
    ensures Lines(g, e, i, s, s, v, info) == Lines(g, e, i + 1, s, s, v, info)
  {
  }

  /** A colon at the start of a line does not count. */
  lemma ColonAtStart(g: seq<Byte>, e: nat, s: nat, l: seq<Byte>, v: nat, info: Info)
    requires LineStandsAt(g, s, l, e) && g[s] == COLON
    ensures var j := SkipBlanks(g, e, s);
            && s < j + 1 <= s + |l| && ColonFrom(l, 1) == ColonFrom(l, j + 1 - s)
            && Lines(g, e, s, s, s, v, info) == Lines(g, e, j + 1, s, s, j + 1, info)
  {
    hide EndLine, SkipEol, SkipBlanks, IsBlank, IsEol;
    var stop := s + |l|;
    BlankIsNoEol(g[stop]);
    BlanksDropped(g, e, s, stop);
    var j := SkipBlanks(g, e, s);
    forall k | 1 <= k < j + 1 - s
      ensures l[k] != COLON
    {
      assert g[s + k] == l[k];
      BlankIsNoEol(g[s + k]);
    }
    ColonSkips(l, 1, j + 1 - s);
  }

  /** From any index of the line, while no colon counts yet. */
  lemma {:induction false} ScanName(g: seq<Byte>, e: nat, i: nat, s: nat, l: seq<Byte>, v: nat, info: Info)
    requires LineStandsAt(g, s, l, e) && s <= i <= s + |l|
    ensures Lines(g, e, i, s, s, v, info)
         == NextLine(g, e, s + |l|, Ended(g, e, s, l, ColonFrom(l, Searched(s, i)), info))
    decreases s + |l| - i
  {
    hide EndLine, SkipEol, SkipBlanks, IsEol, NextLine, Lines;
    var stop := s + |l|;
    if i == stop {
      AtLineEnd(g, e, s, s, v, info, stop);
    } else {
      assert g[i] == l[i - s];
      if g[i] != COLON {
        PlainByte(g, e, i, s, v, info);
        ScanName(g, e, i + 1, s, l, v, info);
      } else if i > s {
        FromColon(g, e, i, s, l, v, info);
      } else {
        ColonAtStart(g, e, s, l, v, info);
        var j := SkipBlanks(g, e, i);
        ScanName(g, e, j + 1, s, l, j + 1, info);
      }
    }
  }

  lemma AtLineEnd(g: seq<Byte>, e: nat, s: nat, c: nat, v: nat, info: Info, stop: nat)
    requires stop + 1 < e <= |g| && IsEol(g[stop]) && c <= s
    ensures Lines(g, e, stop, s, c, v, info) == NextLine(g, e, stop, info)
  {
    hide SkipEol;
  }

  // ----- the loop over the lines -----

  /** Name and value of a line as the loop's indices mark them. */
  lemma MarksOfLine(g: seq<Byte>, e: nat, s: nat, l: seq<Byte>)
    requires LineStandsAt(g, s, l, e) && HasName(l)
    ensures var c := s + ColonFrom(l, 1);
            var v := SkipBlanks(g, e, c) + 1;
            && s < c < v <= s + |l| && g[s..c] == NameOf(l) && g[v..s + |l|] == ValueOf(l)
  {
    hide SkipBlanks, IsEol, IsBlank, DropBlanks;
    var c, stop := s + ColonFrom(l, 1), s + |l|;
    BlankIsNoEol(g[stop]);
    BlanksDropped(g, e, c, stop);
    assert g[s..stop] == l;
    assert g[s..c] == g[s..stop][..c - s];
    assert g[c + 1..stop] == g[s..stop][c - s + 1..];
  }

  lemma ThreeParts(g: seq<Byte>, v: nat, stop: nat, e: nat)
    requires v <= stop <= e <= |g|
    ensures g[v..] == g[v..stop] + (g[stop..e] + g[e..])
    ensures g[..e][v..] == g[v..stop] + g[stop..e]
  {
  }

  lemma ChunkedHasNoEol()
    ensures |CHUNKED| == 7 && forall i :: 0 <= i < |CHUNKED| ==> !IsEol(CHUNKED[i])
  {
  }

  lemma LengthOfLine(g: seq<Byte>, e: nat, s: nat, l: seq<Byte>)
    requires LineStandsAt(g, s, l, e) && HasName(l)
    ensures var c := s + ColonFrom(l, 1);
            var v := SkipBlanks(g, e, c) + 1;
            && (SameText(g, s, CONTENT_LENGTH, c - s) <==> IsLengthLine(l))
            && Atoi(g, v) == Number(ValueOf(l) + (g[s + |l|..e] + g[e..]))
            && (Settled(g[..e], v) <==> !AllSpace(ValueOf(l) + g[s + |l|..e]))
  {
    hide SkipBlanks, IsEol, SameText, Atoi, Settled, AllSpace, NameIs, Number, NameOf, ValueOf;
    var c, stop := s + ColonFrom(l, 1), s + |l|;
    var v := SkipBlanks(g, e, c) + 1;
    MarksOfLine(g, e, s, l);
    NamesHaveNoCapitals();
    NameCompared(g, s, CONTENT_LENGTH, c - s);
    ThreeParts(g, v, stop, e);
    AtoiShifts(g, v);
    SettledMeans(g[..e], v);
  }

  lemma EncodingOfLine(g: seq<Byte>, e: nat, s: nat, l: seq<Byte>)
    requires LineStandsAt(g, s, l, e) && HasName(l)
    ensures var c := s + ColonFrom(l, 1);
            var v := SkipBlanks(g, e, c) + 1;
            SameText(g, s, TRANSFER_ENCODING, c - s) && SameText(g, v, CHUNKED, 7) <==> IsChunkedLine(l)
  {
    hide SkipBlanks, IsEol, SameText, NameIs, Similar, NameOf, ValueOf;
    var c, stop := s + ColonFrom(l, 1), s + |l|;
    var v := SkipBlanks(g, e, c) + 1;
    MarksOfLine(g, e, s, l);
    NamesHaveNoCapitals();
    NameCompared(g, s, TRANSFER_ENCODING, c - s);
    ChunkedHasNoEol();
    ValueCompared(g, v, CHUNKED, stop);
    assert v + 7 <= stop ==> g[v..v + 7] == g[v..stop][..7];
  }

  lemma EndedIsHeard(g: seq<Byte>, e: nat, s: nat, l: seq<Byte>, info: Info)
    requires LineStandsAt(g, s, l, e)
    ensures Ended(g, e, s, l, ColonFrom(l, 1), info) == Heard(l, g[s + |l|..e], g[e..], info)
  {
    hide SkipBlanks, IsEol, SameText, Atoi, Settled, AllSpace, NameIs, Number, Similar, ValueOf, NameOf,
      LineStandsAt, ColonFrom;
    NotEmpty(g, s, l, e);
    if HasName(l) {
      MarksOfLine(g, e, s, l);
      LengthOfLine(g, e, s, l);
      EncodingOfLine(g, e, s, l);
    }
  }

  lemma NotEmpty(g: seq<Byte>, s: nat, l: seq<Byte>, e: nat)
    requires LineStandsAt(g, s, l, e)
    ensures l != [] && s + |l| <= e <= |g|
  {
  }

  lemma {:induction false} SkipEolTo(g: seq<Byte>, i: nat, n: nat)
    requires i + n <= |g| && forall k :: i <= k < i + n ==> IsEol(g[k])
    ensures SkipEol(g, i) >= i + n
    ensures i + n < |g| && !IsEol(g[i + n]) ==> SkipEol(g, i) == i + n
    decreases n
  {
    if n > 0 {
      SkipEolTo(g, i + 1, n - 1);
    }
  }

  lemma BreakIsEol(eol: seq<Byte>)
    requires IsBreak(eol)
    ensures forall k :: 0 <= k < |eol| ==> IsEol(eol[k])
  {
  }

  lemma SkipBreak(g: seq<Byte>, i: nat, eol: seq<Byte>)
    requires IsBreak(eol) && i + |eol| <= |g| && g[i..i + |eol|] == eol
    ensures SkipEol(g, i) >= i + |eol|
    ensures i + |eol| < |g| && !IsEol(g[i + |eol|]) ==> SkipEol(g, i) == i + |eol|
  {
    hide IsBreak, IsEol, SkipEol;
    BreakIsEol(eol);
    forall k | i <= k < i + |eol|
      ensures IsEol(g[k])
    {
      assert g[k] == g[i..i + |eol|][k - i];
    }
    SkipEolTo(g, i, |eol|);
  }

  /** The first line of a text stands where the text does. */
  lemma LineStands(g: seq<Byte>, s: nat, e: nat, l: seq<Byte>, eol: seq<Byte>, rest: seq<Byte>)
    requires IsLine(l) && IsBreak(eol) && rest != [] && s <= e <= |g| && g[s..e] == l + (eol + rest)
    ensures LineStandsAt(g, s, l, e) && g[s + |l|..e] == eol + rest
    ensures s + |l| + |eol| <= e && g[s + |l|..s + |l| + |eol|] == eol && g[s + |l| + |eol|..e] == rest
  {
    hide IsEol;
    var h := g[..e];
    assert h[s..] == g[s..e];
    LineAt(h, s, l, eol, rest);
    BreakLength(eol);
    var t := s + |l|;
    assert h[t] == h[t..t + |eol|][0];
    assert g[t..t + |eol|] == h[t..t + |eol|];
    assert g[t + |eol|..e] == h[t + |eol|..];
    assert g[t..e] == g[t..t + |eol|] + g[t + |eol|..e];
  }

  /** Nothing is left behind the empty line. */
  lemma AfterEmptyLine(g: seq<Byte>, e: nat, stop: nat, eol: seq<Byte>, info: Info)
    requires IsBreak(eol) && stop + 2 * |eol| == e <= |g| && g[stop..e] == eol + eol
    ensures NextLine(g, e, stop, info) == info
  {
    hide IsBreak, SkipEol;
    SkipBreakTwice(g, e, stop, eol);
  }

  lemma SkipBreakTwice(g: seq<Byte>, e: nat, stop: nat, eol: seq<Byte>)
    requires IsBreak(eol) && stop + 2 * |eol| == e <= |g| && g[stop..e] == eol + eol
    ensures SkipEol(g, stop) >= e
  {
    hide IsEol, SkipEol;
    BreakIsEol(eol);
    var both := eol + eol;
    forall k | stop <= k < e
      ensures IsEol(g[k])
    {
      assert g[k] == both[k - stop];
    }
    SkipEolTo(g, stop, 2 * |eol|);
  }

  lemma {:induction false} LinesTold(g: seq<Byte>, e: nat, s: nat, i: nat, lines: seq<seq<Byte>>, eol: seq<Byte>, info: Info)
    requires IsBreak(eol) && AllLines(lines) && lines != []
    requires s <= i <= s + 1 && s <= e <= |g| && g[s..e] == Text(lines, eol)
    ensures Lines(g, e, i, s, s, 0, info) == Told(lines, eol, g[e..], info)
    decreases |lines|
  {
    hide Lines, Ended, Heard, AllLines, IsLine, IsBreak, LineStandsAt, NextLine;
    var l, rest := lines[0], Text(lines[1..], eol);
    FirstIsLine(lines);
    BreakLength(eol);
    LineStands(g, s, e, l, eol, rest);
    LineFits(g, s, i, l, e);
    var stop := s + |l|;
    var heard := Heard(l, eol + rest, g[e..], info);
    ScanName(g, e, i, s, l, 0, info);
    EndedIsHeard(g, e, s, l, info);
    assert Lines(g, e, i, s, s, 0, info) == NextLine(g, e, stop, heard);
    if |lines| == 1 {
      assert lines[1..] == [];
      AfterEmptyLine(g, e, stop, eol, heard);
    } else {
      TailLines(lines);
      GoOn(g, e, stop, lines[1..], eol, heard);
      LinesTold(g, e, stop + |eol|, stop + |eol| + 1, lines[1..], eol, heard);
    }
  }

  lemma LineFits(g: seq<Byte>, s: nat, i: nat, l: seq<Byte>, e: nat)
    requires LineStandsAt(g, s, l, e) && s <= i <= s + 1
    ensures i <= s + |l| && ColonFrom(l, Searched(s, i)) == ColonFrom(l, 1)
  {
  }

  lemma GoOn(g: seq<Byte>, e: nat, stop: nat, lines: seq<seq<Byte>>, eol: seq<Byte>, info: Info)
    requires IsBreak(eol) && AllLines(lines) && lines != []
    requires stop + |eol| <= e <= |g| && g[stop..stop + |eol|] == eol && g[stop + |eol|..e] == Text(lines, eol)
    ensures NextLine(g, e, stop, info) == Lines(g, e, stop + |eol| + 1, stop + |eol|, stop + |eol|, 0, info)
  {
    hide Lines, IsBreak, AllLines, SkipEol;
    var s := stop + |eol|;
    TextStart(lines, eol);
    TextIsLong(lines, eol);
    assert g[s] == g[s..e][0];
    SkipBreak(g, stop, eol);
  }

  /** The loop over the headers reports what the lines say. */
  lemma HeaderInfoIsTold(lines: seq<seq<Byte>>, eol: seq<Byte>, x: seq<Byte>)
    requires IsBreak(eol) && AllLines(lines) && lines != []
    ensures var h := Text(lines, eol);
            HeaderInfo(h + x, |h|) == Told(lines, eol, x, Info(-1, false, true))
  {
    hide Lines, Told, AllLines, IsBreak;
    var h := Text(lines, eol);
    var g := h + x;
    assert g[0..|h|] == h && g[|h|..] == x;
    LinesTold(g, |h|, 0, 0, lines, eol, Info(-1, false, true));
  }

  // ----- what the headers say -----

  predicate IsLastLength(lines: seq<seq<Byte>>, k: nat)
  {
    k < |lines| && IsLengthLine(lines[k]) && forall j :: k < j < |lines| ==> !IsLengthLine(lines[j])
  }

  predicate NoLength(lines: seq<seq<Byte>>)
  {
    forall k :: 0 <= k < |lines| ==> !IsLengthLine(lines[k])
  }

  ghost predicate SomeChunked(lines: seq<seq<Byte>>)
  {
    exists k :: 0 <= k < |lines| && IsChunkedLine(lines[k])
  }

  /** What stands in the headers behind line k. */
  function Behind(lines: seq<seq<Byte>>, k: nat, eol: seq<Byte>): seq<Byte>
    requires k < |lines|
  {
    eol + Text(lines[k + 1..], eol)
  }

  /** The length line k has a blank value, and so has the rest of the headers. */
  predicate IsOpen(lines: seq<seq<Byte>>, k: nat, eol: seq<Byte>)
  {
    k < |lines| && IsLengthLine(lines[k]) && AllSpace(ValueOf(lines[k]) + Behind(lines, k, eol))
  }

  lemma NotBoth(l: seq<Byte>)
    requires IsLengthLine(l)
    ensures !IsChunkedLine(l)
  {
    hide ColonFrom, ValueOf;
    var name := NameOf(l);
    NameSplits(name, CONTENT_LENGTH);
    NameSplits(name, TRANSFER_ENCODING);
  }

  lemma {:induction false} ToldChunked(lines: seq<seq<Byte>>, eol: seq<Byte>, x: seq<Byte>, info: Info)
    ensures Told(lines, eol, x, info).chunked <==> info.chunked || SomeChunked(lines)
    decreases |lines|
  {
    hide IsLengthLine, IsChunkedLine, AllSpace, Number;
    if lines != [] {
      var l, tail := lines[0], lines[1..];
      if IsLengthLine(l) {
        NotBoth(l);
      }
      ToldChunked(tail, eol, x, Heard(l, eol + Text(tail, eol), x, info));
      ChunkedSplits(lines);
    }
  }

  lemma ChunkedSplits(lines: seq<seq<Byte>>)
    requires lines != []
    ensures SomeChunked(lines) <==> IsChunkedLine(lines[0]) || SomeChunked(lines[1..])
  {
    hide IsChunkedLine;
    var tail := lines[1..];
    if SomeChunked(tail) {
      var k :| 0 <= k < |tail| && IsChunkedLine(tail[k]);
      assert IsChunkedLine(lines[k + 1]);
    }
    if SomeChunked(lines) {
      var k :| 0 <= k < |lines| && IsChunkedLine(lines[k]);
      assert k > 0 ==> IsChunkedLine(tail[k - 1]);
    }
  }

  lemma {:induction false} ToldNoLength(lines: seq<seq<Byte>>, eol: seq<Byte>, x: seq<Byte>, info: Info)
    requires NoLength(lines)
    ensures Told(lines, eol, x, info).contentLength == info.contentLength
    decreases |lines|
  {
    hide IsLengthLine, IsChunkedLine, AllSpace, Number;
    if lines != [] {
      ToldNoLength(lines[1..], eol, x, Heard(lines[0], eol + Text(lines[1..], eol), x, info));
    }
  }

  lemma {:induction false} ToldLength(lines: seq<seq<Byte>>, eol: seq<Byte>, x: seq<Byte>, info: Info, k: nat)
    requires IsLastLength(lines, k)
    ensures Told(lines, eol, x, info).contentLength == Number(ValueOf(lines[k]) + (Behind(lines, k, eol) + x))
    decreases |lines|
  {
    hide IsLengthLine, IsChunkedLine, AllSpace, Number;
    var tail := lines[1..];
    var info' := Heard(lines[0], eol + Text(tail, eol), x, info);
    if k == 0 {
      ToldNoLength(tail, eol, x, info');
    } else {
      BehindTail(lines, k, eol);
      ToldLength(tail, eol, x, info', k - 1);
    }
  }

  lemma BehindTail(lines: seq<seq<Byte>>, k: nat, eol: seq<Byte>)
    requires 0 < k < |lines|
    ensures lines[1..][k - 1] == lines[k] && Behind(lines[1..], k - 1, eol) == Behind(lines, k, eol)
  {
    assert lines[1..][k..] == lines[k + 1..];
  }

  lemma {:induction false} ToldSettled(lines: seq<seq<Byte>>, eol: seq<Byte>, x: seq<Byte>, info: Info)
    ensures Told(lines, eol, x, info).settled <==> info.settled && forall k: nat :: !IsOpen(lines, k, eol)
    decreases |lines|
  {
    hide IsLengthLine, IsChunkedLine, AllSpace, Number, IsOpen;
    if lines == [] {
      NothingOpen(eol);
    } else {
      var tail := lines[1..];
      ToldSettled(tail, eol, x, Heard(lines[0], eol + Text(tail, eol), x, info));
      OpenFirst(lines, eol);
      OpenSplits(lines, eol);
    }
  }

  lemma NothingOpen(eol: seq<Byte>)
    ensures forall k: nat :: !IsOpen([], k, eol)
  {
  }

  lemma OpenFirst(lines: seq<seq<Byte>>, eol: seq<Byte>)
    requires lines != []
    ensures IsOpen(lines, 0, eol)
       <==> IsLengthLine(lines[0]) && AllSpace(ValueOf(lines[0]) + (eol + Text(lines[1..], eol)))
  {
  }

  lemma OpenSplits(lines: seq<seq<Byte>>, eol: seq<Byte>)
    requires lines != []
    ensures (forall k: nat :: !IsOpen(lines, k, eol)) <==>
            !IsOpen(lines, 0, eol) && forall k: nat :: !IsOpen(lines[1..], k, eol)
  {
    hide IsOpen;
    var tail := lines[1..];
    forall k: nat
      ensures IsOpen(tail, k, eol) == IsOpen(lines, k + 1, eol)
    {
      OpenShifts(lines, k, eol);
    }
    if forall k: nat :: !IsOpen(tail, k, eol) {
      forall k: nat | k > 0
        ensures !IsOpen(lines, k, eol)
      {
        assert !IsOpen(tail, k - 1, eol);
      }
    }
  }

  lemma OpenShifts(lines: seq<seq<Byte>>, k: nat, eol: seq<Byte>)
    requires lines != []
    ensures IsOpen(lines[1..], k, eol) == IsOpen(lines, k + 1, eol)
  {
    hide AllSpace, IsLengthLine;
    if k + 1 < |lines| {
      BehindTail(lines, k + 1, eol);
    }
  }

  /** What lines with a body x behind them say. The body is chunked exactly if a line named
      transfer-encoding has a value that starts with "chunked". The length is the number at the value of
      the last line named content-length, or -1; if that value is blank, the number is looked for in what
      follows, and if only blanks follow in the headers, in the body. */
  ghost predicate Says(lines: seq<seq<Byte>>, eol: seq<Byte>, x: seq<Byte>, info: Info)
  {
    && (info.chunked <==> SomeChunked(lines))
    && (NoLength(lines) ==> info.contentLength == -1)
    && (forall k: nat :: IsLastLength(lines, k) ==>
          info.contentLength == Number(ValueOf(lines[k]) + (Behind(lines, k, eol) + x)))
    && (info.settled <==> forall k: nat :: !IsOpen(lines, k, eol))
  }

  /** Headers written as lines are found and understood. */
  lemma HeaderMeaning(lines: seq<seq<Byte>>, eol: seq<Byte>, x: seq<Byte>)
    requires IsBreak(eol) && AllLines(lines) && lines != []
    ensures IsHeader(Text(lines, eol))
    ensures var h := Text(lines, eol); Says(lines, eol, x, HeaderInfo(h + x, |h|))
  {
    hide IsBreak, AllLines, IsHeader, HeaderInfo, Told, SomeChunked, NoLength, IsOpen, Number, Behind, ValueOf,
      NameIs, NameOf;
    TextIsHeader(lines, eol);
    HeaderInfoIsTold(lines, eol, x);
    var start := Info(-1, false, true);
    ToldChunked(lines, eol, x, start);
    ToldSettled(lines, eol, x, start);
    if NoLength(lines) {
      ToldNoLength(lines, eol, x, start);
    }
    forall k: nat | IsLastLength(lines, k)
      ensures Told(lines, eol, x, start).contentLength == Number(ValueOf(lines[k]) + (Behind(lines, k, eol) + x))
    {
      ToldLength(lines, eol, x, start, k);
    }
  }

  // ----- numbers -----

  predicate AllDigits(ds: seq<Byte>)
  {
    forall i :: 0 <= i < |ds| ==> IsDigit(ds[i])
  }

  /** The number that decimal digits write. */
  function Decimal(ds: seq<Byte>): nat
    requires AllDigits(ds)
  {
    if ds == [] then 0 else 10 * Decimal(ds[..|ds| - 1]) + (ds[|ds| - 1] - 48)
  }

  lemma {:induction false} DigitsRead(w: seq<Byte>, ds: seq<Byte>, t: seq<Byte>, k: nat)
    requires AllDigits(ds) && k <= |ds| && (t == [] || !IsDigit(t[0]))
    ensures ReadDigits(w + ds + t, |w| + k, Decimal(ds[..k])) == Decimal(ds)
    decreases |ds| - k
  {
    var all := w + ds + t;
    if k < |ds| {
      assert all[|w| + k] == ds[k];
      assert ds[..k + 1][..k] == ds[..k];
      DigitsRead(w, ds, t, k + 1);
    } else {
      assert ds[..k] == ds;
      assert t != [] ==> all[|w| + k] == t[0];
    }
  }

  lemma {:induction false} SpacesRead(w: seq<Byte>, t: seq<Byte>, k: nat)
    requires AllSpace(w) && k <= |w| && (t == [] || !IsSpace(t[0]))
    ensures SkipSpaces(w + t, k) == |w|
    decreases |w| - k
  {
    var all := w + t;
    if k < |w| {
      assert all[k] == w[k];
      SpacesRead(w, t, k + 1);
    } else {
      assert t != [] ==> all[k] == t[0];
    }
  }

  /** White space, then digits, then anything else: the number the digits write. */
  lemma NumberOfDigits(w: seq<Byte>, ds: seq<Byte>, t: seq<Byte>)
    requires (forall i :: 0 <= i < |w| ==> w[i] in {9, 10, 11, 12, 13, 32}) && ds != [] && AllDigits(ds) && (t == [] || !IsDigit(t[0]))
    ensures Number(w + (ds + t)) == Decimal(ds)
  {
    hide SkipSpaces, ReadDigits, Decimal;
    var rest := ds + t;
    assert IsDigit(rest[0]);
    assert AllSpace(w);
    SpacesRead(w, rest, 0);
    assert (w + rest)[|w|] == rest[0];
    assert w + ds + t == w + rest;
    NoDecimal();
    assert ds[..0] == [];
    DigitsRead(w, ds, t, 0);
  }

  /** A sign before the digits counts. */
  lemma NumberOfSigned(w: seq<Byte>, sign: Byte, ds: seq<Byte>, t: seq<Byte>)
    requires forall i :: 0 <= i < |w| ==> w[i] in {9, 10, 11, 12, 13, 32}
    requires (sign == 43 || sign == 45) && AllDigits(ds) && (t == [] || !IsDigit(t[0]))
    ensures Number(w + ([sign] + (ds + t))) == if sign == 45 then 0 - Decimal(ds) as int else Decimal(ds)
  {
    hide SkipSpaces, ReadDigits, Decimal;
    var rest := [sign] + (ds + t);
    assert AllSpace(w);
    SpacesRead(w, rest, 0);
    assert (w + rest)[|w|] == sign;
    assert (w + [sign]) + ds + t == w + rest;
    NoDecimal();
    assert ds[..0] == [];
    DigitsRead(w + [sign], ds, t, 0);
  }

  /** White space of C: nothing else is passed over before a number. */
  lemma SpacesAre(c: Byte)
    ensures IsSpace(c) <==> c in {9, 10, 11, 12, 13, 32}
  {
  }

  lemma NoDecimal()
    ensures Decimal([]) == 0
  {
  }

  /** A line named content-length that is the last such one and has digits for a value announces their
      number, whatever follows the digits, and settles it. */
  lemma AnnouncedLength(lines: seq<seq<Byte>>, eol: seq<Byte>, x: seq<Byte>, k: nat, ds: seq<Byte>, t: seq<Byte>)
    requires IsBreak(eol) && AllLines(lines) && IsLastLength(lines, k)
    requires ValueOf(lines[k]) == ds + t && ds != [] && AllDigits(ds) && (t == [] || !IsDigit(t[0]))
    ensures var h := Text(lines, eol);
            var info := HeaderInfo(h + x, |h|);
            info.contentLength == Decimal(ds) && info.settled
  {
    hide IsBreak, AllLines, HeaderInfo, Says, Number, Decimal, AllDigits, Text, ValueOf, NameIs, NameOf, IsOpen, Behind;
    HeaderMeaning(lines, eol, x);
    SaysLength(lines, eol, x, HeaderInfo(Text(lines, eol) + x, |Text(lines, eol)|), k);
    var rest := Behind(lines, k, eol) + x;
    BehindStarts(lines, k, eol);
    assert ValueOf(lines[k]) + rest == [] + (ds + (t + rest));
    NumberOfDigits([], ds, t + rest);
    DigitsClose(lines, k, eol, ds, t);
  }

  lemma SaysLength(lines: seq<seq<Byte>>, eol: seq<Byte>, x: seq<Byte>, info: Info, k: nat)
    requires Says(lines, eol, x, info) && IsLastLength(lines, k)
    ensures info.contentLength == Number(ValueOf(lines[k]) + (Behind(lines, k, eol) + x))
    ensures info.settled <==> forall k: nat :: !IsOpen(lines, k, eol)
  {
    hide SomeChunked, NoLength, IsOpen, Number, ValueOf, Behind, NameIs, NameOf;
  }

  lemma BehindStarts(lines: seq<seq<Byte>>, k: nat, eol: seq<Byte>)
    requires IsBreak(eol) && k < |lines|
    ensures Behind(lines, k, eol) != [] && !IsDigit(Behind(lines, k, eol)[0])
  {
  }

  /** A length line with digits leaves nothing open, in itself or before it. */
  lemma DigitsClose(lines: seq<seq<Byte>>, k: nat, eol: seq<Byte>, ds: seq<Byte>, t: seq<Byte>)
    requires IsLastLength(lines, k) && ValueOf(lines[k]) == ds + t && ds != [] && AllDigits(ds)
    ensures forall j: nat :: !IsOpen(lines, j, eol)
  {
    hide ValueOf, NameIs, NameOf, Text;
    forall j: nat
      ensures !IsOpen(lines, j, eol)
    {
      if j < |lines| && IsLengthLine(lines[j]) {
        var open := ValueOf(lines[j]) + Behind(lines, j, eol);
        if j == k {
          assert open[0] == ds[0];
          NotAllSpace(open, ds[0]);
        } else if j < k {
          LineBehind(lines, j, k, eol);
          NamedLineIsNoSpace(lines[k]);
          var i :| 0 <= i < |lines[k]| && !IsSpace(lines[k][i]);
          NotAllSpace(open, lines[k][i]);
        }
      }
    }
  }

  lemma NotAllSpace(t: seq<Byte>, c: Byte)
    requires c in t && !IsSpace(c)
    ensures !AllSpace(t)
  {
  }

  lemma NamedLineIsNoSpace(l: seq<Byte>)
    requires IsLengthLine(l)
    ensures exists i :: 0 <= i < |l| && !IsSpace(l[i])
  {
    var c := ColonFrom(l, 1);
    assert l[c] == COLON && !IsSpace(COLON);
  }

  /** The bytes of a later line are among those behind an earlier one. */
  lemma {:induction false} LineBehind(lines: seq<seq<Byte>>, j: nat, k: nat, eol: seq<Byte>)
    requires j < k < |lines|
    ensures forall i :: 0 <= i < |lines[k]| ==> lines[k][i] in Behind(lines, j, eol)
    decreases k - j
  {
    var l, rest := lines[j + 1], Behind(lines, j + 1, eol);
    assert lines[j + 1..][0] == l && lines[j + 1..][1..] == lines[j + 2..];
    assert Behind(lines, j, eol) == eol + (l + rest);
    if j + 1 < k {
      LineBehind(lines, j + 1, k, eol);
    }
  }

  /** A content-length line without a value: with the headers alone the length is 0, with the first body
      byte "7" it is 7. */
  lemma BlankLengthReadsBody()
    ensures var line := CONTENT_LENGTH + [COLON];
            var h := Text([line], [CR, LF]);
            && IsHeader(h) && !HeaderInfo(h, |h|).settled
            && HeaderInfo(h, |h|).contentLength == 0 && HeaderInfo(h + [55], |h|).contentLength == 7
  {
    hide HeaderInfo, IsHeader, Says, IsLengthLine, IsLine, Number, ValueOf, Text, Behind, IsOpen;
    var line := CONTENT_LENGTH + [COLON];
    var lines, eol: seq<Byte> := [line], [CR, LF];
    var h := Text(lines, eol);
    BlankLine();
    BlankNumbers(line, eol);
    HeaderMeaning(lines, eol, []);
    assert h + [] == h;
    HeaderMeaning(lines, eol, [55]);
    SaysLength(lines, eol, [], HeaderInfo(h + [], |h|), 0);
    SaysLength(lines, eol, [55], HeaderInfo(h + [55], |h|), 0);
  }

  /** Behind the blank value come two line breaks. */
  lemma BlankNumbers(line: seq<Byte>, eol: seq<Byte>)
    requires eol == [CR, LF] && IsLengthLine(line) && ValueOf(line) == []
    ensures IsOpen([line], 0, eol)
    ensures Number(ValueOf(line) + (Behind([line], 0, eol) + [])) == 0
    ensures Number(ValueOf(line) + (Behind([line], 0, eol) + [55])) == 7
  {
    hide IsLengthLine, ValueOf;
    var breaks := eol + eol;
    assert [line][1..] == [];
    assert Behind([line], 0, eol) == breaks;
    assert [] + breaks == breaks;
    assert AllSpace(breaks);
    assert [] + (breaks + [55]) == breaks + ([55] + []);
    NumberOfDigits(breaks, [55], []);
    SevenIs();
    assert [] + (breaks + []) == breaks + [];
    SpacesRead(breaks, [], 0);
  }

  lemma SevenIs()
    ensures AllDigits([55]) && Decimal([55]) == 7
  {
    assert [55][..0] == [];
  }

  lemma BlankLine()
    ensures var line := CONTENT_LENGTH + [COLON];
            IsLine(line) && IsLengthLine(line) && ValueOf(line) == []
  {
    var line := CONTENT_LENGTH + [COLON];
    ColonSkips(line, 1, 14);
    assert line[..14] == CONTENT_LENGTH;
    assert CONTENT_LENGTH[..14] == CONTENT_LENGTH;
    assert line[15..] == [];
  }

  // ----- lines as servers write them -----

  function DigitBytes(ds: seq<nat>): (b: seq<Byte>)
    requires AreDigits(10, ds)
    ensures |b| == |ds| && forall i :: 0 <= i < |ds| ==> b[i] == 48 + ds[i]
  {
    seq(|ds|, i requires 0 <= i < |ds| => 48 + ds[i])
  }

  lemma {:induction false} DecimalOfDigits(ds: seq<nat>)
    requires AreDigits(10, ds)
    ensures AllDigits(DigitBytes(ds)) && Decimal(DigitBytes(ds)) == Value(10, ds)
  {
    if ds != [] {
      var init := ds[..|ds| - 1];
      DecimalOfDigits(init);
      assert DigitBytes(ds)[..|ds| - 1] == DigitBytes(init);
    }
  }

  /** Any blanks and tabs may stand behind the colon. */
  predicate AreBlanks(blanks: seq<Byte>)
  {
    forall i :: 0 <= i < |blanks| ==> blanks[i] == 32 || blanks[i] == 9
  }

  function LengthLine(blanks: seq<Byte>, ds: seq<nat>): seq<Byte>
    requires AreDigits(10, ds)
  {
    Ascii("Content-Length:") + blanks + DigitBytes(ds)
  }

  lemma {:induction false} BlanksAreDropped(blanks: seq<Byte>, v: seq<Byte>)
    requires AreBlanks(blanks) && (v == [] || !IsBlank(v[0]))
    ensures DropBlanks(blanks + v) == v
  {
    if blanks == [] {
      assert blanks + v == v;
    } else {
      assert (blanks + v)[1..] == blanks[1..] + v;
      BlanksAreDropped(blanks[1..], v);
    }
  }

  /** Name, colon, blanks and value. */
  lemma PartsOfLine(name: seq<Byte>, blanks: seq<Byte>, v: seq<Byte>)
    requires name != [] && (forall i :: 0 <= i < |name| ==> name[i] != COLON) && AreBlanks(blanks)
    requires v == [] || !IsBlank(v[0])
    ensures var l := name + [COLON] + blanks + v;
            HasName(l) && NameOf(l) == name && ValueOf(l) == v
  {
    hide DropBlanks;
    var l, c := name + [COLON] + blanks + v, |name|;
    ColonSkips(l, 1, c);
    assert l[c] == COLON;
    assert ColonFrom(l, c) == c;
    assert l[..c] == name && l[c + 1..] == blanks + v;
    BlanksAreDropped(blanks, v);
  }

  lemma LengthName()
    ensures var name := Ascii("Content-Length");
            && Ascii("Content-Length:") == name + [COLON] && |CONTENT_LENGTH| == 14
            && (forall i :: 0 <= i < 14 ==> SameLetter(name[i], CONTENT_LENGTH[i]))
            && (forall i :: 0 <= i < 14 ==> name[i] != COLON && !IsEol(name[i]))
  {
    var text := "Content-Length";
    var name := Ascii(text);
    forall i | 0 <= i < 14
      ensures SameLetter(name[i], CONTENT_LENGTH[i]) && name[i] != COLON && !IsEol(name[i])
    {
      assert name[i] == text[i] as int;
    }
  }

  /** "Content-Length:", blanks and digits announce the number that the digits write. */
  lemma LengthLineAnnounces(blanks: seq<Byte>, ds: seq<nat>)
    requires AreDigits(10, ds) && ds != [] && AreBlanks(blanks)
    ensures var l := LengthLine(blanks, ds);
            IsLine(l) && IsLengthLine(l) && ValueOf(l) == DigitBytes(ds)
    ensures AllDigits(DigitBytes(ds)) && Decimal(DigitBytes(ds)) == Value(10, ds)
  {
    hide Decimal, Value, SameLetter, HasName, NameOf, ValueOf;
    LengthName();
    DecimalOfDigits(ds);
    var name, digits := Ascii("Content-Length"), DigitBytes(ds);
    var l := LengthLine(blanks, ds);
    assert l == name + [COLON] + blanks + digits;
    assert !IsBlank(digits[0]);
    PartsOfLine(name, blanks, digits);
    assert CONTENT_LENGTH[..14] == CONTENT_LENGTH;
    NoBreakIn(name, blanks, digits);
  }

  lemma ChunkedName()
    ensures var name := Ascii("Transfer-Encoding");
            && Ascii("Transfer-Encoding:") == name + [COLON] && |TRANSFER_ENCODING| == 17
            && (forall i :: 0 <= i < 17 ==> SameLetter(name[i], TRANSFER_ENCODING[i]))
            && (forall i :: 0 <= i < 17 ==> name[i] != COLON && !IsEol(name[i]))
  {
    var text := "Transfer-Encoding";
    var name := Ascii(text);
    forall i | 0 <= i < 17
      ensures SameLetter(name[i], TRANSFER_ENCODING[i]) && name[i] != COLON && !IsEol(name[i])
    {
      assert name[i] == text[i] as int;
    }
  }

  lemma ChunkedValue()
    ensures var value := Ascii("chunked");
            |CHUNKED| == 7 && value[0] == 99 && forall i :: 0 <= i < 7 ==> SameLetter(value[i], CHUNKED[i]) && !IsEol(value[i])
  {
  }

  function ChunkedLine(blanks: seq<Byte>): seq<Byte>
  {
    Ascii("Transfer-Encoding:") + blanks + Ascii("chunked")
  }

  /** "Transfer-Encoding:", blanks and "chunked" say that the body is chunked. */
  lemma ChunkedLineSaysSo(blanks: seq<Byte>)
    requires AreBlanks(blanks)
    ensures IsLine(ChunkedLine(blanks)) && IsChunkedLine(ChunkedLine(blanks)) && !IsLengthLine(ChunkedLine(blanks))
  {
    hide SameLetter, HasName, NameOf, ValueOf, IsLengthLine;
    ChunkedName();
    ChunkedValue();
    var name, value := Ascii("Transfer-Encoding"), Ascii("chunked");
    var l := ChunkedLine(blanks);
    assert l == name + [COLON] + blanks + value;
    PartsOfLine(name, blanks, value);
    assert TRANSFER_ENCODING[..17] == TRANSFER_ENCODING;
    assert value[..7] == value;
    NoBreakIn(name, blanks, value);
    if IsLengthLine(l) {
      NotBoth(l);
    }
  }

  lemma NoBreakIn(name: seq<Byte>, blanks: seq<Byte>, value: seq<Byte>)
    requires (forall i :: 0 <= i < |name| ==> !IsEol(name[i])) && AreBlanks(blanks)
    requires forall i :: 0 <= i < |value| ==> !IsEol(value[i])
    ensures IsLine(name + [COLON] + blanks + value)
  {
  }

  lemma StatusLine()
    ensures var line := Ascii("HTTP/1.1 200 OK"); IsLine(line) && !HasName(line)
  {
    var text := "HTTP/1.1 200 OK";
    var line := Ascii(text);
    forall i | 0 <= i < 15
      ensures line[i] != COLON && !IsEol(line[i])
    {
      assert line[i] == text[i] as int;
    }
    ColonSkips(line, 1, 15);
  }

  // ----- the code -----

  predicate IsText(lines: seq<seq<Byte>>, eol: seq<Byte>)
  {
    IsBreak(eol) && AllLines(lines) && lines != []
  }

  lemma EndOfText(lines: seq<seq<Byte>>, eol: seq<Byte>, x: seq<Byte>)
    requires IsText(lines, eol)
    ensures ScanEnd(Text(lines, eol) + x, 0) == |Text(lines, eol)|
  {
    hide ScanEnd;
    TextIsHeader(lines, eol);
    ScanEndIsStable(Text(lines, eol), x, 0);
  }

  lemma MeaningOfText(lines: seq<seq<Byte>>, eol: seq<Byte>, x: seq<Byte>)
    requires IsText(lines, eol)
    ensures Says(lines, eol, x, HeaderInfo(Text(lines, eol) + x, |Text(lines, eol)|))
  {
    hide Says, HeaderInfo;
    HeaderMeaning(lines, eol, x);
  }

  /** The scanning loop: it finds the end of the first empty line. */
  method FindEnd(h: seq<Byte>) returns (end: nat)
    ensures end == ScanEnd(h, 0)
    ensures forall lines, eol, x :: h == Text(lines, eol) + x && IsText(lines, eol) ==> end == |Text(lines, eol)|
  {
    hide Text, IsText;
    end := 0;
    var i := 0;
    while i < |h| - 1 && end == 0
      invariant 0 <= i
      invariant if end == 0 then ScanEnd(h, 0) == ScanEnd(h, i) else end == ScanEnd(h, 0)
      decreases |h| - i
    {
      if h[i] == CR {
        i := i + 1;
        if h[i] == LF {
          i := i + 1;
          if i < |h| && h[i] == CR {
            i := i + 1;
            if i < |h| && h[i] == LF {
              end := i + 1;
            }
          }
        }
      } else if h[i] == LF {
        i := i + 1;
        if h[i] == LF {
          end := i + 1;
        }
      }
      i := i + 1;
    }
    forall lines, eol, x | h == Text(lines, eol) + x && IsText(lines, eol)
      ensures end == |Text(lines, eol)|
    {
      EndOfText(lines, eol, x);
    }
  }

  /** The parsing loop: it reports what the lines say. */
  method ParseHeaders(h: seq<Byte>, e: nat) returns (info: Info)
    requires e <= |h|
    ensures info == HeaderInfo(h, e)
    ensures forall lines, eol, x :: h == Text(lines, eol) + x && e == |Text(lines, eol)| && IsText(lines, eol)
              ==> Says(lines, eol, x, info)
  {
    hide EndLine, Text, IsText, Says;
    info := Info(-1, false, true);
    var i: nat, lineStart: nat, colon: nat, value: nat := 0, 0, 0, 0;
    while i < e - 1
      invariant Lines(h, e, i, lineStart, colon, value, info) == HeaderInfo(h, e)
      decreases e - i
    {
      ghost var i0 := i;
      if colon <= lineStart && h[i] == 58 {
        colon := i;
        while i < e - 1 && IsBlank(h[i + 1])
          invariant i0 <= i < e
          invariant SkipBlanks(h, e, i) == SkipBlanks(h, e, i0)
        {
          i := i + 1;
        }
        value := i + 1;
      } else if h[i] == CR || h[i] == LF {
        info := EndLine(h, e, lineStart, colon, value, info);
        while i < |h| && (h[i] == CR || h[i] == LF)
          invariant i0 <= i <= |h|
          invariant SkipEol(h, i) == SkipEol(h, i0)
        {
          i := i + 1;
        }
        lineStart := i;
        colon := lineStart;
        value := 0;
      }
      i := i + 1;
    }
    forall lines, eol, x | h == Text(lines, eol) + x && e == |Text(lines, eol)| && IsText(lines, eol)
      ensures Says(lines, eol, x, info)
    {
      MeaningOfText(lines, eol, x);
    }
  }
}
