/** The header part of `getHTTPResponse` (miniupnpc/miniwget.c:93-176): finding the end of the headers
    in what has been received so far, and picking Content-Length and Transfer-Encoding out of them.
    Both depend only on the header bytes, wherever the packets were cut. */
module HttpHeader {
  import opened Common

  const CR: Byte := 13
  const LF: Byte := 10

  // ----- end of the headers -----

  /** The scan for an empty line from index i on: the index behind it, or 0. */
  function ScanEnd(h: seq<Byte>, i: nat): (e: nat)
    ensures e > 0 ==> i + 2 <= e <= |h| && h[e - 1] == LF
    decreases |h| - i
  {
    if i + 1 >= |h| then 0
    else if h[i] == CR then
      if h[i + 1] != LF then ScanEnd(h, i + 2)
      else if i + 2 < |h| && h[i + 2] == CR then
        if i + 3 < |h| && h[i + 3] == LF then i + 4 else ScanEnd(h, i + 4)
      else ScanEnd(h, i + 3)
    else if h[i] == LF then
      if h[i + 1] == LF then i + 2 else ScanEnd(h, i + 2)
    else ScanEnd(h, i + 1)
  }

  /** Once found, the end stays where it is however much more arrives, and it is found as soon as
      the last byte of the headers is there. */
  lemma {:induction false} ScanEndIsStable(h: seq<Byte>, x: seq<Byte>, i: nat)
    ensures ScanEnd(h, i) > 0 ==> ScanEnd(h + x, i) == ScanEnd(h, i)
    decreases |h| - i
  {
    if i + 1 < |h| {
      var g := h + x;
      assert g[i] == h[i] && g[i + 1] == h[i + 1];
      if h[i] == CR {
        if h[i + 1] != LF {
          ScanEndIsStable(h, x, i + 2);
        } else if i + 2 < |h| && h[i + 2] == CR {
          assert g[i + 2] == h[i + 2];
          if i + 3 < |h| {
            assert g[i + 3] == h[i + 3];
            ScanEndIsStable(h, x, i + 4);
          }
        } else if i + 2 < |h| {
          assert g[i + 2] == h[i + 2];
          ScanEndIsStable(h, x, i + 3);
        }
      } else if h[i] == LF {
        ScanEndIsStable(h, x, i + 2);
      } else {
        ScanEndIsStable(h, x, i + 1);
      }
    }
  }

  /** A header block: the scan finds its end at its last byte. */
  predicate IsHeader(h: seq<Byte>)
  {
    h != [] && ScanEnd(h, 0) == |h|
  }

  /** Of a stream that starts with a header block, a prefix shows the end exactly if it contains it. */
  lemma EndOfPrefix(h: seq<Byte>, body: seq<Byte>, q: seq<Byte>)
    requires IsHeader(h) && q <= h + body
    ensures ScanEnd(q, 0) == if |q| < |h| then 0 else |h|
  {
    if |q| < |h| {
      assert q + h[|q|..] == h;
      ScanEndIsStable(q, h[|q|..], 0);
    } else {
      assert h + q[|h|..] == q;
      ScanEndIsStable(h, q[|h|..], 0);
    }
  }

  // ----- the C string functions used on header lines -----

  function Lower(c: Byte): Byte
  {
    if 65 <= c <= 90 then c + 32 else c
  }

  /** strncasecmp(h + at, lit, n) == 0, for a lower-case literal. */
  predicate SameText(h: seq<Byte>, at: nat, lit: seq<Byte>, n: nat)
    decreases n
  {
    n == 0 ||
    (at < |h| &&
     if lit == [] then h[at] == 0
     else Lower(h[at]) == lit[0] && SameText(h, at + 1, lit[1..], n - 1))
  }

  predicate IsBlank(c: Byte)
  {
    c == 32 || c == 9
  }

  predicate IsSpace(c: Byte)
  {
    c == 32 || 9 <= c <= 13
  }

  predicate IsDigit(c: Byte)
  {
    48 <= c <= 57
  }

  function SkipSpaces(h: seq<Byte>, i: nat): (j: nat)
    ensures i <= j && (i <= |h| ==> j <= |h|)
    decreases |h| - i
  {
    if i < |h| && IsSpace(h[i]) then SkipSpaces(h, i + 1) else i
  }

  function ReadDigits(h: seq<Byte>, i: nat, acc: nat): nat
    decreases |h| - i
  {
    if i < |h| && IsDigit(h[i]) then ReadDigits(h, i + 1, 10 * acc + h[i] - 48) else acc
  }

  /** atoi(h + at). */
  function Atoi(h: seq<Byte>, at: nat): int
  {
    var i := SkipSpaces(h, at);
    if i < |h| && h[i] == 45 then 0 - ReadDigits(h, i + 1, 0) as int
    else if i < |h| && h[i] == 43 then ReadDigits(h, i + 1, 0)
    else ReadDigits(h, i, 0)
  }

  /** The number does not depend on what follows: its text starts inside h. */
  predicate Settled(h: seq<Byte>, at: nat)
  {
    SkipSpaces(h, at) < |h|
  }

  lemma {:induction false} SkipSpacesStable(h: seq<Byte>, x: seq<Byte>, i: nat)
    requires SkipSpaces(h, i) < |h|
    ensures SkipSpaces(h + x, i) == SkipSpaces(h, i)
    decreases |h| - i
  {
    if i < |h| && IsSpace(h[i]) {
      SkipSpacesStable(h, x, i + 1);
    }
  }

  lemma {:induction false} ReadDigitsStable(h: seq<Byte>, x: seq<Byte>, i: nat, acc: nat)
    requires i < |h| && h[|h| - 1] == LF
    ensures ReadDigits(h + x, i, acc) == ReadDigits(h, i, acc)
    decreases |h| - i
  {
    if IsDigit(h[i]) {
      ReadDigitsStable(h, x, i + 1, 10 * acc + h[i] - 48);
    }
  }

  lemma AtoiStable(h: seq<Byte>, x: seq<Byte>, at: nat)
    requires h != [] && h[|h| - 1] == LF && Settled(h, at)
    ensures Atoi(h + x, at) == Atoi(h, at)
  {
    hide ReadDigits, SkipSpaces;
    SkipSpacesStable(h, x, at);
    var i := SkipSpaces(h, at);
    ReadDigitsStable(h, x, i, 0);
    if i + 1 < |h| {
      ReadDigitsStable(h, x, i + 1, 0);
    }
  }

  lemma {:induction false} SameTextStable(h: seq<Byte>, x: seq<Byte>, at: nat, lit: seq<Byte>, n: nat, stop: nat)
    requires at <= stop < |h| && (at + n <= stop || (h[stop] == CR || h[stop] == LF))
    requires forall c :: c in lit ==> c != CR && c != LF
    requires n <= |lit| || at + n <= stop
    ensures SameText(h + x, at, lit, n) == SameText(h, at, lit, n)
    decreases n
  {
    if n > 0 && lit != [] {
      assert lit[0] in lit;
      if at < stop {
        assert forall c :: c in lit[1..] ==> c in lit;
        SameTextStable(h, x, at + 1, lit[1..], n - 1, stop);
      }
    }
  }

  // ----- header lines -----

  /** What the headers say: the length (-1 if none), whether the body is chunked, and whether every
      Content-Length line has its number inside the headers. */
  datatype Info = Info(contentLength: int, chunked: bool, settled: bool)

  /** "content-length", "transfer-encoding" and "chunked". */
  const CONTENT_LENGTH: seq<Byte> := [99, 111, 110, 116, 101, 110, 116, 45, 108, 101, 110, 103, 116, 104]
  const TRANSFER_ENCODING: seq<Byte> :=
    [116, 114, 97, 110, 115, 102, 101, 114, 45, 101, 110, 99, 111, 100, 105, 110, 103]
  const CHUNKED: seq<Byte> := [99, 104, 117, 110, 107, 101, 100]

  predicate IsEol(c: Byte)
  {
    c == CR || c == LF
  }

  /** At the end of a line whose name is h[lineStart..colon] and whose value starts at `value`. Only
      the length of the name is compared, so any prefix of a known name counts as that name. */
  function EndLine(h: seq<Byte>, e: nat, lineStart: nat, colon: nat, value: nat, info: Info): Info
    requires e <= |h|
  {
    if !(colon > lineStart && value > colon) then info
    else if SameText(h, lineStart, CONTENT_LENGTH, colon - lineStart) then
      info.(contentLength := Atoi(h, value), settled := info.settled && Settled(h[..e], value))
    else if SameText(h, lineStart, TRANSFER_ENCODING, colon - lineStart) && SameText(h, value, CHUNKED, 7) then
      info.(chunked := true)
    else info
  }

  function SkipBlanks(h: seq<Byte>, e: nat, i: nat): (j: nat)
    requires e <= |h|
    ensures i <= j && (i < e ==> j < e)
    decreases e - i
  {
    if i + 1 < e && IsBlank(h[i + 1]) then SkipBlanks(h, e, i + 1) else i
  }

  function SkipEol(h: seq<Byte>, i: nat): (j: nat)
    ensures i <= j && (i <= |h| ==> j <= |h|)
    decreases |h| - i
  {
    if i < |h| && IsEol(h[i]) then SkipEol(h, i + 1) else i
  }

  /** The loop over the header bytes, from index i on. */
  function Lines(h: seq<Byte>, e: nat, i: nat, lineStart: nat, colon: nat, value: nat, info: Info): Info
    requires e <= |h|
    decreases e - i
  {
    if i + 1 >= e then info
    else if colon <= lineStart && h[i] == 58 then
      var j := SkipBlanks(h, e, i);
      Lines(h, e, j + 1, lineStart, i, j + 1, info)
    else if IsEol(h[i]) then
      var j := SkipEol(h, i);
      Lines(h, e, j + 1, j, j, 0, EndLine(h, e, lineStart, colon, value, info))
    else Lines(h, e, i + 1, lineStart, colon, value, info)
  }

  function HeaderInfo(h: seq<Byte>, e: nat): Info
    requires e <= |h|
  {
    Lines(h, e, 0, 0, 0, 0, Info(-1, false, true))
  }

  lemma {:induction false} SettledStaysFalse(h: seq<Byte>, e: nat, i: nat, lineStart: nat, colon: nat, value: nat, info: Info)
    requires e <= |h| && !info.settled
    ensures !Lines(h, e, i, lineStart, colon, value, info).settled
    decreases e - i
  {
    hide SameText, Atoi, Settled;
    if i + 1 < e {
      if colon <= lineStart && h[i] == 58 {
        var j := SkipBlanks(h, e, i);
        SettledStaysFalse(h, e, j + 1, lineStart, i, j + 1, info);
      } else if IsEol(h[i]) {
        var j := SkipEol(h, i);
        SettledStaysFalse(h, e, j + 1, j, j, 0, EndLine(h, e, lineStart, colon, value, info));
      } else {
        SettledStaysFalse(h, e, i + 1, lineStart, colon, value, info);
      }
    }
  }

  lemma {:induction false} SkipBlanksStable(h: seq<Byte>, x: seq<Byte>, i: nat)
    ensures SkipBlanks(h + x, |h|, i) == SkipBlanks(h, |h|, i)
    decreases |h| - i
  {
    if i + 1 < |h| && IsBlank(h[i + 1]) {
      SkipBlanksStable(h, x, i + 1);
    }
  }

  lemma {:induction false} SkipEolStable(h: seq<Byte>, x: seq<Byte>, i: nat)
    requires i <= |h|
    ensures SkipEol(h, i) < |h| ==> SkipEol(h + x, i) == SkipEol(h, i)
    ensures SkipEol(h, i) == |h| ==> SkipEol(h + x, i) >= |h|
    decreases |h| - i
  {
    if i < |h| && IsEol(h[i]) {
      SkipEolStable(h, x, i + 1);
    }
  }

  lemma NamesHaveNoEol()
    ensures forall c :: c in CONTENT_LENGTH ==> c != CR && c != LF
    ensures forall c :: c in TRANSFER_ENCODING ==> c != CR && c != LF
    ensures forall c :: c in CHUNKED ==> c != CR && c != LF
    ensures |CHUNKED| == 7
  {
  }

  lemma EndLineStable(h: seq<Byte>, x: seq<Byte>, i: nat, lineStart: nat, colon: nat, value: nat, info: Info)
    requires i < |h| && IsEol(h[i]) && h[|h| - 1] == LF
    requires lineStart <= i && colon <= i && value <= i
    requires EndLine(h, |h|, lineStart, colon, value, info).settled
    ensures EndLine(h + x, |h|, lineStart, colon, value, info) == EndLine(h, |h|, lineStart, colon, value, info)
  {
    hide SameText, Atoi, Settled;
    NamesHaveNoEol();
    assert (h + x)[..|h|] == h && h[..|h|] == h;
    if colon > lineStart && value > colon {
      SameTextStable(h, x, lineStart, CONTENT_LENGTH, colon - lineStart, i);
      SameTextStable(h, x, lineStart, TRANSFER_ENCODING, colon - lineStart, i);
      SameTextStable(h, x, value, CHUNKED, 7, i);
      if SameText(h, lineStart, CONTENT_LENGTH, colon - lineStart) {
        AtoiStable(h, x, value);
      }
    }
  }

  lemma {:induction false} LinesStable(h: seq<Byte>, x: seq<Byte>, i: nat, lineStart: nat, colon: nat, value: nat, info: Info)
    requires h != [] && h[|h| - 1] == LF
    requires lineStart <= i && colon <= i && value <= i
    requires Lines(h, |h|, i, lineStart, colon, value, info).settled
    ensures Lines(h + x, |h|, i, lineStart, colon, value, info) == Lines(h, |h|, i, lineStart, colon, value, info)
    decreases |h| - i
  {
    hide EndLine;
    if i + 1 < |h| {
      assert (h + x)[i] == h[i];
      if colon <= lineStart && h[i] == 58 {
        SkipBlanksStable(h, x, i);
        var j := SkipBlanks(h, |h|, i);
        LinesStable(h, x, j + 1, lineStart, i, j + 1, info);
      } else if IsEol(h[i]) {
        SkipEolStable(h, x, i);
        var j := SkipEol(h, i);
        var next := EndLine(h, |h|, lineStart, colon, value, info);
        if !next.settled {
          SettledStaysFalse(h, |h|, j + 1, j, j, 0, next);
        }
        EndLineStable(h, x, i, lineStart, colon, value, info);
        LinesStable(h, x, j + 1, j, j, 0, next);
      } else {
        LinesStable(h, x, i + 1, lineStart, colon, value, info);
      }
    }
  }

  /** What the headers say does not depend on how much of the body arrived with them. */
  lemma HeaderInfoIsStable(h: seq<Byte>, x: seq<Byte>)
    requires IsHeader(h) && HeaderInfo(h, |h|).settled
    ensures HeaderInfo(h + x, |h|) == HeaderInfo(h, |h|)
  {
    hide Lines;
    LinesStable(h, x, 0, 0, 0, 0, Info(-1, false, true));
  }

  // ----- headers that end in a blank length -----

  lemma {:induction false} NoColonLeft(g: seq<Byte>, e: nat, i: nat, s: nat, v: nat, info: Info)
    requires e <= |g| && forall k :: i <= k < e ==> g[k] != 58
    ensures Lines(g, e, i, s, s, v, info) == info
    decreases e - i
  {
    if i + 1 < e {
      if IsEol(g[i]) {
        var j := SkipEol(g, i);
        NoColonLeft(g, e, j + 1, j, 0, info);
      } else {
        NoColonLeft(g, e, i + 1, s, v, info);
      }
    }
  }

  lemma {:induction false} SpacesToEnd(h: seq<Byte>, at: nat)
    requires at <= |h| && SkipSpaces(h, at) == |h|
    ensures forall k :: at <= k < |h| ==> IsSpace(h[k])
    ensures SkipSpaces(h + [55], at) == |h|
    decreases |h| - at
  {
    if at < |h| {
      SpacesToEnd(h, at + 1);
    }
  }

  /** A blank number is 0, and 7 if the body starts with "7". */
  lemma OpenNumber(h: seq<Byte>, at: nat)
    requires at <= |h| && !Settled(h, at)
    ensures Atoi(h, at) == 0 && Atoi(h + [55], at) == 7
    ensures forall k :: at <= k < |h| ==> h[k] != 58
  {
    SpacesToEnd(h, at);
    var g := h + [55];
    assert g[|h|] == 55;
    assert ReadDigits(g, |h| + 1, 7) == 7;
  }

  lemma OpenLine(h: seq<Byte>, i: nat, lineStart: nat, colon: nat, value: nat, info: Info)
    requires i < |h| && IsEol(h[i]) && h[|h| - 1] == LF
    requires lineStart <= i && colon <= i && value <= i
    requires info.settled && !EndLine(h, |h|, lineStart, colon, value, info).settled
    ensures EndLine(h, |h|, lineStart, colon, value, info) == info.(contentLength := 0, settled := false)
    ensures EndLine(h + [55], |h|, lineStart, colon, value, info) == info.(contentLength := 7, settled := false)
    ensures forall k :: i <= k < |h| ==> h[k] != 58
  {
    hide SameText, Atoi, Settled;
    NamesHaveNoEol();
    assert (h + [55])[..|h|] == h && h[..|h|] == h;
    SameTextStable(h, [55], lineStart, CONTENT_LENGTH, colon - lineStart, i);
    OpenNumber(h, value);
  }

  lemma {:induction false} OpenHeaders(h: seq<Byte>, i: nat, lineStart: nat, colon: nat, value: nat, info: Info)
    requires h != [] && h[|h| - 1] == LF
    requires lineStart <= i && colon <= i && value <= i
    requires info.settled && !Lines(h, |h|, i, lineStart, colon, value, info).settled
    ensures Lines(h, |h|, i, lineStart, colon, value, info).contentLength == 0
    ensures Lines(h + [55], |h|, i, lineStart, colon, value, info).contentLength == 7
    decreases |h| - i
  {
    hide EndLine;
    if i + 1 < |h| {
      var g := h + [55];
      assert g[i] == h[i];
      if colon <= lineStart && h[i] == 58 {
        SkipBlanksStable(h, [55], i);
        var j := SkipBlanks(h, |h|, i);
        OpenHeaders(h, j + 1, lineStart, i, j + 1, info);
      } else if IsEol(h[i]) {
        SkipEolStable(h, [55], i);
        var j := SkipEol(h, i);
        var next := EndLine(h, |h|, lineStart, colon, value, info);
        if next.settled {
          EndLineStable(h, [55], i, lineStart, colon, value, info);
          if j < |h| {
            OpenHeaders(h, j + 1, j, j, 0, next);
          }
        } else {
          OpenLine(h, i, lineStart, colon, value, info);
          NoColonLeft(h, |h|, j + 1, j, 0, next);
          var j' := SkipEol(g, i);
          NoColonLeft(g, |h|, j' + 1, j', 0, EndLine(g, |h|, lineStart, colon, value, info));
        }
      } else {
        OpenHeaders(h, i + 1, lineStart, colon, value, info);
      }
    }
  }

  /** What the headers say is independent of the bytes behind them if and only if every number in them is
      settled; if one is not, the single byte "7" makes a difference. */
  lemma StableIffSettled(h: seq<Byte>)
    requires IsHeader(h)
    ensures (forall x :: HeaderInfo(h + x, |h|) == HeaderInfo(h, |h|)) <==> HeaderInfo(h, |h|).settled
    ensures !HeaderInfo(h, |h|).settled ==>
      HeaderInfo(h, |h|).contentLength == 0 && HeaderInfo(h + [55], |h|).contentLength == 7
  {
    hide Lines;
    if HeaderInfo(h, |h|).settled {
      forall x
        ensures HeaderInfo(h + x, |h|) == HeaderInfo(h, |h|)
      {
        HeaderInfoIsStable(h, x);
      }
    } else {
      OpenHeaders(h, 0, 0, 0, 0, Info(-1, false, true));
      assert HeaderInfo(h + [55], |h|) != HeaderInfo(h, |h|);
    }
  }
}
