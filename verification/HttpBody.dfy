/** The body part of `getHTTPResponse` (miniupnpc/miniwget.c:178-278): chunked bodies, whose decoder
    keeps its state across packets, and plain bodies with or without a length. */
module HttpBody {
  import opened Common
  import opened HttpHeader

  const TWO31 := 0x8000_0000
  const SIZE_DIGITS := 31

  // ----- chunk sizes -----

  predicate IsHex(c: Byte)
  {
    48 <= c <= 57 || 65 <= c <= 70 || 97 <= c <= 102
  }

  function HexDigit(c: Byte): (d: nat)
    requires IsHex(c)
    ensures d < 16
  {
    if c <= 57 then c - 48 else if c <= 70 then c - 55 else c - 87
  }

  predicate AllHex(s: seq<Byte>)
  {
    forall i :: 0 <= i < |s| ==> IsHex(s[i])
  }

  function HexValue(s: seq<Byte>): nat
    requires AllHex(s)
  {
    if s == [] then 0 else 16 * HexValue(s[..|s| - 1]) + HexDigit(s[|s| - 1])
  }

  /** The same in 32 bits: every shift drops what does not fit. */
  function HexValue32(s: seq<Byte>): (v: nat)
    requires AllHex(s)
    ensures v < TWO32
  {
    if s == [] then 0 else (16 * HexValue32(s[..|s| - 1]) + HexDigit(s[|s| - 1])) % TWO32
  }

  lemma {:induction false} SmallHexValue(s: seq<Byte>)
    requires AllHex(s) && HexValue(s) < TWO32
    ensures HexValue32(s) == HexValue(s)
  {
    if s != [] {
      SmallHexValue(s[..|s| - 1]);
    }
  }

  /** The usual hexadecimal notation, in small letters or capitals. */
  function HexText(n: nat, capitals: bool): seq<Byte>
  {
    (if n < 16 then [] else HexText(n / 16, capitals)) + [HexLetter(n % 16, capitals)]
  }

  function HexLetter(d: nat, capitals: bool): Byte
    requires d < 16
  {
    if capitals then Ascii("0123456789ABCDEF")[d] else Ascii("0123456789abcdef")[d]
  }

  lemma HexLetters(d: nat)
    requires d < 16
    ensures IsHex(HexLetter(d, false)) && HexDigit(HexLetter(d, false)) == d
    ensures IsHex(HexLetter(d, true)) && HexDigit(HexLetter(d, true)) == d
  {
    if d < 10 {
      assert "0123456789abcdef"[d] as int == 48 + d && "0123456789ABCDEF"[d] as int == 48 + d;
    } else {
      assert "0123456789abcdef"[d] as int == 87 + d && "0123456789ABCDEF"[d] as int == 55 + d;
    }
  }

  /** A number in hexadecimal notation is read as that number. */
  lemma {:induction false} HexTextIsRead(n: nat, capitals: bool)
    ensures AllHex(HexText(n, capitals)) && HexText(n, capitals) != [] && HexValue(HexText(n, capitals)) == n
  {
    hide IsHex, HexDigit, HexLetter;
    HexLetters(n % 16);
    var s := HexText(n, capitals);
    if n < 16 {
      assert s[..0] == [];
      NoHexDigits();
    } else {
      HexTextIsRead(n / 16, capitals);
      assert s[..|s| - 1] == HexText(n / 16, capitals);
    }
  }

  lemma NoHexDigits()
    ensures HexValue([]) == 0
  {
  }

  // ----- one turn of the chunk loop -----

  /** The decoder between two turns: bytes still missing from the current chunk, the digits of a size
      line read so far, and the body decoded so far. */
  datatype Decoder = Decoder(chunkSize: nat, sizeBuf: seq<Byte>, content: seq<Byte>)

  /** Going on with the rest of the packet, the end of the stream, or a copy beyond the packet. */
  datatype Turn = Continue(d: Decoder, rest: seq<Byte>) | EndOfStream(content: seq<Byte>) | Overrun

  function DropOne(b: seq<Byte>, c: Byte): (r: seq<Byte>)
    ensures |r| <= |b|
  {
    if b != [] && b[0] == c then b[1..] else b
  }

  /** How many hex digits stand at the front, up to `room`. */
  function HexRun(b: seq<Byte>, room: nat): (n: nat)
    ensures n <= |b| && n <= room && AllHex(b[..n])
  {
    if b != [] && room > 0 && IsHex(b[0]) then
      var n := HexRun(b[1..], room - 1);
      assert b[..n + 1] == [b[0]] + b[1..][..n];
      n + 1
    else 0
  }

  function SkipExtension(b: seq<Byte>): (r: seq<Byte>)
    ensures |r| <= |b|
  {
    if b != [] && !IsEol(b[0]) then SkipExtension(b[1..]) else b
  }

  /** Copying from the packet. A size of 2^31 or more is negative as a C int and would be copied whole. */
  function Copy(size: nat, content: seq<Byte>, b: seq<Byte>): Turn
  {
    if size >= TWO31 then Overrun
    else
      var n := if size < |b| then size else |b|;
      Continue(Decoder(size - n, [], content + b[..n]), b[n..])
  }

  predicate Sane(d: Decoder)
  {
    AllHex(d.sizeBuf) && |d.sizeBuf| <= SIZE_DIGITS && (d.chunkSize > 0 ==> d.sizeBuf == [])
  }

  /** A size line behind its leading line break. */
  function FromDigits(d: Decoder, b1: seq<Byte>): Turn
    requires Sane(d)
  {
    var n := HexRun(b1, SIZE_DIGITS - |d.sizeBuf|);
    BehindDigits(d.sizeBuf + b1[..n], DropOne(SkipExtension(b1[n..]), CR), d.content)
  }

  /** Behind the CR of a size line: only an LF completes it. */
  function BehindDigits(digits: seq<Byte>, b2: seq<Byte>, content: seq<Byte>): Turn
    requires AllHex(digits)
  {
    if b2 == [] || b2[0] != LF then Continue(Decoder(0, digits, content), b2)
    else
      var size := HexValue32(digits);
      if size == 0 then EndOfStream(content) else Copy(size, content, b2[1..])
  }

  /** A size line: behind a chunk, its line break comes first. */
  function SizeLine(d: Decoder, b: seq<Byte>): Turn
    requires Sane(d)
  {
    FromDigits(d, if d.sizeBuf == [] then DropOne(DropOne(b, CR), LF) else b)
  }

  function OneTurn(d: Decoder, b: seq<Byte>): (t: Turn)
    requires Sane(d)
    ensures t.Continue? ==> Sane(t.d)
  {
    if d.chunkSize == 0 then SizeLine(d, b) else Copy(d.chunkSize, d.content, b)
  }

  lemma SkipExtensionShrinks(b: seq<Byte>)
    ensures b != [] && !IsEol(b[0]) ==> |SkipExtension(b)| < |b|
    ensures b == [] || IsEol(b[0]) ==> SkipExtension(b) == b
  {
  }

  lemma FromDigitsShrinks(d: Decoder, b: seq<Byte>)
    requires Sane(d)
    ensures FromDigits(d, b).Continue? ==> |FromDigits(d, b).rest| <= |b|
    ensures FromDigits(d, b).Continue? && b != [] ==> |FromDigits(d, b).rest| < |b|
  {
    hide HexValue32, AllHex, SkipExtension, HexRun;
    var n := HexRun(b, SIZE_DIGITS - |d.sizeBuf|);
    SkipExtensionShrinks(b[n..]);
    if n == 0 {
      assert b[n..] == b;
    }
  }

  lemma SizeLineShrinks(d: Decoder, b: seq<Byte>)
    requires Sane(d) && b != []
    ensures SizeLine(d, b).Continue? ==> |SizeLine(d, b).rest| < |b|
  {
    hide FromDigits;
    FromDigitsShrinks(d, if d.sizeBuf == [] then DropOne(DropOne(b, CR), LF) else b);
  }

  lemma TurnShrinks(d: Decoder, b: seq<Byte>)
    requires Sane(d) && b != []
    ensures OneTurn(d, b).Continue? ==> |OneTurn(d, b).rest| < |b|
  {
    hide SizeLine;
    if d.chunkSize == 0 {
      SizeLineShrinks(d, b);
    }
  }

  /** The chunk loop over one packet. */
  function Turns(d: Decoder, b: seq<Byte>): (t: Turn)
    requires Sane(d)
    ensures t.Continue? ==> Sane(t.d)
    decreases |b|
  {
    if b == [] then Continue(d, []) else
      TurnShrinks(d, b);
      match OneTurn(d, b)
      case Continue(d', rest) => Turns(d', rest)
      case EndOfStream(content) => EndOfStream(content)
      case Overrun => Overrun
  }

  // ----- well-formed chunked streams -----

  /** A size line without its line break: hex digits, and an extension behind them. */
  datatype Size = Size(digits: seq<Byte>, ext: seq<Byte>)

  datatype Chunk = Chunk(size: Size, data: seq<Byte>)

  const CRLF: seq<Byte> := [CR, LF]

  predicate IsDigits(digits: seq<Byte>)
  {
    1 <= |digits| <= 31 && AllHex(digits)
  }

  predicate NoEol(t: seq<Byte>)
  {
    forall i :: 0 <= i < |t| ==> !IsEol(t[i])
  }

  predicate NoHex(t: seq<Byte>)
  {
    forall i :: 0 <= i < |t| ==> !IsHex(t[i])
  }

  /** Digits in either case, leading zeros allowed. The extension has no hex digit in it, which could be
      read as one of the size, unless the buffer for the digits is full. */
  predicate IsSize(s: Size)
  {
    IsDigits(s.digits) && NoEol(s.ext) && (|s.digits| == 31 || NoHex(s.ext))
  }

  /** A size line and that many bytes of data. */
  predicate IsChunk(c: Chunk)
  {
    IsSize(c.size) && HexValue(c.size.digits) == |c.data| && 0 < |c.data| < 0x8000_0000
  }

  predicate IsLast(last: Size)
  {
    IsSize(last) && HexValue(last.digits) == 0
  }

  /** A size that is negative as a C int. */
  predicate IsHuge(last: Size)
  {
    IsSize(last) && HexValue32(last.digits) >= 0x8000_0000
  }

  /** The last size line that is read. */
  predicate IsFinal(last: Size)
  {
    IsLast(last) || IsHuge(last)
  }

  /** The stream ends at a zero size, and the packet is left behind at a huge one. */
  predicate Ends(t: Turn, last: Size)
  {
    (t.EndOfStream? ==> IsLast(last)) && (t.Overrun? ==> IsHuge(last))
  }

  predicate AllChunks(cs: seq<Chunk>)
  {
    forall c :: c in cs ==> IsChunk(c)
  }

  /** The chunks, the final size line, and anything after it. */
  function Encoded(cs: seq<Chunk>, last: Size, after: seq<Byte>): seq<Byte>
  {
    First(cs, last).digits + BehindFirst(cs, last, after)
  }

  /** What follows the digits of the first size line. */
  function BehindFirst(cs: seq<Chunk>, last: Size, after: seq<Byte>): seq<Byte>
  {
    First(cs, last).ext + (CRLF + BehindLine(cs, last, after))
  }

  function First(cs: seq<Chunk>, last: Size): Size
  {
    if cs == [] then last else cs[0].size
  }

  /** What follows the first size line. */
  function BehindLine(cs: seq<Chunk>, last: Size, after: seq<Byte>): seq<Byte>
    decreases |cs|, 0
  {
    if cs == [] then after else
      var next := First(cs[1..], last);
      cs[0].data + (CRLF + (next.digits + (next.ext + (CRLF + BehindLine(cs[1..], last, after)))))
  }

  function Decoded(cs: seq<Chunk>): seq<Byte>
  {
    if cs == [] then [] else cs[0].data + Decoded(cs[1..])
  }

  /** Where the decoder stands in a well-formed stream of which `stream` is still to come: before a
      size line, with part of the line break behind the previous chunk left (`gap`); inside a size
      line, of whose digits k are read, or of whose extension `rest` is left; between its CR and LF;
      or inside a chunk. */
  datatype Place =
    | BeforeLine(gap: seq<Byte>)
    | InDigits(k: nat)
    | InExtension(rest: seq<Byte>)
    | BeforeLf
    | InData(left: seq<Byte>)

  /** The decoder d is at place p before the chunks cs. */
  ghost predicate Stands(d: Decoder, stream: seq<Byte>, p: Place, cs: seq<Chunk>, last: Size, after: seq<Byte>)
  {
    var digits := First(cs, last).digits;
    match p
    case BeforeLine(gap) =>
      && d.chunkSize == 0 && d.sizeBuf == [] && (gap == [] || gap == [LF] || gap == CRLF)
      && stream == gap + Encoded(cs, last, after)
    case InDigits(k) =>
      && d.chunkSize == 0 && 0 < k <= |digits| && d.sizeBuf == digits[..k]
      && stream == digits[k..] + BehindFirst(cs, last, after)
    case InExtension(rest) =>
      && d.chunkSize == 0 && d.sizeBuf == digits && IsSize(Size(digits, rest))
      && stream == rest + (CRLF + BehindLine(cs, last, after))
    case BeforeLf =>
      && d.chunkSize == 0 && d.sizeBuf == digits
      && stream == [LF] + BehindLine(cs, last, after)
    case InData(left) =>
      && d.chunkSize == |left| && d.sizeBuf == [] && 0 < |left| < TWO31
      && stream == left + (CRLF + Encoded(cs, last, after))
  }

  /** The body still to be decoded from there. */
  function Remaining(p: Place, cs: seq<Chunk>): seq<Byte>
  {
    (if p.InData? then p.left else []) + Decoded(cs)
  }

  // ----- a turn moves along a well-formed stream -----

  lemma {:induction false} HexRunIs(b: seq<Byte>, room: nat, n: nat)
    requires n <= |b| && n <= room && AllHex(b[..n]) && (n < |b| && n < room ==> !IsHex(b[n]))
    ensures HexRun(b, room) == n
  {
    if n > 0 {
      assert IsHex(b[..n][0]);
      var rest := b[1..][..n - 1];
      forall i | 0 <= i < |rest|
        ensures IsHex(rest[i])
      {
        assert IsHex(b[..n][i + 1]);
      }
      HexRunIs(b[1..], room - 1, n - 1);
    }
  }

  /** A chunk is copied as far as the packet goes. */
  lemma CopyAdvances(left: seq<Byte>, content: seq<Byte>, b: seq<Byte>, more: seq<Byte>, tail: seq<Byte>)
    requires 0 < |left| < TWO31 && b + more == left + tail
    ensures var n := Min(|left|, |b|);
            && Copy(|left|, content, b) == Continue(Decoder(|left| - n, [], content + left[..n]), b[n..])
            && b[n..] + more == left[n..] + tail
  {
    var n := Min(|left|, |b|);
    assert b[..n] == (b + more)[..n] == left[..n];
    assert b[n..] + more == (b + more)[n..];
    assert left[n..] + tail == (left + tail)[n..];
  }

  /** After copying, the decoder stands in the same chunk or before the line break behind it. */
  lemma {:induction false} CopyStands(left: seq<Byte>, content: seq<Byte>, b: seq<Byte>, more: seq<Byte>,
                                      cs: seq<Chunk>, last: Size, after: seq<Byte>) returns (p: Place)
    requires 0 < |left| < TWO31 && b + more == left + (CRLF + Encoded(cs, last, after))
    ensures var t := Copy(|left|, content, b);
            && t.Continue?
            && Stands(t.d, t.rest + more, p, cs, last, after)
            && t.d.content + Remaining(p, cs) == content + (left + Decoded(cs))
  {
    hide Encoded;
    var tail := CRLF + Encoded(cs, last, after);
    CopyAdvances(left, content, b, more, tail);
    var n := Min(|left|, |b|);
    var t := Copy(|left|, content, b);
    assert left == left[..n] + left[n..];
    if n < |left| {
      p := InData(left[n..]);
      assert t.d.content + (left[n..] + Decoded(cs)) == content + (left + Decoded(cs));
    } else {
      p := BeforeLine(CRLF);
      assert left[n..] + tail == tail;
      assert left[..n] == left;
      assert t.d.content + ([] + Decoded(cs)) == content + (left + Decoded(cs));
    }
  }

  /** A complete size line: the end of the stream, or the start of a chunk. */
  lemma {:induction false} LineCompletes(content: seq<Byte>, b: seq<Byte>, more: seq<Byte>,
                                         cs: seq<Chunk>, last: Size, after: seq<Byte>)
    returns (t: Turn, p: Place, cs': seq<Chunk>)
    requires AllChunks(cs) && IsFinal(last) && b + more == BehindLine(cs, last, after)
    ensures AllHex(First(cs, last).digits)
    ensures var size := HexValue32(First(cs, last).digits);
            t == if size == 0 then EndOfStream(content) else Copy(size, content, b)
    ensures Ends(t, last)
    ensures t.EndOfStream? ==> t.content == content && Decoded(cs) == []
    ensures t.Continue? ==>
      AllChunks(cs') && Stands(t.d, t.rest + more, p, cs', last, after) &&
      t.d.content + Remaining(p, cs') == content + Decoded(cs)
  {
    hide HexValue, HexValue32, Copy, Stands, NoEol, NoHex;
    cs', p := [], BeforeLf;
    if cs == [] {
      FinalSize(last);
      t := if IsHuge(last) then Overrun else EndOfStream(content);
      HugeOverruns(HexValue32(last.digits), content, b);
    } else {
      var c := cs[0];
      assert IsChunk(c);
      SmallHexValue(c.size.digits);
      cs' := cs[1..];
      BehindChunk(cs, last, after);
      p := CopyStands(c.data, content, b, more, cs', last, after);
      t := Copy(|c.data|, content, b);
    }
  }

  lemma FinalSize(last: Size)
    requires IsFinal(last)
    ensures AllHex(last.digits) && (IsLast(last) <==> !IsHuge(last))
    ensures if IsHuge(last) then HexValue32(last.digits) >= TWO31 else HexValue32(last.digits) == 0
  {
    hide HexValue, HexValue32;
    if IsLast(last) {
      SmallHexValue(last.digits);
    }
  }

  lemma HugeOverruns(size: nat, content: seq<Byte>, b: seq<Byte>)
    ensures size >= TWO31 ==> Copy(size, content, b) == Overrun
  {
  }

  lemma BehindChunk(cs: seq<Chunk>, last: Size, after: seq<Byte>)
    requires cs != []
    ensures BehindLine(cs, last, after) == cs[0].data + (CRLF + Encoded(cs[1..], last, after))
  {
  }

  lemma FirstIsSize(cs: seq<Chunk>, last: Size)
    requires AllChunks(cs) && IsFinal(last)
    ensures IsSize(First(cs, last)) && IsDigits(First(cs, last).digits)
  {
    if cs != [] {
      assert IsChunk(cs[0]);
    }
  }

  lemma AllHexSlices(s: seq<Byte>, k: nat, n: nat)
    requires AllHex(s) && k <= n <= |s|
    ensures AllHex(s[..k]) && AllHex(s[k..n])
  {
  }

  /** Reading digits when the packet ends inside the digits. */
  lemma PartOfDigits(digits: seq<Byte>, k: nat, b: seq<Byte>, more: seq<Byte>, tail: seq<Byte>)
    requires IsDigits(digits) && k <= |digits| && b + more == digits[k..] + tail && |b| <= |digits| - k
    ensures HexRun(b, SIZE_DIGITS - k) == |b| && digits[..k] + b == digits[..k + |b|]
    ensures more == digits[k + |b|..] + tail
  {
    var n := k + |b|;
    assert b == (b + more)[..|b|] == digits[k..n];
    AllHexSlices(digits, k, n);
    assert b[..|b|] == b;
    HexRunIs(b, SIZE_DIGITS - k, |b|);
    assert more == (b + more)[|b|..] == (digits[k..] + tail)[|b|..];
  }

  lemma SplitAt(b: seq<Byte>, more: seq<Byte>, x: seq<Byte>, tail: seq<Byte>)
    requires b + more == x + tail && |x| <= |b|
    ensures b[..|x|] == x && b[|x|..] + more == tail
  {
    assert b[..|x|] == (b + more)[..|x|] == (x + tail)[..|x|];
    assert b[|x|..] + more == (b + more)[|x|..] == (x + tail)[|x|..];
  }

  lemma CrIsNotHex()
    ensures !IsHex(CR)
  {
  }

  /** The first byte behind the digits is not taken for one. */
  lemma NoDigitFollows(digits: seq<Byte>, ext: seq<Byte>, b: seq<Byte>, more: seq<Byte>, behind: seq<Byte>)
    requires IsSize(Size(digits, ext)) && b != [] && b + more == ext + (CRLF + behind)
    ensures |digits| < SIZE_DIGITS ==> !IsHex(b[0])
  {
    CrIsNotHex();
    assert b[0] == (b + more)[0];
    if ext == [] {
      assert b + more == CRLF + behind;
    } else {
      assert (ext + (CRLF + behind))[0] == ext[0];
    }
  }

  lemma DigitsThen(x: seq<Byte>, b: seq<Byte>, more: seq<Byte>, tail: seq<Byte>, room: nat)
    requires AllHex(x) && |x| <= room && b + more == x + tail && |b| > |x|
    requires |x| < room ==> !IsHex(b[|x|])
    ensures HexRun(b, room) == |x| && b[..|x|] == x && b[|x|..] + more == tail
  {
    hide HexRun, AllHex, IsHex;
    SplitAt(b, more, x, tail);
    HexRunIs(b, room, |x|);
  }

  /** Reading digits when the packet goes on behind them. */
  lemma AllOfDigits(known: seq<Byte>, x: seq<Byte>, ext: seq<Byte>, b: seq<Byte>, more: seq<Byte>, behind: seq<Byte>)
    requires IsSize(Size(known + x, ext))
    requires b + more == x + (ext + (CRLF + behind)) && |b| > |x|
    ensures |known| <= SIZE_DIGITS && HexRun(b, SIZE_DIGITS - |known|) == |x| && b[..|x|] == x
    ensures b[|x|..] != [] && b[|x|..] + more == ext + (CRLF + behind)
  {
    hide HexRun, AllHex, IsHex, IsSize;
    DigitsLeft(known, x, ext);
    NextIsNoDigit(known + x, ext, x, b, more, behind);
    DigitsThen(x, b, more, ext + (CRLF + behind), SIZE_DIGITS - |known|);
  }

  lemma DigitsLeft(known: seq<Byte>, x: seq<Byte>, ext: seq<Byte>)
    requires IsSize(Size(known + x, ext))
    ensures |known + x| <= SIZE_DIGITS && AllHex(x)
  {
    var digits := known + x;
    assert forall i :: 0 <= i < |x| ==> x[i] == digits[|known| + i];
  }

  lemma NextIsNoDigit(digits: seq<Byte>, ext: seq<Byte>, x: seq<Byte>, b: seq<Byte>, more: seq<Byte>, behind: seq<Byte>)
    requires IsSize(Size(digits, ext)) && |b| > |x| && b + more == x + (ext + (CRLF + behind))
    ensures |digits| < SIZE_DIGITS ==> !IsHex(b[|x|])
  {
    hide IsHex, IsSize;
    SplitAt(b, more, x, ext + (CRLF + behind));
    var c := b[|x|..];
    NoDigitFollows(digits, ext, c, more, behind);
    assert c[0] == b[|x|];
  }

  lemma {:induction false} SkipsExtension(ext: seq<Byte>, tail: seq<Byte>)
    requires NoEol(ext) && (tail == [] || IsEol(tail[0]))
    ensures SkipExtension(ext + tail) == tail
  {
    hide IsEol;
    if ext == [] {
      assert ext + tail == tail;
    } else {
      var all := ext + tail;
      assert all[0] == ext[0] && all[1..] == ext[1..] + tail;
      SkipsExtension(ext[1..], tail);
    }
  }

  lemma Suffixes(digits: seq<Byte>, ext: seq<Byte>, n: nat)
    requires IsSize(Size(digits, ext)) && n <= |ext|
    ensures IsSize(Size(digits, ext[n..])) && NoEol(ext[..n])
  {
  }

  /** What is behind the digits, if the packet ends in the extension. */
  lemma PartOfExtension(digits: seq<Byte>, ext: seq<Byte>, b: seq<Byte>, more: seq<Byte>, tail: seq<Byte>)
    requires IsSize(Size(digits, ext)) && b + more == ext + tail && |b| <= |ext|
    ensures SkipExtension(b) == [] && more == ext[|b|..] + tail && IsSize(Size(digits, ext[|b|..]))
  {
    hide SkipExtension, IsSize, NoEol;
    SplitAt(ext, tail, b, more);
    Suffixes(digits, ext, |b|);
    SkipsExtension(b, []);
    assert b + [] == b;
  }

  lemma CrFollows(x: seq<Byte>, b: seq<Byte>, more: seq<Byte>, behind: seq<Byte>)
    requires b + more == x + (CRLF + behind) && |b| > |x|
    ensures b[..|x|] == x && b[|x|] == CR && b[|x| + 1..] + more == [LF] + behind
  {
    SplitAt(b, more, x, CRLF + behind);
    var c := b[|x|..];
    assert CRLF + behind == [CR] + ([LF] + behind);
    SplitAt(c, more, [CR], [LF] + behind);
    assert c[0] == c[..1][0] == CR;
    assert c[1..] == b[|x| + 1..];
  }

  lemma ExtensionDropped(b: seq<Byte>, n: nat)
    requires n < |b| && NoEol(b[..n]) && b[n] == CR
    ensures DropOne(SkipExtension(b), CR) == b[n + 1..]
  {
    hide SkipExtension, NoEol;
    SkipsExtension(b[..n], b[n..]);
    assert b == b[..n] + b[n..];
    assert b[n..][1..] == b[n + 1..];
  }

  /** What is behind the digits, if the packet goes on behind the extension: the CR is dropped as well. */
  lemma AllOfExtension(ext: seq<Byte>, b: seq<Byte>, more: seq<Byte>, behind: seq<Byte>)
    requires NoEol(ext) && b + more == ext + (CRLF + behind) && |b| > |ext|
    ensures DropOne(SkipExtension(b), CR) == b[|ext| + 1..] && b[|ext| + 1..] + more == [LF] + behind
  {
    hide SkipExtension, NoEol, DropOne;
    CrFollows(ext, b, more, behind);
    ExtensionDropped(b, |ext|);
  }

  /** From behind the digits of a size line on. */
  lemma {:induction false} BehindDigitsAdvance(content: seq<Byte>, ext: seq<Byte>, b: seq<Byte>, more: seq<Byte>,
                                               cs: seq<Chunk>, last: Size, after: seq<Byte>)
    returns (t: Turn, p: Place, cs': seq<Chunk>)
    requires AllChunks(cs) && IsFinal(last) && b != []
    requires IsSize(Size(First(cs, last).digits, ext)) && b + more == ext + (CRLF + BehindLine(cs, last, after))
    ensures t == BehindDigits(First(cs, last).digits, DropOne(SkipExtension(b), CR), content)
    ensures Ends(t, last)
    ensures t.EndOfStream? ==> t.content == content && Decoded(cs) == []
    ensures t.Continue? ==>
      AllChunks(cs') && Stands(t.d, t.rest + more, p, cs', last, after) &&
      t.d.content + Remaining(p, cs') == content + Decoded(cs)
  {
    hide HexValue, HexValue32, Copy, AllChunks, IsFinal, IsLast, IsHuge, SkipExtension, BehindLine, Decoded, NoEol, NoHex;
    var digits, behind := First(cs, last).digits, BehindLine(cs, last, after);
    t, cs' := BehindDigits(digits, DropOne(SkipExtension(b), CR), content), cs;
    if |b| <= |ext| {
      PartOfExtension(digits, ext, b, more, CRLF + behind);
      p := InExtension(ext[|b|..]);
      assert [] + more == more;
      NoDecoded(cs, p);
    } else {
      AllOfExtension(ext, b, more, behind);
      var b2 := b[|ext| + 1..];
      if b2 == [] {
        p := BeforeLf;
        NoDecoded(cs, p);
      } else {
        assert b2[0] == (b2 + more)[0] == LF;
        assert b2[1..] + more == (b2 + more)[1..] == behind;
        t, p, cs' := LineCompletes(content, b2[1..], more, cs, last, after);
      }
    }
  }

  /** Reading on in a size line of which k digits are known and no line break is left. */
  lemma {:induction false} DigitsAdvance(d: Decoder, b1: seq<Byte>, more: seq<Byte>, k: nat,
                                         cs: seq<Chunk>, last: Size, after: seq<Byte>)
    returns (t: Turn, p: Place, cs': seq<Chunk>)
    requires AllChunks(cs) && IsFinal(last) && Sane(d) && k <= |First(cs, last).digits|
    requires d.sizeBuf == First(cs, last).digits[..k]
    requires b1 + more == First(cs, last).digits[k..] + BehindFirst(cs, last, after)
    ensures t == FromDigits(d, b1) && Ends(t, last)
    ensures t.EndOfStream? ==> t.content == d.content && Decoded(cs) == []
    ensures t.Continue? ==>
      AllChunks(cs') && Stands(t.d, t.rest + more, p, cs', last, after) &&
      t.d.content + Remaining(p, cs') == d.content + Decoded(cs)
  {
    hide AllChunks, IsFinal, IsLast, IsHuge, HexRun, SkipExtension, BehindDigits, Stands, Decoded, Remaining, DropOne, IsSize;
    var first, behind := First(cs, last), BehindLine(cs, last, after);
    FirstIsSize(cs, last);
    t, cs' := FromDigits(d, b1), cs;
    if |b1| <= |first.digits| - k {
      PartOfDigits(first.digits, k, b1, more, BehindFirst(cs, last, after));
      p := StopsInDigits(d, b1, more, k, cs, last, after);
    } else {
      var x := first.digits[k..];
      assert d.sizeBuf + x == first.digits;
      AllOfDigits(d.sizeBuf, x, first.ext, b1, more, behind);
      t, p, cs' := BehindDigitsAdvance(d.content, first.ext, b1[|x|..], more, cs, last, after);
    }
  }

  lemma StopsInDigits(d: Decoder, b1: seq<Byte>, more: seq<Byte>, k: nat, cs: seq<Chunk>, last: Size, after: seq<Byte>)
    returns (p: Place)
    requires Sane(d) && k + |b1| <= |First(cs, last).digits| && d.sizeBuf == First(cs, last).digits[..k]
    requires HexRun(b1, SIZE_DIGITS - k) == |b1|
    requires First(cs, last).digits[..k] + b1 == First(cs, last).digits[..k + |b1|]
    requires more == First(cs, last).digits[k + |b1|..] + BehindFirst(cs, last, after)
    ensures var t := FromDigits(d, b1);
            && t.Continue? && t.d.content + Remaining(p, cs) == d.content + Decoded(cs)
            && Stands(t.d, t.rest + more, p, cs, last, after)
  {
    hide HexRun, SkipExtension, HexValue32, Copy, Decoded, IsSize, BehindFirst, First;
    var digits, n := First(cs, last).digits, k + |b1|;
    assert b1[|b1|..] == [] && b1[..|b1|] == b1;
    NothingToSkip();
    assert [] + more == more;
    if n == 0 {
      p := BeforeLine([]);
      assert digits[0..] == digits;
      assert [] + Encoded(cs, last, after) == Encoded(cs, last, after);
    } else {
      p := InDigits(n);
    }
    NoDecoded(cs, p);
  }

  lemma NothingToSkip()
    ensures SkipExtension([]) == []
  {
  }

  lemma NoDecoded(cs: seq<Chunk>, p: Place)
    requires !p.InData?
    ensures Remaining(p, cs) == Decoded(cs)
  {
  }

  /** Reading on in an extension. */
  lemma {:induction false} ExtensionAdvances(d: Decoder, b: seq<Byte>, more: seq<Byte>, rest: seq<Byte>,
                                             cs: seq<Chunk>, last: Size, after: seq<Byte>)
    returns (t: Turn, p: Place, cs': seq<Chunk>)
    requires AllChunks(cs) && IsFinal(last) && Sane(d) && b != [] && d.sizeBuf == First(cs, last).digits
    requires IsSize(Size(d.sizeBuf, rest)) && b + more == rest + (CRLF + BehindLine(cs, last, after))
    ensures t == FromDigits(d, b) && Ends(t, last)
    ensures t.EndOfStream? ==> t.content == d.content && Decoded(cs) == []
    ensures t.Continue? ==>
      AllChunks(cs') && Stands(t.d, t.rest + more, p, cs', last, after) &&
      t.d.content + Remaining(p, cs') == d.content + Decoded(cs)
  {
    hide AllChunks, IsFinal, IsLast, IsHuge, HexRun, SkipExtension, BehindDigits, Stands, Decoded, Remaining, DropOne, BehindLine, IsHex;
    NoDigitFollows(d.sizeBuf, rest, b, more, BehindLine(cs, last, after));
    assert b[..0] == [] && b[0..] == b && d.sizeBuf + [] == d.sizeBuf;
    HexRunIs(b, SIZE_DIGITS - |d.sizeBuf|, 0);
    t, p, cs' := BehindDigitsAdvance(d.content, rest, b, more, cs, last, after);
  }

  /** One turn from any place of a well-formed stream, however short the packet `b`: either the body
      is complete, or the decoder stands at a later place and has neither lost nor added a byte. */
  lemma {:induction false} TurnAdvances(d: Decoder, b: seq<Byte>, more: seq<Byte>,
                                        p: Place, cs: seq<Chunk>, last: Size, after: seq<Byte>)
    returns (p': Place, cs': seq<Chunk>)
    requires AllChunks(cs) && IsFinal(last) && Sane(d) && b != []
    requires Stands(d, b + more, p, cs, last, after)
    ensures var t := OneTurn(d, b);
            && Ends(t, last)
            && (t.EndOfStream? ==> t.content == d.content + Remaining(p, cs))
            && (t.Continue? ==>
                  AllChunks(cs') && Stands(t.d, t.rest + more, p', cs', last, after) &&
                  t.d.content + Remaining(p', cs') == d.content + Remaining(p, cs))
  {
    hide FromDigits, Copy, AllChunks, IsFinal, IsLast, IsHuge, BehindLine, BehindFirst, Decoded, IsSize;
    var first := First(cs, last);
    FirstIsSize(cs, last);
    cs' := cs;
    match p
    case InData(left) =>
      p' := CopyStands(left, d.content, b, more, cs, last, after);
    case BeforeLine(gap) =>
      var b1 := DropOne(DropOne(b, CR), LF);
      var gap' := GapIsSkipped(gap, b, more, first.digits, BehindFirst(cs, last, after));
      NoDecoded(cs, p);
      if gap' != [] {
        p' := BeforeLine(gap');
        assert FromDigits(d, b1) == Continue(Decoder(0, [], d.content), []) by { NoDigits(d); }
      } else {
        var t: Turn;
        assert first.digits[0..] == first.digits;
        assert d.sizeBuf == first.digits[..0];
        t, p', cs' := DigitsAdvance(d, b1, more, 0, cs, last, after);
      }
    case InDigits(k) =>
      NoDecoded(cs, p);
      var t: Turn;
      t, p', cs' := DigitsAdvance(d, b, more, k, cs, last, after);
    case InExtension(rest) =>
      NoDecoded(cs, p);
      var t: Turn;
      t, p', cs' := ExtensionAdvances(d, b, more, rest, cs, last, after);
    case BeforeLf =>
      NoDecoded(cs, p);
      var t: Turn;
      t, p', cs' := LfCompletes(d, b, more, cs, last, after);
  }

  lemma NoDigits(d: Decoder)
    requires Sane(d) && d.sizeBuf == []
    ensures FromDigits(d, []) == Continue(Decoder(0, [], d.content), [])
  {
  }

  /** The line break behind a chunk is skipped as far as the packet has it. */
  lemma GapIsSkipped(gap: seq<Byte>, b: seq<Byte>, more: seq<Byte>, digits: seq<Byte>, tail: seq<Byte>)
    returns (gap': seq<Byte>)
    requires gap == [] || gap == [LF] || gap == CRLF
    requires b != [] && IsDigits(digits) && b + more == gap + (digits + tail)
    ensures gap' == [] || gap' == [LF]
    ensures var b1 := DropOne(DropOne(b, CR), LF);
            b1 + more == gap' + (digits + tail) && (gap' != [] ==> b1 == [])
  {
    var rest := digits + tail;
    gap' := [];
    assert IsHex(digits[0]);
    assert rest[0] == digits[0];
    if gap == [] {
      assert b[0] == (b + more)[0] == rest[0];
      assert gap + rest == rest;
    } else if gap == [LF] {
      SplitAt(b, more, [LF], rest);
      assert b[..1] == [LF];
    } else {
      assert CRLF + rest == [CR] + ([LF] + rest);
      SplitAt(b, more, [CR], [LF] + rest);
      assert b[..1] == [CR];
      var c := b[1..];
      if c == [] {
        gap' := [LF];
      } else {
        SplitAt(c, more, [LF], rest);
        assert c[..1] == [LF];
      }
    }
  }

  /** The LF of a size line whose CR was the last byte of the packet before. */
  lemma {:induction false} LfCompletes(d: Decoder, b: seq<Byte>, more: seq<Byte>,
                                       cs: seq<Chunk>, last: Size, after: seq<Byte>)
    returns (t: Turn, p: Place, cs': seq<Chunk>)
    requires AllChunks(cs) && IsFinal(last) && Sane(d) && b != []
    requires d.sizeBuf == First(cs, last).digits && b + more == [LF] + BehindLine(cs, last, after)
    ensures t == FromDigits(d, b) && Ends(t, last)
    ensures t.EndOfStream? ==> t.content == d.content && Decoded(cs) == []
    ensures t.Continue? ==>
      AllChunks(cs') && Stands(t.d, t.rest + more, p, cs', last, after) &&
      t.d.content + Remaining(p, cs') == d.content + Decoded(cs)
  {
    hide HexValue, HexValue32, Copy, AllChunks, IsFinal, IsLast, IsHuge, HexRun, SkipExtension, BehindLine, Decoded;
    SplitAt(b, more, [LF], BehindLine(cs, last, after));
    assert b[..1] == [LF];
    assert b[0] == LF;
    HexRunIs(b, SIZE_DIGITS - |d.sizeBuf|, 0);
    assert b[0..] == b && d.sizeBuf + b[..0] == d.sizeBuf;
    SkipExtensionShrinks(b);
    t, p, cs' := LineCompletes(d.content, b[1..], more, cs, last, after);
  }

  /** All turns over one packet of a well-formed stream. */
  lemma {:induction false} TurnsAdvance(d: Decoder, b: seq<Byte>, more: seq<Byte>,
                                        p: Place, cs: seq<Chunk>, last: Size, after: seq<Byte>)
    returns (p': Place, cs': seq<Chunk>)
    requires AllChunks(cs) && IsFinal(last) && Sane(d)
    requires Stands(d, b + more, p, cs, last, after)
    ensures var t := Turns(d, b);
            && Ends(t, last)
            && (t.EndOfStream? ==> t.content == d.content + Remaining(p, cs))
            && (t.Continue? ==>
                  AllChunks(cs') && Stands(t.d, more, p', cs', last, after) &&
                  t.d.content + Remaining(p', cs') == d.content + Remaining(p, cs))
    decreases |b|
  {
    hide OneTurn, Stands, AllChunks, IsFinal, IsLast, IsHuge, Sane, Remaining;
    p', cs' := p, cs;
    if b == [] {
      assert b + more == more;
    } else {
      p', cs' := TurnAdvances(d, b, more, p, cs, last, after);
      TurnShrinks(d, b);
      var t := OneTurn(d, b);
      if t.Continue? {
        p', cs' := TurnsAdvance(t.d, t.rest, more, p', cs', last, after);
      }
    }
  }

  /** A well-formed stream cannot run out before its end has been seen. */
  lemma StreamGoesOn(d: Decoder, p: Place, cs: seq<Chunk>, last: Size, after: seq<Byte>)
    requires AllChunks(cs) && IsFinal(last)
    ensures !Stands(d, [], p, cs, last, after)
  {
    hide AllChunks, IsFinal, IsLast, IsHuge;
    FirstIsSize(cs, last);
  }

  // ----- extensions with hex digits -----

  /** A size line whose digits are in x and in what was read before, cut anywhere behind them. */
  lemma LineWithDigits(sizeBuf: seq<Byte>, x: seq<Byte>, tail: seq<Byte>, content: seq<Byte>)
    requires AllHex(sizeBuf) && AllHex(x) && |sizeBuf| + |x| <= SIZE_DIGITS
    requires tail != [] ==> !IsHex(tail[0])
    ensures AllHex(sizeBuf + x)
    ensures FromDigits(Decoder(0, sizeBuf, content), x + tail)
         == BehindDigits(sizeBuf + x, DropOne(SkipExtension(tail), CR), content)
  {
    hide HexRun, SkipExtension, BehindDigits, AllHex, IsHex, DropOne;
    AllHexConcat(sizeBuf, x);
    HexRunOf(x, tail, SIZE_DIGITS - |sizeBuf|);
  }

  lemma AllHexConcat(a: seq<Byte>, b: seq<Byte>)
    requires AllHex(a) && AllHex(b)
    ensures AllHex(a + b)
  {
  }

  lemma HexRunOf(x: seq<Byte>, tail: seq<Byte>, room: nat)
    requires AllHex(x) && |x| <= room && (tail != [] ==> !IsHex(tail[0]))
    ensures HexRun(x + tail, room) == |x| && (x + tail)[..|x|] == x && (x + tail)[|x|..] == tail
  {
    hide HexRun, AllHex, IsHex;
    var b := x + tail;
    assert b[..|x|] == x && b[|x|..] == tail && (tail != [] ==> b[|x|] == tail[0]);
    HexRunIs(b, room, |x|);
  }

  /** An extension may follow the digits: its first byte is not one of them. */
  predicate IsExtension(digits: seq<Byte>, ext: seq<Byte>)
  {
    NoEol(ext) && (ext != [] && |digits| < 31 ==> !IsHex(ext[0]))
  }

  /** The digits that are known after a packet that starts inside the extension. */
  function Collected(digits: seq<Byte>, b: seq<Byte>): seq<Byte>
  {
    if |digits| > SIZE_DIGITS then digits else digits + b[..HexRun(b, SIZE_DIGITS - |digits|)]
  }

  /** Wherever a packet starts inside an extension, the digits stay the same: this holds if and only if
      the extension has no hex digit or the buffer for the digits is full. */
  lemma SafeExtension(digits: seq<Byte>, ext: seq<Byte>)
    requires IsDigits(digits) && IsExtension(digits, ext)
    ensures (forall k :: 0 <= k < |ext| ==> Collected(digits, ext[k..] + CRLF) == digits)
       <==> IsSize(Size(digits, ext))
  {
    hide IsHex;
    forall k | 0 <= k < |ext|
      ensures Collected(digits, ext[k..] + CRLF) == digits <==> |digits| == SIZE_DIGITS || !IsHex(ext[k])
    {
      var b := ext[k..] + CRLF;
      assert b[0] == ext[k];
      assert b[..0] == [];
    }
  }

  /** In every other extension a cut makes a difference: if a packet ends before a hex digit c of the
      extension, the line that is read with `digits` when it arrives whole is read with c as a further digit. */
  lemma ExtensionDependsOnPackets(digits: seq<Byte>, a: seq<Byte>, c: Byte, z: seq<Byte>, content: seq<Byte>)
    requires IsDigits(digits) && |digits| < 31 && a != [] && IsHex(c)
    requires IsExtension(digits, a + ([c] + z))
    ensures var d, ext := Decoder(0, [], content), a + ([c] + z);
            && FromDigits(d, digits + (ext + CRLF)) == BehindDigits(digits, [LF], content)
            && FromDigits(d, digits + a) == Continue(Decoder(0, digits, content), [])
    ensures var longer := Collected(digits, [c] + (z + CRLF));
            && AllHex(longer) && digits + [c] <= longer
            && FromDigits(Decoder(0, digits, content), [c] + (z + CRLF)) == BehindDigits(longer, [LF], content)
  {
    hide FromDigits, HexValue32, SkipExtension, Copy, IsHex;
    var ext := a + ([c] + z);
    assert ext[0] == a[0];
    assert [] + digits == digits;
    assert (ext + CRLF)[0] == ext[0];
    LineWithDigits([], digits, ext + CRLF, content);
    SkipsExtension(ext, CRLF);
    assert CRLF[1..] == [LF];
    LineWithDigits([], digits, a, content);
    assert a == ext[..|a|];
    SkipsExtension(a, []);
    assert a + [] == a;
    SecondPacket(digits, c, z, content) by {
      forall i | 0 <= i < |z|
        ensures !IsEol(z[i])
      {
        assert ext[|a| + 1 + i] == z[i];
      }
    }
  }

  lemma SecondPacket(digits: seq<Byte>, c: Byte, z: seq<Byte>, content: seq<Byte>)
    requires IsDigits(digits) && |digits| < SIZE_DIGITS && IsHex(c) && NoEol(z)
    ensures var longer := Collected(digits, [c] + (z + CRLF));
            && AllHex(longer) && digits + [c] <= longer
            && FromDigits(Decoder(0, digits, content), [c] + (z + CRLF)) == BehindDigits(longer, [LF], content)
  {
    hide SkipExtension, BehindDigits;
    var b := [c] + (z + CRLF);
    var n := HexRun(b, SIZE_DIGITS - |digits|);
    AllHexConcat(digits, b[..n]);
    assert n > 0 && b[..n][0] == c;
    RunStopsBeforeBreak(c, z, SIZE_DIGITS - |digits|);
    var y := ([c] + z)[n..];
    assert b == ([c] + z) + CRLF;
    assert b[n..] == y + CRLF;
    forall i | 0 <= i < |y|
      ensures !IsEol(y[i])
    {
      assert y[i] == z[n - 1 + i];
    }
    SkipsExtension(y, CRLF);
    assert CRLF[1..] == [LF];
  }

  lemma RunStopsBeforeBreak(c: Byte, z: seq<Byte>, room: nat)
    ensures HexRun([c] + (z + CRLF), room) <= 1 + |z|
  {
    hide HexRun, IsHex;
    var b := [c] + (z + CRLF);
    CrIsNotHex();
    assert b[1 + |z|] == CR;
    RunStopsAt(b, room, 1 + |z|);
  }

  lemma {:induction false} RunStopsAt(b: seq<Byte>, room: nat, i: nat)
    requires i < |b| && !IsHex(b[i])
    ensures HexRun(b, room) <= i
  {
    if i > 0 && room > 0 {
      RunStopsAt(b[1..], room - 1, i - 1);
    }
  }

  // ----- the code of the chunk loop -----

  /** The conversion of the collected digits. */
  method ParseSize(digits: seq<Byte>) returns (size: nat)
    requires AllHex(digits)
    ensures size == HexValue32(digits)
  {
    hide HexDigit;
    size := 0;
    for j := 0 to |digits|
      invariant size == HexValue32(digits[..j])
    {
      assert digits[..j + 1][..j] == digits[..j];
      size := (size * 16 + HexDigit(digits[j])) % TWO32;
    }
    assert digits[..|digits|] == digits;
  }

  /** The digits of a size line from index i on. */
  method CollectDigits(buf: seq<Byte>, i: nat, sizeBuf: seq<Byte>) returns (j: nat, digits: seq<Byte>)
    requires i <= |buf| && |sizeBuf| <= SIZE_DIGITS
    ensures i <= j <= |buf| && j - i == HexRun(buf[i..], SIZE_DIGITS - |sizeBuf|)
    ensures digits == sizeBuf + buf[i..j]
  {
    j, digits := i, sizeBuf;
    while j < |buf| && IsHex(buf[j]) && |digits| < SIZE_DIGITS
      invariant i <= j <= |buf| && digits == sizeBuf + buf[i..j] && |digits| <= SIZE_DIGITS
      invariant j - i + HexRun(buf[j..], SIZE_DIGITS - |digits|) == HexRun(buf[i..], SIZE_DIGITS - |sizeBuf|)
    {
      assert buf[j..][1..] == buf[j + 1..];
      assert buf[i..j + 1] == buf[i..j] + [buf[j]];
      digits := digits + [buf[j]];
      j := j + 1;
    }
  }

  /** Discarding a chunk extension. */
  method DiscardExtension(buf: seq<Byte>, i: nat) returns (j: nat)
    requires i <= |buf|
    ensures i <= j <= |buf| && buf[j..] == SkipExtension(buf[i..])
  {
    j := i;
    while j < |buf| && buf[j] != CR && buf[j] != LF
      invariant i <= j <= |buf| && SkipExtension(buf[j..]) == SkipExtension(buf[i..])
    {
      assert buf[j..][1..] == buf[j + 1..];
      j := j + 1;
    }
  }

  /** The part of a turn that reads a size line, from index i on: where it stopped, the digits so far,
      and the size if the line is complete. */
  method ReadSizeLine(d: Decoder, buf: seq<Byte>, start: nat)
    returns (i: nat, digits: seq<Byte>, size: Option<nat>)
    requires Sane(d) && d.chunkSize == 0 && start < |buf|
    ensures i <= |buf| && AllHex(digits)
    ensures size.None? ==> SizeLine(d, buf[start..]) == Continue(Decoder(0, digits, d.content), buf[i..])
    ensures size.Some? ==>
      SizeLine(d, buf[start..])
      == if size.value == 0 then EndOfStream(d.content) else Copy(size.value, d.content, buf[i..])
  {
    hide HexRun, SkipExtension, HexValue32, Copy, DropOne;
    i := start;
    if d.sizeBuf == [] {
      i := SkipOne(buf, i, CR);
      i := SkipOne(buf, i, LF);
    }
    i, digits, size := ReadDigitsAndBreak(d, buf, i);
  }

  method SkipOne(buf: seq<Byte>, i: nat, c: Byte) returns (j: nat)
    requires i <= |buf|
    ensures i <= j <= |buf| && buf[j..] == DropOne(buf[i..], c)
  {
    j := if i < |buf| && buf[i] == c then i + 1 else i;
  }

  method ReadDigitsAndBreak(d: Decoder, buf: seq<Byte>, from: nat)
    returns (i: nat, digits: seq<Byte>, size: Option<nat>)
    requires Sane(d) && from <= |buf|
    ensures i <= |buf| && AllHex(digits)
    ensures size.None? ==> FromDigits(d, buf[from..]) == Continue(Decoder(0, digits, d.content), buf[i..])
    ensures size.Some? ==>
      FromDigits(d, buf[from..])
      == if size.value == 0 then EndOfStream(d.content) else Copy(size.value, d.content, buf[i..])
  {
    hide HexRun, SkipExtension, HexValue32, Copy, DropOne;
    ghost var b1 := buf[from..];
    var j: nat;
    j, digits := CollectDigits(buf, from, d.sizeBuf);
    assert buf[from..j] == b1[..j - from] && b1[j - from..] == buf[j..];
    i := DiscardExtension(buf, j);
    i := SkipOne(buf, i, CR);
    ghost var b2 := buf[i..];
    assert b2 == DropOne(SkipExtension(b1[j - from..]), CR);
    size := None;
    if i < |buf| && buf[i] == LF {
      var v := ParseSize(digits);
      size := Some(v);
      assert b2[1..] == buf[i + 1..];
      i := i + 1;
    }
  }

  /** One turn of the loop, from index `start` on. */
  method TakeTurn(d: Decoder, buf: seq<Byte>, start: nat) returns (i: nat, t: Turn)
    requires Sane(d) && start < |buf|
    ensures t == OneTurn(d, buf[start..])
    ensures t.Continue? ==> i <= |buf| && t.rest == buf[i..]
  {
    hide SizeLine, AllHex;
    i := start;
    var size := d.chunkSize;
    if d.chunkSize == 0 {
      var digits, read;
      i, digits, read := ReadSizeLine(d, buf, start);
      if read.None? {
        return i, Continue(Decoder(0, digits, d.content), buf[i..]);
      }
      size := read.value;
      if size == 0 {
        return i, EndOfStream(d.content);
      }
    }
    if size >= TWO31 {
      return i, Overrun;
    }
    var n := if size < |buf| - i then size else |buf| - i;
    assert buf[i..][..n] == buf[i..i + n] && buf[i..][n..] == buf[i + n..];
    i, t := i + n, Continue(Decoder(size - n, [], d.content + buf[i..i + n]), buf[i + n..]);
  }

  /** The chunk loop over one packet. */
  method DecodePacket(d0: Decoder, buf: seq<Byte>) returns (t: Turn)
    requires Sane(d0)
    ensures t == Turns(d0, buf)
  {
    hide OneTurn, Sane;
    var i := 0;
    var d := d0;
    assert buf[0..] == buf;
    while i < |buf|
      invariant 0 <= i <= |buf| && Sane(d)
      invariant Turns(d, buf[i..]) == Turns(d0, buf)
    {
      TurnShrinks(d, buf[i..]);
      i, t := TakeTurn(d, buf, i);
      if !t.Continue? {
        return;
      }
      d := t.d;
    }
    assert buf[i..] == [];
    t := Continue(d, []);
  }
}
