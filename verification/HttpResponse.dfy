/** `getHTTPResponse` (miniupnpc/miniwget.c:66-289) as a whole: the receive loop over the packets that
    `receivedata` returns, and what it makes of a chunked or a plain response however it is cut. */
module HttpResponse {
  import opened Common
  import opened HttpHeader
  import opened HttpHeaderLines
  import opened HttpBody
  import opened Digits

  /** The state of the receive loop; `end` is 0 until the headers are complete. */
  datatype Reader = Reader(header: seq<Byte>, end: nat, info: Info, d: Decoder)

  datatype Outcome = Proceed(r: Reader) | Stop(content: seq<Byte>) | Crash

  const START := Reader([], 0, Info(-1, false, true), Decoder(0, [], []))

  /** While the loop runs, a positive Content-Length has not been reached. */
  predicate Running(r: Reader)
  {
    Sane(r.d) && (r.info.contentLength > 0 ==> |r.d.content| < r.info.contentLength)
  }

  /** The check at the bottom of the loop. */
  function CheckLength(r: Reader): (o: Outcome)
    requires Sane(r.d)
    ensures o.Proceed? ==> Running(o.r)
  {
    if r.info.contentLength > 0 && |r.d.content| >= r.info.contentLength then Stop(r.d.content) else Proceed(r)
  }

  /** Body bytes arrive. */
  function OnBody(r: Reader, buf: seq<Byte>): (o: Outcome)
    requires Running(r)
    ensures o.Proceed? ==> Running(o.r)
  {
    if r.info.chunked then
      match Turns(r.d, buf)
      case Continue(d, _) => CheckLength(r.(d := d))
      case EndOfStream(content) => Stop(content)
      case Overrun => Crash
    else
      var content := r.d.content;
      var n := if r.info.contentLength > 0 && |content| + |buf| > r.info.contentLength
               then r.info.contentLength - |content| else |buf|;
      CheckLength(r.(d := r.d.(content := content + buf[..n])))
  }

  /** A packet arrives. */
  function OnPacket(r: Reader, piece: seq<Byte>): (o: Outcome)
    requires Running(r)
    ensures o.Proceed? ==> Running(o.r)
  {
    if r.end != 0 then OnBody(r, piece)
    else
      var header := r.header + piece;
      var e := ScanEnd(header, 0);
      if e == 0 then Proceed(r.(header := header))
      else
        var info := HeaderInfo(header, e);
        OnBody(Reader(header, e, info, Decoder(0, [], [])), header[e..])
  }

  datatype Result = Content(bytes: seq<Byte>) | Crashed

  /** The packets in order, until the connection ends or the response is complete. */
  function Received(r: Reader, pieces: seq<seq<Byte>>): Result
    requires Running(r)
    decreases |pieces|
  {
    if pieces == [] then Content(r.d.content)
    else
      match OnPacket(r, pieces[0])
      case Proceed(r') => Received(r', pieces[1..])
      case Stop(content) => Content(content)
      case Crash => Crashed
  }

  /** What comes out after an outcome, with the packets `rest` still to come. */
  function Finish(o: Outcome, rest: seq<seq<Byte>>): Result
    requires o.Proceed? ==> Running(o.r)
  {
    match o
    case Proceed(r) => Received(r, rest)
    case Stop(content) => Content(content)
    case Crash => Crashed
  }

  function Concat(pieces: seq<seq<Byte>>): seq<Byte>
  {
    if pieces == [] then [] else pieces[0] + Concat(pieces[1..])
  }

  // ----- chunked responses -----

  /** The body that comes out: never more than the chunks' data, in order. If the whole stream arrives it is
      all of the data, unless a smaller positive length was announced; then at least that many bytes. */
  predicate IsPart(bytes: seq<Byte>, data: seq<Byte>, announced: int, complete: bool)
  {
    && bytes <= data
    && (complete && (announced <= 0 || announced >= |data|) ==> bytes == data)
    && (complete && announced > 0 && announced < |data| ==> |bytes| >= announced)
  }

  /** `missing` is what the connection was closed before. */
  lemma {:induction false} ChunkedBody(r: Reader, pieces: seq<seq<Byte>>, buf: seq<Byte>, missing: seq<Byte>,
                                       p: Place, cs: seq<Chunk>, last: Size, after: seq<Byte>)
    requires Running(r) && r.end != 0 && r.info.chunked
    requires AllChunks(cs) && IsLast(last) && Stands(r.d, buf + (Concat(pieces) + missing), p, cs, last, after)
    ensures var o := OnBody(r, buf);
            var data := r.d.content + Remaining(p, cs);
            && (o.Stop? ==> IsPart(o.content, data, r.info.contentLength, missing == []))
            && (o.Proceed? ==> Received(o.r, pieces).Content?
                               && IsPart(Received(o.r, pieces).bytes, data, r.info.contentLength, missing == []))
            && !o.Crash?
    decreases |pieces|
  {
    hide Turns, Stands, Remaining, AllChunks, IsLast, IsHuge, Sane, IsPart;
    var data, n := r.d.content + Remaining(p, cs), r.info.contentLength;
    FinalSize(last);
    var p', cs' := TurnsAdvance(r.d, buf, Concat(pieces) + missing, p, cs, last, after);
    var t := Turns(r.d, buf);
    if t.EndOfStream? {
      WholeIsPart(data, n, missing == []);
    } else {
      var r', left := r.(d := t.d), Remaining(p', cs');
      if n > 0 && |t.d.content| >= n {
        EnoughIsPart(t.d.content, left, n, missing == []);
      } else if pieces == [] {
        if missing == [] {
          assert Concat(pieces) + missing == [];
          StreamGoesOn(t.d, p', cs', last, after);
        }
        StartIsPart(t.d.content, left, n);
      } else {
        assert pieces[0] + (Concat(pieces[1..]) + missing) == Concat(pieces) + missing;
        ChunkedBody(r', pieces[1..], pieces[0], missing, p', cs', last, after);
      }
    }
  }

  lemma WholeIsPart(data: seq<Byte>, n: int, complete: bool)
    ensures IsPart(data, data, n, complete)
  {
  }

  lemma StartIsPart(a: seq<Byte>, b: seq<Byte>, n: int)
    ensures IsPart(a, a + b, n, false)
  {
  }

  lemma EnoughIsPart(a: seq<Byte>, b: seq<Byte>, n: int, complete: bool)
    requires 0 < n <= |a|
    ensures IsPart(a, a + b, n, complete)
  {
    assert n >= |a + b| ==> b == [];
  }

  lemma {:induction false} Headers(r: Reader, pieces: seq<seq<Byte>>, h: seq<Byte>, body: seq<Byte>)
    returns (buf: seq<Byte>, rest: seq<seq<Byte>>)
    requires Running(r) && r.end == 0 && IsHeader(h) && HeaderInfo(h, |h|).settled
    requires |r.header| < |h| && r.header + Concat(pieces) == h + body
    ensures var r' := Reader(h + buf, |h|, HeaderInfo(h, |h|), Decoder(0, [], []));
            && Running(r')
            && buf + Concat(rest) == body
            && Received(r, pieces) == Finish(OnBody(r', buf), rest)
    decreases |pieces|
  {
    hide IsHeader, ScanEnd, HeaderInfo, OnBody;
    if pieces == [] {
      assert false;
    } else {
      var header := r.header + pieces[0];
      assert header + Concat(pieces[1..]) == h + body;
      PrefixOf(header, Concat(pieces[1..]), h + body);
      EndOfPrefix(h, body, header);
      if |header| < |h| {
        buf, rest := Headers(r.(header := header), pieces[1..], h, body);
      } else {
        buf, rest := header[|h|..], pieces[1..];
        HeadSplits(header, Concat(rest), h, body);
        HeaderInfoIsStable(h, buf);
      }
    }
  }

  lemma PrefixOf(q: seq<Byte>, more: seq<Byte>, s: seq<Byte>)
    requires q + more == s
    ensures q <= s
  {
  }

  lemma HeadSplits(q: seq<Byte>, more: seq<Byte>, h: seq<Byte>, body: seq<Byte>)
    requires q + more == h + body && |q| >= |h|
    ensures q == h + q[|h|..] && q[|h|..] + more == body
  {
    SplitAt(q, more, h, body);
  }

  /** While the headers are incomplete, nothing comes out. */
  lemma {:induction false} HeadersCutShort(r: Reader, pieces: seq<seq<Byte>>, h: seq<Byte>)
    requires Running(r) && r.end == 0 && r.d.content == [] && IsHeader(h)
    requires r.header + Concat(pieces) <= h && |r.header + Concat(pieces)| < |h|
    ensures Received(r, pieces) == Content([])
    decreases |pieces|
  {
    hide IsHeader, ScanEnd, HeaderInfo, OnBody;
    if pieces != [] {
      var header := r.header + pieces[0];
      assert header + Concat(pieces[1..]) == r.header + Concat(pieces);
      assert h + [] == h;
      EndOfPrefix(h, [], header);
      HeadersCutShort(r.(header := header), pieces[1..], h);
    }
  }

  /** A chunked response, cut into packets anywhere and closed anywhere: a part of the chunks' data. */
  lemma ChunkedPart(h: seq<Byte>, cs: seq<Chunk>, last: Size, after: seq<Byte>,
                    pieces: seq<seq<Byte>>, missing: seq<Byte>)
    requires IsHeader(h) && HeaderInfo(h, |h|).chunked && HeaderInfo(h, |h|).settled
    requires AllChunks(cs) && IsLast(last)
    requires Concat(pieces) + missing == h + Encoded(cs, last, after)
    ensures var result := Received(START, pieces);
            result.Content? && IsPart(result.bytes, Decoded(cs), HeaderInfo(h, |h|).contentLength, missing == [])
  {
    hide IsHeader, HeaderInfo, OnBody, Received, AllChunks, IsLast, Encoded, Decoded, IsPart, Concat;
    var arrived := Concat(pieces);
    StartIsRunning(h);
    assert [] + arrived == arrived;
    if |arrived| < |h| {
      SplitAt(h, Encoded(cs, last, after), arrived, missing);
      assert h == arrived + h[|arrived|..];
      HeadersCutShort(START, pieces, h);
      assert missing != [];
      StartIsPart([], Decoded(cs), HeaderInfo(h, |h|).contentLength);
      assert [] + Decoded(cs) == Decoded(cs);
    } else {
      HeadSplits(arrived, missing, h, Encoded(cs, last, after));
      var body := arrived[|h|..];
      var buf, rest := Headers(START, pieces, h, body);
      ChunkedFromHeaders(h, cs, last, after, buf, rest, missing);
    }
  }

  lemma ChunkedFromHeaders(h: seq<Byte>, cs: seq<Chunk>, last: Size, after: seq<Byte>,
                           buf: seq<Byte>, rest: seq<seq<Byte>>, missing: seq<Byte>)
    requires HeaderInfo(h, |h|).chunked && AllChunks(cs) && IsLast(last) && h != []
    requires (buf + Concat(rest)) + missing == Encoded(cs, last, after)
    ensures var r := Reader(h + buf, |h|, HeaderInfo(h, |h|), Decoder(0, [], []));
            var n := r.info.contentLength;
            && Running(r)
            && Finish(OnBody(r, buf), rest).Content?
            && IsPart(Finish(OnBody(r, buf), rest).bytes, Decoded(cs), n, missing == [])
  {
    hide HeaderInfo, OnBody, Received, AllChunks, IsLast, Encoded, Decoded, IsPart, Concat;
    var r := Reader(h + buf, |h|, HeaderInfo(h, |h|), Decoder(0, [], []));
    assert buf + (Concat(rest) + missing) == [] + Encoded(cs, last, after);
    ChunkedBody(r, rest, buf, missing, BeforeLine([]), cs, last, after);
    assert [] + Remaining(BeforeLine([]), cs) == Decoded(cs);
  }

  /** A chunked response, cut into packets anywhere, headers and extensions included, gives the chunks'
      data, if no length below that of the data was announced with it. */
  lemma ChunkedResponse(h: seq<Byte>, cs: seq<Chunk>, last: Size, after: seq<Byte>, pieces: seq<seq<Byte>>)
    requires IsHeader(h)
    requires var info := HeaderInfo(h, |h|);
             info.chunked && info.settled && (info.contentLength <= 0 || info.contentLength >= |Decoded(cs)|)
    requires AllChunks(cs) && IsLast(last)
    requires Concat(pieces) == h + Encoded(cs, last, after)
    ensures Received(START, pieces) == Content(Decoded(cs))
  {
    hide IsHeader, HeaderInfo, Received, AllChunks, IsLast, Encoded, Decoded, Concat;
    assert Concat(pieces) + [] == Concat(pieces);
    ChunkedPart(h, cs, last, after, pieces, []);
  }

  // ----- a length below that of the data -----

  /** Every byte that a turn adds to the body was in the packet. */
  lemma TurnAddsAtMost(d: Decoder, b: seq<Byte>)
    requires Sane(d)
    ensures var t := OneTurn(d, b);
            && (t.Continue? ==> |t.d.content| + |t.rest| <= |d.content| + |b|)
            && (t.EndOfStream? ==> t.content == d.content)
  {
    hide HexRun, SkipExtension, HexValue32, AllHex;
  }

  lemma {:induction false} TurnsAddAtMost(d: Decoder, b: seq<Byte>)
    requires Sane(d)
    ensures var t := Turns(d, b);
            && (t.Continue? ==> |t.d.content| <= |d.content| + |b|)
            && (t.EndOfStream? ==> |t.content| <= |d.content| + |b|)
    decreases |b|
  {
    hide OneTurn, Sane;
    if b != [] {
      TurnShrinks(d, b);
      TurnAddsAtMost(d, b);
      var t := OneTurn(d, b);
      if t.Continue? {
        TurnsAddAtMost(t.d, t.rest);
      }
    }
  }

  /** Packets of one byte each. */
  function Singles(s: seq<Byte>): (pieces: seq<seq<Byte>>)
    ensures |pieces| == |s|
  {
    seq(|s|, i requires 0 <= i < |s| => [s[i]])
  }

  lemma {:induction false} ConcatSingles(s: seq<Byte>)
    ensures Concat(Singles(s)) == s
  {
    if s != [] {
      assert Singles(s)[1..] == Singles(s[1..]);
      ConcatSingles(s[1..]);
      assert [s[0]] + s[1..] == s;
    }
  }

  /** Byte by byte, no more comes out than was announced. */
  lemma {:induction false} SinglesStop(r: Reader, s: seq<Byte>)
    requires Running(r) && r.end != 0 && r.info.chunked && r.info.contentLength > 0
    ensures var result := Received(r, Singles(s)); result.Content? ==> |result.bytes| <= r.info.contentLength
    decreases |s|
  {
    hide Turns, Sane;
    if s != [] {
      assert Singles(s)[1..] == Singles(s[1..]);
      TurnsAddAtMost(r.d, [s[0]]);
      var o := OnBody(r, [s[0]]);
      if o.Proceed? {
        SinglesStop(o.r, s[1..]);
      }
    }
  }

  /** The headers in one packet, the body byte by byte. */
  function Slowly(h: seq<Byte>, body: seq<Byte>): seq<seq<Byte>>
  {
    [h] + Singles(body)
  }

  lemma ConcatSlowly(h: seq<Byte>, body: seq<Byte>)
    ensures Concat(Slowly(h, body)) == h + body
  {
    hide Singles;
    assert Slowly(h, body)[1..] == Singles(body);
    ConcatSingles(body);
  }

  lemma SlowlyStops(h: seq<Byte>, body: seq<Byte>)
    requires IsHeader(h) && HeaderInfo(h, |h|).chunked && HeaderInfo(h, |h|).contentLength > 0
    ensures var result := Received(START, Slowly(h, body));
            result.Content? ==> |result.bytes| <= HeaderInfo(h, |h|).contentLength
  {
    hide HeaderInfo, ScanEnd, Singles;
    var pieces := Slowly(h, body);
    var r := Reader(h, |h|, HeaderInfo(h, |h|), Decoder(0, [], []));
    assert [] + h == h && h[|h|..] == [] && pieces[1..] == Singles(body);
    NothingArrives(r);
    SinglesStop(r, body);
  }

  lemma NothingArrives(r: Reader)
    requires r.info.chunked && r.d == Decoder(0, [], [])
    ensures Running(r) && OnBody(r, []) == Proceed(r)
  {
  }

  /** A chunked response that announces n > 0 and arrives byte by byte: the first n bytes of the data. */
  lemma SlowResponse(h: seq<Byte>, cs: seq<Chunk>, last: Size, after: seq<Byte>)
    requires IsHeader(h) && HeaderInfo(h, |h|).chunked && HeaderInfo(h, |h|).settled
    requires AllChunks(cs) && IsLast(last) && HeaderInfo(h, |h|).contentLength > 0
    ensures Received(START, Slowly(h, Encoded(cs, last, after)))
         == Content(Kept(HeaderInfo(h, |h|).contentLength, Decoded(cs)))
  {
    hide IsHeader, HeaderInfo, Received, AllChunks, IsLast, Encoded, Decoded, Concat, Slowly;
    var body := Encoded(cs, last, after);
    var pieces := Slowly(h, body);
    ConcatSlowly(h, body);
    assert Concat(pieces) + [] == Concat(pieces);
    ChunkedPart(h, cs, last, after, pieces, []);
    SlowlyStops(h, body);
    OnlyPart(Received(START, pieces).bytes, Decoded(cs), HeaderInfo(h, |h|).contentLength);
  }

  lemma OnlyPart(bytes: seq<Byte>, data: seq<Byte>, n: int)
    requires n > 0 && IsPart(bytes, data, n, true) && |bytes| <= n
    ensures bytes == Kept(n, data)
  {
  }

  /** However a chunked response is cut, the chunks' data comes out: this holds if and only if no positive
      length below that of the data was announced. */
  lemma CompleteForEveryCut(h: seq<Byte>, cs: seq<Chunk>, last: Size, after: seq<Byte>)
    requires IsHeader(h) && HeaderInfo(h, |h|).chunked && HeaderInfo(h, |h|).settled
    requires AllChunks(cs) && IsLast(last)
    ensures var n := HeaderInfo(h, |h|).contentLength;
            (forall pieces :: Concat(pieces) == h + Encoded(cs, last, after) ==>
               Received(START, pieces) == Content(Decoded(cs)))
            <==> n <= 0 || n >= |Decoded(cs)|
  {
    hide IsHeader, HeaderInfo, Received, AllChunks, IsLast, Encoded, Decoded, Concat, Slowly;
    var n := HeaderInfo(h, |h|).contentLength;
    if n <= 0 || n >= |Decoded(cs)| {
      forall pieces | Concat(pieces) == h + Encoded(cs, last, after)
        ensures Received(START, pieces) == Content(Decoded(cs))
      {
        ChunkedResponse(h, cs, last, after, pieces);
      }
    } else {
      ConcatSlowly(h, Encoded(cs, last, after));
      SlowResponse(h, cs, last, after);
      assert Kept(n, Decoded(cs)) != Decoded(cs);
    }
  }

  // ----- sizes that are negative as a C int -----

  lemma {:induction false} CrashingBody(r: Reader, pieces: seq<seq<Byte>>, buf: seq<Byte>,
                                        p: Place, cs: seq<Chunk>, last: Size, after: seq<Byte>)
    requires Running(r) && r.end != 0 && r.info.chunked
    requires AllChunks(cs) && IsHuge(last) && Stands(r.d, buf + Concat(pieces), p, cs, last, after)
    requires r.info.contentLength <= 0 || r.info.contentLength > |r.d.content + Remaining(p, cs)|
    ensures Finish(OnBody(r, buf), pieces) == Crashed
    decreases |pieces|
  {
    hide Turns, Stands, Remaining, AllChunks, IsLast, IsHuge, Sane;
    FinalSize(last);
    var p', cs' := TurnsAdvance(r.d, buf, Concat(pieces), p, cs, last, after);
    var t := Turns(r.d, buf);
    if t.Continue? {
      if pieces == [] {
        StreamGoesOn(t.d, p', cs', last, after);
      } else {
        CrashingBody(r.(d := t.d), pieces[1..], pieces[0], p', cs', last, after);
      }
    }
  }

  /** A size of 2^31 or more behind any chunks, cut anywhere: the decoder copies beyond its packet. By
      ChunkedPart, no stream of smaller chunks that ends in a zero size does that. */
  lemma HugeChunkCrashes(h: seq<Byte>, cs: seq<Chunk>, last: Size, after: seq<Byte>, pieces: seq<seq<Byte>>)
    requires IsHeader(h)
    requires var info := HeaderInfo(h, |h|);
             info.chunked && info.settled && (info.contentLength <= 0 || info.contentLength > |Decoded(cs)|)
    requires AllChunks(cs) && IsHuge(last)
    requires Concat(pieces) == h + Encoded(cs, last, after)
    ensures Received(START, pieces) == Crashed
  {
    hide IsHeader, HeaderInfo, OnBody, Received, AllChunks, IsHuge, Encoded, Decoded, Concat;
    var body := Encoded(cs, last, after);
    StartIsRunning(h);
    assert [] + Concat(pieces) == h + body;
    var buf, rest := Headers(START, pieces, h, body);
    var r := Reader(h + buf, |h|, HeaderInfo(h, |h|), Decoder(0, [], []));
    assert [] + body == body;
    assert [] + Remaining(BeforeLine([]), cs) == Decoded(cs);
    CrashingBody(r, rest, buf, BeforeLine([]), cs, last, after);
  }

  lemma StartIsRunning(h: seq<Byte>)
    ensures Running(START)
    ensures IsHeader(h) ==> |START.header| < |h|
  {
  }

  // ----- plain responses -----

  /** What of a plain body is kept: the announced length, or everything. */
  function Kept(contentLength: int, body: seq<Byte>): seq<Byte>
  {
    if contentLength > 0 && |body| > contentLength then body[..contentLength] else body
  }

  lemma {:induction false} PlainBody(r: Reader, pieces: seq<seq<Byte>>, buf: seq<Byte>)
    requires Running(r) && r.end != 0 && !r.info.chunked
    ensures var o := OnBody(r, buf);
            var kept := Kept(r.info.contentLength, r.d.content + (buf + Concat(pieces)));
            && (o.Stop? ==> o.content == kept)
            && (o.Proceed? ==> Received(o.r, pieces) == Content(kept))
            && !o.Crash?
    decreases |pieces|
  {
    hide Sane;
    var n, content := r.info.contentLength, r.d.content;
    var all := content + (buf + Concat(pieces));
    var o := OnBody(r, buf);
    if o.Proceed? {
      assert buf[..|buf|] == buf;
      assert o.r.d.content == content + buf;
      if pieces == [] {
        assert all == content + buf;
      } else {
        PlainBody(o.r, pieces[1..], pieces[0]);
        assert (content + buf) + (pieces[0] + Concat(pieces[1..])) == all;
      }
    } else {
      assert content + buf[..n - |content|] == all[..n];
    }
  }

  /** A response that is not chunked, cut anywhere: the announced number of body bytes, fewer if the
      connection ends early, all of them if no positive length was announced. */
  lemma PlainResponse(h: seq<Byte>, body: seq<Byte>, pieces: seq<seq<Byte>>)
    requires IsHeader(h)
    requires var info := HeaderInfo(h, |h|);
             !info.chunked && info.settled
    requires Concat(pieces) == h + body
    ensures Received(START, pieces) == Content(Kept(HeaderInfo(h, |h|).contentLength, body))
  {
    hide IsHeader, HeaderInfo, OnBody, Received, Kept;
    StartIsRunning(h);
    assert [] + Concat(pieces) == h + body;
    var buf, rest := Headers(START, pieces, h, body);
    var r := Reader(h + buf, |h|, HeaderInfo(h, |h|), Decoder(0, [], []));
    PlainBody(r, rest, buf);
    assert [] + (buf + Concat(rest)) == body;
  }

  // ----- in terms of the header lines -----

  /** Header lines of which one says chunked and none announces a length. */
  lemma ChunkedLines(lines: seq<seq<Byte>>, eol: seq<Byte>, cs: seq<Chunk>, last: Size, after: seq<Byte>,
                     pieces: seq<seq<Byte>>)
    requires IsBreak(eol) && AllLines(lines) && SomeChunked(lines) && NoLength(lines)
    requires AllChunks(cs) && IsLast(last)
    requires Concat(pieces) == Text(lines, eol) + Encoded(cs, last, after)
    ensures Received(START, pieces) == Content(Decoded(cs))
  {
    hide IsBreak, AllLines, IsHeader, HeaderInfo, Received, AllChunks, IsLast, Encoded, Decoded, Concat, Text, IsOpen,
      IsLengthLine;
    var h := Text(lines, eol);
    HeaderMeaning(lines, eol, []);
    assert h + [] == h;
    NoLengthNoOpen(lines, eol);
    ChunkedResponse(h, cs, last, after, pieces);
  }

  lemma NoLengthNoOpen(lines: seq<seq<Byte>>, eol: seq<Byte>)
    requires NoLength(lines)
    ensures forall k: nat :: !IsOpen(lines, k, eol)
  {
  }

  /** Header lines of which none says chunked and of which the last length line, the k-th, has digits for
      its value: that many bytes of the body come out, or all of it if it is shorter. */
  lemma PlainLines(lines: seq<seq<Byte>>, eol: seq<Byte>, k: nat, digits: seq<Byte>, t: seq<Byte>, body: seq<Byte>,
                   pieces: seq<seq<Byte>>)
    requires IsBreak(eol) && AllLines(lines) && !SomeChunked(lines) && IsLastLength(lines, k)
    requires ValueOf(lines[k]) == digits + t && digits != [] && AllDigits(digits) && (t == [] || !IsDigit(t[0]))
    requires Decimal(digits) > 0 && Concat(pieces) == Text(lines, eol) + body
    ensures Received(START, pieces)
         == Content(if Decimal(digits) < |body| then body[..Decimal(digits)] else body)
  {
    hide IsBreak, AllLines, IsHeader, HeaderInfo, Received, Concat, Text, IsOpen, ValueOf, IsLengthLine, Decimal,
      AllDigits, SomeChunked, NoLength, Number, Behind;
    var h := Text(lines, eol);
    HeaderMeaning(lines, eol, []);
    AnnouncedLength(lines, eol, [], k, digits, t);
    assert h + [] == h;
    PlainResponse(h, body, pieces);
  }

  // ----- responses as servers write them -----

  /** Two header lines and their empty line. */
  lemma TwoLines(a: seq<Byte>, b: seq<Byte>, eol: seq<Byte>)
    ensures Text([a, b], eol) == a + (eol + (b + (eol + eol)))
  {
    assert [a, b][1..] == [b] && [b][1..] == [];
    assert Text([b], eol) == b + (eol + eol);
  }

  lemma LineBreaks()
    ensures Ascii("\r\n") == CRLF && Ascii("\r\n\r\n") == CRLF + CRLF && IsBreak(CRLF)
  {
  }

  /** The text of a plain response. */
  function PlainText(blanks: seq<Byte>, ds: seq<nat>, body: seq<Byte>): seq<Byte>
    requires AreDigits(10, ds)
  {
    Ascii("HTTP/1.1 200 OK") + Ascii("\r\n") + (Ascii("Content-Length:") + blanks + DigitBytes(ds)) + Ascii("\r\n\r\n") + body
  }

  lemma TextOfTwo(a: seq<Byte>, b: seq<Byte>, body: seq<Byte>)
    ensures a + Ascii("\r\n") + b + Ascii("\r\n\r\n") + body == Text([a, b], CRLF) + body
  {
    hide Text;
    LineBreaks();
    TwoLines(a, b, CRLF);
  }

  /** A usual response with a Content-Length, cut anywhere: that many bytes of the body. */
  lemma UsualPlainResponse(blanks: seq<Byte>, ds: seq<nat>, body: seq<Byte>, pieces: seq<seq<Byte>>)
    requires AreBlanks(blanks) && AreDigits(10, ds) && ds != [] && Value(10, ds) > 0
    requires Concat(pieces) == PlainText(blanks, ds, body)
    ensures Received(START, pieces) == Content(if Value(10, ds) < |body| then body[..Value(10, ds)] else body)
  {
    hide Received, Concat, Text, Value, Decimal, LengthLine, IsLengthLine, HasName, NameIs, IsChunkedLine;
    var status, line := Ascii("HTTP/1.1 200 OK"), LengthLine(blanks, ds);
    var lines := [status, line];
    LengthLineIs(blanks, ds);
    TextOfTwo(status, line, body);
    LineBreaks();
    StatusLine();
    LengthLineAnnounces(blanks, ds);
    NamelessSaysNothing(status);
    NotBoth(line);
    assert DigitBytes(ds) == DigitBytes(ds) + [];
    PlainLines(lines, CRLF, 1, DigitBytes(ds), [], body, pieces);
  }

  lemma LengthLineIs(blanks: seq<Byte>, ds: seq<nat>)
    requires AreDigits(10, ds)
    ensures LengthLine(blanks, ds) == Ascii("Content-Length:") + blanks + DigitBytes(ds)
  {
  }

  lemma NamelessSaysNothing(l: seq<Byte>)
    requires !HasName(l)
    ensures !IsLengthLine(l) && !IsChunkedLine(l)
  {
  }

  /** The text of a chunked response. */
  function ChunkedText(blanks: seq<Byte>, cs: seq<Chunk>, last: Size, after: seq<Byte>): seq<Byte>
  {
    Ascii("HTTP/1.1 200 OK") + Ascii("\r\n") + (Ascii("Transfer-Encoding:") + blanks + Ascii("chunked"))
    + Ascii("\r\n\r\n") + Encoded(cs, last, after)
  }

  /** A usual chunked response, cut anywhere: the chunks' data. */
  lemma UsualChunkedResponse(blanks: seq<Byte>, cs: seq<Chunk>, last: Size, after: seq<Byte>, pieces: seq<seq<Byte>>)
    requires AreBlanks(blanks) && AllChunks(cs) && IsLast(last) && Concat(pieces) == ChunkedText(blanks, cs, last, after)
    ensures Received(START, pieces) == Content(Decoded(cs))
  {
    hide Received, Concat, Text, IsLengthLine, HasName, NameIs, IsChunkedLine, AllChunks, IsLast, Encoded, Decoded, AreBlanks;
    var status, line := Ascii("HTTP/1.1 200 OK"), ChunkedLine(blanks);
    var lines := [status, line];
    LineBreaks();
    TextOfTwo(status, line, Encoded(cs, last, after));
    StatusLine();
    ChunkedLineSaysSo(blanks);
    NamelessSaysNothing(status);
    assert IsChunkedLine(lines[1]);
    ChunkedLines(lines, CRLF, cs, last, after, pieces);
  }

  // ----- the code -----

  /** `getHTTPResponse`, given the packets that `receivedata` returns before it fails or times out. */
  method GetHttpResponse(pieces: seq<seq<Byte>>) returns (result: Result)
    ensures result == Received(START, pieces)
  {
    hide Turns, HeaderInfo, ScanEnd, Sane;
    var header: seq<Byte> := [];
    var endOfHeaders := 0;
    var info := Info(-1, false, true);
    var d := Decoder(0, [], []);
    assert Running(START) by { StartIsRunning([]); }
    for k := 0 to |pieces|
      invariant Running(Reader(header, endOfHeaders, info, d))
      invariant endOfHeaders == 0 ==> info == START.info && d == START.d
      invariant Received(Reader(header, endOfHeaders, info, d), pieces[k..]) == Received(START, pieces)
    {
      assert pieces[k..][1..] == pieces[k + 1..];
      var buf := pieces[k];
      if endOfHeaders == 0 {
        header := header + buf;
        endOfHeaders := FindEnd(header);
        if endOfHeaders == 0 {
          continue;
        }
        info := ParseHeaders(header, endOfHeaders);
        buf := header[endOfHeaders..];
      }
      if info.chunked {
        var t := DecodePacket(d, buf);
        if t.Overrun? {
          return Crashed;
        }
        if t.EndOfStream? {
          return Content(t.content);
        }
        d := t.d;
      } else {
        var n := |buf|;
        if info.contentLength > 0 && |d.content| + n > info.contentLength {
          n := info.contentLength - |d.content|;
        }
        d := d.(content := d.content + buf[..n]);
      }
      if info.contentLength > 0 && |d.content| >= info.contentLength {
        return Content(d.content);
      }
    }
    assert pieces[|pieces|..] == [];
    result := Content(d.content);
  }
}
