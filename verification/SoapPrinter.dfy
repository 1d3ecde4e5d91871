/** The loops that print a SOAP body into a buffer of fixed size, miniupnpc/miniupnpc.c:161-210. */
module SoapPrinter {
  import opened Common
  import opened MiniXml
  import opened XmlParser
  import opened Soap

  /** An argument starts within the last 100 characters. */
  predicate Refused(len: nat, args: seq<Arg>)
    decreases |args|
  {
    args != [] && (len + MARGIN >= SIZE || Refused(len + |Argument(args[0], "")|, args[1..]))
  }

  /** A write lands behind the buffer: an argument that starts before the margin is longer than what is
      left, or the action's end tag is. The tags after it are copied with a bound. */
  predicate Overruns(len: nat, args: seq<Arg>, action: string)
    decreases |args|
  {
    if args == [] then len + |ActionEnd(action)| > SIZE else
      var next := len + |Argument(args[0], "")|;
      len + MARGIN < SIZE && (next > SIZE || Overruns(next, args[1..], action))
  }

  lemma ArgumentSplit(a: Arg, rest: string)
    ensures Argument(a, rest) == Argument(a, "") + rest
  {
    var r1 := a.elt + (">" + rest);
    var q1 := a.elt + (">" + "");
    assert r1 == q1 + rest;
    var r2 := ">" + (Text(a) + ("</" + r1));
    var q2 := ">" + (Text(a) + ("</" + q1));
    assert r2 == q2 + rest;
  }

  lemma AttrSplit(name: string, value: string, a: string, b: string)
    ensures Attr(name, value, a + b) == Attr(name, value, a) + b
  {
    assert value + ("\"" + (a + b)) == value + ("\"" + a) + b;
  }

  lemma TagSplit(prefix: char, name: string, a: string, b: string)
    ensures Tag(prefix, name, a + b) == Tag(prefix, name, a) + b
  {
  }

  lemma ServiceTagSplit(service: string, action: string, b: string)
    ensures ServiceTag(service, action, b) == ServiceTag(service, action, "") + b
  {
    hide Tag, Attr;
    assert ">" + b == (">" + "") + b;
    AttrSplit("xmlns:u", service, ">" + "", b);
    TagSplit('u', action, Attr("xmlns:u", service, ">" + ""), b);
  }

  lemma EnvelopeSplit(a: string, b: string)
    ensures Envelope(a + b) == Envelope(a) + b
  {
    hide Tag, Attr;
    assert ">" + (a + b) == (">" + a) + b;
    TagSplit('s', "Body", ">" + a, b);
    var body := Tag('s', "Body", ">" + a);
    assert ">" + (body + b) == (">" + body) + b;
    AttrSplit("s:encodingStyle", ENCODING_STYLE, ">" + body, b);
    var inner := Attr("s:encodingStyle", ENCODING_STYLE, ">" + body);
    AttrSplit("xmlns:s", ENVELOPE_NAMESPACE, inner, b);
    TagSplit('s', "Envelope", Attr("xmlns:s", ENVELOPE_NAMESPACE, inner), b);
  }

  lemma OpeningSplit(service: string, action: string, inner: string)
    ensures Opening(service, action, inner) == Opening(service, action, "") + inner
  {
    hide ServiceTag, Envelope;
    ServiceTagSplit(service, action, inner);
    var tag := ServiceTag(service, action, "");
    EnvelopeSplit(tag, inner);
    assert DECLARATION + (Envelope(tag) + inner) == DECLARATION + Envelope(tag) + inner;
  }

  lemma {:induction false} ArgumentsSplit(args: seq<Arg>, rest: string)
    ensures Arguments(args, rest) == Arguments(args, "") + rest
  {
    hide Argument;
    if args != [] {
      ArgumentsSplit(args[1..], rest);
      var tail := Arguments(args[1..], "");
      ArgumentSplit(args[0], tail + rest);
      ArgumentSplit(args[0], tail);
      assert Argument(args[0], "") + (tail + rest) == Argument(args[0], "") + tail + rest;
    }
  }

  /** Everything that is written without a bound. */
  function Unbounded(service: string, action: string, args: seq<Arg>): string
  {
    Opening(service, action, Arguments(args, ActionEnd(action)))
  }

  lemma UnboundedThen(service: string, action: string, args: seq<Arg>, tail: string)
    ensures Opening(service, action, Arguments(args, ActionEnd(action) + tail)) == Unbounded(service, action, args) + tail
  {
    hide Opening, Arguments, ActionEnd;
    var all := Arguments(args, "");
    ArgumentsSplit(args, ActionEnd(action) + tail);
    ArgumentsSplit(args, ActionEnd(action));
    OpeningSplit(service, action, all + (ActionEnd(action) + tail));
    OpeningSplit(service, action, all + ActionEnd(action));
    assert all + (ActionEnd(action) + tail) == all + ActionEnd(action) + tail;
  }

  lemma BodyIsUnboundedThenRest(service: string, action: string, args: seq<Arg>)
    ensures SoapBody(service, action, args) == Unbounded(service, action, args) + (">" + LAST_TAGS)
  {
    hide Opening, Arguments, ActionEnd, Unbounded, Closing;
    ClosingSplit(action);
    UnboundedThen(service, action, args, ">" + LAST_TAGS);
  }

  // ----- the two conditions, in terms of where the arguments start -----

  /** Where the k-th argument starts, or the last one ends. */
  function StartAt(len: nat, args: seq<Arg>, k: nat): nat
    requires k <= |args|
  {
    len + |Arguments(args[..k], "")|
  }

  lemma StartOfFirst(len: nat, args: seq<Arg>)
    ensures StartAt(len, args, 0) == len
  {
    assert args[..0] == [];
  }

  lemma StartOfNext(len: nat, args: seq<Arg>, k: nat)
    requires k < |args|
    ensures StartAt(len, args, k + 1) == StartAt(len + |Argument(args[0], "")|, args[1..], k)
  {
    hide Argument;
    assert args[..k + 1][1..] == args[1..][..k];
    ArgumentSplit(args[0], Arguments(args[1..][..k], ""));
  }

  /** The printer gives up, or would, exactly if some argument starts at 1948 or later. */
  lemma {:induction false} RefusedIff(len: nat, args: seq<Arg>)
    ensures Refused(len, args) <==> exists k: nat :: k < |args| && StartAt(len, args, k) >= 1948
    decreases |args|
  {
    hide Argument, StartAt;
    if args != [] {
      var next := len + |Argument(args[0], "")|;
      StartOfFirst(len, args);
      RefusedIff(next, args[1..]);
      forall k: nat | k < |args[1..]|
        ensures StartAt(len, args, k + 1) == StartAt(next, args[1..], k)
      {
        StartOfNext(len, args, k);
      }
      if exists k: nat :: k < |args| && StartAt(len, args, k) >= 1948 {
        var k: nat :| k < |args| && StartAt(len, args, k) >= 1948;
        assert k > 0 ==> StartAt(next, args[1..], k - 1) >= 1948;
      }
      if exists k: nat :: k < |args[1..]| && StartAt(next, args[1..], k) >= 1948 {
        var k: nat :| k < |args[1..]| && StartAt(next, args[1..], k) >= 1948;
        assert StartAt(len, args, k + 1) >= 1948;
      }
    }
  }

  /** The k-th argument, or the action's end tag, is the first thing that does not fit. */
  ghost predicate FirstMisfit(len: nat, args: seq<Arg>, action: string, k: nat)
  {
    && k <= |args|
    && (forall j: nat :: j < k ==> StartAt(len, args, j) < 1948)
    && if k < |args| then StartAt(len, args, k) < 1948 && StartAt(len, args, k + 1) > 2048
       else StartAt(len, args, k) + 4 + |action| > 2048
  }

  lemma MisfitShifts(len: nat, args: seq<Arg>, action: string, k: nat)
    requires args != [] && len < 1948 && k <= |args[1..]|
    ensures FirstMisfit(len, args, action, k + 1) <==> FirstMisfit(len + |Argument(args[0], "")|, args[1..], action, k)
  {
    hide Argument, StartAt;
    var next, tail := len + |Argument(args[0], "")|, args[1..];
    StartOfFirst(len, args);
    forall j: nat | j < |args|
      ensures StartAt(len, args, j + 1) == StartAt(next, tail, j)
    {
      StartOfNext(len, args, j);
    }
    if FirstMisfit(len, args, action, k + 1) {
      forall j: nat | j < k
        ensures StartAt(next, tail, j) < 1948
      {
        assert StartAt(len, args, j + 1) < 1948;
      }
    }
    if FirstMisfit(next, tail, action, k) {
      forall j: nat | j < k + 1
        ensures StartAt(len, args, j) < 1948
      {
        assert j > 0 ==> StartAt(next, tail, j - 1) < 1948;
      }
    }
  }

  /** A write lands behind the 2048 characters exactly if something is the first not to fit. */
  lemma {:induction false} OverrunsIff(len: nat, args: seq<Arg>, action: string)
    ensures Overruns(len, args, action) <==> exists k: nat :: FirstMisfit(len, args, action, k)
    decreases |args|
  {
    hide Argument, FirstMisfit;
    if args == [] {
      MisfitAtEnd(len, action);
    } else {
      var next, tail := len + |Argument(args[0], "")|, args[1..];
      OverrunsIff(next, tail, action);
      MisfitAtFirst(len, args, action);
      if len < 1948 {
        forall k: nat | k <= |tail|
          ensures FirstMisfit(len, args, action, k + 1) <==> FirstMisfit(next, tail, action, k)
        {
          MisfitShifts(len, args, action, k);
        }
        if exists k: nat :: FirstMisfit(next, tail, action, k) {
          var k: nat :| FirstMisfit(next, tail, action, k);
          MisfitBound(next, tail, action, k);
          assert FirstMisfit(len, args, action, k + 1);
        }
        if exists k: nat :: FirstMisfit(len, args, action, k) {
          var k: nat :| FirstMisfit(len, args, action, k);
          MisfitBound(len, args, action, k);
          if k > 0 {
            assert FirstMisfit(next, tail, action, k - 1);
          }
        }
      }
    }
  }

  lemma MisfitBound(len: nat, args: seq<Arg>, action: string, k: nat)
    requires FirstMisfit(len, args, action, k)
    ensures k <= |args|
  {
  }

  lemma MisfitAtEnd(len: nat, action: string)
    ensures Overruns(len, [], action) <==> FirstMisfit(len, [], action, 0)
    ensures forall k: nat :: FirstMisfit(len, [], action, k) ==> k == 0
  {
    StartOfFirst(len, []);
  }

  lemma MisfitAtFirst(len: nat, args: seq<Arg>, action: string)
    requires args != []
    ensures FirstMisfit(len, args, action, 0) <==> len < 1948 && len + |Argument(args[0], "")| > 2048
    ensures len >= 1948 ==> forall k: nat :: !FirstMisfit(len, args, action, k)
  {
    hide Argument;
    StartOfFirst(len, args);
    StartOfNext(len, args, 0);
    StartOfFirst(len + |Argument(args[0], "")|, args[1..]);
  }

  // ----- when the margin is enough -----

  /** The check suffices for arguments that are, with the action's end tag, at most 101 characters long. */
  lemma {:induction false} ShortArgumentsFit(len: nat, args: seq<Arg>, action: string)
    requires args != []
    requires forall i :: 0 <= i < |args| ==> |Argument(args[i], "")| + |ActionEnd(action)| <= MARGIN + 1
    ensures !Overruns(len, args, action)
    decreases |args|
  {
    hide Argument, ActionEnd;
    if |args| > 1 {
      ShortArgumentsFit(len + |Argument(args[0], "")|, args[1..], action);
    } else {
      assert args[1..] == [];
    }
  }

  lemma OpeningLength(service: string, action: string)
    ensures |Opening(service, action, "")| == 170 + |service| + |action|
  {
  }

  /** It does not suffice in general: a short request with one long argument is not given up. */
  lemma LongArgumentOverruns()
    ensures var args := [Arg("a", Some(seq(SIZE, _ => 'x')))];
            && PlainRequest("s", "a", args)
            && Overruns(|Opening("s", "a", "")|, args, "a") && !Refused(|Opening("s", "a", "")|, args)
  {
    hide Opening;
    OpeningLength("s", "a");
  }

  // ----- the code -----

  /** Copies `s` to position p, character by character; false if that leaves the buffer. */
  method Put(buf: array<char>, p: nat, s: string) returns (q: nat, ok: bool)
    modifies buf
    ensures ok <==> s == "" || p + |s| <= buf.Length
    ensures ok && p <= buf.Length ==> q == p + |s| && buf[..q] == old(buf[..p]) + s
  {
    q := p;
    while q < p + |s|
      invariant p <= q <= p + |s|
      invariant s != "" && p < q ==> q <= buf.Length
      invariant p <= buf.Length ==> q <= buf.Length && buf[..q] == old(buf[..p]) + s[..q - p]
    {
      if q >= buf.Length {
        return q, false;
      }
      buf[q] := s[q - p];
      q := q + 1;
      assert buf[..q] == buf[..q - 1] + [s[q - 1 - p]];
    }
    ok := true;
  }

  /** A tag without attributes; `open` is "<" or "</". */
  method PutTag(buf: array<char>, p: nat, open: string, name: string) returns (q: nat, ok: bool)
    requires p <= buf.Length
    modifies buf
    ensures ok <==> p + |open + name + ">"| <= buf.Length
    ensures ok ==> q == p + |open + name + ">"| && buf[..q] == old(buf[..p]) + (open + name + ">")
  {
    q, ok := Put(buf, p, open);
    if ok {
      q, ok := Put(buf, q, name);
    }
    if ok {
      q, ok := Put(buf, q, ">");
    }
  }

  /** One argument. */
  method PutArgument(buf: array<char>, p: nat, a: Arg) returns (q: nat, ok: bool)
    requires p <= buf.Length
    modifies buf
    ensures ok <==> p + |Argument(a, "")| <= buf.Length
    ensures ok ==> q == p + |Argument(a, "")| && buf[..q] == old(buf[..p]) + Argument(a, "")
  {
    ghost var before := buf[..p];
    InOnePiece(a);
    q, ok := PutTag(buf, p, "<", a.elt);
    if ok {
      q, ok := Put(buf, q, Text(a));
    }
    if ok {
      q, ok := PutTag(buf, q, "</", a.elt);
      assert ok ==> buf[..q] == before + (("<" + a.elt + ">") + Text(a) + ("</" + a.elt + ">"));
    }
  }

  lemma InOnePiece(a: Arg)
    ensures ("<" + a.elt + ">") + Text(a) + ("</" + a.elt + ">") == Argument(a, "")
  {
    var end := "</" + (a.elt + (">" + ""));
    assert "</" + a.elt + ">" == end;
    assert "<" + (a.elt + (">" + (Text(a) + end))) == "<" + a.elt + ">" + Text(a) + end;
  }

  /** strncpy to the end of the buffer: as much of `s` as there is room for, then NUL characters. */
  method CopyBounded(buf: array<char>, p: nat, s: string)
    requires p <= buf.Length
    modifies buf
    ensures forall i :: 0 <= i < p ==> buf[i] == old(buf[i])
    ensures forall i :: p <= i < buf.Length ==> buf[i] == if i - p < |s| then s[i - p] else '\0'
  {
    for q := p to buf.Length
      invariant forall i :: 0 <= i < p ==> buf[i] == old(buf[i])
      invariant forall i :: p <= i < q ==> buf[i] == if i - p < |s| then s[i - p] else '\0'
    {
      buf[q] := if q - p < |s| then s[q - p] else '\0';
    }
  }

  datatype Outcome = GaveUp | Overrun | Printed

  /** The argument loop, behind the text `before`. */
  method PutArguments(buf: array<char>, start: nat, args: seq<Arg>, ghost action: string, ghost before: string)
    returns (p: nat, r: Outcome)
    requires buf.Length == SIZE && (start < SIZE ==> buf[..start] == before)
    modifies buf
    ensures r.GaveUp? ==> Refused(start, args) && !Overruns(start, args, action)
    ensures r.Overrun? ==> Overruns(start, args, action)
    ensures r.Printed? ==>
      && !Refused(start, args) && Overruns(start, args, action) == (p + |ActionEnd(action)| > SIZE)
      && (p < SIZE ==> buf[..p] + ActionEnd(action) == before + Arguments(args, ActionEnd(action)))
  {
    hide ActionEnd, Argument;
    p := start;
    var k := 0;
    assert args[0..] == args;
    while k < |args|
      invariant k <= |args|
      invariant Refused(start, args) == Refused(p, args[k..])
      invariant Overruns(start, args, action) == Overruns(p, args[k..], action)
      invariant p < SIZE ==> before + Arguments(args, ActionEnd(action)) == buf[..p] + Arguments(args[k..], ActionEnd(action))
    {
      ghost var todo := args[k..];
      assert todo[0] == args[k] && todo[1..] == args[k + 1..];
      if SIZE <= p + MARGIN {
        return p, GaveUp;
      }
      ArgumentSplit(args[k], Arguments(todo[1..], ActionEnd(action)));
      ghost var done := buf[..p];
      var ok;
      p, ok := PutArgument(buf, p, args[k]);
      if !ok {
        return p, Overrun;
      }
      assert done + (Argument(args[k], "") + Arguments(todo[1..], ActionEnd(action)))
          == done + Argument(args[k], "") + Arguments(todo[1..], ActionEnd(action));
      k := k + 1;
    }
    r := Printed;
  }

  /** Every cell of the buffer holds the text's character, or NUL behind its end. */
  ghost predicate Holds(buf: string, text: string)
  {
    forall i :: 0 <= i < |buf| ==> buf[i] == if i < |text| then text[i] else '\0'
  }

  /** The whole body: written behind the buffer, given up, or printed. A printed body stands in the buffer
      as far as there is room, followed by NUL characters. */
  method PrintBody(buf: array<char>, service: string, action: string, args: seq<Arg>) returns (r: Outcome)
    requires buf.Length == SIZE
    modifies buf
    ensures r.Overrun? <==> Overruns(|Opening(service, action, "")|, args, action)
    ensures r.GaveUp? <==> Refused(|Opening(service, action, "")|, args) && !r.Overrun?
    ensures r.Printed? ==>
      |Unbounded(service, action, args)| <= SIZE && Holds(buf[..], SoapBody(service, action, args))
  {
    hide Opening, Arguments, ActionEnd, Argument, Refused, Overruns, SoapBody, Holds;
    var opening := Opening(service, action, "");
    var p, ok := Put(buf, 0, Cut(opening, SIZE - 1));
    OpeningSplit(service, action, Arguments(args, ActionEnd(action)));
    p, r := PutArguments(buf, |opening|, args, action, opening);
    if !r.Printed? {
      return;
    }
    ActionEndNotEmpty(action);
    p, ok := Put(buf, p, ActionEnd(action));
    if !ok {
      return Overrun;
    }
    ghost var all := Unbounded(service, action, args);
    assert buf[..p] == all;
    CopyBounded(buf, p, ">" + LAST_TAGS);
    BodyIsUnboundedThenRest(service, action, args);
    Appended(buf[..], all, ">" + LAST_TAGS);
  }

  lemma ActionEndNotEmpty(action: string)
    ensures ActionEnd(action) != ""
  {
  }

  lemma Appended(buf: string, a: string, b: string)
    requires |a| <= |buf| && buf[..|a|] == a
    requires forall i :: |a| <= i < |buf| ==> buf[i] == if i - |a| < |b| then b[i - |a|] else '\0'
    ensures Holds(buf, a + b)
  {
    assert forall i :: 0 <= i < |a| ==> buf[i] == a[i];
  }

  /** What the printer leaves: the body up to the end of the buffer. */
  lemma PrintedText(buf: string, service: string, action: string, args: seq<Arg>) returns (tail: string)
    requires |buf| == SIZE && |Unbounded(service, action, args)| <= SIZE
    requires Holds(buf, SoapBody(service, action, args))
    ensures tail <= ">" + LAST_TAGS
    ensures var n := if |SoapBody(service, action, args)| < SIZE then |SoapBody(service, action, args)| else SIZE;
            buf[..n] == Opening(service, action, Arguments(args, ActionEnd(action) + tail))
  {
    hide Opening, Arguments, ActionEnd, Unbounded, SoapBody;
    var body, base := SoapBody(service, action, args), Unbounded(service, action, args);
    var n := if |body| < SIZE then |body| else SIZE;
    BodyIsUnboundedThenRest(service, action, args);
    tail := (">" + LAST_TAGS)[..n - |base|];
    assert buf[..n] == body[..n];
    assert body[..n] == base + tail;
    UnboundedThen(service, action, args, tail);
  }

  /** Printing a request, parsing what is in the buffer and asking for a name gives the last argument of
      that name, whatever the parser's record held before, unless the printer gave up or overran. */
  method PrintThenAsk(buf: array<char>, service: string, action: string, args: seq<Arg>, name: string,
                      curelt: string, topelt: bool, cdata: Option<string>)
    returns (outcome: Outcome, answer: Option<string>)
    requires buf.Length == SIZE && args != [] && PlainRequest(service, action, args)
    modifies buf
    ensures outcome.Overrun? <==> Overruns(|Opening(service, action, "")|, args, action)
    ensures outcome.GaveUp? <==> Refused(|Opening(service, action, "")|, args) && !outcome.Overrun?
    ensures outcome.Printed? ==> IsAnswer(args, name, answer)
  {
    hide Parse, Opening, ActionEnd, Arguments, Unbounded, Overruns, Refused, PlainRequest, IsAnswer, SoapBody;
    answer := None;
    outcome := PrintBody(buf, service, action, args);
    if !outcome.Printed? {
      return;
    }
    ghost var tail := PrintedText(buf[..], service, action, args);
    var n := |SoapBody(service, action, args)|;
    if n > SIZE {
      n := SIZE;
    }
    var list := ParseNameValue(buf[..n], curelt, topelt, cdata);
    answer := GetValue(list, name);
    LookupAfterPrinting(service, action, args, tail, Data([], curelt, None, topelt, cdata), name);
  }
}
