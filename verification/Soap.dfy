/** The SOAP request body of miniupnpc/miniupnpc.c:161-210, and what the name/value parser makes of it. */
module Soap {
  import opened Common
  import opened MiniXml

  const SIZE := 2048
  const MARGIN := 100

  const DECLARATION := "?xml version=\"1.0\"?>\r\n"
  const ENVELOPE_NAMESPACE := "http://schemas.xmlsoap.org/soap/envelope/"
  const ENCODING_STYLE := "http://schemas.xmlsoap.org/soap/encoding/"

  /** `struct UPNParg`; a null value is printed as nothing. */
  datatype Arg = Arg(elt: string, val: Option<string>)

  function Text(a: Arg): string
  {
    if a.val.Some? then a.val.value else ""
  }

  // ----- the text -----

  function Attr(name: string, value: string, rest: string): string
  {
    " " + (name + ("=\"" + (value + ("\"" + rest))))
  }

  /** A start tag up to the end of its prefixed name. */
  function Tag(prefix: char, name: string, after: string): string
  {
    "<" + ([prefix, ':'] + name + after)
  }

  function EndOf(prefix: char, name: string, rest: string): string
  {
    "</" + ([prefix, ':'] + name + (">" + rest))
  }

  function ServiceTag(service: string, action: string, inner: string): string
  {
    Tag('u', action, Attr("xmlns:u", service, ">" + inner))
  }

  function Envelope(inner: string): string
  {
    Tag('s', "Envelope", Attr("xmlns:s", ENVELOPE_NAMESPACE, Attr("s:encodingStyle", ENCODING_STYLE, ">" +
      Tag('s', "Body", ">" + inner))))
  }

  /** Everything up to the arguments, followed by `inner`. */
  function Opening(service: string, action: string, inner: string): string
  {
    "<" + (DECLARATION + Envelope(ServiceTag(service, action, inner)))
  }

  function Closing(action: string): string
  {
    EndOf('u', action, EndOf('s', "Body", EndOf('s', "Envelope", "\r\n")))
  }

  /** The first part of the closing, printed like an argument, and the rest, printed with strncpy. */
  function ActionEnd(action: string): string
  {
    "</" + (['u', ':'] + action)
  }

  const LAST_TAGS := "</s:Body></s:Envelope>\r\n"

  lemma ClosingSplit(action: string)
    ensures Closing(action) == ActionEnd(action) + (">" + LAST_TAGS)
  {
    LastTags();
    assert ActionEnd(action) + (">" + LAST_TAGS) == "</" + (['u', ':'] + action + (">" + LAST_TAGS));
  }

  lemma LastTags()
    ensures EndOf('s', "Body", EndOf('s', "Envelope", "\r\n")) == LAST_TAGS
  {
    assert EndOf('s', "Envelope", "\r\n") == "</s:Envelope>\r\n";
    assert EndOf('s', "Body", "</s:Envelope>\r\n") == LAST_TAGS;
  }

  function Argument(a: Arg, rest: string): string
  {
    "<" + (a.elt + (">" + (Text(a) + ("</" + (a.elt + (">" + rest))))))
  }

  function Arguments(args: seq<Arg>, rest: string): string
  {
    if args == [] then rest else Argument(args[0], Arguments(args[1..], rest))
  }

  function SoapBody(service: string, action: string, args: seq<Arg>): string
  {
    Opening(service, action, Arguments(args, Closing(action)))
  }

  // ----- the text, spelled out -----

  lemma ServiceTagText(service: string, action: string, inner: string)
    ensures ServiceTag(service, action, inner) == "<u:" + (action + (" xmlns:u=\"" + (service + ("\">" + inner))))
  {
    var end := service + ("\"" + (">" + inner));
    assert end == service + ("\">" + inner);
    assert " " + ("xmlns:u" + ("=\"" + end)) == " xmlns:u=\"" + end;
  }

  lemma BodyTagText(inner: string)
    ensures ">" + Tag('s', "Body", ">" + inner) == "><s:Body>" + inner
  {
  }

  lemma StyleText(style: string, rest: string)
    ensures Attr("s:encodingStyle", style, rest) == " s:encodingStyle=\"" + (style + ("\"" + rest))
  {
    var end := style + ("\"" + rest);
    assert " " + ("s:encodingStyle" + ("=\"" + end)) == " s:encodingStyle=\"" + end;
  }

  lemma EnvelopeTagText(namespace: string, rest: string)
    ensures Tag('s', "Envelope", Attr("xmlns:s", namespace, rest))
         == "<s:Envelope xmlns:s=\"" + (namespace + ("\"" + rest))
  {
    var end := namespace + ("\"" + rest);
    assert " " + ("xmlns:s" + ("=\"" + end)) == " xmlns:s=\"" + end;
    assert "<" + (['s', ':'] + "Envelope" + (" xmlns:s=\"" + end)) == "<s:Envelope xmlns:s=\"" + end;
  }

  lemma EnvelopeText(inner: string)
    ensures Envelope(inner)
         == "<s:Envelope xmlns:s=\"" + ("http://schemas.xmlsoap.org/soap/envelope/" + ("\"" + (" s:encodingStyle=\""
            + ("http://schemas.xmlsoap.org/soap/encoding/" + ("\"" + ("><s:Body>" + inner))))))
  {
    hide Tag, Attr;
    BodyTagText(inner);
    StyleText(ENCODING_STYLE, "><s:Body>" + inner);
    EnvelopeTagText(ENVELOPE_NAMESPACE, Attr("s:encodingStyle", ENCODING_STYLE, "><s:Body>" + inner));
  }

  /** The text before the arguments, as the source prints it. */
  lemma OpeningText(service: string, action: string, inner: string)
    ensures Opening(service, action, inner)
         == "<?xml version=\"1.0\"?>\r\n" + ("<s:Envelope xmlns:s=\"" + ("http://schemas.xmlsoap.org/soap/envelope/"
            + ("\"" + (" s:encodingStyle=\"" + ("http://schemas.xmlsoap.org/soap/encoding/" + ("\"" + ("><s:Body>"
            + ("<u:" + (action + (" xmlns:u=\"" + (service + ("\">" + inner))))))))))))
  {
    hide Envelope, ServiceTag;
    ServiceTagText(service, action, inner);
    var tag := ServiceTag(service, action, inner);
    EnvelopeText(tag);
    Declared(Envelope(tag));
  }

  lemma Declared(rest: string)
    ensures "<" + (DECLARATION + rest) == "<?xml version=\"1.0\"?>\r\n" + rest
  {
    assert "<" + DECLARATION == "<?xml version=\"1.0\"?>\r\n";
    assert "<" + (DECLARATION + rest) == ("<" + DECLARATION) + rest;
  }

  /** The text behind the arguments. */
  lemma ClosingText(action: string)
    ensures Closing(action) == "</u:" + action + "></s:Body></s:Envelope>\r\n"
  {
    ClosingSplit(action);
    assert ActionEnd(action) == "</u:" + action;
  }

  /** One argument; a missing value is printed as nothing. */
  lemma ArgumentText(a: Arg, rest: string)
    ensures var v := match a.val case None => "" case Some(v) => v;
            Argument(a, rest) == "<" + a.elt + ">" + v + "</" + a.elt + ">" + rest
  {
    var end := "</" + (a.elt + (">" + rest));
    assert end == "</" + a.elt + ">" + rest;
    assert a.elt + (">" + (Text(a) + end)) == a.elt + ">" + Text(a) + end;
  }

  // ----- parsing it -----

  predicate PlainName(name: string)
  {
    0 < |name| <= 63 && IsNameText(name) && name[0] != '?' && name[0] != '!' && name != "NewPortListing"
  }

  predicate PlainArg(a: Arg)
  {
    PlainName(a.elt) && '<' !in Text(a)
  }

  function Entry(a: Arg): NameValue
  {
    NameValue(a.elt, if |Text(a)| > 127 then Text(a)[..127] else Text(a))
  }

  /** The entries of the arguments, newest first. */
  function Entries(args: seq<Arg>): seq<NameValue>
  {
    if args == [] then [] else Entries(args[1..]) + [Entry(args[0])]
  }

  lemma AttrIsSkipped(name: string, value: string, rest: string)
    requires IsAttributeName(name) && '"' !in value && rest != ""
    ensures Attributes(Attr(name, value, rest)) == Attributes(rest)
  {
    hide Attribute;
    var behind := name + ("=\"" + (value + ("\"" + rest)));
    assert Attr(name, value, rest)[1..] == behind;
    AttributeIsSkipped(name, value, rest);
  }

  lemma TagStarts(prefix: char, name: string, after: string, rest: string, d: Data)
    requires !EndsName(prefix) && prefix != '?' && prefix != '!' && name != "" && IsNameText(name)
    requires after != "" && EndsName(after[0]) && Attributes(after) == Some(">" + rest)
    requires |rest| > 1 && rest[0] == '<' && rest[1] != '!'
    ensures Parse(Tag(prefix, name, after), d) == Parse(rest, StartElt(d, name))
  {
    hide Attributes, Parse, StartElt, Name;
    PrefixIsDropped(prefix, name, after);
    StartTag([prefix, ':'] + name + after, name, after, rest, d);
  }

  lemma ServiceTagStarts(service: string, action: string, inner: string, d: Data)
    requires action != "" && IsNameText(action) && '"' !in service
    requires |inner| > 1 && inner[0] == '<' && inner[1] != '!'
    ensures Parse(ServiceTag(service, action, inner), d) == Parse(inner, StartElt(d, action))
  {
    hide Parse, StartElt, Attributes;
    AttrIsSkipped("xmlns:u", service, ">" + inner);
    TagEnds(inner);
    TagStarts('u', action, Attr("xmlns:u", service, ">" + inner), inner, d);
  }

  lemma BodyTagStarts(inner: string, d: Data)
    requires |inner| > 1 && inner[0] == '<' && inner[1] != '!'
    ensures Parse(Tag('s', "Body", ">" + inner), d) == Parse(inner, StartElt(d, "Body"))
  {
    hide Parse, StartElt, Attributes;
    TagEnds(inner);
    TagStarts('s', "Body", ">" + inner, inner, d);
  }

  lemma EnvelopeAttributes(rest: string)
    ensures Attributes(Attr("xmlns:s", ENVELOPE_NAMESPACE, Attr("s:encodingStyle", ENCODING_STYLE, ">" + rest)))
         == Some(">" + rest)
  {
    hide Attributes;
    TagEnds(rest);
    AttrIsSkipped("s:encodingStyle", ENCODING_STYLE, ">" + rest);
    AttrIsSkipped("xmlns:s", ENVELOPE_NAMESPACE, Attr("s:encodingStyle", ENCODING_STYLE, ">" + rest));
  }

  lemma EnvelopeStarts(inner: string, d: Data)
    requires |inner| > 1 && inner[0] == '<' && inner[1] != '!'
    ensures Parse(Envelope(inner), d) == Parse(inner, StartElt(StartElt(d, "Envelope"), "Body"))
  {
    hide Parse, StartElt, Attributes;
    var body := Tag('s', "Body", ">" + inner);
    var after := Attr("xmlns:s", ENVELOPE_NAMESPACE, Attr("s:encodingStyle", ENCODING_STYLE, ">" + body));
    EnvelopeAttributes(body);
    TagStarts('s', "Envelope", after, body, d);
    BodyTagStarts(inner, StartElt(d, "Envelope"));
  }

  lemma DeclarationIsSkipped(rest: string, d: Data)
    requires rest != ""
    ensures Parse("<" + (DECLARATION + rest), d) == Parse(rest, d)
  {
    hide Parse;
    var all := "<" + (DECLARATION + rest);
    assert all[0] == '<' && all[1] == '?';
    assert all[1..] == DECLARATION + rest;
    assert !StartsWith(all, "<!--") by {
      assert all[..4][1] == '?';
    }
    ParseStep(all, d, DECLARATION + rest, d);
    TextIsSkipped(DECLARATION, rest, d);
  }

  lemma EnvelopeIsNotEmpty(inner: string)
    ensures Envelope(inner) != ""
  {
  }

  /** The parser gets through the opening with only start events. */
  lemma OpeningStarts(service: string, action: string, inner: string, d: Data)
    requires action != "" && IsNameText(action) && '"' !in service
    requires |inner| > 1 && inner[0] == '<' && inner[1] != '!'
    ensures Parse(Opening(service, action, inner), d)
         == Parse(inner, StartElt(StartElt(StartElt(d, "Envelope"), "Body"), action))
  {
    hide Parse, StartElt, Envelope;
    var tag := ServiceTag(service, action, inner);
    EnvelopeIsNotEmpty(tag);
    DeclarationIsSkipped(Envelope(tag), d);
    EnvelopeStarts(tag, d);
    ServiceTagStarts(service, action, inner, StartElt(StartElt(d, "Envelope"), "Body"));
  }

  lemma {:induction false} UntilRunsOut(t: string, stop: char -> bool)
    requires !stop('\0') && forall c :: c in t ==> !stop(c)
    ensures Until(t, stop, 0) == Ran
  {
    if |t| > 1 {
      assert t[0] in t;
      UntilRunsOut(t[1..], stop);
    }
  }

  lemma LastTagsAreEndTags(m: nat)
    requires m <= |LAST_TAGS|
    ensures OnlyEndTags(LAST_TAGS[..m])
  {
    var t := LAST_TAGS;
    assert OnlyEndTags(t);
    forall i | 0 <= i < m - 1 && t[..m][i] == '<'
      ensures t[..m][i + 1] == '/'
    {
      assert t[i] == '<';
    }
  }

  /** The closing, however much of its end is cut off: the end tag of the action counts if it is there. */
  lemma CutClosing(action: string, tail: string, d: Data)
    requires '>' !in action && tail <= ">" + LAST_TAGS
    ensures Parse(ActionEnd(action) + tail, d) == if tail == "" then d else EndElt(d)
  {
    hide Parse, Until;
    var name := ['u', ':'] + action;
    if tail == "" {
      assert ActionEnd(action) + tail == "</" + name;
      UntilRunsOut(name, Is('>'));
      EndTagTurn(name, d);
      ParseReturns("</" + name, d);
    } else {
      var m := |tail| - 1;
      assert tail == ">" + LAST_TAGS[..m];
      assert ActionEnd(action) + tail == "</" + (name + (">" + LAST_TAGS[..m]));
      EndTag(name, LAST_TAGS[..m], d);
      LastTagsAreEndTags(m);
      EndTagsAddNothing(LAST_TAGS[..m], EndElt(d));
    }
  }

  lemma ParseReturns(rest: string, d: Data)
    requires |rest| > 1 && OneTurn(rest, d) == Return(d)
    ensures Parse(rest, d) == d
  {
    hide OneTurn;
  }

  // ----- the arguments -----

  /** What one printed argument does to the record. */
  function Push(d: Data, a: Arg): (d': Data)
    ensures PlainArg(a) ==> d'.list == [Entry(a)] + d.list && !d'.topelt
  {
    var started := StartElt(d, a.elt);
    EndElt(if Text(a) == "" then started else GetData(started, Text(a)))
  }

  lemma ArgumentPushes(a: Arg, rest: string, d: Data)
    requires PlainArg(a)
    ensures Parse(Argument(a, rest), d) == Parse(rest, Push(d, a))
  {
    hide Parse, StartElt, EndElt, GetData;
    LeafElement(a.elt, Text(a), rest, d);
  }

  function PushAll(d: Data, args: seq<Arg>): Data
    decreases |args|
  {
    if args == [] then d else PushAll(Push(d, args[0]), args[1..])
  }

  lemma {:induction false} ArgumentsPush(args: seq<Arg>, rest: string, d: Data)
    requires forall i :: 0 <= i < |args| ==> PlainArg(args[i])
    ensures Parse(Arguments(args, rest), d) == Parse(rest, PushAll(d, args))
    decreases |args|
  {
    hide Parse, Argument, Push, PlainArg;
    if args != [] {
      ArgumentPushes(args[0], Arguments(args[1..], rest), d);
      ArgumentsPush(args[1..], rest, Push(d, args[0]));
    }
  }

  lemma {:induction false} PushAllEntries(d: Data, args: seq<Arg>)
    requires forall i :: 0 <= i < |args| ==> PlainArg(args[i])
    ensures PushAll(d, args).list == Entries(args) + d.list
    ensures args != [] ==> !PushAll(d, args).topelt
    decreases |args|
  {
    hide Push, PlainArg, Entry;
    if args != [] {
      var d' := Push(d, args[0]);
      PushAllEntries(d', args[1..]);
      assert Entries(args[1..]) + ([Entry(args[0])] + d.list) == Entries(args) + d.list;
      if |args| == 1 {
        assert PushAll(d', args[1..]) == d';
      }
    }
  }

  lemma ArgumentsStart(args: seq<Arg>, rest: string)
    requires args != [] && PlainArg(args[0])
    ensures var inner := Arguments(args, rest); |inner| > 1 && inner[0] == '<' && inner[1] != '!'
  {
    hide PlainName;
    var a := args[0];
    var behind := a.elt + (">" + (Text(a) + ("</" + (a.elt + (">" + Arguments(args[1..], rest))))));
    PlainNameStart(a.elt);
    assert behind[0] == a.elt[0];
    assert Arguments(args, rest) == "<" + behind;
  }

  lemma PlainNameStart(name: string)
    requires PlainName(name)
    ensures name != "" && name[0] != '!'
  {
  }

  predicate PlainRequest(service: string, action: string, args: seq<Arg>)
  {
    && action != "" && IsNameText(action)
    && '"' !in service
    && forall i :: 0 <= i < |args| ==> PlainArg(args[i])
  }

  lemma NoBracket(name: string)
    requires IsNameText(name)
    ensures '>' !in name
  {
    forall c | c in name
      ensures c != '>'
    {
      assert !EndsName(c);
    }
  }

  /** Parsing a body gives its arguments, newest first, wherever behind the action's name the end is cut. */
  lemma BodyParses(service: string, action: string, args: seq<Arg>, tail: string, d: Data)
    requires PlainRequest(service, action, args) && args != [] && tail <= ">" + LAST_TAGS && d.list == []
    ensures Parse(Opening(service, action, Arguments(args, ActionEnd(action) + tail)), d).list == Entries(args)
  {
    hide Parse, Arguments, ActionEnd, Opening, PlainArg, Push;
    var end := ActionEnd(action) + tail;
    var inner := Arguments(args, end);
    var d1 := StartElt(StartElt(StartElt(d, "Envelope"), "Body"), action);
    ArgumentsStart(args, end);
    OpeningStarts(service, action, inner, d);
    ArgumentsPush(args, end, d1);
    PushAllEntries(d1, args);
    NoBracket(action);
    CutClosing(action, tail, PushAll(d1, args));
  }

  /** A body without arguments, cut off behind the action's name or not: the action itself is listed, with an
      empty value, if its end tag is complete. */
  lemma EmptyBodyParses(service: string, action: string, tail: string, d: Data)
    requires PlainRequest(service, action, []) && tail <= ">" + LAST_TAGS && d.list == []
    ensures Parse(Opening(service, action, ActionEnd(action) + tail), d).list
         == if tail == "" || Cut(action, 63) == "NewPortListing" then []
            else [NameValue(Cut(action, 63), "")]
  {
    hide Parse, Opening, Cut;
    var d1 := StartElt(StartElt(StartElt(d, "Envelope"), "Body"), action);
    var end := ActionEnd(action) + tail;
    assert end[0] == '<' && end[1] == '/';
    OpeningStarts(service, action, end, d);
    NoBracket(action);
    CutClosing(action, tail, d1);
  }

  /** No argument behind position i has the same name. */
  predicate IsLast(args: seq<Arg>, i: nat)
  {
    i < |args| && forall j :: i < j < |args| ==> args[j].elt != args[i].elt
  }

  /** The value of the last argument with the name, cut to 127 characters; None if there is none. */
  ghost predicate IsAnswer(args: seq<Arg>, name: string, answer: Option<string>)
  {
    && ((forall j :: 0 <= j < |args| ==> args[j].elt != name) ==> answer == None)
    && forall i: nat :: IsLast(args, i) && args[i].elt == name ==> answer == Some(Entry(args[i]).value)
  }

  lemma {:induction false} LookupAppended(list: seq<NameValue>, last: NameValue, name: string)
    ensures Lookup(list + [last], name)
         == if Lookup(list, name).Some? then Lookup(list, name)
            else if last.name == name then Some(last.value) else None
    decreases |list|
  {
    var all := list + [last];
    if list == [] {
      assert all == [last];
    } else {
      assert all[0] == list[0] && all[1..] == list[1..] + [last];
      LookupAppended(list[1..], last, name);
    }
  }

  lemma {:induction false} LookupEntries(args: seq<Arg>, name: string)
    ensures IsAnswer(args, name, Lookup(Entries(args), name))
    decreases |args|
  {
    if args != [] {
      var tail := args[1..];
      LookupEntries(tail, name);
      LookupAppended(Entries(tail), Entry(args[0]), name);
      forall i: nat | IsLast(args, i) && args[i].elt == name
        ensures Lookup(Entries(args), name) == Some(Entry(args[i]).value)
      {
        if i > 0 {
          LastInTail(args, i);
        } else {
          forall j | 0 <= j < |tail|
            ensures tail[j].elt != name
          {
            assert tail[j] == args[j + 1];
          }
        }
      }
    }
  }

  lemma LastInTail(args: seq<Arg>, i: nat)
    requires i > 0 && IsLast(args, i)
    ensures IsLast(args[1..], i - 1) && args[1..][i - 1] == args[i]
  {
    var tail := args[1..];
    forall j | i - 1 < j < |tail|
      ensures tail[j].elt != tail[i - 1].elt
    {
      assert tail[j] == args[j + 1];
    }
  }

  /** Looking an argument up in the parsed body gives the value of the last argument of that name,
      even if the body's end was cut off. */
  lemma LookupAfterPrinting(service: string, action: string, args: seq<Arg>, tail: string, d: Data, name: string)
    requires PlainRequest(service, action, args) && args != [] && tail <= ">" + LAST_TAGS && d.list == []
    ensures var body := Opening(service, action, Arguments(args, ActionEnd(action) + tail));
            IsAnswer(args, name, Lookup(Parse(body, d).list, name))
  {
    hide Parse, Opening, Arguments, ActionEnd, Entries, PlainRequest, IsAnswer, Cut;
    BodyParses(service, action, args, tail, d);
    LookupEntries(args, name);
  }
}
