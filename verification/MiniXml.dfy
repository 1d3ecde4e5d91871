/** The XML parser of miniupnpc/minixml.c:36-227 with the three name/value handlers of
    miniupnpc/upnpreplyparse.c:15-139. The parser is described by what it does to the text that is
    still unread; a read behind the end of the buffer is taken to see a NUL. */
module MiniXml {
  import opened Common

  predicate IsSpace(c: char)
  {
    c == ' ' || c == '\t' || c == '\r' || c == '\n'
  }

  function Head(rest: string): char
  {
    if rest == "" then '\0' else rest[0]
  }

  predicate StartsWith(rest: string, prefix: string)
  {
    |prefix| <= |rest| && rest[..|prefix|] == prefix
  }

  // ----- the handlers -----

  const NAME_LENGTH := 63
  const VALUE_LENGTH := 127
  const PORT_LISTING := "NewPortListing"

  datatype NameValue = NameValue(name: string, value: string)

  /** `struct NameValueParserData`; `list` is newest first, as the linked list is. */
  datatype Data = Data(list: seq<NameValue>, curelt: string, portListing: Option<string>,
                       topelt: bool, cdata: Option<string>)

  function Cut(s: string, n: nat): (r: string)
    ensures |r| <= n && (|s| <= n ==> r == s)
  {
    if |s| > n then s[..n] else s
  }

  function StartElt(d: Data, name: string): Data
  {
    d.(topelt := true, curelt := Cut(name, NAME_LENGTH), cdata := None)
  }

  function EndElt(d: Data): Data
  {
    if !d.topelt then d
    else
      var value := if d.cdata.Some? then Cut(d.cdata.value, VALUE_LENGTH) else "";
      var list := if d.curelt == PORT_LISTING then d.list else [NameValue(d.curelt, value)] + d.list;
      d.(list := list, cdata := None, topelt := false)
  }

  function GetData(d: Data, text: string): Data
  {
    if d.curelt == PORT_LISTING then d.(portListing := Some(text)) else d.(cdata := Some(text))
  }

  /** `GetValueFromNameValueList`: the newest entry with the name. */
  function Lookup(list: seq<NameValue>, name: string): Option<string>
  {
    if list == [] then None
    else if list[0].name == name then Some(list[0].value)
    else Lookup(list[1..], name)
  }

  // ----- the scanning loops -----

  /** Text passed over, and the text from where the scan stopped. */
  datatype Scan = Ran | At(taken: string, rest: string)

  function Prefixed(c: char, s: Scan): Scan
  {
    if s.Ran? then Ran else At([c] + s.taken, s.rest)
  }

  /** A scan that goes on behind the text `t`. */
  function Before(t: string, s: Scan): Scan
  {
    if s.Ran? then Ran else At(t + s.taken, s.rest)
  }

  /** Advance until `stop` holds; give up when fewer than `margin` + 1 characters are left. */
  function Until(rest: string, stop: char -> bool, margin: nat): (s: Scan)
    ensures s.At? ==> |s.rest| <= |rest| && (rest != "" && !stop(rest[0]) ==> |s.rest| < |rest|)
    ensures s.At? && s.rest != "" ==> stop(s.rest[0])
  {
    if stop(Head(rest)) then At("", rest)
    else if |rest| <= margin + 1 then Ran
    else Prefixed(rest[0], Until(rest[1..], stop, margin))
  }

  /** Advance to the given mark; give up when it could no longer be followed by anything. */
  function UntilMark(rest: string, mark: string): (s: Scan)
    ensures s.At? ==> |s.rest| <= |rest| && StartsWith(s.rest, mark)
  {
    if StartsWith(rest, mark) then At("", rest)
    else if |rest| <= |mark| + 1 then Ran
    else Prefixed(rest[0], UntilMark(rest[1..], mark))
  }

  predicate EndsName(c: char)
  {
    IsSpace(c) || c == '>' || c == '/'
  }

  /** An element name; what comes before a colon is dropped. */
  function Name(rest: string, name: string): (s: Scan)
    ensures s.At? ==> |s.rest| <= |rest|
    decreases |rest|
  {
    if EndsName(Head(rest)) then At(name, rest)
    else if |rest| <= 1 then Ran
    else if rest[1] == ':' then Name(rest[2..], "")
    else Name(rest[1..], name + [rest[0]])
  }

  function Is(x: char): char -> bool
  {
    c => c == x
  }

  /** The rest of an attribute from its value on: the text behind the value, None at the end of the buffer. */
  function AttributeValue(rest: string): (r: Option<string>)
    ensures r.Some? ==> |r.value| <= |rest|
  {
    var sep := Head(rest);
    if sep == '\'' || sep == '\"' then
      if |rest| <= 1 then None else
        var v := Until(rest[1..], Is(sep), 0);
        if v.Ran? then None else Some(v.rest)
    else
      var v := Until(rest, EndsName, 0);
      if v.Ran? then None else Some(v.rest)
  }

  /** The name of an attribute, the equals sign, blanks and the value. */
  function Attribute(rest: string): (r: Option<string>)
    ensures r.Some? ==> |r.value| <= |rest|
  {
    var name := Until(rest, c => c == '=' || IsSpace(c), 0);
    if name.Ran? then None else
      var eq := Until(name.rest, Is('='), 0);
      if eq.Ran? then None else
        var value := Until(if eq.rest == "" then "" else eq.rest[1..], c => !IsSpace(c), 0);
        if value.Ran? then None else AttributeValue(value.rest)
  }

  /** `parseatt`: the text from the '>' or '/' that ends the tag, None at the end of the buffer. */
  function Attributes(rest: string): (r: Option<string>)
    ensures r.Some? ==> |r.value| <= |rest|
    decreases |rest|
  {
    if rest == "" then None
    else if rest[0] == '/' || rest[0] == '>' then Some(rest)
    else if IsSpace(rest[0]) then Attributes(rest[1..])
    else
      match Attribute(rest)
      case None => None
      case Some(r) => if r == "" then None else Attributes(r[1..])
  }

  // ----- parseelt -----

  /** One turn of the main loop: the parser returns, or goes on with the unread text. */
  datatype Turn = Return(d: Data) | GoOn(rest: string, d: Data)

  function Comment(rest: string, d: Data): (t: Turn)
    requires StartsWith(rest, "<!--")
    ensures t.GoOn? ==> |t.rest| < |rest|
  {
    var r := rest[4..];
    if |r| <= 3 then Return(d) else
      var s := UntilMark(r, "-->");
      if s.Ran? then Return(d) else GoOn(s.rest[3..], d)
  }

  /** A CDATA section, and what follows it up to the next '<'. */
  function Section(rest: string, d: Data): (t: Turn)
    requires StartsWith(rest, "<![CDATA[")
    ensures t.GoOn? ==> |t.rest| <= |rest|
  {
    var s := UntilMark(rest[9..], "]]>");
    if s.Ran? then Return(d) else
      var d' := if s.taken != "" then GetData(d, s.taken) else d;
      var e := Until(s.rest, Is('<'), 0);
      if e.Ran? then Return(d') else GoOn(e.rest, d')
  }

  /** Text behind leading blanks. */
  function PlainText(blanks: string, rest: string, d: Data): (t: Turn)
    ensures t.GoOn? ==> |t.rest| <= |rest|
  {
    var s := Until(rest, Is('<'), 1);
    if s.Ran? then Return(d) else
      var text := blanks + s.taken;
      GoOn(s.rest, if text != "" && |s.rest| > 1 && s.rest[1] == '/' then GetData(d, text) else d)
  }

  /** Element content behind '>': a CDATA section, or text up to the next '<', which is reported only
      if an end tag follows. */
  function ElementText(rest: string, d: Data): (t: Turn)
    ensures t.GoOn? ==> |t.rest| <= |rest|
  {
    if rest == "" then Return(d) else
      var blanks := Until(rest, c => !IsSpace(c), 0);
      if blanks.Ran? then Return(d)
      else if StartsWith(blanks.rest, "<![CDATA[") then Section(blanks.rest, d)
      else
        PlainText(blanks.taken, blanks.rest, d)
  }

  /** Behind an element name. */
  function OpenElement(rest: string, d: Data): (t: Turn)
    ensures t.GoOn? ==> |t.rest| <= |rest|
  {
    match Attributes(rest)
    case None => Return(d)
    case Some(r) => if Head(r) == '/' then GoOn(r, d) else ElementText(if r == "" then "" else r[1..], d)
  }

  /** Behind "</". */
  function CloseElement(rest: string, d: Data): (t: Turn)
    ensures t.GoOn? ==> |t.rest| <= |rest|
  {
    if rest == "" then Return(d) else
      var s := Until(rest, Is('>'), 0);
      if s.Ran? then Return(d) else GoOn(if s.rest == "" then "" else s.rest[1..], EndElt(d))
  }

  function Element(rest: string, d: Data): (t: Turn)
    requires |rest| > 1
    ensures t.GoOn? ==> |t.rest| < |rest|
  {
    var name := Name(rest[1..], "");
    if name.Ran? then Return(d)
    else if name.taken != "" then OpenElement(name.rest, StartElt(d, name.taken))
    else if Head(name.rest) == '/' then CloseElement(if name.rest == "" then "" else name.rest[1..], d)
    else GoOn(name.rest, d)
  }

  function OneTurn(rest: string, d: Data): (t: Turn)
    requires |rest| > 1
    ensures t.GoOn? ==> |t.rest| < |rest|
  {
    if StartsWith(rest, "<!--") then Comment(rest, d)
    else if rest[0] == '<' && rest[1] != '?' then Element(rest, d)
    else GoOn(rest[1..], d)
  }

  /** `parseelt`. */
  function Parse(rest: string, d: Data): Data
    decreases |rest|
  {
    if |rest| <= 1 then d else
      match OneTurn(rest, d)
      case Return(d') => d'
      case GoOn(rest', d') => Parse(rest', d')
  }

  // ----- what the scans do on known text -----

  lemma {:induction false} UntilTakes(t: string, rest: string, stop: char -> bool, margin: nat)
    requires forall c :: c in t ==> !stop(c)
    requires |rest| > margin && rest != "" && stop(rest[0])
    ensures Until(t + rest, stop, margin) == At(t, rest)
  {
    var all := t + rest;
    if t == "" {
      assert all == rest;
    } else {
      assert all[0] == t[0] && t[0] in t;
      assert all[1..] == t[1..] + rest;
      UntilTakes(t[1..], rest, stop, margin);
      assert [t[0]] + t[1..] == t;
    }
  }

  predicate IsNameText(t: string)
  {
    forall c :: c in t ==> !EndsName(c) && c != ':'
  }

  lemma {:induction false} NameTakes(t: string, rest: string, name: string)
    requires IsNameText(t) && rest != "" && EndsName(rest[0])
    ensures Name(t + rest, name) == At(name + t, rest)
    decreases |t|
  {
    var all := t + rest;
    if t == "" {
      assert all == rest;
    } else {
      assert all[0] == t[0] && t[0] in t;
      assert all[1..] == t[1..] + rest;
      assert all[1] == if |t| > 1 then t[1] else rest[0];
      assert |t| > 1 ==> t[1] in t;
      NameTakes(t[1..], rest, name + [t[0]]);
      assert name + [t[0]] + t[1..] == name + t;
    }
  }

  /** A one-letter namespace prefix is dropped. */
  lemma PrefixIsDropped(p: char, t: string, rest: string)
    requires !EndsName(p) && IsNameText(t) && rest != "" && EndsName(rest[0])
    ensures Name([p, ':'] + t + rest, "") == At(t, rest)
  {
    var all := [p, ':'] + t + rest;
    assert all[2..] == t + rest;
    NameTakes(t, rest, "");
    assert "" + t == t;
  }

  predicate IsAttributeName(name: string)
  {
    name != "" && name[0] != '/' && name[0] != '>' && forall c :: c in name ==> c != '=' && !IsSpace(c)
  }

  /** name="value" is passed over. */
  lemma AttributeIsSkipped(name: string, value: string, rest: string)
    requires IsAttributeName(name) && '"' !in value && rest != ""
    ensures Attributes(name + ("=\"" + (value + ("\"" + rest)))) == Attributes(rest)
  {
    var r3 := "\"" + rest;
    var r2 := value + r3;
    var r1 := "=\"" + r2;
    var all := name + r1;
    assert name[0] in name;
    UntilTakes(name, r1, c => c == '=' || IsSpace(c), 0);
    UntilAtOnce(r1, Is('='), 0);
    assert r1[1..] == "\"" + r2;
    UntilAtOnce(r1[1..], c => !IsSpace(c), 0);
    assert r1[1..][1..] == r2;
    UntilTakes(value, r3, Is('"'), 0);
    assert AttributeValue(r1[1..]) == Some(r3);
    assert Attribute(all) == Some(r3);
    assert r3[1..] == rest;
  }

  lemma UntilAtOnce(rest: string, stop: char -> bool, margin: nat)
    requires rest != "" && stop(rest[0])
    ensures Until(rest, stop, margin) == At("", rest)
  {
  }

  /** Text without '<' is passed over. */
  lemma {:induction false} TextIsSkipped(t: string, rest: string, d: Data)
    requires '<' !in t && rest != ""
    ensures Parse(t + rest, d) == Parse(rest, d)
    decreases |t|
  {
    hide Element, Comment;
    var all := t + rest;
    if t == "" {
      assert all == rest;
    } else {
      assert all[0] == t[0] && t[0] in t;
      assert all[1..] == t[1..] + rest;
      TextIsSkipped(t[1..], rest, d);
    }
  }

  lemma ParseStep(rest: string, d: Data, rest': string, d': Data)
    requires |rest| > 1 && OneTurn(rest, d) == GoOn(rest', d')
    ensures Parse(rest, d) == Parse(rest', d')
  {
    hide OneTurn;
  }

  /** '<' and a name start an element. */
  lemma NameOpens(x: string, name: string, after: string, d: Data)
    requires x != "" && x[0] != '?' && x[0] != '!' && name != "" && Name(x, "") == At(name, after)
    ensures OneTurn("<" + x, d) == OpenElement(after, StartElt(d, name))
  {
    hide Name, OpenElement, StartElt, Comment;
    var all := "<" + x;
    assert all[1..] == x && all[1] == x[0];
    assert !StartsWith(all, "<!--") by {
      assert |all| >= 4 ==> all[..4][1] == x[0];
    }
  }

  lemma BehindTag(after: string, rest: string, d: Data)
    requires Attributes(after) == Some(">" + rest)
    ensures OpenElement(after, d) == ElementText(rest, d)
  {
    hide Attributes, ElementText;
    assert (">" + rest)[1..] == rest;
  }

  lemma NoText(rest: string, d: Data)
    requires |rest| > 1 && rest[0] == '<' && rest[1] != '!'
    ensures ElementText(rest, d) == GoOn(rest, d)
  {
    hide Until;
    UntilAtOnce(rest, c => !IsSpace(c), 0);
    UntilAtOnce(rest, Is('<'), 1);
    assert !StartsWith(rest, "<![CDATA[") by {
      assert |rest| >= 9 ==> rest[..9][1] == rest[1];
    }
  }

  /** A start tag that is directly followed by another tag: one start event. */
  lemma StartTag(x: string, name: string, after: string, rest: string, d: Data)
    requires x != "" && x[0] != '?' && x[0] != '!' && name != ""
    requires Name(x, "") == At(name, after) && Attributes(after) == Some(">" + rest)
    requires |rest| > 1 && rest[0] == '<' && rest[1] != '!'
    ensures Parse("<" + x, d) == Parse(rest, StartElt(d, name))
  {
    hide Name, Attributes, OneTurn, OpenElement, ElementText, StartElt, Parse;
    var d' := StartElt(d, name);
    NameOpens(x, name, after, d);
    BehindTag(after, rest, d');
    NoText(rest, d');
    ParseStep("<" + x, d, rest, d');
  }

  /** An end tag. */
  lemma EndTag(name: string, rest: string, d: Data)
    requires '>' !in name
    ensures Parse("</" + (name + (">" + rest)), d) == Parse(rest, EndElt(d))
  {
    hide Parse, EndElt, Until;
    var behind := name + (">" + rest);
    var all := "</" + behind;
    assert all[1..] == "/" + behind;
    assert Name(all[1..], "") == At("", all[1..]);
    assert all[1..][1..] == behind;
    UntilTakes(name, ">" + rest, Is('>'), 0);
    assert (">" + rest)[1..] == rest;
    assert CloseElement(behind, d) == GoOn(rest, EndElt(d));
    EndTagTurn(behind, d);
    ParseStep(all, d, rest, EndElt(d));
  }

  lemma EndTagTurn(behind: string, d: Data)
    ensures OneTurn("</" + behind, d) == CloseElement(behind, d)
  {
    hide CloseElement;
    var all := "</" + behind;
    assert all[1..] == "/" + behind;
    assert Name(all[1..], "") == At("", all[1..]);
    assert all[1..][1..] == behind;
    assert !StartsWith(all, "<!--") by {
      assert |all| >= 4 ==> all[..4][1] == '/';
    }
  }

  lemma {:induction false} LeadingSpaces(v: string) returns (w: string, t: string)
    ensures v == w + t && (forall c :: c in w ==> IsSpace(c)) && (t == "" || !IsSpace(t[0]))
  {
    if v != "" && IsSpace(v[0]) {
      var w';
      w', t := LeadingSpaces(v[1..]);
      w := [v[0]] + w';
      assert v == [v[0]] + v[1..];
    } else {
      w, t := "", v;
    }
  }

  /** Text up to an end tag is reported as it stands, blanks included. */
  lemma TextBeforeEndTag(v: string, close: string, d: Data)
    requires '<' !in v && |close| > 1 && close[0] == '<' && close[1] == '/'
    ensures ElementText(v + close, d) == GoOn(close, if v == "" then d else GetData(d, v))
  {
    hide GetData, Section;
    var w, t := LeadingSpaces(v);
    var behind := t + close;
    assert v + close == w + behind;
    assert behind[0] == if t == "" then '<' else t[0];
    UntilTakes(w, behind, c => !IsSpace(c), 0);
    assert !StartsWith(behind, "<![CDATA[") by {
      if t == "" {
        assert behind == close;
      } else {
        assert t[0] in v;
      }
    }
    forall c | c in t
      ensures c != '<'
    {
      assert c in v;
    }
    UntilTakes(t, close, Is('<'), 1);
    assert Until(behind, Is('<'), 1) == At(t, close);
  }

  /** <name>value</name>: one start event, the value if there is one, one end event. */
  lemma LeafElement(name: string, v: string, rest: string, d: Data)
    requires IsNameText(name) && name != "" && name[0] != '?' && name[0] != '!' && '<' !in v
    ensures Parse("<" + (name + (">" + (v + ("</" + (name + (">" + rest)))))), d)
         == Parse(rest, EndElt(if v == "" then StartElt(d, name) else GetData(StartElt(d, name), v)))
  {
    hide GetData, StartElt, EndElt, Name, Attributes, OneTurn, OpenElement, ElementText, Parse;
    var close := "</" + (name + (">" + rest));
    var after := ">" + (v + close);
    var d1 := StartElt(d, name);
    var d2 := if v == "" then d1 else GetData(d1, v);
    NameTakes(name, after, "");
    assert "" + name == name;
    assert (name + after)[0] == name[0];
    NameOpens(name + after, name, after, d);
    TagEnds(v + close);
    BehindTag(after, v + close, d1);
    TextBeforeEndTag(v, close, d1);
    ParseStep("<" + (name + after), d, close, d2);
    forall c | c in name
      ensures c != '>'
    {
      assert !EndsName(c);
    }
    EndTag(name, rest, d2);
  }

  lemma TagEnds(rest: string)
    ensures Attributes(">" + rest) == Some(">" + rest)
  {
  }

  // ----- text without start tags -----

  /** Every '<' is followed by '/', or is the last character. */
  predicate OnlyEndTags(t: string)
  {
    forall i :: 0 <= i < |t| - 1 && t[i] == '<' ==> t[i + 1] == '/'
  }

  predicate IsSuffix(r: string, t: string)
  {
    |r| <= |t| && r == t[|t| - |r|..]
  }

  lemma SuffixOfSuffix(r: string, s: string, t: string)
    requires IsSuffix(r, s) && IsSuffix(s, t)
    ensures IsSuffix(r, t)
  {
  }

  lemma SuffixKeepsEndTags(r: string, t: string)
    requires IsSuffix(r, t) && OnlyEndTags(t)
    ensures OnlyEndTags(r)
  {
    var k := |t| - |r|;
    forall i | 0 <= i < |r| - 1 && r[i] == '<'
      ensures r[i + 1] == '/'
    {
      assert r[i] == t[k + i] && r[i + 1] == t[k + i + 1];
    }
  }

  lemma {:induction false} UntilSuffix(rest: string, stop: char -> bool, margin: nat)
    ensures var s := Until(rest, stop, margin); s.At? ==> IsSuffix(s.rest, rest)
  {
    if !stop(Head(rest)) && |rest| > margin + 1 {
      UntilSuffix(rest[1..], stop, margin);
      SuffixOfTail(Until(rest[1..], stop, margin), rest);
    }
  }

  lemma SuffixOfTail(s: Scan, rest: string)
    requires rest != "" && (s.At? ==> IsSuffix(s.rest, rest[1..]))
    ensures s.At? ==> IsSuffix(s.rest, rest)
  {
  }

  lemma EndTagText(t: string, d: Data)
    requires |t| > 1 && t[0] == '<' && t[1] == '/' && !d.topelt
    ensures var turn := OneTurn(t, d);
            turn == Return(d) || (turn.GoOn? && turn.d == d && |turn.rest| < |t| && IsSuffix(turn.rest, t))
  {
    hide Until;
    var behind := t[2..];
    assert t == "</" + behind;
    EndTagTurn(behind, d);
    if behind != "" {
      var s := Until(behind, Is('>'), 0);
      UntilSuffix(behind, Is('>'), 0);
      if s.At? {
        var r := if s.rest == "" then "" else s.rest[1..];
        assert IsSuffix(r, behind);
        assert IsSuffix(behind, t);
        SuffixOfSuffix(r, behind, t);
      }
    }
  }

  /** End tags and text, complete or cut off, add nothing once no element is open. */
  lemma {:induction false} EndTagsAddNothing(t: string, d: Data)
    requires OnlyEndTags(t) && !d.topelt
    ensures Parse(t, d) == d
    decreases |t|
  {
    hide OnlyEndTags, Element, Comment, EndElt, IsSuffix;
    if |t| > 1 {
      if t[0] == '<' {
        SecondIsSlash(t);
        EndTagText(t, d);
        var turn := OneTurn(t, d);
        if turn.GoOn? {
          SuffixKeepsEndTags(turn.rest, t);
          EndTagsAddNothing(turn.rest, d);
        }
      } else {
        assert OneTurn(t, d) == GoOn(t[1..], d);
        TailIsSuffix(t);
        SuffixKeepsEndTags(t[1..], t);
        EndTagsAddNothing(t[1..], d);
      }
    }
  }

  lemma SecondIsSlash(t: string)
    requires OnlyEndTags(t) && |t| > 1 && t[0] == '<'
    ensures t[1] == '/'
  {
    assert t[0 + 1] == '/';
  }

  lemma TailIsSuffix(t: string)
    requires t != ""
    ensures IsSuffix(t[1..], t)
  {
  }

  // ----- white space, empty elements and text before a start tag -----

  /** Blank, tab, carriage return and line feed may stand before an attribute or the end of a tag. */
  lemma {:induction false} SpacesInTag(w: string, rest: string)
    requires forall i :: 0 <= i < |w| ==> w[i] in {' ', '\t', '\r', '\n'}
    ensures Attributes(w + rest) == Attributes(rest)
  {
    hide Attribute;
    var all := w + rest;
    if w == "" {
      assert all == rest;
    } else {
      assert all[0] == w[0] && all[1..] == w[1..] + rest;
      SpacesInTag(w[1..], rest);
    }
  }

  lemma SpacesAre(c: char)
    ensures IsSpace(c) <==> c in {' ', '\t', '\r', '\n'}
  {
  }

  /** <name/>: one start event; the slash and the bracket are left to be passed over. */
  lemma EmptyElementTag(name: string, rest: string, d: Data)
    requires IsNameText(name) && name != "" && name[0] != '?' && name[0] != '!'
    ensures Parse("<" + (name + ("/>" + rest)), d) == Parse("/>" + rest, StartElt(d, name))
  {
    hide Parse, Name, OneTurn, StartElt;
    var after := "/>" + rest;
    NameTakes(name, after, "");
    assert "" + name == name;
    assert (name + after)[0] == name[0];
    NameOpens(name + after, name, after, d);
    ParseStep("<" + (name + after), d, after, StartElt(d, name));
  }

  /** Text that is not followed by an end tag is not reported. */
  lemma TextBeforeStartTag(v: string, open: string, d: Data)
    requires '<' !in v && |open| > 1 && open[0] == '<' && open[1] != '/' && open[1] != '!'
    ensures ElementText(v + open, d) == GoOn(open, d)
  {
    hide GetData, Section;
    var w, t := LeadingSpaces(v);
    var behind := t + open;
    assert v + open == w + behind;
    assert behind[0] == if t == "" then '<' else t[0];
    UntilTakes(w, behind, c => !IsSpace(c), 0);
    NoSection(t, open, v);
    forall c | c in t
      ensures c != '<'
    {
      assert c in v;
    }
    UntilTakes(t, open, Is('<'), 1);
  }

  lemma NoSection(t: string, open: string, v: string)
    requires '<' !in v && (forall c :: c in t ==> c in v) && |open| > 1 && open[0] == '<' && open[1] != '!'
    ensures !StartsWith(t + open, "<![CDATA[")
  {
    var all := t + open;
    if t == "" {
      assert all == open;
      assert |all| >= 9 ==> all[..9][1] == open[1];
    } else {
      assert all[0] == t[0] && t[0] in t;
      assert |all| >= 9 ==> all[..9][0] == t[0];
    }
  }

  // ----- comments, CDATA sections and the port listing -----

  /** The mark does not occur before the end of t, where `rest` starts with it. */
  ghost predicate FirstMark(t: string, rest: string, mark: string)
  {
    StartsWith(rest, mark) && forall i :: 0 <= i < |t| ==> !StartsWith((t + rest)[i..], mark)
  }

  lemma {:induction false} UntilMarkTakes(t: string, rest: string, mark: string)
    requires FirstMark(t, rest, mark) && |rest| > |mark|
    ensures UntilMark(t + rest, mark) == At(t, rest)
  {
    hide StartsWith;
    var all := t + rest;
    if t == "" {
      assert all == rest;
    } else {
      assert all[0..] == all;
      assert all[1..] == t[1..] + rest;
      forall i | 0 <= i < |t[1..]|
        ensures !StartsWith((t[1..] + rest)[i..], mark)
      {
        assert (t[1..] + rest)[i..] == all[i + 1..];
      }
      UntilMarkTakes(t[1..], rest, mark);
      assert [t[0]] + t[1..] == t;
    }
  }

  /** A comment is passed over. */
  lemma CommentIsSkipped(t: string, rest: string, d: Data)
    requires rest != "" && FirstMark(t, "-->" + rest, "-->")
    ensures Parse("<!--" + (t + ("-->" + rest)), d) == Parse(rest, d)
  {
    hide Parse, UntilMark, FirstMark;
    var behind := t + ("-->" + rest);
    var all := "<!--" + behind;
    assert all[..4] == "<!--" && all[4..] == behind;
    UntilMarkTakes(t, "-->" + rest, "-->");
    assert ("-->" + rest)[3..] == rest;
    ParseStep(all, d, rest, d);
  }

  /** A CDATA section is reported as it stands, with whatever it contains. */
  lemma SectionText(v: string, close: string, d: Data)
    requires |close| > 1 && close[0] == '<' && FirstMark(v, "]]>" + close, "]]>")
    ensures ElementText("<![CDATA[" + (v + ("]]>" + close)), d) == GoOn(close, if v == "" then d else GetData(d, v))
  {
    hide UntilMark, GetData, FirstMark, Until;
    var behind := v + ("]]>" + close);
    var all := "<![CDATA[" + behind;
    assert all[..9] == "<![CDATA[" && all[9..] == behind;
    UntilAtOnce(all, c => !IsSpace(c), 0);
    UntilMarkTakes(v, "]]>" + close, "]]>");
    UntilTakes("]]>", close, Is('<'), 0);
  }

  /** <name><![CDATA[value]]></name>: one start event, the value if there is one, one end event. */
  lemma CDataElement(name: string, v: string, rest: string, d: Data)
    requires IsNameText(name) && name != "" && name[0] != '?' && name[0] != '!'
    requires FirstMark(v, "]]>" + ("</" + (name + (">" + rest))), "]]>")
    ensures Parse("<" + (name + (">" + ("<![CDATA[" + (v + ("]]>" + ("</" + (name + (">" + rest)))))))), d)
         == Parse(rest, EndElt(if v == "" then StartElt(d, name) else GetData(StartElt(d, name), v)))
  {
    hide GetData, StartElt, EndElt, Name, Attributes, OneTurn, OpenElement, ElementText, Parse, FirstMark;
    var close := "</" + (name + (">" + rest));
    var text := "<![CDATA[" + (v + ("]]>" + close));
    var after := ">" + text;
    var d1 := StartElt(d, name);
    var d2 := if v == "" then d1 else GetData(d1, v);
    NameTakes(name, after, "");
    assert "" + name == name;
    assert (name + after)[0] == name[0];
    NameOpens(name + after, name, after, d);
    TagEnds(text);
    BehindTag(after, text, d1);
    SectionText(v, close, d1);
    ParseStep("<" + (name + after), d, close, d2);
    forall c | c in name
      ensures c != '>'
    {
      assert !EndsName(c);
    }
    EndTag(name, rest, d2);
  }

  /** The port listing, an XML document in a CDATA section, is stored whole and not listed. */
  lemma PortListingIsStored(v: string, rest: string, d: Data)
    requires v != "" && FirstMark(v, "]]>" + ("</" + ("NewPortListing" + (">" + rest))), "]]>")
    ensures Parse("<" + ("NewPortListing" + (">" + ("<![CDATA[" + (v + ("]]>" + ("</" + ("NewPortListing" + (">" + rest)))))))), d)
         == Parse(rest, Data(d.list, "NewPortListing", Some(v), false, None))
  {
    hide Parse, FirstMark;
    CDataElement("NewPortListing", v, rest, d);
  }
}
