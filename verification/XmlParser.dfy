/** The parser object of miniupnpc/minixml.c: a cursor that nested loops advance over a buffer,
    and the name/value record that its handlers update. Each loop is tied to the description of the
    unread text in MiniXml. */
module XmlParser {
  import opened Common
  import opened MiniXml

  /** One character passed by a scan. */
  lemma UntilStep(xml: string, from: nat, pos: nat, stop: char -> bool, margin: nat)
    requires from <= pos < |xml| && !stop(xml[pos]) && pos + margin + 1 < |xml|
    requires Until(xml[from..], stop, margin) == Before(xml[from..pos], Until(xml[pos..], stop, margin))
    ensures Until(xml[from..], stop, margin) == Before(xml[from..pos + 1], Until(xml[pos + 1..], stop, margin))
  {
    assert xml[pos..][1..] == xml[pos + 1..];
    var s := Until(xml[pos + 1..], stop, margin);
    if s.At? {
      assert xml[from..pos] + ([xml[pos]] + s.taken) == xml[from..pos + 1] + s.taken;
    }
  }

  lemma UntilStops(rest: string, stop: char -> bool, margin: nat)
    requires stop(Head(rest))
    ensures Until(rest, stop, margin) == At("", rest)
  {
  }

  lemma UntilRuns(rest: string, stop: char -> bool, margin: nat)
    requires !stop(Head(rest)) && |rest| <= margin + 1
    ensures Until(rest, stop, margin) == Ran
  {
  }

  /** One character passed while looking for a mark. */
  lemma MarkStep(xml: string, from: nat, pos: nat, mark: string)
    requires from <= pos < |xml| && !StartsWith(xml[pos..], mark) && pos + |mark| + 1 < |xml|
    requires UntilMark(xml[from..], mark) == Before(xml[from..pos], UntilMark(xml[pos..], mark))
    ensures UntilMark(xml[from..], mark) == Before(xml[from..pos + 1], UntilMark(xml[pos + 1..], mark))
  {
    hide StartsWith;
    assert xml[pos..][1..] == xml[pos + 1..];
    var s := UntilMark(xml[pos + 1..], mark);
    if s.At? {
      assert xml[from..pos] + ([xml[pos]] + s.taken) == xml[from..pos + 1] + s.taken;
    }
  }

  lemma Slices(s: string, a: nat, b: nat, c: nat)
    requires a <= b <= c <= |s|
    ensures s[a..b] + s[b..c] == s[a..c]
  {
  }

  class XmlParser {
    const xml: string
    var pos: nat
    var list: seq<NameValue>
    var curelt: string
    var portListing: Option<string>
    var topelt: bool
    var cdata: Option<string>

    /** `ParseNameValue` empties the list and leaves the rest of the record as it is. */
    constructor (buffer: string, curelt: string, topelt: bool, cdata: Option<string>)
      ensures Valid() && xml == buffer && Unread() == buffer
      ensures State() == Data([], curelt, None, topelt, cdata)
    {
      xml := buffer;
      pos := 0;
      list := [];
      this.curelt := curelt;
      portListing := None;
      this.topelt := topelt;
      this.cdata := cdata;
    }

    predicate Valid()
      reads this`pos
    {
      pos <= |xml|
    }

    function Unread(): string
      reads this`pos
    {
      if pos <= |xml| then xml[pos..] else ""
    }

    function State(): Data
      reads this`list, this`curelt, this`portListing, this`topelt, this`cdata
    {
      Data(list, curelt, portListing, topelt, cdata)
    }

    /** The character under the cursor, NUL behind the buffer. */
    function Current(): (c: char)
      reads this`pos
      ensures c == Head(Unread())
    {
      if pos < |xml| then xml[pos] else '\0'
    }

    // ----- the handlers -----

    method OnStart(name: string)
      modifies this`topelt, this`curelt, this`cdata
      ensures State() == StartElt(old(State()), name)
    {
      topelt := true;
      var l := if |name| > NAME_LENGTH then NAME_LENGTH else |name|;
      curelt := name[..l];
      cdata := None;
    }

    method OnEnd()
      modifies this`topelt, this`list, this`cdata
      ensures State() == EndElt(old(State()))
    {
      if !topelt {
        return;
      }
      if curelt != PORT_LISTING {
        var value := "";
        if cdata.Some? {
          var l := if |cdata.value| > VALUE_LENGTH then VALUE_LENGTH else |cdata.value|;
          value := cdata.value[..l];
          assert value == Cut(cdata.value, VALUE_LENGTH);
        }
        list := [NameValue(curelt, value)] + list;
      }
      cdata := None;
      topelt := false;
    }

    method OnData(text: string)
      modifies this`portListing, this`cdata
      ensures State() == GetData(old(State()), text)
    {
      if curelt == PORT_LISTING {
        portListing := Some(text);
      } else {
        cdata := Some(text);
      }
    }

    // ----- the scanning loops -----

    /** The loops that look for one character. On success the text between the old and the new cursor
        is what was passed. */
    method PassUntil(stop: char -> bool, margin: nat) returns (ok: bool)
      requires Valid()
      modifies this`pos
      ensures ok ==> Valid() && old(pos) <= pos && stop(Current())
      ensures Until(old(Unread()), stop, margin) == if ok then At(xml[old(pos)..pos], Unread()) else Ran
    {
      hide Until;
      ghost var from := pos;
      while !stop(Current())
        invariant from <= pos <= |xml|
        invariant Until(xml[from..], stop, margin) == Before(xml[from..pos], Until(xml[pos..], stop, margin))
        decreases |xml| - pos
      {
        if pos + 1 + margin >= |xml| {
          UntilRuns(xml[pos..], stop, margin);
          pos := pos + 1;
          return false;
        }
        UntilStep(xml, from, pos, stop, margin);
        pos := pos + 1;
      }
      UntilStops(xml[pos..], stop, margin);
      assert xml[from..pos] + "" == xml[from..pos];
      return true;
    }

    /** The loops that look for the end of a comment or of a CDATA section. */
    method PassUntilMark(mark: string) returns (ok: bool)
      requires Valid()
      modifies this`pos
      ensures ok ==> Valid() && old(pos) <= pos && StartsWith(Unread(), mark)
      ensures UntilMark(old(Unread()), mark) == if ok then At(xml[old(pos)..pos], Unread()) else Ran
    {
      ghost var from := pos;
      while !StartsWith(xml[pos..], mark)
        invariant from <= pos <= |xml|
        invariant UntilMark(xml[from..], mark) == Before(xml[from..pos], UntilMark(xml[pos..], mark))
        decreases |xml| - pos
      {
        if pos + 1 + |mark| >= |xml| {
          pos := pos + 1;
          return false;
        }
        MarkStep(xml, from, pos, mark);
        pos := pos + 1;
      }
      return true;
    }

    /** The loop that reads an element name and forgets what stands before a colon. */
    method PassName() returns (ok: bool, name: string)
      requires Valid()
      modifies this`pos
      ensures ok ==> Valid()
      ensures Name(old(Unread()), "") == if ok then At(name, Unread()) else Ran
    {
      ghost var all := Name(Unread(), "");
      name := "";
      while !EndsName(Current())
        invariant pos <= |xml|
        invariant Name(xml[pos..], name) == all
        decreases |xml| - pos
      {
        if pos + 1 >= |xml| {
          pos := pos + 1;
          return false, name;
        }
        assert xml[pos..][1..] == xml[pos + 1..] && xml[pos..][1] == xml[pos + 1];
        name := name + [xml[pos]];
        pos := pos + 1;
        if xml[pos] == ':' {
          assert xml[pos - 1..][2..] == xml[pos + 1..];
          name := "";
          pos := pos + 1;
        }
      }
      return true, name;
    }

    /** The value of an attribute. */
    method PassAttributeValue() returns (ok: bool)
      requires Valid()
      modifies this`pos
      ensures ok ==> Valid() && old(pos) <= pos < |xml|
      ensures AttributeValue(old(Unread())) == if ok then Some(Unread()) else None
    {
      hide Until;
      var sep := Current();
      if sep == '\'' || sep == '\"' {
        assert xml[pos..][1..] == xml[pos + 1..];
        pos := pos + 1;
        if pos >= |xml| {
          return false;
        }
        ok := PassUntil(Is(sep), 0);
      } else {
        ok := PassUntil(EndsName, 0);
      }
    }

    /** One attribute. */
    method PassAttribute() returns (ok: bool)
      requires Valid()
      modifies this`pos
      ensures ok ==> Valid() && old(pos) <= pos < |xml|
      ensures Attribute(old(Unread())) == if ok then Some(Unread()) else None
    {
      hide Until, AttributeValue;
      ok := PassUntil(c => c == '=' || IsSpace(c), 0);
      if !ok {
        return;
      }
      ok := PassUntil(Is('='), 0);
      if !ok {
        return;
      }
      assert xml[pos..][1..] == xml[pos + 1..];
      pos := pos + 1;
      ok := PassUntil(c => !IsSpace(c), 0);
      if !ok {
        return;
      }
      ok := PassAttributeValue();
    }

    /** `parseatt`: true when the tag's '/' or '>' was reached. */
    method PassAttributes() returns (ok: bool)
      requires Valid()
      modifies this`pos
      ensures ok ==> Valid() && old(pos) <= pos < |xml|
      ensures Attributes(old(Unread())) == if ok then Some(Unread()) else None
    {
      hide Attribute;
      ghost var all := Attributes(Unread());
      ghost var from := pos;
      while pos < |xml|
        invariant from <= pos <= |xml|
        invariant Attributes(xml[pos..]) == all
        decreases |xml| - pos
      {
        if xml[pos] == '/' || xml[pos] == '>' {
          return true;
        }
        if !IsSpace(xml[pos]) {
          ok := PassAttribute();
          if !ok {
            return false;
          }
        }
        assert xml[pos..][1..] == xml[pos + 1..];
        pos := pos + 1;
      }
      return false;
    }

    // ----- parseelt -----

    /** A comment. */
    method PassComment() returns (ok: bool)
      requires Valid() && StartsWith(Unread(), "<!--")
      modifies this`pos
      ensures ok ==> Valid()
      ensures Comment(old(Unread()), State()) == if ok then GoOn(Unread(), State()) else Return(State())
    {
      hide UntilMark;
      assert xml[pos..][4..] == xml[pos + 4..];
      pos := pos + 4;
      if pos + 3 >= |xml| {
        return false;
      }
      ok := PassUntilMark("-->");
      if ok {
        assert xml[pos..][3..] == xml[pos + 3..];
        pos := pos + 3;
      }
    }

    /** Element content. */
    method PassText() returns (ok: bool)
      requires Valid()
      modifies this`pos, this`portListing, this`cdata
      ensures ok ==> Valid()
      ensures ElementText(old(Unread()), old(State())) == if ok then GoOn(Unread(), State()) else Return(State())
    {
      hide Until, Section, PlainText, StartsWith;
      if pos >= |xml| {
        return false;
      }
      var data := pos;
      ok := PassUntil(c => !IsSpace(c), 0);
      if !ok {
        return;
      }
      if StartsWith(xml[pos..], "<![CDATA[") {
        ok := PassSection();
      } else {
        ok := PassPlainText(data);
      }
    }

    /** Text that started at `data`, the cursor being behind its leading blanks. */
    method PassPlainText(data: nat) returns (ok: bool)
      requires Valid() && data <= pos
      modifies this`pos, this`portListing, this`cdata
      ensures ok ==> Valid()
      ensures PlainText(xml[data..old(pos)], old(Unread()), old(State()))
           == if ok then GoOn(Unread(), State()) else Return(State())
    {
      hide Until, GetData;
      ok := PassUntil(Is('<'), 1);
      if !ok {
        return;
      }
      Slices(xml, data, old(pos), pos);
      if pos > data && pos + 1 < |xml| && xml[pos + 1] == '/' {
        OnData(xml[data..pos]);
      }
    }

    /** A CDATA section and what follows it. */
    method PassSection() returns (ok: bool)
      requires Valid() && StartsWith(Unread(), "<![CDATA[")
      modifies this`pos, this`portListing, this`cdata
      ensures ok ==> Valid()
      ensures Section(old(Unread()), old(State())) == if ok then GoOn(Unread(), State()) else Return(State())
    {
      hide Until, UntilMark, GetData;
      assert xml[pos..][9..] == xml[pos + 9..];
      pos := pos + 9;
      var data := pos;
      ok := PassUntilMark("]]>");
      if !ok {
        return;
      }
      if pos > data {
        OnData(xml[data..pos]);
      }
      ok := PassUntil(Is('<'), 0);
    }

    /** Behind an element name. */
    method PassOpening() returns (ok: bool)
      requires Valid()
      modifies this`pos, this`portListing, this`cdata
      ensures ok ==> Valid()
      ensures OpenElement(old(Unread()), old(State())) == if ok then GoOn(Unread(), State()) else Return(State())
    {
      hide Attributes, ElementText;
      ok := PassAttributes();
      if ok && Current() != '/' {
        assert xml[pos..][1..] == xml[pos + 1..];
        pos := pos + 1;
        ok := PassText();
      }
    }

    /** Behind "</". */
    method PassClosing() returns (ok: bool)
      requires Valid()
      modifies this`pos, this`topelt, this`list, this`cdata
      ensures ok ==> Valid()
      ensures CloseElement(old(Unread()), old(State())) == if ok then GoOn(Unread(), State()) else Return(State())
    {
      hide Until, EndElt;
      if pos >= |xml| {
        return false;
      }
      ok := PassUntil(Is('>'), 0);
      if ok {
        OnEnd();
        assert xml[pos..][1..] == xml[pos + 1..];
        pos := pos + 1;
      }
    }

    /** A tag. */
    method PassElement() returns (ok: bool)
      requires Valid() && |Unread()| > 1
      modifies this`pos, this`topelt, this`list, this`cdata, this`curelt, this`portListing
      ensures ok ==> Valid()
      ensures Element(old(Unread()), old(State())) == if ok then GoOn(Unread(), State()) else Return(State())
    {
      hide Name, OpenElement, CloseElement, StartElt;
      assert xml[pos..][1..] == xml[pos + 1..];
      pos := pos + 1;
      var name;
      ok, name := PassName();
      if !ok {
        return;
      }
      if |name| > 0 {
        OnStart(name);
        ok := PassOpening();
      } else if Current() == '/' {
        assert xml[pos..][1..] == xml[pos + 1..];
        pos := pos + 1;
        ok := PassClosing();
      }
    }

    /** `parseelt`: the record ends up as the description of the unread text says. */
    method ParseAll()
      requires Valid()
      modifies this
      ensures State() == Parse(old(Unread()), old(State()))
    {
      hide Comment, Element, StartsWith;
      ghost var result := Parse(Unread(), State());
      while pos + 1 < |xml|
        invariant pos <= |xml|
        invariant Parse(Unread(), State()) == result
        decreases |xml| - pos
      {
        ghost var rest, d := Unread(), State();
        assert rest[0] == xml[pos] && rest[1] == xml[pos + 1];
        var ok := true;
        if StartsWith(xml[pos..], "<!--") {
          ok := PassComment();
          assert OneTurn(rest, d) == if ok then GoOn(Unread(), State()) else Return(State());
        } else if xml[pos] == '<' && xml[pos + 1] != '?' {
          ok := PassElement();
          assert OneTurn(rest, d) == if ok then GoOn(Unread(), State()) else Return(State());
        } else {
          assert xml[pos..][1..] == xml[pos + 1..];
          pos := pos + 1;
          assert OneTurn(rest, d) == GoOn(Unread(), State());
        }
        if !ok {
          return;
        }
      }
    }
  }

  /** `GetValueFromNameValueList`: the newest entry with the name. */
  method GetValue(list: seq<NameValue>, name: string) returns (value: Option<string>)
    ensures value == Lookup(list, name)
    ensures value.Some? <==> exists i :: 0 <= i < |list| && list[i].name == name
  {
    var nv := 0;
    value := None;
    while nv < |list| && value.None?
      invariant nv <= |list|
      invariant value.None? ==> Lookup(list[nv..], name) == Lookup(list, name)
      invariant value.None? ==> forall i :: 0 <= i < nv ==> list[i].name != name
      invariant value.Some? ==> value == Lookup(list, name) && exists i :: 0 <= i < |list| && list[i].name == name
    {
      assert list[nv..][0] == list[nv] && list[nv..][1..] == list[nv + 1..];
      if list[nv].name == name {
        value := Some(list[nv].value);
      }
      nv := nv + 1;
    }
  }

  /** `ParseNameValue` on a record whose other fields hold anything. */
  method ParseNameValue(buffer: string, curelt: string, topelt: bool, cdata: Option<string>) returns (list: seq<NameValue>)
    ensures list == Parse(buffer, Data([], curelt, None, topelt, cdata)).list
  {
    var parser := new XmlParser(buffer, curelt, topelt, cdata);
    parser.ParseAll();
    list := parser.list;
  }
}
