/** The pull parser of `XML.cpp` over a text held in memory.

    `Cursor` is the whole parser state: the unread text, the position, and the one `Element`
    object that every call overwrites.  The functions say what each operation does to it; the
    class does the same by assignment to its fields. */
module Xml {
  import opened CText

  datatype Cursor = Cursor(xml: string, pos: nat, name: string, content: string,
                           closing: bool, hasAttributes: bool) {
    predicate Valid() {
      pos <= |xml|
    }

    /** How much text is still unread. */
    function Left(): (n: nat) {
      if pos <= |xml| then |xml| - pos else 0
    }

    function Rest(): (text: string)
      requires Valid()
    {
      xml[pos..]
    }

    /** `_getXML` without a file: the buffer is emptied and nothing is read. */
    function Exhausted(): (c: Cursor) {
      this.(xml := "", pos := 0)
    }
  }

  /** A parsing step either returns, throws an exception, or leaves defined behaviour (the tag
      `<?>`, whose name is cut to a length of -1). */
  datatype Run<+T> = Done(value: T, cursor: Cursor) | Thrown(cursor: Cursor) | Undefined {
    predicate IsFailure() {
      !Done?
    }
    function PropagateFailure<U>(): (r: Run<U>)
      requires IsFailure()
    {
      if Thrown? then Thrown(cursor) else Undefined
    }
    function Extract(): (r: (T, Cursor))
      requires Done?
    {
      (value, cursor)
    }
  }

  /** The attribute split at the end of `_parseElement`; the attribute text itself is not kept. */
  function SplitAttributes(c: Cursor): (r: Run<bool>)
    ensures r.Done? ==> r.value && r.cursor.xml == c.xml && r.cursor.pos == c.pos
  {
    if Find(c.name, '=', 0) > 0 then
      var space := Find(c.name, ' ', 0);
      if space == -1 then Thrown(c.(hasAttributes := true))
      else Done(true, c.(hasAttributes := true, name := c.name[..space]))
    else Done(true, c.(hasAttributes := false))
  }

  /** What the text between '<' and '>' makes of the element. */
  function TakeTag(c: Cursor, raw: string): (r: Run<bool>)
    requires raw != ""
    ensures r.Done? ==> r.value && r.cursor.xml == c.xml && r.cursor.pos == c.pos
  {
    if raw[0] == '/' then SplitAttributes(c.(closing := true, name := raw[1..]))
    else if raw[|raw| - 1] == '/' then SplitAttributes(c.(closing := true, name := raw[..|raw| - 1]))
    else if raw[0] == '?' then
      if |raw| == 1 then Undefined else SplitAttributes(c.(name := raw[1..|raw| - 1]))
    else SplitAttributes(c.(closing := false, name := raw))
  }

  /** `_parseElement`, entered right behind a '<'.  An empty tag `<>` takes the whole rest of the
      text as its name, because `substr` of length 0 does. */
  function ParseElement(c: Cursor): (r: Run<bool>)
    requires c.Valid() && c.name == ""
    ensures r.Done? ==> r.value && r.cursor.Valid() && r.cursor.xml == c.xml && c.pos < r.cursor.pos
  {
    var close := Find(c.xml, '>', c.pos);
    if close == -1 then
      var name := Mid(c.xml, c.pos, |c.xml| - c.pos);
      if |name| > 124 then Thrown(c.(name := name)) else Thrown(c.(name := name).Exhausted())
    else
      var raw := Mid(c.xml, c.pos, close - c.pos);
      assert raw != "";
      TakeTag(c.(pos := close + 1, name := raw), raw)
  }

  /** `getNextElement`: true for an element, false for NULL.  Every element strictly shrinks the
      unread text. */
  function NextElement(c: Cursor): (r: Run<bool>)
    requires c.Valid()
    ensures r.Done? ==> r.cursor.Valid() && r.cursor.Left() <= c.Left()
    ensures r.Done? && r.value ==> r.cursor.Left() < c.Left()
  {
    var e := c.(name := "", content := "");
    if c.pos >= |c.xml| then Done(false, e.Exhausted())
    else
      var open := Find(c.xml, '<', c.pos);
      if open == -1 then Done(false, e.Exhausted())
      else hide TakeTag, SplitAttributes; ParseElement(e.(pos := open + 1))
  }

  /** `hasContent`. */
  function HasContent(c: Cursor): (r: Run<bool>)
    requires c.Valid()
    ensures r.Done? ==> r.cursor == c
  {
    if c.content != "" then Done(true, c)
    else if c.closing || c.xml == "" then Done(false, c)
    else
      var i := SkipSpace(c.xml, c.pos);
      if i == |c.xml| then Thrown(c.Exhausted()) else Done(c.xml[i] != '<', c)
  }

  /** `getContent` with `parseContent` behind it. */
  function GetContent(c: Cursor): (r: Run<string>)
    requires c.Valid()
    ensures r.Done? ==> r.cursor == c.(content := r.value)
  {
    if c.content != "" then Done(c.content, c)
    else
      var open := Find(c.xml, '<', c.pos);
      if open == -1 then Thrown(c.(content := Mid(c.xml, c.pos, |c.xml| - c.pos)).Exhausted())
      else
        var text := Mid(c.xml, c.pos, open - c.pos);
        Done(text, c.(content := text))
  }

  /** What a caller of a parser method gets. */
  datatype Outcome<+T> = Returned(value: T) | Raised | Crashed {
    predicate IsFailure() {
      !Returned?
    }
    function PropagateFailure<U>(): (r: Outcome<U>)
      requires IsFailure()
    {
      if Raised? then Raised else Crashed
    }
    function Extract(): (r: T)
      requires !IsFailure()
    {
      value
    }
  }

  /** The outcome and the parser state after a call are those of the run. */
  ghost predicate Agrees<T(!new)>(o: Outcome<T>, now: Cursor, run: Run<T>) {
    match run
    case Done(v, c) => o == Returned(v) && now == c
    case Thrown(c) => o == Raised && now == c
    case Undefined => o == Crashed
  }

  class Parser {
    var xml: string
    var pos: nat
    var name: string
    var content: string
    var closing: bool
    var hasAttributes: bool

    ghost function State(): (c: Cursor)
      reads this
    {
      Cursor(xml, pos, name, content, closing, hasAttributes)
    }

    constructor (text: string)
      ensures State() == Cursor(text, 0, "", "", false, false)
    {
      xml, pos, name, content, closing, hasAttributes := text, 0, "", "", false, false;
    }

    method Exhaust()
      modifies this
      ensures State() == old(State()).Exhausted()
    {
      pos, xml := 0, "";
    }

    method GetNextElement() returns (r: Outcome<bool>)
      requires State().Valid()
      modifies this
      ensures Agrees(r, State(), NextElement(old(State())))
    {
      name, content := "", "";
      if pos >= |xml| {
        Exhaust();
        return Returned(false);
      }
      var open := Find(xml, '<', pos);
      if open == -1 {
        Exhaust();
        return Returned(false);
      }
      pos := open + 1;
      r := DoParseElement();
    }

    method DoParseElement() returns (r: Outcome<bool>)
      requires State().Valid() && name == ""
      modifies this
      ensures Agrees(r, State(), ParseElement(old(State())))
    {
      hide TakeTag, SplitAttributes;
      var close := Find(xml, '>', pos);
      if close == -1 {
        var tail := Mid(xml, pos, |xml| - pos);
        assert name + tail == tail;
        name := name + tail;
        if |name| <= 124 {
          Exhaust();
        }
        return Raised;
      }
      var raw := Mid(xml, pos, close - pos);
      assert name + raw == raw;
      name := name + raw;
      pos := close + 1;
      r := DoTakeTag();
    }

    method DoTakeTag() returns (r: Outcome<bool>)
      requires name != ""
      modifies this
      ensures Agrees(r, State(), TakeTag(old(State()), old(name)))
    {
      hide SplitAttributes;
      if name[0] == '/' {
        closing := true;
        name := name[1..];
      } else if name[|name| - 1] == '/' {
        closing := true;
        name := name[..|name| - 1];
      } else if name[0] == '?' {
        if |name| == 1 {
          return Crashed;
        }
        name := name[1..];
        name := name[..|name| - 1];
        assert name == old(name)[1..|old(name)| - 1];
      } else {
        closing := false;
      }
      r := DoSplitAttributes();
    }

    method DoSplitAttributes() returns (r: Outcome<bool>)
      modifies this
      ensures Agrees(r, State(), SplitAttributes(old(State())))
    {
      if Find(name, '=', 0) > 0 {
        hasAttributes := true;
        var space := Find(name, ' ', 0);
        if space == -1 {
          return Raised;
        }
        name := name[..space];
      } else {
        hasAttributes := false;
      }
      return Returned(true);
    }

    method DoHasContent() returns (r: Outcome<bool>)
      requires State().Valid()
      modifies this
      ensures Agrees(r, State(), HasContent(old(State())))
    {
      if |content| > 0 {
        return Returned(true);
      }
      if closing {
        return Returned(false);
      }
      if |xml| > 0 {
        var i := pos;
        while i < |xml|
          invariant pos <= i <= |xml|
          invariant SkipSpace(xml, i) == SkipSpace(xml, pos)
          invariant State() == old(State())
        {
          if IsSpace(xml[i]) {
            i := i + 1;
            continue;
          }
          return Returned(xml[i] != '<');
        }
        Exhaust();
        return Raised;
      }
      return Returned(false);
    }

    method DoGetContent() returns (r: Outcome<string>)
      requires State().Valid()
      modifies this
      ensures Agrees(r, State(), GetContent(old(State())))
    {
      if |content| > 0 {
        return Returned(content);
      }
      var open := Find(xml, '<', pos);
      if open == -1 {
        var tail := Mid(xml, pos, |xml| - pos);
        assert content + tail == tail;
        content := content + tail;
        Exhaust();
        return Raised;
      }
      var text := Mid(xml, pos, open - pos);
      assert content + text == text;
      content := content + text;
      return Returned(content);
    }
  }

  /** `<>` swallows the rest of the text, `<?>` leaves defined behaviour: the two tags on which
      the element is not what stands between the angle brackets. */
  lemma OddTags()
    ensures NextElement(Cursor("<>ab", 0, "", "", false, false)) == Done(true, Cursor("<>ab", 2, ">ab", "", false, false))
    ensures NextElement(Cursor("<?>", 0, "", "", false, false)) == Undefined
  {
    hide SplitAttributes;
    var c := Cursor("<>ab", 1, "", "", false, false);
    assert Find(c.xml, '<', 0) == 0;
    assert Find(c.xml, '>', 1) == 1;
    assert Tail(c.xml, 1) == ">ab" by { TailWhole(c.xml, 1); assert c.xml[1..] == ">ab"; }
    assert SplitAttributes(Cursor("<>ab", 2, ">ab", "", false, false)) == Done(true, Cursor("<>ab", 2, ">ab", "", false, false)) by {
      NoAttributes(Cursor("<>ab", 2, ">ab", "", false, false));
    }
    assert Find("<?>", '<', 0) == 0;
    assert Find("<?>", '>', 1) == 2;
    assert "<?>"[1..2] == "?";
  }

  lemma NoAttributes(c: Cursor)
    requires '=' !in c.name
    ensures SplitAttributes(c) == Done(true, c.(hasAttributes := false))
  {
  }

  /** A tag name as the printers write it. */
  predicate TagText(raw: string) {
    raw != "" && raw != "/" && '\0' !in raw && '>' !in raw && '=' !in raw && raw[0] != '?' && raw[|raw| - 1] != '/'
  }

  /** What the element looks like after the tag `raw`, read up to `pos`. */
  function Tagged(xml: string, pos: nat, raw: string): (c: Cursor)
    requires raw != ""
  {
    if raw[0] == '/' then Cursor(xml, pos, raw[1..], "", true, false) else Cursor(xml, pos, raw, "", false, false)
  }

  lemma TakeTagText(c: Cursor, raw: string)
    requires TagText(raw) && c.content == ""
    ensures TakeTag(c, raw) == Done(true, Tagged(c.xml, c.pos, raw))
  {
    hide SplitAttributes;
    NoAttributes(Tagged(c.xml, c.pos, raw).(hasAttributes := c.hasAttributes));
  }

  /** Reading one tag; any text before it, content or white space, is skipped. */
  lemma ReadTag(c: Cursor, gap: string, raw: string, rest: string)
    requires c.Valid() && '<' !in gap && '\0' !in gap && TagText(raw)
    requires c.Rest() == gap + ("<" + (raw + (">" + rest)))
    ensures c.pos + |gap| + |raw| + 2 <= |c.xml| && c.xml[c.pos + |gap| + |raw| + 2..] == rest
    ensures NextElement(c) == Done(true, Tagged(c.xml, c.pos + |gap| + |raw| + 2, raw))
  {
    hide TakeTag, NextElement;
    AnyTag(c, gap, raw, rest);
    TakeTagText(c.(pos := c.pos + |gap| + |raw| + 2, name := raw, content := ""), raw);
  }

  lemma Slices(s: string, p: nat, a: string, b: string)
    requires p <= |s| && s[p..] == a + b
    ensures p + |a| <= |s| && s[p..p + |a|] == a && s[p + |a|..] == b
  {
    assert s[p..p + |a|] == s[p..][..|a|];
    assert s[p + |a|..] == s[p..][|a|..];
  }

  /** A tag right behind the element: it has no content. */
  lemma NoContent(c: Cursor, gap: string, rest: string)
    requires c.Valid() && c.content == "" && !c.closing && AllSpace(gap)
    requires c.Rest() == gap + ("<" + rest)
    ensures HasContent(c) == Done(false, c)
  {
    Slices(c.xml, c.pos, gap, "<" + rest);
    assert c.xml[c.pos + |gap|] == c.xml[c.pos + |gap|..][0];
    SkipAcross(c.xml, c.pos, gap);
  }

  /** Text right behind the element, up to the next tag: content unless it is all white space. */
  lemma ReadContent(c: Cursor, text: string, rest: string)
    requires c.Valid() && c.content == "" && !c.closing
    requires '\0' !in text && '<' !in text && c.Rest() == text + ("<" + rest)
    ensures HasContent(c) == Done(!AllSpace(text), c)
    ensures !AllSpace(text) ==> GetContent(c) == Done(text, c.(content := text))
  {
    if AllSpace(text) {
      NoContent(c, text, rest);
    } else {
      var k := FirstInk(text);
      var s, p := c.xml, c.pos;
      Slices(s, p, text, "<" + rest);
      assert s[p + |text|] == s[p + |text|..][0];
      FindAcross(s, '<', p, text);
      assert s[p + k] == s[p..p + |text|][k];
      assert s[p..p + k] == s[p..p + |text|][..k];
      SkipAcross(s, p, text[..k]);
    }
  }

  lemma {:induction false} FirstInk(text: string) returns (k: nat)
    requires !AllSpace(text)
    ensures k < |text| && AllSpace(text[..k]) && !IsSpace(text[k])
  {
    if !IsSpace(text[0]) {
      k := 0;
    } else {
      assert !AllSpace(text[1..]) by {
        var i :| 0 <= i < |text| && !IsSpace(text[i]);
        assert text[1..][i - 1] == text[i];
      }
      k := FirstInk(text[1..]);
      assert text[..k + 1] == [text[0]] + text[1..][..k];
      k := k + 1;
    }
  }

  // ----- every kind of tag ------------------------------------------------------------------------------

  predicate Inside(raw: string) {
    raw != "" && '>' !in raw && '\0' !in raw
  }

  lemma AnyTagName(c: Cursor, raw: string, rest: string)
    requires c.Valid() && c.name == "" && Inside(raw) && c.Rest() == raw + (">" + rest)
    ensures
      var p := c.pos + |raw| + 1;
      p <= |c.xml| && c.xml[p..] == rest && ParseElement(c) == TakeTag(c.(pos := p, name := raw), raw)
  {
    hide TakeTag;
    var s, q := c.xml, c.pos;
    Slices(s, q, raw, ">" + rest);
    assert s[q + |raw|] == s[q + |raw|..][0] == '>';
    FindAcross(s, '>', q, raw);
    assert s[q + |raw| + 1..] == s[q + |raw|..][1..] == rest;
  }

  /** The next '<', behind any other text. */
  lemma Opening(c: Cursor, gap: string, t: string)
    requires c.Valid() && '<' !in gap && '\0' !in gap && c.Rest() == gap + ("<" + t)
    ensures
      var e := c.(pos := c.pos + |gap| + 1, name := "", content := "");
      e.Valid() && e.Rest() == t && NextElement(c) == ParseElement(e)
  {
    hide ParseElement;
    var s, p := c.xml, c.pos;
    Slices(s, p, gap, "<" + t);
    assert s[p + |gap|] == s[p + |gap|..][0] == '<';
    FindAcross(s, '<', p, gap);
    assert s[p + |gap| + 1..] == s[p + |gap|..][1..] == t;
  }

  /** The text between '<' and the next '>' is taken as the tag. */
  lemma AnyTag(c: Cursor, gap: string, raw: string, rest: string)
    requires c.Valid() && '<' !in gap && '\0' !in gap && Inside(raw)
    requires c.Rest() == gap + ("<" + (raw + (">" + rest)))
    ensures
      var p := c.pos + |gap| + |raw| + 2;
      p <= |c.xml| && c.xml[p..] == rest
      && NextElement(c) == TakeTag(c.(pos := p, name := raw, content := ""), raw)
  {
    hide TakeTag, ParseElement, NextElement;
    Opening(c, gap, raw + (">" + rest));
    AnyTagName(c.(pos := c.pos + |gap| + 1, name := "", content := ""), raw, rest);
  }

  /** A name on its own. */
  predicate NameText(x: string) {
    Inside(x) && '=' !in x && ' ' !in x && x[0] != '/' && x[0] != '?' && x[|x| - 1] != '/'
  }

  /** `<x>` opens, `</x>` and `<x/>` close, and `<?x?>` leaves that as it was. */
  lemma TagShapes(c: Cursor, x: string)
    requires NameText(x)
    ensures TakeTag(c, x) == Done(true, c.(name := x, closing := false, hasAttributes := false))
    ensures TakeTag(c, "/" + x) == Done(true, c.(name := x, closing := true, hasAttributes := false))
    ensures TakeTag(c, x + "/") == Done(true, c.(name := x, closing := true, hasAttributes := false))
    ensures TakeTag(c, "?" + x + "?") == Done(true, c.(name := x, hasAttributes := false))
  {
    hide SplitAttributes;
    assert ("/" + x)[1..] == x && (x + "/")[..|x|] == x;
    assert ("?" + x + "?")[1..|x| + 1] == x;
    NoAttributes(c.(name := x, closing := false));
    NoAttributes(c.(name := x, closing := true));
    NoAttributes(c.(name := x));
  }

  lemma SomeAttributes(c: Cursor, x: string, a: string)
    requires NameText(x) && '\0' !in a && '=' in a && c.name == x + " " + a
    ensures SplitAttributes(c) == Done(true, c.(name := x, hasAttributes := true))
  {
    var n := c.name;
    assert n[0..|x|] == x && n[|x|] == ' ';
    FindAcross(n, ' ', 0, x);
    EqualsFound(n, 0);
    assert n[..|x|] == x;
    assert n[0] == x[0];
    var k :| 0 <= k < |a| && a[k] == '=';
    assert n[|x| + 1 + k] == '=';
  }

  lemma {:induction false} EqualsFound(s: string, pos: nat)
    requires '\0' !in s && pos <= |s|
    ensures '=' in s[pos..] ==> Find(s, '=', pos) >= pos
    decreases |s| - pos
  {
    if pos < |s| {
      EqualsFound(s, pos + 1);
      assert s[pos..] == [s[pos]] + s[pos + 1..];
    } else {
      assert s[pos..] == "";
    }
  }

  /** Behind a name and a blank, text with an '=' is the attributes; it may end in the '/' that closes. */
  lemma TagAttributes(c: Cursor, x: string, a: string)
    requires NameText(x) && '\0' !in a && '=' in a && a[|a| - 1] != '/'
    ensures TakeTag(c, x + " " + a) == Done(true, c.(name := x, closing := false, hasAttributes := true))
    ensures TakeTag(c, x + " " + a + "/") == Done(true, c.(name := x, closing := true, hasAttributes := true))
  {
    hide SplitAttributes;
    var raw := x + " " + a;
    assert raw[0] == x[0] && raw[|raw| - 1] == a[|a| - 1];
    assert (raw + "/")[0] == x[0] && (raw + "/")[..|raw|] == raw;
    SomeAttributes(c.(name := raw, closing := false), x, a);
    SomeAttributes(c.(name := raw, closing := true), x, a);
  }

  /** An '=' in front is no attribute, and a blank in front leaves no name. */
  lemma TagOddFronts(c: Cursor, a: string)
    requires '\0' !in a && (a != "" ==> a[|a| - 1] != '/')
    ensures TakeTag(c, "=" + a) == Done(true, c.(name := "=" + a, closing := false, hasAttributes := false))
    ensures '=' in a ==> TakeTag(c, " " + a) == Done(true, c.(name := "", closing := false, hasAttributes := true))
  {
    var raw := " " + a;
    assert raw[0..] == raw;
    EqualsFound(raw, 0);
    if '=' in a {
      var k :| 0 <= k < |a| && a[k] == '=';
      assert raw[k + 1] == '=' && raw[0] == ' ';
      assert Find(raw, '=', 0) > 0;
      assert raw[..0] == "";
    }
  }

  /** Without a blank an '=' behind the first character makes the parser throw. */
  lemma TagThrows(c: Cursor, x: string, a: string)
    requires NameText(x) && '\0' !in a && ' ' !in a && (a != "" ==> a[|a| - 1] != '/')
    ensures TakeTag(c, x + "=" + a).Thrown?
  {
    hide SplitAttributes;
    var raw := x + "=" + a;
    assert raw[0] == x[0] && raw[|raw| - 1] != '/';
    NoBlankThrows(c.(name := raw, closing := false), x, a);
  }

  lemma NoBlankThrows(c: Cursor, x: string, a: string)
    requires NameText(x) && '\0' !in a && ' ' !in a && c.name == x + "=" + a
    ensures SplitAttributes(c).Thrown?
  {
    var raw := c.name;
    assert raw[0..|x|] == x && raw[|x|] == '=';
    FindAcross(raw, '=', 0, x);
    assert raw[0..] == raw;
    FindNone(raw, ' ', 0);
  }

  /** A '<' without a '>': the parser throws, the rest of the text being the name, which it keeps when that
      is longer than 124 characters, and otherwise the text is used up too. */
  lemma Unclosed(c: Cursor, gap: string, t: string)
    requires c.Valid() && '<' !in gap && '\0' !in gap && '>' !in t && '\0' !in t
    requires c.Rest() == gap + ("<" + t)
    ensures
      var e := c.(pos := c.pos + |gap| + 1, name := t, content := "");
      NextElement(c) == Thrown(if |t| > 124 then e else e.(xml := "", pos := 0))
  {
    hide NextElement, ParseElement;
    Opening(c, gap, t);
    UnclosedName(c.(pos := c.pos + |gap| + 1, name := "", content := ""));
  }

  lemma UnclosedName(c: Cursor)
    requires c.Valid() && c.name == "" && '>' !in c.Rest() && '\0' !in c.Rest()
    ensures
      var e := c.(name := c.Rest());
      ParseElement(c) == Thrown(if |c.Rest()| > 124 then e else e.(xml := "", pos := 0))
  {
    hide TakeTag;
    FindNone(c.xml, '>', c.pos);
    WholeRest(c.xml, c.pos, c.Rest());
  }

  lemma WholeRest(s: string, q: nat, t: string)
    requires q <= |s| && s[q..] == t && '\0' !in t
    ensures Mid(s, q, |s| - q) == t
  {
    if q < |s| {
      assert s[q..q + (|s| - q)] == t;
    }
  }

  /** Without a '<' there is no next element, and the text is used up. */
  lemma NoMoreTags(c: Cursor)
    requires c.Valid() && '<' !in c.Rest()
    ensures NextElement(c) == Done(false, c.(xml := "", pos := 0, name := "", content := ""))
  {
    hide ParseElement;
    FindNone(c.xml, '<', c.pos);
  }

  /** Behind a closing element, and in an empty text, there is no content; behind another, white space up to
      the end of the text makes the parser throw. */
  lemma ContentAtEnd(c: Cursor)
    requires c.Valid() && c.content == ""
    ensures c.closing || c.xml == "" ==> HasContent(c) == Done(false, c)
    ensures !c.closing && c.xml != "" && AllSpace(c.Rest()) ==> HasContent(c) == Thrown(c.(xml := "", pos := 0))
    ensures !c.closing && c.xml != "" && !AllSpace(c.Rest()) ==> HasContent(c).Done?
  {
    var i := SkipSpace(c.xml, c.pos);
    if AllSpace(c.Rest()) {
      SpaceToEnd(c.xml, c.pos);
    } else {
      assert c.xml[c.pos..|c.xml|] == c.Rest();
    }
  }

  lemma {:induction false} SpaceToEnd(s: string, pos: nat)
    requires pos <= |s| && AllSpace(s[pos..])
    ensures SkipSpace(s, pos) == |s|
    decreases |s| - pos
  {
    if pos < |s| {
      assert s[pos..][0] == s[pos];
      assert s[pos + 1..] == s[pos..][1..];
      assert AllSpace(s[pos..][1..]) by { TailIsSpace(s[pos..]); }
      SpaceToEnd(s, pos + 1);
    }
  }

  lemma TailIsSpace(t: string)
    requires AllSpace(t) && t != ""
    ensures AllSpace(t[1..])
  {
  }

  /** Content that no tag follows makes the parser throw with the content kept. */
  lemma ContentUnclosed(c: Cursor)
    requires c.Valid() && c.content == "" && '<' !in c.Rest() && '\0' !in c.Rest()
    ensures GetContent(c) == Thrown(c.(content := c.Rest(), xml := "", pos := 0))
  {
    FindNone(c.xml, '<', c.pos);
    WholeRest(c.xml, c.pos, c.Rest());
  }

  /** Content that is known is not read again. */
  lemma ContentKnown(c: Cursor)
    requires c.Valid() && c.content != ""
    ensures HasContent(c) == Done(true, c) && GetContent(c) == Done(c.content, c)
  {
  }
}
