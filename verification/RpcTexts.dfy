/** What the reader makes of any XML-RPC text, not only of printed ones: every type tag, any white space
    between the tags, and the texts on which it throws or stops early. */
module RpcTexts {
  import opened CText
  import opened Shared
  import opened Numbers
  import opened XmlEntities
  import opened Xml
  import opened Rpc
  import opened RpcRoundTrip

  /** A value as it is spelled; `gap` is the white space between its tags. */
  datatype Doc =
    | Typed(gap: string, tag: string, text: string)
    | Dated(gap: string, text: string)
    | List(gap: string, items: seq<Doc>)
    | Table(gap: string, entries: seq<Entry>)

  datatype Entry = Entry(name: string, doc: Doc)

  predicate LeafTag(tag: string) {
    tag == "i4" || tag == "int" || tag == "boolean" || tag == "double" || tag == "string"
  }

  /** Text between two tags. */
  predicate TagFree(text: string) {
    '<' !in text && '\0' !in text
  }

  predicate Written(doc: Doc) {
    AllSpace(doc.gap) &&
    match doc
    case Typed(_, tag, text) => LeafTag(tag) && TagFree(text)
    case Dated(_, text) => TagFree(text) && !AllSpace(text) && ScansDateTime(text)
    case List(_, items) => forall i :: 0 <= i < |items| ==> Written(items[i])
    case Table(_, entries) => forall i :: 0 <= i < |entries| ==> TagFree(entries[i].name) && Written(entries[i].doc)
  }

  /** The text behind `<value>`, with what follows the value. */
  function Inner(doc: Doc, rest: string): (t: string)
    decreases doc, 0
  {
    var end := doc.gap + T("/value", rest);
    match doc
    case Typed(gap, tag, text) => gap + T(tag, text + T("/" + tag, end))
    case Dated(gap, text) => gap + T("dateTime.iso8601", text + T("/dateTime.iso8601", end))
    case List(gap, items) => gap + T("array", gap + T("data", InnerItems(items, gap, gap + T("/array", end))))
    case Table(gap, entries) => gap + T("struct", InnerEntries(entries, gap, end))
  }

  function InnerItems(items: seq<Doc>, gap: string, rest: string): (t: string)
    decreases items, 1
  {
    if items == [] then gap + T("/data", rest)
    else gap + T("value", Inner(items[0], InnerItems(items[1..], gap, rest)))
  }

  function InnerEntries(entries: seq<Entry>, gap: string, rest: string): (t: string)
    decreases entries, 1
  {
    if entries == [] then gap + T("/struct", rest)
    else gap + T("member", InnerEntry(entries[0], gap, InnerEntries(entries[1..], gap, rest)))
  }

  function InnerEntry(e: Entry, gap: string, more: string): (t: string)
    decreases e, 1
  {
    gap + T("name", e.name + T("/name", gap + T("value", Inner(e.doc, gap + T("/member", more)))))
  }

  // ----- what it denotes ----------------------------------------------------------------------------

  /** A leaf by its tag; blank text leaves a string empty and any other null. */
  function LeafMeant(tag: string, text: string): (v: Value) {
    if tag == "string" then Leaf(KString, if AllSpace(text) then "" else DecodeText(text), 0)
    else if AllSpace(text) then Null
    else if tag == "boolean" then Leaf(KBoolean, text, ToInt(text))
    else if tag == "double" then Leaf(KDouble, text, 0)
    else Leaf(KInt, text, ToInt(text))
  }

  /** None where the reader throws: at a blank name, and at a name whose hash is taken. */
  function Meant(doc: Doc): (r: Option<Value>)
    decreases doc, 0
  {
    match doc
    case Typed(_, tag, text) => Some(LeafMeant(tag, text))
    case Dated(_, text) => Some(Leaf(KDateTime, text, 0))
    case List(_, items) => (match ItemsMeant(items) case None => None case Some(vs) => Some(Array(vs)))
    case Table(_, entries) => (match EntriesMeant(entries, []) case None => None case Some(ms) => Some(Struct(ms)))
  }

  function ItemsMeant(items: seq<Doc>): (r: Option<seq<Value>>)
    decreases items, 1
  {
    if items == [] then Some([])
    else
      match Meant(items[0])
      case None => None
      case Some(v) =>
        match ItemsMeant(items[1..])
        case None => None
        case Some(vs) => Some([v] + vs)
  }

  function EntriesMeant(entries: seq<Entry>, acc: seq<Member>): (r: Option<seq<Member>>)
    decreases entries, 1
  {
    if entries == [] then Some(acc)
    else if AllSpace(entries[0].name) then None
    else
      match Meant(entries[0].doc)
      case None => None
      case Some(v) =>
        if HasKey(acc, entries[0].name) then None
        else EntriesMeant(entries[1..], acc + [Member(entries[0].name, v)])
  }

  // ----- reading ------------------------------------------------------------------------------------

  /** The cursor right behind a closing `</value>`. */
  predicate BehindValue(c: Cursor, xml: string, rest: string) {
    c.xml == xml && c.Valid() && c.Rest() == rest && c == Tagged(xml, c.pos, "/value")
  }

  lemma SpaceIsFree(gap: string)
    requires AllSpace(gap)
    ensures TagFree(gap)
  {
    assert forall c :: c in gap ==> IsSpace(c);
  }

  lemma LeafTagTexts(tag: string)
    requires LeafTag(tag)
    ensures TagText(tag) && TagText("/" + tag) && tag[0] != '/' && tag != "dateTime.iso8601"
  {
  }

  /** The content of an element up to its closing tag, and that tag. */
  lemma ReadsInside(c: Cursor, text: string, raw: string, rest: string) returns (d: Cursor, e: Cursor)
    requires c.Valid() && c.content == "" && !c.closing && TagFree(text) && TagText(raw)
    requires c.Rest() == text + T(raw, rest)
    ensures HasContent(c) == Done(!AllSpace(text), c)
    ensures d == if AllSpace(text) then c else c.(content := text)
    ensures !AllSpace(text) ==> GetContent(c) == Done(text, d)
    ensures NextElement(d) == Done(true, e) && EndsBefore(e, c.xml, rest) && e == Tagged(c.xml, e.pos, raw)
  {
    hide NextElement, HasContent, GetContent, AllSpace, T;
    TagOpened(raw, rest);
    ReadContent(c, text, raw + (">" + rest));
    d := if AllSpace(text) then c else c.(content := text);
    e := Next(d, text, raw, rest);
  }

  /** From behind `<value>` to behind the type tag. */
  lemma OpensType(c: Cursor, gap: string, raw: string, rest: string) returns (d: Cursor)
    requires c.Valid() && c == Tagged(c.xml, c.pos, "value") && AllSpace(gap) && TagText(raw)
    requires c.Rest() == gap + T(raw, rest)
    ensures HasContent(c) == Done(false, c) && NextElement(c) == Done(true, d)
    ensures EndsBefore(d, c.xml, rest) && d == Tagged(c.xml, d.pos, raw)
  {
    hide NextElement, HasContent, T;
    SpaceIsFree(gap);
    TagOpened(raw, rest);
    NoContent(c, gap, raw + (">" + rest));
    d := Next(c, gap, raw, rest);
  }

  lemma Closes(c: Cursor, d: Cursor, gap: string, rest: string)
    requires c.Valid() && d.Valid() && c.name == "value" && d.name != "dateTime.iso8601" && c.xml == d.xml
    requires HasContent(c) == Done(false, c) && NextElement(c) == Done(true, d) && AllSpace(gap)
    requires TypedValue(d).Done? && EndsBefore(TypedValue(d).cursor, c.xml, gap + T("/value", rest))
    ensures FromXml(c).Done? && FromXml(c).value == TypedValue(d).value
    ensures BehindValue(FromXml(c).cursor, c.xml, rest)
  {
    hide NextElement, HasContent, FromXml, TypedValue;
    SpaceIsFree(gap);
    FromXmlSteps(c, d);
    var e := Next(TypedValue(d).cursor, gap, "/value", rest);
  }

  /** A leaf with the content `text`, from behind its type tag. */
  lemma LeafSteps(d: Cursor, kind: Kind, text: string, e: Cursor, f: Cursor)
    requires d.Valid() && e.Valid() && HasContent(d) == Done(!AllSpace(text), d) && NextElement(e) == Done(true, f)
    requires if AllSpace(text) then e == d else GetContent(d) == Done(text, e)
    ensures
      LeafValue(d, kind) ==
        Done(if AllSpace(text) then (if kind == KString then Leaf(KString, "", 0) else Null)
             else if kind == KString then Leaf(KString, DecodeText(text), 0)
             else Leaf(kind, text, if kind == KInt || kind == KBoolean then ToInt(text) else 0), f)
  {
    hide NextElement, HasContent, GetContent, DecodeText, AllSpace, ToInt;
  }

  lemma ReadsLeafInside(d: Cursor, tag: string, text: string, rest: string)
    requires d.Valid() && LeafTag(tag) && d == Tagged(d.xml, d.pos, tag) && TagFree(text)
    requires d.Rest() == text + T("/" + tag, rest)
    ensures TypedValue(d).Done? && TypedValue(d).value == LeafMeant(tag, text)
    ensures EndsBefore(TypedValue(d).cursor, d.xml, rest)
  {
    hide NextElement, HasContent, GetContent, DecodeText, AllSpace, ToInt, T, LeafValue;
    LeafTagTexts(tag);
    var e, f := ReadsInside(d, text, "/" + tag, rest);
    var kind := if tag == "string" then KString else if tag == "double" then KDouble
                else if tag == "boolean" then KBoolean else KInt;
    LeafSteps(d, kind, text, e, f);
  }

  lemma ReadsTyped(doc: Doc, c: Cursor, rest: string)
    requires doc.Typed? && Written(doc) && c.Valid() && c == Tagged(c.xml, c.pos, "value")
    requires c.Rest() == Inner(doc, rest)
    ensures FromXml(c).Done? && FromXml(c).value == LeafMeant(doc.tag, doc.text)
    ensures BehindValue(FromXml(c).cursor, c.xml, rest)
  {
    hide NextElement, HasContent, FromXml, TypedValue, LeafMeant;
    LeafTagTexts(doc.tag);
    var end := doc.gap + T("/value", rest);
    var d := OpensType(c, doc.gap, doc.tag, doc.text + T("/" + doc.tag, end));
    ReadsLeafInside(d, doc.tag, doc.text, end);
    Closes(c, d, doc.gap, rest);
  }

  lemma DateSteps(c: Cursor, d: Cursor)
    requires c.Valid() && d.Valid() && c.name == "value" && d.name == "dateTime.iso8601"
    requires HasContent(c) == Done(false, c) && NextElement(c) == Done(true, d)
    ensures FromXml(c) == DateTimeValue(d)
  {
    hide NextElement, HasContent, GetContent, DecodeText, TypedValue, DateTimeValue;
  }

  /** The text of a date, its closing tag and the tag behind. */
  lemma DateInside(d: Cursor, e: Cursor, f: Cursor, g: Cursor)
    requires d.Valid() && e.Valid() && f.Valid() && HasContent(d) == Done(true, d) && GetContent(d) == Done(e.content, e)
    requires NextElement(e) == Done(true, f) && NextElement(f) == Done(true, g)
    ensures DateTimeValue(d) == if ScansDateTime(e.content) then Done(Leaf(KDateTime, e.content, 0), g) else Done(Null, e)
  {
    hide NextElement, HasContent, GetContent, ScansDateTime;
  }

  lemma DatedInner(doc: Doc, rest: string)
    requires doc.Dated?
    ensures Inner(doc, rest)
         == doc.gap + T("dateTime.iso8601", doc.text + T("/dateTime.iso8601", doc.gap + T("/value", rest)))
  {
    hide T;
  }

  lemma ReadsDated(doc: Doc, c: Cursor, rest: string)
    requires doc.Dated? && Written(doc) && c.Valid() && c == Tagged(c.xml, c.pos, "value")
    requires c.Rest() == Inner(doc, rest)
    ensures FromXml(c).Done? && FromXml(c).value == Leaf(KDateTime, doc.text, 0)
    ensures BehindValue(FromXml(c).cursor, c.xml, rest)
  {
    hide NextElement, HasContent, GetContent, FromXml, ScansDateTime, AllSpace, DateTimeValue, T, Inner;
    DatedInner(doc, rest);
    var end := doc.gap + T("/value", rest);
    var d := OpensType(c, doc.gap, "dateTime.iso8601", doc.text + T("/dateTime.iso8601", end));
    DateSteps(c, d);
    var e, f := ReadsInside(d, doc.text, "/dateTime.iso8601", end);
    SpaceIsFree(doc.gap);
    var g := Next(f, doc.gap, "/value", rest);
    DateInside(d, e, f, g);
  }

  /** Every spelled value is read to its `</value>` and gives what it denotes. */
  lemma {:induction false} ReadsDoc(doc: Doc, c: Cursor, rest: string)
    requires Written(doc) && c.Valid() && c == Tagged(c.xml, c.pos, "value")
    requires c.Rest() == Inner(doc, rest)
    ensures match Meant(doc)
            case None => FromXml(c).Thrown?
            case Some(v) => FromXml(c).Done? && FromXml(c).value == v && BehindValue(FromXml(c).cursor, c.xml, rest)
    decreases doc, 3
  {
    hide NextElement, HasContent, FromXml, TypedValue;
    match doc
    case Typed(_, _, _) => ReadsTyped(doc, c, rest);
    case Dated(_, _) => ReadsDated(doc, c, rest);
    case List(_, _) => ReadsList(doc, c, rest);
    case Table(_, _) => ReadsTable(doc, c, rest);
  }

  lemma {:induction false} ReadsList(doc: Doc, c: Cursor, rest: string)
    requires doc.List? && Written(doc) && c.Valid() && c == Tagged(c.xml, c.pos, "value")
    requires c.Rest() == Inner(doc, rest)
    ensures match ItemsMeant(doc.items)
            case None => FromXml(c).Thrown?
            case Some(vs) => FromXml(c).Done? && FromXml(c).value == Array(vs)
                             && BehindValue(FromXml(c).cursor, c.xml, rest)
    decreases doc, 2
  {
    hide NextElement, HasContent, FromXml, ArrayItems, InnerItems, ItemsMeant, AllSpace;
    var gap := doc.gap;
    SpaceIsFree(gap);
    var end := gap + T("/value", rest);
    var after := gap + T("/array", end);
    var items := InnerItems(doc.items, gap, after);
    var d := OpensType(c, gap, "array", gap + T("data", items));
    var e := Next(d, gap, "data", items);
    ReadsItemDocs(doc.items, e, [], gap, after);
    FromXmlSteps(c, d);
    assert TypedValue(d) == ArrayValue(d);
    if ItemsMeant(doc.items).Some? {
      var f := Next(ArrayItems(e, []).cursor, gap, "/array", end);
      assert [] + ItemsMeant(doc.items).value == ItemsMeant(doc.items).value;
      Closes(c, d, gap, rest);
    }
  }

  lemma ItemsTurn(c: Cursor, d: Cursor, acc: seq<Value>)
    requires c.Valid() && NextElement(c) == Done(true, d) && d.name == "value" && !d.closing
    ensures var v := FromXml(d);
            ArrayItems(c, acc) == if v.Done? then ArrayItems(v.cursor, acc + [v.value])
                                  else v.PropagateFailure<seq<Value>>()
  {
    hide NextElement, FromXml;
  }

  lemma ItemsEnd(c: Cursor, d: Cursor, acc: seq<Value>)
    requires c.Valid() && NextElement(c) == Done(true, d) && (d.name != "value" || d.closing)
    ensures ArrayItems(c, acc) == Done(acc, d)
  {
    hide NextElement, FromXml;
  }

  lemma {:induction false} ReadsItemDocs(items: seq<Doc>, c: Cursor, acc: seq<Value>, gap: string, rest: string)
    requires (forall i :: 0 <= i < |items| ==> Written(items[i])) && TagFree(gap)
    requires c.Valid() && c.Rest() == InnerItems(items, gap, rest)
    ensures match ItemsMeant(items)
            case None => ArrayItems(c, acc).Thrown?
            case Some(vs) => ArrayItems(c, acc).Done? && ArrayItems(c, acc).value == acc + vs &&
                             EndsBefore(ArrayItems(c, acc).cursor, c.xml, rest) &&
                             ArrayItems(c, acc).cursor.name == "data" && ArrayItems(c, acc).cursor.closing
    decreases items, 4
  {
    hide NextElement, FromXml, ArrayItems, Inner, Meant, Written;
    if items == [] {
      var d := Next(c, gap, "/data", rest);
      ItemsEnd(c, d, acc);
      assert acc + [] == acc;
    } else {
      var more := InnerItems(items[1..], gap, rest);
      var d := Next(c, gap, "value", Inner(items[0], more));
      ReadsDoc(items[0], d, more);
      ItemsTurn(c, d, acc);
      if Meant(items[0]).Some? {
        var v := FromXml(d);
        ReadsItemDocs(items[1..], v.cursor, acc + [v.value], gap, rest);
        if ItemsMeant(items[1..]).Some? {
          var vs := ItemsMeant(items[1..]).value;
          assert acc + ([v.value] + vs) == acc + [v.value] + vs;
        }
      }
    }
  }

  lemma {:induction false} ReadsTable(doc: Doc, c: Cursor, rest: string)
    requires doc.Table? && Written(doc) && c.Valid() && c == Tagged(c.xml, c.pos, "value")
    requires c.Rest() == Inner(doc, rest)
    ensures match EntriesMeant(doc.entries, [])
            case None => FromXml(c).Thrown?
            case Some(ms) => FromXml(c).Done? && FromXml(c).value == Struct(ms)
                             && BehindValue(FromXml(c).cursor, c.xml, rest)
    decreases doc, 2
  {
    hide NextElement, HasContent, FromXml, StructItems, InnerEntries, EntriesMeant, AllSpace;
    var gap := doc.gap;
    SpaceIsFree(gap);
    var end := gap + T("/value", rest);
    var d := OpensType(c, gap, "struct", InnerEntries(doc.entries, gap, end));
    ReadsEntries(doc.entries, d, [], gap, end);
    FromXmlSteps(c, d);
    if EntriesMeant(doc.entries, []).Some? {
      Closes(c, d, gap, rest);
    }
  }

  /** From behind `<member>`: the name, or the exception a blank name causes. */
  lemma ReadsNameText(c: Cursor, gap: string, name: string, rest: string)
    requires c.Valid() && TagFree(gap) && TagFree(name)
    requires c.Rest() == gap + T("name", name + T("/name", gap + T("value", rest)))
    ensures var r := MemberName(c);
            if AllSpace(name) then r.Thrown?
            else r.Done? && r.value == name && EndsBefore(r.cursor, c.xml, rest)
                  && r.cursor == Tagged(c.xml, r.cursor.pos, "value")
  {
    hide NextElement, HasContent, GetContent, AllSpace;
    var value := gap + T("value", rest);
    var d := Next(c, gap, "name", name + T("/name", value));
    var e, f := ReadsInside(d, name, "/name", value);
    var g := Next(f, gap, "value", rest);
  }

  lemma StructEnd(c: Cursor, d: Cursor, acc: seq<Member>)
    requires c.Valid() && NextElement(c) == Done(true, d) && (d.name != "member" || d.closing)
    ensures StructItems(c, acc) == Done(acc, d)
  {
    hide NextElement, FromXml, MemberName;
  }

  lemma {:induction false} ReadsEntries(entries: seq<Entry>, c: Cursor, acc: seq<Member>, gap: string, rest: string)
    requires forall i :: 0 <= i < |entries| ==> TagFree(entries[i].name) && Written(entries[i].doc)
    requires TagFree(gap) && c.Valid() && c.Rest() == InnerEntries(entries, gap, rest)
    ensures match EntriesMeant(entries, acc)
            case None => StructItems(c, acc).Thrown?
            case Some(ms) => StructItems(c, acc).Done? && StructItems(c, acc).value == ms &&
                             EndsBefore(StructItems(c, acc).cursor, c.xml, rest)
    decreases entries, 4
  {
    hide NextElement, FromXml, Inner, Meant, MemberName, HasKey, AllSpace, StructItems, TagFree, Written;
    if entries == [] {
      EndsEntries(c, acc, gap, rest);
    } else {
      var e, more := entries[0], InnerEntries(entries[1..], gap, rest);
      var d := OpensEntry(c, gap, InnerEntry(e, gap, more));
      StructTurn(c, d, acc);
      var closing := gap + T("/member", more);
      ReadsNameText(d, gap, e.name, Inner(e.doc, closing));
      if !AllSpace(e.name) {
        var f := MemberName(d).cursor;
        ReadsDoc(e.doc, f, closing);
        if Meant(e.doc).Some? && !HasKey(acc, e.name) {
          var g := ClosesEntry(FromXml(f).cursor, gap, more);
          ReadsEntries(entries[1..], g, acc + [Member(e.name, Meant(e.doc).value)], gap, rest);
        }
      }
    }
  }

  lemma EndsEntries(c: Cursor, acc: seq<Member>, gap: string, rest: string)
    requires TagFree(gap) && c.Valid() && c.Rest() == gap + T("/struct", rest)
    ensures StructItems(c, acc).Done? && StructItems(c, acc).value == acc
    ensures EndsBefore(StructItems(c, acc).cursor, c.xml, rest)
  {
    hide NextElement, StructItems;
    var d := Next(c, gap, "/struct", rest);
    StructEnd(c, d, acc);
  }

  lemma OpensEntry(c: Cursor, gap: string, rest: string) returns (d: Cursor)
    requires TagFree(gap) && c.Valid() && c.Rest() == gap + T("member", rest)
    ensures NextElement(c) == Done(true, d) && d.name == "member" && !d.closing && EndsBefore(d, c.xml, rest)
  {
    hide NextElement;
    d := Next(c, gap, "member", rest);
  }

  lemma ClosesEntry(c: Cursor, gap: string, rest: string) returns (d: Cursor)
    requires TagFree(gap) && c.Valid() && c.Rest() == gap + T("/member", rest)
    ensures NextElement(c) == Done(true, d) && EndsBefore(d, c.xml, rest)
  {
    hide NextElement;
    d := Next(c, gap, "/member", rest);
  }

  // ----- values without a type, and tags the reader does not know ------------------------------------

  /** Text right in `<value>` is a string.  The element keeps it, and the cursor stays in front of it. */
  lemma ReadsBare(c: Cursor, text: string, rest: string)
    requires c.Valid() && c == Tagged(c.xml, c.pos, "value")
    requires TagFree(text) && !AllSpace(text) && c.Rest() == text + ("<" + rest)
    ensures FromXml(c) == Done(Leaf(KString, DecodeText(text), 0), c.(content := text))
  {
    hide HasContent, GetContent, DecodeText, AllSpace, NextElement, TypedValue, DateTimeValue;
    ReadContent(c, text, rest);
  }

  predicate KnownTag(name: string) {
    LeafTag(name) || name == "dateTime.iso8601" || name == "array" || name == "struct" || name == "base64"
  }

  /** Any other tag gives null, and one more tag is taken, whichever it is: `<value></value>` takes the tag
      behind it. */
  lemma ReadsUnknown(c: Cursor, gap: string, raw: string, more: string, next: string, rest: string)
    requires c.Valid() && c == Tagged(c.xml, c.pos, "value") && AllSpace(gap) && TagFree(more)
    requires TagText(raw) && TagText(next) && !KnownTag(if raw[0] == '/' then raw[1..] else raw)
    requires c.Rest() == gap + T(raw, more + T(next, rest))
    ensures FromXml(c).Done? && FromXml(c).value == Null
    ensures EndsBefore(FromXml(c).cursor, c.xml, rest)
  {
    hide NextElement, HasContent, FromXml, AllSpace, T;
    var d := OpensType(c, gap, raw, more + T(next, rest));
    assert TypedValue(d) == Done(Null, d);
    FromXmlSteps(c, d);
    var e := Next(d, more, next, rest);
  }

  /** On any element but `<value>` the reader gives null and reads nothing. */
  lemma ReadsOnlyValues(c: Cursor, gap: string, raw: string, rest: string) returns (d: Cursor)
    requires c.Valid() && TagFree(gap) && TagText(raw) && c.Rest() == gap + T(raw, rest)
    requires (if raw[0] == '/' then raw[1..] else raw) != "value"
    ensures NextElement(c) == Done(true, d) && EndsBefore(d, c.xml, rest)
    ensures FromXml(d) == Done(Null, d)
  {
    hide NextElement, HasContent;
    d := Next(c, gap, raw, rest);
  }

  /** Base 64 data are never read. */
  lemma ReadsNoBinary(c: Cursor, gap: string, text: string, raw: string, rest: string)
    requires c.Valid() && c == Tagged(c.xml, c.pos, "value") && AllSpace(gap) && TagFree(text) && TagText(raw)
    requires c.Rest() == gap + T("base64", text + T(raw, rest))
    ensures FromXml(c).Thrown? && FromXml(c).cursor.content == if AllSpace(text) then "" else text
  {
    hide NextElement, HasContent, FromXml, GetContent, AllSpace, T;
    var d := OpensType(c, gap, "base64", text + T(raw, rest));
    var e, f := ReadsInside(d, text, raw, rest);
    assert BinaryValue(d) == Thrown(e);
    FromXmlSteps(c, d);
  }

  lemma NoDateInside(d: Cursor, e: Cursor)
    requires d.Valid() && HasContent(d) == Done(true, d) && GetContent(d) == Done(e.content, e)
    requires !ScansDateTime(e.content)
    ensures DateTimeValue(d) == Done(Null, e)
  {
    hide NextElement, HasContent, GetContent, ScansDateTime;
  }

  /** A date that does not scan gives null with the cursor still in front of it. */
  lemma ReadsNoDate(c: Cursor, gap: string, text: string, rest: string) returns (d: Cursor)
    requires c.Valid() && c == Tagged(c.xml, c.pos, "value") && AllSpace(gap)
    requires TagFree(text) && !AllSpace(text) && !ScansDateTime(text)
    requires c.Rest() == gap + T("dateTime.iso8601", text + T("/dateTime.iso8601", rest))
    ensures d.Valid() && d.Rest() == text + T("/dateTime.iso8601", rest)
    ensures FromXml(c) == Done(Null, d.(content := text))
  {
    hide NextElement, HasContent, FromXml, GetContent, AllSpace, ScansDateTime, DateTimeValue, T;
    d := OpensType(c, gap, "dateTime.iso8601", text + T("/dateTime.iso8601", rest));
    DateSteps(c, d);
    var e, f := ReadsInside(d, text, "/dateTime.iso8601", rest);
    NoDateInside(d, e);
  }

  // ----- texts on which the reader throws -------------------------------------------------------------

  /** An array whose next tag is not `<data>`. */
  lemma ArrayNeedsData(c: Cursor, gap: string, raw: string, rest: string)
    requires c.Valid() && c == Tagged(c.xml, c.pos, "value") && AllSpace(gap) && TagText(raw)
    requires (if raw[0] == '/' then raw[1..] else raw) != "data"
    requires c.Rest() == gap + T("array", gap + T(raw, rest))
    ensures FromXml(c).Thrown?
  {
    hide NextElement, HasContent, FromXml, AllSpace, ArrayItems, T;
    SpaceIsFree(gap);
    var d := OpensType(c, gap, "array", gap + T(raw, rest));
    var e := Next(d, gap, raw, rest);
    assert ArrayValue(d).Thrown?;
    FromXmlSteps(c, d);
  }

  /** An array whose values are not followed by `</data>`, */
  lemma ArrayNeedsEnd(c: Cursor, gap: string, raw: string, rest: string)
    requires c.Valid() && c == Tagged(c.xml, c.pos, "value") && AllSpace(gap) && TagText(raw)
    requires raw != "value" && raw != "/data"
    requires c.Rest() == gap + T("array", gap + T("data", gap + T(raw, rest)))
    ensures FromXml(c).Thrown?
  {
    hide NextElement, HasContent, FromXml, AllSpace, ArrayItems, T;
    SpaceIsFree(gap);
    var d := OpensType(c, gap, "array", gap + T("data", gap + T(raw, rest)));
    var e := Next(d, gap, "data", gap + T(raw, rest));
    var f := Next(e, gap, raw, rest);
    ItemsEnd(e, f, []);
    TagName(f, raw);
    assert ArrayValue(d).Thrown?;
    FromXmlSteps(c, d);
  }

  lemma TagName(f: Cursor, raw: string)
    requires TagText(raw) && f == Tagged(f.xml, f.pos, raw)
    ensures f.name == "data" && f.closing ==> raw == "/data"
    ensures f.name == "array" && f.closing ==> raw == "/array"
    ensures f.name == "name" && f.closing ==> raw == "/name"
    ensures f.name == "value" && !f.closing ==> raw == "value"
    ensures f.name == "member" && !f.closing ==> raw == "member"
    ensures f.name == "name" && !f.closing ==> raw == "name"
  {
    assert raw == [raw[0]] + raw[1..];
  }

  /** or these not by `</array>`. */
  lemma ArrayNeedsClosing(c: Cursor, gap: string, raw: string, rest: string)
    requires c.Valid() && c == Tagged(c.xml, c.pos, "value") && AllSpace(gap) && TagText(raw)
    requires raw != "/array"
    requires c.Rest() == gap + T("array", gap + T("data", gap + T("/data", gap + T(raw, rest))))
    ensures FromXml(c).Thrown?
  {
    hide NextElement, HasContent, FromXml, AllSpace, ArrayItems, T;
    SpaceIsFree(gap);
    var d := OpensType(c, gap, "array", gap + T("data", gap + T("/data", gap + T(raw, rest))));
    var e := Next(d, gap, "data", gap + T("/data", gap + T(raw, rest)));
    var f := Next(e, gap, "/data", gap + T(raw, rest));
    ItemsEnd(e, f, []);
    var g := Next(f, gap, raw, rest);
    TagName(g, raw);
    assert ArrayValue(d).Thrown?;
    FromXmlSteps(c, d);
  }

  /** An array with a bare string in front: its `</value>` is taken for the end of the values. */
  lemma ArrayOfBareThrows(c: Cursor, gap: string, text: string, rest: string)
    requires c.Valid() && c == Tagged(c.xml, c.pos, "value") && AllSpace(gap)
    requires TagFree(text) && !AllSpace(text)
    requires c.Rest() == gap + T("array", gap + T("data", gap + T("value", text + T("/value", rest))))
    ensures FromXml(c).Thrown?
  {
    hide NextElement, HasContent, FromXml, AllSpace, ArrayItems, T;
    SpaceIsFree(gap);
    var inner := text + T("/value", rest);
    var d := OpensType(c, gap, "array", gap + T("data", gap + T("value", inner)));
    var e := Next(d, gap, "data", gap + T("value", inner));
    var f := Next(e, gap, "value", inner);
    TagOpened("/value", rest);
    ReadsBare(f, text, "/value" + (">" + rest));
    ItemsTurn(e, f, []);
    var g := Next(f.(content := text), text, "/value", rest);
    ItemsEnd(f.(content := text), g, [FromXml(f).value]);
    assert [] + [FromXml(f).value] == [FromXml(f).value];
    assert ArrayValue(d).Thrown?;
    FromXmlSteps(c, d);
  }

  /** A member that holds a bare string: the tag taken behind it is `</value>`, and `</member>` ends the
      struct. */
  lemma BareMember(d: Cursor, gap: string, name: string, text: string, rest: string)
    requires d.Valid() && TagFree(gap) && TagFree(name) && !AllSpace(name) && TagFree(text) && !AllSpace(text)
    requires d.Rest() == gap + T("member", BareEntry(gap, name, text, rest))
    ensures StructItems(d, []).Done?
    ensures StructItems(d, []).value == [Member(name, Leaf(KString, DecodeText(text), 0))]
    ensures EndsBefore(StructItems(d, []).cursor, d.xml, rest)
  {
    hide NextElement, HasContent, FromXml, AllSpace, StructItems, MemberName, HasKey, DecodeText, T;
    var tail := gap + T("/member", rest);
    var inner := text + T("/value", tail);
    var e := OpensEntry(d, gap, BareEntry(gap, name, text, rest));
    ReadsNameText(e, gap, name, inner);
    var f := MemberName(e).cursor;
    TagOpened("/value", tail);
    ReadsBare(f, text, "/value" + (">" + tail));
    StructTurn(d, e, []);
    var v := Leaf(KString, DecodeText(text), 0);
    BareMemberEnds(f, gap, text, rest, [] + [Member(name, v)]);
    NoKeys(name);
    assert [] + [Member(name, v)] == [Member(name, v)];
  }

  function BareEntry(gap: string, name: string, text: string, rest: string): (t: string) {
    gap + T("name", name + T("/name", gap + T("value", text + T("/value", gap + T("/member", rest)))))
  }

  lemma BareMemberEnds(f: Cursor, gap: string, text: string, rest: string, acc: seq<Member>)
    requires f.Valid() && TagFree(gap) && TagFree(text)
    requires f.Rest() == text + T("/value", gap + T("/member", rest))
    ensures
      var n := NextElement(f.(content := text));
      n.Done? && StructItems(n.cursor, acc).Done? && StructItems(n.cursor, acc).value == acc
      && EndsBefore(StructItems(n.cursor, acc).cursor, f.xml, rest)
  {
    hide NextElement, StructItems, T;
    var g := Next(f.(content := text), text, "/value", gap + T("/member", rest));
    var h := Next(g, gap, "/member", rest);
    StructEnd(g, h, acc);
  }

  /** A struct whose first member holds a bare string ends with that member. */
  lemma StructOfBareEnds(c: Cursor, gap: string, name: string, text: string, next: string, rest: string)
    requires c.Valid() && c == Tagged(c.xml, c.pos, "value") && AllSpace(gap) && TagText(next)
    requires TagFree(name) && !AllSpace(name) && TagFree(text) && !AllSpace(text)
    requires c.Rest() == gap + T("struct", gap + T("member", BareEntry(gap, name, text, gap + T(next, rest))))
    ensures FromXml(c).Done? && FromXml(c).value == Struct([Member(name, Leaf(KString, DecodeText(text), 0))])
    ensures EndsBefore(FromXml(c).cursor, c.xml, rest)
  {
    hide NextElement, HasContent, FromXml, AllSpace, StructItems, DecodeText, T, BareEntry;
    SpaceIsFree(gap);
    var d := OpensType(c, gap, "struct", gap + T("member", BareEntry(gap, name, text, gap + T(next, rest))));
    BareMember(d, gap, name, text, gap + T(next, rest));
    FromXmlSteps(c, d);
    var z := Next(StructItems(d, []).cursor, gap, next, rest);
  }

  lemma TagOpened(raw: string, rest: string)
    ensures T(raw, rest) == "<" + (raw + (">" + rest))
  {
  }

  lemma NoKeys(name: string)
    ensures !HasKey([], name)
  {
  }

  /** A member needs its `<name>`, */
  lemma MemberNeedsName(c: Cursor, gap: string, raw: string, rest: string)
    requires c.Valid() && TagFree(gap) && TagText(raw) && raw != "name" && c.Rest() == gap + T(raw, rest)
    ensures MemberName(c).Thrown?
  {
    hide NextElement, HasContent, GetContent;
    var d := Next(c, gap, raw, rest);
    TagName(d, raw);
  }

  /** the closing tag of the name, */
  lemma MemberNeedsNameEnd(c: Cursor, gap: string, name: string, raw: string, rest: string)
    requires c.Valid() && TagFree(gap) && TagFree(name) && TagText(raw) && raw != "/name"
    requires c.Rest() == gap + T("name", name + T(raw, rest))
    ensures MemberName(c).Thrown?
  {
    hide NextElement, HasContent, GetContent, AllSpace, T;
    var d := Next(c, gap, "name", name + T(raw, rest));
    var e, f := ReadsInside(d, name, raw, rest);
    TagName(f, raw);
  }

  /** and its value. */
  lemma MemberNeedsValue(c: Cursor, gap: string, name: string, raw: string, rest: string)
    requires c.Valid() && TagFree(gap) && TagFree(name) && TagText(raw)
    requires (if raw[0] == '/' then raw[1..] else raw) != "value"
    requires c.Rest() == gap + T("name", name + T("/name", gap + T(raw, rest)))
    ensures MemberName(c).Thrown?
  {
    hide NextElement, HasContent, GetContent, AllSpace, T;
    var d := Next(c, gap, "name", name + T("/name", gap + T(raw, rest)));
    var e, f := ReadsInside(d, name, "/name", gap + T(raw, rest));
    var g := Next(f, gap, raw, rest);
  }

  // ----- dates ----------------------------------------------------------------------------------------

  predicate AllDigits(s: string) {
    forall i :: 0 <= i < |s| ==> IsDigit(s[i])
  }

  lemma {:induction false} RunOfDigits(s: string, pos: nat, run: string, width: int)
    requires AllDigits(run) && |run| <= width && pos + |run| <= |s| && s[pos..pos + |run|] == run
    requires |run| == width || pos + |run| == |s| || !IsDigit(s[pos + |run|])
    ensures DigitRun(s, pos, width) == pos + |run|
    decreases |run|
  {
    if run != "" {
      assert s[pos] == s[pos..pos + |run|][0] == run[0];
      assert s[pos + 1..pos + |run|] == run[1..];
      RunOfDigits(s, pos + 1, run[1..], width - 1);
    }
  }

  /** One `%d` with a width: white space, which does not count, a sign, which does, and as many digits as the
      width leaves. */
  lemma NumberScanned(s: string, pos: nat, width: nat, gap: string, sign: string, digits: string)
    requires AllSpace(gap) && (sign == "" || sign == "+" || sign == "-") && AllDigits(digits)
    requires pos + |gap| + |sign| + |digits| <= |s|
    requires s[pos..pos + |gap| + |sign| + |digits|] == gap + sign + digits
    requires |sign| + |digits| <= width
    requires
      var e := pos + |gap| + |sign| + |digits|;
      |sign| + |digits| == width || e == |s|
      || (!IsDigit(s[e]) && (sign + digits == "" ==> !IsSpace(s[e]) && s[e] != '+' && s[e] != '-'))
    ensures digits != "" ==> ScanNumber(s, pos, width) == pos + |gap| + |sign| + |digits|
    ensures digits == "" && width > 0 ==> ScanNumber(s, pos, width) == -1
  {
    var start := pos + |gap|;
    var run := start + |sign|;
    Pieces(s, pos, gap, sign, digits);
    if sign + digits != "" || start < |s| {
      if digits != "" || sign != "" || width > 0 {
        SkipAcross(s, pos, gap);
      }
    } else {
      assert s[pos..] == gap;
      SpaceToEnd(s, pos);
    }
    RunOfDigits(s, run, digits, width - |sign|);
  }

  lemma Pieces(s: string, pos: nat, gap: string, sign: string, digits: string)
    requires pos + |gap| + |sign| + |digits| <= |s|
    requires s[pos..pos + |gap| + |sign| + |digits|] == gap + sign + digits
    ensures s[pos..pos + |gap|] == gap
    ensures s[pos + |gap| + |sign|..pos + |gap| + |sign| + |digits|] == digits
    ensures sign != "" ==> s[pos + |gap|] == sign[0]
    ensures digits != "" ==> s[pos + |gap| + |sign|] == digits[0]
  {
    var t := s[pos..pos + |gap| + |sign| + |digits|];
    assert t[..|gap|] == gap && t[|gap| + |sign|..] == digits;
    assert sign != "" ==> t[|gap|] == sign[0];
    assert digits != "" ==> t[|gap| + |sign|] == digits[0];
  }

  /** A number of exactly `width` digits. */
  lemma NumberScans(s: string, pos: nat, width: nat)
    requires width > 0 && pos + width <= |s| && AllDigits(s[pos..pos + width])
    ensures ScanNumber(s, pos, width) == pos + width
  {
    var digits := s[pos..pos + width];
    assert "" + "" + digits == digits;
    NumberScanned(s, pos, width, "", "", digits);
  }

  /** The form `formatString` gives dates scans, whatever follows it. */
  lemma DatesScan(s: string)
    requires |s| >= 17 && s[8] == 'T' && s[11] == ':' && s[14] == ':'
    requires AllDigits(s[0..4]) && AllDigits(s[4..6]) && AllDigits(s[6..8])
    requires AllDigits(s[9..11]) && AllDigits(s[12..14]) && AllDigits(s[15..17])
    ensures ScansDateTime(s)
  {
    hide ScanNumber, AllDigits;
    NumberScans(s, 0, 4);
    NumberScans(s, 4, 2);
    NumberScans(s, 6, 2);
    NumberScans(s, 9, 2);
    NumberScans(s, 12, 2);
    NumberScans(s, 15, 2);
  }

  lemma NumberEnds(s: string, pos: int, width: int)
    ensures var e := ScanNumber(s, pos, width); e != -1 ==> 0 <= pos < e && IsDigit(s[e - 1])
  {
    if 0 <= pos <= |s| {
      var start := SkipSpace(s, pos);
      var digits := if start < |s| && (s[start] == '-' || s[start] == '+') then start + 1 else start;
      RunEnds(s, digits, width - (digits - start));
    }
  }

  lemma {:induction false} RunEnds(s: string, pos: nat, width: int)
    requires pos <= |s|
    ensures var e := DigitRun(s, pos, width); e > pos ==> IsDigit(s[e - 1])
    decreases |s| - pos
  {
    if width > 0 && pos < |s| && IsDigit(s[pos]) {
      RunEnds(s, pos + 1, width - 1);
    }
  }

  /** What does not hold a 'T' behind a digit, and behind that two colons each behind a digit, does not scan. */
  lemma ScannedDates(s: string) returns (t: nat, m: nat, n: nat)
    requires ScansDateTime(s)
    ensures 0 < t < m < n < |s| && s[t] == 'T' && s[m] == ':' && s[n] == ':'
    ensures IsDigit(s[t - 1]) && IsDigit(s[m - 1]) && IsDigit(s[n - 1]) && m > t + 1 && n > m + 1 && |s| > n + 1
  {
    hide ScanNumber;
    var year := ScanNumber(s, 0, 4);
    var month := ScanNumber(s, year, 2);
    var day := ScanNumber(s, month, 2);
    var hour := ScanNumber(s, ScanChar(s, day, 'T'), 2);
    var minute := ScanNumber(s, ScanChar(s, hour, ':'), 2);
    NumberEnds(s, month, 2);
    NumberEnds(s, ScanChar(s, day, 'T'), 2);
    NumberEnds(s, ScanChar(s, hour, ':'), 2);
    NumberEnds(s, ScanChar(s, minute, ':'), 2);
    t, m, n := day, hour, minute;
  }

  // ----- literal texts ----------------------------------------------------------------------------------

  /** `<value><i4>t</i4></value>` and the like with any text behind, read from its start. */
  lemma LeafText(tag: string, t: string, rest: string) returns (d: Cursor)
    requires LeafTag(tag) && TagFree(t)
    ensures
      var c := Cursor("<value><" + tag + ">" + t + "</" + tag + "></value>" + rest, 0, "", "", false, false);
      NextElement(c) == Done(true, d) && d.Valid()
      && FromXml(d).Done? && FromXml(d).value == LeafMeant(tag, t) && BehindValue(FromXml(d).cursor, c.xml, rest)
  {
    hide NextElement, FromXml, LeafMeant, T;
    var doc := Typed("", tag, t);
    var s := "<value><" + tag + ">" + t + "</" + tag + "></value>" + rest;
    var c := Cursor(s, 0, "", "", false, false);
    Literal(tag, t, rest);
    assert s[0..] == s == "" + s;
    d := Next(c, "", "value", Inner(doc, rest));
    ReadsTyped(doc, d, rest);
  }

  lemma TagLiteral(raw: string, more: string)
    ensures T(raw, more) == "<" + raw + ">" + more
  {
    assert "<" + (raw + (">" + more)) == "<" + raw + ">" + more;
  }

  lemma Literal(tag: string, t: string, rest: string)
    ensures "<value><" + tag + ">" + t + "</" + tag + "></value>" + rest == T("value", Inner(Typed("", tag, t), rest))
  {
    hide T;
    var open, close := "<" + tag + ">", "<" + ("/" + tag) + ">";
    var end := T("/value", rest);
    EndLiteral(rest);
    TagLiteral("/" + tag, end);
    TagLiteral(tag, t + T("/" + tag, end));
    NoGap(tag, t, rest);
    OpenLiteral(T(tag, t + T("/" + tag, end)));
    LeafLiteral(tag, t, rest);
  }

  lemma EndLiteral(rest: string)
    ensures T("/value", rest) == "</value>" + rest
  {
  }

  lemma OpenLiteral(rest: string)
    ensures T("value", rest) == "<value>" + rest
  {
  }

  lemma NoGap(tag: string, t: string, rest: string)
    ensures Inner(Typed("", tag, t), rest) == T(tag, t + T("/" + tag, T("/value", rest)))
  {
    hide T;
    assert "" + T("/value", rest) == T("/value", rest);
  }

  lemma LeafLiteral(tag: string, t: string, rest: string)
    ensures "<value><" + tag + ">" + t + "</" + tag + "></value>" + rest
         == "<value>" + ("<" + tag + ">" + (t + ("<" + ("/" + tag) + ">" + ("</value>" + rest))))
  {
    assert "<value><" == "<value>" + "<";
    assert "<" + ("/" + tag) + ">" == "</" + tag + ">";
    assert "></value>" == ">" + "</value>";
  }

  // ----- hashes of names ----------------------------------------------------------------------------------

  /** One more character: 33 times the hash, xor the character as a signed number of 32 bits. */
  lemma {:induction false} HashOfMore(s: string, c: char, h: bv32)
    ensures HashFrom(s + [c], h) == HashStep(HashFrom(s, h), c)
    decreases |s|
  {
    hide HashStep;
    if s == "" {
      assert s + [c] == [c] && [c][1..] == "";
      assert HashFrom([c], h) == HashFrom([c][1..], HashStep(h, [c][0]));
    } else {
      assert (s + [c])[1..] == s[1..] + [c];
      HashOfMore(s[1..], c, HashStep(h, s[0]));
    }
  }

  /** The hash is multiplied by 33 and combined with the character, codes from 128 on being negative. */
  lemma HashStepIs(h: bv32, c: char, n: nat)
    requires c as int < 256 && n < 0x1_0000_0000
    requires (n - (if c as int < 128 then c as int else c as int - 256)) % 0x1_0000_0000 == 0
    ensures HashStep(h, c) == XorWide(33 * h, n)
  {
    ShiftedIs(h);
    WideIs(c, n);
    hide Shifted, Wide, XorWide;
  }

  lemma ShiftedIs(h: bv32)
    ensures Shifted(h) == 33 * h
  {
  }

  lemma WideIs(c: char, n: nat)
    requires c as int < 256 && n < 0x1_0000_0000
    requires (n - (if c as int < 128 then c as int else c as int - 256)) % 0x1_0000_0000 == 0
    ensures Wide(c) == n
  {
    assert c as int % 256 == c as int;
  }
}
