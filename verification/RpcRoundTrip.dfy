/** What `FromXml` makes of the text `asXml` prints, for every tree of int, boolean and string
    leaves over arbitrary texts, and exactly when that is the tree itself. */
module RpcRoundTrip {
  import opened CText
  import opened Shared
  import opened XmlEntities
  import opened Xml
  import opened Rpc
  import opened RpcPrinter

  // ----- the printed text, from left to right, with what follows it ------------------------

  /** The tag `raw` followed by `rest`. */
  function T(raw: string, rest: string): (text: string) {
    "<" + (raw + (">" + rest))
  }

  function ValueText(v: Value, rest: string): (text: string)
    requires Built(v)
    decreases v, 1
  {
    T("value", BodyText(v, rest))
  }

  /** The text behind `<value>`. */
  function BodyText(v: Value, rest: string): (text: string)
    requires Built(v)
    decreases v, 0
  {
    match v
    case Leaf(kind, text, num) =>
      T(TagOf(kind), EncodeText(text) + T("/" + TagOf(kind), T("/value", "\n" + rest)))
    case Array(items) =>
      "\n\t" + T("array", "\n\t\t" + T("data", "\n" + ItemsText(items, "\n\t\t" + T("/array", "\n" + T("/value", "\n" + rest)))))
    case Struct(members) =>
      "\n\t" + T("struct", "\n" + MembersText(members, "\n" + T("/value", "\n" + rest)))
  }

  function ItemsText(items: seq<Value>, rest: string): (text: string)
    requires forall i :: 0 <= i < |items| ==> Built(items[i])
    decreases items, 2
  {
    if items == [] then "\t\t" + T("/data", rest) else ValueText(items[0], ItemsText(items[1..], rest))
  }

  function MembersText(members: seq<Member>, rest: string): (text: string)
    requires forall i :: 0 <= i < |members| ==> Built(members[i].value)
    decreases members, 2
  {
    if members == [] then "\t" + T("/struct", rest)
    else
      "\t\t" + T("member", "\n\t\t\t" + T("name", EncodeText(members[0].name) + T("/name", "\n\t\t\t" +
        ValueText(members[0].value, "\t\t" + T("/member", "\n" + MembersText(members[1..], rest))))))
  }

  // ----- what reading it back gives ---------------------------------------------------------

  /** The tree `FromXml` builds from the printed form of `v`, or None when it throws. */
  function Reparse(v: Value): (r: Option<Value>)
    requires Built(v)
    decreases v, 0
  {
    match v
    case Leaf(kind, text, num) => Some(ReparseLeaf(kind, text))
    case Array(items) =>
      (match ReparseItems(items)
       case None => None
       case Some(vs) => Some(Array(vs)))
    case Struct(members) =>
      (match ReparseMembers(members, [])
       case None => None
       case Some(ms) => Some(Struct(ms)))
  }

  function ReparseLeaf(kind: Kind, text: string): (v: Value) {
    var e := EncodeText(text);
    if AllSpace(e) then (if kind == KString then Leaf(KString, "", 0) else Null)
    else if kind == KString then Leaf(KString, DecodeText(e), 0)
    else Leaf(kind, e, NumberOf(kind, e))
  }

  function ReparseItems(items: seq<Value>): (r: Option<seq<Value>>)
    requires forall i :: 0 <= i < |items| ==> Built(items[i])
    decreases items, 1
  {
    if items == [] then Some([])
    else
      match Reparse(items[0])
      case None => None
      case Some(v) =>
        match ReparseItems(items[1..])
        case None => None
        case Some(vs) => Some([v] + vs)
  }

  /** Names come back encoded; a blank name, or one whose hash is taken, throws. */
  function ReparseMembers(members: seq<Member>, acc: seq<Member>): (r: Option<seq<Member>>)
    requires forall i :: 0 <= i < |members| ==> Built(members[i].value)
    decreases members, 1
  {
    if members == [] then Some(acc)
    else
      var name := EncodeText(members[0].name);
      if AllSpace(name) then None
      else
        match Reparse(members[0].value)
        case None => None
        case Some(v) =>
          if HasKey(acc, name) then None else ReparseMembers(members[1..], acc + [Member(name, v)])
  }

  // ----- reading the printed text -----------------------------------------------------------

  /** The cursor right behind the printed value: only its last newline and `rest` are unread. */
  ghost predicate EndsBefore(c: Cursor, xml: string, rest: string) {
    c.xml == xml && c.Valid() && c.Rest() == rest
  }

  /** One tag read from the front of the unread text. */
  lemma Next(c: Cursor, gap: string, raw: string, rest: string) returns (d: Cursor)
    requires c.Valid() && '<' !in gap && '\0' !in gap && TagText(raw)
    requires c.Rest() == gap + T(raw, rest)
    ensures NextElement(c) == Done(true, d)
    ensures EndsBefore(d, c.xml, rest) && d == Tagged(c.xml, d.pos, raw)
  {
    hide NextElement;
    ReadTag(c, gap, raw, rest);
    d := NextElement(c).cursor;
  }

  lemma TagTexts(kind: Kind)
    requires kind == KInt || kind == KBoolean || kind == KString
    ensures TagText(TagOf(kind)) && TagText("/" + TagOf(kind)) && TagOf(kind)[0] != '/'
  {
  }

  /** A leaf, from behind its type tag. */
  lemma ReadsLeaf(c: Cursor, kind: Kind, text: string, rest: string)
    requires kind == KInt || kind == KBoolean || kind == KString
    requires c.Valid() && c.content == "" && !c.closing
    requires c.Rest() == EncodeText(text) + T("/" + TagOf(kind), rest)
    ensures var r := LeafValue(c, kind);
            r.Done? && r.value == ReparseLeaf(kind, text) && EndsBefore(r.cursor, c.xml, rest)
  {
    hide NextElement, HasContent, GetContent, DecodeText, EncodeText, NumberOf, TagOf, AllSpace;
    var e, raw := EncodeText(text), "/" + TagOf(kind);
    TagTexts(kind);
    EncodeClean(text);
    assert '<' !in e && '\0' !in e;
    ReadContent(c, e, raw + (">" + rest));
    var d := Next(if AllSpace(e) then c else c.(content := e), e, raw, rest);
  }

  /** The first two steps of `FromXml` on a printed value, and its last. */
  lemma FromXmlSteps(c: Cursor, d: Cursor)
    requires c.Valid() && d.Valid() && c.name == "value" && d.name != "dateTime.iso8601"
    requires HasContent(c) == Done(false, c) && NextElement(c) == Done(true, d)
    ensures var t := TypedValue(d);
            FromXml(c) == if !t.Done? then t.PropagateFailure<Value>()
                          else var n := NextElement(t.cursor);
                               if n.Done? then Done(t.value, n.cursor) else n.PropagateFailure<Value>()
  {
    hide NextElement, HasContent, GetContent, DecodeText, TypedValue;
  }

  /** `</value>` behind a typed value. */
  lemma ClosesValue(c: Cursor, d: Cursor, gap: string, rest: string)
    requires c.Valid() && d.Valid() && c.name == "value" && d.name != "dateTime.iso8601" && c.xml == d.xml
    requires HasContent(c) == Done(false, c) && NextElement(c) == Done(true, d)
    requires '<' !in gap && '\0' !in gap
    requires TypedValue(d).Done? && EndsBefore(TypedValue(d).cursor, c.xml, gap + T("/value", rest))
    ensures FromXml(c).Done? && FromXml(c).value == TypedValue(d).value && EndsBefore(FromXml(c).cursor, c.xml, rest)
  {
    hide NextElement, HasContent, FromXml, TypedValue;
    FromXmlSteps(c, d);
    var e := Next(TypedValue(d).cursor, gap, "/value", rest);
  }

  lemma {:induction false} ReadsValue(v: Value, c: Cursor, rest: string)
    requires Built(v) && c.Valid() && c == Tagged(c.xml, c.pos, "value")
    requires c.Rest() == BodyText(v, rest)
    ensures match Reparse(v)
            case None => FromXml(c).Thrown?
            case Some(w) => FromXml(c).Done? && FromXml(c).value == w
                            && EndsBefore(FromXml(c).cursor, c.xml, "\n" + rest)
    decreases v, 3
  {
    hide NextElement, HasContent, FromXml, TypedValue;
    match v
    case Leaf(kind, text, num) => ReadsLeafValue(v, c, rest);
    case Array(items) => ReadsArray(v, c, rest);
    case Struct(members) => ReadsStruct(v, c, rest);
  }

  lemma ReadsLeafValue(v: Value, c: Cursor, rest: string)
    requires v.Leaf? && Built(v) && c.Valid() && c == Tagged(c.xml, c.pos, "value")
    requires c.Rest() == BodyText(v, rest)
    ensures FromXml(c).Done? && FromXml(c).value == ReparseLeaf(v.kind, v.text)
          && EndsBefore(FromXml(c).cursor, c.xml, "\n" + rest)
  {
    hide NextElement, HasContent, FromXml, LeafValue, EncodeText, ReparseLeaf;
    var after := T("/value", "\n" + rest);
    var inner := EncodeText(v.text) + T("/" + TagOf(v.kind), after);
    TagTexts(v.kind);
    assert c.Rest() == "" + T(TagOf(v.kind), inner);
    NoContent(c, "", TagOf(v.kind) + (">" + inner));
    var d := Next(c, "", TagOf(v.kind), inner);
    ReadsLeaf(d, v.kind, v.text, after);
    assert TypedValue(d) == LeafValue(d, v.kind);
    assert after == "" + after;
    ClosesValue(c, d, "", "\n" + rest);
  }

  lemma {:induction false} ReadsArray(v: Value, c: Cursor, rest: string)
    requires v.Array? && Built(v) && c.Valid() && c == Tagged(c.xml, c.pos, "value")
    requires c.Rest() == BodyText(v, rest)
    ensures match ReparseItems(v.items)
            case None => FromXml(c).Thrown?
            case Some(vs) => FromXml(c).Done? && FromXml(c).value == Array(vs)
                             && EndsBefore(FromXml(c).cursor, c.xml, "\n" + rest)
    decreases v, 2
  {
    hide NextElement, HasContent, FromXml, ArrayItems, ItemsText, ReparseItems;
    var last := "\n" + T("/value", "\n" + rest);
    var after := "\n\t\t" + T("/array", last);
    var items := ItemsText(v.items, after);
    var data := "\n\t\t" + T("data", "\n" + items);
    NoContent(c, "\n\t", "array" + (">" + data));
    var d := Next(c, "\n\t", "array", data);
    var e := Next(d, "\n\t\t", "data", "\n" + items);
    ReadsItems(v.items, e, [], "\n", after);
    FromXmlSteps(c, d);
    assert TypedValue(d) == ArrayValue(d);
    if ReparseItems(v.items).Some? {
      var f := Next(ArrayItems(e, []).cursor, "\n\t\t", "/array", last);
      assert [] + ReparseItems(v.items).value == ReparseItems(v.items).value;
      ClosesValue(c, d, "\n", "\n" + rest);
    }
  }

  lemma {:induction false} ReadsItems(items: seq<Value>, c: Cursor, acc: seq<Value>, gap: string, rest: string)
    requires forall i :: 0 <= i < |items| ==> Built(items[i])
    requires c.Valid() && '<' !in gap && '\0' !in gap && c.Rest() == gap + ItemsText(items, rest)
    ensures match ReparseItems(items)
            case None => ArrayItems(c, acc).Thrown?
            case Some(vs) => ArrayItems(c, acc).Done? && ArrayItems(c, acc).value == acc + vs &&
                             EndsBefore(ArrayItems(c, acc).cursor, c.xml, rest) &&
                             ArrayItems(c, acc).cursor.name == "data" && ArrayItems(c, acc).cursor.closing
    decreases items, 4
  {
    hide NextElement, FromXml, BodyText, Reparse;
    if items == [] {
      assert gap + ("\t\t" + T("/data", rest)) == gap + "\t\t" + T("/data", rest);
      var d := Next(c, gap + "\t\t", "/data", rest);
    } else {
      var more := ItemsText(items[1..], rest);
      var d := Next(c, gap, "value", BodyText(items[0], more));
      ReadsValue(items[0], d, more);
      if Reparse(items[0]).Some? {
        var e := FromXml(d).cursor;
        ReadsItems(items[1..], e, acc + [FromXml(d).value], "\n", rest);
        assert ArrayItems(c, acc) == ArrayItems(e, acc + [FromXml(d).value]);
        if ReparseItems(items[1..]).Some? {
          assert acc + ([FromXml(d).value] + ReparseItems(items[1..]).value) == acc + [FromXml(d).value] + ReparseItems(items[1..]).value;
        }
      }
    }
  }

  lemma {:induction false} ReadsStruct(v: Value, c: Cursor, rest: string)
    requires v.Struct? && Built(v) && c.Valid() && c == Tagged(c.xml, c.pos, "value")
    requires c.Rest() == BodyText(v, rest)
    ensures match ReparseMembers(v.members, [])
            case None => FromXml(c).Thrown?
            case Some(ms) => FromXml(c).Done? && FromXml(c).value == Struct(ms)
                             && EndsBefore(FromXml(c).cursor, c.xml, "\n" + rest)
    decreases v, 2
  {
    hide NextElement, HasContent, FromXml, StructItems, MembersText, ReparseMembers;
    var last := "\n" + T("/value", "\n" + rest);
    var members := MembersText(v.members, last);
    NoContent(c, "\n\t", "struct" + (">" + ("\n" + members)));
    var d := Next(c, "\n\t", "struct", "\n" + members);
    ReadsMembers(v.members, d, [], "\n", last);
    FromXmlSteps(c, d);
    if ReparseMembers(v.members, []).Some? {
      ClosesValue(c, d, "\n", "\n" + rest);
    }
  }

  /** From behind `<member>`: the name, or the exception a blank name causes. */
  lemma ReadsName(c: Cursor, name: string, rest: string)
    requires c.Valid()
    requires c.Rest() == "\n\t\t\t" + T("name", EncodeText(name) + T("/name", "\n\t\t\t" + T("value", rest)))
    ensures var r := MemberName(c);
            if AllSpace(EncodeText(name)) then r.Thrown?
            else r.Done? && r.value == EncodeText(name) && EndsBefore(r.cursor, c.xml, rest)
                  && r.cursor == Tagged(c.xml, r.cursor.pos, "value")
  {
    hide NextElement, HasContent, GetContent, EncodeText, AllSpace;
    var e := EncodeText(name);
    var value := "\n\t\t\t" + T("value", rest);
    EncodeClean(name);
    assert '<' !in e && '\0' !in e;
    var c1 := Next(c, "\n\t\t\t", "name", e + T("/name", value));
    ReadContent(c1, e, "/name" + (">" + value));
    if !AllSpace(e) {
      var c4 := Next(c1.(content := e), e, "/name", value);
      var c5 := Next(c4, "\n\t\t\t", "value", rest);
    }
  }

  /** One turn of the struct loop. */
  lemma StructTurn(c: Cursor, d: Cursor, acc: seq<Member>)
    requires c.Valid() && NextElement(c) == Done(true, d) && d.name == "member" && !d.closing
    ensures var n := MemberName(d);
            if !n.Done? then StructItems(c, acc) == n.PropagateFailure<seq<Member>>()
            else var v := FromXml(n.cursor);
                 if !v.Done? then StructItems(c, acc) == v.PropagateFailure<seq<Member>>()
                 else if HasKey(acc, n.value) then StructItems(c, acc).Thrown?
                 else var f := NextElement(v.cursor);
                      f.Done? ==> StructItems(c, acc) == StructItems(f.cursor, acc + [Member(n.value, v.value)])
  {
    hide NextElement, FromXml, MemberName, HasKey;
  }

  /** The text of one member, from behind its `<member>` tag to the end of the list. */
  function MemberInner(m: Member, more: string): (text: string)
    requires Built(m.value)
  {
    "\n\t\t\t" + T("name", EncodeText(m.name) + T("/name", "\n\t\t\t" + T("value", BodyText(m.value, "\t\t" + T("/member", "\n" + more)))))
  }

  lemma MembersFirst(members: seq<Member>, rest: string)
    requires members != [] && forall i :: 0 <= i < |members| ==> Built(members[i].value)
    ensures MembersText(members, rest) == "\t\t" + T("member", MemberInner(members[0], MembersText(members[1..], rest)))
  {
    hide BodyText, EncodeText;
  }

  lemma Assoc(a: string, b: string, c: string)
    ensures a + (b + c) == a + b + c
  {
  }

  /** Reading the `<member>` tag of the first member. */
  lemma OpensMember(members: seq<Member>, c: Cursor, gap: string, rest: string) returns (d: Cursor)
    requires members != [] && forall i :: 0 <= i < |members| ==> Built(members[i].value)
    requires c.Valid() && '<' !in gap && '\0' !in gap && c.Rest() == gap + MembersText(members, rest)
    ensures NextElement(c) == Done(true, d) && d.name == "member" && !d.closing
    ensures EndsBefore(d, c.xml, MemberInner(members[0], MembersText(members[1..], rest)))
  {
    hide BodyText, EncodeText, NextElement, T, MemberInner, MembersText;
    var inner := MemberInner(members[0], MembersText(members[1..], rest));
    MembersFirst(members, rest);
    Assoc(gap, "\t\t", T("member", inner));
    d := Next(c, gap + "\t\t", "member", inner);
  }

  /** And its `</member>` tag. */
  lemma ClosesMember(c: Cursor, more: string) returns (f: Cursor)
    requires c.Valid() && c.Rest() == "\n" + ("\t\t" + T("/member", "\n" + more))
    ensures NextElement(c) == Done(true, f) && EndsBefore(f, c.xml, "\n" + more)
  {
    hide NextElement;
    assert "\n" + ("\t\t" + T("/member", "\n" + more)) == "\n\t\t" + T("/member", "\n" + more);
    f := Next(c, "\n\t\t", "/member", "\n" + more);
  }

  lemma {:induction false} ReadsMembers(members: seq<Member>, c: Cursor, acc: seq<Member>, gap: string, rest: string)
    requires forall i :: 0 <= i < |members| ==> Built(members[i].value)
    requires c.Valid() && '<' !in gap && '\0' !in gap && c.Rest() == gap + MembersText(members, rest)
    ensures match ReparseMembers(members, acc)
            case None => StructItems(c, acc).Thrown?
            case Some(ms) => StructItems(c, acc).Done? && StructItems(c, acc).value == ms &&
                             EndsBefore(StructItems(c, acc).cursor, c.xml, rest)
    decreases members, 4
  {
    hide NextElement, FromXml, BodyText, Reparse, MemberName, HasKey, EncodeText, AllSpace, StructItems, MembersText, T;
    if members == [] {
      MembersEnd(c, acc, gap, rest);
    } else {
      var m, more := members[0], MembersText(members[1..], rest);
      var d := OpensMember(members, c, gap, rest);
      StructTurn(c, d, acc);
      var closing := "\t\t" + T("/member", "\n" + more);
      ReadsName(d, m.name, BodyText(m.value, closing));
      var name := EncodeText(m.name);
      if !AllSpace(name) {
        var e := MemberName(d).cursor;
        ReadsValue(m.value, e, closing);
        if Reparse(m.value).Some? && !HasKey(acc, name) {
          var f := ClosesMember(FromXml(e).cursor, more);
          ReadsMembers(members[1..], f, acc + [Member(name, Reparse(m.value).value)], "\n", rest);
        }
      }
    }
  }

  lemma MembersEnd(c: Cursor, acc: seq<Member>, gap: string, rest: string)
    requires c.Valid() && '<' !in gap && '\0' !in gap && c.Rest() == gap + MembersText([], rest)
    ensures StructItems(c, acc).Done? && StructItems(c, acc).value == acc
          && EndsBefore(StructItems(c, acc).cursor, c.xml, rest)
  {
    hide NextElement, FromXml, MemberName;
    assert gap + ("\t" + T("/struct", rest)) == gap + "\t" + T("/struct", rest);
    var d := Next(c, gap + "\t", "/struct", rest);
  }

  // ----- the printed text is what `asXml` prints ----------------------------------------------

  lemma TagLiterals(tag: string, x: string)
    ensures T("value", "<" + x) == "<value><" + x
    ensures T("/value", "\n" + x) == "</value>\n" + x
    ensures T("/" + tag, x) == "</" + tag + (">" + x)
    ensures T(tag, x) == "<" + (tag + ">" + x)
  {
  }

  lemma PrintedLeaf(v: Value, rest: string)
    requires v.Leaf? && Built(v)
    ensures Print(v) + rest == ValueText(v, rest)
  {
    hide EncodeText, T, TagOf;
    var tag, e := TagOf(v.kind), EncodeText(v.text);
    var x := T("/" + tag, T("/value", "\n" + rest));
    TagLiterals(tag, rest);
    TagLiterals(tag, "</value>\n" + rest);
    assert x == "</" + tag + "></value>\n" + rest;
    TagLiterals(tag, e + x);
    TagLiterals(tag, tag + ">" + (e + x));
    assert ValueText(v, rest) == "<value><" + (tag + ">" + (e + x));
  }

  lemma ArrayLiterals(items: string, rest: string)
    ensures "<value>\n\t<array>\n\t\t<data>\n" + items == T("value", "\n\t" + T("array", "\n\t\t" + T("data", "\n" + items)))
    ensures "\t\t</data>\n\t\t</array>\n</value>\n" + rest == "\t\t" + T("/data", "\n\t\t" + T("/array", "\n" + T("/value", "\n" + rest)))
  {
  }

  lemma StructLiterals(members: string, rest: string)
    ensures "<value>\n\t<struct>\n" + members == T("value", "\n\t" + T("struct", "\n" + members))
    ensures "\t</struct>\n</value>\n" + rest == "\t" + T("/struct", "\n" + T("/value", "\n" + rest))
  {
  }

  lemma MemberLiterals(name: string, rest: string)
    ensures "\t\t<member>\n\t\t\t<name>" + name == "\t\t" + T("member", "\n\t\t\t" + T("name", name))
    ensures "</name>\n\t\t\t" + rest == T("/name", "\n\t\t\t" + rest)
    ensures "\t\t</member>\n" + rest == "\t\t" + T("/member", "\n" + rest)
  {
  }

  /** The text read from left to right is what `asXml` prints, followed by `rest`. */
  lemma {:induction false} Printed(v: Value, rest: string)
    requires Built(v)
    ensures Print(v) + rest == ValueText(v, rest)
    decreases v, 3
  {
    match v
    case Leaf(kind, text, num) => PrintedLeaf(v, rest);
    case Array(items) => PrintedArray(v, rest);
    case Struct(members) => PrintedStruct(v, rest);
  }

  lemma {:induction false} PrintedArray(v: Value, rest: string)
    requires v.Array? && Built(v)
    ensures Print(v) + rest == ValueText(v, rest)
    decreases v, 2
  {
    hide T, PrintItems, ItemsText;
    var last := "\n\t\t" + T("/array", "\n" + T("/value", "\n" + rest));
    PrintedItems(v.items, last);
    ArrayLiterals(ItemsText(v.items, last), rest);
    var end := "\t\t</data>\n\t\t</array>\n</value>\n";
    var head := "<value>\n\t<array>\n\t\t<data>\n";
    assert head + PrintItems(v.items) + end + rest == head + (PrintItems(v.items) + (end + rest));
  }

  lemma {:induction false} PrintedItems(items: seq<Value>, rest: string)
    requires forall i :: 0 <= i < |items| ==> Built(items[i])
    ensures PrintItems(items) + ("\t\t" + T("/data", rest)) == ItemsText(items, rest)
    decreases items, 4
  {
    hide T, Print, ValueText;
    var end := "\t\t" + T("/data", rest);
    if items == [] {
      assert PrintItems(items) == "";
      assert "" + end == end;
    } else {
      PrintedItems(items[1..], rest);
      Printed(items[0], ItemsText(items[1..], rest));
      Assoc(Print(items[0]), PrintItems(items[1..]), end);
    }
  }

  lemma {:induction false} PrintedStruct(v: Value, rest: string)
    requires v.Struct? && Built(v)
    ensures Print(v) + rest == ValueText(v, rest)
    decreases v, 2
  {
    hide T, PrintMembers, MembersText;
    var last := "\n" + T("/value", "\n" + rest);
    PrintedMembers(v.members, last);
    StructLiterals(MembersText(v.members, last), rest);
    var end := "\t</struct>\n</value>\n";
    var head := "<value>\n\t<struct>\n";
    assert head + PrintMembers(v.members) + end + rest == head + (PrintMembers(v.members) + (end + rest));
  }

  lemma {:induction false} PrintedMembers(members: seq<Member>, rest: string)
    requires forall i :: 0 <= i < |members| ==> Built(members[i].value)
    ensures PrintMembers(members) + ("\t" + T("/struct", rest)) == MembersText(members, rest)
    decreases members, 4
  {
    hide T, Print, ValueText, PrintMember, EncodeText, MemberInner;
    var end := "\t" + T("/struct", rest);
    if members == [] {
      assert PrintMembers(members) == "";
      assert "" + end == end;
    } else {
      PrintedMembers(members[1..], rest);
      PrintedMember(members[0], MembersText(members[1..], rest));
      MembersFirst(members, rest);
      Assoc(PrintMember(members[0]), PrintMembers(members[1..]), end);
    }
  }

  lemma {:induction false} PrintedMember(m: Member, more: string)
    requires Built(m.value)
    ensures PrintMember(m) + more == "\t\t" + T("member", MemberInner(m, more))
    decreases m.value, 4
  {
    hide T, Print, EncodeText, BodyText;
    var name, text := EncodeText(m.name), Print(m.value);
    var closing := "\t\t" + T("/member", "\n" + more);
    Printed(m.value, closing);
    MemberLiterals(name, more);
    var tail := "</name>\n\t\t\t" + (text + closing);
    MemberLiterals(name + tail, text + closing);
    var head := "\t\t<member>\n\t\t\t<name>";
    assert PrintMember(m) + more == head + (name + ("</name>\n\t\t\t" + (text + ("\t\t</member>\n" + more))));
  }
}
