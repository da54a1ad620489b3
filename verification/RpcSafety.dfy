/** On which texts the reader returns or throws.  Termination is no question here: `FromXml` and
    the constructors are functions of every cursor.  What remains is the one tag that takes the
    parser out of defined behaviour, `<?>`. */
module RpcSafety {
  import opened CText
  import opened Xml
  import opened Rpc

  /** The next tag of the text is exactly `<?>`. */
  predicate OddTagNext(c: Cursor)
    requires c.Valid()
  {
    var open := Find(c.xml, '<', c.pos);
    0 <= open && Find(c.xml, '>', open + 1) == open + 2 && c.xml[open + 1] == '?'
  }

  lemma TakeTagDefined(c: Cursor, raw: string)
    requires raw != ""
    ensures TakeTag(c, raw) == Undefined <==> raw == "?"
  {
  }

  lemma ParseDefined(c: Cursor)
    requires c.Valid() && c.name == ""
    ensures ParseElement(c) == Undefined <==> Find(c.xml, '>', c.pos) == c.pos + 1 && c.xml[c.pos] == '?'
  {
    hide TakeTag, SplitAttributes;
    var close := Find(c.xml, '>', c.pos);
    if close >= 0 {
      var raw := Mid(c.xml, c.pos, close - c.pos);
      TakeTagDefined(c.(pos := close + 1, name := raw), raw);
      if close > c.pos {
        assert raw[0] == c.xml[c.pos] && |raw| == close - c.pos;
      } else {
        assert raw[0] == '>';
      }
    }
  }

  /** `getNextElement` returns or throws if and only if that tag is not next. */
  lemma NextElementDefined(c: Cursor)
    requires c.Valid()
    ensures NextElement(c) == Undefined <==> OddTagNext(c)
  {
    hide ParseElement;
    var open := Find(c.xml, '<', c.pos);
    if c.pos < |c.xml| && open >= 0 {
      ParseDefined(c.(name := "", content := "", pos := open + 1));
    }
  }

  /** No `<?>` anywhere in the unread text. */
  predicate Plain(c: Cursor) {
    forall i :: c.pos <= i < |c.xml| - 2 ==> !(c.xml[i] == '<' && c.xml[i + 1] == '?' && c.xml[i + 2] == '>')
  }

  lemma OddNotPlain(c: Cursor)
    requires c.Valid()
    ensures OddTagNext(c) ==> !Plain(c)
  {
    var i := Find(c.xml, '<', c.pos);
    assert OddTagNext(c) ==> c.xml[i] == '<' && c.xml[i + 1] == '?' && c.xml[i + 2] == '>';
  }

  lemma NextStays(c: Cursor)
    requires c.Valid() && Plain(c)
    ensures NextElement(c) != Undefined
    ensures NextElement(c).Done? ==> Plain(NextElement(c).cursor)
  {
    hide SplitAttributes, TakeTag;
    NextElementDefined(c);
    OddNotPlain(c);
  }

  lemma ContentStays(c: Cursor)
    requires c.Valid()
    ensures HasContent(c) != Undefined && GetContent(c) != Undefined
    ensures Plain(c) && GetContent(c).Done? ==> Plain(GetContent(c).cursor)
  {
  }

  lemma LeafStays(c: Cursor, kind: Kind)
    requires c.Valid() && Plain(c)
    ensures LeafValue(c, kind) != Undefined
    ensures LeafValue(c, kind).Done? ==> Plain(LeafValue(c, kind).cursor)
  {
    hide NextElement, HasContent, GetContent, Plain;
    ContentStays(c);
    NextStays(c);
    if GetContent(c).Done? {
      NextStays(GetContent(c).cursor);
    }
  }

  lemma DateTimeStays(c: Cursor)
    requires c.Valid() && Plain(c)
    ensures DateTimeValue(c) != Undefined
    ensures DateTimeValue(c).Done? ==> Plain(DateTimeValue(c).cursor)
  {
    hide NextElement, HasContent, GetContent, Plain, ScansDateTime;
    ContentStays(c);
    var d := if GetContent(c).Done? && HasContent(c).Done? && HasContent(c).value then GetContent(c).cursor else c;
    NextStays(d);
    if NextElement(d).Done? {
      NextStays(NextElement(d).cursor);
    }
  }

  lemma BinaryStays(c: Cursor)
    requires c.Valid() && Plain(c)
    ensures BinaryValue(c) != Undefined
    ensures BinaryValue(c).Done? ==> Plain(BinaryValue(c).cursor) && BinaryValue(c).cursor.Valid()
  {
    hide HasContent, GetContent, Plain;
    ContentStays(c);
  }

  lemma NameStays(c: Cursor)
    requires c.Valid() && Plain(c)
    ensures MemberName(c) != Undefined
    ensures MemberName(c).Done? ==> Plain(MemberName(c).cursor)
  {
    hide NextElement, HasContent, GetContent, Plain;
    NextStays(c);
    if NextElement(c).Done? {
      var d := NextElement(c).cursor;
      ContentStays(d);
      if GetContent(d).Done? {
        var e := GetContent(d).cursor;
        NextStays(e);
        if NextElement(e).Done? {
          NextStays(NextElement(e).cursor);
        }
      }
    }
  }

  /** On every text without `<?>`, well-formed or not, `FromXml` returns or throws. */
  lemma {:induction false} FromXmlDefined(c: Cursor)
    requires c.Valid() && Plain(c)
    ensures FromXml(c) != Undefined
    ensures FromXml(c).Done? ==> Plain(FromXml(c).cursor)
    decreases c.Left(), 0
  {
    hide NextElement, HasContent, GetContent, Plain, TypedValue, DateTimeValue;
    ContentStays(c);
    NextStays(c);
    if NextElement(c).Done? && NextElement(c).value {
      var d := NextElement(c).cursor;
      DateTimeStays(d);
      TypedDefined(d);
      if TypedValue(d).Done? {
        NextStays(TypedValue(d).cursor);
      }
    }
  }

  lemma {:induction false} TypedDefined(c: Cursor)
    requires c.Valid() && Plain(c)
    ensures TypedValue(c) != Undefined
    ensures TypedValue(c).Done? ==> Plain(TypedValue(c).cursor)
    decreases c.Left(), 2
  {
    hide LeafValue, ArrayValue, StructItems, BinaryValue, Plain;
    LeafStays(c, KString);
    LeafStays(c, KInt);
    LeafStays(c, KDouble);
    LeafStays(c, KBoolean);
    BinaryStays(c);
    ArrayDefined(c);
    MembersDefined(c, []);
  }

  lemma {:induction false} ArrayDefined(c: Cursor)
    requires c.Valid() && Plain(c)
    ensures ArrayValue(c) != Undefined
    ensures ArrayValue(c).Done? ==> Plain(ArrayValue(c).cursor)
    decreases c.Left(), 1
  {
    hide NextElement, Plain, ArrayItems;
    NextStays(c);
    if NextElement(c).Done? && NextElement(c).value {
      var d := NextElement(c).cursor;
      ItemsDefined(d, []);
      if ArrayItems(d, []).Done? {
        NextStays(ArrayItems(d, []).cursor);
      }
    }
  }

  lemma {:induction false} ItemsDefined(c: Cursor, acc: seq<Value>)
    requires c.Valid() && Plain(c)
    ensures ArrayItems(c, acc) != Undefined
    ensures ArrayItems(c, acc).Done? ==> Plain(ArrayItems(c, acc).cursor)
    decreases c.Left(), 0
  {
    hide NextElement, Plain, FromXml;
    NextStays(c);
    if NextElement(c).Done? && NextElement(c).value {
      var d := NextElement(c).cursor;
      FromXmlDefined(d);
      if FromXml(d).Done? {
        ItemsDefined(FromXml(d).cursor, acc + [FromXml(d).value]);
      }
    }
  }

  lemma {:induction false} MembersDefined(c: Cursor, acc: seq<Member>)
    requires c.Valid() && Plain(c)
    ensures StructItems(c, acc) != Undefined
    ensures StructItems(c, acc).Done? ==> Plain(StructItems(c, acc).cursor)
    decreases c.Left(), 0
  {
    hide NextElement, Plain, FromXml, MemberName, HasKey;
    NextStays(c);
    if NextElement(c).Done? && NextElement(c).value {
      var d := NextElement(c).cursor;
      NameStays(d);
      if MemberName(d).Done? {
        var e := MemberName(d).cursor;
        FromXmlDefined(e);
        if FromXml(e).Done? {
          NextStays(FromXml(e).cursor);
          if NextElement(FromXml(e).cursor).Done? {
            MembersDefined(NextElement(FromXml(e).cursor).cursor, acc + [Member(MemberName(d).value, FromXml(e).value)]);
          }
        }
      }
    }
  }

  /** The tag that is left out: inside a value it takes `FromXml` out of defined behaviour. */
  lemma FromXmlUndefined(c: Cursor)
    requires c.Valid() && c.name == "value" && HasContent(c) == Done(false, c) && OddTagNext(c)
    ensures FromXml(c) == Undefined
  {
    hide NextElement, HasContent, OddTagNext, TypedValue, DateTimeValue;
    NextElementDefined(c);
  }

  /** Such a text. */
  lemma OddTagLeaves()
    ensures FromXml(Cursor("<?>", 0, "value", "", false, false)) == Undefined
  {
    var c := Cursor("<?>", 0, "value", "", false, false);
    assert Find(c.xml, '<', 0) == 0;
    assert Find(c.xml, '>', 1) == 2;
    assert HasContent(c) == Done(false, c);
    hide FromXml, HasContent;
    FromXmlUndefined(c);
  }
}
