/** `FromXml` and the parser constructors as they run: one shared parser object, whose single
    element every call overwrites, driven by loops.  Each method leaves the parser in the state,
    and gives the outcome, that the functions of module Rpc name. */
module RpcReader {
  import opened XmlEntities
  import opened Xml
  import opened Rpc

  method ReadLeaf(parser: Parser, kind: Kind) returns (r: Outcome<Value>)
    requires parser.State().Valid()
    modifies parser
    ensures Agrees(r, parser.State(), LeafValue(old(parser.State()), kind))
  {
    hide NextElement, HasContent, GetContent, DecodeText;
    var value := if kind == KString then Leaf(kind, "", 0) else Null;
    var has :- parser.DoHasContent();
    if has {
      var text :- parser.DoGetContent();
      if kind == KString {
        var decoded := Decode(text);
        value := Leaf(kind, decoded, 0);
      } else {
        value := Leaf(kind, text, NumberOf(kind, text));
      }
    }
    var _ :- parser.GetNextElement();
    return Returned(value);
  }

  method ReadDateTime(parser: Parser) returns (r: Outcome<Value>)
    requires parser.State().Valid()
    modifies parser
    ensures Agrees(r, parser.State(), DateTimeValue(old(parser.State())))
  {
    hide NextElement, HasContent, GetContent, ScansDateTime;
    var value := Null;
    var has :- parser.DoHasContent();
    if has {
      var text :- parser.DoGetContent();
      if !ScansDateTime(text) {
        return Returned(Null);
      }
      value := Leaf(KDateTime, text, 0);
    }
    var _ :- parser.GetNextElement();
    var _ :- parser.GetNextElement();
    return Returned(value);
  }

  method ReadBinary(parser: Parser) returns (r: Outcome<Value>)
    requires parser.State().Valid()
    modifies parser
    ensures Agrees(r, parser.State(), BinaryValue(old(parser.State())))
  {
    hide HasContent, GetContent;
    var has :- parser.DoHasContent();
    if !has {
      return Raised;
    }
    var text :- parser.DoGetContent();
    if parser.name != "base64" || !parser.closing {
      return Raised;
    }
    return Returned(Null);
  }

  method ReadValue(parser: Parser) returns (r: Outcome<Value>)
    requires parser.State().Valid()
    modifies parser
    ensures Agrees(r, parser.State(), FromXml(old(parser.State())))
    decreases parser.State().Left(), 0
  {
    hide NextElement, HasContent, GetContent, DecodeText, TypedValue, DateTimeValue;
    if parser.name != "value" {
      return Returned(Null);
    }
    var has :- parser.DoHasContent();
    if has {
      var text :- parser.DoGetContent();
      var decoded := Decode(text);
      return Returned(Leaf(KString, decoded, 0));
    }
    var some :- parser.GetNextElement();
    if !some {
      return Raised;
    }
    if parser.name == "dateTime.iso8601" {
      r := ReadDateTime(parser);
      return;
    }
    var value :- ReadTyped(parser);
    var _ :- parser.GetNextElement();
    return Returned(value);
  }

  method ReadTyped(parser: Parser) returns (r: Outcome<Value>)
    requires parser.State().Valid()
    modifies parser
    ensures Agrees(r, parser.State(), TypedValue(old(parser.State())))
    decreases parser.State().Left(), 1
  {
    hide LeafValue, ArrayValue, StructItems, BinaryValue;
    if parser.name == "string" {
      r := ReadLeaf(parser, KString);
    } else if parser.name == "int" || parser.name == "i4" {
      r := ReadLeaf(parser, KInt);
    } else if parser.name == "double" {
      r := ReadLeaf(parser, KDouble);
    } else if parser.name == "boolean" {
      r := ReadLeaf(parser, KBoolean);
    } else if parser.name == "array" {
      r := ReadArray(parser);
    } else if parser.name == "struct" {
      r := ReadStruct(parser);
    } else if parser.name == "base64" {
      r := ReadBinary(parser);
    } else {
      r := Returned(Null);
    }
  }

  method ReadArray(parser: Parser) returns (r: Outcome<Value>)
    requires parser.State().Valid()
    modifies parser
    ensures Agrees(r, parser.State(), ArrayValue(old(parser.State())))
    decreases parser.State().Left(), 0
  {
    hide NextElement, ArrayItems;
    var some :- parser.GetNextElement();
    if !some || parser.name != "data" {
      return Raised;
    }
    var items :- ReadItems(parser);
    if parser.name != "data" || !parser.closing {
      return Raised;
    }
    some :- parser.GetNextElement();
    if !some || parser.name != "array" || !parser.closing {
      return Raised;
    }
    return Returned(Array(items));
  }

  method ReadItems(parser: Parser) returns (r: Outcome<seq<Value>>)
    requires parser.State().Valid()
    modifies parser
    ensures Agrees(r, parser.State(), ArrayItems(old(parser.State()), []))
    decreases parser.State().Left(), 0
  {
    hide NextElement, FromXml;
    ghost var start := parser.State();
    var items: seq<Value> := [];
    while true
      invariant parser.State().Valid() && parser.State().Left() <= start.Left()
      invariant ArrayItems(parser.State(), items) == ArrayItems(start, [])
      decreases parser.State().Left()
    {
      var some :- parser.GetNextElement();
      if !(some && parser.name == "value" && !parser.closing) {
        return Returned(items);
      }
      var v :- ReadValue(parser);
      items := items + [v];
    }
  }

  method ReadStruct(parser: Parser) returns (r: Outcome<Value>)
    requires parser.State().Valid()
    modifies parser
    ensures Agrees(r, parser.State(),
                   var run := StructItems(old(parser.State()), []);
                   if run.Done? then Done(Struct(run.value), run.cursor) else run.PropagateFailure<Value>())
    decreases parser.State().Left(), 0
  {
    hide NextElement, FromXml, MemberName, HasKey;
    ghost var start := parser.State();
    var members: seq<Member> := [];
    while true
      invariant parser.State().Valid() && parser.State().Left() <= start.Left()
      invariant StructItems(parser.State(), members) == StructItems(start, [])
      decreases parser.State().Left()
    {
      var some :- parser.GetNextElement();
      if !(some && parser.name == "member" && !parser.closing) {
        return Returned(Struct(members));
      }
      var name :- ReadMemberName(parser);
      var v :- ReadValue(parser);
      if HasKey(members, name) {
        return Raised;
      }
      members := members + [Member(name, v)];
      some :- parser.GetNextElement();
    }
  }

  method ReadMemberName(parser: Parser) returns (r: Outcome<string>)
    requires parser.State().Valid()
    modifies parser
    ensures Agrees(r, parser.State(), MemberName(old(parser.State())))
  {
    hide NextElement, HasContent, GetContent;
    var some :- parser.GetNextElement();
    if !some || parser.name != "name" || parser.closing {
      return Raised;
    }
    var has :- parser.DoHasContent();
    if !has {
      return Raised;
    }
    var name :- parser.DoGetContent();
    some :- parser.GetNextElement();
    if !some || parser.name != "name" || !parser.closing {
      return Raised;
    }
    some :- parser.GetNextElement();
    if !some || parser.name != "value" {
      return Raised;
    }
    return Returned(name);
  }
}
