/** `asXml`: the text of a value, and the methods that build it in a string. */
module RpcPrinter {
  import opened XmlEntities
  import opened Rpc

  /** Trees that can be printed here: int, boolean and string leaves, no null pointer. */
  predicate Built(v: Value) {
    match v
    case Null => false
    case Leaf(kind, text, num) => kind == KInt || kind == KBoolean || kind == KString
    case Array(items) => forall i :: 0 <= i < |items| ==> Built(items[i])
    case Struct(members) => forall i :: 0 <= i < |members| ==> Built(members[i].value)
  }

  function TagOf(kind: Kind): (text: string) {
    match kind
    case KBoolean => "boolean"
    case KInt => "int"
    case KString => "string"
    case KDouble => "double"
    case KDateTime => "dateTime.iso8601"
  }

  function Print(v: Value): (text: string)
    requires Built(v)
  {
    match v
    case Leaf(kind, text, num) =>
      "<value><" + TagOf(kind) + ">" + EncodeText(text) + "</" + TagOf(kind) + "></value>\n"
    case Array(items) => "<value>\n\t<array>\n\t\t<data>\n" + PrintItems(items) + "\t\t</data>\n\t\t</array>\n</value>\n"
    case Struct(members) => "<value>\n\t<struct>\n" + PrintMembers(members) + "\t</struct>\n</value>\n"
  }

  function PrintItems(items: seq<Value>): (text: string)
    requires forall i :: 0 <= i < |items| ==> Built(items[i])
  {
    if items == [] then "" else Print(items[0]) + PrintItems(items[1..])
  }

  function PrintMember(m: Member): (text: string)
    requires Built(m.value)
  {
    "\t\t<member>\n\t\t\t<name>" + EncodeText(m.name) + "</name>\n\t\t\t" + Print(m.value) + "\t\t</member>\n"
  }

  function PrintMembers(members: seq<Member>): (text: string)
    requires forall i :: 0 <= i < |members| ==> Built(members[i].value)
  {
    if members == [] then "" else PrintMember(members[0]) + PrintMembers(members[1..])
  }

  method AsXml(v: Value) returns (xml: string)
    requires Built(v)
    ensures xml == Print(v)
    decreases v, 2
  {
    hide EncodeText;
    xml := "";
    match v
    case Leaf(kind, text, num) =>
      var encoded := Encode(text);
      xml := "<value><";
      xml := xml + TagOf(kind);
      xml := xml + ">";
      xml := xml + encoded;
      xml := xml + "</";
      xml := xml + TagOf(kind);
      xml := xml + "></value>\n";
    case Array(items) =>
      xml := "<value>\n\t<array>\n\t\t<data>\n";
      xml := AppendItems(xml, v);
      xml := xml + "\t\t</data>\n\t\t</array>\n</value>\n";
    case Struct(members) =>
      xml := "<value>\n\t<struct>\n";
      xml := AppendMembers(xml, v);
      xml := xml + "\t</struct>\n</value>\n";
  }

  method AppendItems(before: string, v: Value) returns (xml: string)
    requires v.Array? && Built(v)
    ensures xml == before + PrintItems(v.items)
    decreases v, 1
  {
    hide Print;
    xml := before;
    var i := 0;
    while i < |v.items|
      invariant 0 <= i <= |v.items|
      invariant xml + PrintItems(v.items[i..]) == before + PrintItems(v.items)
    {
      var text := AsXml(v.items[i]);
      assert v.items[i..][1..] == v.items[i + 1..];
      assert xml + (text + PrintItems(v.items[i + 1..])) == (xml + text) + PrintItems(v.items[i + 1..]);
      xml := xml + text;
      i := i + 1;
    }
  }

  method AppendMembers(before: string, v: Value) returns (xml: string)
    requires v.Struct? && Built(v)
    ensures xml == before + PrintMembers(v.members)
    decreases v, 1
  {
    hide Print, PrintMember, EncodeText;
    xml := before;
    var i := 0;
    while i < |v.members|
      invariant 0 <= i <= |v.members|
      invariant xml + PrintMembers(v.members[i..]) == before + PrintMembers(v.members)
    {
      var text := OneMember(v.members[i]);
      assert v.members[i..][1..] == v.members[i + 1..];
      assert xml + (text + PrintMembers(v.members[i + 1..])) == (xml + text) + PrintMembers(v.members[i + 1..]);
      xml := xml + text;
      i := i + 1;
    }
  }

  method OneMember(m: Member) returns (xml: string)
    requires Built(m.value)
    ensures xml == PrintMember(m)
    decreases m.value, 3
  {
    hide Print, EncodeText;
    var name := Encode(m.name);
    var text := AsXml(m.value);
    xml := "\t\t<member>\n\t\t\t<name>";
    xml := xml + name;
    xml := xml + "</name>\n\t\t\t";
    xml := xml + text;
    xml := xml + "\t\t</member>\n";
  }
}
