/** XML-RPC values: the tree, its printer `asXml`, and the reader `FromXml`. */
module Rpc {
  import opened CText
  import opened Numbers
  import opened XmlEntities
  import opened Xml

  datatype Kind = KBoolean | KInt | KString | KDouble | KDateTime

  /** An `RpcValue` object, or the null pointer.  A leaf holds `_str` and the number in `_value`. */
  datatype Value =
    | Null
    | Leaf(kind: Kind, text: string, num: int)
    | Array(items: seq<Value>)
    | Struct(members: seq<Member>)

  datatype Member = Member(name: string, value: Value)

  /** `String::hash` with a signed `char`. */
  function HashStep(h: bv32, c: char): (u: bv32) {
    XorWide(Shifted(h), Wide(c))
  }

  function XorWide(h: bv32, w: nat): (u: bv32)
    requires w < 0x1_0000_0000
  {
    h ^ (w as bv32)
  }

  function Shifted(h: bv32): (u: bv32) { (h << 5) + h }

  /** A `char` as an `int`, modulo 2^32. */
  function Wide(c: char): (w: nat)
    ensures w < 0x1_0000_0000
  {
    var code := c as int % 256;
    if code < 128 then code else code + 0xFFFF_FF00
  }

  function HashFrom(s: string, h: bv32): (u: bv32) {
    if s == "" then h else HashFrom(s[1..], HashStep(h, s[0]))
  }

  function Hash(s: string): (h: bv32) {
    HashFrom(s, 0)
  }

  /** `Dictionary::hasKey`: entries are told apart by the hash of their key alone. */
  predicate HasKey(members: seq<Member>, name: string) {
    exists m :: m in members && Hash(m.name) == Hash(name)
  }

  // ----- reading ------------------------------------------------------------------------

  /** Up to `width` digits from `pos`: the position behind them. */
  function DigitRun(s: string, pos: nat, width: int): (e: nat)
    requires pos <= |s|
    ensures pos <= e <= |s|
    decreases |s| - pos
  {
    if width > 0 && pos < |s| && IsDigit(s[pos]) then DigitRun(s, pos + 1, width - 1) else pos
  }

  /** One `%<width>d` of sscanf: the position behind the number, or -1. */
  function ScanNumber(s: string, pos: int, width: int): (e: int)
    ensures -1 <= e <= |s|
  {
    if pos < 0 || pos > |s| then -1
    else
      var start := SkipSpace(s, pos);
      var digits := if start < |s| && (s[start] == '-' || s[start] == '+') then start + 1 else start;
      var e := DigitRun(s, digits, width - (digits - start));
      if e == digits then -1 else e
  }

  function ScanChar(s: string, pos: int, c: char): (e: int)
    ensures -1 <= e <= |s|
  {
    if 0 <= pos < |s| && s[pos] == c then pos + 1 else -1
  }

  /** Whether `sscanf("%4d%2d%2dT%2d:%2d:%2d")` converts all six fields. */
  predicate ScansDateTime(s: string) {
    var day := ScanNumber(s, ScanNumber(s, ScanNumber(s, 0, 4), 2), 2);
    var hour := ScanNumber(s, ScanChar(s, day, 'T'), 2);
    var minute := ScanNumber(s, ScanChar(s, hour, ':'), 2);
    ScanNumber(s, ScanChar(s, minute, ':'), 2) != -1
  }

  /** The number a numeric leaf takes from its content; a double keeps only its text here. */
  function NumberOf(kind: Kind, text: string): (n: int) {
    if kind == KInt || kind == KBoolean then ToInt(text) else 0
  }

  /** A leaf element with its closing tag; without content it stays null. */
  function LeafValue(c: Cursor, kind: Kind): (r: Run<Value>)
    requires c.Valid()
    ensures r.Done? ==> r.cursor.Valid() && r.cursor.Left() <= c.Left()
  {
    var (has, c1) :- HasContent(c);
    if has then
      var (text, c2) :- GetContent(c1);
      var (some, c3) :- NextElement(c2);
      Done(if kind == KString then Leaf(kind, DecodeText(text), 0) else Leaf(kind, text, NumberOf(kind, text)), c3)
    else
      var (some, c3) :- NextElement(c1);
      Done(if kind == KString then Leaf(kind, "", 0) else Null, c3)
  }

  /** A dateTime leaf with the closing tags; text that does not scan returns at once. */
  function DateTimeValue(c: Cursor): (r: Run<Value>)
    requires c.Valid()
    ensures r.Done? ==> r.cursor.Valid() && r.cursor.Left() <= c.Left()
  {
    var (has, c1) :- HasContent(c);
    if has then
      var (text, c2) :- GetContent(c1);
      if !ScansDateTime(text) then Done(Null, c2)
      else
        var (some, c3) :- NextElement(c2);
        var (more, c4) :- NextElement(c3);
        Done(Leaf(KDateTime, text, 0), c4)
    else
      var (some, c3) :- NextElement(c1);
      var (more, c4) :- NextElement(c3);
      Done(Null, c4)
  }

  /** A base64 element never gets past the test for its end tag. */
  function BinaryValue(c: Cursor): (r: Run<Value>)
    requires c.Valid()
  {
    var (has, c1) :- HasContent(c);
    if has then
      var (text, c2) :- GetContent(c1);
      if c2.name != "base64" || !c2.closing then Thrown(c2) else Done(Null, c2)
    else Thrown(c1)
  }

  /** `RpcValue::FromXml`.  That this is a function of any cursor at all is the termination of the
      parser: every recursive entry follows an element that shrank the unread text. */
  function FromXml(c: Cursor): (r: Run<Value>)
    requires c.Valid()
    ensures r.Done? ==> r.cursor.Valid() && r.cursor.Left() <= c.Left()
    decreases c.Left(), 0
  {
    if c.name != "value" then Done(Null, c)
    else
      var (has, c1) :- HasContent(c);
      if has then
        var (text, c2) :- GetContent(c1);
        Done(Leaf(KString, DecodeText(text), 0), c2)
      else
        var (some, c2) :- NextElement(c1);
        if !some then Thrown(c2)
        else if c2.name == "dateTime.iso8601" then DateTimeValue(c2)
        else
          var (v, c3) :- TypedValue(c2);
          var (more, c4) :- NextElement(c3);
          Done(v, c4)
  }

  function TypedValue(c: Cursor): (r: Run<Value>)
    requires c.Valid()
    ensures r.Done? ==> r.cursor.Valid() && r.cursor.Left() <= c.Left()
    decreases c.Left(), 1
  {
    if c.name == "string" then LeafValue(c, KString)
    else if c.name == "int" || c.name == "i4" then LeafValue(c, KInt)
    else if c.name == "double" then LeafValue(c, KDouble)
    else if c.name == "boolean" then LeafValue(c, KBoolean)
    else if c.name == "array" then ArrayValue(c)
    else if c.name == "struct" then
      var (members, c1) :- StructItems(c, []);
      Done(Struct(members), c1)
    else if c.name == "base64" then
      var (v, c1) :- BinaryValue(c);
      Done(v, c1)
    else Done(Null, c)
  }

  /** The `RpcArrayValue` constructor. */
  function ArrayValue(c: Cursor): (r: Run<Value>)
    requires c.Valid()
    ensures r.Done? ==> r.cursor.Valid() && r.cursor.Left() <= c.Left()
    decreases c.Left(), 0
  {
    var (some, c1) :- NextElement(c);
    if !some || c1.name != "data" then Thrown(c1)
    else
      var (items, c2) :- ArrayItems(c1, []);
      if c2.name != "data" || !c2.closing then Thrown(c2)
      else
        var (more, c3) :- NextElement(c2);
        if !more || c3.name != "array" || !c3.closing then Thrown(c3) else Done(Array(items), c3)
  }

  /** Its loop over `<value>` elements. */
  function ArrayItems(c: Cursor, acc: seq<Value>): (r: Run<seq<Value>>)
    requires c.Valid()
    ensures r.Done? ==> r.cursor.Valid() && r.cursor.Left() <= c.Left()
    decreases c.Left(), 0
  {
    var (some, c1) :- NextElement(c);
    if some && c1.name == "value" && !c1.closing then
      var (v, c2) :- FromXml(c1);
      ArrayItems(c2, acc + [v])
    else Done(acc, c1)
  }

  /** The loop of the `RpcStructValue` constructor over `<member>` elements. */
  function StructItems(c: Cursor, acc: seq<Member>): (r: Run<seq<Member>>)
    requires c.Valid()
    ensures r.Done? ==> r.cursor.Valid() && r.cursor.Left() <= c.Left()
    decreases c.Left(), 0
  {
    var (some, c1) :- NextElement(c);
    if !(some && c1.name == "member" && !c1.closing) then Done(acc, c1)
    else
      var (name, c2) :- MemberName(c1);
      var (v, c3) :- FromXml(c2);
      if HasKey(acc, name) then Thrown(c3)
      else
        var (more, c4) :- NextElement(c3);
        StructItems(c4, acc + [Member(name, v)])
  }

  /** From behind `<member>` to behind the `<value>` that follows the name. */
  function MemberName(c: Cursor): (r: Run<string>)
    requires c.Valid()
    ensures r.Done? ==> r.cursor.Valid() && r.cursor.Left() <= c.Left()
  {
    var (some, c1) :- NextElement(c);
    if !some || c1.name != "name" || c1.closing then Thrown(c1)
    else
      var (has, c2) :- HasContent(c1);
      if !has then Thrown(c2)
      else
        var (name, c3) :- GetContent(c2);
        var (some4, c4) :- NextElement(c3);
        if !some4 || c4.name != "name" || !c4.closing then Thrown(c4)
        else
          var (some5, c5) :- NextElement(c4);
          if !some5 || c5.name != "value" then Thrown(c5) else Done(name, c5)
  }
}
