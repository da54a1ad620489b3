/** The JSON parser over a C++ input stream, and the printer. */
module Json {

  import opened CText

  /** The unread characters of an `std::istream` and its two state bits. */
  datatype In = In(text: string, eof: bool, fail: bool) {
    predicate Good() { !eof && !fail }
  }

  datatype Value =
    | Str(text: string)
    | Bool(flag: bool)
    | Null
    | Arr(items: seq<Value>)
    | Obj(members: seq<Member>)

  datatype Member = Member(key: string, value: Value)

  /** What a parser leaves behind.  Where a number starts, the model ends. */
  datatype Parse = Parsed(value: Value, rest: In) | Rejected(rest: In) | Number

  // ----- the stream ---------------------------------------------------------------------------------

  function SkipSpaces(t: string): (r: string)
    ensures |r| <= |t|
    ensures r != "" ==> !IsSpace(r[0])
  {
    if t != "" && IsSpace(t[0]) then SkipSpaces(t[1..]) else t
  }

  /** `input >> std::ws` sets the end bit when nothing but white space is left. */
  function Ws(s: In): (next: In) {
    var t := SkipSpaces(s.text);
    In(t, s.eof || t == "", s.fail)
  }

  /** `input.get(ch)`: at the end it sets both bits and leaves `ch` alone. */
  function Get(s: In, ch: char): (r: (In, char)) {
    if !s.Good() then (s.(fail := true), ch)
    else if s.text == "" then (In("", true, true), ch)
    else (s.(text := s.text[1..]), s.text[0])
  }

  function PutBack(s: In, ch: char): (next: In) {
    if s.Good() then s.(text := [ch] + s.text) else s.(fail := true)
  }

  // ----- the tokens ---------------------------------------------------------------------------------

  /** `match`.  Characters that did match stay consumed when a later one does not. */
  function Match(pattern: string, s: In): (r: (bool, In))
    requires pattern != "" && pattern[0] != '\0'
    ensures |r.1.text| <= |s.text|
    ensures r.0 ==> |r.1.text| < |s.text|
  {
    var w := Ws(s);
    if !w.Good() then (false, w)
    else
      var (g, c) := Get(w, '\0');
      if c != pattern[0] then (false, PutBack(g, c)) else MatchFrom(pattern[1..], g, c)
  }

  function MatchFrom(pattern: string, s: In, ch: char): (r: (bool, In))
    ensures |r.1.text| <= |s.text|
    decreases |pattern|
  {
    if pattern == "" then (true, s)
    else if !s.Good() then (false, s)
    else
      var (g, c) := Get(s, ch);
      if c != pattern[0] then (false, PutBack(g, c)) else MatchFrom(pattern[1..], g, c)
  }

  /** What `parse_string` makes of the character behind a backslash. */
  function Unescape(c: char): (text: string) {
    if c == '"' || c == '\\' || c == '/' then [c]
    else if c == 'b' then [8 as char]
    else if c == 'f' then [12 as char]
    else if c == 'n' then "\n"
    else if c == 'r' then "\r"
    else if c == 't' then "\t"
    else "\\" + [c]
  }

  datatype Text = Text(ok: bool, value: string, rest: In)

  /** The loop of `parse_string` with `ch` the character read last. */
  function StringFrom(s: In, ch: char, value: string): (r: Text)
    ensures |r.rest.text| <= |s.text|
    decreases |s.text|, if s.Good() then 1 else 0
  {
    if !s.Good() then Text(!s.fail && ch == '"', value, s)
    else
      var (g, c) := Get(s, ch);
      if c == '"' then Text(!g.fail, value, g)
      else if c == '\\' then
        var (h, d) := Get(g, c);
        StringFrom(h, d, value + Unescape(d))
      else StringFrom(g, c, value + [c])
  }

  function ParseString(s: In): (r: Text)
    ensures |r.rest.text| <= |s.text|
    ensures r.ok ==> |r.rest.text| < |s.text|
  {
    var (ok, m) := Match("\"", s);
    if ok then StringFrom(m, '\0', "") else Text(false, "", m)
  }

  predicate StartsNumber(c: char) {
    IsDigit(c) || c == '+' || c == '-' || c == '.'
  }

  /** What `parse_number` leaves when it fails: it clears the bits. */
  function Cleared(s: In): (r: In)
    ensures |r.text| <= |s.text|
  {
    In(SkipSpaces(s.text), false, false)
  }

  predicate AtNumber(s: In) {
    var w := Ws(s);
    w.Good() && StartsNumber(w.text[0])
  }

  /** `true`, `false` and `null`, in that order. */
  function ParseWord(s: In): (r: Parse)
    ensures !r.Number? && |r.rest.text| <= |s.text|
    ensures r.Parsed? ==> |r.rest.text| < |s.text|
  {
    var (t, a) := Match("true", s);
    if t then Parsed(Bool(true), a)
    else
      var (f, b) := Match("false", a);
      if f then Parsed(Bool(false), b)
      else
        var (n, c) := Match("null", b);
        if n then Parsed(Null, c) else Rejected(c)
  }

  // ----- the values ---------------------------------------------------------------------------------

  /** `Value::parse`: each form is tried where the one before left the stream. */
  function ParseValue(s: In): (r: Parse)
    ensures r.Parsed? ==> |r.rest.text| < |s.text|
    ensures r.Rejected? ==> |r.rest.text| <= |s.text|
    decreases |s.text|, 3
  {
    var str := ParseString(s);
    if str.ok then Parsed(Str(str.value), str.rest)
    else if AtNumber(str.rest) then Number
    else
      var word := ParseWord(Cleared(str.rest));
      if word.Parsed? then word
      else if word.rest.Good() && word.rest.text != "" && word.rest.text[0] == '[' then
        match ParseArray(word.rest)
        case Parsed(v, t) => Parsed(v, t)
        case Rejected(t) => ParseObject(t)
        case Number => Number
      else ParseObject(word.rest)
  }

  function ParseArray(s: In): (r: Parse)
    ensures r.Parsed? ==> |r.rest.text| < |s.text|
    ensures r.Rejected? ==> |r.rest.text| <= |s.text|
    decreases |s.text|, 2
  {
    var (ok, m) := Match("[", s);
    if ok then Items(m, []) else Rejected(m)
  }

  /** The loop of `Array::parse`; a value that cannot be parsed ends it. */
  function Items(s: In, items: seq<Value>): (r: Parse)
    ensures !r.Number? ==> |r.rest.text| <= |s.text|
    decreases |s.text|, 4
  {
    match ParseValue(s)
    case Parsed(v, t) =>
      var (more, m) := Match(",", t);
      if more then Items(m, items + [v]) else Close("]", m, Arr(items + [v]))
    case Rejected(t) => Close("]", t, Arr(items))
    case Number => Number
  }

  function Close(bracket: string, s: In, v: Value): (r: Parse)
    requires bracket != "" && bracket[0] != '\0'
    ensures !r.Number? && |r.rest.text| <= |s.text|
  {
    var (ok, m) := Match(bracket, s);
    if ok then Parsed(v, m) else Rejected(m)
  }

  function ParseObject(s: In): (r: Parse)
    ensures r.Parsed? ==> |r.rest.text| < |s.text|
    ensures r.Rejected? ==> |r.rest.text| <= |s.text|
    decreases |s.text|, 2
  {
    var (ok, m) := Match("{", s);
    if ok then Members(m, []) else Rejected(m)
  }

  /** The loop of `Object::parse`; a value that cannot be parsed ends it, its key forgotten. */
  function Members(s: In, members: seq<Member>): (r: Parse)
    ensures !r.Number? ==> |r.rest.text| <= |s.text|
    decreases |s.text|, 4
  {
    var key := ParseString(s);
    if !key.ok then Rejected(key.rest)
    else
      var (colon, m) := Match(":", key.rest);
      if !colon then Rejected(m)
      else
        match ParseValue(m)
        case Parsed(v, t) =>
          var all := Put(members, key.value, v);
          var (more, n) := Match(",", t);
          if more then Members(n, all) else Close("}", n, Obj(all))
        case Rejected(t) => Close("}", t, Obj(members))
        case Number => Number
  }

  /** The order of `std::string`. */
  predicate Before(a: string, b: string) {
    b != "" && (a == "" || a[0] < b[0] || (a[0] == b[0] && Before(a[1..], b[1..])))
  }

  /** `value_map_[key] = v` on the members in key order. */
  function Put(members: seq<Member>, key: string, v: Value): (all: seq<Member>) {
    if members == [] || Before(key, members[0].key) then [Member(key, v)] + members
    else if key == members[0].key then [Member(key, v)] + members[1..]
    else [members[0]] + Put(members[1..], key, v)
  }

  // ----- the printer --------------------------------------------------------------------------------

  function HexDigit(n: int): (c: char)
    requires 0 <= n < 16
  {
    "0123456789abcdef"[n]
  }

  /** `std::hex << std::setw(6) << std::setfill('0')` of a `char` below 32 taken as an `int`; from 128 on
      it is negative. */
  function HexText(c: char): (text: string) {
    var n := c as int % 256;
    (if n < 128 then "0000" else "ffffff") + [HexDigit(n / 16), HexDigit(n % 16)]
  }

  predicate Odd(c: char) {
    (c < ' ' && c as int !in {8, 9, 10, 12, 13}) || c as int >= 128
  }

  function Escape(c: char): (text: string) {
    if c == '"' then "\\\""
    else if c == '\\' then "\\\\"
    else if c == '/' then "\\/"
    else if c as int == 8 then "\\b"
    else if c as int == 12 then "\\f"
    else if c == '\n' then "\\n"
    else if c == '\r' then "\\r"
    else if c == '\t' then "\\t"
    else if c < ' ' || c as int >= 128 then "\\u" + HexText(c)
    else [c]
  }

  function Chars(s: string): (text: string) {
    if s == "" then "" else Escape(s[0]) + Chars(s[1..])
  }

  /** `stream_string`. */
  function Quote(s: string): (text: string) {
    "\"" + Chars(s) + "\""
  }

  /** No array is empty: the printer would index the last item of nothing. */
  predicate Prints(v: Value) {
    match v
    case Arr(items) => items != [] && forall i :: 0 <= i < |items| ==> Prints(items[i])
    case Obj(members) => forall i :: 0 <= i < |members| ==> Prints(members[i].value)
    case _ => true
  }

  function Print(v: Value): (text: string) {
    match v
    case Str(s) => Quote(s)
    case Bool(b) => if b then "true" else "false"
    case Null => "null"
    case Arr(items) => "[" + PrintItems(items) + "]"
    case Obj(members) => "{" + PrintMembers(members) + "}"
  }

  function PrintItems(items: seq<Value>): (text: string) {
    if items == [] then ""
    else Print(items[0]) + (if |items| > 1 then ", " + PrintItems(items[1..]) else "")
  }

  function PrintMembers(members: seq<Member>): (text: string) {
    if members == [] then ""
    else
      Quote(members[0].key) + ": " + Print(members[0].value)
      + (if |members| > 1 then ", " + PrintMembers(members[1..]) else "")
  }
}
