/** Parsing what was printed. */
module JsonRoundTrip {

  import opened CText
  import opened Json

  /** A stream in good state. */
  function Good(t: string): (s: In) {
    In(t, false, false)
  }

  // ----- tokens -------------------------------------------------------------------------------------

  lemma {:induction false} SkipGap(gap: string, t: string)
    requires AllSpace(gap) && t != "" && !IsSpace(t[0])
    ensures SkipSpaces(gap + t) == t
    decreases |gap|
  {
    if gap == "" {
      assert gap + t == t;
    } else {
      assert (gap + t)[1..] == gap[1..] + t;
      SkipGap(gap[1..], t);
    }
  }

  lemma Miss(pattern: string, gap: string, t: string)
    requires pattern != "" && pattern[0] != '\0'
    requires AllSpace(gap) && t != "" && !IsSpace(t[0]) && t[0] != pattern[0]
    ensures Match(pattern, Good(gap + t)) == (false, Good(t))
  {
    SkipGap(gap, t);
    assert [t[0]] + t[1..] == t;
  }

  lemma {:induction false} HitFrom(pattern: string, rest: string, ch: char)
    ensures MatchFrom(pattern, Good(pattern + rest), ch) == (true, Good(rest))
    decreases |pattern|
  {
    if pattern == "" {
      assert pattern + rest == rest;
    } else {
      assert (pattern + rest)[1..] == pattern[1..] + rest;
      HitFrom(pattern[1..], rest, pattern[0]);
    }
  }

  lemma Hit(pattern: string, gap: string, rest: string)
    requires pattern != "" && pattern[0] != '\0' && !IsSpace(pattern[0])
    requires AllSpace(gap)
    ensures Match(pattern, Good(gap + (pattern + rest))) == (true, Good(rest))
  {
    SkipGap(gap, pattern + rest);
    assert (pattern + rest)[1..] == pattern[1..] + rest;
    HitFrom(pattern[1..], rest, pattern[0]);
  }

  // ----- strings ------------------------------------------------------------------------------------

  /** What a printed character comes back as. */
  function RereadChar(c: char): (text: string) {
    if Odd(c) then "\\u" + HexText(c) else [c]
  }

  function Reread(s: string): (text: string) {
    if s == "" then "" else RereadChar(s[0]) + Reread(s[1..])
  }

  lemma PlainStep(c: char, t: string, ch: char, value: string)
    requires c != '"' && c != '\\'
    ensures StringFrom(Good([c] + t), ch, value) == StringFrom(Good(t), c, value + [c])
  {
    assert ([c] + t)[1..] == t;
  }

  lemma EscapedStep(d: char, t: string, ch: char, value: string)
    ensures StringFrom(Good(['\\', d] + t), ch, value) == StringFrom(Good(t), d, value + Unescape(d))
  {
    assert (['\\', d] + t)[1..] == [d] + t;
    assert ([d] + t)[1..] == t;
  }

  lemma {:induction false} PlainRun(run: string, t: string, ch: char, value: string) returns (last: char)
    requires '"' !in run && '\\' !in run
    ensures StringFrom(Good(run + t), ch, value) == StringFrom(Good(t), last, value + run)
    decreases |run|
  {
    hide StringFrom;
    if run == "" {
      assert run + t == t && value + run == value;
      last := ch;
    } else {
      assert run + t == [run[0]] + (run[1..] + t);
      PlainStep(run[0], run[1..] + t, ch, value);
      last := PlainRun(run[1..], t, run[0], value + [run[0]]);
      assert value + [run[0]] + run[1..] == value + run;
    }
  }

  lemma HexIsPlain(c: char)
    ensures '"' !in HexText(c) && '\\' !in HexText(c)
    ensures forall d :: d in HexText(c) ==> !Odd(d)
  {
    var n := c as int % 256;
    HexDigitIsPlain(n / 16);
    HexDigitIsPlain(n % 16);
  }

  lemma HexDigitIsPlain(n: int)
    requires 0 <= n < 16
    ensures var d := HexDigit(n); d != '"' && d != '\\' && !Odd(d)
  {
  }

  /** A character that is not odd is printed as itself or as a pair that `parse_string` undoes. */
  lemma EscapePairs(c: char)
    requires !Odd(c)
    ensures (Escape(c) == [c] && c != '"' && c != '\\')
            || (|Escape(c)| == 2 && Escape(c)[0] == '\\' && Unescape(Escape(c)[1]) == [c])
  {
  }

  /** The two-character escapes of section 7 of RFC 8259 and the code points they stand for. */
  function ShortEscape(d: char): (n: int) {
    if d == '"' then 0x22 else if d == '\\' then 0x5C else if d == '/' then 0x2F
    else if d == 'b' then 0x08 else if d == 'f' then 0x0C else if d == 'n' then 0x0A
    else if d == 'r' then 0x0D else if d == 't' then 0x09 else -1
  }

  /** The parser and the printer know exactly those escapes, and undo each other on them. */
  lemma EscapesOfSection7(d: char, c: char)
    ensures |Unescape(d)| == 1 <==> ShortEscape(d) >= 0
    ensures ShortEscape(d) >= 0 ==> Unescape(d) == [ShortEscape(d) as char]
    ensures Escape(c) == ['\\', d] <==> ShortEscape(d) == c as int
  {
    hide HexText;
    HexLength(c);
  }

  /** Any other control character is printed with six digits, and one from 128 on, which is negative as an
      `int`, with eight. */
  lemma OddEscapes(c: char)
    requires Odd(c) && c as int < 256
    ensures
      var n := c as int;
      Escape(c) == (if n < 32 then "\\u0000" else "\\uffffff")
                   + ["0123456789abcdef"[n / 16], "0123456789abcdef"[n % 16]]
  {
    assert c as int % 256 == c as int;
    var n := c as int;
    var d := ["0123456789abcdef"[n / 16], "0123456789abcdef"[n % 16]];
    assert "\\u" + ("0000" + d) == "\\u0000" + d && "\\u" + ("ffffff" + d) == "\\uffffff" + d;
  }

  lemma HexLength(c: char)
    ensures |HexText(c)| == 6 || |HexText(c)| == 8
  {
  }

  /** One printed character is read back whole. */
  lemma CharStep(c: char, t: string, ch: char, value: string) returns (last: char)
    ensures StringFrom(Good(Escape(c) + t), ch, value) == StringFrom(Good(t), last, value + RereadChar(c))
  {
    hide StringFrom, HexText;
    if Odd(c) {
      HexIsPlain(c);
      assert Escape(c) + t == ['\\', 'u'] + (HexText(c) + t);
      EscapedStep('u', HexText(c) + t, ch, value);
      assert Unescape('u') == "\\u";
      last := PlainRun(HexText(c), t, 'u', value + "\\u");
      assert value + "\\u" + HexText(c) == value + RereadChar(c);
    } else {
      EscapePairs(c);
      hide Escape, Unescape;
      if Escape(c) == [c] && c != '"' && c != '\\' {
        PlainStep(c, t, ch, value);
        last := c;
      } else {
        last := Escape(c)[1];
        assert Escape(c) == ['\\', last];
        EscapedStep(last, t, ch, value);
      }
    }
  }

  lemma EndStep(rest: string, ch: char, value: string)
    ensures StringFrom(Good("\"" + rest), ch, value) == Text(true, value, Good(rest))
  {
    assert ("\"" + rest)[1..] == rest;
  }

  lemma {:induction false} ReadsChars(s: string, rest: string, ch: char, value: string)
    ensures StringFrom(Good(Chars(s) + ("\"" + rest)), ch, value) == Text(true, value + Reread(s), Good(rest))
    decreases |s|
  {
    hide StringFrom, Escape, RereadChar;
    if s == "" {
      assert Chars(s) + ("\"" + rest) == "\"" + rest && value + Reread(s) == value;
      EndStep(rest, ch, value);
    } else {
      var t := Chars(s[1..]) + ("\"" + rest);
      assert Chars(s) + ("\"" + rest) == Escape(s[0]) + t;
      var last := CharStep(s[0], t, ch, value);
      ReadsChars(s[1..], rest, last, value + RereadChar(s[0]));
      assert value + RereadChar(s[0]) + Reread(s[1..]) == value + Reread(s);
    }
  }

  lemma ReadsText(s: string, gap: string, rest: string)
    requires AllSpace(gap)
    ensures ParseString(Good(gap + (Quote(s) + rest))) == Text(true, Reread(s), Good(rest))
  {
    hide Match, StringFrom, Chars, Reread;
    var t := Chars(s) + ("\"" + rest);
    assert Quote(s) + rest == "\"" + t;
    Hit("\"", gap, t);
    ReadsChars(s, rest, '\0', "");
  }

  // ----- values -------------------------------------------------------------------------------------

  /** What a printed tree comes back as: its strings reread, its members entered again one by one. */
  function Reparse(v: Value): (r: Value) {
    match v
    case Str(s) => Str(Reread(s))
    case Arr(items) => Arr(ReparseAll(items))
    case Obj(members) => Obj(PutAll([], members))
    case _ => v
  }

  function ReparseAll(items: seq<Value>): (r: seq<Value>)
    ensures |r| == |items|
  {
    if items == [] then [] else [Reparse(items[0])] + ReparseAll(items[1..])
  }

  function PutAll(into: seq<Member>, members: seq<Member>): (all: seq<Member>)
    decreases members
  {
    if members == [] then into
    else PutAll(Put(into, Reread(members[0].key), Reparse(members[0].value)), members[1..])
  }

  /** Neither an array nor an object in the tree is empty. */
  predicate Full(v: Value) {
    match v
    case Arr(items) => items != [] && forall i :: 0 <= i < |items| ==> Full(items[i])
    case Obj(members) => members != [] && forall i :: 0 <= i < |members| ==> Full(members[i].value)
    case _ => true
  }

  lemma {:induction false} FullPrints(v: Value)
    requires Full(v)
    ensures Prints(v)
  {
    match v
    case Arr(items) =>
      forall i | 0 <= i < |items|
        ensures Prints(items[i])
      {
        FullPrints(items[i]);
      }
    case Obj(members) =>
      forall i | 0 <= i < |members|
        ensures Prints(members[i].value)
      {
        FullPrints(members[i].value);
      }
    case _ =>
  }

  lemma FirstChar(v: Value)
    requires !v.Str?
    ensures Print(v) != ""
    ensures var c := Print(v)[0]; !IsSpace(c) && !StartsNumber(c) && c != '"'
  {
    hide PrintItems, PrintMembers;
    match v
    case Bool(b) =>
      if b {
        assert Print(v)[0] == 't';
      } else {
        assert Print(v)[0] == 'f';
      }
    case Null => assert Print(v)[0] == 'n';
    case Arr(items) => assert Print(v)[0] == '[';
    case Obj(members) => assert Print(v)[0] == '{';
  }

  lemma NotAString(v: Value, gap: string, rest: string)
    requires AllSpace(gap) && !v.Str?
    ensures
      var t := Print(v) + rest;
      !IsSpace(t[0]) && !StartsNumber(t[0])
      && ParseString(Good(gap + t)) == Text(false, "", Good(t))
      && !AtNumber(Good(t)) && Cleared(Good(t)) == Good(t)
  {
    hide Print, Match, StartsNumber;
    var t := Print(v) + rest;
    FirstChar(v);
    assert t[0] == Print(v)[0];
    Miss("\"", gap, t);
    SkipGap("", t);
    assert "" + t == t;
  }

  lemma NotAWord(t: string)
    requires t != "" && (t[0] == '[' || t[0] == '{')
    ensures ParseWord(Good(t)) == Rejected(Good(t))
  {
    assert "" + t == t;
    Miss("true", "", t);
    Miss("false", "", t);
    Miss("null", "", t);
  }

  lemma ReadsWord(v: Value, rest: string)
    requires v.Bool? || v.Null?
    ensures ParseWord(Good(Print(v) + rest)) == Parsed(v, Good(rest))
  {
    hide Match;
    var t := Print(v) + rest;
    assert "" + t == t;
    if v == Bool(true) {
      Hit("true", "", rest);
    } else if v == Bool(false) {
      Miss("true", "", t);
      Hit("false", "", rest);
    } else {
      Miss("true", "", t);
      Miss("false", "", t);
      Hit("null", "", rest);
    }
  }

  /** Every full tree is read back, up to what happens to its strings, and exactly its text is consumed. */
  lemma {:induction false} ReadsValue(v: Value, gap: string, rest: string)
    requires AllSpace(gap) && Full(v)
    ensures ParseValue(Good(gap + (Print(v) + rest))) == Parsed(Reparse(v), Good(rest))
    decreases v, 1
  {
    hide ParseString, ParseWord, AtNumber, Cleared, PrintItems, PrintMembers, Match, ParseArray, ParseObject;
    hide ReparseAll, PutAll, Reread, Quote;
    var t := Print(v) + rest;
    match v
    case Str(s) =>
      ReadsText(s, gap, rest);
    case Bool(_) =>
      NotAString(v, gap, rest);
      ReadsWord(v, rest);
    case Null =>
      NotAString(v, gap, rest);
      ReadsWord(v, rest);
    case Arr(items) =>
      NotAString(v, gap, rest);
      NotAWord(t);
      ReadsArray(items, rest);
      assert t == "[" + (PrintItems(items) + ("]" + rest));
    case Obj(members) =>
      NotAString(v, gap, rest);
      NotAWord(t);
      ReadsObject(members, rest);
      assert t == "{" + (PrintMembers(members) + ("}" + rest));
  }

  lemma ReadsArray(items: seq<Value>, rest: string)
    requires items != [] && forall i :: 0 <= i < |items| ==> Full(items[i])
    ensures ParseArray(Good("[" + (PrintItems(items) + ("]" + rest))))
         == Parsed(Arr(ReparseAll(items)), Good(rest))
    decreases items, 1
  {
    hide Match, PrintItems, ReparseAll, Items;
    var t := PrintItems(items) + ("]" + rest);
    Hit("[", "", t);
    assert "" + ("[" + t) == "[" + t;
    ReadsItems(items, "", [], rest);
    assert "" + t == t;
    assert [] + ReparseAll(items) == ReparseAll(items);
  }

  lemma {:induction false} ReadsItems(items: seq<Value>, gap: string, done: seq<Value>, rest: string)
    requires items != [] && (forall i :: 0 <= i < |items| ==> Full(items[i])) && AllSpace(gap)
    ensures Items(Good(gap + (PrintItems(items) + ("]" + rest))), done)
         == Parsed(Arr(done + ReparseAll(items)), Good(rest))
    decreases items, 0
  {
    hide ParseValue, Match, Print, Reparse;
    var v := items[0];
    if |items| == 1 {
      var t := "]" + rest;
      assert PrintItems(items) + ("]" + rest) == Print(v) + t;
      ReadsValue(v, gap, t);
      Closes("]", ",", rest, Arr(done + [Reparse(v)]));
      assert ReparseAll(items) == [Reparse(v)];
    } else {
      var t := PrintItems(items[1..]) + ("]" + rest);
      assert PrintItems(items) + ("]" + rest) == Print(v) + ("," + (" " + t));
      ReadsValue(v, gap, "," + (" " + t));
      Hit(",", "", " " + t);
      assert "" + ("," + (" " + t)) == "," + (" " + t);
      ReadsItems(items[1..], " ", done + [Reparse(v)], rest);
      assert done + [Reparse(v)] + ReparseAll(items[1..]) == done + ReparseAll(items);
    }
  }

  /** At the closing bracket the comma misses and the bracket is taken. */
  lemma Closes(bracket: string, comma: string, rest: string, v: Value)
    requires bracket == "]" || bracket == "}"
    requires comma == ","
    ensures Match(comma, Good(bracket + rest)) == (false, Good(bracket + rest))
    ensures Close(bracket, Good(bracket + rest), v) == Parsed(v, Good(rest))
  {
    hide Match;
    assert "" + (bracket + rest) == bracket + rest;
    Miss(comma, "", bracket + rest);
    Hit(bracket, "", rest);
  }

  lemma ReadsObject(members: seq<Member>, rest: string)
    requires members != [] && forall i :: 0 <= i < |members| ==> Full(members[i].value)
    ensures ParseObject(Good("{" + (PrintMembers(members) + ("}" + rest))))
         == Parsed(Obj(PutAll([], members)), Good(rest))
    decreases members, 1
  {
    hide Match, PrintMembers, PutAll, Members;
    var t := PrintMembers(members) + ("}" + rest);
    Hit("{", "", t);
    assert "" + ("{" + t) == "{" + t;
    ReadsMembers(members, "", [], rest);
    assert "" + t == t;
  }

  lemma {:induction false} ReadsMembers(members: seq<Member>, gap: string, done: seq<Member>, rest: string)
    requires members != [] && (forall i :: 0 <= i < |members| ==> Full(members[i].value)) && AllSpace(gap)
    ensures Members(Good(gap + (PrintMembers(members) + ("}" + rest))), done)
         == Parsed(Obj(PutAll(done, members)), Good(rest))
    decreases members, 0
  {
    hide ParseValue, Match, Print, Reparse, ParseString, Quote, Reread, Put;
    var k, v := members[0].key, members[0].value;
    var all := Put(done, Reread(k), Reparse(v));
    if |members| == 1 {
      var t := "}" + rest;
      assert PrintMembers(members) + ("}" + rest) == Quote(k) + (":" + (" " + (Print(v) + t)));
      ReadsKey(k, v, gap, t);
      Closes("}", ",", rest, Obj(all));
      assert PutAll(done, members) == PutAll(all, []) == all;
    } else {
      var t := PrintMembers(members[1..]) + ("}" + rest);
      assert PrintMembers(members) + ("}" + rest) == Quote(k) + (":" + (" " + (Print(v) + ("," + (" " + t)))));
      ReadsKey(k, v, gap, "," + (" " + t));
      Hit(",", "", " " + t);
      assert "" + ("," + (" " + t)) == "," + (" " + t);
      ReadsMembers(members[1..], " ", all, rest);
    }
  }

  lemma ReadsKey(k: string, v: Value, gap: string, t: string)
    requires AllSpace(gap) && Full(v)
    ensures
      var after := Good(":" + (" " + (Print(v) + t)));
      ParseString(Good(gap + (Quote(k) + (":" + (" " + (Print(v) + t)))))) == Text(true, Reread(k), after)
      && Match(":", after) == (true, Good(" " + (Print(v) + t)))
      && ParseValue(Good(" " + (Print(v) + t))) == Parsed(Reparse(v), Good(t))
    decreases v, 2
  {
    hide ParseValue, Match, Print, Reparse, ParseString, Quote, Reread;
    ReadsName(k, gap, " " + (Print(v) + t));
    ReadsValue(v, " ", t);
  }

  lemma ReadsName(k: string, gap: string, u: string)
    requires AllSpace(gap)
    ensures ParseString(Good(gap + (Quote(k) + (":" + u)))) == Text(true, Reread(k), Good(":" + u))
    ensures Match(":", Good(":" + u)) == (true, Good(u))
  {
    hide Match, ParseString, Quote, Reread;
    ReadsText(k, gap, ":" + u);
    Hit(":", "", u);
    assert "" + (":" + u) == ":" + u;
  }

  // ----- the trees that come back -------------------------------------------------------------------

  predicate CleanText(s: string) {
    forall i :: 0 <= i < |s| ==> !Odd(s[i])
  }

  /** Only characters that survive, in every string and every key. */
  predicate Clean(v: Value) {
    match v
    case Str(s) => CleanText(s)
    case Arr(items) => forall i :: 0 <= i < |items| ==> Clean(items[i])
    case Obj(members) => CleanMembers(members)
    case _ => true
  }

  predicate CleanMembers(members: seq<Member>) {
    forall i :: 0 <= i < |members| ==> CleanText(members[i].key) && Clean(members[i].value)
  }

  /** The members of every object are in the key order of `std::map`. */
  predicate Sorted(members: seq<Member>) {
    forall i, j :: 0 <= i < j < |members| ==> Before(members[i].key, members[j].key)
  }

  predicate Ordered(v: Value) {
    match v
    case Arr(items) => forall i :: 0 <= i < |items| ==> Ordered(items[i])
    case Obj(members) =>
      Sorted(members) && forall i :: 0 <= i < |members| ==> Ordered(members[i].value)
    case _ => true
  }

  lemma {:induction false} RereadClean(s: string)
    ensures CleanText(Reread(s))
    ensures CleanText(s) ==> Reread(s) == s
    decreases |s|
  {
    hide HexText;
    if s != "" {
      HexIsPlain(s[0]);
      RereadClean(s[1..]);
      assert s == [s[0]] + s[1..];
    }
  }

  lemma {:induction false} ReparseClean(v: Value)
    ensures Clean(Reparse(v))
    decreases v, 1
  {
    match v
    case Str(s) => RereadClean(s);
    case Arr(items) => ReparseAllClean(items);
    case Obj(members) => PutAllClean([], members);
    case _ =>
  }

  lemma {:induction false} ReparseAllClean(items: seq<Value>)
    ensures forall i :: 0 <= i < |items| ==> Clean(ReparseAll(items)[i])
    decreases items, 0
  {
    hide Clean, Reparse;
    if items != [] {
      ReparseClean(items[0]);
      ReparseAllClean(items[1..]);
    }
  }

  lemma {:induction false} PutAllClean(into: seq<Member>, members: seq<Member>)
    requires CleanMembers(into)
    ensures CleanMembers(PutAll(into, members))
    decreases members, 0
  {
    hide Reparse, Reread, Clean, CleanText, Put;
    if members != [] {
      var k, v := members[0].key, members[0].value;
      RereadClean(k);
      ReparseClean(v);
      PutClean(into, Reread(k), Reparse(v));
      PutAllClean(Put(into, Reread(k), Reparse(v)), members[1..]);
    }
  }

  lemma {:induction false} PutClean(into: seq<Member>, k: string, v: Value)
    requires CleanMembers(into) && CleanText(k) && Clean(v)
    ensures CleanMembers(Put(into, k, v))
    decreases |into|
  {
    hide Clean, CleanText, Before;
    if into != [] && !Before(k, into[0].key) && k != into[0].key {
      PutClean(into[1..], k, v);
    }
  }

  lemma {:induction false} ReparseSame(v: Value)
    requires Clean(v) && Ordered(v)
    ensures Reparse(v) == v
    decreases v, 1
  {
    match v
    case Str(s) => RereadClean(s);
    case Arr(items) => ReparseAllSame(items);
    case Obj(members) => PutAllSame([], members);
      assert [] + members == members;
    case _ =>
  }

  lemma {:induction false} ReparseAllSame(items: seq<Value>)
    requires forall i :: 0 <= i < |items| ==> Clean(items[i]) && Ordered(items[i])
    ensures ReparseAll(items) == items
    decreases items, 0
  {
    hide Clean, Ordered, Reparse;
    if items != [] {
      ReparseSame(items[0]);
      ReparseAllSame(items[1..]);
      assert items == [items[0]] + items[1..];
    }
  }

  lemma {:induction false} PutAllSame(into: seq<Member>, members: seq<Member>)
    requires Sorted(into + members) && CleanMembers(members)
    requires forall i :: 0 <= i < |members| ==> Ordered(members[i].value)
    ensures PutAll(into, members) == into + members
    decreases members, 0
  {
    hide Reparse, Reread, Clean, CleanText, Put, Before, Ordered;
    if members == [] {
      assert into + members == into;
    } else {
      var m := members[0];
      RereadClean(m.key);
      ReparseSame(m.value);
      var all := into + members;
      assert all[|into|] == m;
      forall i | 0 <= i < |into|
        ensures Before(into[i].key, m.key)
      {
        assert Before(all[i].key, all[|into|].key);
      }
      PutLast(into, m.key, m.value);
      assert m == Member(m.key, m.value);
      assert into + [m] + members[1..] == into + members;
      PutAllSame(into + [m], members[1..]);
    }
  }

  lemma {:induction false} PutLast(into: seq<Member>, k: string, v: Value)
    requires forall i :: 0 <= i < |into| ==> Before(into[i].key, k)
    ensures Put(into, k, v) == into + [Member(k, v)]
    decreases |into|
  {
    hide Before;
    if into != [] {
      BeforeIsStrict(into[0].key, k);
      PutLast(into[1..], k, v);
    }
  }

  lemma {:induction false} BeforeIsStrict(a: string, b: string)
    requires Before(a, b)
    ensures !Before(b, a) && a != b
    decreases |a|
  {
    if a != "" && a[0] == b[0] {
      BeforeIsStrict(a[1..], b[1..]);
    }
  }

  /** Parsing the printed form of a tree without empty arrays and objects, whatever follows it, gives the
      tree back and consumes exactly the printed text, if and only if no string and no key in it holds an
      odd character. */
  lemma RoundTrip(v: Value, rest: string)
    requires Full(v) && Ordered(v)
    ensures ParseValue(Good(Print(v) + rest)) == Parsed(v, Good(rest)) <==> Clean(v)
  {
    hide ParseValue, Print, Reparse, Clean, Full, Ordered;
    ReadsValue(v, "", rest);
    assert "" + (Print(v) + rest) == Print(v) + rest;
    ReparseClean(v);
    if Clean(v) {
      ReparseSame(v);
    }
  }

  /** Two trees that come back have different texts. */
  lemma PrintIsInjective(v: Value, w: Value)
    requires Full(v) && Ordered(v) && Clean(v) && Full(w) && Ordered(w) && Clean(w)
    requires Print(v) == Print(w)
    ensures v == w
  {
    hide ParseValue, Print, Clean, Full, Ordered;
    RoundTrip(v, "");
    RoundTrip(w, "");
  }

  lemma ObjectIsTried(v: Value, gap: string, rest: string)
    requires v.Obj? && AllSpace(gap)
    ensures ParseValue(Good(gap + (Print(v) + rest))) == ParseObject(Good(Print(v) + rest))
  {
    hide ParseString, ParseWord, AtNumber, Cleared, PrintMembers, ParseObject;
    NotAString(v, gap, rest);
    NotAWord(Print(v) + rest);
  }

  lemma EmptyRejected(gap: string, rest: string)
    requires AllSpace(gap)
    ensures ParseValue(Good(gap + ("{}" + rest))) == Rejected(Good("}" + rest))
  {
    var u := "}" + rest;
    assert Print(Obj([])) == "{}" && "{}" + rest == "{" + u;
    hide Match, ParseValue, Print;
    ObjectIsTried(Obj([]), gap, rest);
    assert "" + ("{" + u) == "{" + u && "" + u == u;
    Hit("{", "", u);
    Miss("\"", "", u);
    assert ParseString(Good(u)) == Text(false, "", Good(u));
    assert Members(Good(u), []) == Rejected(Good(u));
  }

  /** The printed empty object is not parsed, and as the value of a member it takes the bracket of the
      object around it. */
  lemma EmptyObjectLost(key: string, rest: string)
    ensures ParseValue(Good(Print(Obj([])) + rest)) == Rejected(Good("}" + rest))
    ensures ParseValue(Good(Print(Obj([Member(key, Obj([]))])) + rest)) == Parsed(Obj([]), Good("}" + rest))
  {
    hide Match, ParseWord, AtNumber, Cleared, ParseValue, ParseString, Quote;
    assert "" + ("{}" + rest) == Print(Obj([])) + rest;
    EmptyRejected("", rest);
    var v := Obj([Member(key, Obj([]))]);
    var u := "}" + rest;
    var w := Quote(key) + (":" + (" " + ("{}" + u)));
    assert Print(v) + rest == "{" + w by {
      assert PrintMembers([Member(key, Obj([]))]) == Quote(key) + ": " + "{}";
    }
    assert ParseObject(Good("{" + w)) == Parsed(Obj([]), Good(u)) by {
      EmptyMember(key, u);
    }
    assert "" + (Print(v) + rest) == Print(v) + rest;
    ObjectIsTried(v, "", rest);
  }

  lemma EmptyMember(key: string, u: string)
    requires u != "" && u[0] == '}'
    ensures ParseObject(Good("{" + (Quote(key) + (":" + (" " + ("{}" + u)))))) == Parsed(Obj([]), Good("}" + u[1..]))
  {
    hide Match, ParseValue, ParseString, Quote;
    var after := ":" + (" " + ("{}" + u));
    var w := Quote(key) + after;
    assert "" + ("{" + w) == "{" + w && "" + w == w && "" + after == after;
    Hit("{", "", w);
    ReadsText(key, "", after);
    Hit(":", "", " " + ("{}" + u));
    EmptyRejected(" ", u);
    Closes("}", ",", u, Obj([]));
    assert "}" + u[1..] == u;
  }
}
