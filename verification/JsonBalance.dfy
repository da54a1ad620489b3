/** Braces that a parse consumes: every parse takes at least as many opening as closing ones, and a tree
    with an empty object makes it take one too many.  So such a tree never comes back. */
module JsonBalance {

  import opened CText
  import opened Json
  import opened JsonRoundTrip

  /** Opening less closing braces outside of strings. */
  function Net(t: string): (n: int)
    decreases |t|
  {
    if t == "" then 0
    else if t[0] == '{' then 1 + Net(t[1..])
    else if t[0] == '}' then Net(t[1..]) - 1
    else if t[0] == '"' then InString(t[1..])
    else Net(t[1..])
  }

  /** The same from inside a string on. */
  function InString(t: string): (n: int)
    decreases |t|
  {
    if t == "" then 0
    else if t[0] == '"' then Net(t[1..])
    else if t[0] == '\\' then (if |t| > 1 then InString(t[2..]) else 0)
    else InString(t[1..])
  }

  // ----- what the parser consumes -------------------------------------------------------------------

  lemma {:induction false} SpacesNet(t: string)
    ensures Net(SkipSpaces(t)) == Net(t)
    decreases |t|
  {
    if t != "" && IsSpace(t[0]) {
      SpacesNet(t[1..]);
    }
  }

  predicate Ordinary(pattern: string) {
    '{' !in pattern && '}' !in pattern && '"' !in pattern
  }

  lemma {:induction false} MatchFromNet(pattern: string, s: In, ch: char)
    requires Ordinary(pattern)
    ensures Net(MatchFrom(pattern, s, ch).1.text) == Net(s.text)
    decreases |pattern|
  {
    if pattern != "" && s.Good() {
      var (g, c) := Get(s, ch);
      if c == pattern[0] {
        assert forall d :: d in pattern[1..] ==> d in pattern;
        MatchFromNet(pattern[1..], g, c);
      } else if s.text != "" {
        assert [c] + g.text == s.text;
      }
    }
  }

  /** Matching an ordinary pattern, or not matching it, takes no brace. */
  lemma MatchNet(pattern: string, s: In)
    requires pattern != "" && pattern[0] != '\0' && Ordinary(pattern)
    ensures Net(Match(pattern, s).1.text) == Net(s.text)
  {
    SpacesNet(s.text);
    var w := Ws(s);
    if w.Good() {
      var (g, c) := Get(w, '\0');
      if c == pattern[0] {
        assert forall d :: d in pattern[1..] ==> d in pattern;
        MatchFromNet(pattern[1..], g, c);
      } else {
        assert [c] + g.text == w.text;
      }
    }
  }

  /** Matching one special character. */
  lemma SpecialNet(pattern: string, s: In)
    requires pattern == "{" || pattern == "}" || pattern == "\""
    ensures
      var (ok, r) := Match(pattern, s);
      if !ok then Net(r.text) == Net(s.text)
      else r.Good() && Net(s.text) == if pattern == "{" then 1 + Net(r.text)
                                      else if pattern == "}" then Net(r.text) - 1
                                      else InString(r.text)
  {
    SpacesNet(s.text);
    var w := Ws(s);
    if w.Good() {
      var (g, c) := Get(w, '\0');
      assert [c] + g.text == w.text;
    }
  }

  lemma {:induction false} StringFromNet(s: In, ch: char, value: string)
    requires s.Good() || s.text == ""
    ensures Net(StringFrom(s, ch, value).rest.text) == InString(s.text)
    decreases |s.text|, if s.Good() then 1 else 0
  {
    if s.Good() {
      var (g, c) := Get(s, ch);
      if s.text == "" {
      } else if c == '\\' {
        var (h, d) := Get(g, c);
        assert g.text != "" ==> h.text == s.text[2..];
        StringFromNet(h, d, value + Unescape(d));
      } else if c != '"' {
        StringFromNet(g, c, value + [c]);
      }
    }
  }

  lemma ParseStringNet(s: In)
    ensures Net(ParseString(s).rest.text) == Net(s.text)
  {
    hide Match, StringFrom;
    SpecialNet("\"", s);
    var (ok, m) := Match("\"", s);
    if ok {
      StringFromNet(m, '\0', "");
    }
  }

  lemma ParseWordNet(s: In)
    ensures Net(ParseWord(s).rest.text) == Net(s.text)
  {
    hide Match;
    MatchNet("true", s);
    var a := Match("true", s).1;
    MatchNet("false", a);
    MatchNet("null", Match("false", a).1);
  }

  lemma CloseNet(bracket: string, s: In, v: Value)
    requires bracket == "]" || bracket == "}"
    ensures Net(Close(bracket, s, v).rest.text) <= Net(s.text) + if bracket == "}" then 1 else 0
  {
    hide Match;
    if bracket == "]" {
      MatchNet(bracket, s);
    } else {
      SpecialNet(bracket, s);
    }
  }

  /** No parse leaves a text with more to close than it found. */
  lemma {:induction false} ParseValueNet(s: In)
    ensures !ParseValue(s).Number? ==> Net(ParseValue(s).rest.text) <= Net(s.text)
    decreases |s.text|, 3
  {
    hide ParseString, ParseWord, AtNumber, ParseArray, ParseObject;
    var str := ParseString(s);
    ParseStringNet(s);
    if !str.ok && !AtNumber(str.rest) {
      SpacesNet(str.rest.text);
      var c := Cleared(str.rest);
      var word := ParseWord(c);
      ParseWordNet(c);
      if word.Rejected? {
        ParseArrayNet(word.rest);
        if ParseArray(word.rest).Rejected? {
          ParseObjectNet(ParseArray(word.rest).rest);
        }
        ParseObjectNet(word.rest);
      }
    }
  }

  lemma {:induction false} ParseArrayNet(s: In)
    ensures !ParseArray(s).Number? ==> Net(ParseArray(s).rest.text) <= Net(s.text)
    decreases |s.text|, 2
  {
    hide Match, Items;
    MatchNet("[", s);
    if Match("[", s).0 {
      ItemsNet(Match("[", s).1, []);
    }
  }

  lemma {:induction false} ItemsNet(s: In, items: seq<Value>)
    ensures !Items(s, items).Number? ==> Net(Items(s, items).rest.text) <= Net(s.text)
    decreases |s.text|, 4
  {
    hide Match, ParseValue, Close;
    ParseValueNet(s);
    match ParseValue(s)
    case Parsed(v, t) =>
      MatchNet(",", t);
      if Match(",", t).0 {
        ItemsNet(Match(",", t).1, items + [v]);
      } else {
        CloseNet("]", Match(",", t).1, Arr(items + [v]));
      }
    case Rejected(t) => CloseNet("]", t, Arr(items));
    case Number =>
  }

  lemma {:induction false} ParseObjectNet(s: In)
    ensures !ParseObject(s).Number? ==> Net(ParseObject(s).rest.text) <= Net(s.text)
    decreases |s.text|, 2
  {
    hide Match, Members;
    SpecialNet("{", s);
    if Match("{", s).0 {
      MembersNet(Match("{", s).1, []);
    }
  }

  /** Inside an object one closing brace may be taken. */
  lemma {:induction false} MembersNet(s: In, members: seq<Member>)
    ensures !Members(s, members).Number? ==> Net(Members(s, members).rest.text) <= Net(s.text) + 1
    decreases |s.text|, 4
  {
    hide Match, ParseValue, Close, ParseString, Put;
    ParseStringNet(s);
    var key := ParseString(s);
    if key.ok {
      MatchNet(":", key.rest);
      var (colon, m) := Match(":", key.rest);
      if colon {
        ParseValueNet(m);
        match ParseValue(m)
        case Parsed(v, t) =>
          var all := Put(members, key.value, v);
          MatchNet(",", t);
          if Match(",", t).0 {
            MembersNet(Match(",", t).1, all);
          } else {
            CloseNet("}", Match(",", t).1, Obj(all));
          }
        case Rejected(t) => CloseNet("}", t, Obj(members));
        case Number =>
      }
    }
  }

  // ----- what the printer prints --------------------------------------------------------------------

  lemma {:induction false} GapNet(gap: string, t: string)
    requires AllSpace(gap)
    ensures Net(gap + t) == Net(t)
    decreases |gap|
  {
    if gap == "" {
      assert gap + t == t;
    } else {
      assert (gap + t)[1..] == gap[1..] + t;
      GapNet(gap[1..], t);
    }
  }

  lemma {:induction false} OrdinaryNet(run: string, t: string)
    requires Ordinary(run)
    ensures Net(run + t) == Net(t)
    decreases |run|
  {
    if run == "" {
      assert run + t == t;
    } else {
      assert (run + t)[1..] == run[1..] + t;
      assert forall d :: d in run[1..] ==> d in run;
      OrdinaryNet(run[1..], t);
    }
  }

  lemma {:induction false} HexNet(run: string, t: string)
    requires '"' !in run && '\\' !in run
    ensures InString(run + t) == InString(t)
    decreases |run|
  {
    if run == "" {
      assert run + t == t;
    } else {
      assert (run + t)[1..] == run[1..] + t;
      assert forall d :: d in run[1..] ==> d in run;
      HexNet(run[1..], t);
    }
  }

  lemma EscapedNet(d: char, t: string)
    ensures InString(['\\', d] + t) == InString(t)
  {
    assert (['\\', d] + t)[2..] == t;
  }

  lemma CharNet(c: char, t: string)
    ensures InString(Escape(c) + t) == InString(t)
  {
    hide HexText, InString;
    if Odd(c) {
      HexIsPlain(c);
      assert Escape(c) + t == ['\\', 'u'] + (HexText(c) + t);
      EscapedNet('u', HexText(c) + t);
      HexNet(HexText(c), t);
    } else {
      EscapePairs(c);
      hide Escape, Unescape;
      if Escape(c) == [c] && c != '"' && c != '\\' {
        HexNet([c], t);
      } else {
        assert Escape(c) == ['\\', Escape(c)[1]];
        EscapedNet(Escape(c)[1], t);
      }
    }
  }

  lemma {:induction false} CharsNet(s: string, t: string)
    ensures InString(Chars(s) + t) == InString(t)
    decreases |s|
  {
    hide Escape, InString;
    if s == "" {
      assert Chars(s) + t == t;
    } else {
      assert Chars(s) + t == Escape(s[0]) + (Chars(s[1..]) + t);
      CharNet(s[0], Chars(s[1..]) + t);
      CharsNet(s[1..], t);
    }
  }

  lemma QuoteNet(s: string, t: string)
    ensures Net(Quote(s) + t) == Net(t)
  {
    hide Chars;
    CharsNet(s, "\"" + t);
    assert Quote(s) + t == "\"" + (Chars(s) + ("\"" + t));
    assert ("\"" + (Chars(s) + ("\"" + t)))[1..] == Chars(s) + ("\"" + t);
    assert ("\"" + t)[1..] == t;
  }

  lemma BraceNet(t: string)
    ensures Net("{" + t) == 1 + Net(t) && Net("}" + t) == Net(t) - 1
    ensures Net("[" + t) == Net("]" + t) == Net("," + t) == Net(" " + t) == Net(":" + t) == Net(t)
  {
    assert ("{" + t)[1..] == t && ("}" + t)[1..] == t;
    assert ("[" + t)[1..] == t && ("]" + t)[1..] == t && ("," + t)[1..] == t;
    assert (" " + t)[1..] == t && (":" + t)[1..] == t;
  }

  /** A printed tree closes what it opens. */
  lemma {:induction false} PrintNet(v: Value, rest: string)
    ensures Net(Print(v) + rest) == Net(rest)
    decreases v, 1
  {
    hide Net, PrintItems, PrintMembers, Quote;
    match v
    case Str(s) => QuoteNet(s, rest);
    case Bool(b) => OrdinaryNet(Print(v), rest);
    case Null => OrdinaryNet(Print(v), rest);
    case Arr(items) =>
      assert Print(v) + rest == "[" + (PrintItems(items) + ("]" + rest));
      BraceNet(PrintItems(items) + ("]" + rest));
      ItemsPrintNet(items, "]" + rest);
      BraceNet(rest);
    case Obj(members) =>
      assert Print(v) + rest == "{" + (PrintMembers(members) + ("}" + rest));
      BraceNet(PrintMembers(members) + ("}" + rest));
      MembersPrintNet(members, "}" + rest);
      BraceNet(rest);
  }

  lemma {:induction false} ItemsPrintNet(items: seq<Value>, t: string)
    ensures Net(PrintItems(items) + t) == Net(t)
    decreases items, 0
  {
    hide Net, Print;
    if items == [] {
      assert PrintItems(items) + t == t;
    } else if |items| == 1 {
      assert PrintItems(items) + t == Print(items[0]) + t;
      PrintNet(items[0], t);
    } else {
      var u := PrintItems(items[1..]) + t;
      assert PrintItems(items) + t == Print(items[0]) + ("," + (" " + u));
      PrintNet(items[0], "," + (" " + u));
      BraceNet(" " + u);
      BraceNet(u);
      ItemsPrintNet(items[1..], t);
    }
  }

  lemma {:induction false} MembersPrintNet(members: seq<Member>, t: string)
    ensures Net(PrintMembers(members) + t) == Net(t)
    decreases members, 0
  {
    hide Net, Print, Quote, PrintMembers;
    MembersText(members, t);
    if members != [] {
      var k, v := members[0].key, members[0].value;
      if |members| == 1 {
        MemberPrintNet(k, v, t);
      } else {
        var u := PrintMembers(members[1..]) + t;
        MemberPrintNet(k, v, "," + (" " + u));
        BraceNet(" " + u);
        BraceNet(u);
        MembersPrintNet(members[1..], t);
      }
    }
  }

  lemma MembersText(members: seq<Member>, t: string)
    ensures
      if members == [] then PrintMembers(members) + t == t
      else PrintMembers(members) + t
           == Quote(members[0].key) + (":" + (" " + (Print(members[0].value)
              + (if |members| == 1 then t else "," + (" " + (PrintMembers(members[1..]) + t))))))
  {
    hide Print, Quote;
    if members == [] {
      assert PrintMembers(members) + t == t;
    } else {
      var q, p := Quote(members[0].key), Print(members[0].value);
      if |members| == 1 {
        assert PrintMembers(members) == q + ": " + p + "";
        OnePiece(q, p, t);
      } else {
        assert PrintMembers(members) == q + ": " + p + (", " + PrintMembers(members[1..]));
        TwoPieces(q, p, PrintMembers(members[1..]), t);
      }
    }
  }

  lemma OnePiece(q: string, p: string, t: string)
    ensures q + ": " + p + "" + t == q + (":" + (" " + (p + t)))
  {
  }

  lemma TwoPieces(q: string, p: string, u: string, t: string)
    ensures q + ": " + p + (", " + u) + t == q + (":" + (" " + (p + ("," + (" " + (u + t))))))
  {
  }

  lemma MemberPrintNet(k: string, v: Value, t: string)
    ensures Net(Quote(k) + (":" + (" " + (Print(v) + t)))) == Net(t)
    decreases v, 2
  {
    hide Net, Print, Quote;
    QuoteNet(k, ":" + (" " + (Print(v) + t)));
    BraceNet(" " + (Print(v) + t));
    BraceNet(Print(v) + t);
    PrintNet(v, t);
  }

  // ----- trees with an empty object -----------------------------------------------------------------

  /** The parse leaves a text with less to close than `n`, unless it meets a number. */
  predicate Below(p: Parse, n: int) {
    !p.Number? ==> Net(p.rest.text) < n
  }

  /** A printed tree with an empty object takes one opening brace too many. */
  lemma {:induction false} HollowValue(v: Value, gap: string, rest: string)
    requires Prints(v) && !Full(v) && AllSpace(gap)
    ensures Below(ParseValue(Good(gap + (Print(v) + rest))), Net(rest))
    decreases v, 1
  {
    hide Net, ParseValue, PrintItems, PrintMembers, ParseArray, ParseObject;
    match v
    case Arr(items) =>
      HollowArray(items, rest);
      ArrayIsTried(v, gap, rest);
      assert Print(v) + rest == "[" + (PrintItems(items) + ("]" + rest));
      var r := ParseArray(Good(Print(v) + rest));
      if r.Rejected? {
        ParseObjectNet(r.rest);
      }
    case Obj(members) =>
      if members == [] {
        assert Print(v) + rest == "{}" + rest by { EmptyText(); }
        EmptyRejected(gap, rest);
        BraceNet(rest);
      } else {
        HollowObject(members, rest);
        ObjectIsTried(v, gap, rest);
        assert Print(v) + rest == "{" + (PrintMembers(members) + ("}" + rest));
      }
  }

  lemma EmptyText()
    ensures Print(Obj([])) == "{}"
  {
  }

  lemma ArrayIsTried(v: Value, gap: string, rest: string)
    requires v.Arr? && AllSpace(gap)
    ensures
      var r := ParseArray(Good(Print(v) + rest));
      ParseValue(Good(gap + (Print(v) + rest))) == if r.Rejected? then ParseObject(r.rest) else r
  {
    hide ParseString, ParseWord, AtNumber, Cleared, PrintItems, ParseObject, ParseArray;
    NotAString(v, gap, rest);
    NotAWord(Print(v) + rest);
    assert (Print(v) + rest)[0] == '[';
  }

  lemma {:induction false} HollowArray(items: seq<Value>, rest: string)
    requires items != [] && (forall i :: 0 <= i < |items| ==> Prints(items[i]))
    requires exists i :: 0 <= i < |items| && !Full(items[i])
    ensures Below(ParseArray(Good("[" + (PrintItems(items) + ("]" + rest)))), Net(rest))
    decreases items, 1
  {
    hide Net, Match, PrintItems, Items;
    var t := PrintItems(items) + ("]" + rest);
    Hit("[", "", t);
    assert "" + ("[" + t) == "[" + t && "" + t == t;
    HollowItems(items, "", [], rest);
  }

  /** The text behind the first item of an array. */
  function AfterItem(items: seq<Value>, rest: string): (text: string)
    requires items != []
  {
    if |items| == 1 then "]" + rest else "," + (" " + (PrintItems(items[1..]) + ("]" + rest)))
  }

  lemma FirstItem(items: seq<Value>, rest: string)
    requires items != []
    ensures PrintItems(items) + ("]" + rest) == Print(items[0]) + AfterItem(items, rest)
    ensures Net(AfterItem(items, rest)) == Net(rest)
  {
    hide Net, Print;
    BraceNet(rest);
    if |items| > 1 {
      var u := PrintItems(items[1..]) + ("]" + rest);
      BraceNet(" " + u);
      BraceNet(u);
      ItemsPrintNet(items[1..], "]" + rest);
    }
  }

  lemma {:induction false} HollowItems(items: seq<Value>, gap: string, done: seq<Value>, rest: string)
    requires items != [] && AllSpace(gap) && (forall i :: 0 <= i < |items| ==> Prints(items[i]))
    requires exists i :: 0 <= i < |items| && !Full(items[i])
    ensures Below(Items(Good(gap + (PrintItems(items) + ("]" + rest))), done), Net(rest))
    decreases items, 0
  {
    hide Net, ParseValue, Match, Print, PrintItems, Reparse, Full, Prints, Items, AfterItem;
    FirstItem(items, rest);
    var t := AfterItem(items, rest);
    if Full(items[0]) {
      var i :| 0 <= i < |items| && !Full(items[i]);
      assert items[1..][i - 1] == items[i];
      HollowItems(items[1..], " ", done + [Reparse(items[0])], rest);
      FullItem(items, gap, done, rest);
    } else {
      HollowValue(items[0], gap, t);
      ItemsAfter(Good(gap + (Print(items[0]) + t)), done);
    }
  }

  /** The loop passes a full item that others follow. */
  lemma FullItem(items: seq<Value>, gap: string, done: seq<Value>, rest: string)
    requires |items| > 1 && AllSpace(gap) && Full(items[0])
    ensures Items(Good(gap + (Print(items[0]) + AfterItem(items, rest))), done)
         == Items(Good(" " + (PrintItems(items[1..]) + ("]" + rest))), done + [Reparse(items[0])])
  {
    hide ParseValue, Match, Print, PrintItems, Reparse, Full, Items;
    var u := PrintItems(items[1..]) + ("]" + rest);
    ReadsValue(items[0], gap, AfterItem(items, rest));
    Hit(",", "", " " + u);
    assert "" + ("," + (" " + u)) == "," + (" " + u);
    ItemsTurn(Good(gap + (Print(items[0]) + AfterItem(items, rest))), done);
  }

  lemma ItemsTurn(s: In, done: seq<Value>)
    ensures
      var p := ParseValue(s);
      p.Parsed? && Match(",", p.rest).0 ==> Items(s, done) == Items(Match(",", p.rest).1, done + [p.value])
  {
    hide ParseValue, Match;
  }

  /** After the first value the loop takes no brace more than it leaves. */
  lemma ItemsAfter(s: In, done: seq<Value>)
    ensures !Items(s, done).Number? ==>
      !ParseValue(s).Number? && Net(Items(s, done).rest.text) <= Net(ParseValue(s).rest.text)
  {
    hide ParseValue, Match, Close, Net;
    match ParseValue(s)
    case Parsed(v, t) =>
      MatchNet(",", t);
      var (more, m) := Match(",", t);
      if more {
        ItemsNet(m, done + [v]);
      } else {
        CloseNet("]", m, Arr(done + [v]));
      }
    case Rejected(t) => CloseNet("]", t, Arr(done));
    case Number =>
  }

  lemma {:induction false} HollowObject(members: seq<Member>, rest: string)
    requires members != [] && (forall i :: 0 <= i < |members| ==> Prints(members[i].value))
    requires exists i :: 0 <= i < |members| && !Full(members[i].value)
    ensures Below(ParseObject(Good("{" + (PrintMembers(members) + ("}" + rest)))), Net(rest))
    decreases members, 1
  {
    hide Net, Match, PrintMembers, Members;
    var t := PrintMembers(members) + ("}" + rest);
    Hit("{", "", t);
    assert "" + ("{" + t) == "{" + t && "" + t == t;
    HollowMembers(members, "", [], rest);
  }

  /** The text behind the value of the first member of an object. */
  function AfterMember(members: seq<Member>, rest: string): (text: string)
    requires members != []
  {
    if |members| == 1 then "}" + rest else "," + (" " + (PrintMembers(members[1..]) + ("}" + rest)))
  }

  lemma FirstMember(members: seq<Member>, rest: string)
    requires members != []
    ensures PrintMembers(members) + ("}" + rest)
         == Quote(members[0].key) + (":" + (" " + (Print(members[0].value) + AfterMember(members, rest))))
  {
    hide Print, Quote, PrintMembers;
    MembersText(members, "}" + rest);
  }

  lemma AfterMemberNet(members: seq<Member>, rest: string)
    requires members != []
    ensures Net(AfterMember(members, rest)) == Net(rest) - 1
  {
    hide Net, PrintMembers;
    BraceNet(rest);
    if |members| > 1 {
      var u := PrintMembers(members[1..]) + ("}" + rest);
      BraceNet(" " + u);
      BraceNet(u);
      MembersPrintNet(members[1..], "}" + rest);
    }
  }

  lemma {:induction false} HollowMembers(members: seq<Member>, gap: string, done: seq<Member>, rest: string)
    requires members != [] && AllSpace(gap) && (forall i :: 0 <= i < |members| ==> Prints(members[i].value))
    requires exists i :: 0 <= i < |members| && !Full(members[i].value)
    ensures Below(Members(Good(gap + (PrintMembers(members) + ("}" + rest))), done), Net(rest))
    decreases members, 0
  {
    hide Net, ParseValue, ParseString, Match, Print, PrintMembers, Reparse, Full, Prints, Members, Quote, Reread, Put;
    hide AfterMember;
    FirstMember(members, rest);
    AfterMemberNet(members, rest);
    var k, v := members[0].key, members[0].value;
    var t := AfterMember(members, rest);
    if Full(v) {
      var i :| 0 <= i < |members| && !Full(members[i].value);
      assert members[1..][i - 1] == members[i];
      HollowMembers(members[1..], " ", Put(done, Reread(k), Reparse(v)), rest);
      FullMember(members, gap, done, rest);
    } else {
      ReadsName(k, gap, " " + (Print(v) + t));
      HollowValue(v, " ", t);
      MembersAfter(Good(gap + (Quote(k) + (":" + (" " + (Print(v) + t))))), done);
    }
  }

  /** The loop passes a member with a full value that others follow. */
  lemma FullMember(members: seq<Member>, gap: string, done: seq<Member>, rest: string)
    requires |members| > 1 && AllSpace(gap) && Full(members[0].value)
    ensures
      var k, v := members[0].key, members[0].value;
      Members(Good(gap + (Quote(k) + (":" + (" " + (Print(v) + AfterMember(members, rest)))))), done)
      == Members(Good(" " + (PrintMembers(members[1..]) + ("}" + rest))), Put(done, Reread(k), Reparse(v)))
  {
    hide ParseValue, ParseString, Match, Print, PrintMembers, Reparse, Full, Members, Quote, Reread, Put;
    var k, v := members[0].key, members[0].value;
    var t := AfterMember(members, rest);
    var u := PrintMembers(members[1..]) + ("}" + rest);
    ReadsKey(k, v, gap, t);
    Hit(",", "", " " + u);
    assert "" + ("," + (" " + u)) == "," + (" " + u);
    MembersTurn(Good(gap + (Quote(k) + (":" + (" " + (Print(v) + t))))), done);
  }

  lemma MembersTurn(s: In, done: seq<Member>)
    ensures
      var key := ParseString(s);
      var (colon, m) := Match(":", key.rest);
      var p := ParseValue(m);
      key.ok && colon && p.Parsed? && Match(",", p.rest).0 ==>
        Members(s, done) == Members(Match(",", p.rest).1, Put(done, key.value, p.value))
  {
    hide ParseValue, ParseString, Match, Put;
  }

  /** After the first value the loop closes one brace at most. */
  lemma MembersAfter(s: In, done: seq<Member>)
    requires ParseString(s).ok && Match(":", ParseString(s).rest).0
    ensures
      var p := ParseValue(Match(":", ParseString(s).rest).1);
      !Members(s, done).Number? ==>
        !p.Number? && Net(Members(s, done).rest.text) <= Net(p.rest.text) + 1
  {
    hide ParseValue, ParseString, Match, Put, Close, Net;
    var key := ParseString(s);
    match ParseValue(Match(":", key.rest).1)
    case Parsed(v, t) =>
      MatchNet(",", t);
      var all := Put(done, key.value, v);
      var (more, n) := Match(",", t);
      if more {
        MembersNet(n, all);
      } else {
        CloseNet("}", n, Obj(all));
      }
    case Rejected(t) => CloseNet("}", t, Obj(done));
    case Number =>
  }

  /** Of all trees the printer prints, and whatever follows the text, exactly those come back that have no
      empty object and only characters that survive. */
  lemma RoundTripExactly(v: Value, rest: string)
    requires Prints(v) && Ordered(v)
    ensures ParseValue(Good(Print(v) + rest)) == Parsed(v, Good(rest)) <==> Clean(v) && Full(v)
  {
    hide ParseValue, Print, Clean, Ordered, Full, Prints, Net;
    if Full(v) {
      RoundTrip(v, rest);
    } else {
      HollowValue(v, "", rest);
      assert "" + (Print(v) + rest) == Print(v) + rest;
    }
  }

  /** A parse of a printed tree that leaves no text and gives the tree is the one of the round trip. */
  lemma EndsGood(v: Value)
    requires Prints(v) && Ordered(v)
    ensures
      var p := ParseValue(Good(Print(v) + ""));
      p.Parsed? && p.value == v && p.rest.text == "" ==> p.rest == Good("")
  {
    hide ParseValue, Print, Ordered, Full, Prints, Net;
    assert "" + (Print(v) + "") == Print(v) + "";
    if Full(v) {
      ReadsValue(v, "", "");
    } else {
      HollowValue(v, "", "");
    }
  }
}
