/** The JSON parser and printer as they work on streams. */
module JsonStreams {

  import opened CText
  import opened Json
  import RT = JsonRoundTrip
  import JsonBalance

  datatype Outcome = Success(value: Value) | Failure | Numeric

  /** An outcome with the stream it leaves, against what the grammar functions say.  Where a number
      starts the stream is not followed any further. */
  predicate Agrees(o: Outcome, left: In, p: Parse) {
    match p
    case Parsed(v, rest) => o == Success(v) && left == rest
    case Rejected(rest) => o == Failure && left == rest
    case Number => o == Numeric
  }

  class InputStream {
    var text: string
    var eof: bool
    var fail: bool

    ghost function State(): (s: In)
      reads this
    {
      In(text, eof, fail)
    }

    constructor (text: string)
      ensures State() == In(text, false, false)
    {
      this.text, this.eof, this.fail := text, false, false;
    }

    method SkipWs()
      modifies this
      ensures State() == Ws(old(State()))
    {
      while text != "" && IsSpace(text[0])
        invariant SkipSpaces(text) == SkipSpaces(old(text)) && eof == old(eof) && fail == old(fail)
        decreases |text|
      {
        text := text[1..];
      }
      if text == "" {
        eof := true;
      }
    }

    method Get(ch: char) returns (c: char)
      modifies this
      ensures (State(), c) == Json.Get(old(State()), ch)
    {
      c := ch;
      if eof || fail {
        fail := true;
      } else if text == "" {
        eof, fail := true, true;
      } else {
        c := text[0];
        text := text[1..];
      }
    }

    method PutBack(ch: char)
      modifies this
      ensures State() == Json.PutBack(old(State()), ch)
    {
      if eof || fail {
        fail := true;
      } else {
        text := [ch] + text;
      }
    }

    method Match(pattern: string) returns (ok: bool)
      requires pattern != "" && pattern[0] != '\0'
      modifies this
      ensures (ok, State()) == Json.Match(pattern, old(State()))
    {
      SkipWs();
      var cur := 0;
      var ch := '\0';
      ghost var w := State();
      assert Json.Match(pattern, old(State())) == MatchFrom(pattern, w, ch);
      while !fail && !eof && cur < |pattern|
        invariant 0 <= cur <= |pattern|
        invariant MatchFrom(pattern[cur..], State(), ch) == MatchFrom(pattern, w, '\0')
        decreases |pattern| - cur
      {
        ch := Get(ch);
        assert pattern[cur..][1..] == pattern[cur + 1..];
        if ch != pattern[cur] {
          PutBack(ch);
          return false;
        }
        cur := cur + 1;
      }
      return cur == |pattern|;
    }

    method ParseString() returns (ok: bool, value: string)
      modifies this
      ensures Text(ok, if ok then value else Json.ParseString(old(State())).value, State())
           == Json.ParseString(old(State()))
    {
      hide Json.Match;
      value := "";
      var matched := Match("\"");
      if !matched {
        return false, value;
      }
      ghost var s := State();
      var ch := '\0';
      while !eof && !fail
        invariant StringFrom(State(), ch, value) == StringFrom(s, '\0', "")
        decreases |text|, if State().Good() then 1 else 0
      {
        ch := Get(ch);
        if ch == '"' {
          break;
        }
        if ch == '\\' {
          ch := Get(ch);
          value := value + Unescape(ch);
        } else {
          value := value + [ch];
        }
      }
      ok := !fail && ch == '"';
    }

    method ParseBool() returns (ok: bool, value: bool)
      modifies this
      ensures
        var (t, a) := Json.Match("true", old(State()));
        if t then ok && value && State() == a
        else (ok, State()) == Json.Match("false", a) && !value
    {
      hide Json.Match;
      var t := Match("true");
      if t {
        return true, true;
      }
      ok := Match("false");
      return ok, false;
    }

    method ParseNull() returns (ok: bool)
      modifies this
      ensures (ok, State()) == Json.Match("null", old(State()))
    {
      ok := Match("null");
    }

    /** Whether a number starts here; if none does, `parse_number` fails and clears the stream bits. */
    method ParseNumber() returns (numeric: bool)
      modifies this
      ensures numeric == AtNumber(old(State()))
      ensures !numeric ==> State() == Cleared(old(State()))
    {
      SkipWs();
      if !eof && !fail && StartsNumber(text[0]) {
        return true;
      }
      eof, fail := false, false;
      return false;
    }

    method ParseValue() returns (o: Outcome)
      modifies this
      ensures Agrees(o, State(), Json.ParseValue(old(State())))
      decreases |text|, 3
    {
      hide AtNumber, Cleared, Json.Match, Json.ParseArray, Json.ParseObject;
      ghost var s := State();
      var ok, str := ParseString();
      if ok {
        return Success(Str(str));
      }
      assert State() == Json.ParseString(s).rest;
      var numeric := ParseNumber();
      if numeric {
        return Numeric;
      }
      var known, flag := ParseBool();
      if known {
        return Success(Bool(flag));
      }
      known := ParseNull();
      if known {
        return Success(Null);
      }
      assert State() == ParseWord(Cleared(Json.ParseString(s).rest)).rest;
      if !eof && !fail && text != "" && text[0] == '[' {
        o := ParseArray();
        if !o.Failure? {
          return o;
        }
      }
      o := ParseObject();
    }

    method ParseArray() returns (o: Outcome)
      modifies this
      ensures Agrees(o, State(), Json.ParseArray(old(State())))
      decreases |text|, 2
    {
      hide Json.ParseValue, Json.Match;
      ghost var s := State();
      var ok := Match("[");
      if !ok {
        return Failure;
      }
      ghost var all := Items(State(), []);
      var items := [];
      var more := true;
      while more
        invariant more ==> Items(State(), items) == all && |text| < |s.text|
        invariant !more ==> Close("]", State(), Arr(items)) == all
        decreases more, |text|
      {
        var v := ParseValue();
        if v.Numeric? {
          return Numeric;
        }
        if v.Failure? {
          more := false;
          break;
        }
        items := items + [v.value];
        more := Match(",");
      }
      ok := Match("]");
      return if ok then Success(Arr(items)) else Failure;
    }

    method ParseObject() returns (o: Outcome)
      modifies this
      ensures Agrees(o, State(), Json.ParseObject(old(State())))
      decreases |text|, 2
    {
      hide Json.ParseValue, Json.Match, Json.ParseString, Put;
      ghost var s := State();
      var ok := Match("{");
      if !ok {
        return Failure;
      }
      ghost var all := Members(State(), []);
      var members := [];
      var more := true;
      while more
        invariant more ==> Members(State(), members) == all && |text| < |s.text|
        invariant !more ==> Close("}", State(), Obj(members)) == all
        decreases more, |text|
      {
        var key: string;
        ok, key := ParseString();
        if !ok {
          return Failure;
        }
        ok := Match(":");
        if !ok {
          return Failure;
        }
        var v := ParseValue();
        if v.Numeric? {
          return Numeric;
        }
        if v.Failure? {
          more := false;
          break;
        }
        members := Put(members, key, v.value);
        more := Match(",");
      }
      ok := Match("}");
      return if ok then Success(Obj(members)) else Failure;
    }
  }

  class OutputStream {
    var text: string

    constructor ()
      ensures text == ""
    {
      text := "";
    }

    method Write(s: string)
      modifies this
      ensures text == old(text) + s
    {
      text := text + s;
    }

    method StreamString(s: string)
      modifies this
      ensures text == old(text) + Quote(s)
    {
      hide Escape;
      ghost var start := text;
      Write("\"");
      for i := 0 to |s|
        invariant text + Chars(s[i..]) == start + "\"" + Chars(s)
      {
        assert s[i..][1..] == s[i + 1..];
        ghost var was := text;
        Write(Escape(s[i]));
        assert was + (Escape(s[i]) + Chars(s[i + 1..])) == was + Escape(s[i]) + Chars(s[i + 1..]);
      }
      Write("\"");
      assert start + "\"" + Chars(s) + "\"" == start + Quote(s);
    }

    /** False: an empty array was reached, whose last item the source would fetch. */
    method PrintValue(v: Value) returns (ok: bool)
      modifies this
      ensures ok == Prints(v)
      ensures ok ==> text == old(text) + Print(v)
      decreases v, 1
    {
      ok := true;
      match v
      case Str(s) => StreamString(s);
      case Bool(b) =>
        if b {
          Write("true");
        } else {
          Write("false");
        }
      case Null => Write("null");
      case Arr(items) => ok := PrintArray(items);
      case Obj(members) => ok := PrintObject(members);
    }

    method PrintArray(items: seq<Value>) returns (ok: bool)
      modifies this
      ensures ok == Prints(Arr(items))
      ensures ok ==> text == old(text) + ("[" + PrintItems(items) + "]")
      decreases items, 0
    {
      hide Print, Prints, PrintItems;
      PrintsParts(items, []);
      ghost var all := text + "[" + PrintItems(items);
      ghost var start := text;
      Write("[");
      if items == [] {
        return false;
      }
      assert items[0..] == items;
      for i := 0 to |items| - 1
        invariant forall k :: 0 <= k < i ==> Prints(items[k])
        invariant text + PrintItems(items[i..]) == all
      {
        ItemsStep(items, i, text, all);
        ok := PrintValue(items[i]);
        if !ok {
          return false;
        }
        Write(", ");
      }
      ItemsStep(items, |items| - 1, text, all);
      ok := PrintValue(items[|items| - 1]);
      if !ok {
        return false;
      }
      assert text == all;
      Write("]");
      assert start + "[" + PrintItems(items) + "]" == start + ("[" + PrintItems(items) + "]");
    }

    method PrintObject(members: seq<Member>) returns (ok: bool)
      modifies this
      ensures ok == Prints(Obj(members))
      ensures ok ==> text == old(text) + ("{" + PrintMembers(members) + "}")
      decreases members, 0
    {
      hide Print, Prints, Quote, PrintMembers;
      PrintsParts([], members);
      ghost var all := text + "{" + PrintMembers(members);
      ghost var start := text;
      Write("{");
      assert members[0..] == members;
      var i := 0;
      while i < |members|
        invariant 0 <= i <= |members| && forall k :: 0 <= k < i ==> Prints(members[k].value)
        invariant text + PrintMembers(members[i..]) == all
      {
        MembersStep(members, i, text, all);
        ok := PrintMember(members[i]);
        if !ok {
          return false;
        }
        i := i + 1;
        if i < |members| {
          Write(", ");
        }
      }
      NoMembers();
      assert members[i..] == [];
      assert text == all;
      Write("}");
      assert start + "{" + PrintMembers(members) + "}" == start + ("{" + PrintMembers(members) + "}");
      return true;
    }

    /** The body of the loop over the members. */
    method PrintMember(m: Member) returns (ok: bool)
      modifies this
      ensures ok == Prints(m.value)
      ensures ok ==> text == old(text) + Quote(m.key) + ": " + Print(m.value)
      decreases m, 2
    {
      hide Print, Prints, Quote;
      StreamString(m.key);
      Write(": ");
      ok := PrintValue(m.value);
    }
  }

  lemma PrintsParts(items: seq<Value>, members: seq<Member>)
    ensures Prints(Arr(items)) <==> items != [] && forall k :: 0 <= k < |items| ==> Prints(items[k])
    ensures Prints(Obj(members)) <==> forall k :: 0 <= k < |members| ==> Prints(members[k].value)
  {
  }

  /** One turn of the loop over the items. */
  lemma ItemsStep(items: seq<Value>, i: nat, was: string, all: string)
    requires i < |items| && was + PrintItems(items[i..]) == all
    ensures
      if i + 1 < |items| then was + Print(items[i]) + ", " + PrintItems(items[i + 1..]) == all
      else was + Print(items[i]) == all
  {
    hide Print;
    assert items[i..][1..] == items[i + 1..];
    var p, more := Print(items[i]), PrintItems(items[i + 1..]);
    if i + 1 < |items| {
      assert was + (p + (", " + more)) == was + p + ", " + more;
    } else {
      assert was + (p + "") == was + p;
    }
  }

  /** One turn of the loop over the members. */
  lemma MembersStep(members: seq<Member>, i: nat, was: string, all: string)
    requires i < |members| && was + PrintMembers(members[i..]) == all
    ensures
      var front := was + Quote(members[i].key) + ": " + Print(members[i].value);
      if i + 1 < |members| then front + ", " + PrintMembers(members[i + 1..]) == all
      else front + PrintMembers(members[i + 1..]) == all
  {
    hide Print, Quote;
    assert members[i..][1..] == members[i + 1..];
    var q, p, more := Quote(members[i].key), Print(members[i].value), PrintMembers(members[i + 1..]);
    if i + 1 < |members| {
      assert was + (q + ": " + p + (", " + more)) == was + q + ": " + p + ", " + more;
    } else {
      assert was + (q + ": " + p + "") == was + q + ": " + p + more;
    }
  }

  lemma NoMembers()
    ensures PrintMembers([]) == ""
  {
  }

  /** Printing a tree and parsing the text: where the printer is defined, the tree comes back with nothing
      left exactly when it is clean and has no empty object. */
  method Reread(v: Value) returns (ok: bool, o: Outcome, left: string)
    requires RT.Ordered(v)
    ensures ok == Prints(v)
    ensures ok ==> (o == Success(v) && left == "" <==> RT.Clean(v) && RT.Full(v))
  {
    hide Json.ParseValue, Print, RT.Clean, RT.Ordered, RT.Full, Prints;
    o, left := Failure, "";
    var out := new OutputStream();
    ok := out.PrintValue(v);
    if !ok {
      return;
    }
    var input := new InputStream(out.text);
    o := input.ParseValue();
    left := input.text;
    JsonBalance.RoundTripExactly(v, "");
    assert "" + Print(v) == out.text == Print(v) + "";
    JsonBalance.EndsGood(v);
  }
}
