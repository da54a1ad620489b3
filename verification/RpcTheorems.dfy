/** The main results about XML-RPC values. */
module RpcTheorems {
  import opened CText
  import opened Shared
  import opened Numbers
  import opened XmlEntities
  import opened Xml
  import opened Rpc
  import opened RpcReader
  import opened RpcPrinter
  import opened RpcRoundTrip

  /** Reading a printed value, whatever stands before and behind it, gives `Reparse` of it and
      stops right behind its `</value>`; where `Reparse` is None the reader throws. */
  lemma ReadsPrinted(v: Value, c: Cursor, rest: string) returns (d: Cursor)
    requires Built(v) && c.Valid() && c.Rest() == Print(v) + rest
    ensures NextElement(c) == Done(true, d) && d.Valid()
    ensures match Reparse(v)
            case None => FromXml(d).Thrown?
            case Some(w) => FromXml(d).Done? && FromXml(d).value == w
                            && EndsBefore(FromXml(d).cursor, c.xml, "\n" + rest)
  {
    hide NextElement, FromXml, Reparse, Print, BodyText;
    Printed(v, rest);
    assert c.Rest() == "" + T("value", BodyText(v, rest));
    d := Next(c, "", "value", BodyText(v, rest));
    ReadsValue(v, d, rest);
  }

  /** Printing with `asXml`, then reading the text with a parser object. */
  method Reread(v: Value) returns (r: Outcome<Value>)
    requires Built(v)
    ensures r == match Reparse(v) case None => Raised case Some(w) => Returned(w)
  {
    hide NextElement, FromXml, Reparse, Print;
    var text := AsXml(v);
    var parser := new Parser(text);
    assert text[0..] == text + "";
    ghost var d := ReadsPrinted(v, parser.State(), "");
    var some := parser.GetNextElement();
    r := ReadValue(parser);
  }

  // ----- when the tree comes back as it was ----------------------------------------------------

  predicate NoneDropped(s: string) {
    forall k :: 0 <= k < |s| ==> !Dropped(s[k])
  }

  predicate PrintableLeaf(kind: Kind, text: string, num: int) {
    if kind == KString then
      num == 0 && NoneDropped(text) && (text == "" || (!AllSpace(text) && !Special(text[0])))
    else
      num == NumberOf(kind, text) && Clean(text) && !AllSpace(text)
  }

  predicate PrintableName(name: string) {
    Clean(name) && !AllSpace(name)
  }

  predicate Printable(v: Value)
    requires Built(v)
  {
    match v
    case Leaf(kind, text, num) => PrintableLeaf(kind, text, num)
    case Array(items) => forall i :: 0 <= i < |items| ==> Printable(items[i])
    case Struct(members) =>
      && (forall i :: 0 <= i < |members| ==> PrintableName(members[i].name) && Printable(members[i].value))
      && (forall i, j :: 0 <= i < j < |members| ==> Hash(members[i].name) != Hash(members[j].name))
  }

  lemma {:induction false} KeptClean(raw: string)
    ensures NoneDropped(Kept(raw))
  {
    Unfold(raw);
    if raw != "" {
      hide Kept, EncodeText, EntityName;
      KeptClean(raw[1..]);
    }
  }

  /** A text without dropped characters is blank exactly when its encoded form is. */
  lemma {:induction false} BlankEncodes(raw: string)
    requires NoneDropped(raw)
    ensures AllSpace(EncodeText(raw)) <==> AllSpace(raw)
  {
    Unfold(raw);
    if raw != "" {
      hide EncodeText, EntityName;
      var c, e := raw[0], EncodeText(raw[1..]);
      BlankEncodes(raw[1..]);
      if Special(c) {
        assert EncodeText(raw)[0] == '&';
      } else {
        assert Plain(c);
        assert EncodeText(raw) == [c] + e;
        BlankCons(c, e);
        BlankCons(c, raw[1..]);
        assert raw == [c] + raw[1..];
      }
    }
  }

  lemma BlankCons(c: char, s: string)
    ensures AllSpace([c] + s) <==> IsSpace(c) && AllSpace(s)
  {
    var t := [c] + s;
    assert t[0] == c && t[1..] == s;
    assert forall k :: 0 <= k < |s| ==> s[k] == t[1..][k];
    if AllSpace(t) {
      forall k | 0 <= k < |s| ensures IsSpace(s[k]) {
        assert IsSpace(t[k + 1]);
      }
    }
  }

  lemma LeafRoundTrip(kind: Kind, text: string, num: int)
    requires kind == KInt || kind == KBoolean || kind == KString
    ensures ReparseLeaf(kind, text) == Leaf(kind, text, num) <==> PrintableLeaf(kind, text, num)
  {
    hide EncodeText, DecodeText, AllSpace, NumberOf, Kept;
    var e := EncodeText(text);
    if kind != KString {
      EncodeFixed(text);
    } else {
      StringRoundTrip(text);
    }
  }

  lemma StringRoundTrip(text: string)
    ensures var e := EncodeText(text);
            (if AllSpace(e) then text == "" else DecodeText(e) == text) <==>
            NoneDropped(text) && (text == "" || (!AllSpace(text) && !Special(text[0])))
  {
    hide EncodeText, DecodeText, AllSpace, Kept;
    var e := EncodeText(text);
    if NoneDropped(text) {
      BlankEncodes(text);
      KeptWhole(text);
      if !AllSpace(e) {
        assert text != "" && e != "" by { BlankText(); Unfold(""); }
        DecodeOfEncode(text);
        assert |e + text| > |text|;
      } else if text != "" {
        assert AllSpace(text);
      }
    } else {
      assert text != "";
      if !AllSpace(e) {
        KeptClean(text);
        EncodeClean(text);
        DecodeOfEncode(text);
        assert NoneDropped(e) && NoneDropped(e + Kept(text));
        assert NoneDropped(DecodeText(e));
      }
    }
  }

  lemma BlankText()
    ensures AllSpace("")
  {
  }

  lemma {:induction false} ItemsRoundTrip(items: seq<Value>)
    requires forall i :: 0 <= i < |items| ==> Built(items[i])
    ensures ReparseItems(items) == Some(items) <==> forall i :: 0 <= i < |items| ==> Printable(items[i])
    decreases items, 1
  {
    hide Printable, Reparse;
    if items != [] {
      RoundTrip(items[0]);
      ItemsRoundTrip(items[1..]);
      assert forall i :: 1 <= i < |items| ==> items[i] == items[1..][i - 1];
      assert items == [items[0]] + items[1..];
      var tail := ReparseItems(items[1..]);
      if Reparse(items[0]).Some? && tail.Some? {
        var all := [Reparse(items[0]).value] + tail.value;
        assert all[0] == Reparse(items[0]).value && all[1..] == tail.value;
      }
    }
  }

  /** Members still to come fit those already there: good names, printable values, new hashes. */
  predicate Fits(members: seq<Member>, acc: seq<Member>)
    requires forall i :: 0 <= i < |members| ==> Built(members[i].value)
  {
    && (forall i :: 0 <= i < |members| ==> PrintableName(members[i].name) && Printable(members[i].value))
    && (forall i, j :: 0 <= i < j < |members| ==> Hash(members[i].name) != Hash(members[j].name))
    && (forall i :: 0 <= i < |members| ==> !HasKey(acc, members[i].name))
  }

  lemma FitsStep(members: seq<Member>, acc: seq<Member>)
    requires members != [] && forall i :: 0 <= i < |members| ==> Built(members[i].value)
    ensures Fits(members, acc) <==>
      PrintableName(members[0].name) && Printable(members[0].value) && !HasKey(acc, members[0].name) &&
      Fits(members[1..], acc + [members[0]])
  {
    hide PrintableName, Printable, Hash;
    var ms, more := members[1..], acc + [members[0]];
    assert forall i :: 1 <= i < |members| ==> members[i] == ms[i - 1];
    assert forall name :: HasKey(more, name) <==> HasKey(acc, name) || Hash(members[0].name) == Hash(name);
    if Fits(ms, more) {
      assert forall i :: 1 <= i < |members| ==> !HasKey(more, members[i].name) by {
        forall i | 1 <= i < |members| ensures !HasKey(more, members[i].name) {
          assert !HasKey(more, ms[i - 1].name);
        }
      }
      if PrintableName(members[0].name) && Printable(members[0].value) && !HasKey(acc, members[0].name) {
        forall i, j | 0 <= i < j < |members| ensures Hash(members[i].name) != Hash(members[j].name) {
          if i > 0 {
            assert Hash(ms[i - 1].name) != Hash(ms[j - 1].name);
          }
        }
        forall i | 0 <= i < |members| ensures PrintableName(members[i].name) && Printable(members[i].value) {
          if i > 0 {
            assert PrintableName(ms[i - 1].name) && Printable(ms[i - 1].value);
          }
        }
      }
    }
  }

  lemma {:induction false} MembersKeepAcc(members: seq<Member>, acc: seq<Member>)
    requires forall i :: 0 <= i < |members| ==> Built(members[i].value)
    ensures var r := ReparseMembers(members, acc);
            r.Some? ==> |r.value| == |acc| + |members| && r.value[..|acc|] == acc
    decreases members
  {
    hide Reparse, AllSpace, HasKey, EncodeText;
    if members != [] {
      var name := EncodeText(members[0].name);
      if ReparseMembers(members, acc).Some? {
        var more := acc + [Member(name, Reparse(members[0].value).value)];
        MembersKeepAcc(members[1..], more);
        var r := ReparseMembers(members, acc).value;
        assert r[..|more|][..|acc|] == r[..|acc|] && more[..|acc|] == acc;
      }
    }
  }

  lemma {:induction false} MembersRoundTrip(members: seq<Member>, acc: seq<Member>)
    requires forall i :: 0 <= i < |members| ==> Built(members[i].value)
    ensures ReparseMembers(members, acc) == Some(acc + members) <==> Fits(members, acc)
    decreases members, 1
  {
    hide Printable, Reparse, AllSpace, HasKey, EncodeText, Hash, Clean, Fits;
    if members == [] {
      assert acc + members == acc;
      assert Fits([], acc) by { NothingFits(acc); }
    } else {
      var m := members[0];
      FitsStep(members, acc);
      RoundTrip(m.value);
      EncodeFixed(m.name);
      var name := EncodeText(m.name);
      assert acc + members == acc + [m] + members[1..];
      if !AllSpace(name) && Reparse(m.value).Some? && !HasKey(acc, name) {
        var n := Member(name, Reparse(m.value).value);
        MembersKeepAcc(members[1..], acc + [n]);
        if n == m {
          MembersRoundTrip(members[1..], acc + [m]);
        } else if ReparseMembers(members, acc).Some? {
          var r := ReparseMembers(members[1..], acc + [n]).value;
          assert r[|acc|] == r[..|acc| + 1][|acc|] == n;
          assert (acc + members)[|acc|] == m;
        }
      }
    }
  }

  lemma NothingFits(acc: seq<Member>)
    ensures Fits([], acc)
  {
  }

  /** The round trip, exactly: the printed tree reads back as itself if and only if it is printable. */
  lemma {:induction false} RoundTrip(v: Value)
    requires Built(v)
    ensures Reparse(v) == Some(v) <==> Printable(v)
    decreases v, 0
  {
    match v
    case Leaf(kind, text, num) => LeafRoundTrip(kind, text, num);
    case Array(items) => ItemsRoundTrip(items);
    case Struct(members) =>
      MembersRoundTrip(members, []);
      assert [] + members == members;
      assert Fits(members, []) <==> Printable(v);
  }

  // ----- what the setters build ------------------------------------------------------------------

  function SetInt(n: int): (v: Value)
  {
    Leaf(KInt, ValText(n, 10), n)
  }

  function SetBoolean(b: bool): (v: Value) {
    Leaf(KBoolean, if b then "1" else "0", if b then 1 else 0)
  }

  function SetString(s: string): (v: Value) {
    Leaf(KString, s, 0)
  }

  /** Every 32-bit int, both booleans, and the empty string come back; another string does if and
      only if `encode` drops none of its characters, it is not blank, and it does not start with a
      special character. */
  lemma LeavesRoundTrip(n: int, b: bool, s: string)
    requires -0x8000_0000 <= n < 0x8000_0000
    ensures Reparse(SetInt(n)) == Some(SetInt(n))
    ensures Reparse(SetBoolean(b)) == Some(SetBoolean(b))
    ensures Reparse(SetString(s)) == Some(SetString(s)) <==>
      NoneDropped(s) && (s == "" || (!AllSpace(s) && !Special(s[0])))
  {
    hide ToInt, Reparse, ValText;
    RoundTrip(SetInt(n));
    RoundTrip(SetBoolean(b));
    RoundTrip(SetString(s));
    ToIntOfVal(n);
    var t := ValText(n, 10);
    assert !IsSpace(t[0]);
    assert Clean(t) && !AllSpace(t);
    assert ToInt("1") == 1 && ToInt("0") == 0 by { OneAndZero(); }
  }

  lemma OneAndZero()
    ensures ToInt("1") == 1 && ToInt("0") == 0
  {
    ToIntOfVal(1);
    ToIntOfVal(0);
    assert ValText(1, 10) == "1" && ValText(0, 10) == "0";
  }
}
