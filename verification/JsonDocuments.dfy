/** What the parser makes of any document, however it is spelled: white space, escapes, the order of keys and
    keys that come twice. */
module JsonDocuments {

  import opened CText
  import opened Shared
  import opened Json
  import opened JsonRoundTrip

  // ----- the map of an object -----------------------------------------------------------------------

  /** The value a key has. */
  function Lookup(members: seq<Member>, key: string): (v: Option<Value>) {
    if members == [] then None
    else if members[0].key == key then Some(members[0].value)
    else Lookup(members[1..], key)
  }

  lemma {:induction false} BeforeOrders(a: string, b: string, c: string)
    ensures Before(a, b) && Before(b, c) ==> Before(a, c)
    ensures a != b ==> Before(a, b) || Before(b, a)
    decreases |a|
  {
    if a != "" && b != "" && a[0] == b[0] {
      assert a == [a[0]] + a[1..] && b == [b[0]] + b[1..];
      BeforeOrders(a[1..], b[1..], if c == "" then c else c[1..]);
    }
  }

  /** The order is that of the first character in which two texts differ, a text being before its longer
      continuations. */
  lemma {:induction false} BeforeIsLexical(common: string, a: string, b: string)
    requires a == "" || b == "" || a[0] != b[0]
    ensures Before(common + a, common + b) <==> b != "" && (a == "" || a[0] < b[0])
    decreases |common|
  {
    if common == "" {
      assert common + a == a && common + b == b;
    } else {
      assert (common + a)[1..] == common[1..] + a && (common + b)[1..] == common[1..] + b;
      BeforeIsLexical(common[1..], a, b);
    }
  }

  lemma {:induction false} NotFoundBelow(members: seq<Member>, key: string)
    requires forall i :: 0 <= i < |members| ==> Before(key, members[i].key)
    ensures Lookup(members, key) == None
    decreases |members|
  {
    hide Before;
    if members != [] {
      BeforeIsStrict(key, members[0].key);
      NotFoundBelow(members[1..], key);
    }
  }

  /** `value_map_[key] = v` is a map store: the key gets the value, every other key keeps its own, and the
      members stay in order. */
  lemma {:induction false} PutIsStore(members: seq<Member>, key: string, v: Value, other: string)
    requires Sorted(members)
    ensures Sorted(Put(members, key, v))
    ensures Lookup(Put(members, key, v), key) == Some(v)
    ensures other != key ==> Lookup(Put(members, key, v), other) == Lookup(members, other)
    ensures forall m :: m in Put(members, key, v) ==> m == Member(key, v) || m in members
    decreases |members|
  {
    hide Before;
    if members != [] {
      var first, rest := members[0], members[1..];
      assert forall i :: 0 <= i < |rest| ==> rest[i] == members[i + 1];
      assert Sorted(rest);
      if Before(key, first.key) {
        PutInFront(members, key, v);
      } else if key == first.key {
      } else {
        BeforeOrders(key, first.key, "");
        PutIsStore(rest, key, v, other);
        forall m | m in Put(rest, key, v)
          ensures Before(first.key, m.key)
        {
        }
        FrontSorted(first, Put(rest, key, v));
      }
    }
  }

  lemma FrontSorted(first: Member, rest: seq<Member>)
    requires Sorted(rest) && forall m :: m in rest ==> Before(first.key, m.key)
    ensures Sorted([first] + rest)
  {
    hide Before;
    var all := [first] + rest;
    forall i, j | 0 <= i < j < |all|
      ensures Before(all[i].key, all[j].key)
    {
      assert all[j] == rest[j - 1];
      if i > 0 {
        assert all[i] == rest[i - 1];
      }
    }
  }

  lemma PutInFront(members: seq<Member>, key: string, v: Value)
    requires Sorted(members) && members != [] && Before(key, members[0].key)
    ensures Sorted([Member(key, v)] + members)
  {
    hide Before;
    forall m | m in members
      ensures Before(key, m.key)
    {
      var i :| 0 <= i < |members| && members[i] == m;
      if i > 0 {
        BeforeOrders(key, members[0].key, members[i].key);
      }
    }
    FrontSorted(Member(key, v), members);
  }

  /** Two sorted member lists with the same values for all keys are the same. */
  lemma {:induction false} SortedIsMap(a: seq<Member>, b: seq<Member>)
    requires Sorted(a) && Sorted(b) && forall k :: Lookup(a, k) == Lookup(b, k)
    ensures a == b
    decreases |a|
  {
    hide Before;
    if a == [] {
      if b != [] {
        HasFirst(b);
      }
    } else {
      assert Lookup(a, a[0].key) == Lookup(b, a[0].key);
      FirstIsLeast(a, b);
      FirstIsLeast(b, a);
      BeforeOrders(a[0].key, b[0].key, "");
      assert a[0].key == b[0].key;
      forall k
        ensures Lookup(a[1..], k) == Lookup(b[1..], k)
      {
        if k == a[0].key {
          NotFoundBelow(a[1..], k);
          NotFoundBelow(b[1..], k);
        } else {
          assert Lookup(a, k) == Lookup(b, k);
        }
      }
      SortedIsMap(a[1..], b[1..]);
      assert a == [a[0]] + a[1..] && b == [b[0]] + b[1..];
    }
  }

  lemma HasFirst(members: seq<Member>)
    requires members != []
    ensures exists k :: Lookup(members, k) != None
  {
    assert Lookup(members, members[0].key) != None;
  }

  lemma FirstIsLeast(a: seq<Member>, b: seq<Member>)
    requires Sorted(b) && a != [] && Lookup(b, a[0].key) != None
    ensures b != [] && !Before(a[0].key, b[0].key)
  {
    hide Before;
    if Before(a[0].key, b[0].key) {
      forall i | 0 <= i < |b|
        ensures Before(a[0].key, b[i].key)
      {
        BeforeOrders(a[0].key, b[0].key, b[i].key);
      }
      NotFoundBelow(b, a[0].key);
    }
  }

  // ----- documents ----------------------------------------------------------------------------------

  /** A character inside quotes: as it is, or behind a backslash. */
  datatype Piece = Raw(c: char) | Escaped(d: char)

  /** A document as it is spelled.  Every part carries the white space around it; a list may end in a comma. */
  datatype Doc =
    | Text(pieces: seq<Piece>)
    | Word(value: Value)
    | List(items: seq<Item>, comma: bool, inner: string)
    | Table(entries: seq<Entry>)

  datatype Item = Item(before: string, doc: Doc, after: string)

  datatype Entry = Entry(before: string, key: seq<Piece>, colon: string, item: Item)

  function PieceText(p: Piece): (t: string) {
    if p.Raw? then [p.c] else ['\\', p.d]
  }

  function PiecesText(pieces: seq<Piece>): (t: string) {
    if pieces == [] then "" else PieceText(pieces[0]) + PiecesText(pieces[1..])
  }

  /** What the pieces stand for: the escapes of section 7 of RFC 8259 but for the one with digits, and any
      other pair as it is. */
  function Meant(pieces: seq<Piece>): (s: string) {
    if pieces == [] then ""
    else
      (match pieces[0]
       case Raw(c) => [c]
       case Escaped(d) => if ShortEscape(d) >= 0 then [ShortEscape(d) as char] else ['\\', d])
      + Meant(pieces[1..])
  }

  predicate WrittenPieces(pieces: seq<Piece>) {
    forall i :: 0 <= i < |pieces| && pieces[i].Raw? ==> pieces[i].c != '"' && pieces[i].c != '\\'
  }

  function Quoted(pieces: seq<Piece>): (t: string) {
    "\"" + PiecesText(pieces) + "\""
  }

  function WordText(v: Value): (t: string) {
    if v == Bool(true) then "true" else if v == Bool(false) then "false" else "null"
  }

  function Spell(doc: Doc): (t: string) {
    match doc
    case Text(pieces) => Quoted(pieces)
    case Word(v) => WordText(v)
    case List(items, comma, inner) =>
      "[" + (SpellItems(items) + ((if items == [] then inner else if comma then "," + inner else "") + "]"))
    case Table(entries) => "{" + (SpellEntries(entries) + "}")
  }

  function SpellItem(item: Item): (t: string) {
    item.before + (Spell(item.doc) + item.after)
  }

  function SpellItems(items: seq<Item>): (t: string) {
    if items == [] then "" else SpellItem(items[0]) + (if |items| > 1 then "," + SpellItems(items[1..]) else "")
  }

  function SpellEntry(e: Entry): (t: string) {
    e.before + (Quoted(e.key) + (e.colon + (":" + SpellItem(e.item))))
  }

  function SpellEntries(entries: seq<Entry>): (t: string) {
    if entries == [] then ""
    else SpellEntry(entries[0]) + (if |entries| > 1 then "," + SpellEntries(entries[1..]) else "")
  }

  predicate Written(doc: Doc) {
    match doc
    case Text(pieces) => WrittenPieces(pieces)
    case Word(v) => v.Bool? || v.Null?
    case List(items, comma, inner) => AllSpace(inner) && forall i :: 0 <= i < |items| ==> WrittenItem(items[i])
    case Table(entries) => entries != [] && forall i :: 0 <= i < |entries| ==> WrittenEntry(entries[i])
  }

  predicate WrittenItem(item: Item) {
    AllSpace(item.before) && AllSpace(item.after) && Written(item.doc)
  }

  predicate WrittenEntry(e: Entry) {
    AllSpace(e.before) && WrittenPieces(e.key) && AllSpace(e.colon) && WrittenItem(e.item)
  }

  /** The value a document denotes. */
  function Denote(doc: Doc): (v: Value) {
    match doc
    case Text(pieces) => Str(Meant(pieces))
    case Word(v) => v
    case List(items, _, _) => Arr(DenoteItems(items))
    case Table(entries) => Obj(Stored([], entries))
  }

  function DenoteItems(items: seq<Item>): (vs: seq<Value>)
    ensures |vs| == |items|
  {
    if items == [] then [] else [Denote(items[0].doc)] + DenoteItems(items[1..])
  }

  /** The pairs entered one after the other. */
  function Stored(into: seq<Member>, entries: seq<Entry>): (members: seq<Member>)
    decreases entries
  {
    if entries == [] then into
    else Stored(Put(into, Meant(entries[0].key), Denote(entries[0].item.doc)), entries[1..])
  }

  /** The value of the last pair with that key. */
  function Last(entries: seq<Entry>, key: string): (v: Option<Value>) {
    if entries == [] then None
    else
      var later := Last(entries[1..], key);
      if later == None && Meant(entries[0].key) == key then Some(Denote(entries[0].item.doc)) else later
  }

  /** The members of a table are in order, and each key has the value of its last pair. */
  lemma {:induction false} StoredIsLast(into: seq<Member>, entries: seq<Entry>, key: string)
    requires Sorted(into)
    ensures Sorted(Stored(into, entries))
    ensures Lookup(Stored(into, entries), key)
         == if Last(entries, key) == None then Lookup(into, key) else Last(entries, key)
    decreases |entries|
  {
    hide Before, Put, Denote, Meant, Sorted, Lookup;
    if entries != [] {
      var k, v := Meant(entries[0].key), Denote(entries[0].item.doc);
      PutIsStore(into, k, v, key);
      StoredIsLast(Put(into, k, v), entries[1..], key);
    }
  }

  // ----- reading ------------------------------------------------------------------------------------

  lemma PieceStep(p: Piece, t: string, ch: char, value: string) returns (last: char)
    requires p.Raw? ==> p.c != '"' && p.c != '\\'
    ensures StringFrom(Good(PieceText(p) + t), ch, value) == StringFrom(Good(t), last, value + Meant([p]))
  {
    hide StringFrom;
    assert [p][1..] == [];
    match p
    case Raw(c) =>
      PlainStep(c, t, ch, value);
      last := c;
      assert Meant([p]) == [c];
    case Escaped(d) =>
      EscapedStep(d, t, ch, value);
      last := d;
      assert Meant([p]) == Unescape(d);
  }

  lemma {:induction false} ReadsPieces(pieces: seq<Piece>, rest: string, ch: char, value: string)
    requires WrittenPieces(pieces)
    ensures StringFrom(Good(PiecesText(pieces) + ("\"" + rest)), ch, value)
         == Json.Text(true, value + Meant(pieces), Good(rest))
    decreases |pieces|
  {
    hide StringFrom, PieceText, Meant;
    if pieces == [] {
      NothingMeant();
      assert PiecesText(pieces) + ("\"" + rest) == "\"" + rest && value + "" == value;
      EndStep(rest, ch, value);
    } else {
      var t := PiecesText(pieces[1..]) + ("\"" + rest);
      assert PiecesText(pieces) + ("\"" + rest) == PieceText(pieces[0]) + t;
      var last := PieceStep(pieces[0], t, ch, value);
      ReadsPieces(pieces[1..], rest, last, value + Meant([pieces[0]]));
      MeantSplits(pieces);
      assert value + Meant([pieces[0]]) + Meant(pieces[1..]) == value + Meant(pieces);
    }
  }

  lemma NothingMeant()
    ensures Meant([]) == ""
  {
  }

  lemma MeantSplits(pieces: seq<Piece>)
    requires pieces != []
    ensures Meant(pieces) == Meant([pieces[0]]) + Meant(pieces[1..])
  {
    assert [pieces[0]][1..] == [];
  }

  lemma ReadsQuoted(pieces: seq<Piece>, gap: string, rest: string)
    requires WrittenPieces(pieces) && AllSpace(gap)
    ensures ParseString(Good(gap + (Quoted(pieces) + rest))) == Json.Text(true, Meant(pieces), Good(rest))
  {
    hide Match, StringFrom, PiecesText, Meant;
    var t := PiecesText(pieces) + ("\"" + rest);
    assert Quoted(pieces) + rest == "\"" + t;
    Hit("\"", gap, t);
    ReadsPieces(pieces, rest, '\0', "");
    assert "" + Meant(pieces) == Meant(pieces);
  }

  /** A text that starts no string and no number goes on to the words. */
  lemma NoString(t: string, gap: string)
    requires AllSpace(gap) && t != "" && !IsSpace(t[0]) && !StartsNumber(t[0]) && t[0] != '"'
    ensures ParseString(Good(gap + t)) == Json.Text(false, "", Good(t))
    ensures !AtNumber(Good(t)) && Cleared(Good(t)) == Good(t)
  {
    hide Match, StartsNumber;
    Miss("\"", gap, t);
    SkipGap("", t);
    assert "" + t == t;
  }

  lemma NoWord(t: string)
    requires t != "" && !IsSpace(t[0]) && t[0] != 't' && t[0] != 'f' && t[0] != 'n'
    ensures ParseWord(Good(t)) == Rejected(Good(t))
  {
    assert "" + t == t;
    Miss("true", "", t);
    Miss("false", "", t);
    Miss("null", "", t);
  }

  lemma ReadsWordText(v: Value, gap: string, rest: string)
    requires (v.Bool? || v.Null?) && AllSpace(gap)
    ensures ParseValue(Good(gap + (WordText(v) + rest))) == Parsed(v, Good(rest))
  {
    hide ParseString, ParseWord, AtNumber, Cleared, Match, ParseArray, ParseObject;
    assert WordText(v) == Print(v);
    NotAString(v, gap, rest);
    ReadsWord(v, rest);
  }

  /** At a closing bracket no value starts. */
  lemma NoValue(gap: string, rest: string)
    requires AllSpace(gap)
    ensures ParseValue(Good(gap + ("]" + rest))) == Rejected(Good("]" + rest))
  {
    var t := "]" + rest;
    NoString(t, gap);
    NoWord(t);
    assert "" + t == t;
    Miss("{", "", t);
    hide ParseString, ParseWord, AtNumber, Cleared, Match;
  }

  /** Every document, behind white space and before any text, is read to its end and gives what it denotes. */
  lemma {:induction false} ReadsDocument(doc: Doc, gap: string, rest: string)
    requires Written(doc) && AllSpace(gap)
    ensures ParseValue(Good(gap + (Spell(doc) + rest))) == Parsed(Denote(doc), Good(rest))
    decreases doc, 3
  {
    hide ParseString, ParseWord, AtNumber, Cleared, Match, ParseArray, ParseObject, ParseValue;
    match doc
    case Text(pieces) =>
      ReadsQuoted(pieces, gap, rest);
      StringParsed(Good(gap + (Spell(doc) + rest)));
    case Word(v) => ReadsWordText(v, gap, rest);
    case List(items, comma, inner) => ReadsList(doc, gap, rest);
    case Table(entries) => ReadsTable(doc, gap, rest);
  }

  lemma StringParsed(s: In)
    requires ParseString(s).ok
    ensures ParseValue(s) == Parsed(Str(ParseString(s).value), ParseString(s).rest)
  {
    hide ParseString;
  }

  /** A bracket sends the parser to the array or the object. */
  lemma Bracket(t: string, gap: string)
    requires AllSpace(gap) && t != "" && (t[0] == '[' || t[0] == '{')
    ensures
      ParseValue(Good(gap + t)) ==
        if t[0] == '{' then ParseObject(Good(t))
        else
          match ParseArray(Good(t))
          case Parsed(v, r) => Parsed(v, r)
          case Rejected(r) => ParseObject(r)
          case Number => Number
  {
    NoString(t, gap);
    NoWord(t);
    hide ParseString, ParseWord, AtNumber, Cleared, ParseArray, ParseObject;
  }

  lemma {:induction false} ReadsList(doc: Doc, gap: string, rest: string)
    requires doc.List? && Written(doc) && AllSpace(gap)
    ensures ParseValue(Good(gap + (Spell(doc) + rest))) == Parsed(Denote(doc), Good(rest))
    decreases doc, 2
  {
    hide Match, SpellItems, DenoteItems, Items, ParseValue, WrittenItem;
    var items := doc.items;
    var end := (if items == [] then doc.inner else if doc.comma then "," + doc.inner else "") + "]";
    var t := SpellItems(items) + (end + rest);
    assert Spell(doc) + rest == "[" + t;
    Bracket("[" + t, gap);
    Hit("[", "", t);
    assert "" + ("[" + t) == "[" + t;
    if items == [] {
      assert SpellItems([]) == "" && DenoteItems([]) == [] by { NoItems(); }
      assert t == doc.inner + ("]" + rest);
      EndOfItems(doc.inner, [], rest);
    } else {
      ReadsItemList(items, [], doc.comma, doc.inner, rest);
      assert [] + DenoteItems(items) == DenoteItems(items);
    }
  }

  lemma NoItems()
    ensures SpellItems([]) == "" && DenoteItems([]) == []
  {
  }

  /** A value that does not come ends the list. */
  lemma EndOfItems(inner: string, done: seq<Value>, rest: string)
    requires AllSpace(inner)
    ensures Items(Good(inner + ("]" + rest)), done) == Parsed(Arr(done), Good(rest))
  {
    hide ParseValue, Match;
    NoValue(inner, rest);
    Closes("]", ",", rest, Arr(done));
  }

  lemma ItemsTurn(s: In, done: seq<Value>)
    requires ParseValue(s).Parsed?
    ensures
      var (more, m) := Match(",", ParseValue(s).rest);
      var now := done + [ParseValue(s).value];
      Items(s, done) == if more then Items(m, now) else Close("]", m, Arr(now))
  {
    hide ParseValue, Match, Close;
  }

  lemma {:induction false} ReadsItemList(items: seq<Item>, done: seq<Value>, comma: bool, inner: string, rest: string)
    requires items != [] && AllSpace(inner) && forall i :: 0 <= i < |items| ==> WrittenItem(items[i])
    ensures Items(Good(SpellItems(items) + ((if comma then "," + inner else "") + "]" + rest)), done)
         == Parsed(Arr(done + DenoteItems(items)), Good(rest))
    decreases items, 1
  {
    hide ParseValue, Match, Spell, Denote, Items, SpellItems, DenoteItems, Close;
    var item := items[0];
    var end := (if comma then "," + inner else "") + "]" + rest;
    var more := if |items| > 1 then "," + SpellItems(items[1..]) else "";
    ItemsUnfold(items);
    var t := item.after + (more + end);
    assert SpellItems(items) + end == item.before + (Spell(item.doc) + t) by { Regroup4(item, more, end); }
    ReadsDocument(item.doc, item.before, t);
    var s := Good(SpellItems(items) + end);
    ItemsTurn(s, done);
    var now := done + [Denote(item.doc)];
    assert now + DenoteItems(items[1..]) == done + DenoteItems(items);
    if |items| > 1 {
      var u := SpellItems(items[1..]) + end;
      assert t == item.after + ("," + u);
      Hit(",", item.after, u);
      ReadsItemList(items[1..], now, comma, inner, rest);
    } else if comma {
      assert t == item.after + ("," + (inner + ("]" + rest)));
      Hit(",", item.after, inner + ("]" + rest));
      EndOfItems(inner, now, rest);
      assert DenoteItems(items[1..]) == [] by { NoItems(); }
      assert now + [] == now;
      assert Items(s, done) == Parsed(Arr(done + DenoteItems(items)), Good(rest));
    } else {
      assert t == item.after + ("]" + rest);
      Miss(",", item.after, "]" + rest);
      Closes("]", ",", rest, Arr(now));
      assert DenoteItems(items[1..]) == [] by { NoItems(); }
      assert now + [] == now;
      assert Items(s, done) == Parsed(Arr(done + DenoteItems(items)), Good(rest));
    }
  }

  lemma ItemsUnfold(items: seq<Item>)
    requires items != []
    ensures SpellItems(items) == SpellItem(items[0]) + (if |items| > 1 then "," + SpellItems(items[1..]) else "")
    ensures DenoteItems(items) == [Denote(items[0].doc)] + DenoteItems(items[1..])
  {
    hide SpellItem, Denote;
  }

  lemma Regroup4(item: Item, more: string, end: string)
    ensures SpellItem(item) + more + end == item.before + (Spell(item.doc) + (item.after + (more + end)))
  {
    hide Spell;
    var d := Spell(item.doc);
    assert item.before + (d + item.after) + more + end == item.before + (d + (item.after + (more + end)));
  }

  lemma {:induction false} ReadsTable(doc: Doc, gap: string, rest: string)
    requires doc.Table? && Written(doc) && AllSpace(gap)
    ensures ParseValue(Good(gap + (Spell(doc) + rest))) == Parsed(Denote(doc), Good(rest))
    decreases doc, 2
  {
    hide Match, SpellEntries, Stored, Members, ParseValue, WrittenEntry;
    var t := SpellEntries(doc.entries) + ("}" + rest);
    assert Spell(doc) + rest == "{" + t;
    Bracket("{" + t, gap);
    Hit("{", "", t);
    assert "" + ("{" + t) == "{" + t;
    ReadsEntries(doc.entries, [], rest);
  }

  lemma MembersTurn(s: In, done: seq<Member>)
    requires ParseString(s).ok && Match(":", ParseString(s).rest).0
    requires ParseValue(Match(":", ParseString(s).rest).1).Parsed?
    ensures
      var p := ParseValue(Match(":", ParseString(s).rest).1);
      var (more, m) := Match(",", p.rest);
      var now := Put(done, ParseString(s).value, p.value);
      Members(s, done) == if more then Members(m, now) else Close("}", m, Obj(now))
  {
    hide ParseValue, Match, Close, ParseString, Put;
  }

  lemma {:induction false} ReadsEntries(entries: seq<Entry>, done: seq<Member>, rest: string)
    requires entries != [] && forall i :: 0 <= i < |entries| ==> WrittenEntry(entries[i])
    ensures Members(Good(SpellEntries(entries) + ("}" + rest)), done)
         == Parsed(Obj(Stored(done, entries)), Good(rest))
    decreases entries, 1
  {
    hide ParseValue, Match, Spell, Denote, Members, SpellEntries, Stored, Close, ParseString, Quoted, Meant, Put;
    var e, end := entries[0], "}" + rest;
    assert WrittenEntry(e);
    var more := if |entries| > 1 then "," + SpellEntries(entries[1..]) else "";
    EntriesUnfold(entries, done);
    var t := e.item.after + (more + end);
    var value := e.item.before + (Spell(e.item.doc) + t);
    var colon := e.colon + (":" + value);
    var s := Good(SpellEntries(entries) + end);
    assert s == Good(e.before + (Quoted(e.key) + colon)) by { Regroup7(e, more, end); }
    ReadsQuoted(e.key, e.before, colon);
    Hit(":", e.colon, value);
    ReadsDocument(e.item.doc, e.item.before, t);
    MembersTurn(s, done);
    var now := Put(done, Meant(e.key), Denote(e.item.doc));
    if |entries| > 1 {
      var u := SpellEntries(entries[1..]) + end;
      assert t == e.item.after + ("," + u);
      Hit(",", e.item.after, u);
      ReadsEntries(entries[1..], now, rest);
    } else {
      assert t == e.item.after + ("}" + rest);
      Miss(",", e.item.after, "}" + rest);
      Closes("}", ",", rest, Obj(now));
      NoEntries(now);
      assert entries[1..] == [];
    }
  }

  lemma NoEntries(done: seq<Member>)
    ensures Stored(done, []) == done
  {
  }

  lemma EntriesUnfold(entries: seq<Entry>, done: seq<Member>)
    requires entries != []
    ensures SpellEntries(entries)
         == SpellEntry(entries[0]) + (if |entries| > 1 then "," + SpellEntries(entries[1..]) else "")
    ensures Stored(done, entries)
         == Stored(Put(done, Meant(entries[0].key), Denote(entries[0].item.doc)), entries[1..])
  {
    hide SpellEntry, Denote, Put, Meant;
  }

  lemma Regroup7(e: Entry, more: string, end: string)
    ensures SpellEntry(e) + more + end
         == e.before + (Quoted(e.key) + (e.colon + (":" +
              (e.item.before + (Spell(e.item.doc) + (e.item.after + (more + end)))))))
  {
    hide Spell, Quoted;
    var q, d, i := Quoted(e.key), Spell(e.item.doc), e.item;
    var v := i.before + (d + i.after);
    assert e.before + (q + (e.colon + (":" + v))) + more + end == e.before + (q + (e.colon + (":" + (v + (more + end)))));
    assert v + (more + end) == i.before + (d + (i.after + (more + end)));
  }

  /** An object, its pairs in any order and with any repeats: the parser gives the members in key order, each
      key with the value of its last pair. */
  lemma ReadsObjectText(entries: seq<Entry>, gap: string, rest: string)
    requires Written(Table(entries)) && AllSpace(gap)
    ensures
      var p := ParseValue(Good(gap + (Spell(Table(entries)) + rest)));
      p.Parsed? && p.value.Obj? && p.rest == Good(rest) && Sorted(p.value.members)
      && forall k :: Lookup(p.value.members, k) == Last(entries, k)
  {
    hide ParseValue, Spell, Written, Stored, Lookup, Last, Sorted;
    ReadsDocument(Table(entries), gap, rest);
    forall k
      ensures Sorted(Stored([], entries)) && Lookup(Stored([], entries), k) == Last(entries, k)
    {
      NothingStored(k);
      StoredIsLast([], entries, k);
    }
    NothingStored("");
    StoredIsLast([], entries, "");
  }

  lemma NothingStored(k: string)
    ensures Sorted([]) && Lookup([], k) == None
  {
  }

  // ----- texts that go wrong or end early -----------------------------------------------------------------

  /** A pattern that goes wrong stays consumed up to there: the text goes on with the character that did not
      match. */
  lemma PartialMatch(pattern: string, gap: string, k: nat, t: string)
    requires 0 < k < |pattern| && pattern[0] != '\0' && !IsSpace(pattern[0]) && AllSpace(gap)
    requires t != "" && t[0] != pattern[k]
    ensures Match(pattern, Good(gap + (pattern[..k] + t))) == (false, Good(t))
  {
    var u := pattern[..k] + t;
    SkipGap(gap, u);
    assert u[0] == pattern[0] && u[1..] == pattern[1..][..k - 1] + t;
    PartialFrom(pattern[1..], k - 1, t, pattern[0]);
  }

  lemma {:induction false} PartialFrom(pattern: string, k: nat, t: string, ch: char)
    requires k < |pattern| && t != "" && t[0] != pattern[k]
    ensures MatchFrom(pattern, Good(pattern[..k] + t), ch) == (false, Good(t))
    decreases k
  {
    var u := pattern[..k] + t;
    if k == 0 {
      assert u == t && [t[0]] + t[1..] == t;
    } else {
      assert u[0] == pattern[0] && u[1..] == pattern[1..][..k - 1] + t;
      PartialFrom(pattern[1..], k - 1, t, pattern[0]);
    }
  }

  /** Where the text ends within a pattern the failed read leaves the character before, so the last one counts
      as matched when it repeats that. */
  lemma CutMatch(pattern: string, gap: string, k: nat)
    requires k < |pattern| && pattern[0] != '\0' && !IsSpace(pattern[0]) && AllSpace(gap)
    ensures
      Match(pattern, Good(gap + pattern[..k])) ==
        if k == 0 then (false, In("", true, false))
        else (k + 1 == |pattern| && pattern[k] == pattern[k - 1], In("", true, true))
  {
    var u := pattern[..k];
    if k == 0 {
      OnlySpace(gap);
      assert gap + u == gap;
    } else {
      SkipGap(gap, u);
      assert u[0] == pattern[0] && u[1..] == pattern[1..][..k - 1];
      CutFrom(pattern[1..], k - 1, pattern[0]);
    }
  }

  lemma {:induction false} OnlySpace(gap: string)
    requires AllSpace(gap)
    ensures SkipSpaces(gap) == ""
    decreases |gap|
  {
    if gap != "" {
      OnlySpace(gap[1..]);
    }
  }

  lemma {:induction false} CutFrom(pattern: string, k: nat, ch: char)
    requires k < |pattern|
    ensures
      MatchFrom(pattern, Good(pattern[..k]), ch) ==
        (k + 1 == |pattern| && pattern[k] == (if k == 0 then ch else pattern[k - 1]), In("", true, true))
    decreases k
  {
    if k > 0 {
      assert pattern[..k][0] == pattern[0] && pattern[..k][1..] == pattern[1..][..k - 1];
      CutFrom(pattern[1..], k - 1, pattern[0]);
    }
  }

  /** So `nul` at the end of a text is null, and `trufalse` is false. */
  lemma OddWords(gap: string, rest: string)
    requires AllSpace(gap)
    ensures ParseValue(Good(gap + "nul")) == Parsed(Null, In("", true, true))
    ensures ParseValue(Good(gap + ("trufalse" + rest))) == Parsed(Bool(false), Good(rest))
  {
    hide Match, ParseString, AtNumber, Cleared;
    NoString("nul", gap);
    assert "" + "nul" == "nul";
    Miss("true", "", "nul");
    Miss("false", "", "nul");
    CutMatch("null", "", 3);
    assert "null"[..3] == "nul";
    var t := "trufalse" + rest;
    NoString(t, gap);
    assert "" + t == t && t == "true"[..3] + ("false" + rest);
    PartialMatch("true", "", 3, "false" + rest);
    Hit("false", "", rest);
    assert "" + ("false" + rest) == "false" + rest;
  }

  /** Nothing matches on a stream that has ended or failed. */
  lemma EndedMatch(pattern: string, s: In)
    requires pattern != "" && pattern[0] != '\0' && (!s.Good() || AllSpace(s.text))
    ensures !Match(pattern, s).0
  {
    if AllSpace(s.text) {
      OnlySpace(s.text);
    }
  }

  /** A text in quotes that the stream ends in is rejected, with nothing left. */
  lemma OpenQuote(pieces: seq<Piece>, gap: string)
    requires WrittenPieces(pieces) && AllSpace(gap)
    ensures
      var r := ParseString(Good(gap + ("\"" + PiecesText(pieces))));
      !r.ok && r.rest == In("", true, true)
  {
    hide Match, StringFrom, PiecesText;
    Hit("\"", gap, PiecesText(pieces));
    OpenPieces(pieces, '\0', "");
  }

  lemma {:induction false} OpenPieces(pieces: seq<Piece>, ch: char, value: string)
    requires WrittenPieces(pieces)
    ensures
      var r := StringFrom(Good(PiecesText(pieces)), ch, value);
      !r.ok && r.rest == In("", true, true)
    decreases |pieces|
  {
    if pieces == [] {
      StreamEnds(ch, value);
    } else {
      hide StringFrom, PieceText, Meant;
      var last := PieceStep(pieces[0], PiecesText(pieces[1..]), ch, value);
      OpenPieces(pieces[1..], last, value + Meant([pieces[0]]));
    }
  }

  lemma StreamEnds(ch: char, value: string)
    ensures
      var r := StringFrom(Good(""), ch, value);
      !r.ok && r.rest == In("", true, true)
  {
    var s := In("", true, true);
    assert Get(Good(""), ch) == (s, ch);
    assert Get(s, ch) == (s, ch);
  }

  /** Where a number may start, which is not followed any further. */
  lemma NumberStarts(gap: string, c: char, rest: string)
    requires AllSpace(gap) && !IsSpace(c) && c != '"'
    ensures AtNumber(Good(gap + ([c] + rest))) <==> '0' <= c <= '9' || c == '+' || c == '-' || c == '.'
    ensures '0' <= c <= '9' || c == '+' || c == '-' || c == '.' ==> ParseValue(Good(gap + ([c] + rest))) == Number
  {
    var t := [c] + rest;
    SkipGap(gap, t);
    SkipGap("", t);
    assert "" + t == t;
    Miss("\"", gap, t);
  }

  /** White space alone is no value. */
  lemma NothingParsed(gap: string)
    requires AllSpace(gap)
    ensures ParseValue(Good(gap)).Rejected?
  {
    OnlySpace(gap);
    EndedMatch("\"", Good(gap));
    assert ParseString(Good(gap)) == Json.Text(false, "", In("", true, false));
    assert Cleared(In("", true, false)) == Good("");
    hide Match;
    assert gap + "" == gap && "" + "" == "";
    CutMatch("true", "", 0);
    CutMatch("false", "", 0);
    EndedMatch("false", In("", true, false));
    EndedMatch("null", In("", true, false));
    MatchAtEnd("false");
    MatchAtEnd("null");
    MatchAtEnd("{");
  }

  lemma MatchAtEnd(pattern: string)
    requires pattern != "" && pattern[0] != '\0'
    ensures Match(pattern, In("", true, false)) == (false, In("", true, false))
  {
  }
}
