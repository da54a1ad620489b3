/** The query map of a URI: parsing the query text, adding fields, and rebuilding the text. */
module UriQuery {

  import opened CText
  import opened Shared
  import opened PC = PercentCoding
  import Rpc

  /** An entry of the dictionary; the values of one key are joined by '&'. */
  datatype Field = Field(key: string, value: string)

  // ----- the text -----------------------------------------------------------------------------------

  /** `String::count`, which stops at the first '\0'. */
  function Count(s: string, c: char): (n: nat) {
    if s == "" || s[0] == '\0' then 0 else (if s[0] == c then 1 else 0) + Count(s[1..], c)
  }

  /** `String::section` from `start` on, with empty sections allowed. */
  function SectionFrom(s: string, delim: char, n: nat, start: nat): (text: string)
    requires start <= |s| && delim != '\0'
    decreases n
  {
    var stop := Find(s, delim, start);
    if n > 0 && stop != -1 then SectionFrom(s, delim, n - 1, stop + 1)
    else if n > 0 then ""
    else Mid(s, start, (if stop == -1 then |s| else stop) - start)
  }

  /** The second and later values of a key, each with the key again. */
  function Repeats(f: Field, v: nat, count: nat): (text: string)
    decreases count + 1 - v
  {
    if v > count then ""
    else "&" + f.key + "=" + SectionFrom(f.value, '&', v, 0) + Repeats(f, v + 1, count)
  }

  function FieldText(f: Field): (text: string) {
    var count := Count(f.value, '&');
    if count > 0 then f.key + "=" + SectionFrom(f.value, '&', 0, 0) + Repeats(f, 1, count)
    else f.key + "=" + f.value
  }

  /** The query text `asString` builds from the map in iteration order. */
  function QueryText(fields: seq<Field>): (text: string) {
    if fields == [] then ""
    else FieldText(fields[0]) + (if |fields| > 1 then "&" + QueryText(fields[1..]) else "")
  }

  // ----- the map ------------------------------------------------------------------------------------

  predicate HasKey(fields: seq<Field>, key: string) {
    exists f :: f in fields && Rpc.Hash(f.key) == Rpc.Hash(key)
  }

  /** A new entry at the end, or one more value for the entry whose key has the same hash. */
  function Add(fields: seq<Field>, key: string, value: string): (all: seq<Field>) {
    if fields == [] then [Field(key, value)]
    else if Rpc.Hash(fields[0].key) == Rpc.Hash(key) then
      [Field(fields[0].key, fields[0].value + "&" + value)] + fields[1..]
    else [fields[0]] + Add(fields[1..], key, value)
  }

  /** The loop of `getQueryMap`.  None: a search would start behind the terminator of the text. */
  function ParseFrom(q: string, left: nat, spos: nat, fields: seq<Field>): (r: Option<seq<Field>>) {
    if left == 0 then Some(fields)
    else if spos > |q| then None
    else
      var eq := Find(q, '=', spos);
      if eq == -1 then Some(fields)
      else
        var amp := Find(q, '&', eq + 1);
        var end := if amp == -1 then |q| else amp;
        ParseFrom(q, left - 1, end + 1,
                  Add(fields, Mid(q, spos, eq - spos), Mid(q, eq + 1, end - (eq + 1))))
  }

  function Parse(q: string): (r: Option<seq<Field>>) {
    ParseFrom(q, Count(q, '&') + 1, 0, [])
  }

  // ----- single pairs -------------------------------------------------------------------------------

  /** Text of one value. */
  predicate Part(s: string) {
    '&' !in s && '\0' !in s
  }

  predicate Plain(s: string) {
    s != "" && Part(s)
  }

  predicate PlainPair(p: Field) {
    Plain(p.key) && '=' !in p.key && Plain(p.value)
  }

  predicate PlainPairs(pairs: seq<Field>) {
    forall i :: 0 <= i < |pairs| ==> PlainPair(pairs[i])
  }

  function PairText(pairs: seq<Field>): (text: string) {
    if pairs == [] then ""
    else pairs[0].key + "=" + pairs[0].value + (if |pairs| > 1 then "&" + PairText(pairs[1..]) else "")
  }

  function AddAll(fields: seq<Field>, pairs: seq<Field>): (all: seq<Field>)
    decreases |pairs|
  {
    if pairs == [] then fields else AddAll(Add(fields, pairs[0].key, pairs[0].value), pairs[1..])
  }

  /** The pair `p` stands at `spos`, and behind it the text ends or goes on with '&'. */
  predicate PairAt(q: string, spos: nat, p: Field, last: bool) {
    var eq := spos + |p.key|;
    var e := eq + 1 + |p.value|;
    e <= |q| && q[spos..eq] == p.key && q[eq] == '=' && q[eq + 1..e] == p.value
    && if last then e == |q| else e < |q| && q[e] == '&'
  }

  lemma MidPlain(q: string, pos: nat, len: nat)
    requires len > 0 && pos + len <= |q|
    ensures Mid(q, pos, len) == q[pos..pos + len]
  {
  }

  /** One turn of the parser takes the pair at `spos`. */
  lemma ReadsPair(q: string, spos: nat, p: Field, last: bool)
    requires PlainPair(p) && PairAt(q, spos, p, last)
    ensures
      var eq := Find(q, '=', spos);
      var amp := Find(q, '&', eq + 1);
      var end := if amp == -1 then |q| else amp;
      eq == spos + |p.key| && end == eq + 1 + |p.value|
      && Mid(q, spos, eq - spos) == p.key && Mid(q, eq + 1, end - (eq + 1)) == p.value
  {
    hide Find, Mid;
    var eq := spos + |p.key|;
    FindAcross(q, '=', spos, p.key);
    if last {
      var e := eq + 1 + |p.value|;
      assert e == |q| && q[eq + 1..e] == p.value;
      assert q[eq + 1..] == q[eq + 1..e];
      FindNone(q, '&', eq + 1);
    } else {
      FindAcross(q, '&', eq + 1, p.value);
    }
    MidPlain(q, spos, |p.key|);
    MidPlain(q, eq + 1, |p.value|);
  }

  lemma PairSlices(k: string, v: string, rest: string)
    ensures
      var t := k + "=" + v + rest;
      var n := |k| + 1 + |v|;
      t[..|k|] == k && t[|k|] == '=' && t[|k| + 1..n] == v && t[n..] == rest
  {
  }

  /** Indices into a suffix, and into the whole. */
  lemma Suffix(q: string, spos: nat, a: nat, b: nat)
    requires spos <= |q| && a <= b && spos + b <= |q|
    ensures q[spos..][a..b] == q[spos + a..spos + b]
    ensures q[spos..][b..] == q[spos + b..]
  {
  }

  lemma PairTextUnfolds(pairs: seq<Field>)
    requires pairs != []
    ensures PairText(pairs)
         == pairs[0].key + "=" + pairs[0].value + (if |pairs| > 1 then "&" + PairText(pairs[1..]) else "")
  {
  }

  lemma PairInFront(q: string, spos: nat, p: Field, rest: string)
    requires spos <= |q| && q[spos..] == p.key + "=" + p.value + rest
    requires rest == "" || rest[0] == '&'
    ensures PairAt(q, spos, p, rest == "")
    ensures
      var e := spos + |p.key| + 1 + |p.value|;
      e <= |q| && q[e..] == rest
  {
    var k, n := |p.key|, |p.key| + 1 + |p.value|;
    PairSlices(p.key, p.value, rest);
    Suffix(q, spos, 0, k);
    Suffix(q, spos, k + 1, n);
    assert q[spos + k] == q[spos..][k];
    assert q[spos + n..] == rest;
    if rest != "" {
      assert q[spos + n] == q[spos + n..][0];
    }
  }

  lemma PairInText(q: string, spos: nat, pairs: seq<Field>)
    requires pairs != [] && spos <= |q| && q[spos..] == PairText(pairs)
    ensures PairAt(q, spos, pairs[0], |pairs| == 1)
    ensures
      var e := spos + |pairs[0].key| + 1 + |pairs[0].value|;
      |pairs| > 1 ==> e + 1 <= |q| && q[e + 1..] == PairText(pairs[1..])
  {
    hide PairText, PairAt;
    PairTextUnfolds(pairs);
    var p := pairs[0];
    var rest := if |pairs| > 1 then "&" + PairText(pairs[1..]) else "";
    PairInFront(q, spos, p, rest);
    if |pairs| > 1 {
      var e := spos + |p.key| + 1 + |p.value|;
      Suffix(q, e, 0, 1);
      assert rest[1..] == PairText(pairs[1..]);
    }
  }

  lemma {:induction false} ReadsPairs(q: string, spos: nat, pairs: seq<Field>, fields: seq<Field>)
    requires PlainPairs(pairs) && pairs != [] && spos <= |q| && q[spos..] == PairText(pairs)
    ensures ParseFrom(q, |pairs|, spos, fields) == Some(AddAll(fields, pairs))
    decreases |pairs|
  {
    hide Find, Mid, Add, PlainPair, PairText, PairAt;
    var p := pairs[0];
    PairInText(q, spos, pairs);
    ReadsPair(q, spos, p, |pairs| == 1);
    var all := Add(fields, p.key, p.value);
    if |pairs| > 1 {
      ReadsPairs(q, spos + |p.key| + 1 + |p.value| + 1, pairs[1..], all);
    } else {
      assert pairs[1..] == [];
    }
  }

  lemma {:induction false} CountAcross(s: string, t: string, c: char)
    requires '\0' !in s
    ensures Count(s + t, c) == Count(s, c) + Count(t, c)
    ensures c !in s ==> Count(s, c) == 0
    decreases |s|
  {
    if s == "" {
      assert s + t == t;
    } else {
      assert (s + t)[1..] == s[1..] + t;
      CountAcross(s[1..], t, c);
    }
  }

  lemma {:induction false} PairCount(pairs: seq<Field>)
    requires PlainPairs(pairs) && pairs != []
    ensures Count(PairText(pairs), '&') + 1 == |pairs| && '\0' !in PairText(pairs)
    decreases |pairs|
  {
    hide Count;
    var head := pairs[0].key + "=" + pairs[0].value;
    CountAcross(head, "", '&');
    assert head + "" == head;
    assert Count("", '&') == 0 by { CountNothing(); }
    if |pairs| > 1 {
      PairCount(pairs[1..]);
      var rest := PairText(pairs[1..]);
      CountAcross(head, "&" + rest, '&');
      CountAcross("&", rest, '&');
      assert PairText(pairs) == head + ("&" + rest);
      CountOne();
    }
  }

  lemma CountNothing()
    ensures Count("", '&') == 0
  {
  }

  lemma CountOne()
    ensures Count("&", '&') == 1
  {
    assert "&"[1..] == "";
  }

  /** Parsing the text of a list of pairs enters them one after the other. */
  lemma ParsesPairs(pairs: seq<Field>)
    requires PlainPairs(pairs) && pairs != []
    ensures Parse(PairText(pairs)) == Some(AddAll([], pairs))
  {
    hide ParseFrom, PairText, Count, AddAll;
    PairCount(pairs);
    var q := PairText(pairs);
    assert q[0..] == q;
    ReadsPairs(q, 0, pairs, []);
  }

  // ----- the values of a key ------------------------------------------------------------------------

  /** The values joined in one entry. */
  function Split(v: string): (parts: seq<string>)
    ensures |parts| > 0
    decreases |v|
  {
    var i := Find(v, '&', 0);
    if i == -1 then [v] else [v[..i]] + Split(v[i + 1..])
  }

  /** What the later values add to the first. */
  function More(parts: seq<string>): (text: string) {
    if parts == [] then "" else "&" + parts[0] + More(parts[1..])
  }

  predicate AllPlain(parts: seq<string>) {
    forall i :: 0 <= i < |parts| ==> Plain(parts[i])
  }

  /** A key and one or more encoded values, none of them empty. */
  predicate ValidField(f: Field) {
    Plain(f.key) && '=' !in f.key && '\0' !in f.value && AllPlain(Split(f.value))
  }

  predicate ValidFields(fields: seq<Field>) {
    forall i :: 0 <= i < |fields| ==> ValidField(fields[i])
  }

  /** No two keys have the same hash. */
  predicate Distinct(fields: seq<Field>) {
    forall i, j :: 0 <= i < j < |fields| ==> Rpc.Hash(fields[i].key) != Rpc.Hash(fields[j].key)
  }

  lemma SplitUnfolds(v: string)
    ensures
      var i := Find(v, '&', 0);
      Split(v) == if i == -1 then [v] else [v[..i]] + Split(v[i + 1..])
  {
    hide Find;
  }

  lemma AroundChar(v: string, i: nat)
    requires i < |v| && v[i] == '&'
    ensures v == v[..i] + ("&" + v[i + 1..])
  {
  }

  lemma Cons(first: string, rest: seq<string>)
    ensures ([first] + rest)[0] == first && ([first] + rest)[1..] == rest
  {
  }

  lemma SplitStep(v: string)
    ensures
      var i := Find(v, '&', 0);
      if i == -1 then Split(v) == [v]
      else Split(v)[0] == v[..i] && Split(v)[1..] == Split(v[i + 1..]) && v == v[..i] + ("&" + v[i + 1..])
  {
    hide Find, Split;
    SplitUnfolds(v);
    var i := Find(v, '&', 0);
    if i != -1 {
      AroundChar(v, i);
      Cons(v[..i], Split(v[i + 1..]));
    }
  }

  lemma {:induction false} SplitJoins(v: string)
    ensures v == Split(v)[0] + More(Split(v)[1..])
    decreases |v|
  {
    hide Find, Split, More;
    SplitStep(v);
    var i := Find(v, '&', 0);
    if i == -1 {
      MoreSteps([]);
      assert Split(v)[1..] == [];
    } else {
      var parts := Split(v[i + 1..]);
      SplitJoins(v[i + 1..]);
      MoreSteps(parts);
      assert "&" + (parts[0] + More(parts[1..])) == "&" + parts[0] + More(parts[1..]);
    }
  }

  lemma MoreSteps(parts: seq<string>)
    ensures More(parts) == if parts == [] then "" else "&" + parts[0] + More(parts[1..])
  {
  }

  lemma {:induction false} FindShift(s: string, c: char, start: nat, pos: nat)
    requires c != '\0' && start + pos <= |s|
    ensures
      var i := Find(s[start..], c, pos);
      Find(s, c, start + pos) == if i == -1 then -1 else start + i
    decreases |s| - pos
  {
    if start + pos < |s| {
      assert s[start..][pos] == s[start + pos];
      FindShift(s, c, start, pos + 1);
    }
  }

  lemma SectionStep(v: string, n: nat, start: nat)
    requires start <= |v| && n > 0 && Find(v, '&', start) != -1
    ensures SectionFrom(v, '&', n, start) == SectionFrom(v, '&', n - 1, Find(v, '&', start) + 1)
  {
    hide Find, Mid;
  }

  lemma SectionEnd(v: string, start: nat)
    requires start <= |v|
    ensures
      var stop := Find(v, '&', start);
      SectionFrom(v, '&', 0, start) == Mid(v, start, (if stop == -1 then |v| else stop) - start)
  {
    hide Find, Mid;
  }

  lemma FirstSection(v: string, start: nat)
    requires start <= |v| && Split(v[start..])[0] != ""
    ensures SectionFrom(v, '&', 0, start) == Split(v[start..])[0]
  {
    hide Find, Mid, Split, SectionFrom;
    FindShift(v, '&', start, 0);
    var t := v[start..];
    SplitStep(t);
    var i := Find(t, '&', 0);
    SectionEnd(v, start);
    var len := if i == -1 then |t| else i;
    assert v[start..start + len] == t[..len];
    assert t[..len] == Split(t)[0];
    MidPlain(v, start, len);
  }

  /** `section` picks the value of that number. */
  lemma {:induction false} SectionIsPart(v: string, n: nat, start: nat)
    requires start <= |v| && n < |Split(v[start..])| && Split(v[start..])[n] != ""
    ensures SectionFrom(v, '&', n, start) == Split(v[start..])[n]
    decreases n
  {
    hide Find, Mid, Split, SectionFrom;
    if n == 0 {
      FirstSection(v, start);
    } else {
      var t := v[start..];
      FindShift(v, '&', start, 0);
      SplitStep(t);
      var next := start + Find(t, '&', 0) + 1;
      SectionStep(v, n, start);
      assert v[next..] == t[next - start..];
      assert Split(t)[n] == Split(t)[1..][n - 1];
      SectionIsPart(v, n - 1, next);
    }
  }

  lemma {:induction false} CountIsSplit(v: string)
    requires '\0' !in v
    ensures Count(v, '&') + 1 == |Split(v)|
    decreases |v|
  {
    hide Find, Count;
    CountNothing();
    var i := Find(v, '&', 0);
    if i == -1 {
      NotFound(v, '&', 0);
      assert v[0..] == v;
      CountAcross(v, "", '&');
      assert v + "" == v;
    } else {
      var rest := v[i + 1..];
      CountIsSplit(rest);
      CountAcross(v[..i], "&" + rest, '&');
      CountAcross("&", rest, '&');
      CountOne();
      assert v == v[..i] + ("&" + rest);
      assert '&' !in v[..i] by {
        assert forall k :: 0 <= k < i ==> v[..i][k] == v[k];
      }
    }
  }

  lemma {:induction false} NotFound(s: string, c: char, pos: nat)
    requires c != '\0' && '\0' !in s && pos <= |s| && Find(s, c, pos) == -1
    ensures c !in s[pos..]
    decreases |s| - pos
  {
    if pos < |s| {
      NotFound(s, c, pos + 1);
      assert s[pos..] == [s[pos]] + s[pos + 1..];
    }
  }

  // ----- the text of a map is the text of its pairs --------------------------------------------------

  function PairsOf(key: string, parts: seq<string>): (pairs: seq<Field>)
    ensures |pairs| == |parts|
  {
    if parts == [] then [] else [Field(key, parts[0])] + PairsOf(key, parts[1..])
  }

  function AllPairs(fields: seq<Field>): (all: seq<Field>) {
    if fields == [] then [] else PairsOf(fields[0].key, Split(fields[0].value)) + AllPairs(fields[1..])
  }

  lemma {:induction false} PairTextJoins(a: seq<Field>, b: seq<Field>)
    requires a != [] && b != []
    ensures PairText(a + b) == PairText(a) + "&" + PairText(b)
    decreases |a|
  {
    var head := a[0].key + "=" + a[0].value;
    if |a| == 1 {
      assert (a + b)[1..] == b;
    } else {
      PairTextJoins(a[1..], b);
      assert (a + b)[1..] == a[1..] + b;
      assert head + ("&" + (PairText(a[1..]) + "&" + PairText(b)))
          == head + ("&" + PairText(a[1..])) + "&" + PairText(b);
    }
  }

  lemma {:induction false} RepeatsArePairs(f: Field, v: nat)
    requires ValidField(f) && 1 <= v < |Split(f.value)|
    ensures Repeats(f, v, |Split(f.value)| - 1) == "&" + PairText(PairsOf(f.key, Split(f.value)[v..]))
    decreases |Split(f.value)| - v
  {
    hide SectionFrom, Split;
    var parts := Split(f.value);
    assert f.value[0..] == f.value;
    SectionIsPart(f.value, v, 0);
    assert parts[v..][1..] == parts[v + 1..];
    var head := f.key + "=" + parts[v];
    var pairs := PairsOf(f.key, parts[v..]);
    assert pairs[0] == Field(f.key, parts[v]) && pairs[1..] == PairsOf(f.key, parts[v + 1..]);
    if v + 1 < |parts| {
      RepeatsArePairs(f, v + 1);
      assert "&" + f.key + "=" + parts[v] + ("&" + PairText(pairs[1..])) == "&" + (head + ("&" + PairText(pairs[1..])));
    } else {
      assert "&" + f.key + "=" + parts[v] + "" == "&" + (head + "");
    }
  }

  lemma FieldIsPairs(f: Field)
    requires ValidField(f)
    ensures FieldText(f) == PairText(PairsOf(f.key, Split(f.value)))
  {
    hide SectionFrom, Count, Repeats;
    var parts := Split(f.value);
    CountIsSplit(f.value);
    var pairs := PairsOf(f.key, parts);
    assert pairs[0] == Field(f.key, parts[0]) && pairs[1..] == PairsOf(f.key, parts[1..]);
    if |parts| > 1 {
      assert f.value[0..] == f.value;
      SectionIsPart(f.value, 0, 0);
      RepeatsArePairs(f, 1);
    } else {
      SplitJoins(f.value);
      assert More(parts[1..]) == "";
      assert f.value == parts[0];
    }
  }

  lemma {:induction false} QueryIsPairs(fields: seq<Field>)
    requires ValidFields(fields)
    ensures QueryText(fields) == PairText(AllPairs(fields))
    ensures PlainPairs(AllPairs(fields)) && (fields != [] ==> AllPairs(fields) != [])
    decreases |fields|
  {
    hide FieldText, ValidField, PairText, Split, PlainPair;
    if fields == [] {
      assert PairText([]) == "" by { NoPairs(); }
    } else {
      var f := fields[0];
      var pairs := PairsOf(f.key, Split(f.value));
      assert ValidField(f);
      FieldIsPairs(f);
      PairsArePlain(f);
      QueryIsPairs(fields[1..]);
      if |fields| > 1 {
        PairTextJoins(pairs, AllPairs(fields[1..]));
        assert FieldText(f) + ("&" + QueryText(fields[1..])) == FieldText(f) + "&" + QueryText(fields[1..]);
      } else {
        assert AllPairs(fields[1..]) == [];
        assert pairs + [] == pairs;
      }
    }
  }

  lemma NoPairs()
    ensures PairText([]) == ""
  {
  }

  lemma PairsArePlain(f: Field)
    requires ValidField(f)
    ensures PlainPairs(PairsOf(f.key, Split(f.value)))
  {
    hide Split, Plain;
    PartsArePlain(f.key, Split(f.value));
  }

  lemma {:induction false} PartsArePlain(key: string, parts: seq<string>)
    requires Plain(key) && '=' !in key && AllPlain(parts)
    ensures PlainPairs(PairsOf(key, parts))
    decreases |parts|
  {
    hide Plain;
    if parts != [] {
      PartsArePlain(key, parts[1..]);
    }
  }

  // ----- entering the pairs again -------------------------------------------------------------------

  lemma {:induction false} AddAllJoins(fields: seq<Field>, a: seq<Field>, b: seq<Field>)
    ensures AddAll(fields, a + b) == AddAll(AddAll(fields, a), b)
    decreases |a|
  {
    hide Add;
    if a == [] {
      assert a + b == b;
    } else {
      assert (a + b)[1..] == a[1..] + b;
      AddAllJoins(Add(fields, a[0].key, a[0].value), a[1..], b);
    }
  }

  predicate Fresh(fields: seq<Field>, key: string) {
    forall i :: 0 <= i < |fields| ==> Rpc.Hash(fields[i].key) != Rpc.Hash(key)
  }

  lemma {:induction false} AddFresh(fields: seq<Field>, key: string, value: string)
    requires Fresh(fields, key)
    ensures Add(fields, key, value) == fields + [Field(key, value)]
    decreases |fields|
  {
    hide Rpc.Hash;
    if fields != [] {
      AddFresh(fields[1..], key, value);
    }
  }

  lemma {:induction false} AddAgain(fields: seq<Field>, key: string, before: string, value: string)
    requires Fresh(fields, key)
    ensures Add(fields + [Field(key, before)], key, value) == fields + [Field(key, before + "&" + value)]
    decreases |fields|
  {
    hide Rpc.Hash;
    var all := fields + [Field(key, before)];
    if fields == [] {
      assert all[1..] == [];
    } else {
      assert all[1..] == fields[1..] + [Field(key, before)];
      AddAgain(fields[1..], key, before, value);
    }
  }

  lemma {:induction false} AddsMore(fields: seq<Field>, key: string, before: string, parts: seq<string>)
    requires Fresh(fields, key)
    ensures AddAll(fields + [Field(key, before)], PairsOf(key, parts))
         == fields + [Field(key, before + More(parts))]
    decreases |parts|
  {
    hide Fresh, Add;
    if parts == [] {
      assert before + More(parts) == before;
    } else {
      AddAgain(fields, key, before, parts[0]);
      AddsMore(fields, key, before + "&" + parts[0], parts[1..]);
      assert before + "&" + parts[0] + More(parts[1..]) == before + More(parts);
      assert PairsOf(key, parts)[1..] == PairsOf(key, parts[1..]);
    }
  }

  lemma AddsField(fields: seq<Field>, f: Field)
    requires Fresh(fields, f.key)
    ensures AddAll(fields, PairsOf(f.key, Split(f.value))) == fields + [f]
  {
    hide Fresh, Split, Add;
    var parts := Split(f.value);
    AddFresh(fields, f.key, parts[0]);
    AddsMore(fields, f.key, parts[0], parts[1..]);
    SplitJoins(f.value);
    assert PairsOf(f.key, parts)[1..] == PairsOf(f.key, parts[1..]);
    assert f == Field(f.key, f.value);
  }

  lemma {:induction false} AddsFields(done: seq<Field>, fields: seq<Field>)
    requires Distinct(done + fields)
    ensures AddAll(done, AllPairs(fields)) == done + fields
    decreases |fields|
  {
    hide Split, Add, Rpc.Hash;
    if fields == [] {
      assert done + fields == done;
    } else {
      var f := fields[0];
      var all := done + fields;
      assert all[|done|] == f;
      assert forall i :: 0 <= i < |done| ==> all[i] == done[i];
      assert Fresh(done, f.key);
      AddAllJoins(done, PairsOf(f.key, Split(f.value)), AllPairs(fields[1..]));
      AddsField(done, f);
      assert done + [f] + fields[1..] == all;
      AddsFields(done + [f], fields[1..]);
    }
  }

  /** Parsing the query text rebuilt from a map without empty values gives the map back. */
  lemma FullMapReturns(fields: seq<Field>)
    requires fields != [] && ValidFields(fields) && Distinct(fields)
    ensures Parse(QueryText(fields)) == Some(fields)
  {
    hide Parse, QueryText, AllPairs, PairText, ValidFields, Distinct, PlainPairs;
    QueryIsPairs(fields);
    ParsesPairs(AllPairs(fields));
    assert [] + fields == fields;
    AddsFields([], fields);
  }

  // ----- fields added to a parsed query --------------------------------------------------------------

  /** The query part of what `asString` returns: it is rebuilt only when the number of fields in the text
      is not the number of keys. */
  function AsText(query: string, fields: seq<Field>): (text: string) {
    if fields != [] && Count(query, '&') + 1 != |fields| then QueryText(fields) else query
  }

  /** Splitting at any '&' gives the parts on both sides. */
  lemma {:induction false} SplitApart(u: string, w: string)
    requires '\0' !in u
    ensures Split(u + ("&" + w)) == Split(u) + Split(w)
    decreases |u|
  {
    hide Find, Split;
    var i := Find(u, '&', 0);
    SplitStep(u);
    if i == -1 {
      NotFound(u, '&', 0);
      assert u[0..] == u;
      SplitFront(u, w);
    } else {
      var gap, rest := u[..i], u[i + 1..];
      assert '&' !in gap by {
        assert forall k :: 0 <= k < i ==> gap[k] == u[k];
      }
      assert u + ("&" + w) == gap + ("&" + (rest + ("&" + w)));
      SplitFront(gap, rest + ("&" + w));
      SplitFront(gap, rest);
      SplitApart(rest, w);
    }
  }

  lemma FindSame(gap: string, rest: string)
    requires '\0' !in gap && '&' !in gap
    ensures Find(gap + ("&" + rest), '&', 0) == |gap|
  {
    hide Find;
    var w := gap + ("&" + rest);
    assert w[0..|gap|] == gap;
    FindAcross(w, '&', 0, gap);
  }

  lemma SplitFront(gap: string, rest: string)
    requires '\0' !in gap && '&' !in gap
    ensures Split(gap + ("&" + rest)) == [gap] + Split(rest)
  {
    hide Find, Split;
    var w := gap + ("&" + rest);
    FindSame(gap, rest);
    SplitStep(w);
    assert w[..|gap|] == gap && w[|gap| + 1..] == rest;
    assert Split(w) == [Split(w)[0]] + Split(w)[1..];
  }

  lemma SplitMore(v: string, more: string)
    requires '\0' !in v && '&' !in more
    ensures Split(v + "&" + more) == Split(v) + [more]
  {
    hide Split, Find;
    assert v + "&" + more == v + ("&" + more);
    SplitApart(v, more);
    FindNone(more, '&', 0);
    SplitStep(more);
  }

  /** Entering a value for a known key leaves all keys as they are. */
  lemma {:induction false} AddKnown(fields: seq<Field>, key: string, value: string)
    requires !Fresh(fields, key)
    ensures |Add(fields, key, value)| == |fields| && Add(fields, key, value) != fields
    ensures forall i :: 0 <= i < |fields| ==> Add(fields, key, value)[i].key == fields[i].key
    decreases |fields|
  {
    hide Rpc.Hash;
    if Rpc.Hash(fields[0].key) == Rpc.Hash(key) {
      assert |fields[0].value + "&" + value| > |fields[0].value|;
      assert Add(fields, key, value)[0] != fields[0];
    } else {
      AddKnown(fields[1..], key, value);
      assert Add(fields, key, value)[1..] == Add(fields[1..], key, value);
    }
  }

  lemma AddKeepsDistinct(fields: seq<Field>, key: string, value: string)
    requires Distinct(fields)
    ensures Distinct(Add(fields, key, value)) && Add(fields, key, value) != fields
  {
    hide Rpc.Hash, Add;
    if Fresh(fields, key) {
      AddFresh(fields, key, value);
    } else {
      AddKnown(fields, key, value);
    }
  }

  /** The first field of a URI without a query never shows. */
  lemma FirstFieldIsLost(key: string, value: string)
    ensures Parse("") == Some([]) && Add([], key, value) == [Field(key, value)]
    ensures AsText("", Add([], key, value)) == ""
  {
    CountNothing();
  }

  /** No two keys of a parsed map share a hash. */
  lemma ParsedDistinct(q: string)
    requires Parse(q).Some?
    ensures Distinct(Parse(q).value)
  {
    assert Distinct([]);
    hide Distinct, Count, ParseFrom;
    ParseKeepsDistinct(q, Count(q, '&') + 1, 0, []);
  }

  lemma {:induction false} ParseKeepsDistinct(q: string, left: nat, spos: nat, fields: seq<Field>)
    requires Distinct(fields) && ParseFrom(q, left, spos, fields).Some?
    ensures Distinct(ParseFrom(q, left, spos, fields).value)
    decreases left
  {
    hide Distinct, Add, Find, Mid;
    if left > 0 && Find(q, '=', spos) != -1 {
      var eq := Find(q, '=', spos);
      var amp := Find(q, '&', eq + 1);
      var end := if amp == -1 then |q| else amp;
      var key, value := Mid(q, spos, eq - spos), Mid(q, eq + 1, end - (eq + 1));
      AddKeepsDistinct(fields, key, value);
      ParseKeepsDistinct(q, left - 1, end + 1, Add(fields, key, value));
    }
  }

  lemma AddNotEmpty(fields: seq<Field>, key: string, value: string)
    ensures Add(fields, key, value) != []
  {
  }

  // ----- when a search leaves the text --------------------------------------------------------------

  /** Some section has no '='. */
  predicate Keyless(parts: seq<string>) {
    exists i :: 0 <= i < |parts| && '=' !in parts[i]
  }

  /** Text without '&' behind the last section belongs to that section. */
  lemma {:induction false} SplitTail(x: string, y: string)
    requires '\0' !in x && '&' !in y
    ensures
      var parts := Split(x);
      Split(x + y) == parts[..|parts| - 1] + [parts[|parts| - 1] + y]
    decreases |x|
  {
    hide Find, Split;
    var i := Find(x, '&', 0);
    SplitStep(x);
    if i == -1 {
      NotFound(x, '&', 0);
      assert x[0..] == x;
      OneSection(x + y);
    } else {
      var gap, rest := x[..i], x[i + 1..];
      assert '&' !in gap by {
        assert forall k :: 0 <= k < i ==> gap[k] == x[k];
      }
      SplitFront(gap, rest);
      SplitFront(gap, rest + y);
      assert x + y == gap + ("&" + (rest + y));
      SplitTail(rest, y);
      var parts := Split(rest);
      assert Split(x) == [gap] + parts;
      assert Split(x)[..|parts|] == [gap] + parts[..|parts| - 1];
    }
  }

  lemma OneSection(z: string)
    requires '&' !in z
    ensures Split(z) == [z]
  {
    hide Find, Split;
    assert z[0..] == z;
    FindNone(z, '&', 0);
    SplitStep(z);
  }

  /** Sections of a text without '=' have none either. */
  lemma {:induction false} PartsOfPlain(x: string)
    requires '=' !in x
    ensures forall i :: 0 <= i < |Split(x)| ==> '=' !in Split(x)[i]
    decreases |x|
  {
    hide Find, Split;
    SplitStep(x);
    var i := Find(x, '&', 0);
    if i != -1 {
      assert forall k :: 0 <= k < i ==> x[..i][k] == x[k];
      assert forall c :: c in x[i + 1..] ==> c in x;
      PartsOfPlain(x[i + 1..]);
      assert Split(x) == [Split(x)[0]] + Split(x)[1..];
    }
  }

  /** The sections up to the first '=' and the end of its own: the last has it, the others do not. */
  lemma FrontParts(x: string, y: string)
    requires '=' !in x && '\0' !in x && '&' !in y
    ensures
      var parts := Split(x + "=" + y);
      (Keyless(parts) <==> |parts| > 1) && '=' in parts[|parts| - 1]
  {
    hide Split;
    assert x + "=" + y == x + ("=" + y);
    SplitTail(x, "=" + y);
    PartsOfPlain(x);
    var parts := Split(x + "=" + y);
    var last := Split(x)[|Split(x)| - 1] + ("=" + y);
    assert parts[|parts| - 1] == last && last[|last| - |y| - 1] == '=';
    if |parts| > 1 {
      assert parts[0] == Split(x)[0];
    }
  }

  /** What the loop does with `left` turns to go on the text `t` still unread. */
  predicate LeavesText(t: string, left: nat) {
    Leaves(Split(t), left)
  }

  predicate Leaves(parts: seq<string>, left: nat)
    requires |parts| > 0
  {
    '=' in parts[|parts| - 1] && (left > |parts| || Keyless(parts))
  }

  lemma ParseTurn(q: string, left: nat, spos: nat, fields: seq<Field>)
    requires left > 0 && spos <= |q| && Find(q, '=', spos) != -1
    ensures
      var eq := Find(q, '=', spos);
      var amp := Find(q, '&', eq + 1);
      var end := if amp == -1 then |q| else amp;
      ParseFrom(q, left, spos, fields)
      == ParseFrom(q, left - 1, end + 1,
                   Add(fields, Mid(q, spos, eq - spos), Mid(q, eq + 1, end - (eq + 1))))
  {
    hide Find, Mid, Add;
  }

  lemma ParseEnds(q: string, left: nat, spos: nat, fields: seq<Field>)
    ensures left > 0 && spos <= |q| && Find(q, '=', spos) == -1 ==> ParseFrom(q, left, spos, fields) == Some(fields)
    ensures spos > |q| ==> (ParseFrom(q, left, spos, fields) == None <==> left > 0)
  {
    hide Find, Mid, Add;
  }

  /** A text around an '=' and the '&' behind it. */
  lemma Around(q: string, spos: nat, eq: nat, amp: nat)
    requires spos <= eq < |q| && q[eq] == '=' && eq < amp <= |q|
    ensures q[spos..amp] == q[spos..eq] + "=" + q[eq + 1..amp]
    ensures amp == |q| ==> q[spos..] == q[spos..amp]
    ensures amp < |q| && q[amp] == '&' ==> q[spos..] == q[spos..amp] + ("&" + q[amp + 1..])
  {
  }

  /** The turn that takes the first '=' of the unread text. */
  lemma TurnLeaves(q: string, left: nat, spos: nat)
    requires '\0' !in q && spos <= |q| && left >= |Split(q[spos..])| && Find(q, '=', spos) != -1
    ensures
      var amp := Find(q, '&', Find(q, '=', spos) + 1);
      if amp == -1 then LeavesText(q[spos..], left) <==> left > 1
      else left - 1 >= |Split(q[amp + 1..])|
           && (LeavesText(q[spos..], left) <==> LeavesText(q[amp + 1..], left - 1))
  {
    hide Find, Split, Keyless, LeavesText;
    var eq := Find(q, '=', spos);
    FirstEquals(q, spos, eq);
    var amp := Find(q, '&', eq + 1);
    var end := if amp == -1 then |q| else amp;
    Around(q, spos, eq, end);
    NoSeparator(q, eq + 1);
    if amp == -1 {
      LastTurn(q[spos..eq], q[eq + 1..end], left);
    } else {
      OneTurn(q[spos..eq], q[eq + 1..end], q[amp + 1..], left);
    }
  }

  lemma {:induction false} LeavesExactly(q: string, left: nat, spos: nat, fields: seq<Field>)
    requires '\0' !in q && spos <= |q| && left >= |Split(q[spos..])|
    ensures ParseFrom(q, left, spos, fields) == None <==> LeavesText(q[spos..], left)
    decreases left
  {
    hide Find, Mid, Add, Split, Keyless, LeavesText, ParseFrom;
    var eq := Find(q, '=', spos);
    if eq == -1 {
      NotFound(q, '=', spos);
      NoEqualsStays(q[spos..], left);
      ParseEnds(q, left, spos, fields);
    } else {
      ParseTurn(q, left, spos, fields);
      TurnLeaves(q, left, spos);
      var amp := Find(q, '&', eq + 1);
      var end := if amp == -1 then |q| else amp;
      var more := Add(fields, Mid(q, spos, eq - spos), Mid(q, eq + 1, end - (eq + 1)));
      if amp == -1 {
        ParseEnds(q, left - 1, end + 1, more);
      } else {
        LeavesExactly(q, left - 1, amp + 1, more);
      }
    }
  }

  lemma NoSeparator(q: string, pos: nat)
    requires '\0' !in q && pos <= |q|
    ensures
      var amp := Find(q, '&', pos);
      var y := q[pos..if amp == -1 then |q| else amp];
      '&' !in y && '\0' !in y
  {
    hide Find;
    var amp := Find(q, '&', pos);
    if amp == -1 {
      NotFound(q, '&', pos);
      assert q[pos..|q|] == q[pos..];
    } else {
      var y := q[pos..amp];
      assert forall k :: 0 <= k < |y| ==> y[k] == q[pos + k];
    }
  }

  lemma FirstEquals(q: string, spos: nat, eq: nat)
    requires '\0' !in q && spos <= |q| && eq == Find(q, '=', spos)
    ensures spos <= eq < |q| && q[eq] == '=' && '=' !in q[spos..eq] && '\0' !in q[spos..eq]
  {
    hide Find;
    var x := q[spos..eq];
    assert forall k :: 0 <= k < |x| ==> x[k] == q[spos + k];
  }

  lemma NoEqualsStays(t: string, left: nat)
    requires '=' !in t
    ensures !LeavesText(t, left)
  {
    hide Split, Keyless;
    PartsOfPlain(t);
  }

  /** The turn that takes the last section: another one would leave the text. */
  lemma LastTurn(x: string, y: string, left: nat)
    requires '=' !in x && '\0' !in x && '&' !in y && left >= |Split(x + "=" + y)|
    ensures LeavesText(x + "=" + y, left) <==> left > 1
  {
    hide Split, Keyless;
    FrontParts(x, y);
  }

  /** A turn that takes as many sections as there are up to the first '='. */
  lemma OneTurn(x: string, y: string, rest: string, left: nat)
    requires '=' !in x && '\0' !in x && '&' !in y && '\0' !in y
    requires left >= |Split((x + "=" + y) + ("&" + rest))|
    ensures left - 1 >= |Split(rest)|
    ensures LeavesText((x + "=" + y) + ("&" + rest), left) <==> LeavesText(rest, left - 1)
  {
    hide Split, Keyless, Leaves;
    SplitApart(x + "=" + y, rest);
    FrontParts(x, y);
    LeavesFront(Split(x + "=" + y), Split(rest), left);
  }

  lemma LeavesFront(front: seq<string>, back: seq<string>, left: nat)
    requires |front| > 0 && |back| > 0 && left >= |front| + |back| && (Keyless(front) <==> |front| > 1)
    ensures Leaves(front + back, left) <==> Leaves(back, left - 1)
  {
    hide Keyless;
    KeylessJoin(front, back);
    var parts := front + back;
    assert parts[|parts| - 1] == back[|back| - 1];
  }

  lemma KeylessJoin(a: seq<string>, b: seq<string>)
    ensures Keyless(a + b) <==> Keyless(a) || Keyless(b)
  {
    if Keyless(a) {
      var i :| 0 <= i < |a| && '=' !in a[i];
      assert (a + b)[i] == a[i];
    }
    if Keyless(b) {
      var i :| 0 <= i < |b| && '=' !in b[i];
      assert (a + b)[|a| + i] == b[i];
    }
  }

  /** `getQueryMap` searches behind the text if and only if the last section has an '=' and some section
      has none. */
  lemma ParseUndefinedExactly(q: string)
    requires '\0' !in q
    ensures Parse(q) == None <==> '=' in Split(q)[|Split(q)| - 1] && Keyless(Split(q))
  {
    hide ParseFrom, Split, Keyless, Count;
    CountIsSplit(q);
    assert q[0..] == q;
    LeavesExactly(q, Count(q, '&') + 1, 0, []);
  }

  /** A query on which it does. */
  lemma KeylessFieldLeaves()
    ensures Parse("a&b=c") == None
  {
    hide Parse;
    var q := "a&b=c";
    SplitApart("a", "b=c");
    OneSection("a");
    OneSection("b=c");
    assert q == "a" + ("&" + "b=c");
    assert Split(q) == ["a", "b=c"];
    assert '=' !in Split(q)[0];
    assert "b=c"[1] == '=';
    ParseUndefinedExactly(q);
  }

  /** What `addQueryField` stores for a value holds no '&' and no '=' and decodes to the value; it is empty
      exactly for the empty value. */
  lemma StoredValue(value: string)
    requires ByteText(value)
    ensures
      var e := PC.Replace(PC.Encode(value, " .~_-"), ' ', '+');
      Part(e) && '=' !in e && (e == "" <==> value == "") && PC.Decode(e) == value
  {
    hide PC.Replace, PC.Decode, PC.Excluded, PC.DecodeFrom;
    assert PC.Encode("", " .~_-") == "";
    hide PC.Encode;
    QueryLists();
    var e := PC.Encode(value, " .~_-");
    EncodedChars(value, " .~_-", '&');
    EncodedChars(value, " .~_-", '=');
    EncodedChars(value, " .~_-", '\0');
    EncodedChars(value, " .~_-", '+');
    ReplaceBack(e, ' ', '+');
    FormRoundTrip(value, " .~_-");
    assert e == "" ==> PC.Decode("") == "" by { NothingDecoded(); }
    assert value == "" ==> PC.Replace(e, ' ', '+') == "";
  }

  lemma NothingDecoded()
    ensures PC.Decode("") == ""
  {
  }

  /** The query parts of a URI. */
  class Query {
    var query: string
    var fields: seq<Field>

    constructor (query: string)
      ensures this.query == query && fields == []
    {
      this.query, this.fields := query, [];
    }

    /** `getQueryMap`; false means that a search would have started behind the text. */
    method GetQueryMap() returns (ok: bool)
      modifies this`fields
      ensures old(fields) == [] && query != "" ==>
        (ok <==> Parse(query).Some?) && (ok ==> Some(fields) == Parse(query))
      ensures old(fields) != [] || query == "" ==> ok && fields == old(fields)
    {
      hide Find, Mid, Add, Count;
      if fields == [] && query != "" {
        var count := Count(query, '&') + 1;
        var spos: nat := 0;
        var i := 0;
        while i < count
          invariant 0 <= i <= count
          invariant ParseFrom(query, count - i, spos, fields) == Parse(query)
        {
          if spos > |query| {
            return false;
          }
          var epos := Find(query, '=', spos);
          if epos == -1 {
            return true;
          }
          var field := Mid(query, spos, epos - spos);
          spos := epos + 1;
          epos := Find(query, '&', spos);
          if epos == -1 {
            epos := |query|;
          }
          fields := Add(fields, field, Mid(query, spos, epos - spos));
          spos := epos + 1;
          i := i + 1;
        }
      }
      return true;
    }

    /** `addQueryField`: the value is encoded, the key is not. */
    method AddQueryField(key: string, value: string) returns (ok: bool)
      modifies this`fields
      ensures
        var known := if old(fields) == [] && query != "" then Parse(query) else Some(old(fields));
        (ok <==> known.Some?)
        && (ok ==> fields == Add(known.value, key, PC.Replace(PC.Encode(value, " .~_-"), ' ', '+')))
    {
      hide Parse, Add, PC.Encode, PC.Replace;
      ok := GetQueryMap();
      if ok {
        var encoded := PC.DoEncode(value, "", " .~_-");
        assert encoded == PC.Encode(value, " .~_-");
        encoded := PC.DoReplace(encoded, ' ', '+');
        fields := Add(fields, key, encoded);
      }
    }

    /** The query part of `asString`. */
    method AsString()
      modifies this`query
      ensures query == AsText(old(query), fields)
    {
      hide FieldText, Count;
      if fields == [] {
        return;
      }
      if Count(query, '&') + 1 != |fields| {
        query := "";
        var i := 0;
        while i < |fields|
          invariant 0 <= i <= |fields|
          invariant query + (if 0 < i < |fields| then "&" else "") + QueryText(fields[i..]) == QueryText(fields)
        {
          ghost var was := query;
          ghost var rest := QueryText(fields[i + 1..]);
          assert fields[i..][1..] == fields[i + 1..];
          if i != 0 {
            query := query + "&";
          }
          ghost var front := query;
          AppendField(fields[i]);
          assert front + (FieldText(fields[i]) + ("&" + rest)) == query + "&" + rest;
          assert front + (FieldText(fields[i]) + "") == query;
          i := i + 1;
        }
      }
    }

    /** One turn of the loop of `asString`. */
    method AppendField(f: Field)
      modifies this`query
      ensures query == old(query) + FieldText(f)
    {
      hide Count, SectionFrom, Repeats;
      ghost var start := query;
      query := query + f.key;
      query := query + "=";
      var count := Count(f.value, '&');
      if count > 0 {
        query := query + SectionFrom(f.value, '&', 0, 0);
        var v := 1;
        ghost var all := query + Repeats(f, 1, count);
        assert all == start + FieldText(f);
        while v <= count
          invariant 1 <= v <= count + 1
          invariant query + Repeats(f, v, count) == all
        {
          RepeatStep(f, v, count, query);
          query := query + "&";
          query := query + f.key;
          query := query + "=";
          query := query + SectionFrom(f.value, '&', v, 0);
          v := v + 1;
        }
        assert query == all by { RepeatEnd(f, count); }
      } else {
        query := query + f.value;
        assert query == start + FieldText(f);
      }
    }
  }

  lemma RepeatStep(f: Field, v: nat, count: nat, front: string)
    requires v <= count
    ensures front + Repeats(f, v, count)
         == front + "&" + f.key + "=" + SectionFrom(f.value, '&', v, 0) + Repeats(f, v + 1, count)
  {
    hide SectionFrom;
    var piece := "&" + f.key + "=" + SectionFrom(f.value, '&', v, 0);
    assert front + (piece + Repeats(f, v + 1, count)) == front + piece + Repeats(f, v + 1, count);
    assert front + piece == front + "&" + f.key + "=" + SectionFrom(f.value, '&', v, 0);
  }

  lemma RepeatEnd(f: Field, count: nat)
    ensures Repeats(f, count + 1, count) == ""
  {
  }
}
