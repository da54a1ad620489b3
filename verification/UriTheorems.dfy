/** Which maps the query text of a URI gives back, and which added fields it shows.  An empty value is the
    delicate case: `substr` and `section` of length 0 take the rest of their text. */
module UriTheorems {

  import opened CText
  import opened Shared
  import opened UriQuery
  import PC = PercentCoding
  import Rpc

  /** A key without '&' and '=', and any text of values. */
  predicate Keyed(f: Field) {
    Plain(f.key) && '=' !in f.key && '\0' !in f.value
  }

  predicate KeyedFields(fields: seq<Field>) {
    forall i :: 0 <= i < |fields| ==> Keyed(fields[i])
  }

  /** Value `j` of entry `i` is empty. */
  predicate EmptyAt(fields: seq<Field>, i: int, j: int) {
    0 <= i < |fields| && 0 <= j < |Split(fields[i].value)| && Split(fields[i].value)[j] == ""
  }

  /** No value is empty but possibly the last of the last entry. */
  ghost predicate OnlyLastEmpty(fields: seq<Field>) {
    forall i, j :: EmptyAt(fields, i, j) ==> i == |fields| - 1 && j == |Split(fields[i].value)| - 1
  }

  // ----- the first empty value ----------------------------------------------------------------------

  lemma {:induction false} FirstEmptyPart(parts: seq<string>) returns (j: nat)
    requires exists k :: 0 <= k < |parts| && parts[k] == ""
    ensures j < |parts| && parts[j] == "" && forall k :: 0 <= k < j ==> parts[k] != ""
    decreases |parts|
  {
    if parts[0] == "" {
      j := 0;
    } else {
      var k :| 0 <= k < |parts| && parts[k] == "";
      assert parts[1..][k - 1] == parts[k];
      j := FirstEmptyPart(parts[1..]);
      j := j + 1;
      assert forall k :: 1 <= k < j ==> parts[k] == parts[1..][k - 1];
    }
  }

  /** No empty value comes before value `j` of entry `i`. */
  ghost predicate FirstAt(fields: seq<Field>, i: nat, j: nat) {
    EmptyAt(fields, i, j) && forall k, l :: EmptyAt(fields, k, l) ==> i < k || (i == k && j <= l)
  }

  lemma {:induction false} FirstEmpty(fields: seq<Field>) returns (i: nat, j: nat)
    requires exists k, l :: EmptyAt(fields, k, l)
    ensures FirstAt(fields, i, j)
    decreases |fields|
  {
    hide Split;
    var k, l :| EmptyAt(fields, k, l);
    var parts := Split(fields[0].value);
    if exists m :: 0 <= m < |parts| && parts[m] == "" {
      i := 0;
      j := FirstEmptyPart(parts);
    } else {
      var rest := fields[1..];
      assert EmptyAt(rest, k - 1, l);
      i, j := FirstEmpty(rest);
      forall m, n | EmptyAt(fields, m, n)
        ensures i + 1 < m || (i + 1 == m && j <= n)
      {
        assert EmptyAt(rest, m - 1, n);
      }
      i := i + 1;
    }
  }

  lemma PieceBefore(v: string)
    requires '\0' !in v
    ensures
      var i := Find(v, '&', 0);
      if i == -1 then Part(v) else Part(v[..i]) && '\0' !in v[i + 1..]
  {
    hide Find;
    var i := Find(v, '&', 0);
    if i == -1 {
      NotFound(v, '&', 0);
      assert v[0..] == v;
    } else {
      assert forall k :: 0 <= k < i ==> v[..i][k] == v[k];
      assert forall c :: c in v[i + 1..] ==> c in v;
    }
  }

  /** The parts of a text without '\0' hold neither separator. */
  lemma {:induction false} PartsArePieces(v: string)
    requires '\0' !in v
    ensures forall k :: 0 <= k < |Split(v)| ==> Part(Split(v)[k])
    decreases |v|
  {
    hide Find, Split, Part;
    SplitUnfolds(v);
    PieceBefore(v);
    var i := Find(v, '&', 0);
    if i != -1 {
      PartsArePieces(v[i + 1..]);
    }
  }

  // ----- the text up to a value ---------------------------------------------------------------------

  /** Pairs with more text behind them. */
  function Then(pre: seq<Field>, t: string): (r: string) {
    if pre == [] then t else PairText(pre) + "&" + t
  }

  lemma ThenJoins(a: seq<Field>, b: seq<Field>, t: string)
    ensures Then(a + b, t) == Then(a, Then(b, t))
  {
    hide PairText;
    if a == [] {
      assert a + b == b;
    } else if b == [] {
      assert a + b == a;
    } else {
      PairTextJoins(a, b);
      assert PairText(a) + "&" + PairText(b) + "&" + t == PairText(a) + "&" + (PairText(b) + "&" + t);
    }
  }

  lemma ThenOne(p: Field, t: string)
    ensures Then([p], t) == p.key + "=" + p.value + ("&" + t)
  {
    PairTextUnfolds([p]);
    assert p.key + "=" + p.value + "" + "&" + t == p.key + "=" + p.value + ("&" + t);
  }

  lemma ThenMore(pre: seq<Field>, t: string, more: string)
    ensures Then(pre, t) + more == Then(pre, t + more)
  {
    hide PairText;
    if pre != [] {
      assert PairText(pre) + "&" + t + more == PairText(pre) + "&" + (t + more);
    }
  }

  /** What stands behind the key of value `j` in the text of an entry. */
  function Tailing(f: Field, j: nat): (r: string) {
    SectionFrom(f.value, '&', j, 0) + Repeats(f, j + 1, |Split(f.value)| - 1)
  }

  lemma {:induction false} RepeatsAround(f: Field, v: nat, j: nat)
    requires Keyed(f) && 1 <= v <= j < |Split(f.value)|
    requires forall k :: 0 <= k < j ==> Split(f.value)[k] != ""
    ensures Repeats(f, v, |Split(f.value)| - 1)
         == "&" + Then(PairsOf(f.key, Split(f.value)[v..j]), f.key + "=" + Tailing(f, j))
    decreases j - v
  {
    hide SectionFrom, Split, Repeats, Then, PairsOf, Plain;
    var parts := Split(f.value);
    var t := f.key + "=" + Tailing(f, j);
    RepeatUnfolds(f, v, |parts| - 1);
    if v == j {
      assert parts[v..j] == [];
      ThenNothing(t);
      NoPairsOf(f.key);
      Regroup(f.key, SectionFrom(f.value, '&', v, 0), Repeats(f, v + 1, |parts| - 1));
    } else {
      assert f.value[0..] == f.value;
      SectionIsPart(f.value, v, 0);
      RepeatsAround(f, v + 1, j);
      var rest := PairsOf(f.key, parts[v + 1..j]);
      FirstPair(f.key, parts, v, j);
      ThenJoins([Field(f.key, parts[v])], rest, t);
      ThenOne(Field(f.key, parts[v]), Then(rest, t));
      Regroup(f.key, parts[v], "&" + Then(rest, t));
    }
  }

  lemma NoPairsOf(key: string)
    ensures PairsOf(key, []) == []
  {
  }

  lemma RepeatUnfolds(f: Field, v: nat, count: nat)
    requires v <= count
    ensures Repeats(f, v, count)
         == "&" + f.key + "=" + SectionFrom(f.value, '&', v, 0) + Repeats(f, v + 1, count)
  {
    hide SectionFrom;
  }

  lemma Regroup(key: string, value: string, more: string)
    ensures "&" + key + "=" + value + more == "&" + (key + "=" + value + more)
    ensures "&" + key + "=" + value + more == "&" + (key + "=" + (value + more))
  {
  }

  lemma ThenNothing(t: string)
    ensures Then([], t) == t
  {
  }

  lemma FirstPair(key: string, parts: seq<string>, v: nat, j: nat)
    requires v < j <= |parts|
    ensures PairsOf(key, parts[v..j]) == [Field(key, parts[v])] + PairsOf(key, parts[v + 1..j])
  {
    assert parts[v..j][1..] == parts[v + 1..j];
  }

  /** The text of an entry is the pairs of its values before `j`, and then value `j`. */
  lemma FieldAround(f: Field, j: nat)
    requires Keyed(f) && j < |Split(f.value)|
    requires forall k :: 0 <= k < j ==> Split(f.value)[k] != ""
    ensures FieldText(f) == Then(PairsOf(f.key, Split(f.value)[..j]), f.key + "=" + Tailing(f, j))
  {
    hide SectionFrom, Split, Repeats, Count, Then;
    var parts := Split(f.value);
    var n := |parts| - 1;
    CountIsSplit(f.value);
    if j == 0 {
      assert parts[..0] == [];
      ThenNothing(f.key + "=" + Tailing(f, 0));
      if n == 0 {
        OnlySection(f.value);
        RepeatEnd(f, 0);
        assert f.key + "=" + f.value == f.key + "=" + (f.value + "");
      } else {
        assert f.key + "=" + SectionFrom(f.value, '&', 0, 0) + Repeats(f, 1, n) == f.key + "=" + Tailing(f, 0);
      }
    } else {
      assert f.value[0..] == f.value;
      SectionIsPart(f.value, 0, 0);
      RepeatsAround(f, 1, j);
      var t := f.key + "=" + Tailing(f, j);
      var rest := PairsOf(f.key, parts[1..j]);
      FirstPair(f.key, parts, 0, j);
      assert parts[0..j] == parts[..j];
      ThenJoins([Field(f.key, parts[0])], rest, t);
      ThenOne(Field(f.key, parts[0]), Then(rest, t));
      assert f.key + "=" + parts[0] + ("&" + Then(rest, t)) == FieldText(f);
    }
  }

  /** The section of a text of one part is the text. */
  lemma OnlySection(v: string)
    requires '\0' !in v && |Split(v)| == 1
    ensures SectionFrom(v, '&', 0, 0) == v
  {
    hide Find, Split, SectionFrom;
    SplitStep(v);
    SplitJoins(v);
    SectionEnd(v, 0);
    MidWhole(v);
  }

  lemma MidWhole(v: string)
    ensures Mid(v, 0, |v|) == v
  {
    assert v[0..|v|] == v;
  }

  function Front(fields: seq<Field>, i: nat, j: nat): (pre: seq<Field>)
    requires i < |fields| && j < |Split(fields[i].value)|
  {
    AllPairs(fields[..i]) + PairsOf(fields[i].key, Split(fields[i].value)[..j])
  }

  /** What stands behind the key of value `j` of entry `i` in the whole text. */
  function Back(fields: seq<Field>, i: nat, j: nat): (r: string)
    requires i < |fields|
  {
    Tailing(fields[i], j) + (if i + 1 < |fields| then "&" + QueryText(fields[i + 1..]) else "")
  }

  lemma {:induction false} QueryAround(fields: seq<Field>, i: nat, j: nat)
    requires KeyedFields(fields) && i < |fields| && j < |Split(fields[i].value)|
    requires forall k, l :: EmptyAt(fields, k, l) ==> i < k || (i == k && j <= l)
    ensures QueryText(fields) == Then(Front(fields, i, j), fields[i].key + "=" + Back(fields, i, j))
    decreases i
  {
    hide Split, FieldText, Tailing, PairText, Then;
    var f := fields[0];
    var more := if |fields| > 1 then "&" + QueryText(fields[1..]) else "";
    assert QueryText(fields) == FieldText(f) + more;
    if i == 0 {
      forall k | 0 <= k < j
        ensures Split(f.value)[k] != ""
      {
        assert !EmptyAt(fields, 0, k);
      }
      FieldAround(f, j);
      var pre := PairsOf(f.key, Split(f.value)[..j]);
      assert Front(fields, 0, j) == pre by { assert fields[..0] == []; assert [] + pre == pre; }
      ThenMore(pre, f.key + "=" + Tailing(f, j), more);
      assert f.key + "=" + Tailing(f, j) + more == f.key + "=" + Back(fields, 0, j);
    } else {
      var rest := fields[1..];
      forall k, l | EmptyAt(rest, k, l)
        ensures i - 1 < k || (i - 1 == k && j <= l)
      {
        assert EmptyAt(fields, k + 1, l);
      }
      QueryAround(rest, i - 1, j);
      assert rest[i - 1] == fields[i] && rest[i..] == fields[i + 1..];
      assert Back(rest, i - 1, j) == Back(fields, i, j);
      WholeField(fields, i, j, 0);
      var pairs := PairsOf(f.key, Split(f.value));
      FieldThen(f, QueryText(rest));
      FrontSplits(fields, i, j);
      ThenJoins(pairs, Front(rest, i - 1, j), fields[i].key + "=" + Back(fields, i, j));
      assert FieldText(f) + ("&" + QueryText(rest)) == FieldText(f) + "&" + QueryText(rest);
    }
  }

  lemma FrontSplits(fields: seq<Field>, i: nat, j: nat)
    requires 0 < i < |fields| && j < |Split(fields[i].value)|
    ensures Front(fields, i, j)
         == PairsOf(fields[0].key, Split(fields[0].value)) + Front(fields[1..], i - 1, j)
  {
    hide Split;
    assert fields[..i][0] == fields[0] && fields[..i][1..] == fields[1..][..i - 1];
    assert fields[1..][i - 1] == fields[i];
    var a, b := PairsOf(fields[0].key, Split(fields[0].value)), AllPairs(fields[1..][..i - 1]);
    var c := PairsOf(fields[i].key, Split(fields[i].value)[..j]);
    assert (a + b) + c == a + (b + c);
  }

  /** Entries before the first empty value have none. */
  lemma WholeField(fields: seq<Field>, i: nat, j: nat, m: nat)
    requires KeyedFields(fields) && m < i < |fields|
    requires forall k, l :: EmptyAt(fields, k, l) ==> i < k || (i == k && j <= l)
    ensures ValidField(fields[m])
  {
    hide Split;
    var f := fields[m];
    PartsArePieces(f.value);
    forall k | 0 <= k < |Split(f.value)|
      ensures Plain(Split(f.value)[k])
    {
      assert !EmptyAt(fields, m, k);
    }
  }

  lemma FieldThen(f: Field, t: string)
    requires ValidField(f)
    ensures FieldText(f) + "&" + t == Then(PairsOf(f.key, Split(f.value)), t)
  {
    hide Split, FieldText, PairText;
    FieldIsPairs(f);
  }

  // ----- an empty value -----------------------------------------------------------------------------

  lemma {:induction false} MoreJoins(a: seq<string>, b: seq<string>)
    ensures More(a + b) == More(a) + More(b)
    decreases |a|
  {
    if a == [] {
      assert a + b == b;
    } else {
      MoreJoins(a[1..], b);
      assert (a + b)[1..] == a[1..] + b;
      assert "&" + a[0] + (More(a[1..]) + More(b)) == "&" + a[0] + More(a[1..]) + More(b);
    }
  }

  lemma EmptyFirst(v: string, start: nat)
    requires '\0' !in v && start <= |v| && Split(v[start..])[0] == ""
    ensures SectionFrom(v, '&', 0, start) == More(Split(v[start..])[1..])
  {
    hide Find, Mid, Split, SectionFrom, More;
    var t := v[start..];
    FindShift(v, '&', start, 0);
    SplitStep(t);
    SplitJoins(t);
    SectionEnd(v, start);
    TailWhole(v, start);
    MidOfNone(v, start);
    assert "" + More(Split(t)[1..]) == More(Split(t)[1..]);
  }

  /** The parts from the next one on are those of the text behind the next separator. */
  lemma NextParts(v: string, start: nat) returns (next: nat)
    requires '\0' !in v && start <= |v| && |Split(v[start..])| > 1
    ensures Find(v, '&', start) != -1 && next == Find(v, '&', start) + 1
    ensures Split(v[next..]) == Split(v[start..])[1..]
  {
    hide Find, Split;
    var t := v[start..];
    FindShift(v, '&', start, 0);
    SplitStep(t);
    next := Find(v, '&', start) + 1;
    assert v[next..] == t[next - start..];
  }

  /** `section` gives the whole rest of the text for an empty part. */
  lemma {:induction false} EmptySection(v: string, n: nat, start: nat)
    requires '\0' !in v && start <= |v| && n < |Split(v[start..])| && Split(v[start..])[n] == ""
    ensures SectionFrom(v, '&', n, start) == More(Split(v[start..])[n + 1..])
    decreases n
  {
    hide Find, Mid, Split, SectionFrom, More;
    if n == 0 {
      EmptyFirst(v, start);
    } else {
      var parts := Split(v[start..]);
      var next := NextParts(v, start);
      SectionStep(v, n, start);
      assert parts[n] == parts[1..][n - 1] && parts[n + 1..] == parts[1..][n..];
      EmptySection(v, n - 1, next);
    }
  }

  lemma MidOfNone(s: string, pos: nat)
    requires pos <= |s|
    ensures Mid(s, pos, 0) == Tail(s, pos)
  {
  }

  /** What an entry holds once its values before `j` and then `last` have been entered. */
  function Entered(parts: seq<string>, j: nat, last: string): (v: string)
    requires j < |parts|
  {
    if j == 0 then last else parts[0] + More(parts[1..j]) + "&" + last
  }

  /** A value is what stands before an empty part, and the section taken for that part. */
  lemma EnteredBack(v: string, j: nat)
    requires '\0' !in v && j < |Split(v)| && Split(v)[j] == ""
    ensures Entered(Split(v), j, SectionFrom(v, '&', j, 0)) == v
  {
    hide Split, SectionFrom, More;
    assert v[0..] == v;
    EmptySection(v, j, 0);
    SplitJoins(v);
    var parts := Split(v);
    if j > 0 {
      assert parts[1..] == parts[1..j] + parts[j..];
      MoreJoins(parts[1..j], parts[j..]);
      assert parts[j..][1..] == parts[j + 1..];
      MoreSteps(parts[j..]);
      assert parts[0] + (More(parts[1..j]) + ("&" + "" + More(parts[j + 1..])))
          == parts[0] + More(parts[1..j]) + "&" + More(parts[j + 1..]);
    }
  }

  /** The text behind the key of an empty value starts with '&' and is longer than its section, unless the
      value is the very last one. */
  lemma BackOfEmpty(fields: seq<Field>, i: nat, j: nat)
    requires KeyedFields(fields) && EmptyAt(fields, i, j)
    ensures
      var r := Back(fields, i, j);
      if i == |fields| - 1 && j == |Split(fields[i].value)| - 1 then
        r == "" && SectionFrom(fields[i].value, '&', j, 0) == ""
      else
        |r| > |SectionFrom(fields[i].value, '&', j, 0)| && r[0] == '&'
  {
    hide Split, SectionFrom, More, QueryText, Repeats;
    var f := fields[i];
    var parts := Split(f.value);
    assert f.value[0..] == f.value;
    EmptySection(f.value, j, 0);
    MoreSteps(parts[j + 1..]);
    if j == |parts| - 1 {
      RepeatEnd(f, j);
    } else {
      RepeatUnfolds(f, j + 1, |parts| - 1);
    }
  }

  // ----- what the parser does on such a text ----------------------------------------------------------

  lemma {:induction false} ReadsThen(q: string, spos: nat, left: nat, pre: seq<Field>, t: string,
                                     fields: seq<Field>)
    requires PlainPairs(pre) && spos <= |q| && q[spos..] == Then(pre, t) && left >= |pre|
    ensures |t| <= |q| && q[|q| - |t|..] == t
    ensures ParseFrom(q, left, spos, fields)
         == ParseFrom(q, left - |pre|, |q| - |t|, AddAll(fields, pre))
    decreases |pre|
  {
    hide Find, Mid, Add, PlainPair, PairText, PairAt, Then, ParseFrom;
    if pre == [] {
      ThenNothing(t);
    } else {
      var p, rest := pre[0], "&" + Then(pre[1..], t);
      assert pre == [p] + pre[1..];
      ThenJoins([p], pre[1..], t);
      ThenOne(p, Then(pre[1..], t));
      PairInFront(q, spos, p, rest);
      ReadsPair(q, spos, p, false);
      ParseTurn(q, left, spos, fields);
      var e := spos + |p.key| + 1 + |p.value|;
      Suffix(q, e, 0, 1);
      assert rest[1..] == Then(pre[1..], t);
      ReadsThen(q, e + 1, left - 1, pre[1..], t, Add(fields, p.key, p.value));
    }
  }

  /** A key at `spos`, its '=', and the rest of the text. */
  lemma KeyInFront(q: string, spos: nat, key: string, r: string)
    requires Plain(key) && '=' !in key && spos <= |q| && q[spos..] == key + "=" + r
    ensures spos + |key| < |q| && Find(q, '=', spos) == spos + |key| && q[spos + |key| + 1..] == r
    ensures Mid(q, spos, |key|) == key
  {
    hide Find, Mid;
    PairSlices(key, r, "");
    assert key + "=" + r + "" == key + "=" + r;
    Suffix(q, spos, 0, |key|);
    Suffix(q, spos, |key| + 1, |key| + 1);
    assert q[spos + |key|] == q[spos..][|key|];
    assert (key + "=" + r)[|key| + 1..] == r;
    FindAcross(q, '=', spos, key);
    MidPlain(q, spos, |key|);
  }

  /** An empty value takes all text behind it, and the parser goes on behind the '&'. */
  lemma TakesRest(q: string, spos: nat, left: nat, key: string, r: string, fields: seq<Field>)
    returns (next: nat)
    requires Plain(key) && '=' !in key && '\0' !in q && left > 0 && r != "" && r[0] == '&'
    requires spos <= |q| && q[spos..] == key + "=" + r
    ensures next == spos + |key| + 2
    ensures ParseFrom(q, left, spos, fields) == ParseFrom(q, left - 1, next, Add(fields, key, r))
  {
    hide Find, Mid, Add, ParseFrom;
    KeyInFront(q, spos, key, r);
    var eq := spos + |key|;
    assert q[eq + 1] == q[eq + 1..][0];
    assert q[eq + 1..eq + 1] == "";
    FindAcross(q, '&', eq + 1, "");
    MidOfNone(q, eq + 1);
    TailWhole(q, eq + 1);
    ParseTurn(q, left, spos, fields);
    next := eq + 2;
  }

  /** The empty value at the end of the text is read as such. */
  lemma TakesNothing(q: string, spos: nat, key: string, fields: seq<Field>)
    requires Plain(key) && '=' !in key && spos <= |q| && q[spos..] == key + "="
    ensures ParseFrom(q, 1, spos, fields) == Some(Add(fields, key, ""))
  {
    hide Find, Mid, Add;
    assert key + "=" + "" == key + "=";
    KeyInFront(q, spos, key, "");
    var eq := spos + |key|;
    assert |q[eq + 1..]| == 0;
    FindNone(q, '&', eq + 1);
    MidOfNone(q, eq + 1);
    assert Tail(q, eq + 1) == "";
  }

  // ----- entries only grow ---------------------------------------------------------------------------

  predicate Grown(a: seq<Field>, b: seq<Field>) {
    |a| <= |b| && forall i :: 0 <= i < |a| ==> |a[i].value| <= |b[i].value|
  }

  lemma {:induction false} AddGrows(fields: seq<Field>, key: string, value: string)
    ensures Grown(fields, Add(fields, key, value))
    decreases |fields|
  {
    hide Rpc.Hash;
    if fields != [] {
      var all := Add(fields, key, value);
      if Rpc.Hash(fields[0].key) != Rpc.Hash(key) {
        AddGrows(fields[1..], key, value);
        assert all[1..] == Add(fields[1..], key, value);
        assert forall i :: 1 <= i < |fields| ==> fields[i] == fields[1..][i - 1] && all[i] == all[1..][i - 1];
      }
    }
  }

  lemma {:induction false} ParseGrows(q: string, left: nat, spos: nat, fields: seq<Field>)
    requires ParseFrom(q, left, spos, fields).Some?
    ensures Grown(fields, ParseFrom(q, left, spos, fields).value)
    decreases left
  {
    hide Add, Find, Mid;
    if left > 0 && Find(q, '=', spos) != -1 {
      var eq := Find(q, '=', spos);
      var amp := Find(q, '&', eq + 1);
      var end := if amp == -1 then |q| else amp;
      var key, value := Mid(q, spos, eq - spos), Mid(q, eq + 1, end - (eq + 1));
      AddGrows(fields, key, value);
      ParseGrows(q, left - 1, end + 1, Add(fields, key, value));
    }
  }

  // ----- the text holds no '\0' ----------------------------------------------------------------------

  lemma {:induction false} SectionClean(v: string, n: nat, start: nat)
    requires '\0' !in v && start <= |v|
    ensures '\0' !in SectionFrom(v, '&', n, start)
    decreases n
  {
    hide Find, Mid;
    var stop := Find(v, '&', start);
    if n > 0 && stop != -1 {
      SectionClean(v, n - 1, stop + 1);
    } else if n == 0 {
      MidClean(v, start, (if stop == -1 then |v| else stop) - start);
    }
  }

  lemma MidClean(s: string, pos: nat, len: nat)
    requires '\0' !in s && pos <= |s|
    ensures '\0' !in Mid(s, pos, len)
  {
    hide Tail;
  }

  lemma {:induction false} RepeatsClean(f: Field, v: nat, count: nat)
    requires Keyed(f)
    ensures '\0' !in Repeats(f, v, count)
    decreases count + 1 - v
  {
    hide SectionFrom;
    if v <= count {
      SectionClean(f.value, v, 0);
      RepeatsClean(f, v + 1, count);
    }
  }

  lemma {:induction false} QueryClean(fields: seq<Field>)
    requires KeyedFields(fields)
    ensures '\0' !in QueryText(fields)
    decreases |fields|
  {
    hide SectionFrom, Repeats, Count;
    if fields != [] {
      var f := fields[0];
      SectionClean(f.value, 0, 0);
      RepeatsClean(f, 1, Count(f.value, '&'));
      QueryClean(fields[1..]);
    }
  }

  lemma ThenCount(pre: seq<Field>, t: string)
    requires PlainPairs(pre)
    ensures Count(Then(pre, t), '&') == |pre| + Count(t, '&')
  {
    hide Count, PairText, PlainPair;
    if pre != [] {
      PairCount(pre);
      CountAcross(PairText(pre), "&" + t, '&');
      CountAcross("&", t, '&');
      CountOne();
      assert PairText(pre) + "&" + t == PairText(pre) + ("&" + t);
    }
  }

  // ----- the map that comes back ----------------------------------------------------------------------

  /** The pairs before the first empty value can all be read. */
  lemma FrontPlain(fields: seq<Field>, i: nat, j: nat)
    requires KeyedFields(fields) && FirstAt(fields, i, j)
    ensures PlainPairs(Front(fields, i, j))
  {
    hide Split, PlainPair, QueryText, PairText, ValidField;
    forall m | 0 <= m < i
      ensures ValidField(fields[m])
    {
      WholeField(fields, i, j, m);
    }
    QueryIsPairs(fields[..i]);
    var parts := Split(fields[i].value);
    PartsArePieces(fields[i].value);
    forall k | 0 <= k < j
      ensures Plain(parts[..j][k])
    {
      assert !EmptyAt(fields, i, k);
    }
    PartsArePlain(fields[i].key, parts[..j]);
  }

  lemma FreshAt(fields: seq<Field>, i: nat)
    requires Distinct(fields) && i < |fields|
    ensures Fresh(fields[..i], fields[i].key) && Distinct(fields[..i])
  {
    hide Rpc.Hash;
  }

  /** The map after the pairs before value `j` of entry `i`, and `last` as that value. */
  lemma TakenSoFar(fields: seq<Field>, i: nat, j: nat, last: string)
    requires Distinct(fields) && i < |fields| && j < |Split(fields[i].value)|
    ensures Add(AddAll([], Front(fields, i, j)), fields[i].key, last)
         == fields[..i] + [Field(fields[i].key, Entered(Split(fields[i].value), j, last))]
  {
    hide Split, Add, Fresh, More, Distinct, AddAll, PairsOf, AllPairs;
    FreshAt(fields, i);
    var done, key, parts := fields[..i], fields[i].key, Split(fields[i].value);
    AddAllJoins([], AllPairs(done), PairsOf(key, parts[..j]));
    assert [] + done == done;
    AddsFields([], done);
    if j == 0 {
      assert parts[..j] == [];
      NoPairsOf(key);
      AddFresh(done, key, last);
      AddNothing(done);
    } else {
      FirstPair(key, parts, 0, j);
      assert parts[0..j] == parts[..j];
      AddAllJoins(done, [Field(key, parts[0])], PairsOf(key, parts[1..j]));
      AddOne(done, Field(key, parts[0]));
      AddFresh(done, key, parts[0]);
      AddsMore(done, key, parts[0], parts[1..j]);
      AddAgain(done, key, parts[0] + More(parts[1..j]), last);
    }
  }

  lemma AddNothing(fields: seq<Field>)
    ensures AddAll(fields, []) == fields
  {
  }

  lemma AddOne(fields: seq<Field>, p: Field)
    ensures AddAll(fields, [p]) == Add(fields, p.key, p.value)
  {
    hide Add;
    assert [p][1..] == [];
  }

  /** The parser up to the first empty value. */
  lemma ReadsFront(fields: seq<Field>, i: nat, j: nat) returns (left: nat, spos: nat)
    requires KeyedFields(fields) && FirstAt(fields, i, j)
    ensures
      var q, t := QueryText(fields), fields[i].key + "=" + Back(fields, i, j);
      spos <= |q| && q[spos..] == t && left == Count(t, '&') + 1
      && Parse(q) == ParseFrom(q, left, spos, AddAll([], Front(fields, i, j)))
  {
    hide Split, ParseFrom, QueryText, Front, Back, Then, Count, AddAll, PlainPairs;
    var q, t, pre := QueryText(fields), fields[i].key + "=" + Back(fields, i, j), Front(fields, i, j);
    FrontPlain(fields, i, j);
    QueryAround(fields, i, j);
    ThenCount(pre, t);
    assert q[0..] == q;
    ReadsThen(q, 0, Count(q, '&') + 1, pre, t, []);
    left, spos := Count(t, '&') + 1, |q| - |t|;
  }

  lemma KeyCount(key: string)
    requires Plain(key)
    ensures Count(key + "=", '&') == 0
  {
    hide Count;
    CountAcross(key + "=", "", '&');
    assert key + "=" + "" == key + "=";
    CountNothing();
  }

  lemma LastEmptyReturns(fields: seq<Field>, i: nat, j: nat)
    requires KeyedFields(fields) && Distinct(fields) && FirstAt(fields, i, j)
    requires i == |fields| - 1 && j == |Split(fields[i].value)| - 1
    ensures Parse(QueryText(fields)) == Some(fields)
  {
    hide Split, Parse, ParseFrom, QueryText, Front, Back, Count, AddAll, Add, Entered, SectionFrom, Distinct;
    var f := fields[i];
    var left, spos := ReadsFront(fields, i, j);
    BackOfEmpty(fields, i, j);
    assert f.key + "=" + "" == f.key + "=";
    KeyCount(f.key);
    TakesNothing(QueryText(fields), spos, f.key, AddAll([], Front(fields, i, j)));
    TakenSoFar(fields, i, j, "");
    EnteredBack(f.value, j);
    assert fields[..i] + [f] == fields;
  }

  lemma EnteredGrows(parts: seq<string>, j: nat, a: string, b: string)
    requires j < |parts| && |a| < |b|
    ensures |Entered(parts, j, a)| < |Entered(parts, j, b)|
  {
  }

  lemma InnerEmptyFails(fields: seq<Field>, i: nat, j: nat)
    requires KeyedFields(fields) && Distinct(fields) && FirstAt(fields, i, j)
    requires !(i == |fields| - 1 && j == |Split(fields[i].value)| - 1)
    ensures Parse(QueryText(fields)) != Some(fields)
  {
    hide Split, Parse, ParseFrom, QueryText, Front, Back, Count, AddAll, Add, Entered, SectionFrom, Distinct;
    var f, q, r := fields[i], QueryText(fields), Back(fields, i, j);
    var left, spos := ReadsFront(fields, i, j);
    BackOfEmpty(fields, i, j);
    QueryClean(fields);
    var next := TakesRest(q, spos, left, f.key, r, AddAll([], Front(fields, i, j)));
    TakenSoFar(fields, i, j, r);
    EnteredBack(f.value, j);
    EnteredGrows(Split(f.value), j, SectionFrom(f.value, '&', j, 0), r);
    var taken := fields[..i] + [Field(f.key, Entered(Split(f.value), j, r))];
    if Parse(q).Some? {
      ParseGrows(q, left - 1, next, taken);
      assert |taken[i].value| > |fields[i].value|;
    }
  }

  /** Parsing the query text rebuilt from a map gives the map back if and only if no value is empty but
      possibly the very last one. */
  lemma QueryRoundTrip(fields: seq<Field>)
    requires KeyedFields(fields) && Distinct(fields)
    ensures Parse(QueryText(fields)) == Some(fields) <==> OnlyLastEmpty(fields)
  {
    hide Split, Parse, QueryText, EmptyAt, Keyed, Distinct;
    if exists k, l :: EmptyAt(fields, k, l) {
      var i, j := FirstEmpty(fields);
      LastIndices(fields, i, j);
      if i == |fields| - 1 && j == |Split(fields[i].value)| - 1 {
        LastEmptyReturns(fields, i, j);
      } else {
        InnerEmptyFails(fields, i, j);
      }
    } else if fields == [] {
      FirstFieldIsLost("", "");
      NoFields();
    } else {
      NoneEmpty(fields);
      FullMapReturns(fields);
    }
  }

  lemma NoFields()
    ensures QueryText([]) == ""
  {
  }

  lemma LastIndices(fields: seq<Field>, i: nat, j: nat)
    requires FirstAt(fields, i, j)
    ensures i < |fields| && j < |Split(fields[i].value)|
    ensures OnlyLastEmpty(fields) <==> i == |fields| - 1 && j == |Split(fields[i].value)| - 1
  {
    hide Split;
  }

  lemma NoneEmpty(fields: seq<Field>)
    requires KeyedFields(fields) && !exists k, l :: EmptyAt(fields, k, l)
    ensures ValidFields(fields)
  {
    hide Split;
    forall m | 0 <= m < |fields|
      ensures ValidField(fields[m])
    {
      PartsArePieces(fields[m].value);
      forall k | 0 <= k < |Split(fields[m].value)|
        ensures Plain(Split(fields[m].value)[k])
      {
        assert !EmptyAt(fields, m, k);
      }
    }
  }

  // ----- fields added to a parsed query ---------------------------------------------------------------

  lemma {:induction false} AddKeepsKeyed(fields: seq<Field>, key: string, value: string)
    requires KeyedFields(fields) && Plain(key) && '=' !in key && '\0' !in value
    ensures KeyedFields(Add(fields, key, value))
    decreases |fields|
  {
    hide Rpc.Hash;
    if fields != [] {
      AddKeepsKeyed(fields[1..], key, value);
      assert Keyed(fields[0]);
    }
  }

  /** A field added to the map of any query shows in the text `asString` returns if and only if that rebuilds
      the text and no value of the new map is empty but possibly the very last one. */
  lemma AddedFieldShows(q: string, fields: seq<Field>, key: string, value: string)
    requires Parse(q) == Some(fields) && KeyedFields(fields)
    requires Plain(key) && '=' !in key && '\0' !in value
    ensures
      var all := Add(fields, key, value);
      Parse(AsText(q, all)) == Some(all) <==> |all| != Count(q, '&') + 1 && OnlyLastEmpty(all)
  {
    hide Parse, QueryText, Add, Count, KeyedFields, Distinct, OnlyLastEmpty, Plain;
    ParsedDistinct(q);
    AddKeepsDistinct(fields, key, value);
    AddNotEmpty(fields, key, value);
    AddKeepsKeyed(fields, key, value);
    QueryRoundTrip(Add(fields, key, value));
  }

  /** A URI with the query `q`: a field is added, the text taken, and parsed again.  The map that comes back is
      the one with the field exactly as said above. */
  method AddAndReadBack(q: string, key: string, value: string)
    returns (text: string, ok: bool, back: seq<Field>, ghost all: seq<Field>)
    requires Parse(q).Some? && KeyedFields(Parse(q).value)
    requires Plain(key) && '=' !in key && PC.ByteText(value)
    ensures all == Add(Parse(q).value, key, PC.Replace(PC.Encode(value, " .~_-"), ' ', '+'))
    ensures ok && back == all <==> |all| != Count(q, '&') + 1 && OnlyLastEmpty(all)
  {
    hide Parse, QueryText, Add, Count, KeyedFields, OnlyLastEmpty, PC.Encode, PC.Replace;
    FirstFieldIsLost(key, value);
    StoredValue(value);
    var uri := new Query(q);
    var added := uri.AddQueryField(key, value);
    all := uri.fields;
    var e := PC.Replace(PC.Encode(value, " .~_-"), ' ', '+');
    AddedFieldShows(q, Parse(q).value, key, e);
    uri.AsString();
    text := uri.query;
    var read := new Query(text);
    ok := read.GetQueryMap();
    back := read.fields;
  }

  // ----- an instance ----------------------------------------------------------------------------------

  lemma OneCharHash(c: char)
    requires c < 128 as char
    ensures Rpc.Hash([c]) == (c as int) as bv32
  {
    FirstStep(c);
    hide Rpc.HashStep;
    assert [c][1..] == "";
    assert Rpc.HashFrom([c], 0) == Rpc.HashFrom([c][1..], Rpc.HashStep(0, [c][0]));
  }

  lemma FirstStep(c: char)
    requires c < 128 as char
    ensures Rpc.HashStep(0, c) == (c as int) as bv32
  {
    assert Rpc.Shifted(0) == 0;
    ZeroXor((c as int) as bv32);
  }

  lemma ZeroXor(x: bv32)
    ensures 0 ^ x == x
  {
  }

  lemma CodesDiffer(x: int, y: int)
    requires x == 97 && y == 98
    ensures (x as bv32) != (y as bv32)
  {
    assert (97 as bv32) != (98 as bv32);
  }

  lemma HashesOfKeys()
    ensures Rpc.Hash("a") != Rpc.Hash("b")
  {
    hide Rpc.Hash;
    OneCharHash('a');
    OneCharHash('b');
    CodesDiffer('a' as int, 'b' as int);
  }

  lemma TextOfMap()
    ensures QueryText([Field("a", ""), Field("b", "c")]) == "a=&b=c"
  {
    hide SectionFrom, Repeats;
    var a, b := Field("a", ""), Field("b", "c");
    assert Count("", '&') == 0;
    assert "c"[1..] == "";
    assert Count("c", '&') == 0;
    assert [a, b][1..] == [b];
    assert FieldText(a) == "a=" && FieldText(b) == "b=c";
  }

  /** The query that an empty value for `a` and the value `c` for `b` make: read back, the value of `a` is
      the rest of the text. */
  lemma EmptyValueTakesRest()
    ensures QueryText([Field("a", ""), Field("b", "c")]) == "a=&b=c"
    ensures Parse("a=&b=c") == Some([Field("a", "&b=c"), Field("b", "c")])
  {
    hide Rpc.Hash, Count, Find, Mid, QueryText, Add, Plain, ParseFrom;
    TextOfMap();
    HashesOfKeys();
    var q, one, two := "a=&b=c", Field("a", "&b=c"), Field("b", "c");
    assert Plain("a") && Plain("b") && Plain("c") by { PlainKeys(); }
    CountAcross("a=", "&" + "b=c", '&');
    CountAcross("&", "b=c", '&');
    CountAcross("b=c", "", '&');
    CountNothing();
    CountOne();
    assert q == "a=" + ("&" + "b=c") && "b=c" + "" == "b=c";
    assert q[0..] == "a" + "=" + "&b=c";
    assert Count(q, '&') == 1;
    var next := TakesRest(q, 0, 2, "a", "&b=c", []);
    AddFresh([], "a", "&b=c");
    assert Add([], "a", "&b=c") == [one];
    assert q[3..] == PairText([two]);
    ReadsPairs(q, 3, [two], [one]);
    AddOne([one], two);
    AddFresh([one], "b", "c");
    assert [one] + [two] == [one, two];
    assert Parse(q) == ParseFrom(q, 1, 3, [one]);
  }

  lemma PlainKeys()
    ensures Plain("a") && Plain("b") && Plain("c")
  {
  }
}
