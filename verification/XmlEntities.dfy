/** `XML::encode` and `XML::decode`. */
module XmlEntities {
  import opened CText

  predicate Special(c: char) {
    c == '<' || c == '>' || c == '&' || c == '\'' || c == '"'
  }

  /** Characters `encode` leaves out.  Codes from 128 on are negative as a signed `char`. */
  predicate Dropped(c: char) {
    c as int < 9 || 13 < c as int < 32 || 128 <= c as int
  }

  /** The tables `RAW_ENTITY` and `XML_ENTITY`. */
  function EntityName(c: char): (name: string)
    requires Special(c)
    ensures 3 <= |name| <= 5 && forall k :: 0 <= k < |name| ==> Plain(name[k])
  {
    if c == '<' then "lt;"
    else if c == '>' then "gt;"
    else if c == '&' then "amp;"
    else if c == '\'' then "apos;"
    else "quot;"
  }

  /** Characters that encoding passes through. */
  predicate Plain(c: char) {
    !Special(c) && !Dropped(c)
  }

  function EncodeChar(c: char): (text: string) {
    if Special(c) then "&" + EntityName(c)
    else if Dropped(c) then ""
    else [c]
  }

  function EncodeText(raw: string): (text: string) {
    if raw == "" then "" else EncodeChar(raw[0]) + EncodeText(raw[1..])
  }

  /** What is left of a text once the dropped characters are gone. */
  function Kept(raw: string): (text: string) {
    if raw == "" then "" else (if Dropped(raw[0]) then "" else [raw[0]]) + Kept(raw[1..])
  }

  /** The number of characters after '&' that name an entity at the start of `t`, with the
      character they stand for; 0 when none matches. */
  function Entity(t: string): (r: (nat, char))
    ensures 0 < r.0 ==> r.0 < |t| + 1 && Special(r.1)
  {
    if "lt;" <= t then (3, '<')
    else if "gt;" <= t then (3, '>')
    else if "amp;" <= t then (4, '&')
    else if "apos;" <= t then (5, '\'')
    else if "quot;" <= t then (5, '"')
    else (0, ' ')
  }

  /** The decoding loop on the text still to read. */
  function DecodeRest(t: string): (text: string) {
    if t == "" then ""
    else if t[0] == '&' && |t| > 1 then
      var (n, c) := Entity(t[1..]);
      if n > 0 then [c] + DecodeRest(t[1 + n..]) else Append(t[0]) + DecodeRest(t[1..])
    else Append(t[0]) + DecodeRest(t[1..])
  }

  /** `String(encoded.c_str(), i)` with i == 0 copies the whole text instead of nothing. */
  function DecodeText(encoded: string): (text: string) {
    var i := Find(encoded, '&', 0);
    if i < 0 then encoded
    else BeforeEntity(encoded, i) + DecodeRest(encoded[i..])
  }

  method Encode(raw: string) returns (encoded: string)
    ensures encoded == EncodeText(raw)
  {
    hide EntityName, EncodeText;
    encoded := "";
    var i := 0;
    assert raw[0..] == raw;
    while i < |raw|
      invariant 0 <= i <= |raw|
      invariant encoded + EncodeText(raw[i..]) == EncodeText(raw)
    {
      EncodeStep(encoded, raw[i..]);
      var c := raw[i];
      if Special(c) {
        encoded := encoded + "&" + EntityName(c);
      } else if c as int < 9 || 13 < c as int < 32 || 128 <= c as int {
      } else {
        encoded := encoded + [c];
      }
      assert raw[i..][1..] == raw[i + 1..];
      i := i + 1;
    }
    assert EncodeText(raw[i..]) == "" by { Unfold(raw[i..]); }
  }

  lemma EncodeStep(done: string, raw: string)
    requires raw != ""
    ensures done + EncodeText(raw) ==
      (if Special(raw[0]) then done + "&" + EntityName(raw[0])
       else if Dropped(raw[0]) then done else done + [raw[0]]) + EncodeText(raw[1..])
  {
    hide EntityName, EncodeText, Kept;
    Unfold(raw);
    var rest := EncodeText(raw[1..]);
    if Special(raw[0]) {
      assert done + ("&" + EntityName(raw[0]) + rest) == done + "&" + EntityName(raw[0]) + rest;
    } else if Plain(raw[0]) {
      assert done + ([raw[0]] + rest) == done + [raw[0]] + rest;
    }
  }

  /** The copy made before the decoding loop starts. */
  function BeforeEntity(encoded: string, i: nat): (text: string)
    requires i <= |encoded|
  {
    if i == 0 then Tail(encoded, 0) else encoded[..i]
  }

  method Decode(encoded: string) returns (decoded: string)
    ensures decoded == DecodeText(encoded)
  {
    var i: int := Find(encoded, '&', 0);
    if i < 0 {
      return encoded;
    }
    decoded := BeforeEntity(encoded, i);
    decoded := DecodeLoop(decoded, encoded, i);
  }

  /** The decoding loop, from position `start` on. */
  method DecodeLoop(before: string, encoded: string, start: nat) returns (decoded: string)
    requires start <= |encoded|
    ensures decoded == before + DecodeRest(encoded[start..])
  {
    hide Entity, DecodeRest;
    decoded := before;
    var i := start;
    while i != |encoded|
      invariant 0 <= i <= |encoded|
      invariant decoded + DecodeRest(encoded[i..]) == before + DecodeRest(encoded[start..])
      decreases |encoded| - i
    {
      DecodeStep(decoded, encoded, i);
      var n, c := 0, ' ';
      if encoded[i] == '&' && i + 1 < |encoded| {
        var e := Entity(encoded[i + 1..]);
        n, c := e.0, e.1;
      }
      if n > 0 {
        decoded := decoded + [c];
        i := i + n + 1;
      } else {
        decoded := decoded + Append(encoded[i]);
        i := i + 1;
      }
    }
    assert DecodeRest(encoded[i..]) == "" by { assert encoded[i..] == ""; DecodeEnd(); }
  }

  lemma DecodeEnd()
    ensures DecodeRest("") == ""
  {
  }

  lemma DecodeStep(done: string, e: string, i: nat)
    requires i < |e|
    ensures var (n, c) := Entity(e[i + 1..]);
      done + DecodeRest(e[i..]) ==
        if e[i] == '&' && n > 0 then done + [c] + DecodeRest(e[i + n + 1..])
        else done + Append(e[i]) + DecodeRest(e[i + 1..])
  {
    hide Entity;
    var t := e[i..];
    assert t[1..] == e[i + 1..];
    var (n, c) := Entity(t[1..]);
    if t[0] == '&' && n > 0 {
      assert t[1 + n..] == e[i + n + 1..];
      assert done + ([c] + DecodeRest(t[1 + n..])) == done + [c] + DecodeRest(t[1 + n..]);
    } else {
      assert done + (Append(t[0]) + DecodeRest(t[1..])) == done + Append(t[0]) + DecodeRest(t[1..]);
    }
  }

  /** Encoded text is free of '\0', of everything `encode` drops, and of every special character but '&'. */
  lemma {:induction false} EncodeClean(raw: string)
    ensures forall k :: 0 <= k < |EncodeText(raw)| ==> EncodeText(raw)[k] == '&' || Plain(EncodeText(raw)[k])
    ensures '\0' !in EncodeText(raw)
  {
    if raw != "" {
      EncodeClean(raw[1..]);
      var head := EncodeChar(raw[0]);
      assert forall k :: 0 <= k < |head| ==> head[k] == '&' || Plain(head[k]);
    }
  }

  /** One step of each recursion. */
  lemma Unfold(raw: string)
    ensures raw == "" ==> EncodeText(raw) == "" && Kept(raw) == ""
    ensures raw != "" && Special(raw[0]) ==>
      EncodeText(raw) == "&" + EntityName(raw[0]) + EncodeText(raw[1..]) && Kept(raw) == [raw[0]] + Kept(raw[1..])
    ensures raw != "" && Dropped(raw[0]) ==>
      EncodeText(raw) == EncodeText(raw[1..]) && Kept(raw) == Kept(raw[1..])
    ensures raw != "" && Plain(raw[0]) ==>
      EncodeText(raw) == [raw[0]] + EncodeText(raw[1..]) && Kept(raw) == [raw[0]] + Kept(raw[1..])
  {
    hide EntityName;
  }

  lemma DecodeEntityStep(c: char, rest: string)
    requires Special(c)
    ensures DecodeRest("&" + EntityName(c) + rest) == [c] + DecodeRest(rest)
  {
    hide EntityName, Entity;
    var t := "&" + EntityName(c) + rest;
    assert t[1..] == EntityName(c) + rest;
    EntityOf(c, rest);
    assert t[1 + |EntityName(c)|..] == rest;
  }

  lemma DecodePlainStep(c: char, rest: string)
    requires Plain(c)
    ensures DecodeRest([c] + rest) == [c] + DecodeRest(rest)
  {
    assert ([c] + rest)[1..] == rest;
  }

  lemma {:induction false} DecodeRestOfEncode(raw: string)
    ensures DecodeRest(EncodeText(raw)) == Kept(raw)
  {
    Unfold(raw);
    if raw != "" {
      hide EntityName, EncodeText, DecodeRest, Kept;
      DecodeRestOfEncode(raw[1..]);
      if Special(raw[0]) {
        DecodeEntityStep(raw[0], EncodeText(raw[1..]));
      } else if Plain(raw[0]) {
        DecodePlainStep(raw[0], EncodeText(raw[1..]));
      }
    }
  }

  lemma EntityOf(c: char, rest: string)
    requires Special(c)
    ensures Entity(EntityName(c) + rest) == (|EntityName(c)|, c)
  {
    var name := EntityName(c);
    assert name <= name + rest;
    if c == '>' {
      Mismatch("lt;", name, rest, 0);
    } else if c == '&' {
      Mismatch("lt;", name, rest, 0);
      Mismatch("gt;", name, rest, 0);
    } else if c == '\'' {
      Mismatch("lt;", name, rest, 0);
      Mismatch("gt;", name, rest, 0);
      Mismatch("amp;", name, rest, 1);
    } else if c == '"' {
      Mismatch("lt;", name, rest, 0);
      Mismatch("gt;", name, rest, 0);
      Mismatch("amp;", name, rest, 0);
      Mismatch("apos;", name, rest, 0);
    }
  }

  lemma Mismatch(other: string, name: string, rest: string, k: nat)
    requires k < |other| && k < |name| && other[k] != name[k]
    ensures !(other <= name + rest)
  {
    assert (name + rest)[k] == name[k];
  }

  /** Cutting a text right before its first special character. */
  lemma {:induction false} Cut(raw: string) returns (u: string, w: string)
    ensures EncodeText(raw) == u + EncodeText(w) && Kept(raw) == u + Kept(w)
    ensures forall k :: 0 <= k < |u| ==> Plain(u[k])
    ensures w != "" ==> Special(w[0])
  {
    hide EntityName, EncodeText, Kept;
    Unfold(raw);
    if raw == "" || Special(raw[0]) {
      u, w := "", raw;
    } else {
      var v;
      v, w := Cut(raw[1..]);
      u := if Plain(raw[0]) then [raw[0]] + v else v;
    }
  }

  /** Decoding an encoded text gives the kept characters back, except that a text whose first
      kept character is special comes back with its whole encoded form in front. */
  lemma DecodeOfEncode(raw: string)
    ensures DecodeText(EncodeText(raw)) ==
      if Kept(raw) != "" && Special(Kept(raw)[0]) then EncodeText(raw) + Kept(raw) else Kept(raw)
  {
    hide EntityName, EncodeText, DecodeText, DecodeRest, Kept;
    var u, w := Cut(raw);
    Unfold(w);
    EncodeClean(raw);
    assert u != "" ==> Kept(raw)[0] == u[0];
    if w == "" {
      DecodePlain(u);
      assert EncodeText(raw) == u && Kept(raw) == u;
    } else {
      DecodeRestOfEncode(w);
      DecodeCut(EncodeText(raw), u, EncodeText(w));
    }
  }

  lemma DecodePlain(e: string)
    requires forall k :: 0 <= k < |e| ==> Plain(e[k])
    ensures DecodeText(e) == e
  {
    assert forall k :: 0 <= k < |e| ==> e[0..][k] == e[k];
    FindNone(e, '&', 0);
  }

  lemma DecodeCut(e: string, u: string, r: string)
    requires e == u + r && r != "" && r[0] == '&' && '\0' !in e
    requires forall k :: 0 <= k < |u| ==> Plain(u[k])
    ensures DecodeText(e) == (if u == "" then e else u) + DecodeRest(r)
  {
    assert e[0..|u|] == u && e[|u|] == r[0];
    FindAcross(e, '&', 0, u);
    assert e[|u|..] == r && e[..|u|] == u;
    TailWhole(e, 0);
    assert e[0..] == e;
  }

  /** The round trip, exactly: `decode(encode(s))` is `s` without the dropped characters if and
      only if the first kept character is not one of the five special ones. */
  lemma EntityRoundTrip(raw: string)
    ensures DecodeText(EncodeText(raw)) == Kept(raw) <==> !(Kept(raw) != "" && Special(Kept(raw)[0]))
  {
    DecodeOfEncode(raw);
    if Kept(raw) != "" && Special(Kept(raw)[0]) {
      EncodeLonger(raw);
      assert |DecodeText(EncodeText(raw))| > |Kept(raw)|;
    }
  }

  predicate Clean(raw: string) {
    forall k :: 0 <= k < |raw| ==> !Special(raw[k]) && !Dropped(raw[k])
  }

  /** Encoding lengthens a text by its special characters. */
  lemma {:induction false} EncodeLonger(raw: string)
    ensures |Kept(raw)| <= |EncodeText(raw)|
    ensures |Kept(raw)| == |EncodeText(raw)| ==> forall k :: 0 <= k < |raw| ==> !Special(raw[k])
  {
    if raw != "" {
      EncodeLonger(raw[1..]);
      assert forall k :: 1 <= k < |raw| ==> raw[k] == raw[1..][k - 1];
      assert |EncodeText(raw)| == |EncodeChar(raw[0])| + |EncodeText(raw[1..])|;
    }
  }

  lemma {:induction false} CleanEncodes(raw: string)
    requires Clean(raw)
    ensures EncodeText(raw) == raw && Kept(raw) == raw
  {
    if raw != "" {
      CleanEncodes(raw[1..]);
    }
  }

  /** A text without dropped characters is kept whole, and so is one that encodes to itself. */
  lemma {:induction false} KeptWhole(raw: string)
    requires forall k :: 0 <= k < |raw| ==> !Dropped(raw[k])
    ensures Kept(raw) == raw
  {
    if raw != "" {
      KeptWhole(raw[1..]);
    }
  }

  /** Encoding changes nothing if and only if there is nothing to change. */
  lemma EncodeFixed(raw: string)
    ensures EncodeText(raw) == raw <==> Clean(raw)
  {
    if Clean(raw) {
      CleanEncodes(raw);
    } else if EncodeText(raw) == raw {
      EncodeClean(raw);
      KeptWhole(raw);
      EncodeLonger(raw);
    }
  }

  // ----- character by character -----------------------------------------------------------------------

  /** Encoding a text is encoding its parts, */
  lemma {:induction false} EncodeJoins(a: string, b: string)
    ensures EncodeText(a + b) == EncodeText(a) + EncodeText(b)
    decreases |a|
  {
    hide EncodeChar;
    if a == "" {
      assert a + b == b;
    } else {
      assert (a + b)[1..] == a[1..] + b;
      EncodeJoins(a[1..], b);
      var first, more := EncodeChar(a[0]), EncodeText(a[1..]);
      assert first + (more + EncodeText(b)) == first + more + EncodeText(b);
    }
  }

  /** and this is what becomes of one character: tab to carriage return and the printable ASCII codes and
      delete stay, five of them as entities; everything else is left out. */
  lemma EncodeOne(c: char)
    ensures EncodeText("<") == "&lt;" && EncodeText(">") == "&gt;" && EncodeText("&") == "&amp;"
    ensures EncodeText("'") == "&apos;" && EncodeText("\"") == "&quot;"
    ensures c !in "<>&'\"" ==>
      EncodeText([c]) == if 9 <= c as int <= 13 || 32 <= c as int <= 127 then [c] else ""
  {
    hide EncodeChar, EncodeText;
    SpecialSet(c);
    EncodeSingle(c);
    EncodeSingle('<');
    EncodeSingle('>');
    EncodeSingle('&');
    EncodeSingle('\'');
    EncodeSingle('"');
    EncodeTable();
    assert c !in "<>&'\"" ==> EncodeChar(c) == if Dropped(c) then "" else [c] by { EncodePlain(c); }
  }

  lemma EncodeSingle(c: char)
    ensures EncodeText([c]) == EncodeChar(c)
  {
    hide EncodeChar;
    assert [c][1..] == "" && EncodeText("") == "";
  }

  lemma EncodeTable()
    ensures EncodeChar('<') == "&lt;" && EncodeChar('>') == "&gt;" && EncodeChar('&') == "&amp;"
    ensures EncodeChar('\'') == "&apos;" && EncodeChar('"') == "&quot;"
  {
  }

  lemma EncodePlain(c: char)
    ensures !Special(c) ==> EncodeChar(c) == if Dropped(c) then "" else [c]
  {
  }

  lemma SpecialSet(c: char)
    ensures c in "<>&'\"" <==> Special(c)
  {
    var s := "<>&'\"";
    assert s[0] == '<' && s[1] == '>' && s[2] == '&' && s[3] == '\'' && s[4] == '"';
    assert |s| == 5;
    if c in s {
      var k :| 0 <= k < |s| && s[k] == c;
      assert k == 0 || k == 1 || k == 2 || k == 3 || k == 4;
    }
  }

  /** The decoding loop copies text without '&', but for '\0', */
  lemma {:induction false} DecodeCopies(u: string, rest: string)
    requires '&' !in u && '\0' !in u
    ensures DecodeRest(u + rest) == u + DecodeRest(rest)
    decreases |u|
  {
    if u == "" {
      assert u + rest == rest;
    } else {
      assert (u + rest)[1..] == u[1..] + rest;
      DecodeCopies(u[1..], rest);
      assert [u[0]] + (u[1..] + DecodeRest(rest)) == u + DecodeRest(rest);
    }
  }

  /** drops '\0', reads each entity as its character, and copies an '&' that starts none. */
  lemma DecodeAmpersand(c: char, rest: string)
    ensures DecodeRest("\0" + rest) == DecodeRest(rest)
    ensures DecodeRest("&lt;" + rest) == "<" + DecodeRest(rest)
    ensures DecodeRest("&gt;" + rest) == ">" + DecodeRest(rest)
    ensures DecodeRest("&amp;" + rest) == "&" + DecodeRest(rest)
    ensures DecodeRest("&apos;" + rest) == "'" + DecodeRest(rest)
    ensures DecodeRest("&quot;" + rest) == "\"" + DecodeRest(rest)
    ensures !("lt;" <= rest) && !("gt;" <= rest) && !("amp;" <= rest) && !("apos;" <= rest) && !("quot;" <= rest)
            ==> DecodeRest("&" + rest) == "&" + DecodeRest(rest)
  {
    NulDropped(rest);
    LoneAmpersand(rest);
    EntityNames();
    hide DecodeRest, EntityName;
    EntitySpelled('<', "&lt;", rest);
    EntitySpelled('>', "&gt;", rest);
    EntitySpelled('&', "&amp;", rest);
    EntitySpelled('\'', "&apos;", rest);
    EntitySpelled('"', "&quot;", rest);
  }

  lemma EntityNames()
    ensures "&lt;" == "&" + EntityName('<') && "&gt;" == "&" + EntityName('>') && "&amp;" == "&" + EntityName('&')
    ensures "&apos;" == "&" + EntityName('\'') && "&quot;" == "&" + EntityName('"')
  {
  }

  lemma NulDropped(rest: string)
    ensures DecodeRest("\0" + rest) == DecodeRest(rest)
  {
    assert ("\0" + rest)[1..] == rest;
  }

  lemma LoneAmpersand(rest: string)
    ensures !("lt;" <= rest) && !("gt;" <= rest) && !("amp;" <= rest) && !("apos;" <= rest) && !("quot;" <= rest)
            ==> DecodeRest("&" + rest) == "&" + DecodeRest(rest)
  {
    assert ("&" + rest)[1..] == rest;
  }

  lemma EntitySpelled(c: char, e: string, rest: string)
    requires Special(c) && e == "&" + EntityName(c)
    ensures DecodeRest(e + rest) == [c] + DecodeRest(rest)
  {
    hide EntityName, DecodeRest;
    DecodeEntityStep(c, rest);
  }

  /** What stands before the first '&' is copied, but when that is nothing the whole text is. */
  lemma DecodeFirst(u: string, rest: string)
    requires '&' !in u && '\0' !in u && '\0' !in rest
    ensures DecodeText(u) == u
    ensures DecodeText(u + ("&" + rest)) == (if u == "" then "&" + rest else u) + DecodeRest("&" + rest)
  {
    hide DecodeRest;
    NoAmpersand(u);
    FirstAmpersand(u, rest);
    var e := u + ("&" + rest);
    if u == "" {
      TailWhole(e, 0);
      assert e[0..] == e;
    }
  }

  lemma NoAmpersand(u: string)
    requires '&' !in u
    ensures DecodeText(u) == u
  {
    assert u[0..] == u;
    FindNone(u, '&', 0);
  }

  lemma FirstAmpersand(u: string, rest: string)
    requires '&' !in u && '\0' !in u
    ensures
      var e := u + ("&" + rest);
      Find(e, '&', 0) == |u| && e[|u|..] == "&" + rest && e[..|u|] == u
  {
    var e := u + ("&" + rest);
    assert e[0..|u|] == u && e[|u|] == '&';
    FindAcross(e, '&', 0, u);
  }
}
