/** Percent encoding of URIs (section 2.1 of RFC 3986) and the form encoding of queries. */
module PercentCoding {

  import opened CText
  import N = Numbers

  predicate Unreserved(c: char) {
    'a' <= c <= 'z' || 'A' <= c <= 'Z' || '0' <= c <= '9' || c == '-' || c == '.' || c == '_' || c == '~'
  }

  /** `exclude_list.find(ch) != -1`; a '\0' is found at the terminator. */
  predicate Excluded(exclude: string, c: char) {
    c == '\0' || Find(exclude, c, 0) != -1
  }

  predicate ShouldEncode(c: char, exclude: string) {
    !Unreserved(c) && !Excluded(exclude, c)
  }

  function Percent(c: char): (text: string) {
    var n := c as int % 256;
    ['%', N.Hex(n / 16), N.Hex(n % 16)]
  }

  function Encode(s: string, exclude: string): (text: string) {
    if s == "" then ""
    else (if ShouldEncode(s[0], exclude) then Percent(s[0]) else Append(s[0])) + Encode(s[1..], exclude)
  }

  /** The number of a hexadecimal digit, or -1. */
  function Nibble(c: char): (n: int) {
    if 'a' <= c <= 'f' then c as int - 'a' as int + 10
    else if 'A' <= c <= 'F' then c as int - 'A' as int + 10
    else if '0' <= c <= '9' then c as int - '0' as int
    else -1
  }

  /** `UnHex`: two digits that are not hexadecimal give '\0'. */
  function UnHex(h1: char, h2: char): (c: char) {
    if Nibble(h1) < 0 || Nibble(h2) < 0 then '\0' else (Nibble(h1) * 16 + Nibble(h2)) as char
  }

  /** `String::replace` of characters; it searches up to the first '\0'. */
  function Replace(s: string, c1: char, c2: char): (r: string)
    ensures |r| == |s|
  {
    if s == "" || s[0] == '\0' then s
    else [if s[0] == c1 then c2 else s[0]] + Replace(s[1..], c1, c2)
  }

  /** The loop of `Decode`. */
  function DecodeFrom(t: string): (text: string) {
    if t == "" then ""
    else if t[0] == '%' && |t| > 2 then Append(UnHex(t[1], t[2])) + DecodeFrom(t[3..])
    else Append(t[0]) + DecodeFrom(t[1..])
  }

  function Decode(s: string): (text: string) {
    DecodeFrom(Replace(s, '+', ' '))
  }

  /** Text of C characters other than '\0'. */
  predicate ByteText(s: string) {
    forall i :: 0 <= i < |s| ==> 0 < s[i] as int < 256
  }

  // ----- decoding what was encoded ------------------------------------------------------------------

  lemma HexPair(n: nat)
    requires n < 256
    ensures UnHex(N.Hex(n / 16), N.Hex(n % 16)) == n as char
  {
    HexNibble(n / 16);
    HexNibble(n % 16);
  }

  lemma HexNibble(d: nat)
    requires d < 16
    ensures Nibble(N.Hex(d)) == d && Unreserved(N.Hex(d))
  {
  }

  lemma DecodePercent(h1: char, h2: char, t: string)
    ensures DecodeFrom(['%', h1, h2] + t) == Append(UnHex(h1, h2)) + DecodeFrom(t)
  {
    hide UnHex, Append;
    assert (['%', h1, h2] + t)[3..] == t;
  }

  lemma PercentShape(c: char)
    requires 0 < c as int < 256
    ensures
      var p := Percent(c);
      |p| == 3 && p[0] == '%' && UnHex(p[1], p[2]) == c
  {
    hide UnHex, N.Hex;
    assert c as int % 256 == c as int;
    HexPair(c as int);
  }

  lemma PercentStep(c: char, t: string)
    requires 0 < c as int < 256
    ensures DecodeFrom(Percent(c) + t) == [c] + DecodeFrom(t)
  {
    hide UnHex, Percent, DecodeFrom;
    PercentShape(c);
    var p := Percent(c);
    assert p == ['%', p[1], p[2]];
    DecodePercent(p[1], p[2], t);
  }

  lemma PlainStep(c: char, t: string)
    requires c != '%' && c != '\0'
    ensures DecodeFrom([c] + t) == [c] + DecodeFrom(t)
  {
    assert ([c] + t)[1..] == t;
  }

  lemma {:induction false} DecodeFromEncode(s: string, exclude: string)
    requires ByteText(s) && !Excluded(exclude, '%')
    ensures DecodeFrom(Encode(s, exclude)) == s
  {
    hide DecodeFrom, Percent, Excluded;
    if s == "" {
      assert DecodeFrom("") == "" by { DecodeNothing(); }
    } else {
      DecodeFromEncode(s[1..], exclude);
      var t := Encode(s[1..], exclude);
      if ShouldEncode(s[0], exclude) {
        PercentStep(s[0], t);
      } else {
        PlainStep(s[0], t);
      }
      assert s == [s[0]] + s[1..];
    }
  }

  lemma DecodeNothing()
    ensures DecodeFrom("") == ""
  {
  }

  /** What can occur in an encoded text. */
  lemma {:induction false} EncodedChars(s: string, exclude: string, c: char)
    requires c == '\0' || (!Unreserved(c) && c != '%' && !Excluded(exclude, c))
    ensures c !in Encode(s, exclude)
  {
    hide Excluded;
    if s != "" {
      var n := s[0] as int % 256;
      HexNibble(n / 16);
      HexNibble(n % 16);
      EncodedChars(s[1..], exclude, c);
    }
  }

  lemma {:induction false} ReplaceNone(s: string, c1: char, c2: char)
    requires c1 !in s
    ensures Replace(s, c1, c2) == s
  {
    if s != "" && s[0] != '\0' {
      ReplaceNone(s[1..], c1, c2);
      assert s == [s[0]] + s[1..];
    }
  }

  lemma {:induction false} ReplaceBack(s: string, c1: char, c2: char)
    requires c2 !in s && '\0' !in s && c1 != '\0' && c2 != '\0'
    ensures Replace(Replace(s, c1, c2), c2, c1) == s
    ensures c1 !in Replace(s, c1, c2) || c1 == c2
    ensures forall c :: c in Replace(s, c1, c2) ==> c == c2 || c in s
  {
    if s != "" {
      ReplaceBack(s[1..], c1, c2);
      var r := Replace(s[1..], c1, c2);
      var d := if s[0] == c1 then c2 else s[0];
      assert ([d] + r)[1..] == r;
      assert s == [s[0]] + s[1..];
    }
  }

  /** `Decode` undoes `Encode` on all texts if and only if neither '%' nor '+' is excluded from encoding. */
  lemma PercentRoundTrip(exclude: string)
    ensures (forall s :: ByteText(s) ==> Decode(Encode(s, exclude)) == s)
            <==> !Excluded(exclude, '%') && !Excluded(exclude, '+')
  {
    hide Excluded;
    if !Excluded(exclude, '%') && !Excluded(exclude, '+') {
      forall s | ByteText(s)
        ensures Decode(Encode(s, exclude)) == s
      {
        EncodedChars(s, exclude, '+');
        ReplaceNone(Encode(s, exclude), '+', ' ');
        DecodeFromEncode(s, exclude);
      }
    } else if Excluded(exclude, '+') {
      PlusIsLost(exclude);
    } else {
      PercentIsLost(exclude);
    }
  }

  lemma PlusIsLost(exclude: string)
    requires Excluded(exclude, '+')
    ensures ByteText("+") && Decode(Encode("+", exclude)) == " "
  {
    hide Excluded;
    assert "+"[1..] == "";
    assert Encode("+", exclude) == "+";
    assert Replace("+", '+', ' ') == " ";
    assert " "[1..] == "";
  }

  lemma PercentIsLost(exclude: string)
    requires Excluded(exclude, '%')
    ensures ByteText("%41") && Decode(Encode("%41", exclude)) == "A"
  {
    hide Excluded;
    var s := "%41";
    assert s[1..] == "41" && "41"[1..] == "1" && "1"[1..] == "";
    assert Encode("1", exclude) == "1";
    assert Encode("41", exclude) == "41";
    assert Encode(s, exclude) == s;
    ReplaceNone(s, '+', ' ');
    assert s[3..] == "";
    assert UnHex('4', '1') == 'A';
  }

  /** Form encoding, blanks as plus signs, loses nothing: for any exclude list that admits '%' and '+' to
      the encoding. */
  lemma FormRoundTrip(s: string, exclude: string)
    requires ByteText(s) && !Excluded(exclude, '%') && !Excluded(exclude, '+')
    ensures Decode(Replace(Encode(s, exclude), ' ', '+')) == s
  {
    hide Excluded, DecodeFrom, Encode, Replace;
    var e := Encode(s, exclude);
    EncodedChars(s, exclude, '+');
    EncodedChars(s, exclude, '\0');
    ReplaceBack(e, ' ', '+');
    DecodeFromEncode(s, exclude);
  }

  /** The two lists the source uses with the blanks replaced afterwards. */
  lemma QueryLists()
    ensures !Excluded(" =&", '%') && !Excluded(" =&", '+')
    ensures !Excluded(" .~_-", '%') && !Excluded(" .~_-", '+')
    ensures !Excluded(" .~_-", '&') && !Excluded(" .~_-", '=')
  {
  }

  // ----- the loops ----------------------------------------------------------------------------------

  method DoEncode(input: string, into: string, exclude: string) returns (output: string)
    ensures output == into + Encode(input, exclude)
  {
    hide ShouldEncode, N.Hex;
    output := into;
    for i := 0 to |input|
      invariant output + Encode(input[i..], exclude) == into + Encode(input, exclude)
    {
      ghost var was := output;
      ghost var rest := Encode(input[i + 1..], exclude);
      assert input[i..][1..] == input[i + 1..];
      if ShouldEncode(input[i], exclude) {
        var n := input[i] as int % 256;
        output := output + ['%'];
        output := output + [N.Hex(n / 16)];
        output := output + [N.Hex(n % 16)];
        assert was + (Percent(input[i]) + rest) == output + rest;
      } else {
        output := output + Append(input[i]);
        assert was + (Append(input[i]) + rest) == output + rest;
      }
    }
  }

  /** A search passes over what is neither the character nor '\0'. */
  lemma {:induction false} FindSkips(s: string, c: char, pos: nat, at: nat)
    requires pos <= at <= |s| && c != '\0'
    requires forall k :: pos <= k < at ==> s[k] != c && s[k] != '\0'
    ensures Find(s, c, pos) == Find(s, c, at)
    decreases at - pos
  {
    if pos < at {
      FindSkips(s, c, pos + 1, at);
    }
  }

  lemma {:induction false} ReplaceOne(s: string, c1: char, c2: char, at: nat)
    requires at < |s| && s[at] == c1 && c1 != '\0' && c2 != '\0'
    requires forall k :: 0 <= k < at ==> s[k] != c1 && s[k] != '\0'
    ensures Replace(s[at := c2], c1, c2) == Replace(s, c1, c2)
  {
    if at == 0 {
      assert s[0 := c2][1..] == s[1..];
    } else {
      assert s[at := c2][1..] == s[1..][at - 1 := c2];
      ReplaceOne(s[1..], c1, c2, at - 1);
    }
  }

  lemma {:induction false} ReplaceUnfound(s: string, c1: char, c2: char, pos: nat)
    requires c1 != '\0' && pos <= |s| && Find(s, c1, pos) == -1
    ensures Replace(s[pos..], c1, c2) == s[pos..]
    decreases |s| - pos
  {
    if pos < |s| && s[pos] != '\0' {
      assert s[pos..][1..] == s[pos + 1..];
      ReplaceUnfound(s, c1, c2, pos + 1);
    }
  }

  method DoReplace(s: string, c1: char, c2: char) returns (r: string)
    requires c1 != '\0' && c2 != '\0' && c2 != c1
    ensures r == Replace(s, c1, c2)
  {
    hide Find, Replace;
    r := s;
    var at := Find(r, c1, 0);
    while at >= 0
      invariant at == Find(r, c1, 0)
      invariant Replace(r, c1, c2) == Replace(s, c1, c2)
      decreases if at < 0 then 0 else |r| - at
    {
      ReplaceOne(r, c1, c2, at);
      ghost var was := at;
      r := r[at := c2];
      FindSkips(r, c1, 0, at);
      at := Find(r, c1, at);
      assert at != was;
    }
    ReplaceUnfound(r, c1, c2, 0);
    assert r[0..] == r;
  }

  /** One turn of the decoding loop moves a piece of the input to the output. */
  lemma DecodeTurn(input: string, i: nat, output: string, all: string)
    requires i < |input| && output + DecodeFrom(input[i..]) == all
    ensures
      if input[i] == '%' && i + 2 < |input|
      then output + Append(UnHex(input[i + 1], input[i + 2])) + DecodeFrom(input[i + 3..]) == all
      else output + Append(input[i]) + DecodeFrom(input[i + 1..]) == all
  {
    hide UnHex, Append;
    var t := input[i..];
    if input[i] == '%' && i + 2 < |input| {
      assert t[3..] == input[i + 3..];
      var piece := Append(UnHex(t[1], t[2]));
      assert output + (piece + DecodeFrom(t[3..])) == output + piece + DecodeFrom(t[3..]);
    } else {
      assert t[1..] == input[i + 1..];
      assert output + (Append(t[0]) + DecodeFrom(t[1..])) == output + Append(t[0]) + DecodeFrom(t[1..]);
    }
  }

  method DoDecode(encoded: string, into: string) returns (output: string)
    ensures output == into + Decode(encoded)
  {
    hide UnHex, Replace, DecodeFrom, Append;
    DecodeNothing();
    var input := DoReplace(encoded, '+', ' ');
    output := into;
    var i := 0;
    assert input[0..] == input;
    while i < |input|
      invariant 0 <= i <= |input|
      invariant output + DecodeFrom(input[i..]) == into + Decode(encoded)
    {
      DecodeTurn(input, i, output, into + Decode(encoded));
      if input[i] == '%' && i + 2 < |input| {
        output := output + Append(UnHex(input[i + 1], input[i + 2]));
        i := i + 2;
      } else {
        output := output + Append(input[i]);
      }
      i := i + 1;
    }
    assert input[i..] == "";
  }

  // ----- character by character -----------------------------------------------------------------------

  lemma {:induction false} EncodeJoins(a: string, b: string, exclude: string)
    ensures Encode(a + b, exclude) == Encode(a, exclude) + Encode(b, exclude)
    decreases |a|
  {
    hide ShouldEncode, Percent;
    if a == "" {
      assert a + b == b;
    } else {
      assert (a + b)[1..] == a[1..] + b;
      EncodeJoins(a[1..], b, exclude);
    }
  }

  /** A letter, a digit, one of "-._~" (section 2.3 of RFC 3986) and what is excluded stay; any other
      character becomes '%' and the two upper-case hexadecimal digits of its byte. */
  lemma EncodeOne(c: char, exclude: string)
    requires '\0' !in exclude && c != '\0'
    ensures
      var e := Encode([c], exclude);
      if 'A' <= c <= 'Z' || 'a' <= c <= 'z' || '0' <= c <= '9' || c == '-' || c == '.' || c == '_' || c == '~'
         || c in exclude
      then e == [c]
      else |e| == 3 && e[0] == '%' && N.ProperDigits(e[1..], 16) && N.Value(e[1..], 16) == c as int % 256
  {
    assert [c][1..] == "" && Encode("", exclude) == "";
    FoundInList(exclude, c);
    hide Find;
    if ShouldEncode(c, exclude) {
      var p := Percent(c);
      assert Encode([c], exclude) == p;
      assert p[1..] == [p[1], p[2]];
      TwoDigits(p[1], p[2]);
    }
  }

  lemma TwoDigits(h1: char, h2: char)
    ensures N.Value([h1, h2], 16) == N.DigitValue(h1) * 16 + N.DigitValue(h2)
  {
    assert [h1, h2][..1] == [h1] && [h1][..0] == "";
    assert N.Value("", 16) == 0;
    assert N.Value([h1], 16) == N.DigitValue(h1);
  }

  lemma {:induction false} FoundAfter(s: string, c: char, pos: nat)
    requires '\0' !in s && c != '\0' && pos <= |s|
    ensures Find(s, c, pos) != -1 <==> c in s[pos..]
    decreases |s| - pos
  {
    if pos < |s| {
      FoundAfter(s, c, pos + 1);
      assert s[pos..] == [s[pos]] + s[pos + 1..];
    }
  }

  lemma FoundInList(exclude: string, c: char)
    requires '\0' !in exclude && c != '\0'
    ensures Find(exclude, c, 0) != -1 <==> c in exclude
  {
    FoundAfter(exclude, c, 0);
    assert exclude[0..] == exclude;
  }

  /** Decoding turns every '+' into a blank, */
  lemma {:induction false} ReplaceIs(s: string, c1: char, c2: char)
    requires '\0' !in s
    ensures forall i :: 0 <= i < |s| ==> Replace(s, c1, c2)[i] == if s[i] == c1 then c2 else s[i]
    decreases |s|
  {
    if s != "" {
      ReplaceIs(s[1..], c1, c2);
    }
  }

  /** copies what is no '%', */
  lemma {:induction false} DecodeCopies(u: string, rest: string)
    requires '%' !in u && '\0' !in u
    ensures DecodeFrom(u + rest) == u + DecodeFrom(rest)
    decreases |u|
  {
    if u == "" {
      assert u + rest == rest;
    } else {
      assert u + rest == [u[0]] + (u[1..] + rest);
      PlainStep(u[0], u[1..] + rest);
      DecodeCopies(u[1..], rest);
      assert [u[0]] + (u[1..] + DecodeFrom(rest)) == u + DecodeFrom(rest);
    }
  }

  /** reads '%' and two hexadecimal digits of either case as the byte they denote, and nothing for zero, */
  lemma DecodePair(h1: char, h2: char, k1: nat, k2: nat, rest: string)
    requires k1 < 16 && (h1 == "0123456789abcdef"[k1] || h1 == "0123456789ABCDEF"[k1])
    requires k2 < 16 && (h2 == "0123456789abcdef"[k2] || h2 == "0123456789ABCDEF"[k2])
    ensures
      var n := k1 * 16 + k2;
      DecodeFrom(['%', h1, h2] + rest) == (if n == 0 then "" else [n as char]) + DecodeFrom(rest)
  {
    hide DecodeFrom;
    DigitNibble(h1, k1);
    DigitNibble(h2, k2);
    DecodePercent(h1, h2, rest);
  }

  lemma DigitNibble(c: char, k: nat)
    requires k < 16 && (c == "0123456789abcdef"[k] || c == "0123456789ABCDEF"[k])
    ensures Nibble(c) == k
  {
  }

  /** nothing for any other two characters behind '%', and a '%' with less behind it as it is. */
  lemma DecodeOdd(h1: char, h2: char, rest: string)
    ensures
      !('0' <= h1 <= '9' || 'a' <= h1 <= 'f' || 'A' <= h1 <= 'F')
      || !('0' <= h2 <= '9' || 'a' <= h2 <= 'f' || 'A' <= h2 <= 'F')
      ==> DecodeFrom(['%', h1, h2] + rest) == DecodeFrom(rest)
    ensures DecodeFrom("%") == "%" && DecodeFrom(['%', h1]) == "%" + DecodeFrom([h1])
  {
    DecodePercent(h1, h2, rest);
    assert "%"[1..] == "" && ['%', h1][1..] == [h1];
    assert DecodeFrom("") == "";
  }
}
