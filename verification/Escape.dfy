/** `String::escape` and `String::unescape`: backslash escapes as in C source text. */
module Escape {

  import opened CText
  import N = Numbers

  /** The letter behind the backslash for a character that has one, or '\0'. */
  function Letter(c: char): (r: char) {
    if c == '\n' then 'n'
    else if c == '\r' then 'r'
    else if c as int == 8 then 'b'
    else if c as int == 11 then 'v'
    else if c as int == 7 then 'a'
    else if c as int == 12 then 'f'
    else if c == '\t' then 't'
    else if c == '\\' || c == '"' || c == '\'' then c
    else '\0'
  }

  function EscapeChar(c: char): (text: string) {
    if Letter(c) != '\0' then ['\\', Letter(c)]
    else if c as int < 0x20 || c as int > 0x7f then
      var n := c as int % 256;
      ['\\', 'x', N.Hex(n / 16), N.Hex(n % 16)]
    else [c]
  }

  function Escape(s: string): (text: string) {
    if s == "" then "" else EscapeChar(s[0]) + Escape(s[1..])
  }

  predicate IsHex(c: char) {
    '0' <= c <= '9' || 'a' <= c <= 'f' || 'A' <= c <= 'F'
  }

  function HexValue(c: char): (v: nat)
    requires IsHex(c)
    ensures v < 16
  {
    if 'a' <= c then c as int - 'a' as int + 10
    else if 'A' <= c then c as int - 'A' as int + 10
    else c as int - '0' as int
  }

  predicate IsOctal(c: char) {
    '0' <= c <= '7'
  }

  /** The character at an index, or the terminator. */
  function At(s: string, i: nat): (c: char) {
    if i < |s| then s[i] else '\0'
  }

  /** What is appended for a number: its low eight bits, and nothing for zero. */
  function Low(v: nat): (text: string) {
    Append((v % 256) as char)
  }

  /** What one backslash escape stands for, and how many characters it takes. */
  function Meaning(s: string): (r: (string, nat))
    requires |s| > 1 && s[0] == '\\'
    ensures 2 <= r.1 <= |s|
  {
    var c := s[1];
    if c == 'n' then ("\n", 2)
    else if c == 'r' then ("\r", 2)
    else if c == 'b' then ([8 as char], 2)
    else if c == 'v' then ([11 as char], 2)
    else if c == 'a' then ([7 as char], 2)
    else if c == 'f' then ([12 as char], 2)
    else if c == 't' then ("\t", 2)
    else if c == 'x' then
      if !IsHex(At(s, 2)) then ("x", 2)
      else if !IsHex(At(s, 3)) then (Low(HexValue(s[2])), 3)
      else (Low(HexValue(s[2]) * 16 + HexValue(s[3])), 4)
    else if IsOctal(c) then
      var v := c as int - '0' as int;
      if !IsOctal(At(s, 2)) then (Low(v), 2)
      else
        var w := v * 8 + (s[2] as int - '0' as int);
        if !IsOctal(At(s, 3)) then (Low(w), 3)
        else (Low(w * 8 + (s[3] as int - '0' as int)), 4)
    else (Append(c), 2)
  }

  /** A backslash at the very end is dropped. */
  function Unescape(s: string): (text: string)
    decreases |s|
  {
    if s == "" then ""
    else if s[0] != '\\' then Append(s[0]) + Unescape(s[1..])
    else if |s| == 1 then ""
    else Meaning(s).0 + Unescape(s[Meaning(s).1..])
  }

  predicate Bytes(s: string) {
    forall i :: 0 <= i < |s| ==> s[i] as int < 256
  }

  function WithoutNuls(s: string): (text: string) {
    if s == "" then "" else Append(s[0]) + WithoutNuls(s[1..])
  }

  // ----- the round trip -----------------------------------------------------------------------------

  lemma HexBack(d: nat)
    requires d < 16
    ensures IsHex(N.Hex(d)) && HexValue(N.Hex(d)) == d
  {
  }

  lemma HexMeaning(h1: char, h2: char, t: string)
    requires IsHex(h1) && IsHex(h2)
    ensures Meaning(['\\', 'x', h1, h2] + t) == (Low(HexValue(h1) * 16 + HexValue(h2)), 4)
  {
    hide HexValue, IsHex, Low, IsOctal;
    var s := ['\\', 'x', h1, h2] + t;
    assert s[1] == 'x' && At(s, 2) == h1 && At(s, 3) == h2;
  }

  lemma EscapedHex(c: char)
    requires c as int < 256 && Letter(c) == '\0' && !(0x20 <= c as int <= 0x7f)
    ensures
      var e := EscapeChar(c);
      |e| == 4 && e[0] == '\\' && e[1] == 'x' && IsHex(e[2]) && IsHex(e[3])
      && HexValue(e[2]) * 16 + HexValue(e[3]) == c as int
  {
    hide N.Hex, HexValue, IsHex, Letter;
    var n := c as int;
    assert n % 256 == n;
    HexBack(n / 16);
    HexBack(n % 16);
  }

  lemma MeaningOfHex(c: char, t: string)
    requires c as int < 256 && Letter(c) == '\0' && !(0x20 <= c as int <= 0x7f)
    ensures
      var s := EscapeChar(c) + t;
      |s| > 1 && s[0] == '\\' && Meaning(s) == (Append(c), 4)
  {
    hide Meaning, EscapeChar, HexValue, IsHex, Letter;
    EscapedHex(c);
    var e := EscapeChar(c);
    assert e == ['\\', 'x', e[2], e[3]];
    HexMeaning(e[2], e[3], t);
  }

  lemma MeaningOfLetter(c: char, t: string)
    requires Letter(c) != '\0'
    ensures
      var s := EscapeChar(c) + t;
      |s| > 1 && s[0] == '\\' && Meaning(s) == ([c], 2)
  {
    var s := EscapeChar(c) + t;
    assert s[1] == Letter(c);
  }

  /** Every escaped character stands for itself, whatever follows it. */
  lemma CharBack(c: char, t: string)
    requires c as int < 256
    ensures Unescape(EscapeChar(c) + t) == Append(c) + Unescape(t)
  {
    assert Letter(c) == '\0' ==> c != '\\';
    hide Meaning, Letter;
    var s := EscapeChar(c) + t;
    if Letter(c) != '\0' {
      MeaningOfLetter(c, t);
      assert s[2..] == t;
    } else if 0x20 <= c as int <= 0x7f {
      assert s == [c] + t && s[1..] == t;
    } else {
      MeaningOfHex(c, t);
      assert s[4..] == t;
    }
  }

  /** Unescaping gives the text back but for its '\0' characters. */
  lemma {:induction false} UnescapeEscape(s: string)
    requires Bytes(s)
    ensures Unescape(Escape(s)) == WithoutNuls(s)
  {
    hide Unescape, EscapeChar;
    if s == "" {
      UnescapeNothing();
    } else {
      CharBack(s[0], Escape(s[1..]));
      UnescapeEscape(s[1..]);
    }
  }

  lemma UnescapeNothing()
    ensures Unescape("") == ""
  {
  }

  lemma {:induction false} NulsCount(s: string)
    ensures |WithoutNuls(s)| <= |s|
    ensures WithoutNuls(s) == s <==> '\0' !in s
    ensures |WithoutNuls(s)| == |s| ==> '\0' !in s
  {
    if s != "" {
      NulsCount(s[1..]);
      assert s == [s[0]] + s[1..];
    }
  }

  /** A text of bytes survives exactly when it has no '\0'. */
  lemma RoundTrip(s: string)
    requires Bytes(s)
    ensures Unescape(Escape(s)) == s <==> '\0' !in s
  {
    UnescapeEscape(s);
    NulsCount(s);
  }

  /** The escaped text is printable ASCII, DEL included. */
  lemma {:induction false} EscapedIsPrintable(s: string)
    ensures forall c :: c in Escape(s) ==> 0x20 <= c as int <= 0x7f
  {
    hide N.Hex;
    if s != "" {
      var n := s[0] as int % 256;
      HexIsPrintable(n / 16);
      HexIsPrintable(n % 16);
      EscapedIsPrintable(s[1..]);
    }
  }

  lemma HexIsPrintable(d: nat)
    requires d < 16
    ensures 0x20 <= N.Hex(d) as int <= 0x7f
  {
  }

  // ----- the loops ----------------------------------------------------------------------------------

  lemma EscapeTurn(s: string, p: nat, result: string, all: string)
    requires p < |s| && result + Escape(s[p..]) == all
    ensures result + EscapeChar(s[p]) + Escape(s[p + 1..]) == all
  {
    hide EscapeChar;
    var t := s[p..];
    assert t[1..] == s[p + 1..];
    assert result + (EscapeChar(t[0]) + Escape(t[1..])) == result + EscapeChar(t[0]) + Escape(t[1..]);
  }

  method DoEscape(s: string) returns (result: string)
    ensures result == Escape(s)
  {
    hide Letter, N.Hex, Escape;
    result := "";
    assert s[0..] == s;
    for p := 0 to |s|
      invariant result + Escape(s[p..]) == Escape(s)
    {
      EscapeTurn(s, p, result, Escape(s));
      ghost var was := result;
      var c := s[p];
      if Letter(c) != '\0' {
        result := result + ['\\', Letter(c)];
      } else if c as int < 0x20 || 0x7f < c as int {
        result := result + "\\x";
        result := result + [N.Hex(c as int % 256 / 16)];
        result := result + [N.Hex(c as int % 256 % 16)];
      } else {
        result := result + [c];
      }
      assert result == was + EscapeChar(c);
    }
    assert s[|s|..] == "";
    assert Escape("") == "" by { EscapeNothing(); }
  }

  lemma EscapeNothing()
    ensures Escape("") == ""
  {
  }

  method DoUnescape(s: string) returns (result: string)
    ensures result == Unescape(s)
  {
    hide Unescape, HexValue, IsHex, Low;
    LowLetter();
    result := "";
    var p := 0;
    assert s[0..] == s;
    while p < |s|
      invariant 0 <= p <= |s|
      invariant result + Unescape(s[p..]) == Unescape(s)
    {
      Turn(s, p, result, Unescape(s));
      var c := s[p];
      if c == '\\' {
        p := p + 1;
        if p >= |s| {
          assert s[p..] == "";
          return;
        }
        c := s[p];
        if c == 'n' {
          result := result + "\n";
        } else if c == 'r' {
          result := result + "\r";
        } else if c == 'b' {
          result := result + [8 as char];
        } else if c == 'v' {
          result := result + [11 as char];
        } else if c == 'a' {
          result := result + [7 as char];
        } else if c == 'f' {
          result := result + [12 as char];
        } else if c == 't' {
          result := result + "\t";
        } else if c == 'x' {
          var v := 'x' as int;
          if IsHex(At(s, p + 1)) {
            p := p + 1;
            v := HexValue(s[p]);
            if IsHex(At(s, p + 1)) {
              p := p + 1;
              v := v * 16 + HexValue(s[p]);
            }
          }
          result := result + Low(v);
        } else if IsOctal(c) {
          var v := c as int - '0' as int;
          if IsOctal(At(s, p + 1)) {
            p := p + 1;
            v := v * 8 + (s[p] as int - '0' as int);
            if IsOctal(At(s, p + 1)) {
              p := p + 1;
              v := v * 8 + (s[p] as int - '0' as int);
            }
          }
          result := result + Low(v);
        } else {
          result := result + Append(c);
        }
        p := p + 1;
      } else {
        result := result + Append(c);
        p := p + 1;
      }
    }
    assert s[p..] == "";
    UnescapeNothing();
  }

  lemma LowLetter()
    ensures Low('x' as int) == "x"
  {
  }

  /** One turn of the loop moves one escape or one character to the result. */
  lemma Turn(s: string, p: nat, result: string, all: string)
    requires p < |s| && result + Unescape(s[p..]) == all
    ensures s[p] != '\\' ==> result + Append(s[p]) + Unescape(s[p + 1..]) == all
    ensures s[p] == '\\' && p + 1 == |s| ==> result == all
    ensures s[p] == '\\' && p + 1 < |s| ==>
      var m := Meaning(s[p..]);
      result + m.0 + Unescape(s[p + m.1..]) == all
  {
    hide Meaning;
    var t := s[p..];
    if s[p] != '\\' {
      assert t[1..] == s[p + 1..];
      assert result + (Append(t[0]) + Unescape(t[1..])) == result + Append(t[0]) + Unescape(t[1..]);
    } else if p + 1 < |s| {
      var m := Meaning(t);
      assert t[m.1..] == s[p + m.1..];
      assert result + (m.0 + Unescape(t[m.1..])) == result + m.0 + Unescape(t[m.1..]);
    }
  }

  // ----- character by character -----------------------------------------------------------------------

  lemma {:induction false} EscapeJoins(a: string, b: string)
    ensures Escape(a + b) == Escape(a) + Escape(b)
    decreases |a|
  {
    hide EscapeChar;
    if a == "" {
      assert a + b == b;
    } else {
      assert (a + b)[1..] == a[1..] + b;
      EscapeJoins(a[1..], b);
    }
  }

  /** The escapes of C: ten characters with a letter or themselves behind the backslash, other codes outside
      of 32 to 127 with two hexadecimal digits, and the rest as it is. */
  lemma EscapeOne(c: char)
    ensures Escape("\n") == "\\n" && Escape("\r") == "\\r" && Escape("\t") == "\\t"
    ensures Escape([7 as char]) == "\\a" && Escape([8 as char]) == "\\b"
    ensures Escape([11 as char]) == "\\v" && Escape([12 as char]) == "\\f"
    ensures Escape("\\") == "\\\\" && Escape("\"") == "\\\"" && Escape("'") == "\\'"
    ensures 32 <= c as int <= 127 && c != '\\' && c != '"' && c != '\'' ==> Escape([c]) == [c]
    ensures c as int < 7 || 13 < c as int < 32 || 127 < c as int ==>
      var e := Escape([c]);
      |e| == 4 && e[0] == '\\' && e[1] == 'x' && N.ProperDigits(e[2..], 16) && N.Value(e[2..], 16) == c as int % 256
  {
    EscapeSingle('\n');
    EscapeSingle('\r');
    EscapeSingle('\t');
    EscapeSingle(7 as char);
    EscapeSingle(8 as char);
    EscapeSingle(11 as char);
    EscapeSingle(12 as char);
    EscapeSingle('\\');
    EscapeSingle('"');
    EscapeSingle('\'');
    EscapeSingle(c);
    var n := c as int % 256;
    HexPair(n);
  }

  lemma EscapeSingle(c: char)
    ensures Escape([c]) == EscapeChar(c)
  {
    assert [c][1..] == "" && Escape("") == "";
  }

  lemma HexPair(n: nat)
    requires n < 256
    ensures
      var e := ['\\', 'x', N.Hex(n / 16), N.Hex(n % 16)];
      N.ProperDigits(e[2..], 16) && N.Value(e[2..], 16) == n
  {
    var h1, h2 := N.Hex(n / 16), N.Hex(n % 16);
    assert ['\\', 'x', h1, h2][2..] == [h1, h2];
    assert [h1, h2][..1] == [h1] && [h1][..0] == "";
    assert N.Value("", 16) == 0;
    assert N.Value([h1], 16) == N.DigitValue(h1);
  }

  /** Unescaping copies what is no backslash, */
  lemma {:induction false} UnescapeCopies(u: string, rest: string)
    requires '\\' !in u && '\0' !in u
    ensures Unescape(u + rest) == u + Unescape(rest)
    decreases |u|
  {
    hide Meaning;
    if u == "" {
      assert u + rest == rest;
    } else {
      assert (u + rest)[1..] == u[1..] + rest;
      UnescapeCopies(u[1..], rest);
      assert [u[0]] + (u[1..] + Unescape(rest)) == u + Unescape(rest);
    }
  }

  lemma Unescaped(s: string)
    requires |s| > 1 && s[0] == '\\'
    ensures Unescape(s) == Meaning(s).0 + Unescape(s[Meaning(s).1..])
  {
    hide Meaning;
  }

  /** reads the letters of C, and any other character but 'x' and the octal digits as itself, */
  lemma UnescapeLetter(c: char, rest: string)
    requires c != 'x' && !('0' <= c <= '7')
    ensures
      Unescape(['\\', c] + rest) ==
        (if c == 'n' then "\n" else if c == 'r' then "\r" else if c == 't' then "\t"
         else if c == 'a' then [7 as char] else if c == 'b' then [8 as char]
         else if c == 'v' then [11 as char] else if c == 'f' then [12 as char]
         else if c == '\0' then "" else [c]) + Unescape(rest)
    ensures Unescape("\\") == ""
  {
    var s := ['\\', c] + rest;
    Unescaped(s);
    assert s[2..] == rest;
    hide Unescape;
    assert Unescape("\\") == "" by { LoneBackslash(); }
  }

  lemma LoneBackslash()
    ensures Unescape("\\") == ""
  {
  }

  /** the low byte of up to three octal digits, the longest run counting, */
  lemma UnescapeOctal(digits: string, rest: string)
    requires 1 <= |digits| <= 3 && forall i :: 0 <= i < |digits| ==> '0' <= digits[i] <= '7'
    requires |digits| < 3 && rest != "" ==> !('0' <= rest[0] <= '7')
    ensures Unescape("\\" + digits + rest) == Low(N.Value(digits, 8)) + Unescape(rest)
  {
    hide Unescape, Low, Meaning, N.Value;
    OctalText(digits, rest);
    OctalMeant(digits, "\\" + digits + rest);
    Unescaped("\\" + digits + rest);
  }

  lemma OctalMeant(digits: string, s: string)
    requires 1 <= |digits| <= 3 && |s| > |digits| && s[0] == '\\'
    requires forall i :: 0 <= i < |digits| ==> '0' <= digits[i] <= '7' && s[i + 1] == digits[i]
    requires |digits| < 3 && |s| > |digits| + 1 ==> !('0' <= s[|digits| + 1] <= '7')
    ensures Meaning(s).0 == Low(N.Value(digits, 8)) && Meaning(s).1 == 1 + |digits|
  {
    hide Low, Meaning, N.Value;
    OctalValue(digits);
    assert forall i :: 1 <= i <= |digits| ==> s[i] == digits[i - 1];
    OctalMeaning(s, |digits|);
  }

  lemma OctalText(digits: string, rest: string)
    ensures
      var s := "\\" + digits + rest;
      s[0] == '\\' && s[1 + |digits|..] == rest && (forall i :: 0 <= i < |digits| ==> s[i + 1] == digits[i])
      && (|s| > 1 + |digits| ==> s[1 + |digits|] == rest[0])
  {
  }

  lemma OctalMeaning(s: string, n: nat)
    requires 1 <= n <= 3 && |s| > n && s[0] == '\\' && forall i :: 1 <= i <= n ==> '0' <= s[i] <= '7'
    requires n < 3 && |s| > n + 1 ==> !('0' <= s[n + 1] <= '7')
    ensures
      var d0 := s[1] as int - '0' as int;
      Meaning(s).1 == n + 1 && Meaning(s).0 ==
        if n == 1 then Low(d0)
        else
          var d1 := d0 * 8 + (s[2] as int - '0' as int);
          if n == 2 then Low(d1) else Low(d1 * 8 + (s[3] as int - '0' as int))
  {
    hide Low, HexValue, IsHex;
    assert '0' <= s[1] <= '7';
  }

  lemma OctalValue(digits: string)
    requires 1 <= |digits| <= 3 && forall i :: 0 <= i < |digits| ==> '0' <= digits[i] <= '7'
    ensures
      var d0 := digits[0] as int - '0' as int;
      N.Value(digits, 8) ==
        if |digits| == 1 then d0
        else
          var d1 := d0 * 8 + (digits[1] as int - '0' as int);
          if |digits| == 2 then d1 else d1 * 8 + (digits[2] as int - '0' as int)
  {
    assert digits[..0] == "" && N.Value("", 8) == 0;
    assert N.Value(digits[..1], 8) == digits[0] as int - '0' as int by {
      assert digits[..1][..0] == "";
    }
    if |digits| >= 2 {
      assert digits[..2][..1] == digits[..1];
    }
    assert digits[..|digits|] == digits;
  }

  /** and the byte of one or two hexadecimal digits of either case; an 'x' without one is itself. */
  lemma UnescapeHex(h1: char, h2: char, k1: nat, k2: nat, rest: string)
    requires k1 < 16 && (h1 == "0123456789abcdef"[k1] || h1 == "0123456789ABCDEF"[k1])
    requires k2 < 16 && (h2 == "0123456789abcdef"[k2] || h2 == "0123456789ABCDEF"[k2])
    ensures Unescape(['\\', 'x', h1, h2] + rest) == Low(k1 * 16 + k2) + Unescape(rest)
    ensures rest == "" || !IsHex(rest[0]) ==>
      Unescape(['\\', 'x', h1] + rest) == Low(k1) + Unescape(rest) && Unescape("\\x" + rest) == "x" + Unescape(rest)
  {
    hide Unescape, Low;
    DigitIsHex(h1, k1);
    DigitIsHex(h2, k2);
    var s := ['\\', 'x', h1, h2] + rest;
    assert At(s, 2) == h1 && At(s, 3) == h2 && s[4..] == rest;
    Unescaped(s);
    if rest == "" || !IsHex(rest[0]) {
      OneHex(h1, rest);
      NoHex(rest);
    }
  }

  lemma OneHex(h1: char, rest: string)
    requires IsHex(h1) && (rest == "" || !IsHex(rest[0]))
    ensures Unescape(['\\', 'x', h1] + rest) == Low(HexValue(h1)) + Unescape(rest)
  {
    hide Unescape, Low, HexValue;
    var s := ['\\', 'x', h1] + rest;
    assert At(s, 2) == h1 && At(s, 3) == (if rest == "" then '\0' else rest[0]) && s[3..] == rest;
    Unescaped(s);
  }

  lemma NoHex(rest: string)
    requires rest == "" || !IsHex(rest[0])
    ensures Unescape("\\x" + rest) == "x" + Unescape(rest)
  {
    hide Unescape, Low, HexValue;
    var s := "\\x" + rest;
    assert At(s, 2) == (if rest == "" then '\0' else rest[0]) && s[2..] == rest;
    Unescaped(s);
  }

  lemma DigitIsHex(c: char, k: nat)
    requires k < 16 && (c == "0123456789abcdef"[k] || c == "0123456789ABCDEF"[k])
    ensures IsHex(c) && HexValue(c) == k
  {
  }

  lemma OnlyDigitsAreHex(c: char)
    requires IsHex(c)
    ensures c == "0123456789abcdef"[HexValue(c)] || c == "0123456789ABCDEF"[HexValue(c)]
  {
  }

  /** The low byte, and nothing when that is zero. */
  lemma LowByte(v: nat)
    ensures Low(v) == if v % 256 == 0 then "" else [(v % 256) as char]
  {
  }
}
