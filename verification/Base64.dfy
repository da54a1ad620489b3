/** Base 64 (section 4 of RFC 4648) over byte ranges. */
module Base64 {

  import opened BB = ByteBuffer

  /** `encode` of one six-bit number. */
  function Symbol(u: nat): (c: char)
    requires u < 256
  {
    if u < 26 then ('A' as int + u) as char
    else if u < 52 then ('a' as int + (u - 26)) as char
    else if u < 62 then ('0' as int + (u - 52)) as char
    else if u == 62 then '+'
    else '/'
  }

  /** `decode` of one character; any other than those of the alphabet counts as '/'. */
  function Value(c: char): (u: nat)
    ensures u < 64
  {
    if 'A' <= c <= 'Z' then c as int - 'A' as int
    else if 'a' <= c <= 'z' then c as int - 'a' as int + 26
    else if '0' <= c <= '9' then c as int - '0' as int + 52
    else if c == '+' then 62
    else 63
  }

  /** The four symbols of up to three bytes; the shifts and masks of disjoint bits as arithmetic. */
  function Group(b1: Byte, b2: Byte, b3: Byte, count: nat): (g: string)
    requires 1 <= count <= 3
    ensures |g| == 4
  {
    [Symbol(b1 / 4), Symbol(b1 % 4 * 16 + b2 / 16),
     if count > 1 then Symbol(b2 % 16 * 4 + b3 / 64) else '=',
     if count > 2 then Symbol(b3 % 64) else '=']
  }

  function Encode(b: seq<Byte>): (text: string) {
    if |b| == 0 then ""
    else if |b| == 1 then Group(b[0], 0, 0, 1)
    else if |b| == 2 then Group(b[0], b[1], 0, 2)
    else Group(b[0], b[1], b[2], 3) + Encode(b[3..])
  }

  /** The bytes of four characters: an '=' in the third or fourth place leaves its byte out. */
  function Ungroup(c1: char, c2: char, c3: char, c4: char): (b: seq<Byte>)
    ensures 1 <= |b| <= 3
  {
    var b1, b2, b3, b4 := Value(c1), Value(c2), Value(c3), Value(c4);
    [b1 * 4 + b2 / 16]
    + (if c3 != '=' then [b2 % 16 * 16 + b3 / 4] else [])
    + (if c4 != '=' then [b3 % 4 * 64 + b4] else [])
  }

  /** A last group that is cut short is filled up with 'A'. */
  function Decode(s: string): (bytes: seq<Byte>)
    decreases |s|
  {
    if s == "" then []
    else
      Ungroup(s[0], At(s, 1), At(s, 2), At(s, 3)) + Decode(if |s| <= 4 then "" else s[4..])
  }

  function At(s: string, i: nat): (c: char) {
    if i < |s| then s[i] else 'A'
  }

  // ----- both directions ----------------------------------------------------------------------------

  lemma SymbolValue(u: nat)
    requires u < 64
    ensures Value(Symbol(u)) == u && Symbol(u) != '='
  {
  }

  /** The symbols are table 1 of RFC 4648, */
  lemma Alphabet()
    ensures Symbol(0) == 'A' && Symbol(1) == 'B' && Symbol(2) == 'C' && Symbol(3) == 'D' && Symbol(4) == 'E'
    ensures Symbol(5) == 'F' && Symbol(6) == 'G' && Symbol(7) == 'H' && Symbol(8) == 'I' && Symbol(9) == 'J'
    ensures Symbol(10) == 'K' && Symbol(11) == 'L' && Symbol(12) == 'M' && Symbol(13) == 'N' && Symbol(14) == 'O'
    ensures Symbol(15) == 'P' && Symbol(16) == 'Q' && Symbol(17) == 'R' && Symbol(18) == 'S' && Symbol(19) == 'T'
    ensures Symbol(20) == 'U' && Symbol(21) == 'V' && Symbol(22) == 'W' && Symbol(23) == 'X' && Symbol(24) == 'Y'
    ensures Symbol(25) == 'Z' && Symbol(26) == 'a' && Symbol(27) == 'b' && Symbol(28) == 'c' && Symbol(29) == 'd'
    ensures Symbol(30) == 'e' && Symbol(31) == 'f' && Symbol(32) == 'g' && Symbol(33) == 'h' && Symbol(34) == 'i'
    ensures Symbol(35) == 'j' && Symbol(36) == 'k' && Symbol(37) == 'l' && Symbol(38) == 'm' && Symbol(39) == 'n'
    ensures Symbol(40) == 'o' && Symbol(41) == 'p' && Symbol(42) == 'q' && Symbol(43) == 'r' && Symbol(44) == 's'
    ensures Symbol(45) == 't' && Symbol(46) == 'u' && Symbol(47) == 'v' && Symbol(48) == 'w' && Symbol(49) == 'x'
    ensures Symbol(50) == 'y' && Symbol(51) == 'z' && Symbol(52) == '0' && Symbol(53) == '1' && Symbol(54) == '2'
    ensures Symbol(55) == '3' && Symbol(56) == '4' && Symbol(57) == '5' && Symbol(58) == '6' && Symbol(59) == '7'
    ensures Symbol(60) == '8' && Symbol(61) == '9' && Symbol(62) == '+' && Symbol(63) == '/'
  {
  }

  predicate InAlphabet(c: char) {
    'A' <= c <= 'Z' || 'a' <= c <= 'z' || '0' <= c <= '9' || c == '+' || c == '/'
  }

  lemma ValueSymbol(c: char)
    ensures Symbol(Value(c)) == c <==> InAlphabet(c)
  {
  }

  lemma GroupUngroup(b1: Byte, b2: Byte, b3: Byte, count: nat)
    requires 1 <= count <= 3 && (count < 3 ==> b3 == 0) && (count < 2 ==> b2 == 0)
    ensures
      var g := Group(b1, b2, b3, count);
      Ungroup(g[0], g[1], g[2], g[3]) == [b1, b2, b3][..count]
  {
    hide Symbol, Value;
    SymbolValue(b1 / 4);
    SymbolValue(b1 % 4 * 16 + b2 / 16);
    SymbolValue(b2 % 16 * 4 + b3 / 64);
    SymbolValue(b3 % 64);
    Joined(b1, b2, b3);
  }

  lemma Joined(b1: Byte, b2: Byte, b3: Byte)
    ensures b1 / 4 * 4 + (b1 % 4 * 16 + b2 / 16) / 16 == b1
    ensures (b1 % 4 * 16 + b2 / 16) % 16 * 16 + (b2 % 16 * 4 + b3 / 64) / 4 == b2
    ensures (b2 % 16 * 4 + b3 / 64) % 4 * 64 + b3 % 64 == b3
  {
  }

  /** and four of them are the digits in base 64 of the number that three bytes are in base 256; of two bytes
      three with two zero bits, of one byte two with four. */
  lemma GroupIsNumber(b1: Byte, b2: Byte, b3: Byte, rest: seq<Byte>)
    ensures
      var s := Encode([b1, b2, b3] + rest);
      s[4..] == Encode(rest)
      && Value(s[0]) * 262144 + Value(s[1]) * 4096 + Value(s[2]) * 64 + Value(s[3]) == b1 * 65536 + b2 * 256 + b3
    ensures
      var s := Encode([b1, b2]);
      |s| == 4 && s[3] == '=' && Value(s[0]) * 4096 + Value(s[1]) * 64 + Value(s[2]) == 4 * (b1 * 256 + b2)
    ensures
      var s := Encode([b1]);
      |s| == 4 && s[2] == s[3] == '=' && Value(s[0]) * 64 + Value(s[1]) == 16 * b1
  {
    hide Symbol, Value;
    assert ([b1, b2, b3] + rest)[3..] == rest;
    NumberOfGroup(b1, b2, b3, 3);
    NumberOfGroup(b1, b2, 0, 2);
    NumberOfGroup(b1, 0, 0, 1);
  }

  lemma NumberOfGroup(b1: Byte, b2: Byte, b3: Byte, count: nat)
    requires 1 <= count <= 3 && (count < 3 ==> b3 == 0) && (count < 2 ==> b2 == 0)
    ensures
      var g := Group(b1, b2, b3, count);
      g[0] != '=' && g[1] != '='
      && (if count == 3 then
            Value(g[0]) * 262144 + Value(g[1]) * 4096 + Value(g[2]) * 64 + Value(g[3]) == b1 * 65536 + b2 * 256 + b3
          else if count == 2 then
            g[3] == '=' && Value(g[0]) * 4096 + Value(g[1]) * 64 + Value(g[2]) == 4 * (b1 * 256 + b2)
          else g[2] == g[3] == '=' && Value(g[0]) * 64 + Value(g[1]) == 16 * b1)
  {
    hide Symbol, Value;
    SymbolValue(b1 / 4);
    SymbolValue(b1 % 4 * 16 + b2 / 16);
    SymbolValue(b2 % 16 * 4 + b3 / 64);
    SymbolValue(b3 % 64);
  }

  /** Decoding takes any character outside of the alphabet for the last symbol, and fills up a last group that
      is cut short with the first. */
  lemma DecodeOdd(c: char, s: string)
    ensures !InAlphabet(c) ==> Value(c) == Value('/')
    ensures 0 < |s| < 4 ==> Decode(s) == Decode(s + "A")
  {
    hide Value;
    assert !InAlphabet(c) ==> Value(c) == Value('/') by { Outside(c); }
    if 0 < |s| < 4 {
      assert forall i :: 0 <= i < 4 ==> At(s, i) == At(s + "A", i);
    }
  }

  lemma Outside(c: char)
    ensures !InAlphabet(c) ==> Value(c) == Value('/')
  {
  }

  /** Every byte sequence survives. */
  lemma {:induction false} DecodeEncode(b: seq<Byte>)
    ensures Decode(Encode(b)) == b
    decreases |b|
  {
    hide Group, Ungroup;
    if |b| == 0 {
    } else if |b| == 1 {
      GroupUngroup(b[0], 0, 0, 1);
      assert Decode("") == [];
    } else if |b| == 2 {
      GroupUngroup(b[0], b[1], 0, 2);
      assert Decode("") == [];
    } else {
      GroupUngroup(b[0], b[1], b[2], 3);
      var g := Group(b[0], b[1], b[2], 3);
      DecodeEncode(b[3..]);
      assert (g + Encode(b[3..]))[4..] == Encode(b[3..]);
      assert Encode(b[3..]) == "" ==> b[3..] == [];
      assert b == b[..3] + b[3..];
    }
  }

  lemma {:induction false} EncodedLength(b: seq<Byte>)
    ensures |Encode(b)| == 4 * ((|b| + 2) / 3)
    decreases |b|
  {
    hide Group;
    if |b| > 2 {
      EncodedLength(b[3..]);
    }
  }

  /** Whole groups of the alphabet; the last may be padded, with zero bits under the padding. */
  predicate Canonical(s: string) {
    s == "" ||
    (|s| >= 4 && InAlphabet(s[0]) && InAlphabet(s[1])
     && if |s| > 4 || s[3] != '=' then InAlphabet(s[2]) && InAlphabet(s[3]) && Canonical(s[4..])
        else if s[2] == '=' then Value(s[1]) % 16 == 0
        else InAlphabet(s[2]) && Value(s[2]) % 4 == 0)
  }

  /** The bytes of a group give its characters back when those are in the alphabet or proper padding. */
  lemma UngroupGroup(c1: char, c2: char, c3: char, c4: char)
    requires InAlphabet(c1) && InAlphabet(c2)
    requires c4 != '=' ==> InAlphabet(c3) && InAlphabet(c4)
    requires c4 == '=' && c3 != '=' ==> InAlphabet(c3) && Value(c3) % 4 == 0
    requires c3 == '=' ==> c4 == '=' && Value(c2) % 16 == 0
    ensures
      var b := Ungroup(c1, c2, c3, c4);
      |b| == (if c4 != '=' then 3 else if c3 != '=' then 2 else 1)
      && Group(b[0], if |b| > 1 then b[1] else 0, if |b| > 2 then b[2] else 0, |b|) == [c1, c2, c3, c4]
  {
    hide Symbol, Value, InAlphabet;
    ValueSymbol(c1);
    ValueSymbol(c2);
    ValueSymbol(c3);
    ValueSymbol(c4);
    Split(Value(c1), Value(c2), Value(c3), Value(c4));
  }

  lemma Split(u1: nat, u2: nat, u3: nat, u4: nat)
    requires u1 < 64 && u2 < 64 && u3 < 64 && u4 < 64
    ensures (u1 * 4 + u2 / 16) / 4 == u1
    ensures (u1 * 4 + u2 / 16) % 4 * 16 + (u2 % 16 * 16 + u3 / 4) / 16 == u2
    ensures u2 % 16 == 0 ==> (u1 * 4 + u2 / 16) % 4 * 16 + 0 / 16 == u2
    ensures (u2 % 16 * 16 + u3 / 4) % 16 * 4 + (u3 % 4 * 64 + u4) / 64 == u3
    ensures u3 % 4 == 0 ==> (u2 % 16 * 16 + u3 / 4) % 16 * 4 + 0 / 64 == u3
    ensures (u3 % 4 * 64 + u4) % 64 == u4
  {
  }

  lemma {:induction false} EncodeCanonical(b: seq<Byte>)
    ensures Canonical(Encode(b))
    decreases |b|
  {
    if |b| == 0 {
    } else if |b| <= 2 {
      GroupCanonical(b[0], if |b| == 2 then b[1] else 0, 0, |b|);
    } else {
      GroupCanonical(b[0], b[1], b[2], 3);
      var g := Group(b[0], b[1], b[2], 3);
      hide Group, InAlphabet, Value;
      EncodeCanonical(b[3..]);
      assert Encode(b)[4..] == Encode(b[3..]);
      assert Encode(b)[..4] == g;
    }
  }

  lemma GroupCanonical(b1: Byte, b2: Byte, b3: Byte, count: nat)
    requires 1 <= count <= 3 && (count < 3 ==> b3 == 0) && (count < 2 ==> b2 == 0)
    ensures
      var g := Group(b1, b2, b3, count);
      InAlphabet(g[0]) && InAlphabet(g[1])
      && (if count == 3 then InAlphabet(g[2]) && InAlphabet(g[3]) && g[3] != '='
          else if count == 2 then InAlphabet(g[2]) && g[2] != '=' && g[3] == '=' && Value(g[2]) % 4 == 0
          else g[2] == '=' && g[3] == '=' && Value(g[1]) % 16 == 0)
  {
    hide Symbol, Value, InAlphabet;
    forall u: nat | u < 64
      ensures InAlphabet(Symbol(u)) && Value(Symbol(u)) == u && Symbol(u) != '='
    {
      SymbolValue(u);
      ValueSymbol(Symbol(u));
    }
  }

  /** A text comes back from its decoding if and only if it is canonical. */
  lemma {:induction false} EncodeDecode(s: string)
    ensures Encode(Decode(s)) == s <==> Canonical(s)
  {
    if Canonical(s) {
      EncodeOfDecode(s);
    }
    EncodeCanonical(Decode(s));
  }

  lemma EncodeGroup(b: seq<Byte>, rest: seq<Byte>)
    requires 1 <= |b| <= 3 && (rest != [] ==> |b| == 3)
    ensures Encode(b + rest)
         == Group(b[0], if |b| > 1 then b[1] else 0, if |b| > 2 then b[2] else 0, |b|) + Encode(rest)
  {
    if |b| == 3 {
      assert (b + rest)[3..] == rest;
    } else {
      assert b + rest == b;
    }
  }

  lemma {:induction false} EncodeOfDecode(s: string)
    requires Canonical(s)
    ensures Encode(Decode(s)) == s
    decreases |s|
  {
    hide Ungroup, Group, Encode, InAlphabet, Value;
    if s == "" {
      assert Encode([]) == "" by { EncodeNothing(); }
    } else {
      CanonicalGroup(s);
      UngroupGroup(s[0], s[1], s[2], s[3]);
      var b := Ungroup(s[0], s[1], s[2], s[3]);
      var rest := s[4..];
      assert Decode(s) == b + Decode(rest);
      EncodeOfDecode(rest);
      hide Decode, Canonical;
      assert Decode(rest) != [] ==> rest != "" by { DecodeNothing(); }
      EncodeGroup(b, Decode(rest));
      assert s == [s[0], s[1], s[2], s[3]] + rest;
    }
  }

  lemma EncodeNothing()
    ensures Encode([]) == ""
  {
  }

  lemma DecodeNothing()
    ensures Decode("") == []
  {
  }

  lemma CanonicalGroup(s: string)
    requires Canonical(s) && s != ""
    ensures |s| >= 4 && InAlphabet(s[0]) && InAlphabet(s[1]) && Canonical(s[4..])
    ensures s[3] != '=' ==> InAlphabet(s[2]) && InAlphabet(s[3])
    ensures s[3] == '=' && s[2] != '=' ==> InAlphabet(s[2]) && Value(s[2]) % 4 == 0
    ensures s[2] == '=' ==> s[3] == '=' && Value(s[1]) % 16 == 0
    ensures |s| > 4 ==> s[3] != '='
  {
    hide Value;
  }

  // ----- the loops ----------------------------------------------------------------------------------

  lemma GroupOf(b1: Byte, b2: Byte, b3: Byte, count: nat)
    requires 1 <= count <= 3
    ensures Group(b1, b2, b3, count)
         == [Symbol(b1 / 4), Symbol(b1 % 4 * 16 + b2 / 16)]
          + [if count > 1 then Symbol(b2 % 16 * 4 + b3 / 64) else '=']
          + [if count > 2 then Symbol(b3 % 64) else '=']
  {
    hide Symbol;
  }

  /** One turn of the loop moves a group from the bytes to the text. */
  lemma NextGroup(bytes: seq<Byte>, i: nat, was: string, all: string)
    requires i < |bytes| && was + Encode(bytes[i..]) == all
    ensures
      var count := if i + 2 < |bytes| then 3 else if i + 1 < |bytes| then 2 else 1;
      was + Group(bytes[i], if count > 1 then bytes[i + 1] else 0, if count > 2 then bytes[i + 2] else 0, count)
        + Encode(if i + 3 < |bytes| then bytes[i + 3..] else []) == all
  {
    hide Group, Encode;
    var count := if i + 2 < |bytes| then 3 else if i + 1 < |bytes| then 2 else 1;
    var rest := if i + 3 < |bytes| then bytes[i + 3..] else [];
    var b := bytes[i..i + count];
    assert bytes[i..] == b + rest;
    EncodeGroup(b, rest);
    var g := Group(b[0], if |b| > 1 then b[1] else 0, if |b| > 2 then b[2] else 0, |b|);
    assert was + (g + Encode(rest)) == was + g + Encode(rest);
  }

  /** `encode` of a byte range, appended to `encoded`. */
  method DoEncode(bytes: seq<Byte>, into: string) returns (encoded: string)
    ensures encoded == into + Encode(bytes)
  {
    hide Symbol, Encode, Group;
    EncodeNothing();
    encoded := into;
    var i := 0;
    while i < |bytes|
      invariant 0 <= i
      invariant if i < |bytes| then encoded + Encode(bytes[i..]) == into + Encode(bytes)
                else encoded == into + Encode(bytes)
    {
      ghost var was := encoded;
      var b1, b2, b3 := bytes[i], 0, 0;
      if i + 1 < |bytes| {
        b2 := bytes[i + 1];
      }
      if i + 2 < |bytes| {
        b3 := bytes[i + 2];
      }
      encoded := encoded + [Symbol(b1 / 4)];
      encoded := encoded + [Symbol(b1 % 4 * 16 + b2 / 16)];
      encoded := encoded + [if i + 1 < |bytes| then Symbol(b2 % 16 * 4 + b3 / 64) else '='];
      encoded := encoded + [if i + 2 < |bytes| then Symbol(b3 % 64) else '='];
      ghost var count := if i + 2 < |bytes| then 3 else if i + 1 < |bytes| then 2 else 1;
      assert encoded == was + Group(b1, b2, b3, count) by { GroupOf(b1, b2, b3, count); }
      NextGroup(bytes, i, was, into + Encode(bytes));
      i := i + 3;
    }
  }

  /** A buffer of that size can take bytes up to `end`: they fit, or it can grow for them. */
  predicate Fits(size: nat, end: nat) {
    end < size || BB.Rounded(end) > 0
  }

  /** What growing does to a size. */
  predicate Grew(before: nat, now: nat) {
    before <= now < BB.LIMIT && (now == before || now % 16 == 0)
  }

  /** A buffer that has grown can take what it could take before, and no more; and a shorter end with any. */
  lemma FitsAlike(before: nat, now: nat, end: nat, last: nat)
    requires Grew(before, now) && 0 < end <= last
    ensures Fits(now, end) <==> Fits(before, end)
    ensures Fits(now, last) ==> Fits(now, end)
  {
  }

  /** One write of `decode`, of those up to `end`. */
  method WriteByte(b: Byte, ghost end: nat, decoded: BB.ByteBuffer) returns (ok: bool)
    requires decoded.Valid() && decoded.size < BB.LIMIT && decoded.pos < end
    modifies decoded, decoded.buffer
    ensures if ok then Fits(decoded.size, end) == Fits(old(decoded.size), end) else !Fits(old(decoded.size), end)
    ensures ok && decoded.pos == end ==> Fits(decoded.size, end)
    ensures ok ==> decoded.Valid() && (decoded.buffer == old(decoded.buffer) || fresh(decoded.buffer))
    ensures ok ==> decoded.buffer[..decoded.pos] == old(decoded.buffer[..decoded.pos]) + [b]
    ensures ok ==> decoded.length == decoded.pos && Grew(old(decoded.size), decoded.size)
  {
    ghost var size, next := decoded.size, decoded.pos + 1;
    ok := decoded.WriteData([b]);
    FitsAlike(size, size, next, end);
    if ok {
      FitsAlike(size, decoded.size, end, end);
    }
  }

  /** The writes of one group in `decode`. */
  method WriteGroup(c1: char, c2: char, c3: char, c4: char, decoded: BB.ByteBuffer) returns (ok: bool)
    requires decoded.Valid() && decoded.size < BB.LIMIT
    modifies decoded, decoded.buffer
    ensures ok == Fits(old(decoded.size), old(decoded.pos) + |Ungroup(c1, c2, c3, c4)|)
    ensures ok ==> decoded.Valid() && (decoded.buffer == old(decoded.buffer) || fresh(decoded.buffer))
    ensures ok ==> decoded.buffer[..decoded.pos] == old(decoded.buffer[..decoded.pos]) + Ungroup(c1, c2, c3, c4)
    ensures ok ==> decoded.length == decoded.pos && Grew(old(decoded.size), decoded.size)
  {
    hide Value, Fits;
    var b1, b2, b3, b4 := Value(c1), Value(c2), Value(c3), Value(c4);
    ghost var end := decoded.pos + |Ungroup(c1, c2, c3, c4)|;
    ok := WriteByte(b1 * 4 + b2 / 16, end, decoded);
    if ok && c3 != '=' {
      ok := WriteByte(b2 % 16 * 16 + b3 / 4, end, decoded);
    }
    if ok && c4 != '=' {
      ok := WriteByte(b3 % 4 * 64 + b4, end, decoded);
    }
  }

  /** `decode` onto a byte buffer.  False: the size to grow to does not fit 32 bits. */
  method DoDecode(src: string, decoded: BB.ByteBuffer) returns (ok: bool)
    requires decoded.Valid() && decoded.size < BB.LIMIT
    modifies decoded, decoded.buffer
    ensures ok <==> src == "" || Fits(old(decoded.size), old(decoded.pos) + |Decode(src)|)
    ensures ok ==> decoded.Valid() && (decoded.buffer == old(decoded.buffer) || fresh(decoded.buffer))
    ensures ok ==> decoded.buffer[..decoded.pos] == old(decoded.buffer[..decoded.pos]) + Decode(src)
    ensures ok && src != "" ==> decoded.length == decoded.pos
  {
    hide Ungroup, Decode, Fits;
    DecodeNothing();
    ghost var start, size := decoded.buffer[..decoded.pos], decoded.size;
    ghost var end := |start| + |Decode(src)|;
    var i := 0;
    assert src[0..] == src;
    while i < |src|
      invariant 0 <= i && decoded.Valid() && Grew(size, decoded.size)
      invariant decoded.buffer == old(decoded.buffer) || fresh(decoded.buffer)
      invariant i > 0 ==> decoded.length == decoded.pos && Fits(size, decoded.pos)
      invariant decoded.buffer[..decoded.pos] + Decode(if i < |src| then src[i..] else "") == start + Decode(src)
      decreases |src| - i
    {
      ghost var was := decoded.buffer[..decoded.pos];
      var c1, c2, c3, c4 := src[i], 'A', 'A', 'A';
      if i + 1 < |src| {
        c2 := src[i + 1];
      }
      if i + 2 < |src| {
        c3 := src[i + 2];
      }
      if i + 3 < |src| {
        c4 := src[i + 3];
      }
      DecodeStep(src, i, was, start + Decode(src));
      ghost var next := decoded.pos + |Ungroup(c1, c2, c3, c4)|;
      FitsAlike(size, decoded.size, next, end);
      FitsAlike(size, decoded.size, end, end);
      ok := WriteGroup(c1, c2, c3, c4, decoded);
      if !ok {
        return;
      }
      assert decoded.buffer[..decoded.pos] == was + Ungroup(c1, c2, c3, c4);
      i := i + 4;
    }
    ok := true;
  }

  lemma DecodeStep(src: string, i: nat, was: seq<Byte>, all: seq<Byte>)
    requires i < |src| && was + Decode(src[i..]) == all
    ensures
      was + Ungroup(src[i], At(src, i + 1), At(src, i + 2), At(src, i + 3))
      + Decode(if i + 4 < |src| then src[i + 4..] else "") == all
  {
    hide Ungroup;
    var t := src[i..];
    var rest := if i + 4 < |src| then src[i + 4..] else "";
    assert |t| > 4 ==> t[4..] == rest;
    assert Decode(t) == Ungroup(t[0], At(t, 1), At(t, 2), At(t, 3)) + Decode(rest);
    assert was + (Ungroup(t[0], At(t, 1), At(t, 2), At(t, 3)) + Decode(rest))
        == was + Ungroup(t[0], At(t, 1), At(t, 2), At(t, 3)) + Decode(rest);
  }
}
