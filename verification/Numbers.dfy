/** Printing and reading of integers: `String::Val` and `String::Int`. */
module Numbers {
  import opened CText

  /** The table `String::HEX`. */
  function Hex(d: nat): (c: char)
    requires d < 16
    ensures c != '\0' && DigitValue(c) == d
  {
    if d < 10 then ('0' as int + d) as char else ('A' as int + d - 10) as char
  }

  /** The positional digits of `n`, most significant first. */
  function Digits(n: nat, base: nat): (s: string)
    requires 2 <= base <= 16
    ensures |s| > 0
  {
    if n < base then [Hex(n)] else Digits(n / base, base) + [Hex(n % base)]
  }

  function DigitValue(c: char): (d: nat) {
    if '0' <= c <= '9' then c as int - '0' as int
    else if 'A' <= c <= 'F' then c as int - 'A' as int + 10
    else 0
  }

  /** The number a digit string denotes. */
  function Value(s: string, base: nat): (n: nat) {
    if s == "" then 0 else Value(s[..|s| - 1], base) * base + DigitValue(s[|s| - 1])
  }

  predicate ProperDigits(s: string, base: nat)
  {
    forall i :: 0 <= i < |s| ==> DigitValue(s[i]) < base && (IsDigit(s[i]) || 'A' <= s[i] <= 'F')
  }

  function Power(base: nat, e: nat): (n: nat) {
    if e == 0 then 1 else base * Power(base, e - 1)
  }

  lemma DivMod(n: nat, base: nat)
    requires 2 <= base
    ensures n == (n / base) * base + n % base && 0 <= n % base < base
    ensures n >= base ==> 0 < n / base < n
    ensures n < base ==> n / base == 0
  {
    assert n == (n / base) * base + n % base;
    QuotientBounds(n, base, n / base, n % base);
  }

  lemma QuotientBounds(n: nat, base: nat, q: int, r: nat)
    requires 2 <= base && n == q * base + r && r < base
    ensures n >= base ==> 0 < q < n
    ensures n < base ==> q == 0
  {
    if n >= base && q <= 0 {
      MulMonotone(q, 0, base);
    } else if n >= base {
      MulMonotone(2, base, q);
      assert q * 2 <= q * base;
    } else if q > 0 {
      MulMonotone(1, q, base);
    } else if q < 0 {
      MulMonotone(q, -1, base);
    }
  }

  lemma MulMonotone(a: int, b: int, c: int)
    requires a <= b && 0 <= c
    ensures a * c <= b * c && c * a <= c * b
  {
  }

  /** The digits denote the number. */
  lemma {:induction false} DigitsDenote(n: nat, base: nat)
    requires 2 <= base <= 16
    ensures Value(Digits(n, base), base) == n
  {
    DivMod(n, base);
    var s := Digits(n, base);
    if n < base {
      assert s[..0] == "";
      assert Value(s, base) == DigitValue(Hex(n)) by { assert Value(s[..0], base) == 0; }
    } else {
      var q, r := n / base, n % base;
      DigitsDenote(q, base);
      assert s[..|s| - 1] == Digits(q, base);
    }
  }

  /** They are digits of the base, with no redundant leading zero. */
  lemma {:induction false} DigitsProper(n: nat, base: nat)
    requires 2 <= base <= 16
    ensures ProperDigits(Digits(n, base), base)
    ensures Digits(n, base)[0] == '0' ==> Digits(n, base) == "0" && n == 0
  {
    DivMod(n, base);
    if n < base {
    } else {
      DigitsProper(n / base, base);
    }
  }

  lemma QuotientBelow(n: nat, base: nat, q: nat, power: nat)
    requires n < base * power && q * base <= n
    ensures q < power
  {
    if q >= power {
      MulMonotone(power, q, base);
    }
  }

  lemma FirstPower(base: nat)
    ensures Power(base, 1) == base
  {
    assert Power(base, 0) == 1;
  }

  /** A number below base^e has at most e digits. */
  lemma {:induction false} DigitsLength(n: nat, base: nat, e: nat)
    requires 2 <= base <= 16 && 1 <= e && n < Power(base, e)
    ensures |Digits(n, base)| <= e
  {
    DivMod(n, base);
    if n >= base {
      FirstPower(base);
      QuotientBelow(n, base, n / base, Power(base, e - 1));
      DigitsLength(n / base, base, e - 1);
    }
  }

  lemma {:induction false} PowerMonotone(a: nat, b: nat, e: nat)
    requires a <= b
    ensures Power(a, e) <= Power(b, e)
  {
    if e > 0 {
      PowerMonotone(a, b, e - 1);
      var x, y := Power(a, e - 1), Power(b, e - 1);
      MulMonotone(a, b, x);
      MulMonotone(x, y, b);
    }
  }

  lemma Power2At32()
    ensures Power(2, 32) == 0x1_0000_0000
  {
    assert Power(2, 8) == 256;
    assert Power(2, 16) == 65536 by { assert Power(2, 12) == 4096; }
    assert Power(2, 24) == 16777216 by { assert Power(2, 20) == 1048576; }
    assert Power(2, 28) == 268435456;
  }

  /** What `String::Val(int32)` prints. */
  function ValText(num: int, base: nat): (text: string)
    requires 2 <= base <= 16
  {
    if num < 0 then "-" + Digits(-num, base) else Digits(num, base)
  }

  lemma Width(n: nat, base: nat)
    requires 2 <= base <= 16 && n < 0x1_0000_0000
    ensures |Digits(n, base)| <= 32
  {
    Power2At32();
    PowerMonotone(2, base, 32);
    DigitsLength(n, base, 32);
  }

  /** One more digit stored in front of the digits already there. */
  lemma OneDigit(n: nat, base: nat, later: string, all: string)
    requires 2 <= base <= 16
    requires Digits(n, base) + later == all
    ensures 0 <= n % base < 16 && 0 <= n / base && (n > 0 ==> n / base < n)
    ensures |later| < |all|
    ensures n / base > 0 ==> Digits(n / base, base) + ([Hex(n % base)] + later) == all && |later| + 1 < |all|
    ensures n / base == 0 ==> [Hex(n % base)] + later == all
  {
    DivMod(n, base);
    if n >= base {
      assert Digits(n, base) == Digits(n / base, base) + [Hex(n % base)];
    }
  }

  /** `String::Val(int32, base)`: digits are stored backwards from the end of a 34-byte buffer.
      Every store lands inside the buffer, whatever the number and the base. */
  method Val(num: int, base: int) returns (text: string)
    requires -0x8000_0000 <= num < 0x8000_0000
    ensures text == if 2 <= base <= 16 then ValText(num, base) else ""
  {
    hide Digits;
    var buf := new char[34];
    var p := 33;
    var nn: nat := num % 0x1_0000_0000;
    if base < 2 || base > 16 {
      return "";
    }
    if num < 0 {
      nn := ((-num - 1) + 1) % 0x1_0000_0000;
      assert nn == -num;
    }
    ghost var all := Digits(nn, base);
    Width(nn, base);
    buf[p] := '\0';
    var first := true;
    while first || nn > 0
      invariant 1 <= p <= 33
      invariant first || nn > 0 ==> Digits(nn, base) + buf[p..33] == all
      invariant !first && nn == 0 ==> buf[p..33] == all
      invariant first ==> p == 33
      decreases first, nn
    {
      p := StoreDigit(buf, p, nn, base, all);
      nn, first := nn / base, false;
    }
    if num < 0 {
      ghost var later := buf[p..33];
      p := p - 1;
      buf[p] := '-';
      assert buf[p..33] == ['-'] + buf[p + 1..33];
    }
    text := buf[p..33];
  }

  /** `String::Val(uint32, base)`: the same stores without a sign. */
  method ValUnsigned(num: nat, base: int) returns (text: string)
    requires num < 0x1_0000_0000
    ensures text == if 2 <= base <= 16 then Digits(num, base) else ""
  {
    var buf := new char[34];
    var p := 33;
    var nn: nat := num;
    if base < 2 || base > 16 {
      return "";
    }
    ghost var all := Digits(nn, base);
    Width(nn, base);
    buf[p] := '\0';
    var first := true;
    while first || nn > 0
      invariant 1 <= p <= 33
      invariant first || nn > 0 ==> Digits(nn, base) + buf[p..33] == all
      invariant !first && nn == 0 ==> buf[p..33] == all
      invariant first ==> p == 33
      decreases first, nn
    {
      p := StoreDigit(buf, p, nn, base, all);
      nn, first := nn / base, false;
    }
    text := buf[p..33];
  }

  /** The body of the digit loop: one digit goes in front of those already stored. */
  method StoreDigit(buf: array<char>, p: int, nn: nat, base: nat, ghost all: string) returns (q: int)
    requires buf.Length == 34 && 1 <= p <= 33 && 2 <= base <= 16
    requires Digits(nn, base) + buf[p..33] == all && |all| <= 32
    modifies buf
    ensures q == p - 1 && 1 <= q
    ensures 0 <= nn / base && (nn > 0 ==> nn / base < nn)
    ensures nn / base > 0 ==> Digits(nn / base, base) + buf[q..33] == all
    ensures nn / base == 0 ==> buf[q..33] == all
  {
    OneDigit(nn, base, buf[p..33], all);
    ghost var later := buf[p..33];
    q := p - 1;
    buf[q] := Hex(nn % base);
    assert buf[q..33] == [buf[q]] + buf[p..33];
    assert buf[p..33] == later;
  }

  /** The longest case fills the buffer exactly: 32 binary digits, the sign and the final '\0'. */
  lemma LongestText()
    ensures |ValText(-0x8000_0000, 2)| + 1 == 34
  {
    PowerOfTwoDigits(31);
    assert Power(2, 31) == 0x8000_0000 by { Power2At32(); assert Power(2, 32) == 2 * Power(2, 31); }
  }

  lemma {:induction false} PowerOfTwoDigits(e: nat)
    ensures Power(2, e) > 0 && |Digits(Power(2, e), 2)| == e + 1
  {
    if e > 0 {
      PowerOfTwoDigits(e - 1);
      assert Power(2, e) / 2 == Power(2, e - 1);
    }
  }

  /** The digits `strtol` in base 10 takes from `pos` on, folded onto `sofar`. */
  function DecimalFrom(s: string, pos: nat, sofar: nat): (n: nat)
    requires pos <= |s|
    decreases |s| - pos
  {
    if pos < |s| && IsDigit(s[pos]) then DecimalFrom(s, pos + 1, sofar * 10 + DigitValue(s[pos])) else sofar
  }

  /** `(int32)strtol(s, NULL, 10)` with a 64-bit `long`: the value saturates, then is cut to 32 bits. */
  function ToInt(s: string): (n: int)
    ensures -0x8000_0000 <= n < 0x8000_0000
  {
    var i := SkipSpace(s, 0);
    var negative := i < |s| && s[i] == '-';
    var start := if i < |s| && (s[i] == '-' || s[i] == '+') then i + 1 else i;
    var magnitude: int := DecimalFrom(s, start, 0);
    var wide: int := if negative
                then (if magnitude > 0x8000_0000_0000_0000 then -0x8000_0000_0000_0000 else -magnitude)
                else (if magnitude > 0x7FFF_FFFF_FFFF_FFFF then 0x7FFF_FFFF_FFFF_FFFF else magnitude);
    CutLong(wide)
  }

  /** A 64-bit `long` cut to 32 bits. */
  function CutLong(wide: int): (n: int)
    ensures -0x8000_0000 <= n < 0x8000_0000
    ensures -0x8000_0000 <= wide < 0x8000_0000 ==> n == wide
  {
    var low := wide % 0x1_0000_0000;
    if low >= 0x8000_0000 then low - 0x1_0000_0000 else low
  }

  lemma {:induction false} DecimalPrefix(s: string, pos: nat, e: nat)
    requires pos <= e <= |s|
    requires forall k :: pos <= k < e ==> IsDigit(s[k])
    requires e == |s| || !IsDigit(s[e])
    ensures DecimalFrom(s, pos, Value(s[..pos], 10)) == Value(s[..e], 10)
    decreases e - pos
  {
    if pos < e {
      assert s[..pos + 1][..pos] == s[..pos];
      DecimalPrefix(s, pos + 1, e);
    }
  }

  lemma DecimalDigits(n: nat, sign: string)
    requires |sign| <= 1
    ensures forall k :: 0 <= k < |Digits(n, 10)| ==> IsDigit(Digits(n, 10)[k])
    ensures DecimalFrom(sign + Digits(n, 10), |sign|, 0) == n
  {
    assert Value("", 10) == 0;
    hide DecimalFrom, Value;
    var d := Digits(n, 10);
    DigitsDenote(n, 10);
    DecimalPrefix(d, 0, |d|);
    assert d[..|d|] == d && d[..0] == "";
    ShiftDecimal(sign, d, 0, 0);
  }

  lemma {:induction false} ShiftDecimal(pre: string, s: string, pos: nat, sofar: nat)
    requires pos <= |s|
    ensures DecimalFrom(pre + s, |pre| + pos, sofar) == DecimalFrom(s, pos, sofar)
    decreases |s| - pos
  {
    if pos < |s| {
      assert (pre + s)[|pre| + pos] == s[pos];
      ShiftDecimal(pre, s, pos + 1, sofar * 10 + DigitValue(s[pos]));
    }
  }

  /** Reading back what `Val` prints gives the number, and the text holds nothing but a sign and digits. */
  lemma ToIntOfVal(num: int)
    requires -0x8000_0000 <= num < 0x8000_0000
    ensures ToInt(ValText(num, 10)) == num
    ensures |ValText(num, 10)| > 0
    ensures forall k :: 0 <= k < |ValText(num, 10)| ==> ValText(num, 10)[k] == '-' || IsDigit(ValText(num, 10)[k])
  {
    hide Digits, DecimalFrom;
    var s := ValText(num, 10);
    var sign := if num < 0 then "-" else "";
    var n: nat := if num < 0 then -num else num;
    DecimalDigits(n, sign);
    assert s == sign + Digits(n, 10);
    assert num >= 0 ==> IsDigit(s[0]);
    assert SkipSpace(s, 0) == 0;
  }

  /** The int a 64-bit `long` gives: the number brought into the range of a `long`, then the residue modulo
      2^32 that lies in the range of an int. */
  predicate CutOf(n: int, r: int) {
    var wide := if n > 0x7FFF_FFFF_FFFF_FFFF then 0x7FFF_FFFF_FFFF_FFFF
                else if n < -0x8000_0000_0000_0000 then -0x8000_0000_0000_0000 else n;
    -0x8000_0000 <= r < 0x8000_0000 && (wide - r) % 0x1_0000_0000 == 0
  }

  /** Reading any text: white space, a sign, digits, and whatever follows the digits. */
  lemma ToIntReads(gap: string, sign: string, digits: string, rest: string)
    requires AllSpace(gap) && (sign == "" || sign == "+" || sign == "-")
    requires forall k :: 0 <= k < |digits| ==> IsDigit(digits[k])
    requires rest != "" ==> !IsDigit(rest[0])
    requires sign == "" && digits == "" && rest != "" ==> !IsSpace(rest[0]) && rest[0] != '+' && rest[0] != '-'
    ensures CutOf(if sign == "-" then 0 - Value(digits, 10) else Value(digits, 10), ToInt(gap + sign + digits + rest))
  {
    hide DecimalFrom, Value, CutOf, SkipSpace, ToInt;
    var t := sign + digits + rest;
    var s := gap + sign + digits + rest;
    assert s == gap + t;
    FirstOf(sign, digits, rest);
    SpaceEnds(gap, t);
    DigitsFollow(gap + sign, digits, rest);
    assert |gap| < |s| ==> s[|gap|] == t[0];
    ToIntFrom(s, |gap|, Value(digits, 10));
  }

  lemma FirstOf(sign: string, digits: string, rest: string)
    requires sign == "" || sign == "+" || sign == "-"
    requires forall k :: 0 <= k < |digits| ==> IsDigit(digits[k])
    requires sign == "" && digits == "" && rest != "" ==> !IsSpace(rest[0]) && rest[0] != '+' && rest[0] != '-'
    ensures
      var t := sign + digits + rest;
      t != "" ==> !IsSpace(t[0]) && (t[0] == '-' <==> sign == "-") && (t[0] == '+' <==> sign == "+")
  {
    var t := sign + digits + rest;
    if sign != "" {
      assert t[0] == sign[0];
    } else if digits != "" {
      assert t[0] == digits[0];
    } else if rest != "" {
      assert t[0] == rest[0];
    }
  }

  lemma ToIntFrom(s: string, i: nat, m: nat)
    requires i <= |s| && SkipSpace(s, 0) == i
    requires DecimalFrom(s, if i < |s| && (s[i] == '-' || s[i] == '+') then i + 1 else i, 0) == m
    ensures CutOf(if i < |s| && s[i] == '-' then 0 - m else m, ToInt(s))
  {
    hide DecimalFrom, SkipSpace, CutLong, CutOf;
    LongCut(m);
    LongCut(0 - m);
  }

  lemma LongCut(n: int)
    ensures
      var wide := if n > 0x7FFF_FFFF_FFFF_FFFF then 0x7FFF_FFFF_FFFF_FFFF
                  else if n < -0x8000_0000_0000_0000 then -0x8000_0000_0000_0000 else n;
      CutOf(n, CutLong(wide))
  {
    hide CutLong;
    var wide := if n > 0x7FFF_FFFF_FFFF_FFFF then 0x7FFF_FFFF_FFFF_FFFF
                else if n < -0x8000_0000_0000_0000 then -0x8000_0000_0000_0000 else n;
    var k := CutApart(wide);
    Multiple(k);
  }

  lemma CutApart(wide: int) returns (k: int)
    ensures wide - CutLong(wide) == 0x1_0000_0000 * k
  {
    var q := wide / 0x1_0000_0000;
    k := if wide % 0x1_0000_0000 >= 0x8000_0000 then q + 1 else q;
  }

  lemma Multiple(k: int)
    ensures (0x1_0000_0000 * k) % 0x1_0000_0000 == 0
  {
  }

  lemma SpaceEnds(gap: string, t: string)
    requires AllSpace(gap) && (t != "" ==> !IsSpace(t[0]))
    ensures SkipSpace(gap + t, 0) == |gap|
  {
    var s := gap + t;
    if t == "" {
      assert s == gap;
      SpaceOnly(gap, 0);
    } else {
      assert s[0..|gap|] == gap && s[|gap|] == t[0];
      SkipAcross(s, 0, gap);
    }
  }

  lemma {:induction false} SpaceOnly(s: string, pos: nat)
    requires AllSpace(s) && pos <= |s|
    ensures SkipSpace(s, pos) == |s|
    decreases |s| - pos
  {
    if pos < |s| {
      SpaceOnly(s, pos + 1);
    }
  }

  lemma DigitsFollow(front: string, digits: string, rest: string)
    requires forall k :: 0 <= k < |digits| ==> IsDigit(digits[k])
    requires rest != "" ==> !IsDigit(rest[0])
    ensures DecimalFrom(front + digits + rest, |front|, 0) == Value(digits, 10)
  {
    hide DecimalFrom, Value;
    assert front + digits + rest == front + (digits + rest);
    ShiftDecimal(front, digits + rest, 0, 0);
    DigitsThenRest(digits, rest);
  }

  lemma DigitsThenRest(digits: string, rest: string)
    requires forall k :: 0 <= k < |digits| ==> IsDigit(digits[k])
    requires rest != "" ==> !IsDigit(rest[0])
    ensures DecimalFrom(digits + rest, 0, 0) == Value(digits, 10)
  {
    var s := digits + rest;
    assert s[..0] == "" && s[..|digits|] == digits;
    assert Value("", 10) == 0;
    assert |s| > |digits| ==> s[|digits|] == rest[0];
    DecimalPrefix(s, 0, |digits|);
  }
}
