/** The internet checksum (section 1 of RFC 1071) on a host of either byte order, and the ICMP echo
    message that carries it. */
module CheckSum {

  import opened ByteBuffer
  import opened Shared

  datatype Order = Little | Big

  /** The 16-bit word a host reads at two bytes. */
  function Word(order: Order, first: Byte, second: Byte): (w: nat)
    ensures w < 65536
  {
    if order.Little? then first + 256 * second else 256 * first + second
  }

  /** The two bytes at which a host stores a word. */
  function Bytes(order: Order, w: nat): (b: seq<Byte>)
    requires w < 65536
    ensures |b| == 2 && Word(order, b[0], b[1]) == w
  {
    if order.Little? then [w % 256, w / 256] else [w / 256, w % 256]
  }

  /** The sum of the words; a byte left over counts as itself on any host. */
  function Sum(order: Order, b: seq<Byte>): (n: nat) {
    if |b| == 0 then 0
    else if |b| == 1 then b[0]
    else Word(order, b[0], b[1]) + Sum(order, b[2..])
  }

  /** The loop of `value16`. */
  function Fold(f: nat): (r: nat)
    ensures r < 65536
    decreases f
  {
    if f / 65536 == 0 then f else Fold(f / 65536 + f % 65536)
  }

  /** `value16` of a sum. */
  function Value16(sum: int): (v: nat)
    ensures v < 65536
  {
    65535 - Fold(Wrap(sum))
  }

  /** The one number up to 65535 that is congruent to `f` modulo 65535 and zero only for zero. */
  function Residue(f: nat): (r: nat)
    ensures r < 65536 && (r == 0 <==> f == 0)
  {
    if f == 0 then 0 else (f - 1) % 65535 + 1
  }

  // ----- folding ------------------------------------------------------------------------------------

  /** The folding loop computes that residue. */
  lemma {:induction false} FoldIsResidue(f: nat)
    ensures Fold(f) == Residue(f)
    decreases f
  {
    if f / 65536 != 0 {
      var g := f / 65536 + f % 65536;
      FoldIsResidue(g);
      SameResidue(g, f, f / 65536);
    }
  }

  lemma SameResidue(a: nat, b: nat, k: nat)
    requires b == a + 65535 * k && a > 0
    ensures Residue(a) == Residue(b)
  {
    assert (b - 1) % 65535 == (a - 1) % 65535 by {
      assert b - 1 == (a - 1) + 65535 * k;
    }
  }

  /** Numbers of one residue are a multiple of 65535 apart. */
  lemma ResidueApart(f: nat) returns (k: nat)
    ensures f == Residue(f) + 65535 * k
  {
    k := if f == 0 then 0 else (f - 1) / 65535;
  }

  lemma ResidueOf(f: nat, r: nat, k: int)
    requires 0 < r <= 65535 && f == r + 65535 * k && f > 0
    ensures Residue(f) == r
  {
    assert (f - 1) == (r - 1) + 65535 * k;
  }

  /** The sum and the value taken of it come to a multiple of 65535 that 32 bits still hold. */
  lemma ValueCompletes(sum: int) returns (k: nat)
    ensures Wrap(sum) + Value16(sum) == 65535 * k && 0 < k <= 65537
  {
    hide Fold, Residue;
    FoldIsResidue(Wrap(sum));
    k := ResidueApart(Wrap(sum));
    k := k + 1;
  }

  /** Adding the value of a sum to it gives a sum of value 0, whether or not the sum wrapped. */
  lemma ValueCancels(sum: int)
    ensures Value16(sum + Value16(sum)) == 0
  {
    hide Fold, Residue;
    var v := Value16(sum);
    var k := ValueCompletes(sum);
    assert Wrap(sum + v) == Wrap(sum) + v by {
      hide Value16;
      WrapAdds(sum, v);
    }
    FoldIsResidue(65535 * k);
    ResidueOf(65535 * k, 65535, k - 1);
  }

  lemma WrapAdds(x: int, y: nat)
    requires Wrap(x) + y < 0x1_0000_0000
    ensures Wrap(x + y) == Wrap(x) + y
  {
  }

  // ----- the sum of a message -----------------------------------------------------------------------

  lemma {:induction false} SumBound(order: Order, b: seq<Byte>)
    ensures Sum(order, b) <= 65535 * ((|b| + 1) / 2)
    decreases |b|
  {
    if |b| > 1 {
      SumBound(order, b[2..]);
    }
  }

  /** The words of a message are those of its parts, when the first has an even length. */
  lemma {:induction false} SumJoins(order: Order, a: seq<Byte>, b: seq<Byte>)
    requires |a| % 2 == 0
    ensures Sum(order, a + b) == Sum(order, a) + Sum(order, b)
    decreases |a|
  {
    hide Word;
    if a == [] {
      assert a + b == b;
    } else {
      assert (a + b)[2..] == a[2..] + b;
      SumJoins(order, a[2..], b);
    }
  }

  /** A byte left over at the end counts as if a zero byte followed (section 4.1 of RFC 1071) on a
      little-endian host; on a big-endian one it counts 256 times too little. */
  lemma SumOfOdd(b: seq<Byte>, last: Byte)
    requires |b| % 2 == 0
    ensures Sum(Little, b + [last]) == Sum(Little, b + [last, 0])
    ensures Sum(Big, b + [last, 0]) - Sum(Big, b + [last]) == 255 * last
  {
    hide Sum;
    SumJoins(Little, b, [last]);
    SumJoins(Little, b, [last, 0]);
    SumJoins(Big, b, [last]);
    SumJoins(Big, b, [last, 0]);
    SmallSums(Little, last);
    SmallSums(Big, last);
  }

  lemma SmallSums(order: Order, last: Byte)
    ensures Sum(order, [last]) == last && Sum(order, [last, 0]) == if order.Little? then last else 256 * last
  {
    assert [last, 0][2..] == [];
  }

  /** Storing a word at an even offset changes the sum by the difference. */
  lemma {:induction false} SumReplaced(order: Order, b: seq<Byte>, at: nat, c: nat)
    requires at % 2 == 0 && at + 1 < |b| && c < 65536
    ensures Sum(order, Stored(order, b, at, c)) == Sum(order, b) - Word(order, b[at], b[at + 1]) + c
    decreases |b|
  {
    hide Word, Bytes;
    var d := Stored(order, b, at, c);
    if at == 0 {
      assert d[2..] == b[2..];
    } else {
      assert d[2..] == Stored(order, b[2..], at - 2, c);
      SumReplaced(order, b[2..], at - 2, c);
    }
  }

  function Stored(order: Order, b: seq<Byte>, at: nat, w: nat): (d: seq<Byte>)
    requires at + 1 < |b| && w < 65536
    ensures |d| == |b|
  {
    b[at := Bytes(order, w)[0]][at + 1 := Bytes(order, w)[1]]
  }

  /** A message of any length: with the checksum word zero, storing the value of the sum there makes the
      value of the new sum 0. */
  lemma Verifies(order: Order, b: seq<Byte>, at: nat)
    requires at % 2 == 0 && at + 1 < |b| && b[at] == b[at + 1] == 0
    ensures Value16(Sum(order, Stored(order, b, at, Value16(Sum(order, b))))) == 0
  {
    hide Value16, Sum, Stored, Fold;
    SumReplaced(order, b, at, Value16(Sum(order, b)));
    ValueCancels(Sum(order, b));
  }

  /** Up to 131074 bytes no carry is lost and the value is the complement of the sum modulo 65535. */
  lemma ValueOfShortMessage(order: Order, b: seq<Byte>)
    requires |b| <= 131074
    ensures Value16(Sum(order, b)) == 65535 - Residue(Sum(order, b))
    ensures (Value16(Sum(order, b)) + Sum(order, b)) % 65535 == 0
  {
    hide Fold, Residue, Sum;
    SumBound(order, b);
    var s := Sum(order, b);
    FoldIsResidue(s);
    var k := ResidueApart(s);
    assert Value16(s) + s == 65535 * (k + 1);
  }

  /** What the value is of a longer message: each carry lost out of 32 bits is one too few. */
  lemma ValueLosesCarries(order: Order, b: seq<Byte>)
    ensures (Value16(Sum(order, b)) + Sum(order, b)) % 65535 == 0
            <==> Sum(order, b) / 0x1_0000_0000 % 65535 == 0
  {
    hide Fold, Residue, Sum;
    var s := Sum(order, b);
    var k := ValueCompletes(s);
    var q := s / 0x1_0000_0000;
    assert s == Wrap(s) + 0x1_0000_0000 * q;
    assert Value16(s) + s == 65535 * (k + 65537 * q) + q;
    assert (Value16(s) + s) % 65535 == q % 65535;
  }

  // ----- byte order ---------------------------------------------------------------------------------

  /** The same word with its bytes exchanged is congruent to 256 times the word. */
  lemma Swapped(first: Byte, second: Byte)
    ensures 256 * Word(Little, first, second) == Word(Big, first, second) + 65535 * second
  {
  }

  lemma {:induction false} SumsSwapped(b: seq<Byte>) returns (k: nat)
    requires |b| % 2 == 0
    ensures 256 * Sum(Little, b) == Sum(Big, b) + 65535 * k
    ensures Sum(Little, b) == 0 <==> Sum(Big, b) == 0
    decreases |b|
  {
    if |b| == 0 {
      k := 0;
    } else {
      k := SumsSwapped(b[2..]);
      Swapped(b[0], b[1]);
      k := k + b[1];
    }
  }

  /** The one number is the other with its bytes exchanged, modulo 65535. */
  predicate Exchanged(l: int, b: int) {
    (256 * l - b) % 65535 == 0
  }

  /** The carries out of 32 bits. */
  function Lost(sum: nat): (carries: nat)
    ensures sum == Wrap(sum) + 0x1_0000_0000 * carries
  {
    sum / 0x1_0000_0000
  }

  lemma SameWhenLess(a: int, d: int, k: int)
    requires a == 65535 * k - d
    ensures a % 65535 == 0 <==> d % 65535 == 0
  {
    if a % 65535 == 0 {
      assert d == 65535 * (k - a / 65535);
    }
    if d % 65535 == 0 {
      assert a == 65535 * (k - d / 65535);
    }
  }

  function Swap(x: nat): (y: nat)
    requires x < 65536
    ensures y < 65536 && (y == 0 <==> x == 0)
    ensures Bytes(Little, x) == Bytes(Big, y)
    ensures 256 * x == y + 65535 * (x / 256)
  {
    256 * (x % 256) + x / 256
  }

  lemma SameBytes(x: nat, y: nat)
    requires x < 65536 && y < 65536 && Bytes(Big, x) == Bytes(Big, y)
    ensures x == y
  {
    hide Bytes;
  }

  /** Only 0 and 65535 are not told apart by that. */
  lemma BytesSwapped(l: nat, b: nat)
    requires l < 65536 && b < 65536
    ensures Bytes(Little, l) == Bytes(Big, b) <==> Exchanged(l, b) && (l == 0 <==> b == 0)
  {
    hide Bytes, Swap;
    SameWhenLess(256 * l - b, b - Swap(l), l / 256);
    if Bytes(Little, l) == Bytes(Big, b) {
      SameBytes(Swap(l), b);
    }
  }

  /** What is left of 256 times the one sum less the other once the carries out of 32 bits are lost. */
  lemma CarriesSwapped(b: seq<Byte>)
    requires |b| % 2 == 0
    ensures
      var l, g := Sum(Little, b), Sum(Big, b);
      Exchanged(Residue(Wrap(l)), Residue(Wrap(g))) <==> Exchanged(Lost(l), Lost(g))
  {
    hide Residue, Sum, Wrap, Lost;
    var l, g := Sum(Little, b), Sum(Big, b);
    var k := SumsSwapped(b);
    var m := ResidueApart(Wrap(l));
    var n := ResidueApart(Wrap(g));
    var left: int := 256 * Residue(Wrap(l)) - Residue(Wrap(g));
    var lost: int := 256 * Lost(l) - Lost(g);
    SameWhenLess(left, lost, k - 256 * m + n - 65537 * lost);
  }

  lemma ValueIsResidue(sum: int)
    ensures Value16(sum) == 65535 - Residue(Wrap(sum))
  {
    hide Residue;
    FoldIsResidue(Wrap(sum));
  }

  /** For an even length the bytes stored are those a host of the other byte order stores if and only if
      the carries lost on both are alike. */
  lemma OrderIndependentExactly(b: seq<Byte>)
    requires |b| % 2 == 0
    ensures
      var l, g := Sum(Little, b), Sum(Big, b);
      Bytes(Little, Value16(l)) == Bytes(Big, Value16(g))
      <==> Exchanged(Lost(l), Lost(g)) && (Wrap(l) == 0 <==> Wrap(g) == 0)
  {
    hide Residue, Value16, Sum, Bytes, Word, Wrap, Exchanged, Lost;
    var l, g := Sum(Little, b), Sum(Big, b);
    ValueIsResidue(l);
    ValueIsResidue(g);
    CarriesSwapped(b);
    BytesSwapped(Residue(Wrap(l)), Residue(Wrap(g)));
    BothComplemented(Residue(Wrap(l)), Residue(Wrap(g)));
  }

  lemma BothComplemented(l: nat, b: nat)
    requires l < 65536 && b < 65536
    ensures Bytes(Little, 65535 - l) == Bytes(Big, 65535 - b) <==> Bytes(Little, l) == Bytes(Big, b)
  {
    hide Bytes;
    if Bytes(Little, l) == Bytes(Big, b) {
      Complemented(l, b);
    }
    if Bytes(Little, 65535 - l) == Bytes(Big, 65535 - b) {
      Complemented(65535 - l, 65535 - b);
    }
  }

  /** Up to 131074 bytes no carry is lost, and both hosts store the same bytes. */
  lemma OrderIndependent(b: seq<Byte>)
    requires |b| % 2 == 0 && |b| <= 131074
    ensures Bytes(Little, Value16(Sum(Little, b))) == Bytes(Big, Value16(Sum(Big, b)))
  {
    hide Value16, Sum, Bytes, Word;
    SumBound(Little, b);
    SumBound(Big, b);
    var k := SumsSwapped(b);
    OrderIndependentExactly(b);
  }

  lemma {:induction false} SumOfFull(order: Order, b: seq<Byte>)
    requires |b| % 2 == 0 && forall i :: 0 <= i < |b| ==> b[i] == 255
    ensures Sum(order, b) == 65535 * (|b| / 2)
    decreases |b|
  {
    if |b| > 0 {
      SumOfFull(order, b[2..]);
    }
  }

  /** Two bytes more, and they need not: on 131076 bytes 255 each host loses one carry. */
  lemma OrderMatters(b: seq<Byte>)
    requires |b| == 131076 && forall i :: 0 <= i < |b| ==> b[i] == 255
    ensures Bytes(Little, Value16(Sum(Little, b))) != Bytes(Big, Value16(Sum(Big, b)))
  {
    hide Value16, Sum, Bytes, Word;
    SumOfFull(Little, b);
    SumOfFull(Big, b);
    assert Lost(Sum(Little, b)) == Lost(Sum(Big, b)) == 1;
    OrderIndependentExactly(b);
  }

  lemma Complemented(l: nat, b: nat)
    requires l < 65536 && b < 65536 && Bytes(Little, l) == Bytes(Big, b)
    ensures Bytes(Little, 65535 - l) == Bytes(Big, 65535 - b)
  {
    SplitComplement(l);
    SplitComplement(b);
  }

  lemma SplitComplement(x: nat)
    requires x < 65536
    ensures (65535 - x) % 256 == 255 - x % 256 && (65535 - x) / 256 == 255 - x / 256
  {
    assert 65535 - x == 256 * (255 - x / 256) + (255 - x % 256);
  }

  // ----- the class ----------------------------------------------------------------------------------

  class CheckSum {
    var sum: int

    constructor ()
      ensures sum == 0
    {
      sum := 0;
    }

    method Clear()
      modifies this
      ensures sum == 0
    {
      sum := 0;
    }

    /** `doIpCheckSum` adds the words of the first `length` bytes. */
    method DoIpCheckSum(order: Order, buf: array<Byte>, length: nat)
      requires length <= buf.Length
      modifies this
      ensures sum == Signed(old(sum) + Sum(order, buf[..length])) || length == 0
      ensures length == 0 ==> sum == old(sum)
    {
      hide Word, Wrap;
      ghost var start := sum;
      ghost var all := buf[..length];
      var at, left := 0, length;
      ghost var added := 0;
      while left > 1
        invariant at + left == length && added + Sum(order, all[at..]) == Sum(order, all)
        invariant if at == 0 then sum == start && added == 0 else sum == Signed(start + added)
      {
        Adds(start + added, Word(order, buf[at], buf[at + 1]));
        assert all[at..][2..] == all[at + 2..];
        added := added + Word(order, buf[at], buf[at + 1]);
        sum := Signed(sum + Word(order, buf[at], buf[at + 1]));
        at, left := at + 2, left - 2;
      }
      if left == 1 {
        Adds(start + added, buf[at]);
        sum := Signed(sum + buf[at]);
      }
    }

    /** `value16`. */
    method DoValue16() returns (v: nat)
      ensures v == Value16(sum) && v < 65536
    {
      var fold: nat := Wrap(sum);
      while fold / 65536 != 0
        invariant Fold(fold) == Fold(Wrap(sum))
        decreases fold
      {
        fold := fold / 65536 + fold % 65536;
      }
      return 65535 - fold;
    }
  }

  /** Adding to the bits is adding to the number. */
  lemma Adds(x: int, w: int)
    ensures Signed(Signed(x) + w) == Signed(x + w)
    ensures Wrap(Signed(x)) == Wrap(x)
  {
  }
}
