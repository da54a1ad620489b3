/** The Mersenne Twister generator: an array rewritten in place refines an unbounded recurrence. */
module Random {

  import opened Shared

  const N: nat := 624
  const M: nat := 397

  function HiBit(u: bv32): (r: bv32) { u & 0x8000_0000 }
  function LoBit(u: bv32): (r: bv32) { u & 0x0000_0001 }
  function LoBits(u: bv32): (r: bv32) { u & 0x7fff_ffff }
  function MixBits(u: bv32, v: bv32): (r: bv32) { HiBit(u) | LoBits(v) }

  function Twist(m: bv32, s0: bv32, s1: bv32): (u: bv32) {
    m ^ (MixBits(s0, s1) >> 1) ^ ((0 - LoBit(s1)) & 0x9908_b0df)
  }

  /** The recurrence as MT19937 defines it: the mixed word times the matrix A, which is a shift and,
      for an odd word, the xor with A's last row. */
  lemma TwistIsMatrix(m: bv32, s0: bv32, s1: bv32)
    ensures var y := (s0 & 0x8000_0000) | (s1 & 0x7fff_ffff);
            Twist(m, s0, s1) == m ^ (if y & 1 == 1 then (y >> 1) ^ 0x9908_b0df else y >> 1)
  {
    assert s1 & 1 == 1 || s1 & 1 == 0;
    assert ((s0 & 0x8000_0000) | (s1 & 0x7fff_ffff)) & 1 == s1 & 1;
    if s1 & 1 == 1 {
      assert (0 - LoBit(s1)) & 0x9908_b0df == 0x9908_b0df;
    } else {
      assert (0 - LoBit(s1)) & 0x9908_b0df == 0;
    }
  }

  /** So the terms follow MT19937's recurrence of degree 624 with middle term 397. */
  lemma Recurrence(seed: bv32, k: nat)
    ensures
      var y := (X(seed, k) & 0x8000_0000) | (X(seed, k + 1) & 0x7fff_ffff);
      X(seed, k + 624) == X(seed, k + 397) ^ (if y & 1 == 1 then (y >> 1) ^ 0x9908_b0df else y >> 1)
  {
    hide Twist;
    TwistIsMatrix(X(seed, k + 397), X(seed, k), X(seed, k + 1));
    assert X(seed, k + 624) == Twist(X(seed, k + 397), X(seed, k), X(seed, k + 1));
  }

  /** One step of the seeding loop, at index `i`. */
  function SeedStep(previous: bv32, i: nat): (u: bv32)
    requires i < N
  {
    Times(Mixed(previous)) + (i as bv32)
  }

  function Mixed(p: bv32): (u: bv32) { p ^ (p >> 30) }
  function Times(x: bv32): (u: bv32) { 1812433253 * x }

  /** The infinite sequence behind the generator. */
  function X(seed: bv32, i: nat): (u: bv32) {
    if i == 0 then seed
    else if i < N then SeedStep(X(seed, i - 1), i)
    else Twist(X(seed, i - N + M), X(seed, i - N), X(seed, i - N + 1))
  }

  /** The four tempering assignments of `randomInt`. */
  function Temper1(s: bv32): (u: bv32) { Xor(s, Right11(s)) }
  function Temper2(s: bv32): (u: bv32) { s ^ ((s << 7) & 0x9d2c_5680) }
  function Temper3(s: bv32): (u: bv32) { s ^ ((s << 15) & 0xefc6_0000) }
  function Temper4(s: bv32): (u: bv32) { Xor(s, Right18(s)) }

  function Xor(a: bv32, b: bv32): (u: bv32) { a ^ b }
  function Right11(s: bv32): (u: bv32) { s >> 11 }
  function Right18(s: bv32): (u: bv32) { s >> 18 }

  function Temper(s: bv32): (u: bv32) {
    Temper4(Temper3(Temper2(Temper1(s))))
  }

  class Generator {
    const values: array<bv32>
    var next: nat
    var remaining: nat
    ghost const seed: bv32
    ghost var drawn: nat

    /** The array holds the generation of the sequence the next draw comes from. */
    ghost predicate Valid()
      reads this, values
    {
      && values.Length == N
      && remaining <= N && next == N - remaining
      && Holds(values[..], seed, drawn + N - next)
      && next <= drawn
    }

    constructor (seed: bv32)
      ensures Valid() && this.seed == seed && drawn == 0 && fresh(values)
    {
      values := new bv32[N];
      this.seed := seed;
      next, remaining, drawn := 0, 0, 0;
      new;
      Initialize(seed);
    }

    method Initialize(first: bv32)
      requires values.Length == N && first == seed
      modifies this, values
      ensures Valid() && drawn == 0
    {
      hide SeedStep, Twist;
      values[0] := first;
      var r := 0;
      for i := 1 to N
        invariant r == i - 1
        invariant forall k :: 0 <= k < i ==> values[k] == X(seed, k)
      {
        values[i] := SeedStep(values[r], i);
        r := r + 1;
      }
      assert Holds(values[..], seed, 0);
      Reload(0);
      drawn := 0;
    }

    /** The in-place reload: from terms base..base+N of the sequence to the next N. */
    method Reload(ghost base: nat)
      requires values.Length == N && Holds(values[..], seed, base)
      modifies this, values
      ensures Holds(values[..], seed, base + N)
      ensures remaining == N && next == 0 && drawn == old(drawn)
    {
      hide Twist, X, Half;
      var p := 0;
      var i := N - M;
      HalfStart(values[..], seed, base);
      while i > 0
        invariant 0 <= i && i + p == N - M && drawn == old(drawn)
        invariant Half(values[..], seed, base, p)
      {
        TwistTerm(values[..], seed, base, p);
        ghost var was := values[..];
        values[p] := Twist(values[p + M], values[p], values[p + 1]);
        HalfStep(was, values[..], seed, base, p);
        i, p := i - 1, p + 1;
      }
      i := M - 1;
      while i > 0
        invariant 0 <= i && i + p == N - 1 && p >= N - M && drawn == old(drawn)
        invariant Half(values[..], seed, base, p)
      {
        TwistTerm(values[..], seed, base, p);
        ghost var was := values[..];
        values[p] := Twist(values[p + M - N], values[p], values[p + 1]);
        HalfStep(was, values[..], seed, base, p);
        i, p := i - 1, p + 1;
      }
      TwistTerm(values[..], seed, base, p);
      ghost var was := values[..];
      values[p] := Twist(values[p + M - N], values[p], values[0]);
      HalfStep(was, values[..], seed, base, p);
      HalfEnd(values[..], seed, base);
      remaining, next := N, 0;
    }

    /** The k-th call, counting from 0, returns the tempered term N + k of the sequence. */
    method RandomInt() returns (r: bv32)
      requires Valid()
      modifies this, values
      ensures Valid() && drawn == old(drawn) + 1
      ensures r == Temper(X(seed, N + old(drawn)))
    {
      hide X, Temper1, Temper2, Temper3, Temper4;
      if remaining == 0 {
        Reload(drawn);
      }
      remaining := remaining - 1;
      assert values[next] == values[..][next];
      var s1 := values[next];
      next := next + 1;
      drawn := drawn + 1;
      s1 := Temper1(s1);
      s1 := Temper2(s1);
      s1 := Temper3(s1);
      r := Temper4(s1);
    }

    /** A draw from 0..n.  The source draws until a masked value is small enough; `tries` bounds how
        often.  None means every one of that many draws was too large. */
    method RandomIntUpTo(n: bv32, tries: nat) returns (r: Option<bv32>)
      requires Valid()
      modifies this, values
      ensures Valid()
      ensures old(drawn) <= drawn <= old(drawn) + tries
      ensures forall k :: old(drawn) <= k < (if r.None? then drawn else drawn - 1) ==> TooLarge(Draw(seed, k, n), n)
      ensures r.None? ==> drawn == old(drawn) + tries
      ensures r.Some? ==> drawn > 0 && r.value <= n && r.value == Temper(X(seed, N + drawn - 1)) & Smear(n)
      ensures r.Some? ==> drawn > old(drawn) && !TooLarge(r.value, n) && r.value == Draw(seed, drawn - 1, n)
    {
      hide X, Temper, Smear, Draw, TooLarge, Valid;
      var used := DoSmear(n);
      var left := tries;
      while left > 0
        invariant Valid() && 0 <= left <= tries && drawn == old(drawn) + tries - left
        invariant forall k :: old(drawn) <= k < drawn ==> TooLarge(Draw(seed, k, n), n)
      {
        var i := MaskedInt(n, used);
        if !TooLarge(i, n) {
          NotTooLarge(i, n);
          DrawIsMasked(seed, drawn - 1, n);
          return Some(i);
        }
        left := left - 1;
      }
      return None;
    }

    method MaskedInt(ghost n: bv32, used: bv32) returns (i: bv32)
      requires Valid() && used == Smear(n)
      modifies this, values
      ensures Valid() && drawn == old(drawn) + 1 && i == Draw(seed, old(drawn), n)
    {
      hide X, Temper, Smear, Valid;
      i := RandomInt();
      i := i & used;
    }
  }

  /** The first `k` numbers of a generator, for any seed and any number of reloads on the way. */
  method FirstNumbers(seed: bv32, k: nat) returns (numbers: seq<bv32>)
    ensures |numbers| == k && forall i :: 0 <= i < k ==> numbers[i] == Temper(X(seed, N + i))
  {
    hide X, Temper, Generator.Valid;
    var g := new Generator(seed);
    numbers := [];
    for d := 0 to k
      invariant g.Valid() && g.seed == seed && g.drawn == d == |numbers| && fresh(g) && fresh(g.values)
      invariant forall i :: 0 <= i < d ==> numbers[i] == Temper(X(seed, N + i))
    {
      var r := g.RandomInt();
      numbers := numbers + [r];
    }
  }

  /** The loop condition of `randomInt(n)`. */
  predicate TooLarge(i: bv32, n: bv32) {
    i > n
  }

  lemma NotTooLarge(i: bv32, n: bv32)
    requires !TooLarge(i, n)
    ensures i <= n
  {
  }

  ghost predicate Holds(values: seq<bv32>, seed: bv32, base: nat)
  {
    |values| == N && forall k :: 0 <= k < N ==> values[k] == X(seed, base + k)
  }

  /** Cells before `p` hold the next generation, cells from `p` on still this one. */
  ghost predicate Half(values: seq<bv32>, seed: bv32, base: nat, p: nat)
  {
    |values| == N && p <= N &&
    forall k :: 0 <= k < N ==> values[k] == X(seed, if k < p then base + N + k else base + k)
  }

  lemma HalfStart(values: seq<bv32>, seed: bv32, base: nat)
    requires Holds(values, seed, base)
    ensures Half(values, seed, base, 0)
  {
    hide X;
  }

  lemma HalfStep(was: seq<bv32>, now: seq<bv32>, seed: bv32, base: nat, p: nat)
    requires Half(was, seed, base, p) && p < N && now == was[p := X(seed, base + N + p)]
    ensures Half(now, seed, base, p + 1)
  {
    hide X;
  }

  lemma HalfEnd(values: seq<bv32>, seed: bv32, base: nat)
    requires Half(values, seed, base, N)
    ensures Holds(values, seed, base + N)
  {
    hide X;
  }

  /** The three cells a reload step reads are exactly the terms the recurrence asks for: the one M
      ahead has been rewritten once it lies behind, and the last step's successor is cell 0. */
  lemma TwistTerm(values: seq<bv32>, seed: bv32, base: nat, p: nat)
    requires p < N && Half(values, seed, base, p)
    ensures var m := if p < N - M then p + M else p + M - N;
            var s := if p == N - 1 then 0 else p + 1;
            X(seed, base + N + p) == Twist(values[m], values[p], values[s])
  {
    hide Twist, SeedStep;
    var m := if p < N - M then p + M else p + M - N;
    var s := if p == N - 1 then 0 else p + 1;
    assert values[m] == X(seed, base + p + M);
    assert values[p] == X(seed, base + p);
    assert values[s] == X(seed, base + p + 1);
  }

  // ----- tempering is a bijection -----------------------------------------------------------------

  function Untemper1(t: bv32): (u: bv32) {
    Xor(t, Right11(Xor(t, Right11(t))))
  }

  function Untemper2(t: bv32): (u: bv32) {
    var a := t ^ ((t << 7) & 0x9d2c_5680);
    var b := t ^ ((a << 7) & 0x9d2c_5680);
    var c := t ^ ((b << 7) & 0x9d2c_5680);
    t ^ ((c << 7) & 0x9d2c_5680)
  }

  function Untemper(t: bv32): (u: bv32) {
    Untemper1(Untemper2(Temper3(Temper4(t))))
  }

  /** Shifts distribute over xor, and enough of them shift everything out. */
  lemma RightLinear(a: bv32, b: bv32)
    ensures Right11(Xor(a, b)) == Xor(Right11(a), Right11(b))
    ensures Right18(Xor(a, b)) == Xor(Right18(a), Right18(b))
  {
  }

  lemma RightVanishes(a: bv32)
    ensures Right11(Right11(Right11(a))) == 0
    ensures Right18(Right18(a)) == 0
  {
  }

  lemma XorLaws(a: bv32, b: bv32, c: bv32)
    ensures Xor(Xor(a, b), b) == a && Xor(a, 0) == a
    ensures Xor(Xor(a, b), Xor(b, c)) == Xor(a, c)
  {
  }

  lemma Stage1Undone(s: bv32)
    ensures Untemper1(Temper1(s)) == s
  {
    hide Right11, Xor;
    var a := Right11(s);
    var b := Right11(a);
    RightLinear(s, a);
    XorLaws(s, a, b);
    RightLinear(s, b);
    RightVanishes(s);
    XorLaws(a, b, b);
  }

  lemma Stage1Redone(s: bv32)
    ensures Temper1(Untemper1(s)) == s
  {
    hide Right11, Xor;
    var a := Right11(s);
    var b := Right11(a);
    var c := Xor(a, b);
    RightLinear(s, a);
    RightLinear(s, c);
    RightLinear(a, b);
    RightVanishes(s);
    XorLaws(b, a, a);
    XorLaws(s, c, c);
  }

  lemma Stage2(s: bv32)
    ensures Untemper2(Temper2(s)) == s && Temper2(Untemper2(s)) == s
  {
  }

  /** The last two stages are their own inverses. */
  lemma Stage3(s: bv32)
    ensures Temper3(Temper3(s)) == s
  {
  }

  lemma Stage4(s: bv32)
    ensures Temper4(Temper4(s)) == s
  {
    hide Right18, Xor;
    var x := Right18(s);
    RightLinear(s, x);
    RightVanishes(s);
    XorLaws(x, x, x);
    XorLaws(s, x, x);
  }

  lemma TemperBijective(s: bv32)
    ensures Untemper(Temper(s)) == s && Temper(Untemper(s)) == s
  {
    hide Temper1, Temper2, Temper3, Temper4, Untemper1, Untemper2;
    Stage1Undone(s);
    Stage2(Temper1(s));
    Stage3(Temper2(Temper1(s)));
    Stage4(Temper3(Temper2(Temper1(s))));
    var t4 := Temper4(s);
    Stage1Redone(Untemper2(Temper3(t4)));
    Stage2(Temper3(t4));
    Stage3(t4);
    Stage4(s);
  }

  // ----- what tempering and seeding compute ---------------------------------------------------------

  /** Tempering is a linear map of words taken as vectors of bits, */
  lemma TemperLinear(a: bv32, b: bv32)
    ensures Temper(Xor(a, b)) == Xor(Temper(a), Temper(b))
  {
    hide Temper1, Temper2, Temper3, Temper4, Xor;
    OuterLinear(a, b);
    MiddleLinear(Temper1(a), Temper1(b));
    MiddleLinear(Temper2(Temper1(a)), Temper2(Temper1(b)));
    OuterLinear(Temper3(Temper2(Temper1(a))), Temper3(Temper2(Temper1(b))));
  }

  lemma OuterLinear(a: bv32, b: bv32)
    ensures Temper1(Xor(a, b)) == Xor(Temper1(a), Temper1(b))
    ensures Temper4(Xor(a, b)) == Xor(Temper4(a), Temper4(b))
  {
    hide Right11, Right18, Xor;
    RightLinear(a, b);
    XorSwaps(a, b, Right11(a), Right11(b));
    XorSwaps(a, b, Right18(a), Right18(b));
  }

  function Left7(s: bv32): (u: bv32) { (s << 7) & 0x9d2c_5680 }
  function Left15(s: bv32): (u: bv32) { (s << 15) & 0xefc6_0000 }

  lemma MiddleLinear(a: bv32, b: bv32)
    ensures Temper2(Xor(a, b)) == Xor(Temper2(a), Temper2(b))
    ensures Temper3(Xor(a, b)) == Xor(Temper3(a), Temper3(b))
  {
    hide Temper2, Temper3, Left7, Left15, Xor;
    SecondParts(a);
    SecondParts(b);
    SecondParts(Xor(a, b));
    ThirdParts(a);
    ThirdParts(b);
    ThirdParts(Xor(a, b));
    LeftLinear(a, b);
    XorSwaps(a, b, Left7(a), Left7(b));
    XorSwaps(a, b, Left15(a), Left15(b));
  }

  lemma SecondParts(s: bv32)
    ensures Temper2(s) == Xor(s, Left7(s))
  {
  }

  lemma ThirdParts(s: bv32)
    ensures Temper3(s) == Xor(s, Left15(s))
  {
    assert Left15(s) == (s << 15) & 0xefc6_0000;
  }

  lemma LeftLinear(a: bv32, b: bv32)
    ensures Left7(Xor(a, b)) == Xor(Left7(a), Left7(b))
    ensures Left15(Xor(a, b)) == Xor(Left15(a), Left15(b))
  {
  }

  lemma XorTurns(a: bv32, b: bv32, c: bv32)
    ensures Xor(Xor(a, b), c) == Xor(a, Xor(b, c)) && Xor(a, b) == Xor(b, a)
  {
  }

  lemma XorSwaps(a: bv32, b: bv32, c: bv32, d: bv32)
    ensures Xor(Xor(a, b), Xor(c, d)) == Xor(Xor(a, c), Xor(b, d))
  {
    hide Xor;
    XorTurns(a, b, Xor(c, d));
    XorTurns(b, c, d);
    XorTurns(c, b, d);
    XorTurns(a, c, Xor(b, d));
  }

  /** and these are the columns of its matrix, so the two say what it makes of every word. */
  lemma TemperColumns()
    ensures Temper(0x0000_0001) == 0x0040_0091
    ensures Temper(0x0000_0002) == 0x0000_0002
    ensures Temper(0x0000_0004) == 0x0102_0244
    ensures Temper(0x0000_0008) == 0x0204_0489
    ensures Temper(0x0000_0010) == 0x0000_0010
    ensures Temper(0x0000_0020) == 0x0800_1220
    ensures Temper(0x0000_0040) == 0x0000_0040
    ensures Temper(0x0000_0080) == 0x2040_4890
    ensures Temper(0x0000_0100) == 0x0080_0120
    ensures Temper(0x0000_0200) == 0x0100_0240
    ensures Temper(0x0000_0400) == 0x0200_0480
    ensures Temper(0x0000_0800) == 0x0444_0990
    ensures Temper(0x0000_1000) == 0x0808_1200
    ensures Temper(0x0000_2000) == 0x0102_2244
    ensures Temper(0x0000_4000) == 0x2224_4c81
    ensures Temper(0x0000_8000) == 0x4000_9010
    ensures Temper(0x0001_0000) == 0x8801_3220
    ensures Temper(0x0002_0000) == 0x0102_0000
    ensures Temper(0x0004_0000) == 0x2044_4891
    ensures Temper(0x0008_0000) == 0x0488_0022
    ensures Temper(0x0010_0000) == 0x0910_0044
    ensures Temper(0x0020_0000) == 0x1220_0088
    ensures Temper(0x0040_0000) == 0x0444_0911
    ensures Temper(0x0080_0000) == 0x0888_1222
    ensures Temper(0x0100_0000) == 0x8100_0040
    ensures Temper(0x0200_0000) == 0x2220_4888
    ensures Temper(0x0400_0000) == 0x4400_9100
    ensures Temper(0x0800_0000) == 0x8801_2200
    ensures Temper(0x1000_0000) == 0x1102_0440
    ensures Temper(0x2000_0000) == 0x2004_0801
    ensures Temper(0x4000_0000) == 0x4408_1102
    ensures Temper(0x8000_0000) == 0x8810_2204
  {
    LowColumns();
    HighColumns();
    hide Temper;
  }

  lemma LowColumns()
    ensures Temper(0x0000_0001) == 0x0040_0091
    ensures Temper(0x0000_0002) == 0x0000_0002
    ensures Temper(0x0000_0004) == 0x0102_0244
    ensures Temper(0x0000_0008) == 0x0204_0489
    ensures Temper(0x0000_0010) == 0x0000_0010
    ensures Temper(0x0000_0020) == 0x0800_1220
    ensures Temper(0x0000_0040) == 0x0000_0040
    ensures Temper(0x0000_0080) == 0x2040_4890
    ensures Temper(0x0000_0100) == 0x0080_0120
    ensures Temper(0x0000_0200) == 0x0100_0240
    ensures Temper(0x0000_0400) == 0x0200_0480
    ensures Temper(0x0000_0800) == 0x0444_0990
    ensures Temper(0x0000_1000) == 0x0808_1200
    ensures Temper(0x0000_2000) == 0x0102_2244
    ensures Temper(0x0000_4000) == 0x2224_4c81
    ensures Temper(0x0000_8000) == 0x4000_9010
  {
  }

  lemma HighColumns()
    ensures Temper(0x0001_0000) == 0x8801_3220
    ensures Temper(0x0002_0000) == 0x0102_0000
    ensures Temper(0x0004_0000) == 0x2044_4891
    ensures Temper(0x0008_0000) == 0x0488_0022
    ensures Temper(0x0010_0000) == 0x0910_0044
    ensures Temper(0x0020_0000) == 0x1220_0088
    ensures Temper(0x0040_0000) == 0x0444_0911
    ensures Temper(0x0080_0000) == 0x0888_1222
    ensures Temper(0x0100_0000) == 0x8100_0040
    ensures Temper(0x0200_0000) == 0x2220_4888
    ensures Temper(0x0400_0000) == 0x4400_9100
    ensures Temper(0x0800_0000) == 0x8801_2200
    ensures Temper(0x1000_0000) == 0x1102_0440
    ensures Temper(0x2000_0000) == 0x2004_0801
    ensures Temper(0x4000_0000) == 0x4408_1102
    ensures Temper(0x8000_0000) == 0x8810_2204
  {
  }

  /** What the seeding loop makes of zero and of the single bits. */
  lemma SeedStepColumns(i: nat)
    requires i < N
    ensures SeedStep(0, i) == i as bv32
    ensures SeedStep(0x0000_0001, 0) == 0x6c07_8965
    ensures SeedStep(0x0000_0002, 0) == 0xd80f_12ca
    ensures SeedStep(0x0000_0004, 0) == 0xb01e_2594
    ensures SeedStep(0x0000_0008, 0) == 0x603c_4b28
    ensures SeedStep(0x0000_0010, 0) == 0xc078_9650
    ensures SeedStep(0x0000_0020, 0) == 0x80f1_2ca0
    ensures SeedStep(0x0000_0040, 0) == 0x01e2_5940
    ensures SeedStep(0x0000_0080, 0) == 0x03c4_b280
    ensures SeedStep(0x0000_0100, 0) == 0x0789_6500
    ensures SeedStep(0x0000_0200, 0) == 0x0f12_ca00
    ensures SeedStep(0x0000_0400, 0) == 0x1e25_9400
    ensures SeedStep(0x0000_0800, 0) == 0x3c4b_2800
    ensures SeedStep(0x0000_1000, 0) == 0x7896_5000
    ensures SeedStep(0x0000_2000, 0) == 0xf12c_a000
    ensures SeedStep(0x0000_4000, 0) == 0xe259_4000
    ensures SeedStep(0x0000_8000, 0) == 0xc4b2_8000
    ensures SeedStep(0x0001_0000, 0) == 0x8965_0000
    ensures SeedStep(0x0002_0000, 0) == 0x12ca_0000
    ensures SeedStep(0x0004_0000, 0) == 0x2594_0000
    ensures SeedStep(0x0008_0000, 0) == 0x4b28_0000
    ensures SeedStep(0x0010_0000, 0) == 0x9650_0000
    ensures SeedStep(0x0020_0000, 0) == 0x2ca0_0000
    ensures SeedStep(0x0040_0000, 0) == 0x5940_0000
    ensures SeedStep(0x0080_0000, 0) == 0xb280_0000
    ensures SeedStep(0x0100_0000, 0) == 0x6500_0000
    ensures SeedStep(0x0200_0000, 0) == 0xca00_0000
    ensures SeedStep(0x0400_0000, 0) == 0x9400_0000
    ensures SeedStep(0x0800_0000, 0) == 0x2800_0000
    ensures SeedStep(0x1000_0000, 0) == 0x5000_0000
    ensures SeedStep(0x2000_0000, 0) == 0xa000_0000
    ensures SeedStep(0x4000_0000, 0) == 0xac07_8965
    ensures SeedStep(0x8000_0000, 0) == 0x580f_12ca
  {
  }

  /** The first terms for the seed 5489, which MT19937 starts from unless told otherwise. */
  lemma FirstTerms()
    ensures X(5489, 1) == 1301868182 && X(5489, 2) == 2938499221 && X(5489, 3) == 2950281878 && X(5489, 4) == 1875628136
  {
  }

  // ----- rejection sampling -------------------------------------------------------------------------

  /** The mask `used` of `randomInt(n)`. */
  function Smear(n: bv32): (u: bv32) {
    var a := n | (n >> 1);
    var b := a | (a >> 2);
    var c := b | (b >> 4);
    var d := c | (c >> 8);
    d | (d >> 16)
  }

  method DoSmear(n: bv32) returns (used: bv32)
    ensures used == Smear(n)
  {
    used := n;
    used := used | (used >> 1);
    used := used | (used >> 2);
    used := used | (used >> 4);
    used := used | (used >> 8);
    used := used | (used >> 16);
  }

  /** The masked k-th number. */
  function Draw(seed: bv32, k: nat, n: bv32): (u: bv32) {
    Temper(X(seed, N + k)) & Smear(n)
  }

  lemma DrawIsMasked(seed: bv32, k: nat, n: bv32)
    ensures Draw(seed, k, n) == Temper(X(seed, N + k)) & Smear(n)
  {
    hide Temper, X, Smear;
  }

  /** The mask is the least number of the form 2^k - 1 that is not below `n`. */
  lemma MaskIsLeast(n: bv32, other: bv32)
    ensures n <= Smear(n) && Smear(n) & (Smear(n) + 1) == 0
    ensures n <= other && other & (other + 1) == 0 ==> Smear(n) <= other
  {
  }

  /** Every value of 0..n survives the mask and is accepted, and no other is; more than half of the masked
      values are. */
  lemma MaskAccepts(n: bv32, v: bv32)
    ensures v <= n ==> v & Smear(n) == v
    ensures !TooLarge(v, n) <==> v <= n
    ensures Smear(n) >> 1 < n || (n == 0 && Smear(n) == 0)
  {
  }
}
