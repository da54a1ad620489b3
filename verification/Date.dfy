/** Gregorian dates and julian day numbers: two unrelated closed formulas, the month tables and the
    leap rule, and the calendar they agree on. */
module Date {

  import opened Shared

  /** Division of C: it truncates toward zero. */
  function CDiv(a: int, b: int): (n: int)
    requires b > 0
  {
    if a >= 0 then a / b else -((-a) / b)
  }

  predicate Int32(x: int) { -0x8000_0000 <= x < 0x8000_0000 }

  /** `_update_julian`. */
  function Julian(y: int, m: int, d: int): (n: int) {
    d - 32075 + CDiv(1461 * (y + 4800 + CDiv(m - 14, 12)), 4)
      + CDiv(367 * (m - 2 - CDiv(m - 14, 12) * 12), 12)
      - CDiv(3 * CDiv(y + 4900 + CDiv(m - 14, 12), 100), 4)
  }

  datatype Ymd = Ymd(year: int, month: int, day: int)

  /** `_update_ymd`: every intermediate (A, B, C, D, E, M in the source) is unsigned and wraps. */
  function FromJulian(julian: int): (date: Ymd) {
    var a := Wrap(julian + 32045);
    var b := BOf(a);
    var c := Wrap(a - Wrap(146097 * b) / 4);
    var d := DOf(c);
    YmdOf(b, d, Wrap(c - Wrap(1461 * d) / 4))
  }

  function BOf(a: int): (n: int) { Wrap(Wrap(4 * (a + 36524)) / 146097 - 1) }

  function DOf(c: int): (n: int) { Wrap(Wrap(4 * (c + 365)) / 1461 - 1) }

  /** The three stores at the end; `_month` and `_day` keep eight bits. */
  function YmdOf(b: int, d: int, e: int): (date: Ymd) {
    var m := Wrap(5 * (e - 1) + 2) / 153;
    Ymd(Signed(100 * b + d - 4800 + m / 10), Wrap(m + 3 - 12 * (m / 10)) % 256,
        Wrap(e - Wrap(153 * m + 2) / 5) % 256)
  }

  predicate IsLeap(y: int) {
    (y % 4 == 0 && y % 100 != 0) || y % 400 == 0
  }

  /** The calendar's month lengths, by rule. */
  function DaysInMonth(y: int, m: int): (n: int)
    requires 1 <= m <= 12
  {
    if m == 2 then (if IsLeap(y) then 29 else 28)
    else if m == 4 || m == 6 || m == 9 || m == 11 then 30
    else 31
  }

  predicate Valid(x: Ymd) {
    1 <= x.month <= 12 && 1 <= x.day <= DaysInMonth(x.year, x.month)
  }

  // ----- the calendar counted from 1 March of the year -4800 ----------------------------------------

  /** Days before March-year `y`, counted from the start of March-year 0. */
  function YearStart(y: int): (n: int) {
    365 * y + y / 4 - y / 100 + y / 400
  }

  /** Days before the month that comes `k` months after March. */
  function MonthStart(k: int): (n: int) {
    (153 * k + 2) / 5
  }

  /** The March-year of a date and its months since March. */
  function MarchYear(x: Ymd): (n: int) {
    if x.month <= 2 then x.year + 4799 else x.year + 4800
  }

  function MarchMonth(x: Ymd): (n: int) {
    if x.month <= 2 then x.month + 9 else x.month - 3
  }

  /** The number of days from 1 March -4800 to a date. */
  function Days(x: Ymd): (n: int) {
    YearStart(MarchYear(x)) + MonthStart(MarchMonth(x)) + x.day - 1
  }

  /** Fliegel and van Flandern's formula counts those days. */
  lemma JulianIsDays(x: Ymd)
    requires 1 <= x.month <= 12 && MarchYear(x) >= 0
    ensures Julian(x.year, x.month, x.day) == Days(x) - 32044
  {
    var y, k := MarchYear(x), MarchMonth(x);
    var a := if x.month <= 2 then -1 else 0;
    assert CDiv(x.month - 14, 12) == a;
    assert 1461 * y / 4 == 365 * y + y / 4;
    assert 367 * (k + 1) / 12 == MonthStart(k) + 30;
    assert (y + 100) / 100 == y / 100 + 1;
    assert 3 * (y / 100 + 1) / 4 == y / 100 - y / 100 / 4;
    assert y / 100 / 4 == y / 400;
  }

  // ----- the day numbers taken apart again ----------------------------------------------------------

  /** The century that day `n` after 1 March -4800 falls in, and the days before a century. */
  function Century(n: int): (r: int) { (4 * n + 3) / 146097 }

  function CenturyStart(b: int): (n: int) { 146097 * b / 4 }

  /** The year of the century that its day `c` falls in, and the days before a year of a century. */
  function YearIn(c: int): (n: int) { (4 * c + 3) / 1461 }

  function YearInStart(d: int): (n: int) { 1461 * d / 4 }

  /** The month since March that day `e` of a March-year falls in. */
  function MonthIn(e: int): (n: int) { (5 * e + 2) / 153 }

  /** The date of the day `e` of the March-year `y`. */
  function OnDay(y: int, e: int): (date: Ymd) {
    var m := MonthIn(e);
    Ymd(y - 4800 + m / 10, m + 3 - 12 * (m / 10), e - MonthStart(m) + 1)
  }

  /** The first day that does not fit the unsigned arithmetic of `_update_ymd`. */
  const LIMIT := 1073705299

  lemma InCentury(n: int)
    requires n >= 0
    ensures 0 <= Century(n)
    ensures CenturyStart(Century(n)) <= n < CenturyStart(Century(n) + 1)
    ensures 0 <= n - CenturyStart(Century(n)) <= 36524
    ensures n - CenturyStart(Century(n)) == 36524 ==> Century(n) % 4 == 3
  {
  }

  lemma InYear(c: int)
    requires 0 <= c <= 36524
    ensures 0 <= YearIn(c) <= 99
    ensures 0 <= c - YearInStart(YearIn(c)) <= 365
    ensures c - YearInStart(YearIn(c)) == 365 ==> YearIn(c) % 4 == 3 && (YearIn(c) == 99 ==> c == 36524)
  {
  }

  lemma Small(x: int)
    requires 0 <= x < 0x1_0000_0000
    ensures Wrap(x) == x
  {
  }

  lemma SmallSigned(x: int)
    requires -0x8000_0000 <= x < 0x8000_0000
    ensures Signed(x) == x
  {
  }

  lemma Stages(n: int)
    requires 0 <= n < LIMIT
    ensures BOf(n + 1) == Century(n) && 0 <= Century(n) <= 29397
    ensures Wrap(146097 * Century(n)) / 4 == CenturyStart(Century(n))
  {
    hide Wrap;
    assert 4 * (n + 1 + 36524) / 146097 == Century(n) + 1;
    Small(4 * (n + 1 + 36524));
    Small(Century(n));
    Small(146097 * Century(n));
  }

  lemma YearStages(c: int)
    requires 0 <= c <= 36524
    ensures DOf(c + 1) == YearIn(c)
    ensures Wrap(1461 * YearIn(c)) / 4 == YearInStart(YearIn(c))
  {
    hide Wrap;
    assert 4 * (c + 1 + 365) / 1461 == YearIn(c) + 1;
    assert 0 <= YearIn(c) <= 99;
    Small(4 * (c + 1 + 365));
    Small(YearIn(c));
    Small(1461 * YearIn(c));
  }

  lemma InMonth(e: int)
    requires 0 <= e <= 365
    ensures 0 <= MonthIn(e) <= 11
    ensures 0 <= e - MonthStart(MonthIn(e)) <= 30
    ensures MonthIn(e) < 11 ==> e < MonthStart(MonthIn(e) + 1)
    ensures 1 <= OnDay(0, e).month <= 12
  {
  }

  lemma StoredMonth(e: int)
    requires 0 <= e <= 365
    ensures Wrap(5 * (e + 1 - 1) + 2) / 153 == MonthIn(e)
    ensures
      var m := MonthIn(e);
      Wrap(m + 3 - 12 * (m / 10)) % 256 == m + 3 - 12 * (m / 10)
  {
    hide Wrap;
    InMonth(e);
    Small(5 * e + 2);
    var m := MonthIn(e);
    Small(m + 3 - 12 * (m / 10));
    hide MonthIn;
    assert 0 <= m + 3 - 12 * (m / 10) < 256;
  }

  lemma StoredDay(e: int)
    requires 0 <= e <= 365
    ensures
      var m := MonthIn(e);
      Wrap(e + 1 - Wrap(153 * m + 2) / 5) % 256 == e - MonthStart(m) + 1
  {
    hide MonthIn, Wrap;
    InMonth(e);
    var m := MonthIn(e);
    Small(153 * m + 2);
    assert Wrap(153 * m + 2) / 5 == MonthStart(m);
    hide MonthStart;
    Small(e - MonthStart(m) + 1);
  }

  lemma Stores(y: int, e: int, b: int, d: int)
    requires 0 <= b <= 29397 && 0 <= d <= 99 && 0 <= e <= 365 && y == 100 * b + d
    ensures YmdOf(b, d, e + 1) == OnDay(y, e)
  {
    hide Wrap, Signed, MonthIn, MonthStart;
    InMonth(e);
    StoredMonth(e);
    StoredDay(e);
    SmallSigned(y - 4800 + MonthIn(e) / 10);
  }

  /** Inside the limit the formula takes the day number apart without wrapping. */
  lemma TakenApart(n: int)
    requires 0 <= n < LIMIT
    ensures
      var c := n - CenturyStart(Century(n));
      FromJulian(n - 32044) == OnDay(100 * Century(n) + YearIn(c), c - YearInStart(YearIn(c)))
  {
    hide BOf, DOf, YmdOf, OnDay, Century, YearIn, CenturyStart, YearInStart, Wrap;
    var b := Century(n);
    var c := n - CenturyStart(b);
    InCentury(n);
    Stages(n);
    InYear(c);
    YearStages(c);
    Small(n + 1);
    Small(c + 1);
    Small(c - YearInStart(YearIn(c)) + 1);
    Stores(100 * b + YearIn(c), c - YearInStart(YearIn(c)), b, YearIn(c));
  }

  lemma OnDayIsValid(b: int, d: int, e: int)
    requires 0 <= b && 0 <= d <= 99 && 0 <= e <= 365
    requires e == 365 ==> d % 4 == 3 && (d == 99 ==> b % 4 == 3)
    ensures
      var x := OnDay(100 * b + d, e);
      Valid(x) && MarchYear(x) == 100 * b + d && MarchMonth(x) == MonthIn(e)
      && x.day - 1 == e - MonthStart(MonthIn(e))
  {
    InMonth(e);
    var m := MonthIn(e);
    var x := OnDay(100 * b + d, e);
    assert x.month == if m < 10 then m + 3 else m - 9;
    if e == 365 {
      LeapAfter(b, d);
    }
    if m < 11 {
      assert m != 11 && x.day <= MonthStart(m + 1) - MonthStart(m);
    }
  }

  /** A March-year of 366 days ends in the February of a leap year. */
  lemma LeapAfter(b: int, d: int)
    requires 0 <= b && 0 <= d <= 99 && d % 4 == 3 && (d == 99 ==> b % 4 == 3)
    ensures IsLeap(100 * b + d - 4799)
  {
    var y := 100 * b + d - 4799;
    assert y % 4 == (d + 1) % 4;
    assert y % 100 == (d + 1) % 100;
    if d == 99 {
      assert b == 4 * (b / 4) + 3;
      assert y == 400 * (b / 4 - 11);
    }
  }

  lemma DaysOfParts(b: int, d: int)
    requires 0 <= b && 0 <= d <= 99
    ensures YearStart(100 * b + d) == CenturyStart(b) + YearInStart(d)
  {
    var y := 100 * b + d;
    assert y / 4 == 25 * b + d / 4;
    assert y / 100 == b;
    assert y / 400 == b / 4;
  }

  /** `_update_ymd` gives a valid date, and the one that many days after 1 March -4800. */
  lemma FromJulianCounts(j: int)
    requires -32044 <= j < LIMIT - 32044
    ensures Valid(FromJulian(j)) && MarchYear(FromJulian(j)) >= 0
    ensures Days(FromJulian(j)) == j + 32044
  {
    hide Century, YearIn, CenturyStart, YearInStart, FromJulian, OnDay, Valid;
    hide YearStart, MarchYear, MarchMonth, MonthStart, MonthIn;
    var n := j + 32044;
    TakenApart(n);
    InCentury(n);
    var b := Century(n);
    var c := n - CenturyStart(b);
    InYear(c);
    var d := YearIn(c);
    OnDayIsValid(b, d, c - YearInStart(d));
    DaysOfParts(b, d);
  }

  // ----- the order of dates -------------------------------------------------------------------------

  predicate Less(x: Ymd, y: Ymd) {
    x.year < y.year
    || (x.year == y.year && (x.month < y.month || (x.month == y.month && x.day < y.day)))
  }

  lemma YearStartGrows(a: int, b: int)
    requires a <= b
    ensures YearStart(a) <= YearStart(b)
  {
    assert a / 4 <= b / 4;
    assert a / 400 <= b / 400;
    assert b / 100 - a / 100 <= b - a + 1;
    if a < b {
      assert b / 100 - a / 100 <= b - a;
    }
  }

  /** February of March-year `y` has 29 days exactly when the next March-year starts 366 days later. */
  lemma YearLength(y: int)
    ensures YearStart(y + 1) == YearStart(y) + if IsLeap(y - 4799) then 366 else 365
  {
    var z := y + 1;
    assert (y - 4799) % 4 == z % 4 && (y - 4799) % 100 == z % 100 && (y - 4799) % 400 == z % 400;
    assert z / 4 == y / 4 + if z % 4 == 0 then 1 else 0;
    assert z / 100 == y / 100 + if z % 100 == 0 then 1 else 0;
    assert z / 400 == y / 400 + if z % 400 == 0 then 1 else 0;
    assert z % 400 == 0 ==> z % 100 == 0;
    assert z % 100 == 0 ==> z % 4 == 0;
  }

  lemma WithinYear(x: Ymd)
    requires Valid(x)
    ensures YearStart(MarchYear(x)) <= Days(x) < YearStart(MarchYear(x) + 1)
  {
    YearLength(MarchYear(x));
    hide YearStart, IsLeap;
  }

  lemma DaysGrow(x: Ymd, y: Ymd)
    requires Valid(x) && Valid(y) && Less(x, y)
    ensures Days(x) < Days(y)
  {
    hide YearStart, IsLeap;
    WithinYear(x);
    WithinYear(y);
    assert MarchYear(x) <= MarchYear(y);
    if MarchYear(x) < MarchYear(y) {
      YearStartGrows(MarchYear(x) + 1, MarchYear(y));
    } else {
      var k, l := MarchMonth(x), MarchMonth(y);
      assert k < l || (k == l && x.day < y.day);
      if k < l {
        assert k < 11;
        assert x.day <= MonthStart(k + 1) - MonthStart(k);
        assert MonthStart(k + 1) <= MonthStart(l);
      }
    }
  }

  /** The first date of the day count: 1 March -4800, of julian number -32044. */
  const FIRST := Ymd(-4800, 3, 1)

  /** Julian order is calendar order among the valid dates from 1 March -4800 on. */
  lemma JulianOrder(x: Ymd, y: Ymd)
    requires Valid(x) && Valid(y) && MarchYear(x) >= 0 && MarchYear(y) >= 0
    ensures Julian(x.year, x.month, x.day) < Julian(y.year, y.month, y.day) <==> Less(x, y)
    ensures Julian(x.year, x.month, x.day) == Julian(y.year, y.month, y.day) <==> x == y
  {
    JulianIsDays(x);
    JulianIsDays(y);
    hide Julian, Days;
    assert Less(x, y) || Less(y, x) || x == y;
    if Less(x, y) {
      DaysGrow(x, y);
    } else if Less(y, x) {
      DaysGrow(y, x);
    }
  }

  ghost predicate OrderedFrom(c: Ymd) {
    forall x, y :: Valid(x) && Valid(y) && !Less(x, c) && !Less(y, c)
      ==> (Julian(x.year, x.month, x.day) < Julian(y.year, y.month, y.day) <==> Less(x, y))
  }

  /** No earlier start will do: 29 February -4800 shares its number with the next day. */
  lemma OrderedFromMarch4800(c: Ymd)
    requires Valid(c)
    ensures OrderedFrom(c) <==> !Less(c, FIRST)
  {
    if Less(c, FIRST) {
      var x := Ymd(-4800, 2, 29);
      assert Julian(x.year, x.month, x.day) == -32044 == Julian(-4800, 3, 1);
      assert Valid(x) && Valid(FIRST) && Less(x, FIRST) && !Less(x, c);
    } else {
      forall x, y | Valid(x) && Valid(y) && !Less(x, c) && !Less(y, c)
        ensures Julian(x.year, x.month, x.day) < Julian(y.year, y.month, y.day) <==> Less(x, y)
      {
        JulianOrder(x, y);
      }
    }
  }

  // ----- the round trips ----------------------------------------------------------------------------

  /** `_update_julian` after `_update_ymd` gives the number back. */
  lemma NumberRestored(j: int)
    requires -32044 <= j < LIMIT - 32044
    ensures
      var x := FromJulian(j);
      Valid(x) && Julian(x.year, x.month, x.day) == j
  {
    FromJulianCounts(j);
    JulianIsDays(FromJulian(j));
  }

  lemma DateRestored(x: Ymd)
    requires Valid(x) && MarchYear(x) >= 0 && Days(x) < LIMIT
    ensures FromJulian(Julian(x.year, x.month, x.day)) == x
  {
    JulianIsDays(x);
    hide Days, Julian, FromJulian;
    assert Days(x) >= 0 by {
      WithinYear(x);
      YearStartGrows(0, MarchYear(x));
    }
    var j := Julian(x.year, x.month, x.day);
    FromJulianCounts(j);
    var y := FromJulian(j);
    assert Less(x, y) || Less(y, x) || x == y;
    if Less(x, y) {
      DaysGrow(x, y);
    } else if Less(y, x) {
      DaysGrow(y, x);
    }
  }

  /** Less than a century before 1 March -4800 the number of the century wraps to the largest word,
      and the day of the year becomes enormous. */
  lemma JustBefore(n: int)
    requires 0 <= n <= 36524
    ensures BOf(Wrap(-n)) == 0xFFFF_FFFF
  {
    assert Wrap(4 * (Wrap(-n) + 36524)) == 4 * (36524 - n);
  }

  lemma JustBeforeYear(n: int)
    requires 0 <= n <= 36524
    ensures Wrap(Wrap(-n) - Wrap(146097 * 0xFFFF_FFFF) / 4) == 3221261997 - n
    ensures 0 <= DOf(3221261997 - n) <= 100
  {
    assert Wrap(146097 * 0xFFFF_FFFF) / 4 == 1073705299;
    assert Wrap(4 * (3221261997 - n + 365)) == 147560 - 4 * n;
  }

  lemma HugeDay(d: int, e: int)
    requires 0 <= d <= 100 && 3221188948 <= e <= 3221261997
    ensures YmdOf(0xFFFF_FFFF, d, e).year > 0
  {
    var m := Wrap(5 * (e - 1) + 2) / 153;
    assert 20000000 <= m <= 30000000 by {
      assert Wrap(5 * (e - 1) + 2) == 5 * (e - 1) + 2 - 3 * 0x1_0000_0000;
    }
    hide Wrap;
    YearWraps(d, m / 10);
  }

  lemma YearWraps(d: int, k: int)
    requires 0 <= d <= 100 && 2000000 <= k <= 3000000
    ensures Signed(100 * 0xFFFF_FFFF + d - 4800 + k) == d - 4900 + k
  {
  }

  lemma DayLeft(n: int, d: int)
    requires 0 <= n <= 36524 && 0 <= d <= 100
    ensures 3221188948 <= Wrap(3221261997 - n - Wrap(1461 * d) / 4) <= 3221261997
  {
  }

  /** Further back it is the number of the century that is enormous. */
  lemma LongBefore(n: int)
    requires 36524 < n < 12000000
    ensures 29000 <= BOf(Wrap(-n)) <= 29400
  {
    assert Wrap(4 * (Wrap(-n) + 36524)) == 0x1_0000_0000 - 4 * (n - 36524);
  }

  lemma YearInBound(c: int)
    ensures 0 <= DOf(c) <= 2939745 || DOf(c) == 0xFFFF_FFFF
  {
    assert 0 <= Wrap(4 * (c + 365)) / 1461 <= 2939745;
  }

  lemma MonthBound(e: int)
    ensures 0 <= Wrap(5 * (e - 1) + 2) / 153 / 10 <= 2807169
  {
  }

  lemma YearWrapsBack(b: int, d: int, k: int)
    requires 29000 <= b <= 29400 && 0 <= k <= 2807169
    requires 0 <= d <= 2939745 || d == 0xFFFF_FFFF
    ensures Signed(100 * b + d - 4800 + k) > 0
  {
    assert d == 0xFFFF_FFFF ==> Wrap(100 * b + d - 4800 + k) == 100 * b - 4801 + k;
  }

  lemma HugeCentury(b: int, c: int, e: int)
    requires 29000 <= b <= 29400
    ensures YmdOf(b, DOf(c), e).year > 0
  {
    hide DOf, Wrap, Signed;
    YearInBound(c);
    MonthBound(e);
    YearWrapsBack(b, DOf(c), Wrap(5 * (e - 1) + 2) / 153 / 10);
  }

  lemma PositiveYear(n: int)
    requires 0 <= n < 12000000
    ensures FromJulian(-32045 - n).year > 0
  {
    hide Wrap, BOf, DOf, YmdOf;
    var a := Wrap(-n);
    var b := BOf(a);
    var c := Wrap(a - Wrap(146097 * b) / 4);
    if n <= 36524 {
      JustBefore(n);
      JustBeforeYear(n);
      DayLeft(n, DOf(c));
      HugeDay(DOf(c), Wrap(c - Wrap(1461 * DOf(c)) / 4));
    } else {
      LongBefore(n);
      HugeCentury(b, c, Wrap(c - Wrap(1461 * DOf(c)) / 4));
    }
  }

  lemma EarlyJulian(x: Ymd)
    requires Valid(x) && -32768 <= x.year && MarchYear(x) < 0
    ensures -12032045 < Julian(x.year, x.month, x.day) <= -32044
  {
    var a := if x.month <= 2 then -1 else 0;
    assert CDiv(x.month - 14, 12) == a;
    assert -27969 <= x.year + 4800 + a <= -1;
  }

  /** For every date its constructor can be given, `_update_ymd` after `_update_julian` restores the
      date exactly when it is not before 1 March -4800. */
  lemma DateRestoredExactly(x: Ymd)
    requires Valid(x) && -32768 <= x.year <= 32767
    ensures FromJulian(Julian(x.year, x.month, x.day)) == x <==> !Less(x, FIRST)
  {
    assert MarchYear(x) >= 0 <==> !Less(x, FIRST);
    if MarchYear(x) >= 0 {
      assert Days(x) < LIMIT by {
        assert 0 <= MarchYear(x) <= 37567;
        WithinYear(x);
        YearStartGrows(MarchYear(x) + 1, 37568);
        assert YearStart(37568) < LIMIT;
        hide YearStart;
      }
      DateRestored(x);
    } else {
      EarlyJulian(x);
      var j := Julian(x.year, x.month, x.day);
      hide Julian, FromJulian;
      if j == -32044 {
        FromJulianCounts(j);
      } else {
        PositiveYear(-32045 - j);
      }
    }
  }

  // ----- 32 bits ------------------------------------------------------------------------------------

  /** No intermediate of `_update_julian` overflows an `int`. */
  predicate Computes(y: int, m: int, d: int) {
    var a := CDiv(m - 14, 12);
    var years := 1461 * (y + 4800 + a);
    var months := 367 * (m - 2 - a * 12);
    var centuries := 3 * CDiv(y + 4900 + a, 100);
    Int32(m - 14) && Int32(a * 12) && Int32(m - 2 - a * 12) && Int32(months)
    && Int32(y + 4800) && Int32(y + 4800 + a) && Int32(years)
    && Int32(y + 4900) && Int32(y + 4900 + a) && Int32(centuries)
    && Int32(d - 32075) && Int32(d - 32075 + CDiv(years, 4))
    && Int32(d - 32075 + CDiv(years, 4) + CDiv(months, 12)) && Int32(Julian(y, m, d))
  }

  lemma SmallParts(m: int)
    requires 1 <= m <= 12
    ensures
      var a := CDiv(m - 14, 12);
      a == (if m <= 2 then -1 else 0) && 0 <= CDiv(367 * (m - 2 - a * 12), 12) <= 400
  {
  }

  lemma LargeParts(y: int, m: int)
    requires 1 <= m <= 12 && -1469872 <= y + 4800 + CDiv(m - 14, 12) <= 1469872
    ensures
      var a := CDiv(m - 14, 12);
      -540000000 <= CDiv(1461 * (y + 4800 + a), 4) <= 540000000
      && -50000 <= CDiv(y + 4900 + a, 100) <= 50000
      && -50000 <= CDiv(3 * CDiv(y + 4900 + a, 100), 4) <= 50000
  {
    SmallParts(m);
  }

  /** Exactly the March-years up to 1469872 on either side can be computed. */
  lemma ComputesExactly(x: Ymd)
    requires Valid(x)
    ensures Computes(x.year, x.month, x.day) <==> -1469872 <= MarchYear(x) <= 1469872
  {
    hide CDiv;
    SmallParts(x.month);
    assert x.year + 4800 + CDiv(x.month - 14, 12) == MarchYear(x);
    if -1469872 <= MarchYear(x) <= 1469872 {
      LargeParts(x.year, x.month);
    }
  }

  /** The last julian number that survives the way out and back. */
  const LAST := 536828044

  /** Among the numbers `_update_ymd` takes apart without wrapping, exactly those up to LAST give a date
      from which `_update_julian` can compute them again. */
  lemma NumberRestoredExactly(j: int)
    requires -32044 <= j < LIMIT - 32044
    ensures
      var x := FromJulian(j);
      (Computes(x.year, x.month, x.day) && Julian(x.year, x.month, x.day) == j) <==> j <= LAST
  {
    hide Julian, FromJulian, Computes;
    NumberRestored(j);
    FromJulianCounts(j);
    var x := FromJulian(j);
    ComputesExactly(x);
    WithinYear(x);
    assert YearStart(1469873) == LAST + 32045;
    if MarchYear(x) <= 1469872 {
      YearStartGrows(MarchYear(x) + 1, 1469873);
    } else {
      YearStartGrows(1469873, MarchYear(x));
    }
  }

  /** The year of the backward formula is never before -4901. */
  lemma YearBound(j: int)
    ensures FromJulian(j).year >= -4901 && 0 <= FromJulian(j).month < 256 && 0 <= FromJulian(j).day < 256
  {
    hide BOf, DOf, YmdOf, Wrap;
    var a := Wrap(j + 32045);
    var b := BOf(a);
    var c := Wrap(a - Wrap(146097 * b) / 4);
    var e := Wrap(c - Wrap(1461 * DOf(c)) / 4);
    CenturyBound(a);
    YearInBound(c);
    YearOfParts(b, DOf(c), e);
  }

  lemma CenturyBound(a: int)
    ensures 0 <= BOf(a) <= 29397 || BOf(a) == 0xFFFF_FFFF
  {
    assert 0 <= Wrap(4 * (a + 36524)) / 146097 <= 29398;
  }

  lemma YearOfParts(b: int, d: int, e: int)
    requires 0 <= b <= 29397 || b == 0xFFFF_FFFF
    requires 0 <= d <= 2939745 || d == 0xFFFF_FFFF
    ensures var x := YmdOf(b, d, e); x.year >= -4901 && 0 <= x.month < 256 && 0 <= x.day < 256
  {
    hide Wrap, Signed;
    MonthBound(e);
    SignedParts(b, d, Wrap(5 * (e - 1) + 2) / 153 / 10);
  }

  lemma SignedParts(b: int, d: int, k: int)
    requires 0 <= b <= 29397 || b == 0xFFFF_FFFF
    requires 0 <= d <= 2939745 || d == 0xFFFF_FFFF
    requires 0 <= k <= 2807169
    ensures Signed(100 * b + d - 4800 + k) >= -4901
  {
    var hundreds := if b == 0xFFFF_FFFF then -100 else 100 * b;
    var years := if d == 0xFFFF_FFFF then -1 else d;
    var n := (if b == 0xFFFF_FFFF then 100 else 0) + (if d == 0xFFFF_FFFF then 1 else 0);
    assert 100 * b + d - 4800 + k == hundreds + years - 4800 + k + 0x1_0000_0000 * n;
    SignedShift(hundreds + years - 4800 + k, n);
  }

  lemma SignedShift(x: int, n: int)
    requires -0x8000_0000 <= x < 0x8000_0000
    ensures Signed(x + 0x1_0000_0000 * n) == x
  {
    assert (x + 0x1_0000_0000 * n) % 0x1_0000_0000 == x % 0x1_0000_0000;
  }

  /** What fields of eight bits and a year from -4901 on can come to. */
  lemma JulianFrom4901(y: int, m: int, d: int)
    requires y >= -4901 && 0 <= m < 256 && 0 <= d < 256
    ensures Julian(y, m, d) >= -80000
    ensures y > 0 ==> Julian(y, m, d) > 0
    ensures Computes(y, m, d) ==> Julian(y, m, d) < 600000000
  {
    assert -2 <= CDiv(m - 14, 12) <= 20;
  }

  /** Over all 32-bit numbers: the way out and back gives the number exactly between 1 March -4800 and LAST. */
  lemma NumberRestoredEverywhere(j: int)
    requires Int32(j)
    ensures
      var x := FromJulian(j);
      (Computes(x.year, x.month, x.day) && Julian(x.year, x.month, x.day) == j) <==> -32044 <= j <= LAST
  {
    hide Julian, FromJulian, Computes;
    var x := FromJulian(j);
    if -32044 <= j < LIMIT - 32044 {
      NumberRestoredExactly(j);
    } else {
      YearBound(j);
      JulianFrom4901(x.year, x.month, x.day);
      if -32045 - 12000000 < j < -32044 {
        PositiveYear(-32045 - j);
      }
    }
  }

  // ----- neighbouring days and the day of the year --------------------------------------------------

  function NextDay(x: Ymd): (date: Ymd)
    requires Valid(x)
  {
    if x.day < DaysInMonth(x.year, x.month) then Ymd(x.year, x.month, x.day + 1)
    else if x.month < 12 then Ymd(x.year, x.month + 1, 1)
    else Ymd(x.year + 1, 1, 1)
  }

  function PreviousDay(x: Ymd): (date: Ymd)
    requires Valid(x)
  {
    if x.day > 1 then Ymd(x.year, x.month, x.day - 1)
    else if x.month > 1 then Ymd(x.year, x.month - 1, DaysInMonth(x.year, x.month - 1))
    else Ymd(x.year - 1, 12, 31)
  }

  lemma NextDayCounts(x: Ymd)
    requires Valid(x)
    ensures Valid(NextDay(x)) && Days(NextDay(x)) == Days(x) + 1
    ensures PreviousDay(NextDay(x)) == x
  {
    YearLength(MarchYear(x));
    hide YearStart, IsLeap;
  }

  lemma PreviousDayCounts(x: Ymd)
    requires Valid(x)
    ensures Valid(PreviousDay(x)) && NextDay(PreviousDay(x)) == x
  {
    hide IsLeap;
  }

  /** One more on the julian number is the next calendar day, one less the day before. */
  lemma Neighbours(j: int)
    requires -32044 <= j < LIMIT - 32045
    ensures Valid(FromJulian(j)) && FromJulian(j + 1) == NextDay(FromJulian(j))
    ensures Valid(FromJulian(j + 1)) && FromJulian(j) == PreviousDay(FromJulian(j + 1))
  {
    hide FromJulian, Days, YearStart, Valid, NextDay, PreviousDay, Julian;
    FromJulianCounts(j);
    FromJulianCounts(j + 1);
    var x := FromJulian(j);
    NextDayCounts(x);
    SameDays(NextDay(x), FromJulian(j + 1));
  }

  lemma SameDays(x: Ymd, y: Ymd)
    requires Valid(x) && Valid(y) && Days(x) == Days(y)
    ensures x == y
  {
    hide Days;
    assert Less(x, y) || Less(y, x) || x == y;
    if Less(x, y) {
      DaysGrow(x, y);
    } else if Less(y, x) {
      DaysGrow(y, x);
    }
  }

  /** `__days_in_months` and `__days_in_year`. */
  function MonthTable(leap: bool): (table: seq<int>) {
    if leap then [0, 31, 29, 31, 30, 31, 30, 31, 31, 30, 31, 30, 31]
    else [0, 31, 28, 31, 30, 31, 30, 31, 31, 30, 31, 30, 31]
  }

  function YearTable(leap: bool): (table: seq<int>) {
    if leap then [0, 0, 31, 60, 91, 121, 152, 182, 213, 244, 274, 305, 335, 366]
    else [0, 0, 31, 59, 90, 120, 151, 181, 212, 243, 273, 304, 334, 365]
  }

  lemma TablesAgree(y: int, m: int)
    requires 1 <= m <= 12
    ensures MonthTable(IsLeap(y))[m] == DaysInMonth(y, m)
    ensures YearTable(IsLeap(y))[m + 1] == YearTable(IsLeap(y))[m] + DaysInMonth(y, m)
  {
    hide IsLeap;
  }

  /** `dayOfYear` is the julian distance from 1 January, plus one. */
  function DayOfYear(x: Ymd): (n: int)
    requires 0 <= x.month <= 13
  {
    YearTable(IsLeap(x.year))[x.month] + x.day
  }

  lemma TableIsMonthStart(leap: bool, m: int)
    requires 1 <= m <= 12
    ensures YearTable(leap)[m] == if m <= 2 then MonthStart(m + 9) - MonthStart(10)
                                  else MonthStart(m - 3) + (if leap then 60 else 59)
  {
  }

  lemma Winter4800(m: int, d: int)
    requires 1 <= m <= 2
    ensures Julian(-4800, m, d) == d - 32104 + (if m == 1 then 0 else 31)
  {
  }

  lemma DayOfYear4800(x: Ymd)
    requires Valid(x) && x.year == -4800
    ensures Julian(-4800, x.month, x.day) - Julian(-4800, 1, 1) + 1
            == if x.month > 2 then DayOfYear(x) - 1 else DayOfYear(x)
  {
    hide Julian, MonthStart;
    assert IsLeap(-4800);
    Winter4800(1, 1);
    if x.month > 2 {
      JulianIsDays(x);
      TableIsMonthStart(true, x.month);
      assert YearStart(0) == 0;
    } else {
      Winter4800(x.month, x.day);
    }
  }

  /** It fails in one year only of those from -4800 on, after the 29 February that has no number of its own. */
  lemma DayOfYearIsDistance(x: Ymd)
    requires Valid(x) && x.year >= -4800
    ensures DayOfYear(x) == Julian(x.year, x.month, x.day) - Julian(x.year, 1, 1) + 1
            <==> !(x.year == -4800 && x.month > 2)
  {
    hide IsLeap, YearStart, Julian, YearTable, MonthStart;
    if x.year >= -4799 {
      JulianIsDays(x);
      JulianIsDays(Ymd(x.year, 1, 1));
      YearLength(x.year + 4799);
      TableIsMonthStart(IsLeap(x.year), x.month);
      assert MonthStart(10) == 306 by { MonthStartOfJanuary(); }
    } else {
      DayOfYear4800(x);
    }
  }

  /** The forward formula truncates toward zero, so before the year -4800 it puts the leap day into other
      years than the calendar does: those that count 366 numbers from one 1 January to the next. */
  predicate CountsLeapBefore(y: int) {
    var a := -(y + 4799);
    a % 4 == 0 && (a % 100 != 0 || a == 100 || a / 100 % 4 == 2)
  }

  /** What the two year terms of the formula go up by from the March-year -a to the next. */
  function QuarterStep(a: int): (n: int) {
    if a % 4 == 0 then 366 else 365
  }

  function CenturyStep(a: int): (n: int) {
    if a % 100 == 0 && a != 100 && a / 100 % 4 != 2 then 1 else 0
  }

  lemma NegativeQuarters(a: int)
    requires a >= 1
    ensures CDiv(1461 * (1 - a), 4) - CDiv(-1461 * a, 4) == QuarterStep(a)
  {
    assert CDiv(-1461 * a, 4) == -(1461 * a / 4);
    assert CDiv(1461 * (1 - a), 4) == -(1461 * (a - 1) / 4);
  }

  lemma NegativeCenturies(a: int)
    requires a >= 1
    ensures CDiv(3 * CDiv(101 - a, 100), 4) - CDiv(3 * CDiv(100 - a, 100), 4) == CenturyStep(a)
  {
    SmallQuarters();
    hide CDiv;
    NegativeHundreds(a);
    if a > 100 && a % 100 == 0 {
      var k := a / 100;
      assert CDiv(101 - a, 100) == -(k - 2) && CDiv(100 - a, 100) == -(k - 1);
      CenturyQuarters(k - 1);
      assert (k - 2) % 4 == 0 <==> k % 4 == 2;
    } else if a > 100 {
      assert CDiv(101 - a, 100) == CDiv(100 - a, 100);
    }
  }

  lemma SmallQuarters()
    ensures CDiv(3 * 1, 4) == CDiv(3 * 0, 4) == 0
  {
  }

  lemma NegativeHundreds(a: int)
    requires a >= 1
    ensures CDiv(100 - a, 100) == if a <= 100 then 0 else -(a / 100 - 1)
    ensures CDiv(101 - a, 100) == if a <= 100 then (if a == 1 then 1 else 0)
                                  else if a % 100 == 0 then -(a / 100 - 2) else -(a / 100 - 1)
  {
    if a > 100 {
      assert (a - 100) / 100 == a / 100 - 1;
      assert (a - 101) / 100 == if a % 100 == 0 then a / 100 - 2 else a / 100 - 1;
    }
  }

  lemma CenturyQuarters(k: int)
    requires k >= 1
    ensures CDiv(3 * -(k - 1), 4) - CDiv(3 * -k, 4) == if (k - 1) % 4 == 0 then 0 else 1
  {
  }

  /** The forward formula by its three terms. */
  lemma JulianTerms(y: int, m: int, d: int)
    requires 1 <= m <= 12
    ensures
      var s := if m <= 2 then -1 else 0;
      CDiv(m - 14, 12) == s
      && Julian(y, m, d) == d - 32075 + CDiv(1461 * (y + 4800 + s), 4) + CDiv(367 * (m - 2 - s * 12), 12)
                            - CDiv(3 * CDiv(y + 4900 + s, 100), 4)
  {
    assert CDiv(m - 14, 12) == if m <= 2 then -1 else 0;
    hide CDiv;
  }

  lemma WinterBefore4800(x: Ymd)
    requires Valid(x) && x.year < -4800 && x.month <= 2
    ensures Julian(x.year, x.month, x.day) - Julian(x.year, 1, 1) + 1 == DayOfYear(x)
  {
    hide IsLeap, YearTable, CDiv, Julian;
    JulianTerms(x.year, x.month, x.day);
    JulianTerms(x.year, 1, 1);
    MonthTerm(x.month);
    MonthTerm(1);
    FirstTable();
  }

  lemma RestBefore4800(x: Ymd)
    requires 2 < x.month <= 12 && x.year < -4800
    ensures Julian(x.year, x.month, x.day) - Julian(x.year, 1, 1) + 1
         == YearTable(CountsLeapBefore(x.year))[x.month] + x.day
  {
    hide IsLeap, YearTable, CDiv, Julian, CountsLeapBefore, QuarterStep, CenturyStep;
    var a := -(x.year + 4799);
    JulianTerms(x.year, x.month, x.day);
    JulianTerms(x.year, 1, 1);
    MonthTerm(x.month);
    MonthTerm(1);
    FirstTable();
    NegativeQuarters(a);
    NegativeCenturies(a);
    CountsLeapIs(x.year);
    assert 1461 * (x.year + 4800) == 1461 * (1 - a) && 1461 * (x.year + 4799) == -1461 * a;
    assert x.year + 4900 == 101 - a && x.year + 4899 == 100 - a;
  }

  lemma FirstTable()
    ensures YearTable(true)[1] == YearTable(false)[1] == 0
  {
  }

  lemma CountsLeapIs(y: int)
    ensures
      var a := -(y + 4799);
      QuarterStep(a) - CenturyStep(a) == if CountsLeapBefore(y) then 366 else 365
  {
  }

  /** The month term of the forward formula against the table. */
  lemma MonthTerm(m: int)
    requires 1 <= m <= 12
    ensures
      var term := CDiv(367 * (m - 2 - CDiv(m - 14, 12) * 12), 12);
      if m <= 2 then term == 336 + YearTable(true)[m] && YearTable(true)[m] == YearTable(false)[m]
      else term == YearTable(true)[m] - 30 && YearTable(false)[m] == YearTable(true)[m] - 1
  {
  }

  /** Before -4800 `dayOfYear` is the distance after February exactly in the years that both count as leap
      years, or neither does. */
  lemma DayOfYearBefore4800(x: Ymd)
    requires Valid(x) && x.year < -4800
    ensures DayOfYear(x) == Julian(x.year, x.month, x.day) - Julian(x.year, 1, 1) + 1
            <==> x.month <= 2 || (IsLeap(x.year) <==> CountsLeapBefore(x.year))
  {
    hide Julian, IsLeap, CountsLeapBefore, YearTable, CDiv;
    if x.month <= 2 {
      WinterBefore4800(x);
    } else {
      RestBefore4800(x);
      MonthTerm(x.month);
    }
  }

  /** The years whose two Januaries are 366 julian numbers apart. */
  predicate CountsLeap(y: int) {
    if y >= -4799 then IsLeap(y) else CountsLeapBefore(y)
  }

  /** For every valid date `dayOfYear` is the julian distance from 1 January plus one, if and only if it is
      a date of January or February or the year counts as a leap year in both ways or in neither. */
  lemma DayOfYearExactly(x: Ymd)
    requires Valid(x)
    ensures DayOfYear(x) == Julian(x.year, x.month, x.day) - Julian(x.year, 1, 1) + 1
            <==> x.month <= 2 || (IsLeap(x.year) <==> CountsLeap(x.year))
  {
    NotCounted4800();
    hide Julian, DayOfYear, IsLeap, CountsLeapBefore;
    if x.year >= -4800 {
      DayOfYearIsDistance(x);
    } else {
      DayOfYearBefore4800(x);
    }
  }

  lemma NotCounted4800()
    ensures IsLeap(-4800) && !CountsLeapBefore(-4800)
  {
  }

  lemma MonthStartOfJanuary()
    ensures MonthStart(10) == 306
  {
  }

  // ----- the class ----------------------------------------------------------------------------------

  /** The calendar walked forward one day at a time. */
  function Later(x: Ymd, n: nat): (r: Ymd)
    requires Valid(x)
    ensures Valid(r)
    decreases n
  {
    if n == 0 then x else NextDayCounts(x); Later(NextDay(x), n - 1)
  }

  /** Adding to the julian number walks that many days. */
  lemma {:induction false} DaysLater(j: int, n: nat)
    requires -32044 <= j && j + n < LIMIT - 32044
    ensures Valid(FromJulian(j)) && FromJulian(j + n) == Later(FromJulian(j), n)
    decreases n
  {
    hide FromJulian, Valid;
    FromJulianCounts(j);
    if n > 0 {
      Neighbours(j);
      DaysLater(j + 1, n - 1);
    }
  }

  /** A date with its four fields. */
  class Date {
    var julian: int
    var day: int
    var month: int
    var year: int

    ghost function Fields(): (date: Ymd)
      reads this
    {
      Ymd(year, month, day)
    }

    /** The fields and the julian number name the same day of the calendar. */
    ghost predicate Sound()
      reads this
    {
      Valid(Fields()) && !Less(Fields(), FIRST) && julian < LIMIT - 32044
      && julian == Julian(year, month, day)
    }

    constructor (day: int, month: int, year: int)
      requires 0 <= day < 256 && 0 <= month < 256 && -32768 <= year <= 32767
      ensures Fields() == Ymd(year, month, day) && julian == Julian(year, month, day)
      ensures Valid(Fields()) && !Less(Fields(), FIRST) ==> Sound()
    {
      this.day, this.month, this.year, this.julian := day, month, year, 0;
      new;
      ConstructorComputes(year, month, day);
      UpdateJulian();
      JulianBound(year, month, day);
    }

    constructor OfJulian(julian: int)
      requires Int32(julian)
      ensures this.julian == julian && Fields() == FromJulian(julian)
      ensures -32044 <= julian < LIMIT - 32044 ==> Sound()
    {
      this.day, this.month, this.year, this.julian := 0, 0, 0, julian;
      new;
      UpdateYmd();
    }

    method UpdateJulian()
      requires Computes(year, month, day)
      modifies this`julian
      ensures julian == Julian(year, month, day)
    {
      hide CDiv, Computes;
      var y, m, d := year, month, day;
      julian := d - 32075 + CDiv(1461 * (y + 4800 + CDiv(m - 14, 12)), 4)
        + CDiv(367 * (m - 2 - CDiv(m - 14, 12) * 12), 12)
        - CDiv(3 * CDiv(y + 4900 + CDiv(m - 14, 12), 100), 4);
    }

    method UpdateYmd()
      modifies this`day, this`month, this`year
      ensures Fields() == FromJulian(julian)
      ensures -32044 <= julian < LIMIT - 32044 ==> Sound()
    {
      hide Wrap, Signed, Valid, Julian, Less;
      var a := Wrap(julian + 32045);
      var b := Wrap(Wrap(4 * (a + 36524)) / 146097 - 1);
      var c := Wrap(a - Wrap(146097 * b) / 4);
      var d := Wrap(Wrap(4 * (c + 365)) / 1461 - 1);
      var e := Wrap(c - Wrap(1461 * d) / 4);
      var m := Wrap(5 * (e - 1) + 2) / 153;
      month := Wrap(m + 3 - 12 * (m / 10)) % 256;
      day := Wrap(e - Wrap(153 * m + 2) / 5) % 256;
      year := Signed(100 * b + d - 4800 + m / 10);
      assert Fields() == FromJulian(julian);
      hide FromJulian;
      if -32044 <= julian < LIMIT - 32044 {
        NumberIsSound(julian);
      }
    }

    /** `operator++`: the next day of the calendar. */
    method Increment()
      requires Int32(julian + 1)
      modifies this
      ensures julian == old(julian) + 1 && Fields() == FromJulian(julian)
      ensures old(Sound()) && julian < LIMIT - 32044
              ==> Sound() && Fields() == NextDay(old(Fields()))
    {
      hide FromJulian, NextDay, Julian, Valid;
      ghost var before := Fields();
      ghost var sound := Sound();
      julian := julian + 1;
      UpdateYmd();
      if sound && julian < LIMIT - 32044 {
        SoundIsNumber(before);
        Neighbours(julian - 1);
      }
    }

    /** `operator--`: the day before. */
    method Decrement()
      requires Int32(julian - 1)
      modifies this
      ensures julian == old(julian) - 1 && Fields() == FromJulian(julian)
      ensures old(Sound()) && -32044 <= julian
              ==> Sound() && Fields() == PreviousDay(old(Fields())) && NextDay(Fields()) == old(Fields())
    {
      hide FromJulian, PreviousDay, Julian, Valid;
      ghost var before := Fields();
      ghost var sound := Sound();
      julian := julian - 1;
      UpdateYmd();
      if sound && -32044 <= julian {
        SoundIsNumber(before);
        Neighbours(julian);
        PreviousDayCounts(before);
      }
    }

    /** `addToDay`: as many days later, or earlier. */
    method AddToDay(days: int)
      requires Int32(julian + days)
      modifies this
      ensures julian == old(julian) + days && Fields() == FromJulian(julian)
      ensures old(Sound()) && -32044 <= julian < LIMIT - 32044
              ==> Sound() && (days >= 0 ==> Fields() == Later(old(Fields()), days))
                  && (days < 0 ==> Later(Fields(), -days) == old(Fields()))
    {
      hide FromJulian, Later, Julian, Valid, Less;
      ghost var before := Fields();
      ghost var sound := Sound();
      julian := julian + days;
      UpdateYmd();
      if sound && -32044 <= julian < LIMIT - 32044 {
        SoundIsNumber(before);
        if days >= 0 {
          DaysLater(julian - days, days);
        } else {
          DaysLater(julian, -days);
        }
      }
    }

    /** `dayOfYear` and `daysInMonth` read the tables, and agree with the calendar. */
    method DayInYear() returns (n: int)
      requires 0 <= month <= 13
      ensures n == DayOfYear(Fields())
      ensures Sound() && year >= -4799 ==> n == julian - Julian(year, 1, 1) + 1
    {
      n := YearTable(IsLeap(year))[month] + day;
      hide Julian, IsLeap, YearTable;
      if Sound() && year >= -4799 {
        DayOfYearIsDistance(Fields());
      }
    }

    method DaysInThisMonth() returns (n: int)
      requires 0 <= month <= 12
      ensures Sound() ==> n == DaysInMonth(year, month)
    {
      n := MonthTable(IsLeap(year))[month];
      if Sound() {
        TablesAgree(year, month);
      }
    }

    method IsBefore(that: Date) returns (before: bool)
      ensures Sound() && that.Sound() ==> (before <==> Less(Fields(), that.Fields()))
    {
      before := julian < that.julian;
      if Sound() && that.Sound() {
        JulianOrder(Fields(), that.Fields());
      }
    }

    method Equals(that: Date) returns (equal: bool)
      ensures Sound() && that.Sound() ==> (equal <==> Fields() == that.Fields())
    {
      equal := julian == that.julian;
      if Sound() && that.Sound() {
        JulianOrder(Fields(), that.Fields());
      }
    }
  }

  lemma NumberIsSound(j: int)
    requires -32044 <= j < LIMIT - 32044
    ensures
      var x := FromJulian(j);
      Valid(x) && !Less(x, FIRST) && Julian(x.year, x.month, x.day) == j
  {
    hide FromJulian, Julian;
    FromJulianCounts(j);
    NumberRestored(j);
  }

  lemma SoundIsNumber(x: Ymd)
    requires Valid(x) && !Less(x, FIRST) && Julian(x.year, x.month, x.day) < LIMIT - 32044
    ensures FromJulian(Julian(x.year, x.month, x.day)) == x
    ensures Julian(x.year, x.month, x.day) >= -32044
  {
    hide FromJulian, Julian;
    JulianIsDays(x);
    WithinYear(x);
    YearStartGrows(0, MarchYear(x));
    DateRestored(x);
  }

  lemma ConstructorComputes(y: int, m: int, d: int)
    requires 0 <= d < 256 && 0 <= m < 256 && -32768 <= y <= 32767
    ensures Computes(y, m, d)
  {
    assert -2 <= CDiv(m - 14, 12) <= 21;
  }

  lemma JulianBound(y: int, m: int, d: int)
    requires 0 <= d < 256 && 0 <= m < 256 && -32768 <= y <= 32767
    ensures Julian(y, m, d) < LIMIT - 32044
  {
    assert -2 <= CDiv(m - 14, 12) <= 21;
  }
}
