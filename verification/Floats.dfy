/** The program's own arithmetic: two divisions of floating-point numbers, each rounded, and one rounding to a whole number.
    Up to the most a price can be it gives the exactly rounded amount. */
module Floats {
  import opened Wrappers
  import opened Calendar
  import opened Lessons

  const MAX_PRICE := 50_000_000
  const UNIT := 9_007_199_254_740_992.0   // 2 to the 53rd

  /** Multiples of one half below 2 to the 52nd are floating-point numbers. */
  predicate IsHalves(x: real) {
    (x * 2.0) == (x * 2.0).Floor as real && -UNIT <= x * 2.0 <= UNIT
  }

  /** f is what a correctly rounded operation gives for x (section 4.3.1 of IEEE 754-2008): off by at most half a unit in the
      last of 53 binary places, and x itself when x is a floating-point number. */
  predicate IsRounded(f: real, x: real) {
    -Size(x) <= (f - x) * UNIT <= Size(x) && (IsHalves(x) ==> f == x)
  }

  function Size(x: real): real {
    if x < 0.0 then -x else x
  }

  /** Python's round: the nearest whole number, halves to even. */
  function RoundReal(x: real): (r: int)
    ensures -1.0 <= 2.0 * (r as real - x) <= 1.0
    ensures 2.0 * (r as real - x) == 1.0 || 2.0 * (r as real - x) == -1.0 ==> r % 2 == 0
  {
    var q := x.Floor;
    var rest := x - q as real;
    if rest < 0.5 then q else if rest > 0.5 then q + 1 else if q % 2 == 0 then q else q + 1
  }

  lemma RoundedIsUnique(x: real, r: int)
    requires -1.0 < 2.0 * (r as real - x) < 1.0
    ensures RoundReal(x) == r
  {
    var s := RoundReal(x);
    assert -1.0 < (s as real) - (r as real) < 1.0;
    assert -1 < s - r < 1;
  }

  lemma TieIsEven(x: real, r: int)
    requires (2.0 * (r as real - x) == 1.0 || 2.0 * (r as real - x) == -1.0) && r % 2 == 0
    ensures RoundReal(x) == r
  {
    var s := RoundReal(x);
    assert -1.0 <= (s as real) - (r as real) <= 1.0;
    assert -1 <= s - r <= 1;
  }

  /** The two divisions together are off by less than a hundred-thousandth. */
  lemma TwoDivisionsAreClose(y: real, f1: real, f2: real)
    requires 0.0 <= y <= 50_000_000.0 && IsRounded(f1, y) && IsRounded(f2, f1 / 1000.0)
    ensures -0.00001 < f2 - y / 1000.0 < 0.00001
  {
    var x := y / 1000.0;
    assert -0.00000001 <= f1 - y <= 0.00000001;
    assert -0.00000001 <= f1 / 1000.0 - x <= 0.00000001;
    assert Size(f1 / 1000.0) <= 60_000.0;
    assert -0.000001 <= f2 - f1 / 1000.0 <= 0.000001;
  }

  lemma QuotientBounds(n: nat, d: int, r: int)
    requires 0 < d <= 31_000 && r == RoundHalfEven(n, d)
    requires 2 * (r * d - n) != d && 2 * (r * d - n) != -d
    ensures -0.99997 < 2.0 * (r as real - n as real / d as real) < 0.99997
  {
    var x, gap := n as real / d as real, 2 * (r * d - n);
    assert -d < gap < d;
    assert x * d as real == n as real;
    assert 2.0 * (r as real - x) * d as real == gap as real;
    DivideBound(2.0 * (r as real - x), gap, d);
  }

  lemma BelowByProduct(a: real, b: real, size: real)
    requires 0.0 < size && a * size < b * size
    ensures a < b
  {
    assert (b - a) * size == b * size - a * size;
  }

  lemma RoomAtTheEnds(g: real, size: real)
    requires 0.0 < size <= 31_000.0 && g <= size - 1.0
    ensures g < 0.99997 * size
  {
  }

  lemma DivideBound(z: real, gap: int, d: int)
    requires 0 < d <= 31_000 && -d < gap < d && z * d as real == gap as real
    ensures -0.99997 < z < 0.99997
  {
    var size, g := d as real, gap as real;
    assert z * size == g && g <= size - 1.0 && -g <= size - 1.0;
    assert (-z) * size == -g;
    RoomAtTheEnds(g, size);
    RoomAtTheEnds(-g, size);
    BelowByProduct(z, 0.99997, size);
    BelowByProduct(-z, 0.99997, size);
  }

  /** price * kept / lessons / 1000, each division rounded, then rounded to a whole number: the exact nearest one. */
  lemma FloatsRoundTheSame(price: nat, kept: nat, lessons: nat, f1: real, f2: real)
    requires price <= MAX_PRICE && kept <= lessons && 0 < lessons <= 31
    requires IsRounded(f1, (price * kept) as real / lessons as real) && IsRounded(f2, f1 / 1000.0)
    ensures RoundReal(f2) == RoundHalfEven(price * kept, lessons * 1000)
  {
    ShareOfPrice(price, kept, lessons);
    hide *;
    DivisionsRoundTheSame(price * kept, lessons, f1, f2);
  }

  lemma DivisionsRoundTheSame(n: nat, lessons: nat, f1: real, f2: real)
    requires 0 < lessons <= 31 && 0.0 <= n as real / lessons as real <= 50_000_000.0
    requires IsRounded(f1, n as real / lessons as real) && IsRounded(f2, f1 / 1000.0)
    ensures RoundReal(f2) == RoundHalfEven(n, lessons * 1000)
  {
    var d: int := lessons * 1000;
    var r := RoundHalfEven(n, d);
    assert 2 * (r * d - n) == d || 2 * (r * d - n) == -d ==> r % 2 == 0;
    hide RoundHalfEven, RoundReal, IsRounded;
    if 2 * (r * d - n) == d || 2 * (r * d - n) == -d {
      TieRoundsTheSame(n, lessons, f1, f2, r);
    } else {
      hide *;
      TwoDivisionsAreClose(n as real / lessons as real, f1, f2);
      QuotientOfThousands(n, lessons);
      QuotientBounds(n, d, r);
      CloseRoundsTheSame(n as real / d as real, f2, r);
    }
  }

  lemma TieRoundsTheSame(n: nat, lessons: nat, f1: real, f2: real, r: int)
    requires 0 < lessons && n as real / lessons as real <= 50_000_000.0 && r % 2 == 0
    requires var d: int := lessons * 1000; 2 * (r * d - n) == d || 2 * (r * d - n) == -d
    requires IsRounded(f1, n as real / lessons as real) && IsRounded(f2, f1 / 1000.0)
    ensures RoundReal(f2) == r
  {
    var y := n as real / lessons as real;
    HalfIsExact(n, lessons, r);
    assert f1 == y && f2 == y / 1000.0;
    hide *;
    TieIsEven(f2, r);
  }

  lemma CloseRoundsTheSame(x: real, f: real, r: int)
    requires -0.00001 < f - x < 0.00001 && -0.99997 < 2.0 * (r as real - x) < 0.99997
    ensures RoundReal(f) == r
  {
    RoundedIsUnique(f, r);
  }

  lemma ShareOfPrice(price: nat, kept: nat, lessons: nat)
    requires price <= MAX_PRICE && kept <= lessons && 0 < lessons
    ensures 0.0 <= (price * kept) as real / lessons as real <= 50_000_000.0
  {
    ProductMonotone(price, kept, lessons);
    ProductMonotone(lessons, price, MAX_PRICE);
    var y := (price * kept) as real / lessons as real;
    assert y * lessons as real == (price * kept) as real <= 50_000_000.0 * lessons as real;
  }

  lemma QuotientOfThousands(n: nat, lessons: nat)
    requires 0 < lessons
    ensures n as real / lessons as real / 1000.0 == n as real / (lessons * 1000) as real
  {
    var y := n as real / lessons as real;
    assert y / 1000.0 * (lessons * 1000) as real == n as real;
  }

  /** An exact half is a floating-point number, and so is a thousand of it: no rounding happens on the way. */
  lemma HalfIsExact(n: nat, lessons: nat, r: int)
    requires 0 < lessons && n as real / lessons as real <= 50_000_000.0
    requires var d: int := lessons * 1000; 2 * (r * d - n) == d || 2 * (r * d - n) == -d
    ensures var y := n as real / lessons as real;
            IsHalves(y) && IsHalves(y / 1000.0) && (2.0 * (r as real - y / 1000.0) == 1.0 || 2.0 * (r as real - y / 1000.0) == -1.0)
  {
    var twice := if 2 * (r * (lessons * 1000) - n) == lessons * 1000 then 2 * r - 1 else 2 * r + 1;
    TwiceAThousand(n, lessons, r, twice);
    TwiceQuotient(n, lessons, twice * 1000);
    hide *;
    HalvesAreExact(n as real / lessons as real, twice, r);
  }

  lemma TwiceAThousand(n: nat, lessons: nat, r: int, twice: int)
    requires var d: int := lessons * 1000;
             (2 * (r * d - n) == d && twice == 2 * r - 1) || (2 * (r * d - n) == -d && twice == 2 * r + 1)
    ensures 2 * n == twice * 1000 * lessons
  {
    assert r * (lessons * 1000) == r * 1000 * lessons;
    assert twice * 1000 * lessons == 2 * (r * 1000 * lessons) + (if twice == 2 * r - 1 then -1000 * lessons else 1000 * lessons);
  }

  lemma IsHalfOf(x: real, m: int)
    requires x * 2.0 == m as real && -100_000_000 <= m <= 100_000_000
    ensures IsHalves(x)
  {
    assert (m as real).Floor == m;
  }

  lemma HalvesAreExact(y: real, twice: int, r: int)
    requires y * 2.0 == (twice * 1000) as real && 0.0 <= y <= 50_000_000.0 && (twice == 2 * r - 1 || twice == 2 * r + 1)
    ensures IsHalves(y) && IsHalves(y / 1000.0)
    ensures 2.0 * (r as real - y / 1000.0) == 1.0 || 2.0 * (r as real - y / 1000.0) == -1.0
  {
    var t, x := twice as real, y / 1000.0;
    assert y * 2.0 == 1000.0 * t && x * 2.0 == t;
    assert 0.0 <= 1000.0 * t <= 100_000_000.0;
    hide *;
    IsHalfOf(y, twice * 1000);
    IsHalfOf(x, twice);
  }

  lemma TwiceQuotient(n: nat, lessons: nat, m: int)
    requires 0 < lessons && 2 * n == m * lessons
    ensures n as real / lessons as real * 2.0 == m as real
  {
    var y := n as real / lessons as real;
    assert y * lessons as real == n as real;
    assert (y * 2.0 - m as real) * lessons as real == 0.0;
  }

  lemma {:induction false} AtMostTheDays(days: seq<int>, lo: Day, hi: Day)
    requires lo <= hi
    ensures |LessonsBetween(days, lo, hi)| <= hi - lo
    decreases hi - lo
  {
    if lo < hi {
      AtMostTheDays(days, lo + 1, hi);
    }
  }

  /** So the amount of part of a month is the program's, whatever the month, the weekdays and the stretch. */
  lemma AmountIsThePrograms(
    price: nat, days: seq<int>, month: Month, start: Option<Day>, end: Option<Day>, f1: real, f2: real)
    requires price <= MAX_PRICE && |Kept(LessonsInMonth(month, days), start, end)| < |LessonsInMonth(month, days)|
    requires var (kept, lessons) := (|Kept(LessonsInMonth(month, days), start, end)|, |LessonsInMonth(month, days)|);
             IsRounded(f1, (price * kept) as real / lessons as real) && IsRounded(f2, f1 / 1000.0)
    ensures MonthAmount(price, days, month, start, end) == RoundReal(f2) * 1000
  {
    FirstDayMonotone(month, month + 1);
    AtMostTheDays(days, FirstDay(month), FirstDay(month + 1));
    var kept, lessons := |Kept(LessonsInMonth(month, days), start, end)|, |LessonsInMonth(month, days)|;
    assert lessons <= 31;
    AmountByNumbers(price, days, month, start, end, kept, lessons);
    hide *;
    FloatsRoundTheSame(price, kept, lessons, f1, f2);
  }
}
