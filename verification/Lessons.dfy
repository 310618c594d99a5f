/** The part of a month's price that is owed for some of its days. */
module Lessons {
  import opened Wrappers
  import opened Calendar

  // ---------- rounding ----------

  /** The whole number nearest n/d; exactly half way goes to the even one (roundTiesToEven). */
  function RoundHalfEven(n: int, d: int): (r: int)
    requires d > 0
    ensures -d <= 2 * (r * d - n) <= d
    ensures 2 * (r * d - n) == d || 2 * (r * d - n) == -d ==> r % 2 == 0
  {
    var q := n / d;
    var rest := n % d;
    assert n == q * d + rest;
    assert (q + 1) * d == q * d + d;
    if 2 * rest < d then q
    else if 2 * rest > d then q + 1
    else if q % 2 == 0 then q else q + 1
  }

  // The contract above leaves no second answer.
  lemma NearestIsUnique(n: int, d: int, r: int)
    requires d > 0
    requires -d <= 2 * (r * d - n) <= d
    requires 2 * (r * d - n) == d || 2 * (r * d - n) == -d ==> r % 2 == 0
    ensures r == RoundHalfEven(n, d)
  {
    var s := RoundHalfEven(n, d);
    if r > s {
      ScaleStrict(s, r, d);
    } else if s > r {
      ScaleStrict(r, s, d);
    }
  }

  lemma ScaleStrict(a: int, b: int, d: int)
    requires a < b && d > 0
    ensures a * d + d <= b * d
    ensures b - a >= 2 ==> a * d + 2 * d <= b * d
  {
    var gap := b - a;
    assert b * d == a * d + gap * d;
    assert gap * d == d + (gap - 1) * d;
    ProductMonotone(d, 0, gap - 1);
    if gap >= 2 {
      ProductMonotone(d, 1, gap - 1);
    }
  }

  lemma RoundMonotone(a: int, b: int, d: int)
    requires d > 0 && a <= b
    ensures RoundHalfEven(a, d) <= RoundHalfEven(b, d)
  {
    var r, s := RoundHalfEven(a, d), RoundHalfEven(b, d);
    if s < r {
      ScaleStrict(s, r, d);
      assert a == b;
    }
  }

  // ---------- lesson days ----------

  predicate IsLesson(days: seq<int>, day: Day) {
    IsoWeekday(day) in days
  }

  /** The lesson days from lo to the day before hi, in order. */
  function LessonsBetween(days: seq<int>, lo: Day, hi: Day): seq<Day>
    decreases hi - lo
  {
    if lo >= hi then []
    else (if IsLesson(days, lo) then [lo] else []) + LessonsBetween(days, lo + 1, hi)
  }

  function LessonsInMonth(month: Month, days: seq<int>): seq<Day> {
    LessonsBetween(days, FirstDay(month), FirstDay(month + 1))
  }

  predicate Within(day: Day, start: Option<Day>, end: Option<Day>) {
    (start.None? || start.value <= day) && (end.None? || day <= end.value)
  }

  function Kept(lessons: seq<Day>, start: Option<Day>, end: Option<Day>): seq<Day> {
    if lessons == [] then []
    else (if Within(lessons[0], start, end) then [lessons[0]] else []) + Kept(lessons[1..], start, end)
  }

  /** The price of those lessons of a month that fall in a stretch of days; no bound leaves that side open. */
  function MonthAmount(price: int, days: seq<int>, month: Month, start: Option<Day>, end: Option<Day>): int {
    var lessons := LessonsInMonth(month, days);
    var kept := Kept(lessons, start, end);
    if lessons == [] then 0
    else if |kept| == |lessons| then price
    else RoundHalfEven(price * |kept|, |lessons| * 1000) * 1000
  }

  lemma {:induction false} LessonsBetweenAre(days: seq<int>, lo: Day, hi: Day)
    ensures forall i :: 0 <= i < |LessonsBetween(days, lo, hi)| ==>
      lo <= LessonsBetween(days, lo, hi)[i] < hi && IsLesson(days, LessonsBetween(days, lo, hi)[i])
    ensures forall i, j :: 0 <= i < j < |LessonsBetween(days, lo, hi)| ==>
      LessonsBetween(days, lo, hi)[i] < LessonsBetween(days, lo, hi)[j]
    ensures forall d :: lo <= d < hi && IsLesson(days, d) ==> d in LessonsBetween(days, lo, hi)
    decreases hi - lo
  {
    if lo < hi {
      LessonsBetweenAre(days, lo + 1, hi);
    }
  }

  /** A month's lessons are its days on the wanted ISO weekdays, Monday being 1. */
  lemma MonthLessonsAre(month: Month, days: seq<int>, day: Day)
    ensures day in LessonsInMonth(month, days) <==> MonthOf(day) == month && (day % 7 + 1) in days
  {
    LessonsBetweenAre(days, FirstDay(month), FirstDay(month + 1));
    if FirstDay(month) <= day < FirstDay(month + 1) {
      MonthOfIsUnique(day, month);
    }
    hide LessonsBetween, FirstDay;
  }

  lemma {:induction false} KeptSize(lessons: seq<Day>, start: Option<Day>, end: Option<Day>)
    ensures |Kept(lessons, start, end)| <= |lessons|
    ensures |Kept(lessons, start, end)| == |lessons| <==>
      forall i :: 0 <= i < |lessons| ==> Within(lessons[i], start, end)
    ensures (forall i :: 0 <= i < |lessons| ==> !Within(lessons[i], start, end)) ==> Kept(lessons, start, end) == []
  {
    if lessons != [] {
      KeptSize(lessons[1..], start, end);
      if forall i :: 0 <= i < |lessons| ==> Within(lessons[i], start, end) {
        forall i | 0 <= i < |lessons[1..]| ensures Within(lessons[1..][i], start, end) {
          assert lessons[1..][i] == lessons[i + 1];
        }
      }
      if |Kept(lessons, start, end)| == |lessons| {
        forall i | 0 <= i < |lessons| ensures Within(lessons[i], start, end) {
          if i > 0 { assert lessons[i] == lessons[1..][i - 1]; }
        }
      }
      if forall i :: 0 <= i < |lessons| ==> !Within(lessons[i], start, end) {
        forall i | 0 <= i < |lessons[1..]| ensures !Within(lessons[1..][i], start, end) {
          assert lessons[1..][i] == lessons[i + 1];
        }
      }
    }
  }

  /** The lessons paid for are exactly those from the start to the end, both days included. */
  lemma {:induction false} KeptAre(lessons: seq<Day>, start: Option<Day>, end: Option<Day>, day: Day)
    ensures day in Kept(lessons, start, end) <==>
      day in lessons && (start == None || start.value <= day) && (end == None || day <= end.value)
  {
    if lessons != [] {
      KeptAre(lessons[1..], start, end, day);
      assert lessons == [lessons[0]] + lessons[1..];
    }
  }

  ghost predicate Narrower(start: Option<Day>, end: Option<Day>, start': Option<Day>, end': Option<Day>) {
    forall d: Day :: Within(d, start, end) ==> Within(d, start', end')
  }

  lemma {:induction false} KeptMonotone(
    lessons: seq<Day>, start: Option<Day>, end: Option<Day>, start': Option<Day>, end': Option<Day>)
    requires Narrower(start, end, start', end')
    ensures |Kept(lessons, start, end)| <= |Kept(lessons, start', end')|
  {
    if lessons != [] {
      KeptMonotone(lessons[1..], start, end, start', end');
    }
  }

  lemma {:induction false} KeptSame(
    lessons: seq<Day>, start: Option<Day>, end: Option<Day>, start': Option<Day>, end': Option<Day>)
    requires forall i :: 0 <= i < |lessons| ==> (Within(lessons[i], start, end) <==> Within(lessons[i], start', end'))
    ensures Kept(lessons, start, end) == Kept(lessons, start', end')
  {
    if lessons != [] {
      forall i | 0 <= i < |lessons[1..]|
        ensures Within(lessons[1..][i], start, end) <==> Within(lessons[1..][i], start', end')
      {
        assert lessons[1..][i] == lessons[i + 1];
      }
      KeptSame(lessons[1..], start, end, start', end');
    }
  }

  // ---------- what a stretch costs ----------

  lemma NearestPart(price: int, kept: nat, lessons: nat)
    requires 0 < lessons
    ensures -500 * lessons <= RoundHalfEven(price * kept, lessons * 1000) * 1000 * lessons - price * kept <= 500 * lessons
  {
    var r := RoundHalfEven(price * kept, lessons * 1000);
    assert r * (lessons * 1000) == r * 1000 * lessons;
  }

  /** Never more than 500 so'm away from price * kept / lessons. */
  lemma AmountIsNearest(price: int, days: seq<int>, month: Month, start: Option<Day>, end: Option<Day>)
    ensures var lessons := LessonsInMonth(month, days);
            var kept := Kept(lessons, start, end);
            -500 * |lessons| <= MonthAmount(price, days, month, start, end) * |lessons| - price * |kept| <= 500 * |lessons|
  {
    var lessons := LessonsInMonth(month, days);
    var kept := Kept(lessons, start, end);
    KeptSize(lessons, start, end);
    if lessons != [] && |kept| != |lessons| {
      NearestPart(price, |kept|, |lessons|);
    }
  }

  /** A stretch that reaches every lesson of the month costs the price itself, whatever the price. */
  lemma WholeMonthIsThePrice(price: int, days: seq<int>, month: Month, start: Option<Day>, end: Option<Day>)
    requires LessonsInMonth(month, days) != []
    requires start.None? || start.value <= FirstDay(month)
    requires end.None? || FirstDay(month + 1) <= end.value + 1
    ensures MonthAmount(price, days, month, start, end) == price
  {
    LessonsBetweenAre(days, FirstDay(month), FirstDay(month + 1));
    KeptSize(LessonsInMonth(month, days), start, end);
  }

  // Free lessons cost nothing.
  lemma NothingAtNoPrice(days: seq<int>, month: Month, start: Option<Day>, end: Option<Day>)
    ensures MonthAmount(0, days, month, start, end) == 0
  {
    var lessons := LessonsInMonth(month, days);
    if lessons != [] {
      NearestIsUnique(0, |lessons| * 1000, 0);
    }
    hide LessonsBetween, Kept, RoundHalfEven;
  }

  lemma AmountOfNothing(price: int, days: seq<int>, month: Month, start: Option<Day>, end: Option<Day>)
    requires forall d :: FirstDay(month) <= d < FirstDay(month + 1) ==> !Within(d, start, end)
    ensures MonthAmount(price, days, month, start, end) == 0
  {
    var lessons := LessonsInMonth(month, days);
    LessonsBetweenAre(days, FirstDay(month), FirstDay(month + 1));
    hide LessonsBetween, FirstDay, Kept, RoundHalfEven;
    KeptSize(lessons, start, end);
    assert Kept(lessons, start, end) == [] && price * 0 == 0;
    if lessons != [] {
      NearestIsUnique(0, |lessons| * 1000, 0);
    }
  }

  lemma AmountIsNotNegative(price: int, days: seq<int>, month: Month, start: Option<Day>, end: Option<Day>)
    requires 0 <= price
    ensures 0 <= MonthAmount(price, days, month, start, end)
  {
    var lessons := LessonsInMonth(month, days);
    if lessons != [] {
      var kept := Kept(lessons, start, end);
      assert 0 <= price * |kept|;
      NearestIsUnique(0, |lessons| * 1000, 0);
      RoundMonotone(0, price * |kept|, |lessons| * 1000);
    }
  }

  /** A wider stretch never costs less, unless the wider one is the whole month and its price has a broken
      thousand; and part of a month never passes a price in thousands. */
  lemma WiderCostsNoLess(
    price: int, days: seq<int>, month: Month, start: Option<Day>, end: Option<Day>, start': Option<Day>, end': Option<Day>)
    requires 0 <= price
    requires Narrower(start, end, start', end')
    ensures price % 1000 == 0 || |Kept(LessonsInMonth(month, days), start', end')| < |LessonsInMonth(month, days)| ==>
      MonthAmount(price, days, month, start, end) <= MonthAmount(price, days, month, start', end')
    ensures price % 1000 == 0 ==> MonthAmount(price, days, month, start', end') <= price
  {
    var lessons := LessonsInMonth(month, days);
    KeptMonotone(lessons, start, end, start', end');
    KeptSize(lessons, start, end);
    KeptSize(lessons, start', end');
    if lessons != [] {
      if price % 1000 == 0 {
        PartBelowPrice(price, |Kept(lessons, start, end)|, |lessons|);
        PartBelowPrice(price, |Kept(lessons, start', end')|, |lessons|);
      }
      ProductMonotone(price, |Kept(lessons, start, end)|, |Kept(lessons, start', end')|);
      RoundMonotone(price * |Kept(lessons, start, end)|, price * |Kept(lessons, start', end')|, |lessons| * 1000);
    }
  }

  lemma ProductMonotone(price: int, a: nat, b: nat)
    requires 0 <= price && a <= b
    ensures 0 <= price * a <= price * b
  {
    assert price * (b - a) >= 0;
  }

  lemma PartBelowPrice(price: int, kept: nat, lessons: nat)
    requires 0 <= price && price % 1000 == 0 && kept <= lessons && 0 < lessons
    ensures RoundHalfEven(price * kept, lessons * 1000) * 1000 <= price
  {
    var q := price / 1000;
    ProductMonotone(price, kept, lessons);
    assert price * lessons == q * (lessons * 1000);
    NearestIsUnique(q * (lessons * 1000), lessons * 1000, q);
    RoundMonotone(price * kept, price * lessons, lessons * 1000);
  }

  /** The step at which rounding carries n out of N lessons past a price with a broken thousand. */
  predicate RoundsPast(price: nat, kept: nat, lessons: nat) {
    price % 1000 != 0 &&
    (2 * price * kept > (2 * (price / 1000) + 1) * (1000 * lessons) ||
     (2 * price * kept == (2 * (price / 1000) + 1) * (1000 * lessons) && price / 1000 % 2 == 1))
  }

  lemma RoundsAbove(n: int, d: int, q: int)
    requires d > 0
    ensures q + 1 <= RoundHalfEven(n, d) <==> 2 * n > 2 * (q * d) + d || (2 * n == 2 * (q * d) + d && q % 2 == 1)
  {
    var r := RoundHalfEven(n, d);
    assert (q + 1) * d == q * d + d;
    if q + 1 < r {
      ScaleStrict(q + 1, r, d);
    } else if r < q {
      ScaleStrict(r, q, d);
    }
  }

  /** Part of a month costs more than the month exactly when the last half-thousand is rounded up past a price
      that is not in thousands. */
  lemma PartAbovePriceIff(price: nat, days: seq<int>, month: Month, start: Option<Day>, end: Option<Day>)
    requires |Kept(LessonsInMonth(month, days), start, end)| < |LessonsInMonth(month, days)|
    ensures price < MonthAmount(price, days, month, start, end) <==>
      RoundsPast(price, |Kept(LessonsInMonth(month, days), start, end)|, |LessonsInMonth(month, days)|)
  {
    var lessons := LessonsInMonth(month, days);
    PartPastIff(price, |Kept(lessons, start, end)|, |lessons|);
  }

  lemma PartPastIff(price: nat, kept: nat, lessons: nat)
    requires kept < lessons
    ensures price < RoundHalfEven(price * kept, lessons * 1000) * 1000 <==> RoundsPast(price, kept, lessons)
  {
    var q, d := price / 1000, lessons * 1000;
    if price % 1000 == 0 {
      PartBelowPrice(price, kept, lessons);
    } else {
      RoundsAbove(price * kept, d, q);
      assert (2 * q + 1) * d == 2 * (q * d) + d;
      assert 2 * price * kept == 2 * (price * kept);
    }
  }

  const DAILY := [1, 2, 3, 4, 5, 6, 7]

  lemma {:induction false} EveryDayIsALesson(lo: Day, hi: Day)
    requires lo <= hi
    ensures |LessonsBetween(DAILY, lo, hi)| == hi - lo
    decreases hi - lo
  {
    if lo < hi {
      EveryDayIsALesson(lo + 1, hi);
    }
  }

  lemma {:induction false} KeptOfBetween(days: seq<int>, lo: Day, hi: Day, start: Day, end: Day)
    requires start <= lo
    ensures Kept(LessonsBetween(days, lo, hi), Some(start), Some(end)) ==
            LessonsBetween(days, lo, if hi <= end + 1 then hi else end + 1)
    decreases hi - lo
  {
    if lo < hi {
      KeptOfBetween(days, lo + 1, hi, start, end);
      var rest := LessonsBetween(days, lo + 1, hi);
      if IsLesson(days, lo) {
        assert ([lo] + rest)[1..] == rest;
      } else {
        assert [] + rest == rest;
      }
    }
  }

  lemma DailyPart(month: Month, start: Day, last: Day)
    requires start <= FirstDay(month) <= last + 1 <= FirstDay(month + 1)
    ensures |LessonsInMonth(month, DAILY)| == FirstDay(month + 1) - FirstDay(month)
    ensures |Kept(LessonsInMonth(month, DAILY), Some(start), Some(last))| == last + 1 - FirstDay(month)
  {
    DailyStretch(FirstDay(month), FirstDay(month + 1), start, last);
    hide LessonsBetween, FirstDay, Kept;
  }

  lemma DailyStretch(lo: Day, hi: Day, start: Day, last: Day)
    requires start <= lo <= last + 1 <= hi
    ensures |LessonsBetween(DAILY, lo, hi)| == hi - lo
    ensures |Kept(LessonsBetween(DAILY, lo, hi), Some(start), Some(last))| == last + 1 - lo
  {
    EveryDayIsALesson(lo, hi);
    EveryDayIsALesson(lo, last + 1);
    KeptOfBetween(DAILY, lo, hi, start, last);
    hide *;
  }

  lemma DailyWhole(month: Month, start: Day)
    requires start <= FirstDay(month)
    ensures |Kept(LessonsInMonth(month, DAILY), Some(start), None)| == |LessonsInMonth(month, DAILY)|
  {
    LessonsBetweenAre(DAILY, FirstDay(month), FirstDay(month + 1));
    KeptSize(LessonsInMonth(month, DAILY), Some(start), None);
    hide LessonsBetween, FirstDay, Kept;
  }

  lemma January(day: Day)
    requires day < 31
    ensures MonthOf(day) == 0 && FirstDay(0) == 0 && FirstDay(1) == 31
  {
    assert FirstDay(0) == 0 && FirstDay(1) == 31;
    MonthOfIsUnique(day, 0);
  }

  /** Part and whole of a month by the number of lessons. */
  lemma AmountByNumbers(price: int, days: seq<int>, month: Month, start: Option<Day>, end: Option<Day>, kept: nat, lessons: nat)
    requires |LessonsInMonth(month, days)| == lessons > 0 && |Kept(LessonsInMonth(month, days), start, end)| == kept
    ensures MonthAmount(price, days, month, start, end) ==
            if kept == lessons then price else RoundHalfEven(price * kept, lessons * 1000) * 1000
  {
    hide LessonsInMonth, Kept, RoundHalfEven;
  }

  lemma JanuaryButOneDay(month: Month, first: Day, last: Day)
    requires month == 0 && first == 0 && last == 29
    ensures |LessonsInMonth(month, DAILY)| == 31 == |Kept(LessonsInMonth(month, DAILY), Some(first), None)|
    ensures |Kept(LessonsInMonth(month, DAILY), Some(first), Some(last))| == 30
  {
    January(last);
    assert first <= FirstDay(month) <= last + 1 <= FirstDay(month + 1);
    assert FirstDay(month + 1) - FirstDay(month) == 31;
    DailyPart(month, first, last);
    DailyWhole(month, first);
    hide *;
  }

  /** 30 of January's 31 daily lessons at 1,900 so'm cost 2,000, the whole month 1,900. */
  lemma PartCanCostMoreThanTheMonth(price: nat, month: Month, first: Day, last: Day)
    requires price == 1900 && month == 0 && first == 0 && last == 29
    ensures MonthAmount(price, DAILY, month, Some(first), Some(last)) == 2000
    ensures MonthAmount(price, DAILY, month, Some(first), None) == price
  {
    var kept, lessons := 30, 31;
    JanuaryButOneDay(month, first, last);
    NearestIsUnique(price * kept, lessons * 1000, 2);
    hide *;
    AmountByNumbers(price, DAILY, month, Some(first), Some(last), kept, lessons);
    AmountByNumbers(price, DAILY, month, Some(first), None, lessons, lessons);
  }

  // ---------- a month cut into stretches ----------

  datatype Stretch = Stretch(first: Day, last: Day)

  predicate Touches(s: Stretch, day: Day) {
    s.first <= day <= s.last
  }

  ghost predicate Disjoint(cut: seq<Stretch>) {
    forall i, j, d :: 0 <= i < j < |cut| && Touches(cut[i], d) ==> !Touches(cut[j], d)
  }

  predicate Covered(cut: seq<Stretch>, day: Day) {
    exists i :: 0 <= i < |cut| && Touches(cut[i], day)
  }

  function CoveredLessons(lessons: seq<Day>, cut: seq<Stretch>): seq<Day> {
    if lessons == [] then []
    else (if Covered(cut, lessons[0]) then [lessons[0]] else []) + CoveredLessons(lessons[1..], cut)
  }

  function CutAmount(price: int, days: seq<int>, month: Month, cut: seq<Stretch>): int {
    if cut == [] then 0
    else CutAmount(price, days, month, cut[..|cut| - 1]) +
         MonthAmount(price, days, month, Some(cut[|cut| - 1].first), Some(cut[|cut| - 1].last))
  }

  lemma {:induction false} CoveredByOneMore(lessons: seq<Day>, cut: seq<Stretch>)
    requires cut != [] && Disjoint(cut)
    ensures var last := cut[|cut| - 1];
            |CoveredLessons(lessons, cut)| ==
            |CoveredLessons(lessons, cut[..|cut| - 1])| + |Kept(lessons, Some(last.first), Some(last.last))|
  {
    if lessons != [] {
      CoveredByOneMore(lessons[1..], cut);
      var rest, last, d := cut[..|cut| - 1], cut[|cut| - 1], lessons[0];
      assert Covered(cut, d) <==> Covered(rest, d) || Touches(last, d) by {
        if Covered(rest, d) {
          var i :| 0 <= i < |rest| && Touches(rest[i], d);
          assert Touches(cut[i], d);
        }
        if Touches(last, d) { assert Touches(cut[|cut| - 1], d); }
        if Covered(cut, d) && !Touches(last, d) {
          var i :| 0 <= i < |cut| && Touches(cut[i], d);
          assert Touches(rest[i], d);
        }
      }
      if Covered(rest, d) {
        var i :| 0 <= i < |rest| && Touches(rest[i], d);
        assert Touches(cut[i], d);
        assert !Touches(last, d);
      }
    }
  }

  lemma {:induction false} CoveredByNone(lessons: seq<Day>)
    ensures CoveredLessons(lessons, []) == []
  {
    if lessons != [] {
      CoveredByNone(lessons[1..]);
    }
  }

  lemma AddBounds(x: int, y: int, price: int, a: int, b: int, n: nat, j: nat)
    requires -500 * j * n <= x * n - price * a <= 500 * j * n
    requires -500 * n <= y * n - price * b <= 500 * n
    ensures -500 * (j + 1) * n <= (x + y) * n - price * (a + b) <= 500 * (j + 1) * n
  {
    assert price * (a + b) == price * a + price * b;
    assert (x + y) * n == x * n + y * n;
    assert 500 * (j + 1) * n == 500 * j * n + 500 * n;
  }

  /** A month cut into j stretches that do not overlap sums to within 500 * j so'm of the cost of the lessons in
      their union. */
  lemma {:induction false} CutIsNearest(price: int, days: seq<int>, month: Month, cut: seq<Stretch>)
    requires Disjoint(cut)
    ensures var lessons := LessonsInMonth(month, days);
            -500 * |cut| * |lessons| <=
            CutAmount(price, days, month, cut) * |lessons| - price * |CoveredLessons(lessons, cut)| <=
            500 * |cut| * |lessons|
  {
    var lessons := LessonsInMonth(month, days);
    if cut == [] {
      CoveredByNone(lessons);
    } else {
      var rest, last := cut[..|cut| - 1], cut[|cut| - 1];
      CutIsNearest(price, days, month, rest);
      AmountIsNearest(price, days, month, Some(last.first), Some(last.last));
      CoveredByOneMore(lessons, cut);
      AddBounds(CutAmount(price, days, month, rest),
                MonthAmount(price, days, month, Some(last.first), Some(last.last)),
                price, |CoveredLessons(lessons, rest)|, |Kept(lessons, Some(last.first), Some(last.last))|,
                |lessons|, |rest|);
    }
  }
}
