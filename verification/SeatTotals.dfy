/** What all the stretches of one seat were charged together: each lesson in any of them once. */
module SeatTotals {
  import opened Wrappers
  import opened Calendar
  import opened Lessons
  import opened Entries
  import opened Books
  import opened LedgerSafety
  import opened ClosedForm
  import opened SpanCost
  import opened Shadow
  import opened ShadowRuns
  import opened ShadowPaid
  import opened SeatDays

  /** The days an ended span itself is charged for: the opening balance carries those of its months. */
  function PaidDays(span: Span): Stretch
    requires span.end.Some?
  {
    Stretch(if span.InOpening(MonthOf(span.start)) then FirstDay(FirstOwed(span)) else span.start, span.end.value)
  }

  function StretchesOf(spans: seq<Span>, i: nat): seq<Stretch> {
    if spans == [] then []
    else
      var last := spans[|spans| - 1];
      StretchesOf(spans[..|spans| - 1], i) + if last.seat == i && last.end.Some? then [PaidDays(last)] else []
  }

  lemma PaidDaysStart(span: Span)
    requires span.end.Some?
    ensures span.start <= PaidDays(span).first
  {
    if span.InOpening(MonthOf(span.start)) {
      MonthOfFirstDay(span.start, FirstOwed(span));
    }
    hide MonthOf, FirstDay;
  }

  lemma {:induction false} StretchIsOfASpan(spans: seq<Span>, i: nat, k: nat) returns (s: nat)
    requires k < |StretchesOf(spans, i)|
    ensures s < |spans| && spans[s].seat == i && spans[s].end.Some? && StretchesOf(spans, i)[k] == PaidDays(spans[s])
  {
    var init := spans[..|spans| - 1];
    if k < |StretchesOf(init, i)| {
      s := StretchIsOfASpan(init, i, k);
    } else {
      s := |spans| - 1;
    }
  }

  /** Apart, the stretches are disjoint. */
  lemma {:induction false} StretchesAreDisjoint(spans: seq<Span>, i: nat)
    requires NoDayTwice(spans, i)
    ensures Disjoint(StretchesOf(spans, i))
  {
    if spans != [] {
      var init, last := spans[..|spans| - 1], spans[|spans| - 1];
      var cut := StretchesOf(spans, i);
      ApartBefore(spans, i);
      StretchesAreDisjoint(init, i);
      if last.seat == i && last.end.Some? {
        forall k, d: Day | 0 <= k < |cut| - 1 && Touches(cut[k], d) ensures !Touches(cut[|cut| - 1], d) {
          var s := StretchIsOfASpan(init, i, k);
          assert init[s] == spans[s];
          SpansDoNotTouch(spans[s], last, d);
        }
      }
    }
  }

  lemma ApartBefore(spans: seq<Span>, i: nat)
    requires NoDayTwice(spans, i) && spans != []
    ensures NoDayTwice(spans[..|spans| - 1], i)
  {
    hide Meets;
  }

  lemma SpansDoNotTouch(a: Span, b: Span, d: Day)
    requires a.end.Some? && b.end.Some? && !Meets(a, b) && Touches(PaidDays(a), d)
    ensures !Touches(PaidDays(b), d)
  {
    PaidDaysStart(a);
    PaidDaysStart(b);
    hide PaidDays;
  }

  // ---------- what one stretch costs ----------

  lemma {:induction false} NothingInMonths(price: int, days: seq<int>, start: Day, end: Day, first: Month, last: int)
    requires forall m: Month, d: Day :: first <= m <= last && FirstDay(m) <= d < FirstDay(m + 1) ==> !Within(d, Some(start), Some(end))
    ensures StretchCost(price, days, start, end, first, last) == 0
    decreases last - first
  {
    if first <= last {
      AmountOfNothing(price, days, first, Some(start), Some(end));
      hide MonthAmount, FirstDay;
      NothingInMonths(price, days, start, end, first + 1, last);
    }
  }

  lemma {:induction false} SameMonths(price: int, days: seq<int>, start: Day, start': Day, end: Day, first: Month, last: int)
    requires start <= FirstDay(first) && start' <= FirstDay(first)
    ensures StretchCost(price, days, start, end, first, last) == StretchCost(price, days, start', end, first, last)
    decreases last - first
  {
    if first <= last {
      var lessons := LessonsInMonth(first, days);
      LessonsBetweenAre(days, FirstDay(first), FirstDay(first + 1));
      FirstDayMonotone(first, first + 1);
      hide FirstDay, LessonsBetween;
      KeptSame(lessons, Some(start), Some(end), Some(start'), Some(end));
      assert MonthAmount(price, days, first, Some(start), Some(end)) == MonthAmount(price, days, first, Some(start'), Some(end));
      hide MonthAmount;
      SameMonths(price, days, start, start', end, first + 1, last);
    }
  }

  /** The lessons an ended span owes cost what its stretch of paid days costs, over any months that hold it. */
  lemma StretchOfSpanCosts(seat: Seat, span: Span, lo: Month, hi: Month)
    requires span.end.Some? && !span.InOpening(span.EndMonth().value) && lo <= FirstOwed(span) && MonthOf(span.end.value) <= hi
    ensures StretchCost(seat.ChargePrice(), seat.days, PaidDays(span).first, PaidDays(span).last, lo, hi) ==
            if span.end.value < span.start then 0 else LessonsCost(seat, span)
  {
    var from, end, price := PaidDays(span).first, span.end.value, seat.ChargePrice();
    PaidDaysStart(span);
    if end < span.start {
      NothingInMonths(price, seat.days, from, end, lo, hi);
    } else {
      var owed, month := FirstOwed(span), MonthOf(end);
      MonthOfMonotone(span.start, end);
      assert owed <= month && (span.InOpening(MonthOf(span.start)) || owed == MonthOf(span.start));
      PaidFromItsMonth(span);
      hide FirstOwed, PaidDays, MonthOf, FirstDay;
      OwedStretch(price, seat.days, span.start, from, end, lo, owed, month, hi);
    }
  }

  /** The first paid day lies in the first month owed; before it the opening carries every month from the start. */
  lemma PaidFromItsMonth(span: Span)
    requires span.end.Some?
    ensures MonthOf(PaidDays(span).first) == FirstOwed(span)
    ensures PaidDays(span).first == span.start || (PaidDays(span).first == FirstDay(FirstOwed(span)) && span.start <= FirstDay(FirstOwed(span)))
  {
    PaidDaysStart(span);
    var owed := FirstOwed(span);
    FirstDayMonotone(owed, owed + 1);
    if span.InOpening(MonthOf(span.start)) {
      MonthOfIsUnique(FirstDay(owed), owed);
    }
    hide MonthOf, FirstDay;
  }

  lemma OwedStretch(price: int, days: seq<int>, start: Day, from: Day, end: Day, lo: Month, owed: Month, month: Month, hi: Month)
    requires lo <= owed <= month <= hi && month == MonthOf(end) && owed == MonthOf(from)
    requires from == start || (from == FirstDay(owed) && start <= FirstDay(owed))
    ensures StretchCost(price, days, from, end, lo, hi) == StretchCost(price, days, start, end, owed, month)
  {
    hide MonthAmount;
    StretchCostSplits(price, days, from, end, lo, owed - 1, hi);
    StretchCostSplits(price, days, from, end, owed, month, hi);
    BeforeItsMonth(price, days, from, end, lo, owed);
    AfterItsMonth(price, days, from, end, month, hi);
    if from != start {
      SameMonths(price, days, start, from, end, owed, month);
    }
  }

  lemma BeforeItsMonth(price: int, days: seq<int>, from: Day, end: Day, lo: Month, owed: Month)
    requires owed == MonthOf(from)
    ensures StretchCost(price, days, from, end, lo, owed - 1) == 0
  {
    forall m: Month, d: Day | lo <= m <= owed - 1 && FirstDay(m) <= d < FirstDay(m + 1) ensures !Within(d, Some(from), Some(end)) {
      FirstDayMonotone(m + 1, owed);
    }
    hide FirstDay, MonthOf;
    NothingInMonths(price, days, from, end, lo, owed - 1);
  }

  lemma AfterItsMonth(price: int, days: seq<int>, from: Day, end: Day, month: Month, hi: Month)
    requires month == MonthOf(end)
    ensures StretchCost(price, days, from, end, month + 1, hi) == 0
  {
    forall m: Month, d: Day | month + 1 <= m <= hi && FirstDay(m) <= d < FirstDay(m + 1) ensures !Within(d, Some(from), Some(end)) {
      FirstDayMonotone(month + 1, m);
    }
    hide FirstDay, MonthOf;
    NothingInMonths(price, days, from, end, month + 1, hi);
  }

  // ---------- all of a seat's stretches ----------

  /** What the stretches cost, month by month. */
  function CutCost(price: int, days: seq<int>, cut: seq<Stretch>, first: Month, last: int): int
    decreases last - first
  {
    if first > last then 0 else CutAmount(price, days, first, cut) + CutCost(price, days, cut, first + 1, last)
  }

  lemma {:induction false} CutCostOfOneMore(price: int, days: seq<int>, cut: seq<Stretch>, more: Stretch, first: Month, last: int)
    ensures CutCost(price, days, cut + [more], first, last) ==
            CutCost(price, days, cut, first, last) + StretchCost(price, days, more.first, more.last, first, last)
    decreases last - first
  {
    assert (cut + [more])[..|cut|] == cut;
    if first <= last {
      hide MonthAmount;
      CutCostOfOneMore(price, days, cut, more, first + 1, last);
    }
  }

  lemma {:induction false} CutCostOfNone(price: int, days: seq<int>, first: Month, last: int)
    ensures CutCost(price, days, [], first, last) == 0
    decreases last - first
  {
    if first <= last { CutCostOfNone(price, days, first + 1, last); }
  }

  /** What the live rows of the seat's spans add up to, those of the first n. */
  function SeatTotal(rows: seq<Entry>, spans: seq<Span>, n: nat, i: nat): int
    requires n <= |spans|
  {
    if n == 0 then 0 else SeatTotal(rows, spans, n - 1, i) + if spans[n - 1].seat == i then SpanTotal(rows, n - 1) else 0
  }

  /** The span has ended after the opening, between two months, and nothing of it was missed. */
  predicate WholePaid(seat: Seat, span: Span, billed: int, lo: Month, hi: Month) {
    span.end.Some? && !span.InOpening(span.EndMonth().value) && lo <= FirstOwed(span) && MonthOf(span.end.value) <= hi &&
    (span.start <= span.end.value ==> NothingMissed(seat, span, billed))
  }

  ghost predicate SeatWholePaid(b: Book, billed: seq<int>, i: nat, lo: Month, hi: Month)
    requires i < |b.seats| && |billed| == |b.spans|
  {
    forall s :: 0 <= s < |b.spans| && b.spans[s].seat == i ==> WholePaid(b.seats[i], b.spans[s], billed[s], lo, hi)
  }

  lemma OneSpanPaid(b: Book, billed: seq<int>, s: nat, lo: Month, hi: Month)
    requires Inv(b) && AllSettled(b, billed) && |billed| == |b.spans| && s < |b.spans| && b.spans[s].seat < |b.seats|
    requires WholePaid(b.seats[b.spans[s].seat], b.spans[s], billed[s], lo, hi)
    ensures var seat, span := b.seats[b.spans[s].seat], b.spans[s];
            SpanTotal(b.entries, s) == -StretchCost(seat.ChargePrice(), seat.days, PaidDays(span).first, PaidDays(span).last, lo, hi)
  {
    assert SpanSettled(b, s, billed[s]);
    hide Inv, AllSettled, SpanSettled, MonthOf, NothingMissed, LessonsCost, SpanTotal, FirstOwed, PaidDays;
    StretchOfSpanCosts(b.seats[b.spans[s].seat], b.spans[s], lo, hi);
    EndedOwes(b, s, billed[s]);
  }

  lemma StretchesOfOneMore(spans: seq<Span>, n: nat, i: nat)
    requires 0 < n <= |spans|
    ensures StretchesOf(spans[..n], i) ==
            StretchesOf(spans[..n - 1], i) + if spans[n - 1].seat == i && spans[n - 1].end.Some? then [PaidDays(spans[n - 1])] else []
  {
    assert spans[..n][..n - 1] == spans[..n - 1];
    hide PaidDays;
  }

  lemma SeatTotalOfOneMore(rows: seq<Entry>, spans: seq<Span>, n: nat, i: nat)
    requires 0 < n <= |spans|
    ensures SeatTotal(rows, spans, n, i) == SeatTotal(rows, spans, n - 1, i) + if spans[n - 1].seat == i then SpanTotal(rows, n - 1) else 0
  {
    hide SpanTotal;
  }

  lemma SeatWholePaidAt(b: Book, billed: seq<int>, i: nat, lo: Month, hi: Month, s: nat)
    requires i < |b.seats| && |billed| == |b.spans| && SeatWholePaid(b, billed, i, lo, hi) && s < |b.spans| && b.spans[s].seat == i
    ensures WholePaid(b.seats[i], b.spans[s], billed[s], lo, hi) && b.spans[s].end.Some?
  {
    assert WholePaid(b.seats[i], b.spans[s], billed[s], lo, hi);
    hide NothingMissed, MonthOf, FirstOwed;
  }

  lemma {:induction false} SeatTotalIsTheCut(b: Book, billed: seq<int>, i: nat, n: nat, lo: Month, hi: Month)
    requires Inv(b) && AllSettled(b, billed) && |billed| == |b.spans| && i < |b.seats| && n <= |b.spans|
    requires SeatWholePaid(b, billed, i, lo, hi)
    ensures SeatTotal(b.entries, b.spans, n, i) ==
            -CutCost(b.seats[i].ChargePrice(), b.seats[i].days, StretchesOf(b.spans[..n], i), lo, hi)
  {
    var price, days := b.seats[i].ChargePrice(), b.seats[i].days;
    if n == 0 {
      CutCostOfNone(price, days, lo, hi);
    } else {
      hide *;
      SeatTotalIsTheCut(b, billed, i, n - 1, lo, hi);
      StretchesOfOneMore(b.spans, n, i);
      SeatTotalOfOneMore(b.entries, b.spans, n, i);
      var span := b.spans[n - 1];
      if span.seat == i {
        SeatWholePaidAt(b, billed, i, lo, hi, n - 1);
        OneSpanPaid(b, billed, n - 1, lo, hi);
        CutCostOfOneMore(price, days, StretchesOf(b.spans[..n - 1], i), PaidDays(span), lo, hi);
      } else {
        assert StretchesOf(b.spans[..n], i) == StretchesOf(b.spans[..n - 1], i);
      }
    }
  }

  /** A seat whose stretches share no day has been charged, for them all, the cost of the stretches; and in every month that
      is, within 500 so'm a stretch, the price of the lessons lying in any of them, each counted once. */
  lemma EachLessonIsPaidOnce(b: Book, billed: seq<int>, i: nat, lo: Month, hi: Month, month: Month)
    requires Inv(b) && AllSettled(b, billed) && |billed| == |b.spans| && i < |b.seats| && NoDayTwice(b.spans, i)
    requires SeatWholePaid(b, billed, i, lo, hi)
    ensures var seat, cut := b.seats[i], StretchesOf(b.spans, i); var lessons := LessonsInMonth(month, seat.days);
            SeatTotal(b.entries, b.spans, |b.spans|, i) == -CutCost(seat.ChargePrice(), seat.days, cut, lo, hi) &&
            -500 * |cut| * |lessons| <=
              CutAmount(seat.ChargePrice(), seat.days, month, cut) * |lessons| - seat.ChargePrice() * |CoveredLessons(lessons, cut)| <=
            500 * |cut| * |lessons|
  {
    assert b.spans[..|b.spans|] == b.spans;
    SeatTotalIsTheCut(b, billed, i, |b.spans|, lo, hi);
    StretchesAreDisjoint(b.spans, i);
    hide *;
    CutIsNearest(b.seats[i].ChargePrice(), b.seats[i].days, month, StretchesOf(b.spans, i));
  }

  /** Over every course at fixed terms whose looks all fitted the seat. */
  lemma EveryCourseChargesEachLessonOnce(moments: seq<Moment>, i: nat, lo: Month, hi: Month, month: Month)
    requires SteadyCourse(moments) && i < |Course(moments).seats| && SeatWholePaid(Course(moments), BilledCourse(moments), i, lo, hi)
    requires forall n :: 0 <= n < |moments| ==> FitsAt(moments, n, i)
    ensures var b := Course(moments);
            var seat, cut := b.seats[i], StretchesOf(b.spans, i); var lessons := LessonsInMonth(month, seat.days);
            SeatTotal(b.entries, b.spans, |b.spans|, i) == -CutCost(seat.ChargePrice(), seat.days, cut, lo, hi) &&
            -500 * |cut| * |lessons| <=
              CutAmount(seat.ChargePrice(), seat.days, month, cut) * |lessons| - seat.ChargePrice() * |CoveredLessons(lessons, cut)| <=
            500 * |cut| * |lessons|
  {
    assert moments[..|moments|] == moments;
    EveryRunPaid(moments);
    ApartWhileItFits(moments, |moments|, i);
    assert NoDayTwice(Course(moments).spans, i);
    hide *;
    EachLessonIsPaidOnce(Course(moments), BilledCourse(moments), i, lo, hi, month);
  }
}
