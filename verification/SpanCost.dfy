/** What a span's live rows add up to: the price of the lessons between its two dates. */
module SpanCost {
  import opened Wrappers
  import opened Calendar
  import opened Lessons
  import opened Entries
  import opened Books
  import opened LedgerSafety
  import opened ClosedForm

  // ---------- rows added up month by month ----------

  function AmountOf(row: Option<Entry>): int {
    if row.Some? then row.value.amount else 0
  }

  function MonthNet(rows: seq<Entry>, id: nat, month: Month): int {
    AmountOf(FindLive(rows, ChargeKey(id, month))) + AmountOf(FindLive(rows, EndKey(id, month)))
  }

  function MonthsNet(rows: seq<Entry>, id: nat, first: Month, last: int): int
    decreases last - first
  {
    if first > last then 0 else MonthNet(rows, id, first) + MonthsNet(rows, id, first + 1, last)
  }

  lemma {:induction false} MonthsNetOfOneMore(rows: seq<Entry>, row: Entry, id: nat, first: Month, last: int)
    requires row.Live() ==> FindLive(rows, row.key).None?
    ensures MonthsNet(rows + [row], id, first, last) == MonthsNet(rows, id, first, last) +
      if row.Live() && KeyOf(row.key, id) && first <= row.key.month <= last then row.amount else 0
    decreases last - first
  {
    if first <= last {
      MonthsNetOfOneMore(rows, row, id, first + 1, last);
      FindAppended(rows, row, ChargeKey(id, first));
      FindAppended(rows, row, EndKey(id, first));
    }
  }

  /** The row is one of the span's exactly when its key is, and then its month is in range. */
  predicate KeyedWithin(row: Entry, id: nat, first: Month, last: int) {
    (row.span == Some(id) <==> KeyOf(row.key, id)) && (row.Live() && KeyOf(row.key, id) ==> first <= row.key.month <= last)
  }

  lemma {:induction false} MonthsNetOfNothing(id: nat, first: Month, last: int)
    ensures MonthsNet([], id, first, last) == 0
    decreases last - first
  {
    if first <= last {
      MonthsNetOfNothing(id, first + 1, last);
    }
  }

  lemma {:induction false} TotalByMonth(rows: seq<Entry>, id: nat, first: Month, last: int)
    requires UniqueLive(rows)
    requires forall i :: 0 <= i < |rows| ==> KeyedWithin(rows[i], id, first, last)
    ensures SpanTotal(rows, id) == MonthsNet(rows, id, first, last)
  {
    if rows == [] {
      MonthsNetOfNothing(id, first, last);
    } else {
      var init, row := rows[..|rows| - 1], rows[|rows| - 1];
      TotalByMonth(init, id, first, last);
      if row.Live() { NoneBefore(rows, |rows| - 1); }
      MonthsNetOfOneMore(init, row, id, first, last);
      assert rows == init + [row];
    }
  }

  // ---------- what the closed form adds up to ----------

  function ExpectedNet(seat: Seat, span: Span, id: nat, billed: int, month: Month): int {
    AmountOf(ExpectedCharge(seat, span, id, billed, month)) + AmountOf(ExpectedCredit(seat, span, id, billed, month))
  }

  function ExpectedTotal(seat: Seat, span: Span, id: nat, billed: int, first: Month, last: int): int
    decreases last - first
  {
    if first > last then 0
    else ExpectedNet(seat, span, id, billed, first) + ExpectedTotal(seat, span, id, billed, first + 1, last)
  }

  lemma {:induction false} SettledMonthsNet(
    rows: seq<Entry>, seat: Seat, span: Span, id: nat, billed: int, first: Month, last: int)
    requires Settled(rows, seat, span, id, billed)
    ensures MonthsNet(rows, id, first, last) == ExpectedTotal(seat, span, id, billed, first, last)
    decreases last - first
  {
    if first <= last {
      assert KeyOf(ChargeKey(id, first), id) && KeyOf(EndKey(id, first), id);
      SettledMonthsNet(rows, seat, span, id, billed, first + 1, last);
    }
  }

  lemma SettledTotal(b: Book, id: nat, billed: int)
    requires Inv(b) && id < |b.spans|
    requires Settled(b.entries, b.seats[b.spans[id].seat], b.spans[id], id, billed)
    ensures SpanTotal(b.entries, id) ==
      ExpectedTotal(b.seats[b.spans[id].seat], b.spans[id], id, billed, MonthOf(b.spans[id].start), billed)
  {
    var rows, seat, span := b.entries, b.seats[b.spans[id].seat], b.spans[id];
    var first := MonthOf(span.start);
    forall i | 0 <= i < |rows| ensures KeyedWithin(rows[i], id, first, billed) {
      assert RowOK(b, rows[i]);
      if rows[i].Live() && KeyOf(rows[i].key, id) {
        FindUnique(rows, i);
      }
    }
    TotalByMonth(rows, id, first, billed);
    SettledMonthsNet(rows, seat, span, id, billed, first, billed);
  }

  /** What the lessons from start to end cost, month by month. */
  function StretchCost(price: int, days: seq<int>, start: Day, end: Day, first: Month, last: int): int
    decreases last - first
  {
    if first > last then 0
    else MonthAmount(price, days, first, Some(start), Some(end)) + StretchCost(price, days, start, end, first + 1, last)
  }

  /** What every month from the span's start costs while it runs. */
  function RunningCost(seat: Seat, span: Span, first: Month, last: int): int
    decreases last - first
  {
    if first > last then 0 else Whole(seat, span, first) + RunningCost(seat, span, first + 1, last)
  }

  /** The first month the span itself is charged for: the opening balance carries the ones before it. */
  function FirstOwed(span: Span): Month {
    if span.InOpening(MonthOf(span.start)) then span.openingMonth.value + 1 else MonthOf(span.start)
  }

  lemma {:induction false} SkipOpening(seat: Seat, span: Span, id: nat, billed: int, first: Month, owed: Month, last: int)
    requires first <= owed && forall m: Month :: first <= m < owed ==> span.InOpening(m) && span.EndMonth() != Some(m)
    ensures ExpectedTotal(seat, span, id, billed, first, last) == ExpectedTotal(seat, span, id, billed, owed, last)
    decreases owed - first
  {
    if first < owed {
      SkipOpening(seat, span, id, billed, first + 1, owed, last);
    }
  }

  lemma {:induction false} ExpectedWhileRunning(seat: Seat, span: Span, id: nat, first: Month, billed: int)
    requires span.end.None? && !span.InOpening(first) && MonthOf(span.start) <= first
    ensures ExpectedTotal(seat, span, id, billed, first, billed) == -RunningCost(seat, span, first, billed)
    decreases billed - first
  {
    if first <= billed {
      ExpectedWhileRunning(seat, span, id, first + 1, billed);
    }
  }

  lemma {:induction false} ExpectedAfterEnd(seat: Seat, span: Span, id: nat, billed: int, first: Month, last: int)
    requires span.end.Some? && first > span.EndMonth().value
    ensures ExpectedTotal(seat, span, id, billed, first, last) == 0
    decreases last - first
  {
    if first <= last {
      ExpectedAfterEnd(seat, span, id, billed, first + 1, last);
    }
  }

  // Before its end month a span reaches every lesson from its start.
  lemma ReachedBeforeEnd(seat: Seat, span: Span, month: Month)
    requires span.end.Some? && month < MonthOf(span.end.value)
    ensures Reached(seat, span, month) == Whole(seat, span, month)
  {
    var lessons := LessonsInMonth(month, seat.days);
    LessonsBetweenAre(seat.days, FirstDay(month), FirstDay(month + 1));
    MonthOfFirstDay(span.end.value, month + 1);
    KeptSame(lessons, Some(span.start), span.end, Some(span.start), None);
  }

  /** One month of an ended span, billed past it: what its lessons to the end cost, unless the last part is rounded past. */
  lemma NetOfEnded(seat: Seat, span: Span, id: nat, billed: int, month: Month)
    requires span.end.Some? && span.start <= span.end.value && !span.InOpening(month)
    requires MonthOf(span.start) <= month <= MonthOf(span.end.value) && month <= billed
    ensures ExpectedNet(seat, span, id, billed, month) ==
            -Reached(seat, span, month) +
            if month == MonthOf(span.end.value) then Max(0, Reached(seat, span, month) - Whole(seat, span, month)) else 0
  {
    MonthOfMonotone(span.start, span.end.value);
    if month < MonthOf(span.end.value) {
      ReachedBeforeEnd(seat, span, month);
    }
    hide MonthAmount, MonthOf, FirstDay;
  }

  lemma {:induction false} ExpectedOnceEnded(seat: Seat, span: Span, id: nat, first: Month, billed: int)
    requires span.end.Some? && span.start <= span.end.value && !span.InOpening(first)
    requires MonthOf(span.start) <= first <= MonthOf(span.end.value) <= billed
    ensures var end := MonthOf(span.end.value);
            ExpectedTotal(seat, span, id, billed, first, billed) ==
            -StretchCost(seat.ChargePrice(), seat.days, span.start, span.end.value, first, end) +
            Max(0, Reached(seat, span, end) - Whole(seat, span, end))
    decreases billed - first
  {
    MonthOfMonotone(span.start, span.end.value);
    hide MonthAmount, MonthOf;
    NetOfEnded(seat, span, id, billed, first);
    if first == MonthOf(span.end.value) {
      ExpectedAfterEnd(seat, span, id, billed, first + 1, billed);
      assert StretchCost(seat.ChargePrice(), seat.days, span.start, span.end.value, first + 1, first) == 0;
      hide ExpectedNet;
    } else {
      hide ExpectedNet;
      ExpectedOnceEnded(seat, span, id, first + 1, billed);
    }
  }

  /** Billed to a month before its end, an ended span has been charged its lessons up to that month. */
  lemma {:induction false} ExpectedUntilBilled(seat: Seat, span: Span, id: nat, first: Month, billed: int)
    requires span.end.Some? && span.start <= span.end.value && !span.InOpening(first)
    requires MonthOf(span.start) <= first && billed < MonthOf(span.end.value)
    ensures ExpectedTotal(seat, span, id, billed, first, billed) ==
            -StretchCost(seat.ChargePrice(), seat.days, span.start, span.end.value, first, billed)
    decreases billed - first
  {
    MonthOfMonotone(span.start, span.end.value);
    if first <= billed {
      ReachedBeforeEnd(seat, span, first);
      ExpectedUntilBilled(seat, span, id, first + 1, billed);
    }
  }

  lemma {:induction false} StretchCostSplits(
    price: int, days: seq<int>, start: Day, end: Day, first: Month, middle: int, last: int)
    requires first <= middle + 1 && middle <= last
    ensures StretchCost(price, days, start, end, first, last) ==
            StretchCost(price, days, start, end, first, middle) + StretchCost(price, days, start, end, middle + 1, last)
    decreases middle - first
  {
    if first <= middle {
      StretchCostSplits(price, days, start, end, first + 1, middle, last);
    }
  }

  lemma {:induction false} StretchCostIsNotNegative(price: nat, days: seq<int>, start: Day, end: Day, first: Month, last: int)
    ensures 0 <= StretchCost(price, days, start, end, first, last)
    decreases last - first
  {
    if first <= last {
      AmountIsNotNegative(price, days, first, Some(start), Some(end));
      StretchCostIsNotNegative(price, days, start, end, first + 1, last);
    }
  }

  // ---------- the theorems ----------

  lemma OwedFrom(b: Book, id: nat, billed: int)
    requires Inv(b) && id < |b.spans| && SpanSettled(b, id, billed)
    requires b.spans[id].end.Some? ==> !b.spans[id].InOpening(b.spans[id].EndMonth().value)
    ensures !b.spans[id].InOpening(FirstOwed(b.spans[id])) && MonthOf(b.spans[id].start) <= FirstOwed(b.spans[id])
    ensures b.spans[id].end.Some? ==> FirstOwed(b.spans[id]) <= b.spans[id].EndMonth().value
    ensures SpanTotal(b.entries, id) ==
            ExpectedTotal(b.seats[b.spans[id].seat], b.spans[id], id, billed, FirstOwed(b.spans[id]), billed)
  {
    var seat, span := b.seats[b.spans[id].seat], b.spans[id];
    SettledTotal(b, id, billed);
    hide MonthOf, FindLive, Inv;
    SkipOpening(seat, span, id, billed, MonthOf(span.start), FirstOwed(span), billed);
  }

  /** A span still running has been charged every month from its start that the opening balance does not carry, and nothing
      else. */
  lemma RunningSpanOwes(b: Book, id: nat, billed: int)
    requires Inv(b) && id < |b.spans| && b.spans[id].end.None? && SpanSettled(b, id, billed)
    ensures SpanTotal(b.entries, id) == -RunningCost(b.seats[b.spans[id].seat], b.spans[id], FirstOwed(b.spans[id]), billed)
  {
    OwedFrom(b, id, billed);
    ExpectedWhileRunning(b.seats[b.spans[id].seat], b.spans[id], id, FirstOwed(b.spans[id]), billed);
  }

  /** The last month's lessons are rounded past a month that was charged whole. */
  predicate EndRoundedPast(seat: Seat, span: Span)
    requires span.end.Some?
  {
    var lessons := LessonsInMonth(MonthOf(span.end.value), seat.days);
    var kept := |Kept(lessons, Some(span.start), span.end)|;
    kept < |lessons| == |Kept(lessons, Some(span.start), None)| && RoundsPast(seat.ChargePrice(), kept, |lessons|)
  }

  lemma EndRoundedPastIff(seat: Seat, span: Span)
    requires span.end.Some?
    ensures var end := MonthOf(span.end.value);
            Reached(seat, span, end) > Whole(seat, span, end) <==> EndRoundedPast(seat, span)
  {
    var month, price := MonthOf(span.end.value), seat.ChargePrice();
    var lessons := LessonsInMonth(month, seat.days);
    WiderCostsNoLess(price, seat.days, month, Some(span.start), span.end, Some(span.start), None);
    KeptSize(lessons, Some(span.start), span.end);
    KeptSize(lessons, Some(span.start), None);
    if |Kept(lessons, Some(span.start), span.end)| < |lessons| == |Kept(lessons, Some(span.start), None)| {
      PartAbovePriceIff(price, seat.days, month, Some(span.start), span.end);
    }
  }

  /** The lessons of an ended span from the first month it owes: its own charge for them, were every month billed. */
  function LessonsCost(seat: Seat, span: Span): int
    requires span.end.Some?
  {
    StretchCost(seat.ChargePrice(), seat.days, span.start, span.end.value, FirstOwed(span), MonthOf(span.end.value))
  }

  /** Nothing is missing from what an ended span was charged: billed through its end, its last part was not rounded past a
      whole month; billed to an earlier month, the months it was not billed for cost nothing. */
  predicate NothingMissed(seat: Seat, span: Span, billed: int)
    requires span.end.Some?
  {
    var end := MonthOf(span.end.value);
    if end <= billed then !EndRoundedPast(seat, span)
    else
      StretchCost(seat.ChargePrice(), seat.days, span.start, span.end.value, Max(FirstOwed(span), billed + 1), end) == 0
  }

  /** A span that ends after the opening month costs exactly its lessons, those from its start or from the month after the
      opening, if and only if nothing was missed; and never more, whatever was charged, voided and given back on the way. */
  lemma EndedSpanOwesItsLessons(b: Book, id: nat, billed: int)
    requires Inv(b) && id < |b.spans| && b.spans[id].end.Some? && SpanSettled(b, id, billed)
    requires b.spans[id].start <= b.spans[id].end.value && !b.spans[id].InOpening(MonthOf(b.spans[id].end.value))
    ensures var span, seat := b.spans[id], b.seats[b.spans[id].seat];
            -LessonsCost(seat, span) <= SpanTotal(b.entries, id) &&
            (SpanTotal(b.entries, id) == -LessonsCost(seat, span) <==> NothingMissed(seat, span, billed)) &&
            (seat.ChargePrice() % 1000 == 0 && MonthOf(span.end.value) <= billed ==> NothingMissed(seat, span, billed))
  {
    var span, seat := b.spans[id], b.seats[b.spans[id].seat];
    MonthOfMonotone(span.start, span.end.value);
    OwedFrom(b, id, billed);
    EndRoundedPastIff(seat, span);
    ExpectedOfEnded(seat, span, id, billed);
    hide MonthOf, EndRoundedPast, Inv, SpanSettled, Reached, Whole, FindLive;
  }

  /** Billed only to a month before its end, it has been charged its lessons up to that month and no further. */
  lemma BilledShortOfItsEnd(b: Book, id: nat, billed: int)
    requires Inv(b) && id < |b.spans| && b.spans[id].end.Some? && SpanSettled(b, id, billed)
    requires b.spans[id].start <= b.spans[id].end.value && !b.spans[id].InOpening(MonthOf(b.spans[id].end.value))
    requires billed < MonthOf(b.spans[id].end.value)
    ensures var span, seat := b.spans[id], b.seats[b.spans[id].seat];
            SpanTotal(b.entries, id) ==
            -StretchCost(seat.ChargePrice(), seat.days, span.start, span.end.value, FirstOwed(span), billed)
  {
    MonthOfMonotone(b.spans[id].start, b.spans[id].end.value);
    OwedFrom(b, id, billed);
    hide MonthOf, Inv, SpanSettled, FirstOwed;
    ExpectedUntilBilled(b.seats[b.spans[id].seat], b.spans[id], id, FirstOwed(b.spans[id]), billed);
  }

  lemma ExpectedOfEnded(seat: Seat, span: Span, id: nat, billed: int)
    requires span.end.Some? && span.start <= span.end.value && !span.InOpening(FirstOwed(span))
    requires MonthOf(span.start) <= FirstOwed(span) <= MonthOf(span.end.value)
    ensures var end, total := MonthOf(span.end.value), ExpectedTotal(seat, span, id, billed, FirstOwed(span), billed);
            (end <= billed ==> total == -LessonsCost(seat, span) + Max(0, Reached(seat, span, end) - Whole(seat, span, end))) &&
            (billed < end ==> -LessonsCost(seat, span) <= total &&
                              (total == -LessonsCost(seat, span) <==> NothingMissed(seat, span, billed)))
  {
    var first, end, price := FirstOwed(span), MonthOf(span.end.value), seat.ChargePrice();
    if end <= billed {
      ExpectedOnceEnded(seat, span, id, first, billed);
    } else {
      hide MonthOf, FirstOwed;
      ExpectedUntilBilled(seat, span, id, first, billed);
      StretchCostIsNotNegative(price, seat.days, span.start, span.end.value, Max(first, billed + 1), end);
      if first <= billed {
        StretchCostSplits(price, seat.days, span.start, span.end.value, first, billed, end);
      }
    }
  }

  /** A span that ended before it started, in a month the opening does not carry, costs nothing, billed or not. */
  lemma EndedBeforeStartOwesNothing(b: Book, id: nat, billed: int)
    requires Inv(b) && id < |b.spans| && b.spans[id].end.Some? && SpanSettled(b, id, billed)
    requires b.spans[id].end.value < b.spans[id].start && !b.spans[id].InOpening(MonthOf(b.spans[id].start))
    ensures SpanTotal(b.entries, id) == 0
  {
    var span, seat := b.spans[id], b.seats[b.spans[id].seat];
    var first := MonthOf(span.start);
    SettledTotal(b, id, billed);
    MonthOfMonotone(span.end.value, span.start);
    AmountOfNothing(seat.ChargePrice(), seat.days, first, Some(span.start), span.end);
    AmountIsNotNegative(seat.ChargePrice(), seat.days, first, Some(span.start), None);
    hide MonthOf, MonthAmount, Inv;
    if first <= billed {
      ExpectedAfterEnd(seat, span, id, billed, first + 1, billed);
    }
  }

  /** A span the ledger opened with, ended in a month the opening balance carries, only gives lessons back, once that month
      has been billed. */
  lemma EndedInOpeningGivesBack(b: Book, id: nat, billed: int)
    requires Inv(b) && id < |b.spans| && b.spans[id].end.Some? && SpanSettled(b, id, billed)
    requires b.spans[id].InOpening(b.spans[id].EndMonth().value)
    ensures var span, seat := b.spans[id], b.seats[b.spans[id].seat];
            var end := span.EndMonth().value;
            SpanTotal(b.entries, id) == if end <= billed then Max(0, Whole(seat, span, end) - Reached(seat, span, end)) else 0
  {
    var span, seat := b.spans[id], b.seats[b.spans[id].seat];
    SettledTotal(b, id, billed);
    ExpectedInOpening(seat, span, id, MonthOf(span.start), billed);
  }

  lemma {:induction false} ExpectedInOpening(seat: Seat, span: Span, id: nat, first: Month, billed: int)
    requires span.end.Some? && span.InOpening(span.EndMonth().value)
    requires MonthOf(span.start) <= first <= span.EndMonth().value
    ensures var end := span.EndMonth().value;
            ExpectedTotal(seat, span, id, billed, first, billed) ==
            if end <= billed then Max(0, Whole(seat, span, end) - Reached(seat, span, end)) else 0
    decreases span.EndMonth().value - first
  {
    if first == span.EndMonth().value {
      ExpectedAfterEnd(seat, span, id, billed, first + 1, billed);
    } else {
      ExpectedInOpening(seat, span, id, first + 1, billed);
    }
  }

  // ---------- a price with a broken thousand ----------

  /** At 1,900 so'm a month of daily lessons left on its 30th of 31 days writes no credit: 1,900 is charged, although the 30
      lessons round to 2,000. */
  lemma RoundedPastHappens(b: Book, id: nat, billed: int, month: Month)
    requires Inv(b) && id < |b.spans| && SpanSettled(b, id, billed) && month == 0 <= billed
    requires b.seats[b.spans[id].seat].ChargePrice() == 1900 && b.seats[b.spans[id].seat].days == DAILY
    requires b.spans[id].start == 0 && b.spans[id].end.Some? && b.spans[id].end.value == 29 && b.spans[id].openingMonth.None?
    ensures FindLive(b.entries, EndKey(id, month)).None? && SpanTotal(b.entries, id) == -1900
    ensures LessonsCost(b.seats[b.spans[id].seat], b.spans[id]) == 2000
  {
    var span, seat := b.spans[id], b.seats[b.spans[id].seat];
    January(span.start);
    January(span.end.value);
    PartCanCostMoreThanTheMonth(seat.ChargePrice(), month, span.start, span.end.value);
    assert Reached(seat, span, month) == 2000 && Whole(seat, span, month) == 1900 by { hide MonthAmount; }
    CreditExpected(b, id, billed, month);
    CostOfOneMonth(seat, span, month);
    hide MonthAmount, MonthOf, FindLive, Inv, LessonsCost, ExpectedTotal;
    OwedFrom(b, id, billed);
    ExpectedOfEnded(seat, span, id, billed);
  }

  lemma CreditExpected(b: Book, id: nat, billed: int, month: Month)
    requires id < |b.spans| && b.spans[id].seat < |b.seats| && SpanSettled(b, id, billed)
    ensures FindLive(b.entries, EndKey(id, month)) == ExpectedCredit(b.seats[b.spans[id].seat], b.spans[id], id, billed, month)
  {
    assert KeyOf(EndKey(id, month), id);
    hide ExpectedCredit, FindLive;
  }

  lemma CostOfOneMonth(seat: Seat, span: Span, month: Month)
    requires span.end.Some? && FirstOwed(span) == MonthOf(span.end.value) == month
    ensures LessonsCost(seat, span) == Reached(seat, span, month)
  {
    assert StretchCost(seat.ChargePrice(), seat.days, span.start, span.end.value, month + 1, month) == 0;
    hide MonthAmount, MonthOf;
  }

  // ---------- the balance ----------

  predicate OwnedBy(b: Book, id: nat, account: nat)
    requires id < |b.spans| && b.spans[id].seat < |b.seats|
  {
    b.seats[b.spans[id].seat].account == account
  }

  /** What the first n spans put on a person's account. */
  ghost function SpansTotal(b: Book, rows: seq<Entry>, account: nat, n: nat): int
    requires SpansOnSeats(b) && n <= |b.spans|
  {
    if n == 0 then 0
    else SpansTotal(b, rows, account, n - 1) + if OwnedBy(b, n - 1, account) then SpanTotal(rows, n - 1) else 0
  }

  /** Opening balance, payments, refunds and adjustments. */
  function OtherTotal(rows: seq<Entry>, account: nat): int {
    if rows == [] then 0
    else
      var last := rows[|rows| - 1];
      OtherTotal(rows[..|rows| - 1], account) +
      if last.Live() && last.span.None? && last.account == account then last.amount else 0
  }

  lemma {:induction false} SpansTotalOfOneMore(b: Book, rows: seq<Entry>, row: Entry, account: nat, n: nat)
    requires SpansOnSeats(b) && n <= |b.spans|
    ensures SpansTotal(b, rows + [row], account, n) == SpansTotal(b, rows, account, n) +
      if row.Live() && row.span.Some? && row.span.value < n && OwnedBy(b, row.span.value, account) then row.amount else 0
  {
    if n > 0 {
      SpansTotalOfOneMore(b, rows, row, account, n - 1);
      assert (rows + [row])[..|rows|] == rows;
    }
  }

  lemma {:induction false} SpansTotalOfNothing(b: Book, account: nat, n: nat)
    requires SpansOnSeats(b) && n <= |b.spans|
    ensures SpansTotal(b, [], account, n) == 0
  {
    if n > 0 {
      SpansTotalOfNothing(b, account, n - 1);
    }
  }

  lemma {:induction false} BalanceSplits(b: Book, rows: seq<Entry>, account: nat)
    requires SpansOnSeats(b) && forall i :: 0 <= i < |rows| ==> RowOK(b, rows[i])
    ensures Balance(rows, account) == OtherTotal(rows, account) + SpansTotal(b, rows, account, |b.spans|)
  {
    if rows == [] {
      SpansTotalOfNothing(b, account, |b.spans|);
    } else {
      var init, row := rows[..|rows| - 1], rows[|rows| - 1];
      BalanceSplits(b, init, account);
      SpansTotalOfOneMore(b, init, row, account, |b.spans|);
      assert rows == init + [row];
      assert RowOK(b, row);
    }
  }

  /** A person's balance is what their spans cost plus the money that belongs to no span: each seat pays for
      itself, and no row is counted twice or for someone else. */
  lemma BalanceIsSpansPlusTheRest(b: Book, account: nat)
    requires Inv(b)
    ensures Balance(b.entries, account) ==
      OtherTotal(b.entries, account) + SpansTotal(b, b.entries, account, |b.spans|)
  {
    BalanceSplits(b, b.entries, account);
  }
}
