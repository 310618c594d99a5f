/** What billing writes, in dates: which spans the month's billing reaches, and the rows it leaves. */
module BilledMonths {
  import opened Wrappers
  import opened Calendar
  import opened Lessons
  import opened Entries
  import opened Books
  import opened Billing
  import opened LedgerSafety

  /** The last month a span can be charged for, once it has ended: a span that ends before it starts keeps its first. */
  lemma EndMonthIs(span: Span)
    ensures span.EndMonth() ==
      if span.end.None? then None else Some(Max(MonthOf(span.start), MonthOf(span.end.value)) as Month)
  {
    hide MonthOf;
  }

  /** The charge of a month, field by field: the month's price from the span's start, on the span's first day in it. */
  function MonthsCharge(seat: Seat, span: Span, s: nat, m: Month): Entry {
    var price := if seat.personalPrice.Some? then seat.personalPrice.value else seat.price;
    Entry(seat.account, Some(s), Charge, -MonthAmount(price, seat.days, m, Some(span.start), None), Max(span.start, FirstDay(m)),
          Some(m), ChargeKey(s, m), "", "", None)
  }

  /** One span billed to a day: every month from its start to today's and to its last, which the opening does not carry and
      whose price from the start is not nothing, has a live charge; where it had none, this is the row. */
  lemma BilledMonthIsCharged(b: Book, s: nat, today: Day, m: Month)
    requires s < |b.spans| && b.spans[s].seat < |b.seats|
    requires MonthOf(b.spans[s].start) <= m <= MonthOf(today)
    requires b.spans[s].end.None? || m <= Max(MonthOf(b.spans[s].start), MonthOf(b.spans[s].end.value))
    requires b.spans[s].openingMonth.None? || b.spans[s].openingMonth.value < m
    ensures var before, row := FindLive(b.entries, ChargeKey(s, m)), MonthsCharge(b.seats[b.spans[s].seat], b.spans[s], s, m);
            FindLive(BillSpan(b, s, today).entries, ChargeKey(s, m)) == if before.Some? || row.amount == 0 then before else Some(row)
  {
    EndMonthIs(b.spans[s]);
    SpanBilledFinds(b.entries, b.seats[b.spans[s].seat], b.spans[s], s, today, ChargeKey(s, m));
    assert b.seats[b.spans[s].seat].ChargePrice() ==
           if b.seats[b.spans[s].seat].personalPrice.Some? then b.seats[b.spans[s].seat].personalPrice.value else b.seats[b.spans[s].seat].price;
    hide FindLive, MonthAmount, MonthOf, FirstDay, SpanBilled;
  }

  /** Any other key is left as it was, but for the credit of a last month that today has reached. */
  lemma OtherwiseUntouched(b: Book, s: nat, today: Day, key: Key)
    requires s < |b.spans| && b.spans[s].seat < |b.seats|
    requires var span := b.spans[s];
             !(key.ChargeKey? && key.span == s && MonthOf(span.start) <= key.month <= MonthOf(today) &&
               (span.end.None? || key.month <= Max(MonthOf(span.start), MonthOf(span.end.value))) &&
               (span.openingMonth.None? || span.openingMonth.value < key.month)) &&
             !(key.EndKey? && key.span == s && span.end.Some? && key.month == Max(MonthOf(span.start), MonthOf(span.end.value)) &&
               key.month <= MonthOf(today))
    ensures FindLive(BillSpan(b, s, today).entries, key) == FindLive(b.entries, key)
  {
    EndMonthIs(b.spans[s]);
    SpanBilledFinds(b.entries, b.seats[b.spans[s].seat], b.spans[s], s, today, key);
    hide FindLive, MonthAmount, MonthOf, FirstDay, SpanBilled;
  }

  // ---------- the month's billing ----------

  lemma RunsInItsMonths(span: Span, today: Day)
    ensures Running(span, today) <==> span.end.None? || MonthOf(today) <= MonthOf(span.end.value)
  {
    if span.end.Some? {
      MonthOfFirstDay(span.end.value, MonthOf(today));
    }
    hide MonthOf, FirstDay;
  }

  lemma {:induction false} TickFromFinds(b: Book, id: nat, today: Day, failing: set<nat>, key: Key)
    requires SpansOnSeats(b) && IsSpanKey(key) && key.span < |b.spans|
    ensures FindLive(BillOpenFrom(b, id, today, failing).entries, key) ==
            if id <= key.span && Running(b.spans[key.span], today) && key.span !in failing
            then FindLive(BillSpan(b, key.span, today).entries, key) else FindLive(b.entries, key)
    decreases |b.spans| - id
  {
    hide FindLive, SpanBilled, Running;
    if id < |b.spans| {
      if Running(b.spans[id], today) && id !in failing {
        var next := BillSpan(b, id, today);
        TickFromFinds(next, id + 1, today, failing, key);
        if key.span != id {
          SpansApart(b, id, key.span, today, key);
        }
      } else {
        TickFromFinds(b, id + 1, today, failing, key);
      }
    }
  }

  lemma OtherSpanStands(b: Book, id: nat, s: nat, today: Day, key: Key)
    requires SpansOnSeats(b) && id < |b.spans| && s != id && IsSpanKey(key) && key.span == s
    ensures FindLive(BillSpan(b, id, today).entries, key) == FindLive(b.entries, key)
  {
    SpanBilledFinds(b.entries, b.seats[b.spans[id].seat], b.spans[id], id, today, key);
    hide FindLive, SpanBilled, MonthAmount, MonthOf, FirstDay;
  }

  lemma SameRowsSameBilling(rows: seq<Entry>, rows': seq<Entry>, seat: Seat, span: Span, s: nat, today: Day, key: Key)
    requires IsSpanKey(key) && key.span == s
    requires FindLive(rows', ChargeKey(s, key.month)) == FindLive(rows, ChargeKey(s, key.month))
    requires FindLive(rows', EndKey(s, key.month)) == FindLive(rows, EndKey(s, key.month))
    ensures FindLive(SpanBilled(rows', seat, span, s, today), key) == FindLive(SpanBilled(rows, seat, span, s, today), key)
  {
    SpanBilledFinds(rows, seat, span, s, today, key);
    SpanBilledFinds(rows', seat, span, s, today, key);
    hide FindLive, SpanBilled, MonthAmount, MonthOf, FirstDay;
  }

  /** Billing one span leaves another's rows, and what billing that one would leave. */
  lemma SpansApart(b: Book, id: nat, s: nat, today: Day, key: Key)
    requires SpansOnSeats(b) && id < |b.spans| && s < |b.spans| && s != id && IsSpanKey(key) && key.span == s
    ensures FindLive(BillSpan(b, id, today).entries, key) == FindLive(b.entries, key)
    ensures FindLive(BillSpan(BillSpan(b, id, today), s, today).entries, key) == FindLive(BillSpan(b, s, today).entries, key)
  {
    var next := BillSpan(b, id, today);
    OtherSpanStands(b, id, s, today, key);
    OtherSpanStands(b, id, s, today, ChargeKey(s, key.month));
    OtherSpanStands(b, id, s, today, EndKey(s, key.month));
    hide FindLive, SpanBilled;
    SameRowsSameBilling(b.entries, next.entries, b.seats[b.spans[s].seat], b.spans[s], s, today, key);
  }

  /** The month's billing: a span with no end, or an end in this month or a later one, is billed to today unless its billing
      fails; every other span's rows stand. */
  lemma TickBillsExactly(b: Book, today: Day, failing: set<nat>, key: Key)
    requires SpansOnSeats(b) && IsSpanKey(key) && key.span < |b.spans|
    ensures var end := b.spans[key.span].end;
            FindLive(BillOpenFrom(b, 0, today, failing).entries, key) ==
            if key.span !in failing && (end.None? || MonthOf(today) <= MonthOf(end.value))
            then FindLive(BillSpan(b, key.span, today).entries, key) else FindLive(b.entries, key)
  {
    TickFromFinds(b, 0, today, failing, key);
    RunsInItsMonths(b.spans[key.span], today);
    hide FindLive, BillSpan, BillOpenFrom, MonthOf, Running;
  }

  /** So a student still running when a month begins is charged for it, at its price from the span's start. */
  lemma TickChargesTheMonth(b: Book, today: Day, failing: set<nat>, s: nat)
    requires SpansOnSeats(b) && s < |b.spans| && s !in failing
    requires b.spans[s].end.None? || MonthOf(today) <= MonthOf(b.spans[s].end.value)
    requires MonthOf(b.spans[s].start) <= MonthOf(today)
    requires b.spans[s].openingMonth.None? || b.spans[s].openingMonth.value < MonthOf(today)
    ensures var m := MonthOf(today);
            var before, row := FindLive(b.entries, ChargeKey(s, m)), MonthsCharge(b.seats[b.spans[s].seat], b.spans[s], s, m);
            FindLive(BillOpenFrom(b, 0, today, failing).entries, ChargeKey(s, m)) ==
              if before.Some? || row.amount == 0 then before else Some(row)
  {
    TickBillsExactly(b, today, failing, ChargeKey(s, MonthOf(today)));
    BilledMonthIsCharged(b, s, today, MonthOf(today));
    hide *;
  }
}
