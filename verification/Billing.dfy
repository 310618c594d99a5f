/** What billing a span does to the live rows, key by key. */
module Billing {
  import opened Wrappers
  import opened Calendar
  import opened Lessons
  import opened Entries
  import opened Books

  function ChargeAfter(rows: seq<Entry>, seat: Seat, span: Span, id: nat, month: Month): Option<Entry> {
    var found := FindLive(rows, ChargeKey(id, month));
    if found.Some? || span.InOpening(month) || Whole(seat, span, month) == 0 then found
    else Some(ChargeRow(seat, span, id, month, Whole(seat, span, month)))
  }

  function ChargedAfter(rows: seq<Entry>, seat: Seat, span: Span, id: nat, month: Month): int {
    var charge := ChargeAfter(rows, seat, span, id, month);
    if span.InOpening(month) then Whole(seat, span, month) else if charge.Some? then -charge.value.amount else 0
  }

  function KeptPrice(rows: seq<Entry>, seat: Seat, span: Span, id: nat, month: Month): int {
    if Whole(seat, span, month) == seat.ChargePrice() then ChargedAfter(rows, seat, span, id, month) else seat.ChargePrice()
  }

  function CreditAfter(rows: seq<Entry>, seat: Seat, span: Span, id: nat, month: Month): Option<Entry> {
    var found := FindLive(rows, EndKey(id, month));
    if found.Some? || span.EndMonth() != Some(month) then found
    else
      var charged := ChargedAfter(rows, seat, span, id, month);
      var kept := MonthAmount(KeptPrice(rows, seat, span, id, month), seat.days, month, Some(span.start), span.end);
      if charged > kept then Some(CreditRow(seat, span, id, month, charged - kept)) else None
  }

  lemma ChargePostedFinds(rows: seq<Entry>, seat: Seat, span: Span, id: nat, month: Month, key: Key)
    ensures FindLive(ChargePosted(rows, seat, span, id, month), key) ==
      if key == ChargeKey(id, month) then ChargeAfter(rows, seat, span, id, month) else FindLive(rows, key)
  {
    FindPosted(rows, ChargeRow(seat, span, id, month, Whole(seat, span, month)), key);
  }

  lemma MonthBilledFinds(rows: seq<Entry>, seat: Seat, span: Span, id: nat, month: Month, key: Key)
    ensures FindLive(MonthBilled(rows, seat, span, id, month), key) ==
      if key == ChargeKey(id, month) then ChargeAfter(rows, seat, span, id, month)
      else if key == EndKey(id, month) then CreditAfter(rows, seat, span, id, month)
      else FindLive(rows, key)
  {
    hide MonthAmount, MonthOf;
    var posted := ChargePosted(rows, seat, span, id, month);
    ChargePostedFinds(rows, seat, span, id, month, key);
    ChargePostedFinds(rows, seat, span, id, month, ChargeKey(id, month));
    ChargePostedFinds(rows, seat, span, id, month, EndKey(id, month));
    assert Charged(posted, seat, span, id, month) == ChargedAfter(rows, seat, span, id, month);
    if span.EndMonth() == Some(month) {
      var charged := ChargedAfter(rows, seat, span, id, month);
      var kept := MonthAmount(KeptPrice(rows, seat, span, id, month), seat.days, month, Some(span.start), span.end);
      FindPosted(posted, CreditRow(seat, span, id, month, charged - kept), key);
    }
  }

  predicate BilledKey(key: Key, id: nat, first: int, last: int) {
    (key.ChargeKey? || key.EndKey?) && key.span == id && first <= key.month <= last
  }

  function AfterBilling(rows: seq<Entry>, seat: Seat, span: Span, id: nat, first: int, last: int, key: Key): Option<Entry> {
    if !BilledKey(key, id, first, last) then FindLive(rows, key)
    else if key.ChargeKey? then ChargeAfter(rows, seat, span, id, key.month)
    else CreditAfter(rows, seat, span, id, key.month)
  }

  lemma OtherMonthUntouched(rows: seq<Entry>, seat: Seat, span: Span, id: nat, month: Month, other: Month)
    requires other != month
    ensures var once := MonthBilled(rows, seat, span, id, month);
            ChargeAfter(once, seat, span, id, other) == ChargeAfter(rows, seat, span, id, other) &&
            CreditAfter(once, seat, span, id, other) == CreditAfter(rows, seat, span, id, other)
  {
    MonthBilledFinds(rows, seat, span, id, month, ChargeKey(id, other));
    MonthBilledFinds(rows, seat, span, id, month, EndKey(id, other));
  }

  lemma {:induction false} MonthsBilledFinds(
    rows: seq<Entry>, seat: Seat, span: Span, id: nat, month: Month, last: int, key: Key)
    ensures FindLive(MonthsBilled(rows, seat, span, id, month, last), key) ==
      AfterBilling(rows, seat, span, id, month, last, key)
    decreases last - month
  {
    if month <= last {
      MonthsBilledFinds(MonthBilled(rows, seat, span, id, month), seat, span, id, month + 1, last, key);
      if BilledKey(key, id, month + 1, last) {
        OtherMonthUntouched(rows, seat, span, id, month, key.month);
      } else {
        MonthBilledFinds(rows, seat, span, id, month, key);
      }
    }
  }

  lemma SpanBilledFinds(rows: seq<Entry>, seat: Seat, span: Span, id: nat, today: Day, key: Key)
    ensures FindLive(SpanBilled(rows, seat, span, id, today), key) ==
      AfterBilling(rows, seat, span, id, MonthOf(span.start), LastMonth(span, today), key)
  {
    MonthsBilledFinds(rows, seat, span, id, MonthOf(span.start), LastMonth(span, today), key);
  }

  // ---------- rows only grow, and stay unique ----------

  /** What billing appends: live charges and credits of this span. */
  predicate IsBilledRow(row: Entry, seat: Seat, span: Span, id: nat) {
    row.Live() && row.span == Some(id) && row.account == seat.account && row.month.Some? && row.paidBy == "" && row.note == "" &&
    ((row.kind == Charge && row.key == ChargeKey(id, row.month.value) && row.amount < 0) ||
     (row.kind == Credit && row.key == EndKey(id, row.month.value) && row.amount > 0 && span.end == Some(row.day)))
  }

  ghost predicate Appended(rows: seq<Entry>, after: seq<Entry>, seat: Seat, span: Span, id: nat) {
    |rows| <= |after| && after[..|rows|] == rows &&
    forall i :: |rows| <= i < |after| ==> IsBilledRow(after[i], seat, span, id)
  }

  lemma ChargePostedAppends(rows: seq<Entry>, seat: Seat, span: Span, id: nat, month: Month)
    requires UniqueLive(rows)
    ensures Appended(rows, ChargePosted(rows, seat, span, id, month), seat, span, id)
    ensures UniqueLive(ChargePosted(rows, seat, span, id, month))
  {
    AmountIsNotNegative(seat.ChargePrice(), seat.days, month, Some(span.start), None);
    hide MonthAmount, FindLive, FirstDay;
    PostedStaysUnique(rows, ChargeRow(seat, span, id, month, Whole(seat, span, month)));
  }

  lemma GivenBackAppends(rows: seq<Entry>, seat: Seat, span: Span, id: nat, month: Month, charged: int, whole: int)
    requires UniqueLive(rows) && span.end.Some?
    ensures Appended(rows, GivenBack(rows, seat, span, id, month, charged, whole), seat, span, id)
    ensures UniqueLive(GivenBack(rows, seat, span, id, month, charged, whole))
  {
    hide MonthAmount, FindLive;
    var price := if whole == seat.ChargePrice() then charged else seat.ChargePrice();
    var kept := MonthAmount(price, seat.days, month, Some(span.start), span.end);
    PostedStaysUnique(rows, CreditRow(seat, span, id, month, charged - kept));
  }

  lemma AppendedTransitive(a: seq<Entry>, b: seq<Entry>, c: seq<Entry>, seat: Seat, span: Span, id: nat)
    requires Appended(a, b, seat, span, id) && Appended(b, c, seat, span, id)
    ensures Appended(a, c, seat, span, id)
  {
    assert c[..|a|] == c[..|b|][..|a|];
    forall i | |a| <= i < |c| ensures IsBilledRow(c[i], seat, span, id) {
      if i < |b| { assert c[i] == c[..|b|][i]; }
    }
  }

  lemma MonthBilledAppends(rows: seq<Entry>, seat: Seat, span: Span, id: nat, month: Month)
    requires UniqueLive(rows)
    ensures Appended(rows, MonthBilled(rows, seat, span, id, month), seat, span, id)
    ensures UniqueLive(MonthBilled(rows, seat, span, id, month))
  {
    var posted := ChargePosted(rows, seat, span, id, month);
    ChargePostedAppends(rows, seat, span, id, month);
    if span.EndMonth() == Some(month) {
      var charged, whole := Charged(posted, seat, span, id, month), Whole(seat, span, month);
      GivenBackAppends(posted, seat, span, id, month, charged, whole);
      AppendedTransitive(rows, posted, GivenBack(posted, seat, span, id, month, charged, whole), seat, span, id);
    }
  }

  lemma {:induction false} MonthsBilledAppends(
    rows: seq<Entry>, seat: Seat, span: Span, id: nat, month: Month, last: int)
    requires UniqueLive(rows)
    ensures Appended(rows, MonthsBilled(rows, seat, span, id, month, last), seat, span, id)
    ensures UniqueLive(MonthsBilled(rows, seat, span, id, month, last))
    decreases last - month
  {
    if month <= last {
      var once := MonthBilled(rows, seat, span, id, month);
      MonthBilledAppends(rows, seat, span, id, month);
      MonthsBilledAppends(once, seat, span, id, month + 1, last);
      AppendedTransitive(rows, once, MonthsBilled(once, seat, span, id, month + 1, last), seat, span, id);
    }
  }

  lemma SpanBilledAppends(rows: seq<Entry>, seat: Seat, span: Span, id: nat, today: Day)
    requires UniqueLive(rows)
    ensures Appended(rows, SpanBilled(rows, seat, span, id, today), seat, span, id)
    ensures UniqueLive(SpanBilled(rows, seat, span, id, today))
    ensures Grown(rows, SpanBilled(rows, seat, span, id, today))
  {
    MonthsBilledAppends(rows, seat, span, id, MonthOf(span.start), LastMonth(span, today));
    var after := SpanBilled(rows, seat, span, id, today);
    forall i | 0 <= i < |rows| ensures SameOrVoided(rows[i], after[i]) {
      assert after[i] == after[..|rows|][i];
    }
  }

  // ---------- billing twice is billing once ----------

  lemma {:induction false} NothingLeftToBill(
    rows: seq<Entry>, seat: Seat, span: Span, id: nat, month: Month, last: int)
    requires forall m: Month :: month <= m <= last ==> ChargeAfter(rows, seat, span, id, m) == FindLive(rows, ChargeKey(id, m))
    requires forall m: Month :: month <= m <= last ==> CreditAfter(rows, seat, span, id, m) == FindLive(rows, EndKey(id, m))
    ensures MonthsBilled(rows, seat, span, id, month, last) == rows
    decreases last - month
  {
    if month <= last {
      assert ChargeAfter(rows, seat, span, id, month) == FindLive(rows, ChargeKey(id, month));
      assert CreditAfter(rows, seat, span, id, month) == FindLive(rows, EndKey(id, month));
      assert ChargePosted(rows, seat, span, id, month) == rows;
      assert MonthBilled(rows, seat, span, id, month) == rows;
      NothingLeftToBill(rows, seat, span, id, month + 1, last);
    }
  }

  lemma BilledMonthIsFull(rows: seq<Entry>, seat: Seat, span: Span, id: nat, today: Day, m: Month)
    requires MonthOf(span.start) <= m <= LastMonth(span, today)
    ensures var once := SpanBilled(rows, seat, span, id, today);
            ChargeAfter(once, seat, span, id, m) == FindLive(once, ChargeKey(id, m)) &&
            CreditAfter(once, seat, span, id, m) == FindLive(once, EndKey(id, m))
  {
    SpanBilledFinds(rows, seat, span, id, today, ChargeKey(id, m));
    SpanBilledFinds(rows, seat, span, id, today, EndKey(id, m));
    hide MonthAmount, MonthOf, FindLive, SpanBilled;
  }

  lemma SpanBilledIsMonths(rows: seq<Entry>, seat: Seat, span: Span, id: nat, today: Day)
    ensures SpanBilled(rows, seat, span, id, today) == MonthsBilled(rows, seat, span, id, MonthOf(span.start), LastMonth(span, today))
  {
    hide MonthsBilled;
  }

  /** Billing a span again, on the same day or an earlier one, writes nothing. */
  lemma BillingTwiceIsBillingOnce(rows: seq<Entry>, seat: Seat, span: Span, id: nat, today: Day, earlier: Day)
    requires earlier <= today
    ensures SpanBilled(SpanBilled(rows, seat, span, id, today), seat, span, id, earlier) ==
            SpanBilled(rows, seat, span, id, today)
  {
    var once := SpanBilled(rows, seat, span, id, today);
    MonthOfMonotone(earlier, today);
    hide SpanBilled, ChargeAfter, CreditAfter, FindLive, MonthOf;
    forall m: Month | MonthOf(span.start) <= m <= LastMonth(span, earlier)
      ensures ChargeAfter(once, seat, span, id, m) == FindLive(once, ChargeKey(id, m))
      ensures CreditAfter(once, seat, span, id, m) == FindLive(once, EndKey(id, m))
    {
      BilledMonthIsFull(rows, seat, span, id, today, m);
    }
    NothingLeftToBill(once, seat, span, id, MonthOf(span.start), LastMonth(span, earlier));
    SpanBilledIsMonths(once, seat, span, id, earlier);
  }
}
