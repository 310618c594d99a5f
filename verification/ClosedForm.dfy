/**
 What a span's live rows are, said without the order things happened in: while the price and the weekdays stand
 still they depend only on the span's dates, its opening month and the last month billed.
 */
module ClosedForm {
  import opened Wrappers
  import opened Calendar
  import opened Lessons
  import opened Entries
  import opened Books
  import opened Billing
  import opened LedgerSafety

  /** What the month costs from the span's start to its end. */
  function Reached(seat: Seat, span: Span, month: Month): int {
    MonthAmount(seat.ChargePrice(), seat.days, month, Some(span.start), span.end)
  }

  function ExpectedCharge(seat: Seat, span: Span, id: nat, billed: int, month: Month): Option<Entry> {
    if MonthOf(span.start) <= month <= billed && (span.end.Some? ==> month <= span.EndMonth().value) &&
       !span.InOpening(month) && Whole(seat, span, month) != 0
    then Some(ChargeRow(seat, span, id, month, Whole(seat, span, month)))
    else None
  }

  function ExpectedCredit(seat: Seat, span: Span, id: nat, billed: int, month: Month): Option<Entry> {
    if span.EndMonth() == Some(month) && month <= billed && Whole(seat, span, month) > Reached(seat, span, month)
    then Some(CreditRow(seat, span, id, month, Whole(seat, span, month) - Reached(seat, span, month)))
    else None
  }

  function Expected(seat: Seat, span: Span, id: nat, billed: int, key: Key): Option<Entry>
    requires IsSpanKey(key)
  {
    if key.ChargeKey? then ExpectedCharge(seat, span, id, billed, key.month)
    else ExpectedCredit(seat, span, id, billed, key.month)
  }

  predicate KeyOf(key: Key, id: nat) {
    IsSpanKey(key) && key.span == id
  }

  /** The span's live rows are exactly the closed form for the months up to billed. */
  ghost predicate Settled(rows: seq<Entry>, seat: Seat, span: Span, id: nat, billed: int) {
    forall key :: KeyOf(key, id) ==> FindLive(rows, key) == Expected(seat, span, id, billed, key)
  }

  /** No live row of the span but those of the closed form: some may be missing. */
  ghost predicate Consistent(rows: seq<Entry>, seat: Seat, span: Span, id: nat, billed: int) {
    forall key :: KeyOf(key, id) ==>
      FindLive(rows, key).None? || FindLive(rows, key) == Expected(seat, span, id, billed, key)
  }

  // ---------- billing completes what is consistent ----------

  lemma ChargeSettles(rows: seq<Entry>, seat: Seat, span: Span, id: nat, today: Day, month: Month)
    requires Consistent(rows, seat, span, id, MonthOf(today))
    ensures FindLive(SpanBilled(rows, seat, span, id, today), ChargeKey(id, month)) ==
            ExpectedCharge(seat, span, id, MonthOf(today), month)
  {
    assert KeyOf(ChargeKey(id, month), id);
    SpanBilledFinds(rows, seat, span, id, today, ChargeKey(id, month));
  }

  lemma ChargedIsWhole(rows: seq<Entry>, seat: Seat, span: Span, id: nat, today: Day, month: Month)
    requires Consistent(rows, seat, span, id, MonthOf(today))
    requires MonthOf(span.start) <= month <= LastMonth(span, today)
    ensures ChargedAfter(rows, seat, span, id, month) == Whole(seat, span, month)
    ensures KeptPrice(rows, seat, span, id, month) == seat.ChargePrice()
  {
    assert KeyOf(ChargeKey(id, month), id);
  }

  lemma CreditSettles(rows: seq<Entry>, seat: Seat, span: Span, id: nat, today: Day, month: Month)
    requires Consistent(rows, seat, span, id, MonthOf(today))
    ensures FindLive(SpanBilled(rows, seat, span, id, today), EndKey(id, month)) ==
            ExpectedCredit(seat, span, id, MonthOf(today), month)
  {
    assert KeyOf(EndKey(id, month), id);
    SpanBilledFinds(rows, seat, span, id, today, EndKey(id, month));
    if MonthOf(span.start) <= month <= LastMonth(span, today) {
      ChargedIsWhole(rows, seat, span, id, today, month);
    }
  }

  lemma BillingSettles(rows: seq<Entry>, seat: Seat, span: Span, id: nat, today: Day)
    requires Consistent(rows, seat, span, id, MonthOf(today))
    ensures Settled(SpanBilled(rows, seat, span, id, today), seat, span, id, MonthOf(today))
  {
    forall key | KeyOf(key, id)
      ensures FindLive(SpanBilled(rows, seat, span, id, today), key) == Expected(seat, span, id, MonthOf(today), key)
    {
      if key.ChargeKey? {
        ChargeSettles(rows, seat, span, id, today, key.month);
      } else {
        CreditSettles(rows, seat, span, id, today, key.month);
      }
    }
  }

  lemma SettledIsConsistentLater(rows: seq<Entry>, seat: Seat, span: Span, id: nat, billed: int, later: int)
    requires Settled(rows, seat, span, id, billed) && billed <= later
    ensures Consistent(rows, seat, span, id, later)
  {
    forall key | KeyOf(key, id)
      ensures FindLive(rows, key).None? || FindLive(rows, key) == Expected(seat, span, id, later, key)
    {
      assert FindLive(rows, key) == Expected(seat, span, id, billed, key);
    }
  }

  // ---------- each operation ----------

  /** Every span of the book is settled to its own last billed month. */
  ghost predicate AllSettled(b: Book, billed: seq<int>) {
    |billed| == |b.spans| && SpansOnSeats(b) &&
    forall s :: 0 <= s < |b.spans| ==> SpanSettled(b, s, billed[s])
  }

  ghost predicate SpanSettled(b: Book, id: nat, billed: int)
    requires id < |b.spans| && b.spans[id].seat < |b.seats|
  {
    Settled(b.entries, b.seats[b.spans[id].seat], b.spans[id], id, billed)
  }

  ghost predicate BilledBy(billed: seq<int>, month: Month) {
    forall s :: 0 <= s < |billed| ==> billed[s] <= month
  }

  /** Another span's operation leaves a settled span settled. */
  lemma SettledElsewhere(rows: seq<Entry>, rows': seq<Entry>, seat: Seat, span: Span, id: nat, billed: int)
    requires Settled(rows, seat, span, id, billed)
    requires forall key :: KeyOf(key, id) ==> FindLive(rows', key) == FindLive(rows, key)
    ensures Settled(rows', seat, span, id, billed)
  {
  }

  /** b' is b with span id (old or new) rewritten, its rows consistent, and every other span's rows as they were. */
  ghost predicate ReadyToBill(b: Book, b': Book, id: nat, month: Month) {
    SpansOnSeats(b') && id < |b'.spans| && (|b'.spans| == |b.spans| || (|b'.spans| == |b.spans| + 1 && id == |b.spans|)) &&
    (forall s :: 0 <= s < |b.spans| && s != id ==>
      b'.spans[s] == b.spans[s] && b.spans[s].seat < |b.seats| && b'.seats[b.spans[s].seat] == b.seats[b.spans[s].seat]) &&
    (forall s, key :: 0 <= s < |b.spans| && s != id && KeyOf(key, s) ==> FindLive(b'.entries, key) == FindLive(b.entries, key)) &&
    Consistent(b'.entries, b'.seats[b'.spans[id].seat], b'.spans[id], id, month)
  }

  function BilledNow(billed: seq<int>, id: nat, month: Month): seq<int>
    requires id <= |billed|
  {
    if id == |billed| then billed + [month] else billed[id := month]
  }

  lemma BillReady(b: Book, b': Book, billed: seq<int>, id: nat, today: Day)
    requires AllSettled(b, billed) && id <= |billed|
    requires ReadyToBill(b, b', id, MonthOf(today))
    ensures AllSettled(BillSpan(b', id, today), BilledNow(billed, id, MonthOf(today)))
  {
    var after, seat, span := BillSpan(b', id, today), b'.seats[b'.spans[id].seat], b'.spans[id];
    var billed' := BilledNow(billed, id, MonthOf(today));
    BillingSettles(b'.entries, seat, span, id, today);
    forall s | 0 <= s < |after.spans| && s != id
      ensures Settled(after.entries, after.seats[after.spans[s].seat], after.spans[s], s, billed'[s])
    {
      forall key | KeyOf(key, s) ensures FindLive(after.entries, key) == FindLive(b.entries, key) {
        SpanBilledFinds(b'.entries, seat, span, id, today, key);
      }
      SettledElsewhere(b.entries, after.entries, b.seats[b.spans[s].seat], b.spans[s], s, billed[s]);
    }
  }

  lemma BillStaysSettled(b: Book, billed: seq<int>, id: nat, today: Day)
    requires Inv(b) && AllSettled(b, billed) && id < |b.spans| && billed[id] <= MonthOf(today)
    ensures AllSettled(BillSpan(b, id, today), billed[id := MonthOf(today)])
  {
    SettledIsConsistentLater(b.entries, b.seats[b.spans[id].seat], b.spans[id], id, billed[id], MonthOf(today));
    BillReady(b, b, billed, id, today);
  }

  lemma StartStaysSettled(b: Book, billed: seq<int>, seat: nat, day: Day, today: Day, opening: Option<Month>)
    requires Inv(b) && AllSettled(b, billed) && seat < |b.seats|
    ensures AllSettled(StartSpan(b, seat, day, today, opening), billed + [MonthOf(today)])
  {
    var id := |b.spans|;
    var begun := b.(spans := b.spans + [Span(seat, day, None, None, opening)]);
    BegunKeeps(b, seat, day, opening);
    forall key | KeyOf(key, id) ensures FindLive(begun.entries, key).None? {
      if FindLive(b.entries, key).Some? { SpanRowFound(b, key); }
    }
    BillReady(b, begun, billed, id, today);
  }

  /** What was expected of a span is what is expected once it has ended, but for charges after its last month. */
  lemma ExpectedOnceClosed(seat: Seat, span: Span, id: nat, day: Day, why: EndReason, billed: int, later: int, key: Key)
    requires KeyOf(key, id) && billed <= later && Expected(seat, span, id, billed, key).Some?
    requires key.ChargeKey? ==> key.month <= MonthOf(day)
    requires key.EndKey? ==> span.end == Some(day)
    ensures Expected(seat, span, id, billed, key) ==
            Expected(seat, span.(end := Some(day), endedBy := Some(why)), id, later, key)
  {
    hide MonthOf, MonthAmount, FirstDay;
  }

  lemma ClosedConsistent(b: Book, billed: int, id: nat, day: Day, why: EndReason, today: Day, key: Key)
    requires Inv(b) && id < |b.spans| && EndsCleanly(b, id, day, today) && billed <= MonthOf(today) && KeyOf(key, id)
    requires Settled(b.entries, b.seats[b.spans[id].seat], b.spans[id], id, billed)
    ensures var b' := Closed(b, id, day, why);
            FindLive(b'.entries, key).None? ||
            FindLive(b'.entries, key) == Expected(b.seats[b.spans[id].seat], b'.spans[id], id, MonthOf(today), key)
  {
    var span, seat, found := b.spans[id], b.seats[b.spans[id].seat], FindLive(b.entries, key);
    ClosedFinds(b, id, day, why, key);
    assert found == Expected(seat, span, id, billed, key);
    if found.Some? && !(key.ChargeKey? && key.month > MonthOf(day)) {
      if key.EndKey? {
        assert CreditOK(b.entries, span, id, key.month);
      }
      ExpectedOnceClosed(seat, span, id, day, why, billed, MonthOf(today), key);
    }
    hide Expected, FindLive, MonthOf;
  }

  lemma EndStaysSettled(b: Book, billed: seq<int>, id: nat, day: Day, why: EndReason, today: Day)
    requires Inv(b) && AllSettled(b, billed) && id < |b.spans| && EndsCleanly(b, id, day, today)
    requires billed[id] <= MonthOf(today)
    ensures AllSettled(EndSpan(b, id, day, why, today), billed[id := MonthOf(today)])
  {
    var b' := Closed(b, id, day, why);
    ClosedSound(b, id, day, why);
    forall key | KeyOf(key, id)
      ensures FindLive(b'.entries, key).None? ||
              FindLive(b'.entries, key) == Expected(b'.seats[b'.spans[id].seat], b'.spans[id], id, MonthOf(today), key)
    {
      ClosedConsistent(b, billed[id], id, day, why, today, key);
    }
    forall key, s | 0 <= s < |b.spans| && s != id && KeyOf(key, s)
      ensures FindLive(b'.entries, key) == FindLive(b.entries, key)
    {
      ClosedFinds(b, id, day, why, key);
    }
    BillReady(b, b', billed, id, today);
  }

  lemma MoveStaysSettled(
    b: Book, billed: seq<int>, id: nat, start: Option<Day>, end: Option<Day>, reason: string, today: Day)
    requires Inv(b) && AllSettled(b, billed) && id < |b.spans|
    ensures var moved := MoveSpan(b, id, start, end, reason, today);
            moved.Some? && moved.value != b ==> AllSettled(moved.value, billed[id := MonthOf(today)])
  {
    var moved := MoveSpan(b, id, start, end, reason, today);
    if moved.Some? && moved.value != b {
      var from, to := if start.Some? then start.value else b.spans[id].start, Or(end, b.spans[id].end);
      var b' := Moved(b, id, from, to, reason);
      MovedKeeps(b, id, from, to, reason);
      forall key, s | 0 <= s < |b.spans| && KeyOf(key, s)
        ensures FindLive(b'.entries, key) == if s == id then None else FindLive(b.entries, key)
      {
        FindSpanKeyVoided(b, RowsOf(id), reason, key);
      }
      BillReady(b, b', billed, id, today);
    }
  }

  /** A span is billed by a tick unless it ended before the month or its billing failed. */
  function BilledByTick(b: Book, billed: seq<int>, id: nat, today: Day, failing: set<nat>): (r: seq<int>)
    requires |billed| == |b.spans|
    ensures |r| == |billed|
    ensures forall s :: 0 <= s < |r| ==>
      r[s] == if s >= id && Running(b.spans[s], today) && s !in failing then MonthOf(today) else billed[s]
  {
    seq(|billed|, s requires 0 <= s < |billed| =>
      if s >= id && Running(b.spans[s], today) && s !in failing then MonthOf(today) else billed[s])
  }

  lemma TickBilledStep(b: Book, billed: seq<int>, id: nat, today: Day, failing: set<nat>)
    requires |billed| == |b.spans| && id < |b.spans| && b.spans[id].seat < |b.seats|
    ensures Running(b.spans[id], today) && id !in failing ==>
      BilledByTick(BillSpan(b, id, today), billed[id := MonthOf(today)], id + 1, today, failing) ==
      BilledByTick(b, billed, id, today, failing)
    ensures !(Running(b.spans[id], today) && id !in failing) ==>
      BilledByTick(b, billed, id + 1, today, failing) == BilledByTick(b, billed, id, today, failing)
  {
  }

  ghost predicate SettledBy(b: Book, billed: seq<int>, month: Month) {
    Inv(b) && AllSettled(b, billed) && BilledBy(billed, month)
  }

  lemma TickOne(b: Book, billed: seq<int>, id: nat, today: Day, failing: set<nat>) returns (b': Book, billed': seq<int>)
    requires SettledBy(b, billed, MonthOf(today)) && id < |b.spans|
    ensures SettledBy(b', billed', MonthOf(today)) && |b'.spans| == |b.spans| == |billed'| && SpansOnSeats(b')
    ensures BillOpenFrom(b', id + 1, today, failing) == BillOpenFrom(b, id, today, failing)
    ensures BilledByTick(b', billed', id + 1, today, failing) == BilledByTick(b, billed, id, today, failing)
  {
    TickBilledStep(b, billed, id, today, failing);
    if Running(b.spans[id], today) && id !in failing {
      BillStaysSettled(b, billed, id, today);
      BillSpanKeeps(b, id, today);
      b', billed' := BillSpan(b, id, today), billed[id := MonthOf(today)];
    } else {
      b', billed' := b, billed;
    }
  }

  lemma TickOver(b: Book, billed: seq<int>, id: nat, today: Day, failing: set<nat>)
    requires SpansOnSeats(b) && |billed| == |b.spans| <= id
    ensures BillOpenFrom(b, id, today, failing) == b && BilledByTick(b, billed, id, today, failing) == billed
  {
    hide BillSpan, SpanBilled, Running;
  }

  lemma {:induction false} TickRun(b: Book, billed: seq<int>, id: nat, today: Day, failing: set<nat>)
    requires SettledBy(b, billed, MonthOf(today)) && |billed| == |b.spans| && SpansOnSeats(b)
    ensures SettledBy(BillOpenFrom(b, id, today, failing), BilledByTick(b, billed, id, today, failing), MonthOf(today))
    decreases |b.spans| - id
  {
    hide *;
    if id >= |b.spans| {
      TickOver(b, billed, id, today, failing);
    } else {
      var b', billed' := TickOne(b, billed, id, today, failing);
      TickRun(b', billed', id + 1, today, failing);
    }
  }

  lemma TickStaysSettled(b: Book, billed: seq<int>, today: Day, failing: set<nat>)
    requires SettledBy(b, billed, MonthOf(today))
    ensures SettledBy(BillOpenFrom(b, 0, today, failing), BilledByTick(b, billed, 0, today, failing), MonthOf(today))
  {
    TickRun(b, billed, 0, today, failing);
    hide BillOpenFrom, BilledByTick, SettledBy;
  }

  /** Rows of no span leave every span settled. */
  lemma RowsElsewhereStaySettled(b: Book, b': Book, billed: seq<int>)
    requires AllSettled(b, billed) && b'.spans == b.spans && b'.seats == b.seats
    requires forall key :: IsSpanKey(key) ==> FindLive(b'.entries, key) == FindLive(b.entries, key)
    ensures AllSettled(b', billed)
  {
    forall s | 0 <= s < |b'.spans|
      ensures Settled(b'.entries, b'.seats[b'.spans[s].seat], b'.spans[s], s, billed[s])
    {
      SettledElsewhere(b.entries, b'.entries, b.seats[b.spans[s].seat], b.spans[s], s, billed[s]);
    }
  }
}
