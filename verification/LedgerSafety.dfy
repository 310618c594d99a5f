/** What every operation of the ledger keeps, price changes included. */
module LedgerSafety {
  import opened Wrappers
  import opened Calendar
  import opened Lessons
  import opened Entries
  import opened Books
  import opened Billing

  // ---------- the invariant ----------

  /** A row's key, kind, month, sign, span and person agree with each other. */
  ghost predicate RowOK(b: Book, row: Entry) {
    match row.key
    case ChargeKey(s, m) => OfSpan(b, row, s, m) && row.kind == Charge && row.amount < 0
    case EndKey(s, m) => OfSpan(b, row, s, m) && row.kind == Credit && row.amount > 0
    case OpeningKey(_) => OfNoSpan(b, row) && row.kind == Opening
    case PaymentKey(_) => OfNoSpan(b, row) && (row.kind == Payment || row.kind == Refund)
    case ManualKey(_) => OfNoSpan(b, row) && (row.kind == Payment || row.kind == Refund || row.kind == Adjust)
  }

  /** A row on an account that exists. */
  ghost predicate OfNoSpan(b: Book, row: Entry) {
    row.span.None? && row.account < |b.accounts|
  }

  ghost predicate OfSpan(b: Book, row: Entry, s: nat, m: Month) {
    s < |b.spans| && b.spans[s].seat < |b.seats| &&
    row.span == Some(s) && row.month == Some(m) && row.account == b.seats[b.spans[s].seat].account
  }

  /** A live charge lies between the span's first month and its end month, after the opening month, on a day of its own
      month that the span has reached. */
  ghost predicate ChargeOK(rows: seq<Entry>, span: Span, id: nat, month: Month) {
    var charge := FindLive(rows, ChargeKey(id, month));
    charge.Some? ==>
      MonthOf(span.start) <= month && !span.InOpening(month) &&
      (span.end.Some? ==> month <= span.EndMonth().value) &&
      span.start <= charge.value.day && MonthOf(charge.value.day) == month
  }

  /** A credit lies in an ended span's end month, on its last day, and gives back no more than that month's charge. */
  predicate CreditFits(span: Span, month: Month, credit: Entry, charge: Option<Entry>) {
    span.EndMonth() == Some(month) && span.end == Some(credit.day) &&
    (!span.InOpening(month) ==> charge.Some? && charge.value.amount + credit.amount <= 0)
  }

  ghost predicate CreditOK(rows: seq<Entry>, span: Span, id: nat, month: Month) {
    var credit := FindLive(rows, EndKey(id, month));
    credit.Some? ==> CreditFits(span, month, credit.value, FindLive(rows, ChargeKey(id, month)))
  }

  ghost predicate SpanOK(rows: seq<Entry>, span: Span, id: nat) {
    forall m: Month :: ChargeOK(rows, span, id, m) && CreditOK(rows, span, id, m)
  }

  /** A request a person sent has one row ever, voided or not. */
  ghost predicate OneRowPerRequest(rows: seq<Entry>) {
    forall i, j :: 0 <= i < j < |rows| && rows[i].key.ManualKey? ==> rows[i].key != rows[j].key
  }

  /** What holds of the rows whatever the dates of the spans are. */
  ghost predicate Sound(b: Book) {
    SpansOnSeats(b) &&
    UniqueLive(b.entries) &&
    OneRowPerRequest(b.entries) &&
    forall i :: 0 <= i < |b.entries| ==> RowOK(b, b.entries[i])
  }

  ghost predicate Inv(b: Book) {
    Sound(b) && forall s :: 0 <= s < |b.spans| ==> SpanOK(b.entries, b.spans[s], s)
  }

  // ---------- a step, seen from outside ----------

  /** Accounts keep their student, seats their person and group, spans their seat and opening month, and nothing is removed. */
  ghost predicate SameOwners(b: Book, b': Book) {
    |b.accounts| <= |b'.accounts| && |b.seats| <= |b'.seats| && |b.spans| <= |b'.spans| &&
    (forall a :: 0 <= a < |b.accounts| ==> b'.accounts[a] == b.accounts[a]) &&
    (forall s :: 0 <= s < |b.seats| ==> b'.seats[s].account == b.seats[s].account && b'.seats[s].lcupGroup == b.seats[s].lcupGroup) &&
    (forall s :: 0 <= s < |b.spans| ==>
      b'.spans[s].seat == b.spans[s].seat && b'.spans[s].openingMonth == b.spans[s].openingMonth)
  }

  /** What every operation leaves behind: the invariant, the owners, and rows that only grew. */
  ghost predicate Keeps(b: Book, b': Book) {
    Inv(b') && SameOwners(b, b') && Grown(b.entries, b'.entries)
  }

  lemma KeepsTransitive(a: Book, b: Book, c: Book)
    requires Keeps(a, b) && Keeps(b, c)
    ensures Keeps(a, c)
  {
    GrownTransitive(a.entries, b.entries, c.entries);
  }

  lemma KeepsItself(b: Book)
    requires Inv(b)
    ensures Keeps(b, b)
  {
  }

  // ---------- billing ----------

  lemma LiveRowOK(b: Book, key: Key)
    requires forall i :: 0 <= i < |b.entries| ==> RowOK(b, b.entries[i])
    requires FindLive(b.entries, key).Some?
    ensures RowOK(b, FindLive(b.entries, key).value)
  {
  }

  lemma ChargedOnItsDay(seat: Seat, span: Span, id: nat, month: Month, amount: int)
    requires MonthOf(span.start) <= month
    ensures var day := ChargeRow(seat, span, id, month, amount).day; span.start <= day && MonthOf(day) == month
  {
    MonthOfFirstDay(span.start, month);
    FirstDayMonotone(month, month + 1);
    MonthOfIsUnique(FirstDay(month), month);
  }

  lemma BilledChargeOK(b: Book, id: nat, today: Day, month: Month)
    requires Sound(b) && id < |b.spans| && ChargeOK(b.entries, b.spans[id], id, month)
    ensures ChargeOK(BillSpan(b, id, today).entries, b.spans[id], id, month)
  {
    var span, seat := b.spans[id], b.seats[b.spans[id].seat];
    SpanBilledFinds(b.entries, seat, span, id, today, ChargeKey(id, month));
    if MonthOf(span.start) <= month {
      ChargedOnItsDay(seat, span, id, month, Whole(seat, span, month));
    }
    hide FirstDay, MonthAmount, FindLive;
  }

  lemma BilledCreditOK(b: Book, id: nat, today: Day, month: Month)
    requires Sound(b) && id < |b.spans|
    requires FindLive(b.entries, EndKey(id, month)).Some? ==> CreditOK(b.entries, b.spans[id], id, month)
    ensures CreditOK(BillSpan(b, id, today).entries, b.spans[id], id, month)
  {
    var span, seat := b.spans[id], b.seats[b.spans[id].seat];
    SpanBilledFinds(b.entries, seat, span, id, today, ChargeKey(id, month));
    SpanBilledFinds(b.entries, seat, span, id, today, EndKey(id, month));
    if FindLive(b.entries, ChargeKey(id, month)).Some? {
      LiveRowOK(b, ChargeKey(id, month));
    }
    AmountIsNotNegative(seat.ChargePrice(), seat.days, month, Some(span.start), None);
    var charged, price := ChargedAfter(b.entries, seat, span, id, month), KeptPrice(b.entries, seat, span, id, month);
    AmountIsNotNegative(price, seat.days, month, Some(span.start), span.end);
  }

  lemma BillSpanSound(b: Book, id: nat, today: Day)
    requires Sound(b) && id < |b.spans|
    ensures Sound(BillSpan(b, id, today)) && Grown(b.entries, BillSpan(b, id, today).entries)
  {
    SpanBilledAppends(b.entries, b.seats[b.spans[id].seat], b.spans[id], id, today);
    AppendedRowsOK(b, BillSpan(b, id, today), id);
  }

  lemma BillSpanKeeps(b: Book, id: nat, today: Day)
    requires Inv(b) && id < |b.spans|
    ensures Keeps(b, BillSpan(b, id, today))
  {
    var b', span, seat := BillSpan(b, id, today), b.spans[id], b.seats[b.spans[id].seat];
    BillSpanSound(b, id, today);
    forall s | 0 <= s < |b'.spans| ensures SpanOK(b'.entries, b'.spans[s], s) {
      forall m: Month ensures ChargeOK(b'.entries, b.spans[s], s, m) && CreditOK(b'.entries, b.spans[s], s, m) {
        assert ChargeOK(b.entries, b.spans[s], s, m) && CreditOK(b.entries, b.spans[s], s, m);
        if s == id {
          BilledChargeOK(b, id, today, m);
          BilledCreditOK(b, id, today, m);
        } else {
          SpanBilledFinds(b.entries, seat, span, id, today, ChargeKey(s, m));
          SpanBilledFinds(b.entries, seat, span, id, today, EndKey(s, m));
        }
      }
    }
  }

  lemma AppendedRowsOK(b: Book, b': Book, id: nat)
    requires Sound(b) && id < |b.spans|
    requires b' == b.(entries := b'.entries)
    requires Appended(b.entries, b'.entries, b.seats[b.spans[id].seat], b.spans[id], id)
    ensures forall i :: 0 <= i < |b'.entries| ==> RowOK(b', b'.entries[i])
    ensures OneRowPerRequest(b'.entries)
  {
    var rows, rows' := b.entries, b'.entries;
    assert forall i :: 0 <= i < |rows| ==> rows'[i] == rows'[..|rows|][i];
    forall i | 0 <= i < |rows'| ensures RowOK(b', rows'[i]) {
      if i < |rows| { assert RowOK(b, rows[i]); }
    }
  }

  lemma {:induction false} BillOpenFromKeeps(b: Book, id: nat, today: Day, failing: set<nat>)
    requires Inv(b)
    ensures Keeps(b, BillOpenFrom(b, id, today, failing))
    ensures BillOpenFrom(b, id, today, failing) == b.(entries := BillOpenFrom(b, id, today, failing).entries)
    decreases |b.spans| - id
  {
    if id >= |b.spans| {
    } else if Running(b.spans[id], today) && id !in failing {
      BillSpanKeeps(b, id, today);
      BillOpenFromKeeps(BillSpan(b, id, today), id + 1, today, failing);
      KeepsTransitive(b, BillSpan(b, id, today), BillOpenFrom(b, id, today, failing));
    } else {
      BillOpenFromKeeps(b, id + 1, today, failing);
    }
  }

  // ---------- voiding ----------

  lemma VoidedSound(b: Book, b': Book, choice: Choice, reason: string)
    requires Sound(b) && !Blank(reason)
    requires SameOwners(b, b') && SpansOnSeats(b') && b'.entries == Voided(b.entries, choice, reason)
    ensures Sound(b') && Grown(b.entries, b'.entries)
  {
    VoidedStaysUnique(b.entries, choice, reason);
    VoidedIsGrown(b.entries, choice, reason);
    forall i | 0 <= i < |b'.entries| ensures RowOK(b', b'.entries[i]) {
      assert RowOK(b, b.entries[i]);
    }
  }

  /** Voiding keeps everything but the pairing of credits with charges, which the caller answers for. */
  lemma VoidedKeeps(b: Book, b': Book, choice: Choice, reason: string)
    requires Inv(b) && !Blank(reason)
    requires SameOwners(b, b') && SpansOnSeats(b') && b'.entries == Voided(b.entries, choice, reason)
    requires forall s :: 0 <= s < |b'.spans| ==> SpanOK(b'.entries, b'.spans[s], s)
    ensures Keeps(b, b')
  {
    VoidedSound(b, b', choice, reason);
  }

  lemma SpanRowFound(b: Book, key: Key)
    requires Sound(b) && FindLive(b.entries, key).Some?
    ensures key.ChargeKey? ==> FindLive(b.entries, key).value.span == Some(key.span) &&
                               FindLive(b.entries, key).value.kind == Charge &&
                               FindLive(b.entries, key).value.month == Some(key.month) && key.span < |b.spans|
    ensures key.EndKey? ==> FindLive(b.entries, key).value.span == Some(key.span) &&
                            FindLive(b.entries, key).value.kind == Credit &&
                            FindLive(b.entries, key).value.month == Some(key.month) && key.span < |b.spans|
  {
    LiveRowOK(b, key);
  }

  predicate IsSpanKey(key: Key) {
    key.ChargeKey? || key.EndKey?
  }

  /** Which keys of spans a choice voids, in a ledger that keeps the invariant. */
  predicate TakesKey(choice: Choice, key: Key)
    requires IsSpanKey(key)
  {
    match choice
    case RowsOf(s) => key.span == s
    case ChargesAfter(s, m) => key.ChargeKey? && key.span == s && key.month > m
    case ChargesIn(s, m) => key.ChargeKey? && key.span == s && key.month == m
    case RowWith(k) => key == k
    case PaymentsOutside(_) => false
  }

  lemma FindSpanKeyVoided(b: Book, choice: Choice, reason: string, key: Key)
    requires Sound(b) && IsSpanKey(key)
    ensures FindLive(Voided(b.entries, choice, reason), key) ==
      if TakesKey(choice, key) then None else FindLive(b.entries, key)
  {
    FindVoided(b.entries, choice, reason, key);
    if FindLive(b.entries, key).Some? {
      SpanRowFound(b, key);
    }
  }

  // ---------- starting, ending, moving ----------

  lemma BegunKeeps(b: Book, seat: nat, day: Day, opening: Option<Month>)
    requires Inv(b) && seat < |b.seats|
    ensures Keeps(b, b.(spans := b.spans + [Span(seat, day, None, None, opening)]))
  {
    var begun := b.(spans := b.spans + [Span(seat, day, None, None, opening)]);
    forall i | 0 <= i < |b.entries| ensures RowOK(begun, b.entries[i]) {
      assert RowOK(b, b.entries[i]);
    }
    forall s | 0 <= s < |begun.spans| ensures SpanOK(b.entries, begun.spans[s], s) {
      if s == |b.spans| {
        forall m: Month
          ensures FindLive(b.entries, ChargeKey(s, m)).None? && FindLive(b.entries, EndKey(s, m)).None?
        {
          if FindLive(b.entries, ChargeKey(s, m)).Some? { SpanRowFound(b, ChargeKey(s, m)); }
          if FindLive(b.entries, EndKey(s, m)).Some? { SpanRowFound(b, EndKey(s, m)); }
        }
      } else {
        assert begun.spans[s] == b.spans[s];
      }
    }
  }

  lemma StartSpanKeeps(b: Book, seat: nat, day: Day, today: Day, opening: Option<Month>)
    requires Inv(b) && seat < |b.seats|
    ensures Keeps(b, StartSpan(b, seat, day, today, opening))
  {
    var begun := b.(spans := b.spans + [Span(seat, day, None, None, opening)]);
    BegunKeeps(b, seat, day, opening);
    BillSpanKeeps(begun, |b.spans|, today);
    KeepsTransitive(b, begun, BillSpan(begun, |b.spans|, today));
  }

  /** The book an ending bills: the span closed, its charges of later months voided. */
  function Closed(b: Book, id: nat, day: Day, why: EndReason): Book
    requires id < |b.spans|
  {
    b.(spans := b.spans[id := b.spans[id].(end := Some(day), endedBy := Some(why))],
       entries := Voided(b.entries, ChargesAfter(id, MonthOf(day)), EndText(why)))
  }

  lemma ClosedSound(b: Book, id: nat, day: Day, why: EndReason)
    requires Sound(b) && id < |b.spans|
    ensures Sound(Closed(b, id, day, why)) && SameOwners(b, Closed(b, id, day, why))
    ensures Grown(b.entries, Closed(b, id, day, why).entries)
  {
    EndTextSaysSo(why);
    VoidedSound(b, Closed(b, id, day, why), ChargesAfter(id, MonthOf(day)), EndText(why));
    hide EndText, Blank, MonthOf, UniqueLive, Voided;
  }

  lemma EndTextSaysSo(why: EndReason)
    ensures !Blank(EndText(why))
  {
    assert EndText(why)[1] == if why == Leave then 'e' else 'r';
  }

  /** The live rows of spans once the span is closed: its charges of later months are gone. */
  lemma ClosedFinds(b: Book, id: nat, day: Day, why: EndReason, key: Key)
    requires Sound(b) && id < |b.spans| && IsSpanKey(key)
    ensures FindLive(Closed(b, id, day, why).entries, key) ==
      if key.ChargeKey? && key.span == id && key.month > MonthOf(day) then None else FindLive(b.entries, key)
  {
    FindSpanKeyVoided(b, ChargesAfter(id, MonthOf(day)), EndText(why), key);
  }

  /** A span may be ended when it is running.  One that has ended before may be ended again when nothing was given back for
      its old end, or on the same day; and when that day lies in a month before its first, the charge written anew must still
      cover what was given back. */
  predicate EndsCleanly(b: Book, id: nat, day: Day, today: Day)
    requires id < |b.spans| && b.spans[id].seat < |b.seats|
  {
    var span, seat := b.spans[id], b.seats[b.spans[id].seat];
    span.end.None? ||
    var month := span.EndMonth().value;
    var credit := FindLive(b.entries, EndKey(id, month));
    credit.None? || CreditStands(seat, span, month, credit.value, day, today)
  }

  predicate CreditStands(seat: Seat, span: Span, month: Month, credit: Entry, day: Day, today: Day) {
    span.end == Some(day) &&
    (month <= MonthOf(day) || span.InOpening(month) || (month <= MonthOf(today) && credit.amount <= Whole(seat, span, month)))
  }

  lemma EndedChargeOK(b: Book, id: nat, day: Day, why: EndReason, today: Day, month: Month)
    requires Inv(b) && id < |b.spans|
    ensures ChargeOK(EndSpan(b, id, day, why, today).entries, Closed(b, id, day, why).spans[id], id, month)
  {
    var closed := Closed(b, id, day, why);
    ClosedSound(b, id, day, why);
    ClosedFinds(b, id, day, why, ChargeKey(id, month));
    assert ChargeOK(b.entries, b.spans[id], id, month);
    hide FindLive, MonthOf;
    BilledChargeOK(closed, id, today, month);
  }

  /** The charge of the credit's month once the span is closed and billed. */
  function ChargeOnceEnded(seat: Seat, span: Span, id: nat, month: Month, day: Day, today: Day, charge: Option<Entry>): Option<Entry> {
    var kept := if month > MonthOf(day) then None else charge;
    if kept.Some? || month > MonthOf(today) || span.InOpening(month) || Whole(seat, span, month) == 0 then kept
    else Some(ChargeRow(seat, span, id, month, Whole(seat, span, month)))
  }

  /** The credit of the old end is not touched; it fits the new one exactly when it stands. */
  lemma CreditFitsIff(
    seat: Seat, span: Span, id: nat, month: Month, day: Day, why: EndReason, today: Day, credit: Entry, charge: Option<Entry>)
    requires CreditFits(span, month, credit, charge) && credit.amount > 0
    ensures CreditFits(span.(end := Some(day), endedBy := Some(why)), month, credit,
                       ChargeOnceEnded(seat, span, id, month, day, today, charge)) <==>
            CreditStands(seat, span, month, credit, day, today)
  {
    var span' := span.(end := Some(day), endedBy := Some(why));
    hide MonthOf, MonthAmount, FirstDay;
    if span.end == Some(day) {
      assert span'.EndMonth() == span.EndMonth();
    }
  }

  lemma ChargeFoundOnceEnded(b: Book, id: nat, day: Day, why: EndReason, today: Day, month: Month)
    requires Sound(b) && id < |b.spans| && b.spans[id].EndMonth() == Some(month) && b.spans[id].end == Some(day)
    ensures FindLive(EndSpan(b, id, day, why, today).entries, ChargeKey(id, month)) ==
            ChargeOnceEnded(b.seats[b.spans[id].seat], b.spans[id], id, month, day, today,
                            FindLive(b.entries, ChargeKey(id, month)))
  {
    var closed, span := Closed(b, id, day, why), b.spans[id];
    var seat := b.seats[span.seat];
    ClosedFinds(b, id, day, why, ChargeKey(id, month));
    SpanBilledFinds(closed.entries, seat, closed.spans[id], id, today, ChargeKey(id, month));
    assert Whole(seat, closed.spans[id], month) == Whole(seat, span, month);
    assert closed.spans[id].EndMonth() == Some(month) && MonthOf(span.start) <= month;
    hide MonthAmount, MonthOf, FindLive, Sound, Voided;
  }

  lemma CreditFoundOnceEnded(b: Book, id: nat, day: Day, why: EndReason, today: Day, month: Month)
    requires Sound(b) && id < |b.spans| && FindLive(b.entries, EndKey(id, month)).Some?
    ensures FindLive(EndSpan(b, id, day, why, today).entries, EndKey(id, month)) == FindLive(b.entries, EndKey(id, month))
  {
    var closed := Closed(b, id, day, why);
    ClosedFinds(b, id, day, why, EndKey(id, month));
    SpanBilledFinds(closed.entries, b.seats[b.spans[id].seat], closed.spans[id], id, today, EndKey(id, month));
    hide MonthAmount, MonthOf, FindLive, Sound, Voided;
  }

  lemma EndedCreditOK(b: Book, id: nat, day: Day, why: EndReason, today: Day, month: Month)
    requires Inv(b) && id < |b.spans|
    ensures FindLive(b.entries, EndKey(id, month)).None? || EndsCleanly(b, id, day, today) <==>
            CreditOK(EndSpan(b, id, day, why, today).entries, Closed(b, id, day, why).spans[id], id, month)
  {
    var span, closed, credit := b.spans[id], Closed(b, id, day, why), FindLive(b.entries, EndKey(id, month));
    ClosedSound(b, id, day, why);
    ClosedFinds(b, id, day, why, EndKey(id, month));
    assert CreditOK(b.entries, span, id, month);
    if credit.Some? {
      LiveRowOK(b, EndKey(id, month));
      CreditFoundOnceEnded(b, id, day, why, today, month);
      CreditFitsIff(b.seats[span.seat], span, id, month, day, why, today, credit.value, FindLive(b.entries, ChargeKey(id, month)));
      if span.end == Some(day) {
        ChargeFoundOnceEnded(b, id, day, why, today, month);
      }
      hide FindLive, EndSpan, MonthOf, Whole, Inv, Sound, ChargeOnceEnded;
    } else {
      hide FindLive, MonthOf, Whole;
      BilledCreditOK(closed, id, today, month);
    }
  }

  lemma EndedElsewhereOK(b: Book, id: nat, day: Day, why: EndReason, today: Day, s: nat, m: Month)
    requires Inv(b) && id < |b.spans| && s < |b.spans| && s != id
    ensures ChargeOK(EndSpan(b, id, day, why, today).entries, b.spans[s], s, m)
    ensures CreditOK(EndSpan(b, id, day, why, today).entries, b.spans[s], s, m)
  {
    var closed := Closed(b, id, day, why);
    ClosedFinds(b, id, day, why, ChargeKey(s, m));
    ClosedFinds(b, id, day, why, EndKey(s, m));
    SpanBilledFinds(closed.entries, b.seats[b.spans[id].seat], closed.spans[id], id, today, ChargeKey(s, m));
    SpanBilledFinds(closed.entries, b.seats[b.spans[id].seat], closed.spans[id], id, today, EndKey(s, m));
    assert SpanOK(b.entries, b.spans[s], s);
    hide FindLive, MonthOf, Closed, EndSpan;
    SameRowsSameOK(b.entries, EndSpan(b, id, day, why, today).entries, b.spans[s], s, m);
  }

  lemma EndSpanSound(b: Book, id: nat, day: Day, why: EndReason, today: Day)
    requires Sound(b) && id < |b.spans|
    ensures var after := EndSpan(b, id, day, why, today);
            Sound(after) && SameOwners(b, after) && Grown(b.entries, after.entries) &&
            after.spans == b.spans[id := Closed(b, id, day, why).spans[id]]
  {
    var closed, after := Closed(b, id, day, why), EndSpan(b, id, day, why, today);
    ClosedSound(b, id, day, why);
    BillSpanSound(closed, id, today);
    assert after == BillSpan(closed, id, today);
    hide Sound, SpanBilled, Voided;
    GrownTransitive(b.entries, closed.entries, after.entries);
  }

  lemma EndedSpanOK(b: Book, id: nat, day: Day, why: EndReason, today: Day)
    requires Inv(b) && id < |b.spans|
    ensures SpanOK(EndSpan(b, id, day, why, today).entries, Closed(b, id, day, why).spans[id], id) <==>
            EndsCleanly(b, id, day, today)
  {
    var rows, span := EndSpan(b, id, day, why, today).entries, Closed(b, id, day, why).spans[id];
    forall m: Month
      ensures ChargeOK(rows, span, id, m)
      ensures CreditOK(rows, span, id, m) <==> FindLive(b.entries, EndKey(id, m)).None? || EndsCleanly(b, id, day, today)
    {
      EndedChargeOK(b, id, day, why, today, m);
      EndedCreditOK(b, id, day, why, today, m);
    }
    hide ChargeOK, CreditOK, Inv, FindLive, EndSpan, Closed, MonthOf;
    if !EndsCleanly(b, id, day, today) {
      var month := b.spans[id].EndMonth().value;
      assert !CreditOK(rows, span, id, month);
    }
  }

  /** Ending any span, one that has ended before included, keeps the ledger's invariant exactly when it ends cleanly: the
      program never takes back what an earlier end gave. */
  lemma EndSpanKeepsIff(b: Book, id: nat, day: Day, why: EndReason, today: Day)
    requires Inv(b) && id < |b.spans|
    ensures Inv(EndSpan(b, id, day, why, today)) <==> EndsCleanly(b, id, day, today)
    ensures SameOwners(b, EndSpan(b, id, day, why, today)) && Grown(b.entries, EndSpan(b, id, day, why, today).entries)
  {
    var after := EndSpan(b, id, day, why, today);
    EndSpanSound(b, id, day, why, today);
    EndedSpanOK(b, id, day, why, today);
    forall s: nat | s < |after.spans| && s != id ensures SpanOK(after.entries, after.spans[s], s) {
      forall m: Month ensures ChargeOK(after.entries, b.spans[s], s, m) && CreditOK(after.entries, b.spans[s], s, m) {
        EndedElsewhereOK(b, id, day, why, today, s, m);
      }
      hide ChargeOK, CreditOK;
    }
    hide SpanOK, Sound, FindLive, EndSpan, Closed, EndsCleanly, SameOwners, Grown;
  }

  lemma EndSpanKeeps(b: Book, id: nat, day: Day, why: EndReason, today: Day)
    requires Inv(b) && id < |b.spans| && EndsCleanly(b, id, day, today)
    ensures Keeps(b, EndSpan(b, id, day, why, today))
  {
    EndSpanKeepsIff(b, id, day, why, today);
  }

  /** The book a move bills: the dates put right, every row of the span voided. */
  function Moved(b: Book, id: nat, start: Day, end: Option<Day>, reason: string): Book
    requires id < |b.spans|
  {
    b.(spans := b.spans[id := b.spans[id].(start := start, end := end)], entries := Voided(b.entries, RowsOf(id), reason))
  }

  lemma {:induction false} VoidedNothing(rows: seq<Entry>, id: nat, reason: string)
    requires !HasLive(rows, id)
    ensures Voided(rows, RowsOf(id), reason) == rows
  {
    assert forall i :: 0 <= i < |rows| ==> Voided(rows, RowsOf(id), reason)[i] == rows[i];
  }

  lemma MovedKeepsGivenReason(b: Book, id: nat, start: Day, end: Option<Day>, reason: string)
    requires Inv(b) && id < |b.spans| && !Blank(reason)
    ensures Keeps(b, Moved(b, id, start, end, reason))
  {
    var b' := Moved(b, id, start, end, reason);
    forall s, m: Month | 0 <= s < |b'.spans|
      ensures ChargeOK(b'.entries, b'.spans[s], s, m) && CreditOK(b'.entries, b'.spans[s], s, m)
    {
      FindSpanKeyVoided(b, RowsOf(id), reason, ChargeKey(s, m));
      FindSpanKeyVoided(b, RowsOf(id), reason, EndKey(s, m));
      assert ChargeOK(b.entries, b.spans[s], s, m) && CreditOK(b.entries, b.spans[s], s, m);
    }
    VoidedKeeps(b, b', RowsOf(id), reason);
  }

  lemma MovedKeeps(b: Book, id: nat, start: Day, end: Option<Day>, reason: string)
    requires Inv(b) && id < |b.spans| && (!Blank(reason) || !HasLive(b.entries, id))
    ensures Keeps(b, Moved(b, id, start, end, reason))
  {
    if Blank(reason) {
      assert !Blank("moved") by { assert "moved"[0] == 'm'; }
      VoidedNothing(b.entries, id, reason);
      VoidedNothing(b.entries, id, "moved");
      MovedKeepsGivenReason(b, id, start, end, "moved");
    } else {
      MovedKeepsGivenReason(b, id, start, end, reason);
    }
  }

  lemma MoveSpanKeeps(b: Book, id: nat, start: Option<Day>, end: Option<Day>, reason: string, today: Day)
    requires Inv(b) && id < |b.spans|
    ensures var moved := MoveSpan(b, id, start, end, reason, today); moved.Some? ==> Keeps(b, moved.value)
  {
    var moved := MoveSpan(b, id, start, end, reason, today);
    if moved.Some? && moved.value != b {
      var from, to := if start.Some? then start.value else b.spans[id].start, Or(end, b.spans[id].end);
      MovedKeeps(b, id, from, to, reason);
      BillSpanKeeps(Moved(b, id, from, to, reason), id, today);
      KeepsTransitive(b, Moved(b, id, from, to, reason), moved.value);
    }
  }

  // ---------- prices ----------

  /** Accounts may be added, and the seat table may change in anything but the seat's person and group. */
  lemma SeatsChangedKeeps(b: Book, b': Book)
    requires Inv(b) && SameOwners(b, b') && b'.spans == b.spans && b'.entries == b.entries
    ensures Keeps(b, b')
  {
    forall i | 0 <= i < |b.entries| ensures RowOK(b', b.entries[i]) {
      assert RowOK(b, b.entries[i]);
    }
  }

  lemma RepriceOneKeeps(b: Book, id: nat, reason: string, today: Day)
    requires Inv(b) && id < |b.spans| && b.spans[id].end.None? && !Blank(reason)
    ensures Keeps(b, BillSpan(b.(entries := Voided(b.entries, ChargesIn(id, MonthOf(today)), reason)), id, today))
  {
    var choice := ChargesIn(id, MonthOf(today));
    var b' := b.(entries := Voided(b.entries, choice, reason));
    forall s, m: Month | 0 <= s < |b'.spans|
      ensures ChargeOK(b'.entries, b'.spans[s], s, m) && CreditOK(b'.entries, b'.spans[s], s, m)
    {
      FindSpanKeyVoided(b, choice, reason, ChargeKey(s, m));
      FindSpanKeyVoided(b, choice, reason, EndKey(s, m));
      assert ChargeOK(b.entries, b.spans[s], s, m) && CreditOK(b.entries, b.spans[s], s, m);
    }
    VoidedKeeps(b, b', choice, reason);
    BillSpanKeeps(b', id, today);
    KeepsTransitive(b, b', BillSpan(b', id, today));
  }

  lemma {:induction false} RepricedFromKeeps(b: Book, seat: nat, id: nat, reason: string, today: Day)
    requires Inv(b) && !Blank(reason)
    ensures Keeps(b, RepricedFrom(b, seat, id, reason, today))
    decreases |b.spans| - id
  {
    if id >= |b.spans| {
    } else if b.spans[id].seat == seat && b.spans[id].end.None? {
      var once := BillSpan(b.(entries := Voided(b.entries, ChargesIn(id, MonthOf(today)), reason)), id, today);
      RepriceOneKeeps(b, id, reason, today);
      RepricedFromKeeps(once, seat, id + 1, reason, today);
      KeepsTransitive(b, once, RepricedFrom(b, seat, id, reason, today));
    } else {
      RepricedFromKeeps(b, seat, id + 1, reason, today);
    }
  }

  lemma SetPersonalPriceKeeps(b: Book, seat: nat, price: Option<int>, reason: string, today: Day)
    requires Inv(b) && seat < |b.seats|
    ensures var r := SetPersonalPrice(b, seat, price, reason, today); r.Done? ==> Keeps(b, r.value)
  {
    var r := SetPersonalPrice(b, seat, price, reason, today);
    if r.Done? && r.value != b {
      var wanted: Option<nat> := if price.None? then None else Some(price.value);
      var priced := b.(seats := b.seats[seat := b.seats[seat].(personalPrice := wanted)]);
      SeatsChangedKeeps(b, priced);
      assert PriceText(reason)[0] == 'N';
      RepricedFromKeeps(priced, seat, 0, PriceText(reason), today);
      KeepsTransitive(b, priced, r.value);
    }
  }

  // ---------- rows that belong to no span ----------

  /** Writing a row of no span, under a key never used by hand before, touches no span. */
  lemma PostedKeeps(b: Book, row: Entry)
    requires Inv(b) && row.Live() && !IsSpanKey(row.key) && RowOK(b, row)
    requires row.key.ManualKey? ==> FirstOf(b.entries, row.key).None?
    ensures Keeps(b, b.(entries := Posted(b.entries, row)))
  {
    var b' := b.(entries := Posted(b.entries, row));
    PostedStaysUnique(b.entries, row);
    forall i | 0 <= i < |b'.entries| ensures RowOK(b', b'.entries[i]) {
      if i < |b.entries| { assert RowOK(b, b.entries[i]); }
    }
    forall s, m: Month | 0 <= s < |b'.spans|
      ensures ChargeOK(b'.entries, b'.spans[s], s, m) && CreditOK(b'.entries, b'.spans[s], s, m)
    {
      FindPosted(b.entries, row, ChargeKey(s, m));
      FindPosted(b.entries, row, EndKey(s, m));
      assert ChargeOK(b.entries, b.spans[s], s, m) && CreditOK(b.entries, b.spans[s], s, m);
    }
  }

  lemma EnterMoneyKeeps(b: Book, m: Money, today: Day)
    requires Inv(b) && m.account < |b.accounts|
    ensures var r := EnterMoney(b, m, today); r.Done? ==> Keeps(b, r.value.0) && r.value.1 in r.value.0.entries
  {
    if FirstOf(b.entries, ManualKey(m.request)).None? && MoneyRefusal(m, b.openedOn, today).None? {
      PostedKeeps(b, MoneyRow(m));
      var found := FindLive(b.entries, ManualKey(m.request));
      assert found.None?;
    }
  }

  lemma SameRowsSameOK(rows: seq<Entry>, rows': seq<Entry>, span: Span, id: nat, m: Month)
    requires SpanOK(rows, span, id)
    requires FindLive(rows', ChargeKey(id, m)) == FindLive(rows, ChargeKey(id, m))
    requires FindLive(rows', EndKey(id, m)) == FindLive(rows, EndKey(id, m))
    ensures ChargeOK(rows', span, id, m) && CreditOK(rows', span, id, m)
  {
    assert ChargeOK(rows, span, id, m) && CreditOK(rows, span, id, m);
  }

  /** A choice of rows that belong to no span. */
  predicate OutsideSpans(choice: Choice) {
    choice.PaymentsOutside? || (choice.RowWith? && !IsSpanKey(choice.key))
  }

  lemma ElsewhereVoidedSpanOK(b: Book, choice: Choice, reason: string, s: nat, m: Month)
    requires Inv(b) && OutsideSpans(choice) && s < |b.spans|
    ensures ChargeOK(Voided(b.entries, choice, reason), b.spans[s], s, m)
    ensures CreditOK(Voided(b.entries, choice, reason), b.spans[s], s, m)
  {
    FindSpanKeyVoided(b, choice, reason, ChargeKey(s, m));
    FindSpanKeyVoided(b, choice, reason, EndKey(s, m));
    SameRowsSameOK(b.entries, Voided(b.entries, choice, reason), b.spans[s], s, m);
  }

  /** Voiding rows that belong to no span touches no span. */
  lemma VoidElsewhereKeeps(b: Book, choice: Choice, reason: string)
    requires Inv(b) && OutsideSpans(choice) && !Blank(reason)
    ensures Keeps(b, b.(entries := Voided(b.entries, choice, reason)))
  {
    var b' := b.(entries := Voided(b.entries, choice, reason));
    forall s, m: Month | 0 <= s < |b'.spans|
      ensures ChargeOK(b'.entries, b'.spans[s], s, m) && CreditOK(b'.entries, b'.spans[s], s, m)
    {
      ElsewhereVoidedSpanOK(b, choice, reason, s, m);
    }
    VoidedKeeps(b, b', choice, reason);
  }

  lemma VoidEnteredKeeps(b: Book, row: nat, reason: string)
    requires Inv(b) && row < |b.entries|
    ensures var r := VoidEntered(b, row, reason);
            r.Done? ==> Keeps(b, r.value) && r.value.entries == Voided(b.entries, RowWith(b.entries[row].key), reason)
  {
    var r := VoidEntered(b, row, reason);
    if r.Done? {
      var key := b.entries[row].key;
      VoidElsewhereKeeps(b, RowWith(key), reason);
      assert r.value.entries == Voided(b.entries, RowWith(key), reason);
    }
  }
}
