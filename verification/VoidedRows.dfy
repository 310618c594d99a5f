/** Which rows each change voids, row by row, and the reason it writes on them: every other row stands as it was. */
module VoidedRows {
  import opened Wrappers
  import opened Calendar
  import opened Entries
  import opened Books
  import opened Billing
  import opened Shadow
  import opened Mirror

  /** The row as it stands after something took it back for a reason. */
  predicate TakenBack(row: Entry, after: Entry, reason: string) {
    after == row.(voided := Some(reason))
  }

  // Billing only appends, so what was voided before it is what is voided after.
  lemma BilledStands(b: Book, id: nat, today: Day, i: nat)
    requires UniqueLive(b.entries) && id < |b.spans| && b.spans[id].seat < |b.seats| && i < |b.entries|
    ensures i < |BillSpan(b, id, today).entries| && BillSpan(b, id, today).entries[i] == b.entries[i]
    ensures UniqueLive(BillSpan(b, id, today).entries)
  {
    var seat, span := b.seats[b.spans[id].seat], b.spans[id];
    SpanBilledAppends(b.entries, seat, span, id, today);
    var after := SpanBilled(b.entries, seat, span, id, today);
    assert after[i] == after[..|b.entries|][i];
    hide SpanBilled;
  }

  /** An ending takes back the live charges of the months after the end's, and says which ending it was. */
  lemma EndingVoids(b: Book, id: nat, day: Day, why: EndReason, today: Day, i: nat)
    requires UniqueLive(b.entries) && id < |b.spans| && b.spans[id].seat < |b.seats| && i < |b.entries|
    ensures var row, rows := b.entries[i], EndSpan(b, id, day, why, today).entries;
            i < |rows| &&
            if row.voided.None? && row.span == Some(id) && row.kind == Charge && row.month.Some? && row.month.value > MonthOf(day)
            then TakenBack(row, rows[i], if why == Leave then "leave: the seat ended" else "freeze: the seat ended")
            else rows[i] == row
  {
    var choice := ChargesAfter(id, MonthOf(day));
    var ended := b.(spans := b.spans[id := b.spans[id].(end := Some(day), endedBy := Some(why))],
                    entries := Voided(b.entries, choice, EndText(why)));
    VoidedStaysUnique(b.entries, choice, EndText(why));
    BilledStands(ended, id, today, i);
    hide BillSpan, MonthOf, UniqueLive;
  }

  /** A move takes back every live row of the span; one that moves nothing, or is refused, takes back none. */
  lemma MovingVoids(b: Book, id: nat, start: Option<Day>, end: Option<Day>, reason: string, today: Day, i: nat)
    requires UniqueLive(b.entries) && id < |b.spans| && b.spans[id].seat < |b.seats| && i < |b.entries|
    ensures var row, rows := b.entries[i], MovedOrSame(b, id, start, end, reason, today).entries;
            var moves := (start.Some? && start.value != b.spans[id].start) || (end.Some? && end != b.spans[id].end);
            i < |rows| &&
            if moves && !Blank(reason) && row.voided.None? && row.span == Some(id) then TakenBack(row, rows[i], reason)
            else rows[i] == row
  {
    var span := b.spans[id];
    var to := span.(start := if start.Some? then start.value else span.start, end := Or(end, span.end));
    var moved := b.(spans := b.spans[id := to], entries := Voided(b.entries, RowsOf(id), reason));
    VoidedStaysUnique(b.entries, RowsOf(id), reason);
    BilledStands(moved, id, today, i);
    hide BillSpan, Blank, UniqueLive;
  }

  /** A new personal price takes back this month's charge of every running span of the seat, and says so. */
  lemma PriceVoids(b: Book, seat: nat, price: Option<int>, reason: string, today: Day, i: nat)
    requires UniqueLive(b.entries) && SpansOnSeats(b) && seat < |b.seats| && i < |b.entries|
    requires SetPersonalPrice(b, seat, price, reason, today).Done?
    ensures var row, after := b.entries[i], SetPersonalPrice(b, seat, price, reason, today).value;
            i < |after.entries| &&
            if row.voided.None? && row.kind == Charge && row.month == Some(MonthOf(today)) && row.span.Some? &&
               row.span.value < |b.spans| && b.spans[row.span.value].seat == seat && b.spans[row.span.value].end.None? &&
               after.seats != b.seats
            then TakenBack(row, after.entries[i], "New personal price: " + reason)
            else after.entries[i] == row
  {
    var wanted: Option<nat> := if price.None? then None else Some(price.value);
    if b.seats[seat].personalPrice != wanted {
      var priced := b.(seats := b.seats[seat := b.seats[seat].(personalPrice := wanted)]);
      RepricedVoids(priced, seat, 0, PriceText(reason), today, i);
      assert priced.seats[seat] != b.seats[seat];
    }
    hide RepricedFrom, MonthOf, UniqueLive;
  }

  lemma {:induction false} RepricedVoids(b: Book, seat: nat, id: nat, reason: string, today: Day, i: nat)
    requires UniqueLive(b.entries) && SpansOnSeats(b) && i < |b.entries|
    ensures var row, after := b.entries[i], RepricedFrom(b, seat, id, reason, today);
            i < |after.entries| && after.seats == b.seats &&
            if row.voided.None? && row.kind == Charge && row.month == Some(MonthOf(today)) && row.span.Some? &&
               id <= row.span.value < |b.spans| && b.spans[row.span.value].seat == seat && b.spans[row.span.value].end.None?
            then TakenBack(row, after.entries[i], reason)
            else after.entries[i] == row
    decreases |b.spans| - id
  {
    if id < |b.spans| {
      if b.spans[id].seat == seat && b.spans[id].end.None? {
        var voided := b.(entries := Voided(b.entries, ChargesIn(id, MonthOf(today)), reason));
        VoidedStaysUnique(b.entries, ChargesIn(id, MonthOf(today)), reason);
        BilledStands(voided, id, today, i);
        var once := BillSpan(voided, id, today);
        assert once.spans == b.spans && once.seats == b.seats;
        assert RepricedFrom(b, seat, id, reason, today) == RepricedFrom(once, seat, id + 1, reason, today);
        hide BillSpan, MonthOf, UniqueLive, RepricedFrom;
        RepricedVoids(once, seat, id + 1, reason, today, i);
      } else {
        RepricedVoids(b, seat, id + 1, reason, today, i);
      }
    }
  }

  // ---------- what a look takes back ----------

  /** The reason a look writes, by the seat's old state and its new one. */
  function LookText(was: SeatState, now: SeatState): string {
    if was == Active && now == Left then "leave: the seat ended"
    else if was == Active && now != Active then "freeze: the seat ended"
    else if was == Active then "lc-up changed the start date"
    else "lc-up changed the leaving date"
  }

  /** A look at one seat takes back rows of that seat's spans only, and none when the seat begins to run or stays still. */
  lemma LookVoids(b: Book, s: nat, m: Membership, state: SeatState, today: Day, i: nat)
    requires UniqueLive(b.entries) && SpansOnSeats(b) && s < |b.seats| && (state == Left ==> m.HasLeft()) && i < |b.entries|
    requires SeatFollowed(b, s, m, state, today).Some?
    ensures var row, rows, was := b.entries[i], SeatFollowed(b, s, m, state, today).value.entries, b.seats[s].state;
            i < |rows| &&
            (rows[i] == row ||
             (row.voided.None? && (was == Active || (was == Left && state == Left)) &&
              row.span.Some? && row.span.value < |b.spans| && b.spans[row.span.value].seat == s &&
              TakenBack(row, rows[i], LookText(was, state))))
  {
    var seat := b.seats[s];
    var leftOn := if state == Left then Some(LeftOn(m)) else None;
    var seen := b.(seats := b.seats[s := SeatSeen(seat, m, state)]);
    var running, last := RunningSpan(b.spans, s), LastLeft(b.spans, s);
    if seat.state == Active && state != Active {
      if running.Some? {
        EndingVoids(seen, running.value, if state == Left then LeftOn(m) else today, if state == Left then Leave else Freeze, today, i);
      }
    } else if seat.state != Active && state == Active {
      var day := if m.startDate != seat.startSeen && m.startDate.Some? then m.startDate.value else today;
      BilledStands(seen.(spans := seen.spans + [Span(s, day, None, None, None)]), |b.spans|, today, i);
    } else if state == Active && running.Some? {
      MovingVoids(seen, running.value, m.startDate, None, START_MOVED, today, i);
    } else if state == Left && last.Some? {
      MovingVoids(seen, last.value, None, leftOn, LEAVING_MOVED, today, i);
    }
    hide EndSpan, MovedOrSame, BillSpan, UniqueLive, RunningSpan, LastLeft;
  }

  // ---------- what a pass over the payments takes back ----------

  /** A payment of the id, after the opening one, that the row no longer says and whose copy does not fail. */
  predicate CopiedAgain(row: Entry, payments: seq<LcPayment>, opening: nat, failing: set<nat>)
    requires row.key.PaymentKey?
  {
    exists k :: 0 <= k < |payments| && payments[k].id == row.key.payment > opening && !Says(row, payments[k]) &&
      payments[k].id !in failing
  }

  /** A pass takes back the live row of a payment that lc-up has changed or has no more, and says which: a change whose copy fails
      leaves its row. */
  lemma PassVoids(b: Book, payments: seq<LcPayment>, opening: nat, failing: set<nat>, i: nat)
    requires UniqueLive(b.entries) && i < |b.entries|
    ensures var row, rows := b.entries[i], Mirrored(b, payments, opening, failing).entries;
            i < |rows| &&
            if row.voided.Some? || !row.key.PaymentKey? then rows[i] == row
            else if row.key.payment <= opening || forall k :: 0 <= k < |payments| ==> payments[k].id != row.key.payment then
              TakenBack(row, rows[i], "lc-up deleted this payment")
            else if CopiedAgain(row, payments, opening, failing) then TakenBack(row, rows[i], "lc-up changed this payment")
            else rows[i] == row
  {
    CopiesVoid(b.entries, b, payments, opening, failing, i);
    if b.entries[i].key.PaymentKey? {
      SeenIffNamed(payments, opening, b.entries[i].key.payment);
    }
    hide AllCopied, SeenIds, UniqueLive, Says;
  }

  lemma {:induction false} CopiesVoid(start: seq<Entry>, b: Book, payments: seq<LcPayment>, opening: nat, failing: set<nat>, i: nat)
    requires UniqueLive(start) && i < |start| && i < |b.entries|
    requires b.entries[i] == start[i] || (start[i].Live() && TakenBack(start[i], b.entries[i], CHANGED_PAYMENT))
    ensures var row, rows := start[i], AllCopied(start, b, payments, opening, failing).entries;
            i < |rows| &&
            rows[i] == if row.Live() && row.key.PaymentKey? && CopiedAgain(row, payments, opening, failing)
                       then row.(voided := Some(CHANGED_PAYMENT)) else b.entries[i]
    decreases |payments|
  {
    if payments != [] {
      var p, rest, row := payments[0], payments[1..], start[i];
      var skipped := p.id <= opening || !ToCopy(start, p) || p.id in failing;
      var next := if skipped then b else Copied(start, b, p);
      CopyVoids(start, b, p, i);
      OneMorePayment(row, payments, opening, failing);
      assert AllCopied(start, b, payments, opening, failing) == AllCopied(start, next, rest, opening, failing);
      hide AllCopied, Copied, Says, CopiedAgain, UniqueLive;
      CopiesVoid(start, next, rest, opening, failing, i);
    }
  }

  lemma OneMorePayment(row: Entry, payments: seq<LcPayment>, opening: nat, failing: set<nat>)
    requires payments != []
    ensures row.key.PaymentKey? ==>
      (CopiedAgain(row, payments, opening, failing) <==>
       CopiedAgain(row, payments[1..], opening, failing) ||
       (payments[0].id == row.key.payment > opening && !Says(row, payments[0]) && payments[0].id !in failing))
  {
    hide Says;
  }

  /** One copy takes back the payment's own live row. */
  lemma CopyVoids(start: seq<Entry>, b: Book, p: LcPayment, i: nat)
    requires UniqueLive(start) && i < |start| && i < |b.entries|
    requires b.entries[i] == start[i] || (start[i].Live() && TakenBack(start[i], b.entries[i], CHANGED_PAYMENT))
    ensures var rows := Copied(start, b, p).entries;
            i < |rows| &&
            rows[i] == if start[i].Live() && start[i].key == PaymentKey(p.id) then start[i].(voided := Some(CHANGED_PAYMENT)) else b.entries[i]
    ensures start[i].Live() && start[i].key == PaymentKey(p.id) ==> (ToCopy(start, p) <==> !Says(start[i], p))
  {
    if start[i].Live() {
      FindUnique(start, i);
      MatchesIs(start[i], p);
    }
    hide FindLive, UniqueLive, AccountAmong, Says, Matches;
  }
}
