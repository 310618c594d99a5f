/** The ledger at work: the program's steps and loops over its tables, each proved against the functions of Books. */
module Ledgers {
  import opened Wrappers
  import opened Calendar
  import opened Lessons
  import opened Entries
  import opened Books
  import opened BilledMonths

  class Ledger {
    var accounts: seq<Option<nat>>
    var seats: seq<Seat>
    var spans: seq<Span>
    var entries: seq<Entry>
    var openedOn: Option<Day>

    function Tables(): Book
      reads this
    {
      Book(accounts, seats, spans, entries, openedOn)
    }

    constructor ()
      ensures Tables() == Book([], [], [], [], None)
    {
      accounts, seats, spans, entries, openedOn := [], [], [], [], None;
    }

    // ---------- rows ----------

    method Post(row: Entry) returns (written: bool)
      modifies this`entries
      ensures entries == Posted(old(entries), row)
      ensures written <==> FindLive(old(entries), row.key).None?
    {
      if FindLive(entries, row.key).Some? {
        return false;
      }
      entries := entries + [row];
      return true;
    }

    method Void(i: nat, reason: string) returns (refused: bool)
      requires i < |entries|
      modifies this`entries
      ensures refused <==> Blank(reason)
      ensures entries == if refused then old(entries) else old(entries)[i := old(entries)[i].(voided := Some(reason))]
    {
      if Blank(reason) {
        return true;
      }
      entries := entries[i := entries[i].(voided := Some(reason))];
      return false;
    }

    method VoidAll(choice: Choice, reason: string)
      requires !Blank(reason)
      modifies this`entries
      ensures entries == Voided(old(entries), choice, reason)
    {
      for i := 0 to |entries|
        invariant |entries| == |old(entries)|
        invariant forall j :: 0 <= j < i ==> entries[j] == VoidIf(old(entries)[j], choice, reason)
        invariant forall j :: i <= j < |entries| ==> entries[j] == old(entries)[j]
      {
        if entries[i].Live() && choice.Takes(entries[i]) {
          var refused := Void(i, reason);
        }
      }
    }

    // ---------- billing ----------

    method GiveBack(id: nat, month: Month, charged: int, whole: int)
      requires id < |spans| && spans[id].seat < |seats| && spans[id].end.Some?
      modifies this`entries
      ensures entries == GivenBack(old(entries), seats[spans[id].seat], spans[id], id, month, charged, whole)
    {
      var span := spans[id];
      var seat := seats[span.seat];
      var price := if whole == seat.ChargePrice() then charged else seat.ChargePrice();
      var kept := MonthAmount(price, seat.days, month, Some(span.start), span.end);
      if charged > kept {
        var written := Post(CreditRow(seat, span, id, month, charged - kept));
      }
    }

    method BillSpan(id: nat, today: Day)
      requires id < |spans| && spans[id].seat < |seats|
      modifies this`entries
      ensures Tables() == Books.BillSpan(old(Tables()), id, today)
    {
      hide MonthAmount, FindLive, MonthOf, FirstDay;
      var span := spans[id];
      var seat := seats[span.seat];
      var first := MonthOf(span.start);
      var endMonth := span.EndMonth();
      var last := if endMonth.Some? then Min(endMonth.value, MonthOf(today)) else MonthOf(today);
      var month := first;
      while month <= last
        invariant MonthsBilled(entries, seat, span, id, month, last) ==
                  MonthsBilled(old(entries), seat, span, id, first, last)
        decreases last - month
      {
        ghost var before := entries;
        var whole := MonthAmount(seat.ChargePrice(), seat.days, month, Some(span.start), None);
        var charged: int;
        if span.openingMonth.Some? && month <= span.openingMonth.value {
          charged := whole;
        } else {
          if whole != 0 {
            var written := Post(ChargeRow(seat, span, id, month, whole));
          }
          var row := FindLive(entries, ChargeKey(id, month));
          charged := if row.Some? then -row.value.amount else 0;
        }
        if endMonth == Some(month) {
          GiveBack(id, month, charged, whole);
        }
        assert entries == MonthBilled(before, seat, span, id, month);
        month := month + 1;
      }
    }

    /** failing names the spans whose billing raises, for whatever reason; the loop passes over them and lists them. */
    method BillOpenSpans(today: Day, failing: set<nat>) returns (errors: seq<nat>)
      requires SpansOnSeats(Tables())
      modifies this`entries
      ensures Tables() == BillOpenFrom(old(Tables()), 0, today, failing)
      ensures forall s: nat :: s in errors <==>
        s < |spans| && (spans[s].end.None? || MonthOf(today) <= MonthOf(spans[s].end.value)) && s in failing
    {
      hide MonthOf, FirstDay, SpanBilled;
      errors := [];
      var id := 0;
      while id < |spans|
        invariant 0 <= id <= |spans|
        invariant Tables() == old(Tables()).(entries := entries)
        invariant BillOpenFrom(Tables(), id, today, failing) == BillOpenFrom(old(Tables()), 0, today, failing)
        invariant forall s: nat :: s in errors <==>
          s < id && (spans[s].end.None? || MonthOf(today) <= MonthOf(spans[s].end.value)) && s in failing
      {
        RunsInItsMonths(spans[id], today);
        if spans[id].end.None? || spans[id].end.value >= FirstDay(MonthOf(today)) {
          if id in failing {
            errors := errors + [id];
          } else {
            BillSpan(id, today);
          }
        }
        id := id + 1;
      }
    }

    // ---------- a span's life ----------

    method StartSpan(seat: nat, day: Day, today: Day, opening: Option<Month>) returns (id: nat)
      requires seat < |seats|
      modifies this`spans, this`entries
      ensures Tables() == Books.StartSpan(old(Tables()), seat, day, today, opening)
      ensures id == |old(spans)|
    {
      id := |spans|;
      spans := spans + [Span(seat, day, None, None, opening)];
      BillSpan(id, today);
    }

    method EndSpan(id: nat, day: Day, why: EndReason, today: Day)
      requires id < |spans| && spans[id].seat < |seats|
      modifies this`spans, this`entries
      ensures Tables() == Books.EndSpan(old(Tables()), id, day, why, today)
    {
      hide SpanBilled, Voided, MonthOf;
      spans := spans[id := spans[id].(end := Some(day), endedBy := Some(why))];
      assert EndText(why)[1] == if why == Leave then 'e' else 'r';
      VoidAll(ChargesAfter(id, MonthOf(day)), EndText(why));
      BillSpan(id, today);
    }

    /** A reason that cannot be stored refuses the move; the transaction leaves nothing of it. */
    method MoveSpan(id: nat, start: Option<Day>, end: Option<Day>, reason: string, today: Day) returns (refused: bool)
      requires id < |spans| && spans[id].seat < |seats|
      modifies this`spans, this`entries
      ensures refused <==>
        ((start.Some? && start.value != old(spans)[id].start) || (end.Some? && end != old(spans)[id].end)) && Blank(reason) &&
        exists i :: 0 <= i < |old(entries)| && old(entries)[i].span == Some(id) && old(entries)[i].voided.None?
      ensures refused <==> Books.MoveSpan(old(Tables()), id, start, end, reason, today).None?
      ensures Tables() == if refused then old(Tables())
                          else Books.MoveSpan(old(Tables()), id, start, end, reason, today).value
    {
      var span := spans[id];
      var from := if start.Some? then start.value else span.start;
      var to := Or(end, span.end);
      if from == span.start && to == span.end {
        return false;
      }
      if HasLive(entries, id) {
        if Blank(reason) {
          return true;
        }
        VoidAll(RowsOf(id), reason);
      } else {
        assert forall i :: 0 <= i < |entries| ==> Voided(entries, RowsOf(id), reason)[i] == entries[i];
        assert Voided(entries, RowsOf(id), reason) == entries;
      }
      spans := spans[id := span.(start := from, end := to)];
      BillSpan(id, today);
      return false;
    }

    // ---------- prices and money entered by hand ----------

    method SetPersonalPrice(seat: nat, price: Option<int>, reason: string, today: Day) returns (refusal: Option<Refusal>)
      requires seat < |seats| && SpansOnSeats(Tables())
      modifies this`seats, this`entries
      ensures var r := Books.SetPersonalPrice(old(Tables()), seat, price, reason, today);
              if r.Done? then refusal.None? && Tables() == r.value else refusal == Some(r.why) && Tables() == old(Tables())
    {
      hide SpanBilled, Voided;
      if Blank(reason) {
        return Some(NoReason);
      }
      if price.Some? && (price.value < 0 || price.value > MAX_AMOUNT) {
        return Some(BadPrice);
      }
      var wanted: Option<nat> := if price.None? then None else Some(price.value);
      if seats[seat].personalPrice == wanted {
        return None;
      }
      seats := seats[seat := seats[seat].(personalPrice := wanted)];
      ghost var priced := Tables();
      assert PriceText(reason)[0] == 'N';
      var id := 0;
      while id < |spans|
        invariant 0 <= id <= |spans|
        invariant Tables() == priced.(entries := entries)
        invariant RepricedFrom(Tables(), seat, id, PriceText(reason), today) ==
                  RepricedFrom(priced, seat, 0, PriceText(reason), today)
      {
        if spans[id].seat == seat && spans[id].end.None? {
          VoidAll(ChargesIn(id, MonthOf(today)), PriceText(reason));
          BillSpan(id, today);
        }
        id := id + 1;
      }
      return None;
    }

    method EnterMoney(money: Money, today: Day) returns (r: Outcome<Entry>)
      modifies this`entries
      ensures var spec := Books.EnterMoney(old(Tables()), money, today);
              if spec.Done? then Tables() == spec.value.0 && r == Done(spec.value.1)
              else Tables() == old(Tables()) && r == Refused(spec.why)
    {
      var key := ManualKey(money.request);
      var existing := FirstOf(entries, key);
      if existing.Some? {
        if existing.value.account != money.account {
          return Refused(OtherStudent);
        }
        return Done(existing.value);
      }
      if openedOn.None? {
        return Refused(NotOpen);
      }
      if money.day > today {
        return Refused(FutureDay);
      }
      if money.day < openedOn.value {
        return Refused(BeforeOpening);
      }
      var signed, paidBy := money.amount, money.paidBy;
      if money.kind == Adjust {
        if !GoodAmount(if money.amount < 0 then -money.amount else money.amount) {
          return Refused(BadAmount);
        }
        if Blank(money.note) {
          return Refused(NoReason);
        }
        paidBy := "";
      } else if money.kind == Payment || money.kind == Refund {
        if !GoodAmount(money.amount) {
          return Refused(BadAmount);
        }
        if money.paidBy !in METHODS {
          return Refused(NoMethod);
        }
        signed := if money.kind == Payment then money.amount else -money.amount;
      } else {
        return Refused(BadKind);
      }
      var row := Entry(money.account, None, money.kind, signed, money.day, None, key, paidBy, money.note, None);
      var written := Post(row);
      return Done(row);
    }

    method VoidEntered(row: nat, reason: string) returns (refusal: Option<Refusal>)
      requires row < |entries|
      modifies this`entries
      ensures var r := Books.VoidEntered(old(Tables()), row, reason);
              if r.Done? then refusal.None? && Tables() == r.value else refusal == Some(r.why) && Tables() == old(Tables())
    {
      if !entries[row].key.ManualKey? {
        return Some(NotByHand);
      }
      if !entries[row].Live() {
        return Some(AlreadyVoided);
      }
      var refused := Void(row, reason);
      return if refused then Some(NoReason) else None;
    }
  }
}
