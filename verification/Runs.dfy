/** Runs of the ledger: any number of changes, in any order, each on its own day. */
module Runs {
  import opened Wrappers
  import opened Calendar
  import opened Lessons
  import opened Entries
  import opened Books
  import opened Billing
  import opened BilledMonths
  import opened LedgerSafety
  import opened ClosedForm
  import opened SpanCost
  import opened PersonalPrices

  datatype Change =
    | Starts(seat: nat, day: Day, opening: Option<Month>)
    | Bills(span: nat)
    | Ends(span: nat, day: Day, why: EndReason)
    | Moves(span: nat, start: Option<Day>, end: Option<Day>, reason: string)
    | BillsOpen(failing: set<nat>)
    | Enters(money: Money)
    | TakesBack(row: nat, reason: string)
    | Prices(seat: nat, price: Option<int>, reason: string)
    | SeesSeat(seat: nat, seen: Seat)
    | NewSeat(added: Seat)
    | NewAccount(student: Option<nat>)
    | PostsOther(posted: Entry)
    | VoidsOther(key: Key, reason: string)

  datatype Event = Event(today: Day, change: Change)

  /** Ids exist, a span ends cleanly (every caller ends one it has just found running), a seat keeps its person and group, and rows of
      no span carry an opening or a payment key. */
  ghost predicate Legal(b: Book, e: Event) {
    match e.change
    case Starts(seat, _, _) => seat < |b.seats|
    case Bills(s) => s < |b.spans|
    case Ends(s, day, _) => s < |b.spans| && b.spans[s].seat < |b.seats| && EndsCleanly(b, s, day, e.today)
    case Moves(s, _, _, _) => s < |b.spans|
    case BillsOpen(_) => true
    case Enters(m) => m.account < |b.accounts|
    case TakesBack(row, _) => row < |b.entries|
    case Prices(seat, _, _) => seat < |b.seats|
    case SeesSeat(seat, seen) =>
      seat < |b.seats| && seen.account == b.seats[seat].account && seen.lcupGroup == b.seats[seat].lcupGroup
    case NewSeat(_) => true
    case NewAccount(_) => true
    case PostsOther(row) => (row.key.OpeningKey? || row.key.PaymentKey?) && row.Live() && RowOK(b, row)
    case VoidsOther(key, reason) => key.PaymentKey? && !Blank(reason)
  }

  /** The book after the event; one that cannot happen changes nothing. */
  ghost function Step(b: Book, e: Event): Book {
    if !SpansOnSeats(b) || !Legal(b, e) then b
    else
      match e.change
      case Starts(seat, day, opening) => StartSpan(b, seat, day, e.today, opening)
      case Bills(s) => BillSpan(b, s, e.today)
      case Ends(s, day, why) => EndSpan(b, s, day, why, e.today)
      case Moves(s, start, end, reason) =>
        var moved := MoveSpan(b, s, start, end, reason, e.today); if moved.Some? then moved.value else b
      case BillsOpen(failing) => BillOpenFrom(b, 0, e.today, failing)
      case Enters(m) => var r := EnterMoney(b, m, e.today); if r.Done? then r.value.0 else b
      case TakesBack(row, reason) => var r := VoidEntered(b, row, reason); if r.Done? then r.value else b
      case Prices(seat, price, reason) =>
        var r := SetPersonalPrice(b, seat, price, reason, e.today); if r.Done? then r.value else b
      case SeesSeat(seat, seen) => b.(seats := b.seats[seat := seen])
      case NewSeat(added) => b.(seats := b.seats + [added])
      case NewAccount(student) => b.(accounts := b.accounts + [student])
      case PostsOther(row) => b.(entries := Posted(b.entries, row))
      case VoidsOther(key, reason) => b.(entries := Voided(b.entries, RowWith(key), reason))
  }

  lemma StepKeeps(b: Book, e: Event)
    requires Inv(b) && Legal(b, e)
    ensures Keeps(b, Step(b, e))
  {
    match e.change
    case Starts(seat, day, opening) => StartSpanKeeps(b, seat, day, e.today, opening);
    case Bills(s) => BillSpanKeeps(b, s, e.today);
    case Ends(s, day, why) => EndSpanKeeps(b, s, day, why, e.today);
    case Moves(s, start, end, reason) => MoveSpanKeeps(b, s, start, end, reason, e.today);
    case BillsOpen(failing) => BillOpenFromKeeps(b, 0, e.today, failing);
    case Enters(m) => EnterMoneyKeeps(b, m, e.today);
    case TakesBack(row, reason) => VoidEnteredKeeps(b, row, reason);
    case Prices(seat, price, reason) => SetPersonalPriceKeeps(b, seat, price, reason, e.today);
    case SeesSeat(seat, seen) => SeatsChangedKeeps(b, Step(b, e));
    case NewSeat(added) => SeatsChangedKeeps(b, Step(b, e));
    case NewAccount(student) => SeatsChangedKeeps(b, Step(b, e));
    case PostsOther(row) => PostedKeeps(b, row);
    case VoidsOther(key, reason) => VoidElsewhereKeeps(b, RowWith(key), reason);
  }

  ghost function Run(b: Book, events: seq<Event>): Book {
    if events == [] then b else Step(Run(b, events[..|events| - 1]), events[|events| - 1])
  }

  /** Every event can happen when its turn comes. */
  ghost predicate Lawful(b: Book, events: seq<Event>) {
    forall k :: 0 <= k < |events| ==> Legal(Run(b, events[..k]), events[k])
  }

  lemma LawfulBefore(b: Book, events: seq<Event>)
    requires Lawful(b, events) && events != []
    ensures Lawful(b, events[..|events| - 1]) && Legal(Run(b, events[..|events| - 1]), events[|events| - 1])
  {
    var init := events[..|events| - 1];
    forall k | 0 <= k < |init| ensures Legal(Run(b, init[..k]), init[k]) {
      assert init[..k] == events[..k];
    }
  }

  lemma OneMore(b: Book, events: seq<Event>, e: Event)
    requires Lawful(b, events)
    ensures Run(b, events + [e]) == Step(Run(b, events), e)
    ensures Lawful(b, events + [e]) <==> Legal(Run(b, events), e)
  {
    var all := events + [e];
    assert all[..|events|] == events;
    assert forall k :: 0 <= k < |events| ==> all[..k] == events[..k] && all[k] == events[k];
    hide Legal, Step;
    if Legal(Run(b, events), e) {
      forall k | 0 <= k < |all| ensures Legal(Run(b, all[..k]), all[k]) {
        if k < |events| { assert Legal(Run(b, events[..k]), events[k]); }
      }
    } else {
      assert !Legal(Run(b, all[..|events|]), all[|events|]);
    }
  }

  /** Over every run, price changes included: rows are only appended or voided once with a reason, a key has no second live
      row and a person's request no second row ever, and a live credit lies in an ended span's end month and never exceeds
      the charge it gives back. */
  lemma {:induction false} EveryRunKeeps(b: Book, events: seq<Event>)
    requires Inv(b) && Lawful(b, events)
    ensures Keeps(b, Run(b, events))
  {
    if events == [] {
      KeepsItself(b);
    } else {
      var before := Run(b, events[..|events| - 1]);
      LawfulBefore(b, events);
      EveryRunKeeps(b, events[..|events| - 1]);
      hide Inv, Legal, Step;
      InvOfKeeps(b, before);
      StepKeeps(before, events[|events| - 1]);
      KeepsTransitive(b, before, Run(b, events));
    }
  }

  lemma InvOfKeeps(b: Book, b': Book)
    requires Keeps(b, b')
    ensures Inv(b')
  {
  }

  const EMPTY := Book([], [], [], [], None)

  /** From an empty ledger no run makes a month the span was charged for net above zero. */
  lemma NoMonthNetsAboveZero(events: seq<Event>, id: nat, month: Month)
    requires Lawful(EMPTY, events) && id < |Run(EMPTY, events).spans| && !Run(EMPTY, events).spans[id].InOpening(month)
    ensures MonthNet(Run(EMPTY, events).entries, id, month) <= 0
  {
    var b := Run(EMPTY, events);
    EveryRunKeeps(EMPTY, events);
    assert ChargeOK(b.entries, b.spans[id], id, month) && CreditOK(b.entries, b.spans[id], id, month);
    if FindLive(b.entries, ChargeKey(id, month)).Some? {
      LiveRowOK(b, ChargeKey(id, month));
    }
    hide Step, Run;
  }

  // ---------- runs at a fixed price ----------

  /** What a span's rows depend on in its seat. */
  predicate SameTerms(a: Seat, b: Seat) {
    a.account == b.account && a.ChargePrice() == b.ChargePrice() && a.days == b.days
  }

  /** The snapshot may change a seat's group, state and dates, but not its price or weekdays. */
  predicate FixedPrice(b: Book, change: Change) {
    match change
    case Prices(_, _, _) => false
    case SeesSeat(seat, seen) => seat < |b.seats| && SameTerms(b.seats[seat], seen)
    case _ => true
  }

  lemma SameTermsSameRows(rows: seq<Entry>, seat: Seat, seat': Seat, span: Span, id: nat, billed: int)
    requires SameTerms(seat, seat') && Settled(rows, seat, span, id, billed)
    ensures Settled(rows, seat', span, id, billed)
  {
    hide MonthAmount, MonthOf, FindLive;
    forall key | KeyOf(key, id) ensures Expected(seat', span, id, billed, key) == Expected(seat, span, id, billed, key) {
    }
  }

  lemma SeenSeatStaysSettled(b: Book, billed: seq<int>, seat: nat, seen: Seat)
    requires AllSettled(b, billed) && seat < |b.seats| && SameTerms(b.seats[seat], seen)
    ensures AllSettled(b.(seats := b.seats[seat := seen]), billed)
  {
    var b' := b.(seats := b.seats[seat := seen]);
    forall s | 0 <= s < |b'.spans| ensures SpanSettled(b', s, billed[s]) {
      assert SpanSettled(b, s, billed[s]);
      SameTermsSameRows(b.entries, b.seats[b.spans[s].seat], b'.seats[b.spans[s].seat], b.spans[s], s, billed[s]);
    }
  }

  /** The event bills the span: it begins it, ends it, changes its dates, bills it alone, or bills all that run and does not
      fail on it. */
  ghost predicate BilledIn(b: Book, e: Event, s: nat) {
    match e.change
    case Starts(_, _, _) => s == |b.spans|
    case Bills(x) => s == x
    case Ends(x, _, _) => s == x
    case Moves(x, _, _, _) => s == x && Step(b, e).spans != b.spans
    case BillsOpen(failing) =>
      s < |b.spans| && (b.spans[s].end.None? || MonthOf(e.today) <= MonthOf(b.spans[s].end.value)) && s !in failing
    case _ => false
  }

  /** The month each span was last billed in; -1 stands for never. */
  ghost function BilledAfter(b: Book, billed: seq<int>, e: Event): (r: seq<int>)
    ensures |r| == |Step(b, e).spans|
  {
    seq(|Step(b, e).spans|, s requires 0 <= s =>
      if BilledIn(b, e, s) then MonthOf(e.today) else if s < |billed| then billed[s] else -1)
  }

  ghost function BilledRun(events: seq<Event>): (r: seq<int>)
    ensures |r| == |Run(EMPTY, events).spans|
  {
    if events == [] then []
    else BilledAfter(Run(EMPTY, events[..|events| - 1]), BilledRun(events[..|events| - 1]), events[|events| - 1])
  }

  ghost predicate FixedPrices(events: seq<Event>) {
    forall k :: 0 <= k < |events| ==> FixedPrice(Run(EMPTY, events[..k]), events[k].change)
  }

  predicate DaysRise(events: seq<Event>) {
    forall j, k :: 0 <= j < k < |events| ==> events[j].today <= events[k].today
  }

  /** A run whose prices and weekdays stand still and whose days do not go back. */
  ghost predicate Steady(events: seq<Event>) {
    Lawful(EMPTY, events) && FixedPrices(events) && DaysRise(events)
  }

  lemma SteadyBefore(events: seq<Event>)
    requires Steady(events) && events != []
    ensures Steady(events[..|events| - 1]) && Legal(Run(EMPTY, events[..|events| - 1]), events[|events| - 1])
    ensures FixedPrice(Run(EMPTY, events[..|events| - 1]), events[|events| - 1].change)
  {
    var init := events[..|events| - 1];
    LawfulBefore(EMPTY, events);
    forall k | 0 <= k < |init| ensures FixedPrice(Run(EMPTY, init[..k]), init[k].change) {
      assert init[..k] == events[..k];
    }
  }

  lemma OneMoreBilled(events: seq<Event>, e: Event)
    ensures BilledRun(events + [e]) == BilledAfter(Run(EMPTY, events), BilledRun(events), e)
  {
    assert (events + [e])[..|events|] == events;
    hide BilledAfter, Step, Run;
  }

  lemma OneMoreFixed(events: seq<Event>, e: Event)
    requires Steady(events) && FixedPrice(Run(EMPTY, events), e.change)
    ensures FixedPrices(events + [e])
  {
    var all := events + [e];
    hide FixedPrice, Run, Lawful;
    assert all[..|events|] == events;
    forall k | 0 <= k < |all| ensures FixedPrice(Run(EMPTY, all[..k]), all[k].change) {
      if k < |events| {
        assert all[..k] == events[..k];
        assert FixedPrice(Run(EMPTY, events[..k]), events[k].change);
      }
    }
  }

  lemma OneMoreDay(events: seq<Event>, e: Event)
    requires DaysRise(events)
    requires events != [] ==> events[|events| - 1].today <= e.today
    ensures DaysRise(events + [e])
  {
    var all := events + [e];
    forall j, k | 0 <= j < k < |all| ensures all[j].today <= all[k].today {
      if k == |events| && j < |events| - 1 { assert events[j].today <= events[|events| - 1].today; }
    }
  }

  lemma OneMoreSteady(events: seq<Event>, e: Event)
    requires Steady(events) && Legal(Run(EMPTY, events), e) && FixedPrice(Run(EMPTY, events), e.change)
    requires events != [] ==> events[|events| - 1].today <= e.today
    ensures Steady(events + [e]) && BilledRun(events + [e]) == BilledAfter(Run(EMPTY, events), BilledRun(events), e)
  {
    OneMore(EMPTY, events, e);
    OneMoreBilled(events, e);
    OneMoreFixed(events, e);
    OneMoreDay(events, e);
    hide *;
    assert Steady(events + [e]) by { SteadyParts(events + [e]); }
  }

  lemma SteadyParts(events: seq<Event>)
    requires Lawful(EMPTY, events) && FixedPrices(events) && DaysRise(events)
    ensures Steady(events)
  {
  }

  lemma EnterMoneyTouchesNoSpan(b: Book, m: Money, today: Day, key: Key)
    requires Inv(b) && IsSpanKey(key)
    ensures var r := EnterMoney(b, m, today); r.Done? ==> FindLive(r.value.0.entries, key) == FindLive(b.entries, key)
  {
    FindPosted(b.entries, MoneyRow(m), key);
  }

  lemma VoidEnteredTouchesNoSpan(b: Book, row: nat, reason: string, key: Key)
    requires Inv(b) && row < |b.entries| && IsSpanKey(key)
    ensures var r := VoidEntered(b, row, reason); r.Done? ==> FindLive(r.value.entries, key) == FindLive(b.entries, key)
  {
    VoidEnteredKeeps(b, row, reason);
    FindSpanKeyVoided(b, RowWith(b.entries[row].key), reason, key);
  }

  lemma OtherRowsStaySettled(b: Book, billed: seq<int>, e: Event)
    requires Inv(b) && Legal(b, e) && AllSettled(b, billed)
    requires e.change.Enters? || e.change.TakesBack? || e.change.PostsOther? || e.change.VoidsOther?
    ensures AllSettled(Step(b, e), billed)
  {
    forall key | IsSpanKey(key) ensures FindLive(Step(b, e).entries, key) == FindLive(b.entries, key) {
      match e.change
      case Enters(m) => EnterMoneyTouchesNoSpan(b, m, e.today, key);
      case PostsOther(row) => FindPosted(b.entries, row, key);
      case VoidsOther(k, reason) => FindSpanKeyVoided(b, RowWith(k), reason, key);
      case TakesBack(row, reason) => VoidEnteredTouchesNoSpan(b, row, reason, key);
    }
    RowsElsewhereStaySettled(b, Step(b, e), billed);
  }

  lemma TickBills(b: Book, billed: seq<int>, e: Event)
    requires Inv(b) && |billed| == |b.spans| && e.change.BillsOpen?
    ensures BilledAfter(b, billed, e) == BilledByTick(b, billed, 0, e.today, e.change.failing)
  {
    BillOpenKeepsSpans(b, 0, e.today, e.change.failing);
    forall s | 0 <= s < |b.spans| ensures Running(b.spans[s], e.today) <==>
      b.spans[s].end.None? || MonthOf(e.today) <= MonthOf(b.spans[s].end.value)
    {
      RunsInItsMonths(b.spans[s], e.today);
    }
    hide BillOpenFrom, MonthOf, Inv, Running;
  }

  lemma OneSpanBills(b: Book, billed: seq<int>, e: Event)
    requires Inv(b) && Legal(b, e) && |billed| == |b.spans| && !e.change.BillsOpen? && FixedPrice(b, e.change)
    ensures BilledAfter(b, billed, e) ==
      var month := MonthOf(e.today);
      match e.change
      case Starts(_, _, _) => billed + [month]
      case Bills(s) => billed[s := month]
      case Ends(s, _, _) => billed[s := month]
      case Moves(s, _, _, _) => if Step(b, e).spans == b.spans then billed else billed[s := month]
      case _ => billed
  {
    OnlyStartsAddSpans(b, e);
    assert SpansOnSeats(b);
    hide Step, MonthOf, Inv, SpansOnSeats;
  }

  lemma StepStaysSettled(b: Book, billed: seq<int>, e: Event)
    requires Inv(b) && Legal(b, e) && FixedPrice(b, e.change)
    requires AllSettled(b, billed) && BilledBy(billed, MonthOf(e.today))
    ensures AllSettled(Step(b, e), BilledAfter(b, billed, e))
    ensures BilledBy(BilledAfter(b, billed, e), MonthOf(e.today))
  {
    if e.change.BillsOpen? {
      TickBills(b, billed, e);
      TickStaysSettled(b, billed, e.today, e.change.failing);
    } else {
      OneSpanBills(b, billed, e);
      hide BilledAfter, Whole, MonthOf, SpanBilled, Voided, HasLive, Blank, Posted, FindLive, EndsCleanly;
      match e.change
      case Starts(seat, day, opening) => StartStaysSettled(b, billed, seat, day, e.today, opening);
      case Bills(s) => BillStaysSettled(b, billed, s, e.today);
      case Ends(s, day, why) => EndStaysSettled(b, billed, s, day, why, e.today);
      case Moves(s, start, end, reason) =>
        MoveStaysSettled(b, billed, s, start, end, reason, e.today);
        MovedIfDatesChange(b, s, start, end, reason, e.today);
      case SeesSeat(seat, seen) => SeenSeatStaysSettled(b, billed, seat, seen);
      case NewSeat(added) => NewSeatStaysSettled(b, billed, added);
      case NewAccount(student) => RowsElsewhereStaySettled(b, Step(b, e), billed);
      case _ => OtherRowsStaySettled(b, billed, e);
    }
  }

  lemma NewSeatStaysSettled(b: Book, billed: seq<int>, added: Seat)
    requires AllSettled(b, billed)
    ensures AllSettled(b.(seats := b.seats + [added]), billed)
  {
    var b' := b.(seats := b.seats + [added]);
    forall s | 0 <= s < |b'.spans| ensures SpanSettled(b', s, billed[s]) {
      assert SpanSettled(b, s, billed[s]);
    }
    hide Settled;
  }

  lemma MovedIfDatesChange(b: Book, id: nat, start: Option<Day>, end: Option<Day>, reason: string, today: Day)
    requires id < |b.spans| && b.spans[id].seat < |b.seats|
    ensures var moved := MoveSpan(b, id, start, end, reason, today);
            moved.Some? ==> (moved.value == b <==> moved.value.spans == b.spans)
  {
    hide SpanBilled, Voided, HasLive, Blank;
    var span := b.spans[id];
    var to := span.(start := if start.Some? then start.value else span.start, end := Or(end, span.end));
    if to != span {
      assert b.spans[id := to][id] != b.spans[id];
    }
  }

  /** With prices and weekdays fixed and today never going back, every span's live rows after any run are the closed
      form for its dates, its opening month and the last month it was billed in, whatever the order of the changes. */
  lemma {:induction false} EveryRunSettles(events: seq<Event>)
    requires Steady(events)
    ensures Inv(Run(EMPTY, events)) && AllSettled(Run(EMPTY, events), BilledRun(events))
    ensures events != [] ==> BilledBy(BilledRun(events), MonthOf(events[|events| - 1].today))
  {
    if events != [] {
      var init, e := events[..|events| - 1], events[|events| - 1];
      SteadyBefore(events);
      EveryRunSettles(init);
      if init != [] {
        MonthOfMonotone(init[|init| - 1].today, e.today);
      }
      hide Inv, AllSettled, Legal, Step, BilledAfter, MonthOf;
      var b := Run(EMPTY, init);
      StepKeeps(b, e);
      InvOfKeeps(b, Step(b, e));
      StepStaysSettled(b, BilledRun(init), e);
    }
  }

  /** The k-th event bills the span, in the month or later. */
  ghost predicate BilledAt(events: seq<Event>, k: nat, id: nat, month: Month) {
    k < |events| && BilledIn(Run(EMPTY, events[..k]), events[k], id) && month <= MonthOf(events[k].today)
  }

  lemma BilledAtBefore(events: seq<Event>, k: nat, id: nat, month: Month)
    requires events != [] && k < |events| - 1
    ensures BilledAt(events, k, id, month) <==> BilledAt(events[..|events| - 1], k, id, month)
  {
    assert events[..|events| - 1][..k] == events[..k];
  }

  /** A span was last billed in or after a month exactly when some event billed it then or later. */
  lemma {:induction false} BilledSince(events: seq<Event>, id: nat, month: Month)
    requires Steady(events) && id < |Run(EMPTY, events).spans|
    ensures month <= BilledRun(events)[id] <==> exists k :: BilledAt(events, k, id, month)
  {
    if events != [] {
      var init, e := events[..|events| - 1], events[|events| - 1];
      var b := Run(EMPTY, init);
      SteadyBefore(events);
      OnlyStartsAddSpans(b, e);
      if BilledIn(b, e, id) {
        BilledLast(events, id, month);
      } else {
        BilledSince(init, id, month);
        BilledEarlier(events, init, id, month);
        assert BilledRun(events)[id] == BilledRun(init)[id];
        hide BilledAt, BilledRun, Run;
      }
    }
  }

  lemma BilledLast(events: seq<Event>, id: nat, month: Month)
    requires Steady(events) && events != [] && id < |Run(EMPTY, events).spans|
    requires BilledIn(Run(EMPTY, events[..|events| - 1]), events[|events| - 1], id)
    ensures month <= BilledRun(events)[id] <==> exists k :: BilledAt(events, k, id, month)
  {
    var e := events[|events| - 1];
    assert BilledAt(events, |events| - 1, id, month) <==> month <= MonthOf(e.today);
    forall k: nat | BilledAt(events, k, id, month) ensures month <= MonthOf(e.today) {
      if k < |events| - 1 { MonthOfMonotone(events[k].today, e.today); }
    }
    hide Run, BilledIn, MonthOf, Step;
  }

  lemma BilledEarlier(events: seq<Event>, init: seq<Event>, id: nat, month: Month)
    requires events != [] && init == events[..|events| - 1]
    requires !BilledIn(Run(EMPTY, init), events[|events| - 1], id)
    ensures (exists k :: BilledAt(events, k, id, month)) <==> exists k :: BilledAt(init, k, id, month)
  {
    if exists k :: BilledAt(events, k, id, month) {
      var k :| BilledAt(events, k, id, month);
      assert k != |events| - 1;
      BilledAtBefore(events, k, id, month);
      assert BilledAt(init, k, id, month);
    }
    if exists k :: BilledAt(init, k, id, month) {
      var k :| BilledAt(init, k, id, month);
      BilledAtBefore(events, k, id, month);
      assert BilledAt(events, k, id, month);
    }
  }

  lemma OnlyStartsAddSpans(b: Book, e: Event)
    ensures |Step(b, e).spans| == |b.spans| + if SpansOnSeats(b) && e.change.Starts? && Legal(b, e) then 1 else 0
  {
    hide SpanBilled, Voided, Posted, BillOpenFrom, RepricedFrom, Blank, HasLive;
    if SpansOnSeats(b) && Legal(b, e) {
      match e.change
      case BillsOpen(failing) => BillOpenKeepsSpans(b, 0, e.today, failing);
      case Prices(seat, price, reason) =>
        var r := SetPersonalPrice(b, seat, price, reason, e.today);
        if r.Done? && r.value != b {
          var wanted: Option<nat> := if price.None? then None else Some(price.value);
          RepricedTables(b.(seats := b.seats[seat := b.seats[seat].(personalPrice := wanted)]), seat, 0, PriceText(reason), e.today);
        }
      case _ =>
    }
  }

  lemma {:induction false} BillOpenKeepsSpans(b: Book, id: nat, today: Day, failing: set<nat>)
    requires SpansOnSeats(b)
    ensures BillOpenFrom(b, id, today, failing) == b.(entries := BillOpenFrom(b, id, today, failing).entries)
    decreases |b.spans| - id
  {
    if id < |b.spans| {
      BillOpenKeepsSpans(if Running(b.spans[id], today) && id !in failing then BillSpan(b, id, today) else b,
                         id + 1, today, failing);
    }
  }

  /** Two runs that leave a span with the same dates, opening month, seat and last billed month leave it the same live
      rows, however each got there. */
  lemma RunsAgreeOnASpan(events1: seq<Event>, events2: seq<Event>, id: nat, key: Key)
    requires Steady(events1) && Steady(events2) && KeyOf(key, id)
    requires var (b1, b2) := (Run(EMPTY, events1), Run(EMPTY, events2));
             id < |b1.spans| && id < |b2.spans| && BilledRun(events1)[id] == BilledRun(events2)[id] &&
             b1.spans[id].(endedBy := None) == b2.spans[id].(endedBy := None) &&
             b1.spans[id].seat < |b1.seats| && b2.spans[id].seat < |b2.seats| &&
             SameTerms(b1.seats[b1.spans[id].seat], b2.seats[b2.spans[id].seat])
    ensures FindLive(Run(EMPTY, events1).entries, key) == FindLive(Run(EMPTY, events2).entries, key)
  {
    var b1, b2, billed := Run(EMPTY, events1), Run(EMPTY, events2), BilledRun(events1)[id];
    EveryRunSettles(events1);
    EveryRunSettles(events2);
    assert SpanSettled(b1, id, billed) && SpanSettled(b2, id, billed);
    hide Run, BilledRun, Inv, AllSettled;
    SameTermsSameRows(b1.entries, b1.seats[b1.spans[id].seat], b2.seats[b2.spans[id].seat], b1.spans[id], id, billed);
    SettledRowsAgree(b1.entries, b2.entries, b2.seats[b2.spans[id].seat], b1.spans[id], b2.spans[id], id, billed, key);
  }

  /** Why a span ended does not show in its rows. */
  lemma WhyDoesNotShow(seat: Seat, span: Span, why: Option<EndReason>, id: nat, billed: int, key: Key)
    requires KeyOf(key, id)
    ensures Expected(seat, span.(endedBy := why), id, billed, key) == Expected(seat, span, id, billed, key)
  {
    hide MonthAmount, MonthOf, FirstDay;
  }

  lemma SettledRowsAgree(
    rows1: seq<Entry>, rows2: seq<Entry>, seat: Seat, span1: Span, span2: Span, id: nat, billed: int, key: Key)
    requires Settled(rows1, seat, span1, id, billed) && Settled(rows2, seat, span2, id, billed)
    requires span1.(endedBy := None) == span2.(endedBy := None) && KeyOf(key, id)
    ensures FindLive(rows1, key) == FindLive(rows2, key)
  {
    WhyDoesNotShow(seat, span1, span2.endedBy, id, billed, key);
    assert span1.(endedBy := span2.endedBy) == span2;
    hide Expected, FindLive;
  }

  /** After any run at a fixed price a span that has ended, in a month the opening does not carry, has been charged exactly
      its lessons if and only if nothing was missed: in thousands, that it was billed in its last month or later. */
  lemma AfterAnyRunLessonsArePaid(events: seq<Event>, id: nat)
    requires Steady(events) && id < |Run(EMPTY, events).spans|
    requires var b := Run(EMPTY, events); var span := b.spans[id];
             span.seat < |b.seats| && span.end.Some? && span.start <= span.end.value && !span.InOpening(MonthOf(span.end.value))
    ensures var b := Run(EMPTY, events); var span, seat := b.spans[id], b.seats[b.spans[id].seat];
            -LessonsCost(seat, span) <= SpanTotal(b.entries, id) &&
            (SpanTotal(b.entries, id) == -LessonsCost(seat, span) <==> NothingMissed(seat, span, BilledRun(events)[id])) &&
            (seat.ChargePrice() % 1000 == 0 &&
             (exists k :: BilledAt(events, k, id, MonthOf(span.end.value))) ==>
             SpanTotal(b.entries, id) == -LessonsCost(seat, span))
  {
    var b, billed := Run(EMPTY, events), BilledRun(events)[id];
    EveryRunSettles(events);
    BilledSince(events, id, MonthOf(b.spans[id].end.value));
    assert SpanSettled(b, id, billed);
    hide Run, BilledRun, AllSettled, BilledAt, SpanTotal, LessonsCost, NothingMissed, MonthOf;
    EndedSpanOwesItsLessons(b, id, billed);
  }
}
