/** Runs at particular inputs where the ledger does what nobody asked of it. */
module Cases {
  import opened Wrappers
  import opened Calendar
  import opened Lessons
  import opened Entries
  import opened Books
  import opened Billing
  import opened LedgerSafety
  import opened ClosedForm
  import opened SpanCost
  import opened PersonalPrices
  import opened Runs

  function DailySeat(personal: Option<nat>): Seat {
    Seat(0, None, "", 400_000, personal, DAILY, Active, None, None)
  }

  lemma FirstMonths()
    ensures FirstDay(0) == 0 && FirstDay(1) == 31 && FirstDay(2) == 59 && FirstDay(3) == 90 && FirstDay(4) == 120
  {
    assert FirstDay(1) == 31;
    assert FirstDay(2) == 59;
    assert FirstDay(3) == 90;
  }

  lemma MonthIs(day: Day, month: Month)
    requires FirstDay(month) <= day < FirstDay(month + 1)
    ensures MonthOf(day) == month
  {
    MonthOfIsUnique(day, month);
  }

  // ---------- a grant that ends ----------

  /** A student on a grant has no charges.  When the grant ends, or becomes a price, every whole month since the span began
      is charged at the new price, although those months were free. */
  lemma GrantEndedChargesItsMonths(
    b: Book, billed: int, seat: nat, price: Option<int>, reason: string, today: Day, s: nat, month: Month)
    requires Inv(b) && seat < |b.seats| && s < |b.spans| && Rewritten(b, seat, s) && SpanSettled(b, s, billed)
    requires b.seats[seat].ChargePrice() == 0 && NewPrice(b, seat, price, reason)
    requires b.spans[s].start <= FirstDay(month) && month < MonthOf(today) && !b.spans[s].InOpening(month)
    requires LessonsInMonth(month, b.seats[seat].days) != []
    ensures SetPersonalPrice(b, seat, price, reason, today).Done?
    ensures Repriced(b.seats[seat], price).ChargePrice() == 0 ||
      var row := FindLive(SetPersonalPrice(b, seat, price, reason, today).value.entries, ChargeKey(s, month));
      row.Some? && row.value.amount < 0 && row.value.amount + Repriced(b.seats[seat], price).ChargePrice() == 0
  {
    var span, was := b.spans[s], b.seats[seat];
    MonthOfFirstDay(FirstDay(month), month);
    FirstDayMonotone(month, month + 1);
    MonthIs(FirstDay(month), month);
    MonthOfMonotone(span.start, FirstDay(month));
    NothingAtNoPrice(was.days, month, Some(span.start), None);
    assert KeyOf(ChargeKey(s, month), s);
    assert FindLive(b.entries, ChargeKey(s, month)).None?;
    WholeMonthIsThePrice(Repriced(was, price).ChargePrice(), was.days, month, Some(span.start), None);
    hide FindLive, MonthAmount, MonthOf, SetPersonalPrice;
    UnchargedMonthIsCharged(b, seat, price, reason, today, s, month);
  }

  /** The daily seat and its span from the first day of January, reached from nothing. */
  lemma Began(personal: Option<nat>) returns (events: seq<Event>, b: Book)
    ensures Steady(events) && Run(EMPTY, events) == b && events != [] && events[|events| - 1].today == 0
    ensures Inv(b) && b.seats == [DailySeat(personal)] && b.spans == [Span(0, 0, None, None, None)]
    ensures |BilledRun(events)| == 1 && BilledRun(events)[0] == MonthOf(0) && SpanSettled(b, 0, MonthOf(0))
  {
    var seated, started := Event(0, NewSeat(DailySeat(personal))), Event(0, Starts(0, 0, None));
    var b1 := EMPTY.(seats := [DailySeat(personal)]);
    FirstStep([], seated, EMPTY, b1);
    assert [] + [seated] == [seated];
    b := StartSpan(b1, 0, 0, 0, None);
    StartedDaily(b1, started);
    hide *;
    events := [seated] + [started];
    FirstStep([seated], started, b1, b);
    EveryRunSettles(events);
    SettledOne(b, BilledRun(events));
  }

  lemma FirstStep(events: seq<Event>, e: Event, b: Book, b': Book)
    requires Steady(events) && Run(EMPTY, events) == b && Legal(b, e) && FixedPrice(b, e.change) && Step(b, e) == b'
    requires events != [] ==> events[|events| - 1].today <= e.today
    ensures Steady(events + [e]) && Run(EMPTY, events + [e]) == b' && BilledRun(events + [e]) == BilledAfter(b, BilledRun(events), e)
  {
    OneMoreSteady(events, e);
    OneMore(EMPTY, events, e);
    hide *;
  }

  lemma StartedDaily(b: Book, e: Event)
    requires b.spans == [] && |b.seats| == 1 && e == Event(0, Starts(0, 0, None))
    ensures Legal(b, e) && FixedPrice(b, e.change) && Step(b, e) == StartSpan(b, 0, 0, 0, None)
    ensures Step(b, e).spans == [Span(0, 0, None, None, None)] && Step(b, e).seats == b.seats
    ensures forall billed :: BilledAfter(b, billed, e) == [MonthOf(0)]
  {
    hide SpanBilled, MonthOf;
  }

  lemma SettledOne(b: Book, billed: seq<int>)
    requires AllSettled(b, billed) && b.spans != []
    ensures SpanSettled(b, 0, billed[0])
  {
  }

  /** Free in January, February and March, charged for all three when the grant is taken back in April. */
  lemma GrantIsChargedBack(reason: string, today: Day, month: Month) returns (events: seq<Event>)
    requires !Blank(reason) && 90 <= today < 120 && month < 3
    ensures Lawful(EMPTY, events) && |events| > 0 && events[|events| - 1] == Event(today, Prices(0, None, reason))
    ensures FindLive(Run(EMPTY, events[..|events| - 1]).entries, ChargeKey(0, month)).None?
    ensures var row := FindLive(Run(EMPTY, events).entries, ChargeKey(0, month)); row.Some? && row.value.amount == -400_000
  {
    var began, b := Began(Some(0));
    var priced := Event(today, Prices(0, None, reason));
    OneMore(EMPTY, began, priced);
    events := began + [priced];
    assert events[..|events| - 1] == began;
    assert Run(EMPTY, events) == Step(b, priced);
    hide Run;
    NoChargeOnAGrant(b, MonthOf(0), month);
    DailyGrantEnds(b, reason, today, month);
    hide *;
  }

  lemma DailyGrantEnds(b: Book, reason: string, today: Day, month: Month)
    requires Inv(b) && b.seats == [DailySeat(Some(0))] && b.spans == [Span(0, 0, None, None, None)]
    requires SpanSettled(b, 0, MonthOf(0)) && !Blank(reason) && 90 <= today < 120 && month < 3
    ensures Legal(b, Event(today, Prices(0, None, reason)))
    ensures var row := FindLive(Step(b, Event(today, Prices(0, None, reason))).entries, ChargeKey(0, month));
            row.Some? && row.value.amount == -400_000
  {
    FirstMonths();
    MonthIs(today, 3);
    DailyMonth(month, b.spans[0].start);
    PricesStep(b, Event(today, Prices(0, None, reason)));
    assert NewPrice(b, 0, None, reason) && Rewritten(b, 0, 0) && Repriced(b.seats[0], None).ChargePrice() == 400_000;
    assert b.spans[0].start <= FirstDay(month) && LessonsInMonth(month, b.seats[0].days) != [];
    assert !b.spans[0].InOpening(month) && b.seats[0].ChargePrice() == 0;
    hide *;
    GrantEndedChargesItsMonths(b, MonthOf(0), 0, None, reason, today, 0, month);
  }

  lemma PricesStep(b: Book, e: Event)
    requires SpansOnSeats(b) && e.change.Prices? && e.change.seat < |b.seats|
    ensures Legal(b, e)
    ensures var r := SetPersonalPrice(b, e.change.seat, e.change.price, e.change.reason, e.today);
            Step(b, e) == if r.Done? then r.value else b
  {
    hide SetPersonalPrice;
  }

  lemma DailyMonth(month: Month, start: Day)
    requires start == 0
    ensures start <= FirstDay(month) && LessonsInMonth(month, DAILY) != []
  {
    FirstDayMonotone(0, month);
    FirstDayMonotone(month, month + 1);
    DailyPart(month, start, FirstDay(month));
    hide *;
  }

  lemma NoChargeOnAGrant(b: Book, billed: int, month: Month)
    requires |b.spans| > 0 && b.spans[0].seat < |b.seats| && SpanSettled(b, 0, billed)
    requires b.seats[b.spans[0].seat].ChargePrice() == 0
    ensures FindLive(b.entries, ChargeKey(0, month)).None?
  {
    assert KeyOf(ChargeKey(0, month), 0);
    NothingAtNoPrice(b.seats[b.spans[0].seat].days, month, Some(b.spans[0].start), None);
    hide FindLive, MonthAmount, MonthOf;
  }

  // ---------- ended twice ----------

  /** The daily seat's span ended on a day of January. */
  lemma EndedOnce(day: Day, why: EndReason) returns (events: seq<Event>, b: Book)
    requires day < 31
    ensures Lawful(EMPTY, events) && b == Run(EMPTY, events) && Inv(b)
    ensures b.spans == [Span(0, 0, Some(day), Some(why), None)] && b.seats == [DailySeat(None)]
    ensures SpanSettled(b, 0, MonthOf(day))
  {
    var began, b0 := Began(None);
    var ended := Event(day, Ends(0, day, why));
    EndingStep(b0, ended);
    January(day);
    MonthOfMonotone(0, day);
    hide *;
    AllOne(b0, MonthOf(0));
    EndedStaysSettled(b0, MonthOf(0), day, why);
    OneMore(EMPTY, began, ended);
    events, b := began + [ended], Step(b0, ended);
    KeptInRun(events);
  }

  lemma AllOne(b: Book, billed: int)
    requires |b.spans| == 1 && Inv(b) && SpanSettled(b, 0, billed)
    ensures AllSettled(b, [billed])
  {
    assert SpansOnSeats(b);
  }

  lemma EndedStaysSettled(b: Book, billed: int, day: Day, why: EndReason)
    requires Inv(b) && AllSettled(b, [billed]) && b.spans == [Span(0, 0, None, None, None)] && billed <= MonthOf(day)
    ensures SpansOnSeats(b) && SpanSettled(EndSpan(b, 0, day, why, day), 0, MonthOf(day))
  {
    assert SpansOnSeats(b) && EndsCleanly(b, 0, day, day);
    hide *;
    EndStaysSettled(b, [billed], 0, day, why, day);
    OneOfAll(EndSpan(b, 0, day, why, day), [billed][0 := MonthOf(day)]);
  }

  lemma OneOfAll(b: Book, billed: seq<int>)
    requires AllSettled(b, billed) && |billed| == 1
    ensures SpansOnSeats(b) && |b.spans| == 1 && SpanSettled(b, 0, billed[0])
  {
  }

  lemma KeptInRun(events: seq<Event>)
    requires Lawful(EMPTY, events)
    ensures Inv(Run(EMPTY, events))
  {
    EveryRunKeeps(EMPTY, events);
  }

  lemma EndingStep(b: Book, e: Event)
    requires b.spans == [Span(0, 0, None, None, None)] && |b.seats| == 1
    requires e.change.Ends? && e.change.span == 0
    ensures Legal(b, e) && FixedPrice(b, e.change) && Step(b, e) == EndSpan(b, 0, e.change.day, e.change.why, e.today)
    ensures Step(b, e).spans == [Span(0, 0, Some(e.change.day), Some(e.change.why), None)] && Step(b, e).seats == b.seats
  {
    hide SpanBilled, Voided, MonthOf;
  }

  lemma PartOfJanuary(price: nat, month: Month, start: Day, end: Day, thousands: int)
    requires price == 400_000 && month == 0 && start == 0 && end < 30
    requires -31_000 < 2 * (thousands * 31_000 - price * (end + 1)) < 31_000
    ensures MonthAmount(price, DAILY, month, Some(start), Some(end)) == thousands * 1000
    ensures MonthAmount(price, DAILY, month, Some(start), None) == price
  {
    NearestIsUnique(price * (end + 1), 31_000, thousands);
    JanuaryLessons(month, start, end);
    hide *;
    AmountByNumbers(price, DAILY, month, Some(start), Some(end), end + 1, 31);
    AmountByNumbers(price, DAILY, month, Some(start), None, 31, 31);
  }

  lemma JanuaryLessons(month: Month, start: Day, end: Day)
    requires month == 0 && start == 0 && end < 30
    ensures |LessonsInMonth(month, DAILY)| == 31 == |Kept(LessonsInMonth(month, DAILY), Some(start), None)|
    ensures |Kept(LessonsInMonth(month, DAILY), Some(start), Some(end))| == end + 1
  {
    January(end);
    assert FirstDay(month) == 0 && FirstDay(month + 1) == 31;
    DailyPart(month, start, end);
    DailyWhole(month, start);
    hide *;
  }

  /** What January's charge and credit are once the span has ended: 129,000 given back for the ten lessons after the 21st. */
  lemma GivenBackOnce(b: Book, day: Day, why: EndReason, month: Month, start: Day)
    requires b.spans == [Span(0, start, Some(day), Some(why), None)] && b.seats == [DailySeat(None)] && SpanSettled(b, 0, month)
    requires month == 0 && start == 0 && day == 20
    ensures AmountOf(FindLive(b.entries, ChargeKey(0, month))) == -400_000
    ensures var credit := FindLive(b.entries, EndKey(0, month)); credit.Some? && credit.value.day == day && credit.value.amount == 129_000
  {
    assert KeyOf(ChargeKey(0, month), 0) && KeyOf(EndKey(0, month), 0);
    GivenBackExpected(b.seats[0], b.spans[0], day, month);
    hide ExpectedCharge, ExpectedCredit, FindLive, MonthOf, FirstDay;
  }

  lemma GivenBackExpected(seat: Seat, span: Span, day: Day, month: Month)
    requires seat == DailySeat(None) && span.start == 0 && span.end == Some(day) && span.openingMonth.None?
    requires month == 0 && day == 20
    ensures AmountOf(ExpectedCharge(seat, span, 0, month, month)) == -400_000
    ensures var credit := ExpectedCredit(seat, span, 0, month, month); credit.Some? && credit.value.day == day && credit.value.amount == 129_000
  {
    var price := 400_000;
    January(span.start);
    January(day);
    assert seat.ChargePrice() == price && seat.days == DAILY;
    hide MonthAmount, MonthOf, FirstDay;
    PartOfJanuary(price, month, span.start, day, 271);
    ExpectedByNumbers(seat, span, month, price, 271_000);
  }

  lemma ExpectedByNumbers(seat: Seat, span: Span, month: Month, whole: int, reached: int)
    requires span.end.Some? && span.openingMonth.None? && MonthOf(span.start) == MonthOf(span.end.value) == month
    requires Whole(seat, span, month) == whole > reached == Reached(seat, span, month) && whole > 0
    ensures AmountOf(ExpectedCharge(seat, span, 0, month, month)) == -whole
    ensures var credit := ExpectedCredit(seat, span, 0, month, month);
            credit.Some? && credit.value.day == span.end.value && credit.value.amount == whole - reached
  {
    hide Whole, Reached, MonthOf, FirstDay;
  }

  lemma NotCleanly(b: Book, day: Day, later: Day, why: EndReason, month: Month)
    requires b.spans == [Span(0, 0, Some(day), Some(why), None)] && b.seats == [DailySeat(None)]
    requires MonthOf(0) == MonthOf(day) == month && day != later && FindLive(b.entries, EndKey(0, month)).Some?
    ensures !EndsCleanly(b, 0, later, later)
  {
    hide FindLive, MonthOf, MonthAmount;
    assert b.spans[0].EndMonth() == Some(month);
  }

  /** Ending it again on a later day of the month touches neither. */
  lemma ClosedAgain(b: Book, day: Day, later: Day, why: EndReason, month: Month)
    requires Inv(b) && b.spans == [Span(0, 0, Some(day), Some(why), None)] && b.seats == [DailySeat(None)]
    requires MonthOf(0) == MonthOf(day) == MonthOf(later) == month && day != later
    requires FindLive(b.entries, ChargeKey(0, month)).Some? && FindLive(b.entries, EndKey(0, month)).Some?
    ensures SpansOnSeats(b)
    ensures var b' := EndSpan(b, 0, later, why, later);
            FindLive(b'.entries, ChargeKey(0, month)) == FindLive(b.entries, ChargeKey(0, month)) &&
            FindLive(b'.entries, EndKey(0, month)) == FindLive(b.entries, EndKey(0, month)) && !Inv(b') &&
            b'.spans == [Span(0, 0, Some(later), Some(why), None)] && b'.seats == b.seats
  {
    assert Sound(b) && SpansOnSeats(b);
    EndingAgain(b, later, why);
    NotCleanly(b, day, later, why, month);
    ChargeStands(b, later, why, month);
    hide *;
    CreditFoundOnceEnded(b, 0, later, why, later, month);
    EndSpanKeepsIff(b, 0, later, why, later);
  }

  lemma EndingAgain(b: Book, later: Day, why: EndReason)
    requires |b.spans| == 1 && SpansOnSeats(b) && b.spans[0].seat == 0 && b.spans[0].start == 0 && b.spans[0].openingMonth.None?
    ensures var b' := EndSpan(b, 0, later, why, later);
            b'.spans == [Span(0, 0, Some(later), Some(why), None)] && b'.seats == b.seats
  {
    hide SpanBilled, Voided;
  }

  lemma ChargeStands(b: Book, later: Day, why: EndReason, month: Month)
    requires Sound(b) && |b.spans| == 1 && MonthOf(later) == month && FindLive(b.entries, ChargeKey(0, month)).Some?
    ensures FindLive(EndSpan(b, 0, later, why, later).entries, ChargeKey(0, month)) == FindLive(b.entries, ChargeKey(0, month))
  {
    var closed := Closed(b, 0, later, why);
    ClosedFinds(b, 0, later, why, ChargeKey(0, month));
    SpanBilledFinds(closed.entries, b.seats[b.spans[0].seat], closed.spans[0], 0, later, ChargeKey(0, month));
    hide FindLive, MonthOf, MonthAmount, Sound, Voided;
  }

  /** Ended on the 21st and, five days later, again on the 26th.  The 129,000 given back for ten lessons stay given back,
      dated to the old end, so 271,000 are charged for 26 lessons, which cost 335,000. */
  lemma EndedTwiceKeepsItsCredit(day: Day, later: Day, why: EndReason, month: Month) returns (events: seq<Event>)
    requires day == 20 && later == 25 && month == 0
    ensures Lawful(EMPTY, events) && |Run(EMPTY, events).spans| == 1 && SpansOnSeats(Run(EMPTY, events))
    ensures var b' := EndSpan(Run(EMPTY, events), 0, later, why, later);
            var credit := FindLive(b'.entries, EndKey(0, month));
            b'.spans == [Span(0, 0, Some(later), Some(why), None)] && b'.seats == [DailySeat(None)] && !Inv(b') &&
            credit.Some? && credit.value.day == day && MonthNet(b'.entries, 0, month) == -271_000 &&
            LessonsCost(b'.seats[0], b'.spans[0]) == 335_000
  {
    var b;
    events, b := EndedOnce(day, why);
    January(0);
    January(day);
    January(later);
    hide Run, EndSpan, FindLive, Inv, LessonsCost, Lawful, SpanSettled, MonthOf, FirstDay;
    GivenBackOnce(b, day, why, month, 0);
    ClosedAgain(b, day, later, why, month);
    CostsToItsEnd(DailySeat(None), Span(0, 0, Some(later), Some(why), None), month, 0, later);
  }

  lemma CostsToItsEnd(seat: Seat, span: Span, month: Month, start: Day, end: Day)
    requires seat == DailySeat(None) && month == 0 && start == 0 && end == 25
    requires span.start == start && span.end == Some(end) && span.openingMonth.None?
    ensures LessonsCost(seat, span) == 335_000
  {
    January(start);
    January(end);
    PartOfJanuary(400_000, month, start, end, 335);
    hide MonthAmount, MonthOf, FirstDay;
    assert StretchCost(400_000, DAILY, start, end, month + 1, month) == 0;
  }

  // ---------- a leaving day still to come ----------

  /** A tick in a month after the span's last passes it over. */
  lemma TickPassesOver(b: Book, e: Event, s: nat)
    requires e.change.BillsOpen? && s < |b.spans| && b.spans[s].end.Some? && MonthOf(b.spans[s].end.value) < MonthOf(e.today)
    ensures !BilledIn(b, e, s)
  {
    hide FirstDay, MonthOf;
  }

  ghost predicate LaterTicks(ticks: seq<Event>, from: Day, month: Month) {
    (forall k :: 0 <= k < |ticks| ==> ticks[k].change.BillsOpen? && from <= ticks[k].today && month < MonthOf(ticks[k].today)) &&
    forall j, k :: 0 <= j < k < |ticks| ==> ticks[j].today <= ticks[k].today
  }

  lemma OneTickPassesOver(events: seq<Event>, e: Event, s: nat)
    requires Steady(events) && events != [] && s < |Run(EMPTY, events).spans| && Run(EMPTY, events).spans[s].end.Some?
    requires e.change.BillsOpen? && events[|events| - 1].today <= e.today
    requires MonthOf(Run(EMPTY, events).spans[s].end.value) < MonthOf(e.today)
    ensures Steady(events + [e]) && Run(EMPTY, events + [e]).spans == Run(EMPTY, events).spans
    ensures Run(EMPTY, events + [e]).seats == Run(EMPTY, events).seats && BilledRun(events + [e])[s] == BilledRun(events)[s]
  {
    var b := Run(EMPTY, events);
    assert Lawful(EMPTY, events) && Legal(b, e) && FixedPrice(b, e.change);
    hide *;
    KeptInRun(events);
    TickPassesOver(b, e, s);
    OneMoreSteady(events, e);
    OneMore(EMPTY, events, e);
    TickLeaves(b, BilledRun(events), e, s);
  }

  lemma TickLeaves(b: Book, billed: seq<int>, e: Event, s: nat)
    requires Inv(b) && e.change.BillsOpen? && s < |b.spans| == |billed| && !BilledIn(b, e, s)
    ensures Step(b, e).spans == b.spans && Step(b, e).seats == b.seats && BilledAfter(b, billed, e)[s] == billed[s]
  {
    assert SpansOnSeats(b);
    BillOpenKeepsSpans(b, 0, e.today, e.change.failing);
    hide Inv, BillOpenFrom, MonthOf, BilledIn;
  }

  /** Ended for a month still to come, a span that no tick reaches in that month is never billed for it by any later tick. */
  lemma {:induction false} PassedOverForGood(events: seq<Event>, ticks: seq<Event>, s: nat)
    requires Steady(events) && events != [] && s < |Run(EMPTY, events).spans|
    requires Run(EMPTY, events).spans[s].end.Some?
    requires LaterTicks(ticks, events[|events| - 1].today, MonthOf(Run(EMPTY, events).spans[s].end.value))
    ensures Steady(events + ticks) && Run(EMPTY, events + ticks).spans == Run(EMPTY, events).spans
    ensures Run(EMPTY, events + ticks).seats == Run(EMPTY, events).seats
    ensures BilledRun(events + ticks)[s] == BilledRun(events)[s]
    decreases |ticks|
  {
    hide *;
    if ticks == [] {
      assert events + ticks == events;
    } else {
      var init, e := ticks[..|ticks| - 1], ticks[|ticks| - 1];
      var before := events + init;
      LaterTicksBefore(ticks, events[|events| - 1].today, MonthOf(Run(EMPTY, events).spans[s].end.value));
      assert events + ticks == before + [e] && before != [];
      assert before[|before| - 1] == if init == [] then events[|events| - 1] else init[|init| - 1];
      PassedOverForGood(events, init, s);
      OneTickPassesOver(before, e, s);
    }
  }

  lemma LaterTicksBefore(ticks: seq<Event>, from: Day, month: Month)
    requires LaterTicks(ticks, from, month) && ticks != []
    ensures var init, e := ticks[..|ticks| - 1], ticks[|ticks| - 1];
            LaterTicks(init, from, month) && e.change.BillsOpen? && from <= e.today && month < MonthOf(e.today) &&
            (init != [] ==> init[|init| - 1].today <= e.today)
  {
    hide MonthOf;
  }

  /** The daily seat's span told on the 21st of January to end on the 10th of February. */
  lemma SaidToLeave(why: EndReason) returns (events: seq<Event>)
    ensures Steady(events) && events != [] && events[|events| - 1].today == 20
    ensures Run(EMPTY, events).spans == [Span(0, 0, Some(40), Some(why), None)] && Run(EMPTY, events).seats == [DailySeat(None)]
    ensures BilledRun(events)[0] == 0
  {
    var began, b0 := Began(None);
    var ended := Event(20, Ends(0, 40, why));
    LeavingStep(b0, ended, why);
    January(0);
    January(20);
    hide *;
    OneMoreSteady(began, ended);
    OneMore(EMPTY, began, ended);
    events := began + [ended];
    BilledAtTheLeaving(b0, BilledRun(began), ended);
  }

  lemma LeavingStep(b: Book, e: Event, why: EndReason)
    requires b.spans == [Span(0, 0, None, None, None)] && |b.seats| == 1 && e == Event(20, Ends(0, 40, why))
    ensures Legal(b, e) && FixedPrice(b, e.change)
    ensures Step(b, e).spans == [Span(0, 0, Some(40), Some(why), None)] && Step(b, e).seats == b.seats
  {
    hide SpanBilled, Voided, MonthOf;
  }

  lemma BilledAtTheLeaving(b: Book, billed: seq<int>, e: Event)
    requires |Step(b, e).spans| == 1 && e.change.Ends? && e.change.span == 0 && MonthOf(e.today) == 0
    ensures BilledAfter(b, billed, e)[0] == 0
  {
    hide Step, MonthOf;
  }

  /** Said in January to leave on the 10th of February, and no tick in February: January is all that is ever charged, and
      the ten lessons of February never are, however many ticks come after. */
  lemma LateLeavingIsLost(ticks: seq<Event>, why: EndReason) returns (events: seq<Event>)
    requires LaterTicks(ticks, 20, 1)
    ensures Steady(events + ticks) && SpanTotal(Run(EMPTY, events + ticks).entries, 0) == -400_000
    ensures var b := Run(EMPTY, events + ticks);
            b.spans == [Span(0, 0, Some(40), Some(why), None)] && b.seats == [DailySeat(None)] &&
            LessonsCost(b.seats[0], b.spans[0]) == 543_000
  {
    events := SaidToLeave(why);
    January(0);
    FirstMonths();
    MonthIs(40, 1);
    hide Run, MonthOf, BilledRun, FirstDay, LessonsCost, MonthAmount;
    PassedOverForGood(events, ticks, 0);
    EveryRunSettles(events + ticks);
    var b := Run(EMPTY, events + ticks);
    SettledOne(b, BilledRun(events + ticks));
    BilledShortOfItsEnd(b, 0, 0);
    JanuaryAndTenDays(b.seats[0], b.spans[0], 400_000, 0, 1);
  }

  lemma JanuaryAndTenDays(seat: Seat, span: Span, price: nat, month: Month, next: Month)
    requires seat.ChargePrice() == price == 400_000 && seat.days == DAILY && month == 0 && next == 1
    requires span.start == 0 && span.end.Some? && span.end.value == 40 && span.openingMonth.None?
    requires MonthOf(span.start) == month && MonthOf(span.end.value) == next
    ensures StretchCost(price, DAILY, span.start, span.end.value, month, month) == 400_000
    ensures LessonsCost(seat, span) == 543_000
  {
    WholeJanuary(price, month, span.start, span.end.value);
    TenDays(price, next, span.start, span.end.value);
    hide MonthAmount, MonthOf;
    assert StretchCost(price, DAILY, span.start, span.end.value, next + 1, next) == 0;
    assert StretchCost(price, DAILY, span.start, span.end.value, month + 1, month) == 0;
  }

  lemma WholeJanuary(price: nat, month: Month, start: Day, end: Day)
    requires month == 0 && start == 0 && end == 40
    ensures MonthAmount(price, DAILY, month, Some(start), Some(end)) == price
  {
    FirstMonths();
    DailyPart(month, start, start);
    hide MonthAmount, LessonsInMonth, Kept, FirstDay;
    WholeMonthIsThePrice(price, DAILY, month, Some(start), Some(end));
  }

  lemma TenDays(price: nat, month: Month, start: Day, end: Day)
    requires price == 400_000 && month == 1 && start == 0 && end == 40
    ensures MonthAmount(price, DAILY, month, Some(start), Some(end)) == 143_000
  {
    FirstMonths();
    assert 143 == RoundHalfEven(price * 10, 28000) by { NearestIsUnique(price * 10, 28000, 143); }
    hide MonthAmount, LessonsInMonth, Kept, FirstDay, RoundHalfEven;
    DailyPart(month, start, end);
    AmountByNumbers(price, DAILY, month, Some(start), Some(end), 10, 28);
  }
}
