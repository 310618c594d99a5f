/** Runs in which prices and weekdays change: at whose price each month's charge stands. */
module PriceRuns {
  import opened Wrappers
  import opened Calendar
  import opened Lessons
  import opened Entries
  import opened Books
  import opened Billing
  import opened BilledMonths
  import opened LedgerSafety
  import opened ClosedForm
  import opened SpanCost
  import opened PersonalPrices
  import opened Runs

  /** A new personal price of the span's seat reaches the span. */
  predicate Reprices(b: Book, e: Event, s: nat) {
    e.change.Prices? && s < |b.spans| && e.change.seat < |b.seats| && Rewritten(b, e.change.seat, s) &&
    NewPrice(b, e.change.seat, e.change.price, e.change.reason)
  }

  /** The event voids the span's charge of the month, if there is one. */
  ghost predicate WritesAgain(b: Book, e: Event, s: nat, m: Month) {
    match e.change
    case Ends(x, day, _) => s == x && m > MonthOf(day)
    case Moves(x, _, _, _) => s == x && Step(b, e).spans != b.spans
    case Prices(_, _, _) => Reprices(b, e, s) && m == MonthOf(e.today)
    case _ => false
  }

  /** The event bills the span as far as the month, which the opening does not carry and which costs something by then. */
  ghost predicate Reaches(b: Book, e: Event, s: nat, m: Month) {
    var b' := Step(b, e);
    s < |b'.spans| && b'.spans[s].seat < |b'.seats| && (BilledIn(b, e, s) || Reprices(b, e, s)) &&
    Owes(b'.seats[b'.spans[s].seat], b'.spans[s], m, e.today)
  }

  predicate Owes(seat: Seat, span: Span, m: Month, today: Day) {
    MonthOf(span.start) <= m <= LastMonth(span, today) && !span.InOpening(m) && Whole(seat, span, m) != 0
  }

  /** The seat as it stood when the charge of the month was last written. */
  ghost function TermsAfter(b: Book, e: Event, s: nat, m: Month, was: Option<Seat>): Option<Seat> {
    var kept := if WritesAgain(b, e, s, m) then None else was;
    if kept.None? && Reaches(b, e, s, m) then Some(Step(b, e).seats[Step(b, e).spans[s].seat]) else kept
  }

  /** That, after the first n events of a run. */
  ghost function Terms(events: seq<Event>, n: nat, s: nat, m: Month): Option<Seat>
    requires n <= |events|
  {
    if n == 0 then None
    else TermsAfter(Run(EMPTY, events[..n - 1]), events[n - 1], s, m, Terms(events, n - 1, s, m))
  }

  function ChargeAt(terms: Option<Seat>, span: Span, s: nat, m: Month): Option<Entry> {
    if terms.None? then None else Some(ChargeRow(terms.value, span, s, m, Whole(terms.value, span, m)))
  }

  // ---------- one event ----------

  lemma BilledCharge(rows: seq<Entry>, seat: Seat, span: Span, id: nat, today: Day, s: nat, m: Month)
    ensures FindLive(SpanBilled(rows, seat, span, id, today), ChargeKey(s, m)) ==
            var found := FindLive(rows, ChargeKey(s, m));
            if s == id && found.None? && Owes(seat, span, m, today) then ChargeAt(Some(seat), span, s, m) else found
  {
    SpanBilledFinds(rows, seat, span, id, today, ChargeKey(s, m));
    hide FindLive, Whole, MonthOf;
  }

  lemma {:induction false} TickCharge(b: Book, id: nat, today: Day, failing: set<nat>, s: nat, m: Month)
    requires SpansOnSeats(b) && s < |b.spans|
    ensures var found := FindLive(b.entries, ChargeKey(s, m));
            FindLive(BillOpenFrom(b, id, today, failing).entries, ChargeKey(s, m)) ==
            if id <= s && Running(b.spans[s], today) && s !in failing && found.None? && Owes(b.seats[b.spans[s].seat], b.spans[s], m, today)
            then ChargeAt(Some(b.seats[b.spans[s].seat]), b.spans[s], s, m) else found
    decreases |b.spans| - id
  {
    hide FindLive, SpanBilled, Owes, ChargeAt, Running;
    if id < |b.spans| {
      if Running(b.spans[id], today) && id !in failing {
        BilledCharge(b.entries, b.seats[b.spans[id].seat], b.spans[id], id, today, s, m);
        TickCharge(BillSpan(b, id, today), id + 1, today, failing, s, m);
      } else {
        TickCharge(b, id + 1, today, failing, s, m);
      }
    }
  }

  /** The charge found after an event, by what is found before. */
  ghost predicate ChargeFollows(b: Book, e: Event, s: nat, m: Month, was: Option<Seat>) {
    s < |Step(b, e).spans| && FindLive(Step(b, e).entries, ChargeKey(s, m)) == ChargeAt(TermsAfter(b, e, s, m, was), Step(b, e).spans[s], s, m)
  }

  /** An event that makes a span ready and bills it. */
  lemma ChargeOnceBilled(b: Book, e: Event, ready: Book, id: nat, s: nat, m: Month, was: Option<Seat>)
    requires s < |ready.spans| && id < |ready.spans| && ready.spans[s].seat < |ready.seats| && ready.spans[id].seat < |ready.seats|
    requires Step(b, e) == BillSpan(ready, id, e.today)
    requires BilledIn(b, e, s) <==> s == id
    requires !Reprices(b, e, s)
    requires FindLive(ready.entries, ChargeKey(s, m)) == ChargeAt(if WritesAgain(b, e, s, m) then None else was, ready.spans[s], s, m)
    ensures ChargeFollows(b, e, s, m, was)
  {
    BilledCharge(ready.entries, ready.seats[ready.spans[id].seat], ready.spans[id], id, e.today, s, m);
    hide FindLive, SpanBilled, Owes, Step, BilledIn, Reprices, WritesAgain, ChargeRow, Whole;
  }

  lemma StartCharge(b: Book, e: Event, s: nat, m: Month, was: Option<Seat>)
    requires Inv(b) && Legal(b, e) && e.change.Starts? && s <= |b.spans|
    requires FindLive(b.entries, ChargeKey(s, m)) == if s < |b.spans| then ChargeAt(was, b.spans[s], s, m) else None
    requires s == |b.spans| ==> was.None?
    ensures ChargeFollows(b, e, s, m, was)
  {
    var begun := b.(spans := b.spans + [Span(e.change.seat, e.change.day, None, None, e.change.opening)]);
    assert SpansOnSeats(b) && !WritesAgain(b, e, s, m) && !Reprices(b, e, s);
    assert BilledIn(b, e, s) <==> s == |b.spans|;
    assert Step(b, e) == BillSpan(begun, |b.spans|, e.today) by { hide SpanBilled; }
    hide *;
    ChargeOnceBilled(b, e, begun, |b.spans|, s, m, was);
  }

  lemma BillCharge(b: Book, e: Event, s: nat, m: Month, was: Option<Seat>)
    requires Inv(b) && Legal(b, e) && e.change.Bills? && s < |b.spans|
    requires FindLive(b.entries, ChargeKey(s, m)) == ChargeAt(was, b.spans[s], s, m)
    ensures ChargeFollows(b, e, s, m, was)
  {
    assert SpansOnSeats(b) && !WritesAgain(b, e, s, m) && !Reprices(b, e, s) && (BilledIn(b, e, s) <==> s == e.change.span);
    assert Step(b, e) == BillSpan(b, e.change.span, e.today) by { hide SpanBilled; }
    hide *;
    ChargeOnceBilled(b, e, b, e.change.span, s, m, was);
  }

  lemma EndIs(b: Book, e: Event)
    requires SpansOnSeats(b) && Legal(b, e) && e.change.Ends?
    ensures Step(b, e) == BillSpan(Closed(b, e.change.span, e.change.day, e.change.why), e.change.span, e.today)
  {
    hide SpanBilled, Voided, EndsCleanly;
  }

  lemma EndCharge(b: Book, e: Event, s: nat, m: Month, was: Option<Seat>)
    requires Inv(b) && Legal(b, e) && e.change.Ends? && s < |b.spans|
    requires FindLive(b.entries, ChargeKey(s, m)) == ChargeAt(was, b.spans[s], s, m)
    ensures ChargeFollows(b, e, s, m, was)
  {
    var id, day, why := e.change.span, e.change.day, e.change.why;
    var closed := Closed(b, id, day, why);
    assert SpansOnSeats(b) && Sound(b) && !Reprices(b, e, s) && (BilledIn(b, e, s) <==> s == id);
    assert WritesAgain(b, e, s, m) <==> s == id && m > MonthOf(day);
    assert |closed.spans| == |b.spans| && closed.seats == b.seats && closed.spans[s].start == b.spans[s].start && closed.spans[s].seat == b.spans[s].seat && closed.spans[id].seat == b.spans[id].seat;
    hide *;
    EndIs(b, e);
    ClosedFinds(b, id, day, why, ChargeKey(s, m));
    SameStartSameCharge(was, b.spans[s], closed.spans[s], s, m);
    NoCharge(closed.spans[s], s, m);
    ChargeOnceBilled(b, e, closed, id, s, m, was);
  }

  lemma NoCharge(span: Span, s: nat, m: Month)
    ensures ChargeAt(None, span, s, m) == None
  {
  }

  lemma SameStartSameCharge(terms: Option<Seat>, span: Span, span': Span, s: nat, m: Month)
    requires span.start == span'.start
    ensures ChargeAt(terms, span, s, m) == ChargeAt(terms, span', s, m)
  {
  }

  lemma MoveIs(b: Book, e: Event)
    requires SpansOnSeats(b) && Legal(b, e) && e.change.Moves?
    ensures var c := e.change;
            var from, to := if c.start.Some? then c.start.value else b.spans[c.span].start, Or(c.end, b.spans[c.span].end);
            Step(b, e) == b ||
            (Step(b, e).spans != b.spans && (!Blank(c.reason) || !HasLive(b.entries, c.span)) &&
             Step(b, e) == BillSpan(Moved(b, c.span, from, to, c.reason), c.span, e.today))
  {
    MovedIfDatesChange(b, e.change.span, e.change.start, e.change.end, e.change.reason, e.today);
    hide SpanBilled, Voided, HasLive, Blank;
  }

  lemma MoveCharge(b: Book, e: Event, s: nat, m: Month, was: Option<Seat>)
    requires Inv(b) && Legal(b, e) && e.change.Moves? && s < |b.spans|
    requires FindLive(b.entries, ChargeKey(s, m)) == ChargeAt(was, b.spans[s], s, m)
    ensures ChargeFollows(b, e, s, m, was)
  {
    var id, reason := e.change.span, e.change.reason;
    var from, to := if e.change.start.Some? then e.change.start.value else b.spans[id].start, Or(e.change.end, b.spans[id].end);
    var moved := Moved(b, id, from, to, reason);
    assert SpansOnSeats(b) && Sound(b) && !Reprices(b, e, s);
    assert WritesAgain(b, e, s, m) <==> s == id && Step(b, e).spans != b.spans;
    assert BilledIn(b, e, s) <==> s == id && Step(b, e).spans != b.spans;
    assert TakesKey(RowsOf(id), ChargeKey(s, m)) <==> s == id;
    assert |moved.spans| == |b.spans| && moved.seats == b.seats && moved.spans[id].seat == b.spans[id].seat;
    assert moved.entries == Voided(b.entries, RowsOf(id), reason);
    assert s != id ==> moved.spans[s] == b.spans[s];
    assert Step(b, e).spans == b.spans ==> !Reaches(b, e, s, m);
    MoveIs(b, e);
    hide *;
    FindSpanKeyVoided(b, RowsOf(id), reason, ChargeKey(s, m));
    NoCharge(moved.spans[s], s, m);
    if Step(b, e).spans != b.spans {
      ChargeOnceBilled(b, e, moved, id, s, m, was);
    } else {
      StillCharged(b, e, s, m, was);
    }
  }

  /** An event that leaves the span and its charge alone. */
  lemma StillCharged(b: Book, e: Event, s: nat, m: Month, was: Option<Seat>)
    requires s < |b.spans| && FindLive(b.entries, ChargeKey(s, m)) == ChargeAt(was, b.spans[s], s, m)
    requires s < |Step(b, e).spans| && Step(b, e).spans[s] == b.spans[s]
    requires FindLive(Step(b, e).entries, ChargeKey(s, m)) == FindLive(b.entries, ChargeKey(s, m))
    requires !WritesAgain(b, e, s, m) && !Reaches(b, e, s, m)
    ensures ChargeFollows(b, e, s, m, was)
  {
    hide Step, FindLive, ChargeAt, Reaches, WritesAgain;
  }

  lemma TickIs(b: Book, e: Event)
    requires SpansOnSeats(b) && e.change.BillsOpen?
    ensures Step(b, e) == BillOpenFrom(b, 0, e.today, e.change.failing) && Step(b, e).spans == b.spans && Step(b, e).seats == b.seats
  {
    BillOpenKeepsSpans(b, 0, e.today, e.change.failing);
    hide BillOpenFrom;
  }

  lemma OpenCharge(b: Book, e: Event, s: nat, m: Month, was: Option<Seat>)
    requires Inv(b) && e.change.BillsOpen? && s < |b.spans|
    requires FindLive(b.entries, ChargeKey(s, m)) == ChargeAt(was, b.spans[s], s, m)
    ensures ChargeFollows(b, e, s, m, was)
  {
    assert SpansOnSeats(b) && !WritesAgain(b, e, s, m) && !Reprices(b, e, s);
    TickIs(b, e);
    TickCharge(b, 0, e.today, e.change.failing, s, m);
    RunsInItsMonths(b.spans[s], e.today);
    hide FindLive, Step, Owes, BillOpenFrom, Running, WritesAgain, Inv, ChargeRow, Whole, SpansOnSeats;
  }

  lemma PriceIs(b: Book, e: Event)
    requires SpansOnSeats(b) && Legal(b, e) && e.change.Prices?
    ensures var c := e.change;
            if NewPrice(b, c.seat, c.price, c.reason) then
              SetPersonalPrice(b, c.seat, c.price, c.reason, e.today) == Done(Step(b, e)) && Step(b, e).spans == b.spans &&
              Step(b, e).seats == b.seats[c.seat := Repriced(b.seats[c.seat], c.price)]
            else Step(b, e) == b
  {
    var c := e.change;
    if NewPrice(b, c.seat, c.price, c.reason) {
      RepricedTables(b.(seats := b.seats[c.seat := Repriced(b.seats[c.seat], c.price)]), c.seat, 0, PriceText(c.reason), e.today);
    }
    hide RepricedFrom, Blank;
  }

  lemma RewrittenCharge(found: Option<Entry>, seat: Seat, span: Span, s: nat, today: Day, m: Month)
    requires span.end.None?
    ensures RewrittenRow(found, seat, span, s, today, ChargeKey(s, m)) ==
            var kept := if m == MonthOf(today) then None else found;
            if kept.None? && Owes(seat, span, m, today) then ChargeAt(Some(seat), span, s, m) else kept
  {
    hide Whole, MonthOf;
  }

  lemma PriceCharge(b: Book, e: Event, s: nat, m: Month, was: Option<Seat>)
    requires Inv(b) && Legal(b, e) && e.change.Prices? && s < |b.spans|
    requires FindLive(b.entries, ChargeKey(s, m)) == ChargeAt(was, b.spans[s], s, m)
    ensures ChargeFollows(b, e, s, m, was)
  {
    var c := e.change;
    assert SpansOnSeats(b) && !BilledIn(b, e, s);
    PriceIs(b, e);
    hide FindLive, Step, NewPrice, SetPersonalPrice, Repriced, Inv, Sound, SpansOnSeats, Whole, MonthOf, ChargeRow, RewrittenRow;
    if NewPrice(b, c.seat, c.price, c.reason) {
      PricedFinds(b, c.seat, c.price, c.reason, e.today, ChargeKey(s, m));
      if Rewritten(b, c.seat, s) {
        RewrittenCharge(FindLive(b.entries, ChargeKey(s, m)), Repriced(b.seats[c.seat], c.price), b.spans[s], s, e.today, m);
      }
    }
  }

  /** What changes no span and writes no row of one. */
  predicate Elsewhere(c: Change) {
    c.Enters? || c.TakesBack? || c.PostsOther? || c.VoidsOther? || c.SeesSeat? || c.NewSeat? || c.NewAccount?
  }

  lemma ElsewhereSpans(b: Book, e: Event)
    requires Elsewhere(e.change)
    ensures Step(b, e).spans == b.spans
  {
    hide FindLive, Voided, Posted, Blank, FirstOf;
  }

  lemma MoneyFinds(b: Book, e: Event, key: Key)
    requires Inv(b) && SpansOnSeats(b) && Legal(b, e) && (e.change.Enters? || e.change.TakesBack?) && IsSpanKey(key)
    ensures FindLive(Step(b, e).entries, key) == FindLive(b.entries, key)
  {
    hide FindLive, EnterMoney, VoidEntered, Inv, SpansOnSeats, IsSpanKey;
    if e.change.Enters? {
      EnterMoneyTouchesNoSpan(b, e.change.money, e.today, key);
    } else {
      VoidEnteredTouchesNoSpan(b, e.change.row, e.change.reason, key);
    }
  }

  lemma OtherRowFinds(b: Book, e: Event, key: Key)
    requires Sound(b) && SpansOnSeats(b) && Legal(b, e) && (e.change.PostsOther? || e.change.VoidsOther?) && IsSpanKey(key)
    ensures FindLive(Step(b, e).entries, key) == FindLive(b.entries, key)
  {
    OtherRowIs(b, e);
    assert e.change.PostsOther? ==> e.change.posted.Live() && !IsSpanKey(e.change.posted.key) by { hide RowOK; }
    assert e.change.VoidsOther? ==> !TakesKey(RowWith(e.change.key), key);
    hide FindLive, Voided, Posted, Sound, SpansOnSeats, Step, Legal;
    if e.change.PostsOther? {
      FindPosted(b.entries, e.change.posted, key);
    } else {
      FindSpanKeyVoided(b, RowWith(e.change.key), e.change.reason, key);
    }
  }

  lemma OtherRowIs(b: Book, e: Event)
    requires SpansOnSeats(b) && Legal(b, e) && (e.change.PostsOther? || e.change.VoidsOther?)
    ensures Step(b, e).entries ==
            if e.change.PostsOther? then Posted(b.entries, e.change.posted) else Voided(b.entries, RowWith(e.change.key), e.change.reason)
  {
    hide Voided, Posted, Blank, RowOK, SpansOnSeats;
  }

  lemma ElsewhereFinds(b: Book, e: Event, key: Key)
    requires Inv(b) && Legal(b, e) && Elsewhere(e.change) && IsSpanKey(key)
    ensures FindLive(Step(b, e).entries, key) == FindLive(b.entries, key)
  {
    assert Sound(b) && SpansOnSeats(b);
    hide FindLive, Voided, Posted, Blank, FirstOf, Inv, Sound, SpansOnSeats, EnterMoney, VoidEntered, RowOK;
    if e.change.Enters? || e.change.TakesBack? {
      MoneyFinds(b, e, key);
    } else if e.change.PostsOther? || e.change.VoidsOther? {
      OtherRowFinds(b, e, key);
    }
  }

  lemma ElsewhereCharge(b: Book, e: Event, s: nat, m: Month, was: Option<Seat>)
    requires Inv(b) && Legal(b, e) && Elsewhere(e.change) && s < |b.spans|
    requires FindLive(b.entries, ChargeKey(s, m)) == ChargeAt(was, b.spans[s], s, m)
    ensures ChargeFollows(b, e, s, m, was)
  {
    ElsewhereFinds(b, e, ChargeKey(s, m));
    ElsewhereSpans(b, e);
    assert !WritesAgain(b, e, s, m) && !Reaches(b, e, s, m) by { hide Step; }
    hide *;
    StillCharged(b, e, s, m, was);
  }

  lemma ChargeStep(b: Book, e: Event, s: nat, m: Month, was: Option<Seat>)
    requires Inv(b) && Legal(b, e) && s < |Step(b, e).spans|
    requires FindLive(b.entries, ChargeKey(s, m)) == if s < |b.spans| then ChargeAt(was, b.spans[s], s, m) else None
    requires s >= |b.spans| ==> was.None?
    ensures ChargeFollows(b, e, s, m, was)
  {
    OnlyStartsAddSpans(b, e);
    hide Step, Legal, Inv, FindLive, ChargeAt, ChargeFollows, BilledIn, SpansOnSeats;
    match e.change
    case Starts(_, _, _) => StartCharge(b, e, s, m, was);
    case Bills(_) => BillCharge(b, e, s, m, was);
    case Ends(_, _, _) => EndCharge(b, e, s, m, was);
    case Moves(_, _, _, _) => MoveCharge(b, e, s, m, was);
    case BillsOpen(_) => OpenCharge(b, e, s, m, was);
    case Prices(_, _, _) => PriceCharge(b, e, s, m, was);
    case _ => ElsewhereCharge(b, e, s, m, was);
  }

  // ---------- over every run ----------

  lemma NoChargeYet(b: Book, s: nat, m: Month)
    requires Sound(b) && s >= |b.spans|
    ensures FindLive(b.entries, ChargeKey(s, m)).None?
  {
    if FindLive(b.entries, ChargeKey(s, m)).Some? {
      SpanRowFound(b, ChargeKey(s, m));
    }
  }

  lemma RunKeepsUpTo(events: seq<Event>, n: nat)
    requires Lawful(EMPTY, events) && n <= |events|
    ensures Inv(Run(EMPTY, events[..n])) && UniqueLive(Run(EMPTY, events[..n]).entries)
  {
    var before := events[..n];
    forall k | 0 <= k < |before| ensures Legal(Run(EMPTY, before[..k]), before[k]) {
      assert before[..k] == events[..k];
    }
    hide Legal, Step, Run;
    EveryRunKeeps(EMPTY, before);
  }

  lemma RunUpTo(events: seq<Event>, n: nat)
    requires Lawful(EMPTY, events) && 0 < n <= |events|
    ensures Run(EMPTY, events[..n]) == Step(Run(EMPTY, events[..n - 1]), events[n - 1])
    ensures Inv(Run(EMPTY, events[..n - 1])) && Legal(Run(EMPTY, events[..n - 1]), events[n - 1])
  {
    assert events[..n][..n - 1] == events[..n - 1];
    RunKeepsUpTo(events, n - 1);
    hide Legal, Step, Inv;
  }

  lemma {:induction false} NoTermsYet(events: seq<Event>, n: nat, s: nat, m: Month)
    requires Lawful(EMPTY, events) && n <= |events| && s >= |Run(EMPTY, events[..n]).spans|
    ensures Terms(events, n, s, m).None?
  {
    if n > 0 {
      RunUpTo(events, n);
      OnlyStartsAddSpans(Run(EMPTY, events[..n - 1]), events[n - 1]);
      NoTermsYet(events, n - 1, s, m);
      hide Step, Legal, WritesAgain, Lawful, Run;
    }
  }

  /** Over every run, prices and weekdays changing as they may, and at each of its moments: a month's live charge is the
      month's cost, from the span's start, at the terms the seat had when that charge was last written, and there is none
      where there are none. */
  lemma {:induction false} EveryChargeAtItsTerms(events: seq<Event>, n: nat, s: nat, m: Month)
    requires Lawful(EMPTY, events) && n <= |events| && s < |Run(EMPTY, events[..n]).spans|
    ensures var b := Run(EMPTY, events[..n]);
            FindLive(b.entries, ChargeKey(s, m)) == ChargeAt(Terms(events, n, s, m), b.spans[s], s, m)
  {
    if n > 0 {
      RunUpTo(events, n);
      var b := Run(EMPTY, events[..n - 1]);
      assert Sound(b);
      hide Inv, Sound, Legal, FindLive, ChargeAt, TermsAfter, Step, Lawful, Run;
      if s < |b.spans| {
        EveryChargeAtItsTerms(events, n - 1, s, m);
      } else {
        NoChargeYet(b, s, m);
        NoTermsYet(events, n - 1, s, m);
      }
      ChargeStep(b, events[n - 1], s, m, Terms(events, n - 1, s, m));
    }
  }

  // ---------- when that was ----------

  ghost predicate ReachedAt(events: seq<Event>, k: nat, s: nat, m: Month)
    requires k < |events|
  {
    Reaches(Run(EMPTY, events[..k]), events[k], s, m)
  }

  ghost predicate WrittenAgainAt(events: seq<Event>, k: nat, s: nat, m: Month)
    requires k < |events|
  {
    WritesAgain(Run(EMPTY, events[..k]), events[k], s, m)
  }

  /** The k-th event billed the span as far as the month, and none of the first n after it had the month written again. */
  ghost predicate Stands(events: seq<Event>, n: nat, k: nat, s: nat, m: Month)
    requires n <= |events|
  {
    k < n && ReachedAt(events, k, s, m) && forall i :: k < i < n ==> !WrittenAgainAt(events, i, s, m)
  }

  /** The span's seat once the k-th event has happened. */
  ghost function SeatOnce(events: seq<Event>, k: nat, s: nat): Option<Seat>
    requires k < |events|
  {
    var b := Step(Run(EMPTY, events[..k]), events[k]);
    if s < |b.spans| && b.spans[s].seat < |b.seats| then Some(b.seats[b.spans[s].seat]) else None
  }

  lemma LastTerms(events: seq<Event>, n: nat, s: nat, m: Month)
    requires 0 < n <= |events|
    ensures (ReachedAt(events, n - 1, s, m) ==> SeatOnce(events, n - 1, s).Some?) &&
            Terms(events, n, s, m) ==
              var kept := if WrittenAgainAt(events, n - 1, s, m) then None else Terms(events, n - 1, s, m);
              if kept.None? && ReachedAt(events, n - 1, s, m) then SeatOnce(events, n - 1, s) else kept
  {
    hide WritesAgain, Step, Owes, BilledIn, Reprices, Run;
  }

  /** The terms of a month's charge are the seat's at the first billing that reached the month and after which it was not
      written again, and there is a charge exactly when there was such a billing. */
  lemma {:induction false} TermsAreTheFirstThatStand(events: seq<Event>, n: nat, s: nat, m: Month)
    requires n <= |events|
    ensures Terms(events, n, s, m).None? <==> forall k: nat :: !Stands(events, n, k, s, m)
    ensures forall k: nat :: Stands(events, n, k, s, m) && (forall j: nat :: j < k ==> !Stands(events, n, j, s, m)) ==>
              Terms(events, n, s, m) == SeatOnce(events, k, s)
  {
    if n > 0 {
      TermsAreTheFirstThatStand(events, n - 1, s, m);
      LastTerms(events, n, s, m);
      hide Terms, ReachedAt, WrittenAgainAt, SeatOnce;
      forall k: nat
        ensures Stands(events, n, k, s, m) <==>
          if k == n - 1 then ReachedAt(events, k, s, m) else Stands(events, n - 1, k, s, m) && !WrittenAgainAt(events, n - 1, s, m)
      {
      }
    }
  }

  // ---------- what a span has been charged ----------

  /** The months' costs from the span's start, each at its own terms. */
  ghost function CostAtTerms(events: seq<Event>, n: nat, span: Span, s: nat, first: Month, last: int): int
    requires n <= |events|
    decreases last - first
  {
    if first > last then 0
    else -AmountOf(ChargeAt(Terms(events, n, s, first), span, s, first)) + CostAtTerms(events, n, span, s, first + 1, last)
  }

  /** What was given back when the span ended. */
  function GivenBackOf(b: Book, s: nat): int
    requires s < |b.spans|
  {
    if b.spans[s].end.None? then 0 else AmountOf(FindLive(b.entries, EndKey(s, b.spans[s].EndMonth().value)))
  }

  ghost predicate NotAfter(events: seq<Event>, n: nat, last: Month)
    requires n <= |events|
  {
    forall k :: 0 <= k < n ==> MonthOf(events[k].today) <= last
  }

  lemma {:induction false} NoTermsAfter(events: seq<Event>, n: nat, s: nat, m: Month, last: Month)
    requires n <= |events| && NotAfter(events, n, last) && last < m
    ensures Terms(events, n, s, m).None?
  {
    if n > 0 {
      NoTermsAfter(events, n - 1, s, m, last);
      hide Step, WritesAgain, BilledIn, Reprices, Run, Whole, MonthOf;
    }
  }

  /** One month's rows: its charge at its terms, and the credit when it is the last month. */
  lemma MonthAtTerms(events: seq<Event>, n: nat, s: nat, m: Month)
    requires Lawful(EMPTY, events) && n <= |events| && s < |Run(EMPTY, events[..n]).spans|
    requires Inv(Run(EMPTY, events[..n]))
    ensures var b := Run(EMPTY, events[..n]);
            MonthNet(b.entries, s, m) == AmountOf(ChargeAt(Terms(events, n, s, m), b.spans[s], s, m)) +
              if b.spans[s].EndMonth() == Some(m) then GivenBackOf(b, s) else 0
  {
    var b := Run(EMPTY, events[..n]);
    assert CreditOK(b.entries, b.spans[s], s, m);
    hide Run, FindLive, ChargeAt, Terms, Lawful, MonthOf, Inv;
    EveryChargeAtItsTerms(events, n, s, m);
  }

  lemma {:induction false} MonthsAtTerms(events: seq<Event>, n: nat, s: nat, first: Month, last: int)
    requires Lawful(EMPTY, events) && n <= |events| && s < |Run(EMPTY, events[..n]).spans|
    requires Inv(Run(EMPTY, events[..n]))
    ensures var b := Run(EMPTY, events[..n]); var end := b.spans[s].EndMonth();
            MonthsNet(b.entries, s, first, last) == -CostAtTerms(events, n, b.spans[s], s, first, last) +
              if end.Some? && first <= end.value <= last then GivenBackOf(b, s) else 0
    decreases last - first
  {
    hide Run, FindLive, ChargeAt, Terms, Lawful, MonthOf, Inv, MonthNet, GivenBackOf;
    if first <= last {
      MonthsAtTerms(events, n, s, first + 1, last);
      MonthAtTerms(events, n, s, first);
    }
  }

  lemma RowsWithin(events: seq<Event>, n: nat, s: nat, last: Month, i: nat)
    requires Lawful(EMPTY, events) && n <= |events| && NotAfter(events, n, last)
    requires var b := Run(EMPTY, events[..n]);
             Inv(b) && s < |b.spans| && i < |b.entries| && (b.spans[s].end.Some? ==> b.spans[s].EndMonth().value <= last)
    ensures var b := Run(EMPTY, events[..n]); KeyedWithin(b.entries[i], s, MonthOf(b.spans[s].start), last)
  {
    var b := Run(EMPTY, events[..n]);
    var row := b.entries[i];
    assert RowOK(b, row);
    if row.Live() && KeyOf(row.key, s) {
      FindUnique(b.entries, i);
      assert ChargeOK(b.entries, b.spans[s], s, row.key.month) && CreditOK(b.entries, b.spans[s], s, row.key.month);
      EveryChargeAtItsTerms(events, n, s, row.key.month);
      if row.key.month > last {
        NoTermsAfter(events, n, s, row.key.month, last);
      }
    }
    hide Run, FindLive, Terms, Lawful, MonthOf, Inv, Whole;
  }

  /** Over every run, at any moment and whatever prices were set on the way: a span has been charged each month at its own
      terms, less what was given back at its end.  last is any month that nothing has happened after. */
  lemma EverySpanOwesAtItsTerms(events: seq<Event>, n: nat, s: nat, last: Month)
    requires Lawful(EMPTY, events) && n <= |events| && NotAfter(events, n, last)
    requires var b := Run(EMPTY, events[..n]);
             s < |b.spans| && (b.spans[s].end.Some? ==> b.spans[s].EndMonth().value <= last)
    ensures var b := Run(EMPTY, events[..n]);
            SpanTotal(b.entries, s) ==
            -CostAtTerms(events, n, b.spans[s], s, MonthOf(b.spans[s].start), last) + GivenBackOf(b, s)
  {
    var b := Run(EMPTY, events[..n]);
    var first := MonthOf(b.spans[s].start);
    RunKeepsUpTo(events, n);
    forall i | 0 <= i < |b.entries| ensures KeyedWithin(b.entries[i], s, first, last) {
      RowsWithin(events, n, s, last, i);
    }
    TotalByMonth(b.entries, s, first, last);
    MonthsAtTerms(events, n, s, first, last);
    hide Run, Terms, Lawful, MonthOf, Inv, CostAtTerms, MonthsNet, FindLive;
  }

  // ---------- what comes back at the end ----------

  /** Every lesson of the month lies at or after the span's start. */
  predicate FromItsFirstLesson(days: seq<int>, span: Span, m: Month) {
    |Kept(LessonsInMonth(m, days), Some(span.start), None)| == |LessonsInMonth(m, days)|
  }

  lemma FoundByBilling(rows: seq<Entry>, seat: Seat, span: Span, id: nat, m: Month, w: Seat)
    requires FindLive(rows, ChargeKey(id, m)) == ChargeAt(Some(w), span, id, m) && FindLive(rows, EndKey(id, m)).None?
    requires span.EndMonth() == Some(m) && !span.InOpening(m)
    ensures AmountOf(CreditAfter(rows, seat, span, id, m)) ==
            var price := if Whole(seat, span, m) == seat.ChargePrice() then Whole(w, span, m) else seat.ChargePrice();
            Max(0, Whole(w, span, m) - MonthAmount(price, seat.days, m, Some(span.start), span.end))
  {
    hide FindLive, MonthAmount, MonthOf, FirstDay;
  }

  lemma ClosedHas(b: Book, id: nat, day: Day, why: EndReason, w: Seat)
    requires Inv(b) && id < |b.spans| && b.spans[id].end.None? && MonthOf(b.spans[id].start) <= MonthOf(day)
    requires FindLive(b.entries, ChargeKey(id, MonthOf(day))) == ChargeAt(Some(w), b.spans[id], id, MonthOf(day))
    ensures var closed, m := Closed(b, id, day, why), MonthOf(day);
            FindLive(closed.entries, ChargeKey(id, m)) == ChargeAt(Some(w), closed.spans[id], id, m) &&
            FindLive(closed.entries, EndKey(id, m)).None? && closed.spans[id].EndMonth() == Some(m)
  {
    var closed, m := Closed(b, id, day, why), MonthOf(day);
    assert CreditOK(b.entries, b.spans[id], id, m) && Sound(b);
    hide FindLive, ChargeAt, MonthOf, Inv, Voided, Sound;
    ClosedFinds(b, id, day, why, ChargeKey(id, m));
    ClosedFinds(b, id, day, why, EndKey(id, m));
    SameStartSameCharge(Some(w), b.spans[id], closed.spans[id], id, m);
  }

  lemma CreditAtItsEnd(rows: seq<Entry>, seat: Seat, span: Span, id: nat, today: Day, m: Month)
    requires span.EndMonth() == Some(m) && m <= MonthOf(today)
    ensures FindLive(SpanBilled(rows, seat, span, id, today), EndKey(id, m)) == CreditAfter(rows, seat, span, id, m)
  {
    SpanBilledFinds(rows, seat, span, id, today, EndKey(id, m));
    hide FindLive, SpanBilled, CreditAfter, MonthOf;
  }

  lemma ClosedCredit(b: Book, id: nat, day: Day, why: EndReason, today: Day, w: Seat)
    requires Inv(b) && id < |b.spans| && b.spans[id].end.None? && !b.spans[id].InOpening(MonthOf(day))
    requires MonthOf(b.spans[id].start) <= MonthOf(day) <= MonthOf(today)
    requires FindLive(b.entries, ChargeKey(id, MonthOf(day))) == ChargeAt(Some(w), b.spans[id], id, MonthOf(day))
    ensures var span, m, seat := Closed(b, id, day, why).spans[id], MonthOf(day), b.seats[b.spans[id].seat];
            AmountOf(FindLive(EndSpan(b, id, day, why, today).entries, EndKey(id, m))) ==
            var price := if Whole(seat, span, m) == seat.ChargePrice() then Whole(w, span, m) else seat.ChargePrice();
            Max(0, Whole(w, span, m) - MonthAmount(price, seat.days, m, Some(span.start), span.end))
  {
    var closed, m, seat := Closed(b, id, day, why), MonthOf(day), b.seats[b.spans[id].seat];
    assert !closed.spans[id].InOpening(m) && closed.seats == b.seats && closed.spans[id].seat == b.spans[id].seat;
    assert EndSpan(b, id, day, why, today) == BillSpan(closed, id, today) by { hide SpanBilled, Voided; }
    assert BillSpan(closed, id, today).entries == SpanBilled(closed.entries, seat, closed.spans[id], id, today);
    hide *;
    ClosedHas(b, id, day, why, w);
    CreditAtItsEnd(closed.entries, seat, closed.spans[id], id, today, m);
    FoundByBilling(closed.entries, seat, closed.spans[id], id, m, w);
  }

  /** A month charged whole is given back at the price it was charged at, whatever the price has become since. */
  lemma PriceSinceDoesNotMove(b: Book, id: nat, day: Day, why: EndReason, today: Day, w: Seat)
    requires Inv(b) && id < |b.spans| && b.spans[id].end.None? && !b.spans[id].InOpening(MonthOf(day))
    requires MonthOf(b.spans[id].start) <= MonthOf(day) <= MonthOf(today)
    requires FindLive(b.entries, ChargeKey(id, MonthOf(day))) == ChargeAt(Some(w), b.spans[id], id, MonthOf(day))
    requires w.days == b.seats[b.spans[id].seat].days && FromItsFirstLesson(w.days, b.spans[id], MonthOf(day))
    ensures AmountOf(FindLive(EndSpan(b, id, day, why, today).entries, EndKey(id, MonthOf(day)))) ==
            Max(0, Whole(w, b.spans[id], MonthOf(day)) - Reached(w, Closed(b, id, day, why).spans[id], MonthOf(day)))
  {
    var span, m, seat := Closed(b, id, day, why).spans[id], MonthOf(day), b.seats[b.spans[id].seat];
    ClosedCredit(b, id, day, why, today, w);
    WholeOrNothing(w, span, m);
    WholeOrNothing(seat, span, m);
    hide FindLive, MonthAmount, MonthOf, Inv, EndSpan;
  }

  lemma WholeOrNothing(seat: Seat, span: Span, m: Month)
    requires FromItsFirstLesson(seat.days, span, m)
    ensures if LessonsInMonth(m, seat.days) == [] then
              Whole(seat, span, m) == 0 && forall price: int, end: Option<Day> :: MonthAmount(price, seat.days, m, Some(span.start), end) == 0
            else Whole(seat, span, m) == seat.ChargePrice()
  {
  }

  /** A month charged in part is taken for a whole one once the seat is free: what comes back is then the charge less that
      part of the charge itself. */
  lemma FreeSinceIsTakenForWhole(b: Book, id: nat, day: Day, why: EndReason, today: Day, w: Seat)
    requires Inv(b) && id < |b.spans| && b.spans[id].end.None? && !b.spans[id].InOpening(MonthOf(day))
    requires MonthOf(b.spans[id].start) <= MonthOf(day) <= MonthOf(today)
    requires FindLive(b.entries, ChargeKey(id, MonthOf(day))) == ChargeAt(Some(w), b.spans[id], id, MonthOf(day))
    requires b.seats[b.spans[id].seat].ChargePrice() == 0
    ensures var charged := Whole(w, b.spans[id], MonthOf(day));
            AmountOf(FindLive(EndSpan(b, id, day, why, today).entries, EndKey(id, MonthOf(day)))) ==
            Max(0, charged - MonthAmount(charged, b.seats[b.spans[id].seat].days, MonthOf(day), Some(b.spans[id].start), Some(day)))
  {
    var seat := b.seats[b.spans[id].seat];
    ClosedCredit(b, id, day, why, today, w);
    NothingAtNoPrice(seat.days, MonthOf(day), Some(b.spans[id].start), None);
    hide FindLive, MonthAmount, MonthOf, Inv, EndSpan;
  }
}
