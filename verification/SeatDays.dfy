/** When no day of a seat is paid for twice, look by look and over every course. */
module SeatDays {
  import opened Wrappers
  import opened Calendar
  import opened Entries
  import opened Books
  import opened LedgerSafety
  import opened Runs
  import opened Shadow
  import opened ShadowSafety
  import opened HeardSpans
  import opened Mirror
  import opened OpeningDay
  import opened ShadowRuns
  import opened ShadowPaid
  import opened LeavingDates

  /** The span is paid for on the day: both its ends are. */
  predicate Holds(span: Span, day: Day) {
    span.start <= day && (span.end.None? || day <= span.end.value)
  }

  predicate Meets(a: Span, b: Span) {
    var from := Max(a.start, b.start);
    (a.end.None? || from <= a.end.value) && (b.end.None? || from <= b.end.value)
  }

  lemma MeetsIff(a: Span, b: Span)
    ensures Meets(a, b) <==> exists day: Day :: Holds(a, day) && Holds(b, day)
  {
    if Meets(a, b) {
      var from: Day := Max(a.start, b.start);
      assert Holds(a, from) && Holds(b, from);
    }
  }

  /** No day lies in two spans of the seat. */
  ghost predicate NoDayTwice(spans: seq<Span>, i: nat) {
    forall s, t :: 0 <= s < t < |spans| && spans[s].seat == i && spans[t].seat == i ==> !Meets(spans[s], spans[t])
  }

  // ---------- one membership ----------

  /** The span a corrected leaving day moves. */
  ghost predicate IsLastLeft(spans: seq<Span>, i: nat, f: nat) {
    f < |spans| && spans[f].seat == i && spans[f].endedBy == Some(Leave) &&
    forall u :: f < u < |spans| && spans[u].seat == i ==> spans[u].endedBy != Some(Leave)
  }

  function ReturnDay(seat: Seat, m: Membership, today: Day): Day {
    if m.startDate != seat.startSeen && m.startDate.Some? then m.startDate.value else today
  }

  /** What is seen leaves the seat's stretches apart: a return comes after every stretch paid for, and a corrected leaving day
      stretches its span over no other. */
  ghost predicate Fits(spans: seq<Span>, seat: Seat, i: nat, m: Membership, state: SeatState, today: Day) {
    if seat.state != Active && state == Active then
      forall s :: 0 <= s < |spans| && spans[s].seat == i ==>
        !Meets(spans[s], Span(i, ReturnDay(seat, m, today), None, None, None))
    else if seat.state == Left && state == Left && m.HasLeft() && seat.leftSeen != Some(LeftOn(m)) then
      forall f: nat, t: nat :: IsLastLeft(spans, i, f) && t < |spans| && t != f && spans[t].seat == i ==>
        !Meets(spans[f].(end := Some(LeftOn(m))), spans[t])
    else
      true
  }

  lemma LastLeftIff(spans: seq<Span>, i: nat, f: nat)
    ensures IsLastLeft(spans, i, f) <==> LastLeft(spans, i) == Some(f)
  {
    LastLeftIs(spans, i);
    if IsLastLeft(spans, i, f) {
      LastLeftAt(spans, i, f);
    }
    hide LastLeft;
  }

  lemma {:induction false} CountAtLeast(spans: seq<Span>, i: nat, s: nat)
    requires s < |spans| && spans[s].seat == i
    ensures SpanCount(spans, i) >= 1
  {
    if s < |spans| - 1 { CountAtLeast(spans[..|spans| - 1], i, s); }
  }

  lemma {:induction false} OnlyOne(spans: seq<Span>, i: nat, s: nat, t: nat)
    requires SpanCount(spans, i) == 1 && s < t < |spans| && spans[s].seat == i
    ensures spans[t].seat != i
  {
    if t == |spans| - 1 {
      CountAtLeast(spans[..|spans| - 1], i, s);
    } else {
      if spans[|spans| - 1].seat == i { CountAtLeast(spans[..|spans| - 1], i, s); }
      OnlyOne(spans[..|spans| - 1], i, s, t);
    }
  }

  /** Following one membership keeps the seat's stretches apart exactly when what is seen fits. */
  lemma FollowingKeepsApartIff(b: Book, i: nat, m: Membership, state: SeatState, today: Day)
    requires SeatInv(b) && i < |b.seats| && NoDayTwice(b.spans, i) && m.price >= 0 && (state == Left ==> m.HasLeft())
    ensures SeatFollowed(b, i, m, state, today).Some?
    ensures NoDayTwice(SeatFollowed(b, i, m, state, today).value.spans, i) <==> Fits(b.spans, b.seats[i], i, m, state, today)
  {
    var told := ToldOf(b, i, m, state, today);
    FollowedSpans(b, i, m, state, today);
    ToldFits(b, i, m, state, today);
    ToldIsItsOwn(b, i, m, state, today);
    hide SeatFollowed, SeatInv, Meets;
    match told
    case Nothing => NothingFits(b, i, m, state, today);
    case Ended(s, day, why) => EndingKeepsApart(b.spans, i, s, day, why);
    case Started(day) => ReturnKeepsApartIff(b.spans, i, day);
    case StartMoved(s, day) => AloneStaysApart(b.spans, i, s, day);
    case EndMoved(s, day) =>
      LastLeftIff(b.spans, i, s);
      MovedEndKeepsApartIff(b.spans, i, s, day);
  }

  lemma NothingFits(b: Book, i: nat, m: Membership, state: SeatState, today: Day)
    requires i < |b.seats| && (state == Left ==> m.HasLeft()) && ToldOf(b, i, m, state, today).Nothing?
    ensures Fits(b.spans, b.seats[i], i, m, state, today)
  {
    forall f: nat ensures IsLastLeft(b.spans, i, f) <==> LastLeft(b.spans, i) == Some(f) {
      LastLeftIff(b.spans, i, f);
    }
    hide IsLastLeft, LastLeft, RunningSpan, SpanCount, Meets;
  }

  lemma EndingKeepsApart(spans: seq<Span>, i: nat, s: nat, day: Day, why: EndReason)
    requires NoDayTwice(spans, i) && s < |spans| && spans[s].end.None?
    ensures NoDayTwice(spans[s := EndedAt(spans[s], day, why)], i)
  {
  }

  lemma ReturnKeepsApartIff(spans: seq<Span>, i: nat, day: Day)
    requires NoDayTwice(spans, i)
    ensures NoDayTwice(spans + [Span(i, day, None, None, None)], i) <==>
      forall s :: 0 <= s < |spans| && spans[s].seat == i ==> !Meets(spans[s], Span(i, day, None, None, None))
  {
    var after := spans + [Span(i, day, None, None, None)];
    hide Meets;
    if NoDayTwice(after, i) {
      forall s | 0 <= s < |spans| && spans[s].seat == i ensures !Meets(spans[s], Span(i, day, None, None, None)) {
        assert after[s] == spans[s] && after[|spans|] == Span(i, day, None, None, None);
      }
    }
  }

  lemma AloneStaysApart(spans: seq<Span>, i: nat, s: nat, day: Day)
    requires SpanCount(spans, i) == 1 && s < |spans| && spans[s].seat == i
    ensures NoDayTwice(spans[s := spans[s].(start := day)], i)
  {
    var after := spans[s := spans[s].(start := day)];
    hide Meets;
    forall x, y | 0 <= x < y < |after| && after[x].seat == i ensures after[y].seat != i {
      OnlyOne(spans, i, x, y);
    }
  }

  lemma MeetsEitherWay(a: Span, b: Span)
    ensures Meets(a, b) <==> Meets(b, a)
  {
  }

  lemma MovedEndKeepsApartIff(spans: seq<Span>, i: nat, f: nat, day: Day)
    requires NoDayTwice(spans, i) && f < |spans| && spans[f].seat == i
    ensures NoDayTwice(spans[f := spans[f].(end := Some(day))], i) <==>
      forall t: nat :: t < |spans| && t != f && spans[t].seat == i ==> !Meets(spans[f].(end := Some(day)), spans[t])
  {
    var moved := spans[f].(end := Some(day));
    var after := spans[f := moved];
    forall t | 0 <= t < |spans| ensures Meets(moved, spans[t]) <==> Meets(spans[t], moved) {
      MeetsEitherWay(moved, spans[t]);
    }
    hide Meets;
    if NoDayTwice(after, i) {
      forall t: nat | t < |spans| && t != f && spans[t].seat == i ensures !Meets(moved, spans[t]) {
        assert after[t] == spans[t] && after[f] == moved;
      }
    }
  }

  // ---------- one look ----------

  /** Nothing of the seat has changed. */
  ghost predicate SameSeat(b: Book, b': Book, i: nat) {
    |b.spans| <= |b'.spans| && (i < |b.seats| ==> i < |b'.seats| && b'.seats[i] == b.seats[i]) &&
    (forall s :: 0 <= s < |b.spans| ==> b'.spans[s].seat == b.spans[s].seat && (b.spans[s].seat == i ==> b'.spans[s] == b.spans[s])) &&
    forall s :: |b.spans| <= s < |b'.spans| ==> b'.spans[s].seat != i
  }

  lemma SameSeatTwice(a: Book, b: Book, c: Book, i: nat)
    requires SameSeat(a, b, i) && SameSeat(b, c, i)
    ensures SameSeat(a, c, i)
  {
  }

  lemma SameSeatSameDays(b: Book, b': Book, i: nat)
    requires SameSeat(b, b', i)
    ensures NoDayTwice(b'.spans, i) <==> NoDayTwice(b.spans, i)
  {
    hide Meets;
    if NoDayTwice(b'.spans, i) {
      forall s, t | 0 <= s < t < |b.spans| && b.spans[s].seat == i && b.spans[t].seat == i ensures !Meets(b.spans[s], b.spans[t]) {
        assert b'.spans[s] == b.spans[s] && b'.spans[t] == b.spans[t];
      }
    }
  }

  lemma SameSeatSameLast(b: Book, b': Book, i: nat, f: nat)
    requires SameSeat(b, b', i)
    ensures IsLastLeft(b'.spans, i, f) <==> IsLastLeft(b.spans, i, f)
  {
    if IsLastLeft(b'.spans, i, f) {
      forall u | f < u < |b.spans| && b.spans[u].seat == i ensures b.spans[u].endedBy != Some(Leave) {
        assert b'.spans[u] == b.spans[u];
      }
    }
  }

  lemma SameSeatFits(b: Book, b': Book, i: nat, m: Membership, state: SeatState, today: Day)
    requires SameSeat(b, b', i) && i < |b.seats|
    ensures Fits(b'.spans, b'.seats[i], i, m, state, today) <==> Fits(b.spans, b.seats[i], i, m, state, today)
  {
    forall f: nat ensures IsLastLeft(b'.spans, i, f) <==> IsLastLeft(b.spans, i, f) {
      SameSeatSameLast(b, b', i, f);
    }
    hide Meets, IsLastLeft;
    assert forall s: nat :: s < |b'.spans| && b'.spans[s].seat == i ==> s < |b.spans| && b'.spans[s] == b.spans[s];
    assert forall s: nat :: s < |b.spans| && b.spans[s].seat == i ==> b'.spans[s] == b.spans[s];
    assert forall f: nat :: IsLastLeft(b.spans, i, f) ==> f < |b.spans| && b.spans[f].seat == i by { LastLeftInRange(b.spans, i); }
  }

  lemma LastLeftInRange(spans: seq<Span>, i: nat)
    ensures forall f: nat :: IsLastLeft(spans, i, f) ==> f < |spans| && spans[f].seat == i
  {
  }

  /** Another seat's item leaves the seat as it was; so does a new seat, which has one span at most. */
  lemma AppliedElsewhere(b: Book, plan: seq<Item>, today: Day, i: nat)
    requires SeatInv(b) && PlanFits(b, plan) && plan != [] && plan[0].seat != Some(i)
    ensures var next := Applied(b, plan[0], today);
            next.Some? ==> (i < |b.seats| ==> SameSeat(b, next.value, i)) &&
                           (i >= |b.seats| && NoDayTwice(b.spans, i) ==> NoDayTwice(next.value.spans, i))
  {
    assert ItemOK(b, plan[0]) && SpansOnSeats(b);
    var item := plan[0];
    hide SeatInv, PlanFits, Meets, NoDayTwice;
    if item.seat.None? {
      AddedElsewhere(b, item.m, item.state, today, i);
    } else if item.m.price >= 0 {
      FollowedElsewhere(b, item.seat.value, item.m, item.state, today, i);
    }
  }

  lemma AddedElsewhere(b: Book, m: Membership, state: SeatState, today: Day, i: nat)
    requires SpansOnSeats(b)
    ensures var next := SeatAdded(b, m, state, today);
            next.Some? ==> (i < |b.seats| ==> SameSeat(b, next.value, i)) &&
                           (i >= |b.seats| ==> NoDayTwice(next.value.spans, i))
  {
    hide SpanBilled, AccountAmong, Meets;
  }

  lemma FollowedElsewhere(b: Book, j: nat, m: Membership, state: SeatState, today: Day, i: nat)
    requires SeatInv(b) && j < |b.seats| && j != i && m.price >= 0 && (state == Left ==> m.HasLeft())
    ensures SeatFollowed(b, j, m, state, today).Some?
    ensures var next := SeatFollowed(b, j, m, state, today).value;
            SameSeat(b, next, i) && (i >= |b.seats| ==> NoDayTwice(next.spans, i))
  {
    FollowedSpans(b, j, m, state, today);
    ToldIsItsOwn(b, j, m, state, today);
    assert SpansOnSeats(b);
    hide *;
    HeardElsewhere(b, SeatFollowed(b, j, m, state, today).value, j, ToldOf(b, j, m, state, today), i);
  }

  lemma HeardElsewhere(b: Book, next: Book, j: nat, told: Told, i: nat)
    requires SpansOnSeats(b) && i != j && j < |b.seats| && |next.seats| == |b.seats|
    requires forall k :: 0 <= k < |b.seats| && k != j ==> next.seats[k] == b.seats[k]
    requires told.Ended? || told.StartMoved? || told.EndMoved? ==> told.span < |b.spans| && b.spans[told.span].seat == j
    requires next.spans == SpansHeard(b.spans, j, told)
    ensures SameSeat(b, next, i) && (i >= |b.seats| ==> NoDayTwice(next.spans, i))
  {
    hide Meets;
  }

  /** The item is about the seat, and is carried out. */
  ghost predicate About(item: Item, i: nat, failing: set<(nat, nat)>) {
    item.seat == Some(i) && item.m.price >= 0 && (item.m.student, item.m.group) !in failing
  }

  ghost predicate ItemFits(b: Book, item: Item, i: nat, today: Day)
    requires i < |b.seats|
  {
    Fits(b.spans, b.seats[i], i, item.m, item.state, today)
  }

  ghost predicate AllFit(b: Book, plan: seq<Item>, i: nat, today: Day, failing: set<(nat, nat)>) {
    i < |b.seats| ==> forall k :: 0 <= k < |plan| && About(plan[k], i, failing) ==> ItemFits(b, plan[k], i, today)
  }

  lemma AllFitRest(b: Book, plan: seq<Item>, i: nat, today: Day, failing: set<(nat, nat)>)
    requires plan != []
    ensures AllFit(b, plan, i, today, failing) <==>
      AllFit(b, plan[1..], i, today, failing) && (i < |b.seats| && About(plan[0], i, failing) ==> ItemFits(b, plan[0], i, today))
  {
    var rest := plan[1..];
    hide ItemFits, About;
    assert plan == [plan[0]] + rest;
    if AllFit(b, plan, i, today, failing) {
      forall k | 0 <= k < |rest| && i < |b.seats| && About(rest[k], i, failing) ensures ItemFits(b, rest[k], i, today) {
        assert rest[k] == plan[k + 1];
      }
    }
  }

  lemma SameSeatAllFit(b: Book, b': Book, plan: seq<Item>, i: nat, today: Day, failing: set<(nat, nat)>)
    requires SameSeat(b, b', i) && i < |b.seats|
    ensures AllFit(b', plan, i, today, failing) <==> AllFit(b, plan, i, today, failing)
  {
    forall k | 0 <= k < |plan| ensures ItemFits(b', plan[k], i, today) <==> ItemFits(b, plan[k], i, today) {
      SameSeatFits(b, b', i, plan[k].m, plan[k].state, today);
    }
    hide ItemFits, About, SameSeat;
  }

  lemma NoOtherAbout(b: Book, plan: seq<Item>, i: nat, today: Day, failing: set<(nat, nat)>)
    requires PlanFits(b, plan) && plan != [] && plan[0].seat == Some(i)
    ensures forall k :: 0 <= k < |plan[1..]| ==> plan[1..][k].seat != Some(i)
  {
    forall k | 0 <= k < |plan[1..]| ensures plan[1..][k].seat != Some(i) {
      SeatsDiffer(b, plan, k + 1);
      assert plan[1..][k] == plan[k + 1];
    }
  }

  lemma {:induction false} OthersLeaveIt(b: Book, plan: seq<Item>, today: Day, failing: set<(nat, nat)>, i: nat)
    returns (after: Book)
    requires SeatInv(b) && PlanFits(b, plan) && i < |b.seats|
    requires forall k :: 0 <= k < |plan| ==> plan[k].seat != Some(i)
    ensures after == CarriedOut(b, plan, today, failing).0 && SameSeat(b, after, i)
    decreases |plan|
  {
    after := b;
    if plan != [] {
      var next, rest := Applied(b, plan[0], today), plan[1..];
      AppliedFits(b, plan, today);
      assert ItemOK(b, plan[0]);
      AppliedKeeps(b, plan[0], today);
      AppliedElsewhere(b, plan, today, i);
      assert forall k :: 0 <= k < |rest| ==> rest[k] == plan[k + 1];
      hide Applied, SeatInv, PlanFits, SameSeat, NoDayTwice;
      if next.None? || (plan[0].m.student, plan[0].m.group) in failing {
        after := OthersLeaveIt(b, rest, today, failing, i);
      } else {
        after := OthersLeaveIt(next.value, rest, today, failing, i);
        SameSeatTwice(b, next.value, after, i);
      }
    }
  }

  lemma NoneAboutNewSeat(b: Book, plan: seq<Item>, i: nat)
    requires PlanFits(b, plan) && i >= |b.seats|
    ensures forall k :: 0 <= k < |plan| ==> plan[k].seat != Some(i)
  {
    forall k | 0 <= k < |plan| ensures plan[k].seat != Some(i) {
      assert ItemOK(b, plan[k]);
    }
  }

  /** One step of the plan, on a seat it is not about. */
  lemma StepElsewhere(b: Book, plan: seq<Item>, today: Day, failing: set<(nat, nat)>, i: nat)
    requires SeatInv(b) && PlanFits(b, plan) && plan != [] && plan[0].seat != Some(i) && NoDayTwice(b.spans, i)
    requires Applied(b, plan[0], today).Some?
    ensures var next := Applied(b, plan[0], today).value;
            NoDayTwice(next.spans, i) && (AllFit(next, plan[1..], i, today, failing) <==> AllFit(b, plan, i, today, failing))
  {
    var next := Applied(b, plan[0], today).value;
    AppliedElsewhere(b, plan, today, i);
    AllFitRest(b, plan, i, today, failing);
    if i < |b.seats| {
      SameSeatSameDays(b, next, i);
      SameSeatAllFit(b, next, plan[1..], i, today, failing);
      hide *;
      NotAbout(plan[0], i, failing);
    } else {
      NoneAboutNewSeat(b, plan, i);
      hide Applied, SeatInv, PlanFits, SameSeat, NoDayTwice, ItemFits;
    }
  }

  lemma NotAbout(item: Item, i: nat, failing: set<(nat, nat)>)
    requires item.seat != Some(i)
    ensures !About(item, i, failing)
  {
  }

  /** The step that is about the seat: no later one is. */
  lemma StepAboutIt(b: Book, plan: seq<Item>, today: Day, failing: set<(nat, nat)>, i: nat)
    requires SeatInv(b) && PlanFits(b, plan) && plan != [] && plan[0].seat == Some(i) && NoDayTwice(b.spans, i)
    requires Applied(b, plan[0], today).Some? && (plan[0].m.student, plan[0].m.group) !in failing
    ensures i < |b.seats| && i < |Applied(b, plan[0], today).value.seats|
    ensures NoDayTwice(Applied(b, plan[0], today).value.spans, i) <==> AllFit(b, plan, i, today, failing)
    ensures forall k :: 0 <= k < |plan[1..]| ==> plan[1..][k].seat != Some(i)
  {
    assert ItemOK(b, plan[0]);
    NoOtherAbout(b, plan, i, today, failing);
    AllFitRest(b, plan, i, today, failing);
    assert plan[0].m.price >= 0 && About(plan[0], i, failing);
    AppliedKeeps(b, plan[0], today);
    FollowingKeepsApartIff(b, i, plan[0].m, plan[0].state, today);
    assert Applied(b, plan[0], today) == SeatFollowed(b, i, plan[0].m, plan[0].state, today);
    assert |SeatFollowed(b, i, plan[0].m, plan[0].state, today).value.seats| == |b.seats| by { FollowedSpans(b, i, plan[0].m, plan[0].state, today); }
    hide Applied, SeatInv, PlanFits, SeatFollowed, NoDayTwice, Fits;
  }

  /** Carrying out a plan keeps a seat's stretches apart exactly when the one item about it, if any and if carried out, fits. */
  lemma {:induction false} CarriedOutKeepsApartIff(b: Book, plan: seq<Item>, today: Day, failing: set<(nat, nat)>, i: nat)
    returns (after: Book)
    requires SeatInv(b) && PlanFits(b, plan) && NoDayTwice(b.spans, i)
    ensures after == CarriedOut(b, plan, today, failing).0
    ensures NoDayTwice(after.spans, i) <==> AllFit(b, plan, i, today, failing)
    decreases |plan|
  {
    after := b;
    if plan != [] {
      var item, next, rest := plan[0], Applied(b, plan[0], today), plan[1..];
      AppliedFits(b, plan, today);
      assert ItemOK(b, item);
      AppliedKeeps(b, item, today);
      hide SeatInv, PlanFits, NoDayTwice, AllFit;
      if next.None? || (item.m.student, item.m.group) in failing {
        after := CarriedOutKeepsApartIff(b, rest, today, failing, i);
        AllFitRest(b, plan, i, today, failing);
        assert !About(item, i, failing);
      } else if item.seat == Some(i) {
        StepAboutIt(b, plan, today, failing, i);
        after := OthersLeaveIt(next.value, rest, today, failing, i);
        SameSeatSameDays(next.value, after, i);
      } else {
        StepElsewhere(b, plan, today, failing, i);
        after := CarriedOutKeepsApartIff(next.value, rest, today, failing, i);
      }
    }
  }

  // ---------- over every course ----------

  lemma SeatOpenedKeepsApart(b: Book, holders: set<nat>, m: Membership, today: Day, i: nat)
    requires SpansOnSeats(b) && NoDayTwice(b.spans, i)
    ensures var next := SeatOpened(b, holders, m, today); next.Some? ==> SpansOnSeats(next.value) && NoDayTwice(next.value.spans, i)
  {
    hide SpanBilled, AccountAmong, Meets;
  }

  lemma {:induction false} SeatsOpenedKeepApart(b: Book, holders: set<nat>, live: seq<Membership>, today: Day, i: nat)
    requires SpansOnSeats(b) && NoDayTwice(b.spans, i)
    ensures var next := SeatsOpened(b, holders, live, today); next.Some? ==> SpansOnSeats(next.value) && NoDayTwice(next.value.spans, i)
  {
    if live != [] {
      var before := SeatsOpened(b, holders, live[..|live| - 1], today);
      SeatsOpenedKeepApart(b, holders, live[..|live| - 1], today, i);
      hide SeatOpened, NoDayTwice, SpansOnSeats;
      if before.Some? {
        SeatOpenedKeepsApart(before.value, holders, live[|live| - 1], today, i);
      }
    }
  }

  lemma OpeningKeepsApart(b: Book, people: seq<Person>, live: seq<Membership>, today: Day, i: nat)
    requires SeatInv(b) && NoDayTwice(b.spans, i) && b.entries == []
    ensures var next := LedgerOpened(b, people, live, today); next.Some? ==> NoDayTwice(next.value.spans, i)
  {
    var accounts := AccountsOpenedBalance(b, people, StudentsOf(live), today);
    AccountsOpenedSameSpans(b, people, StudentsOf(live), today);
    if accounts.Some? {
      assert SpansOnSeats(accounts.value);
      SeatsOpenedKeepApart(accounts.value, OpenedIds(people, StudentsOf(live)), live, today, i);
    }
    hide SeatInv, AccountsOpened, SeatsOpened, Meets;
  }

  /** What a look tells of the seat fits, or the look waits for a person.  Nothing else moves a stretch. */
  ghost predicate BeatFits(b: Book, today: Day, beat: Beat, i: nat) {
    match beat
    case Watching(snapshot, allowMass, failing) =>
      (EndsIn(b, PlanOf(b, snapshot)) > MAX_ENDS_PER_TICK && !allowMass) || AllFit(b, PlanOf(b, snapshot), i, today, failing)
    case _ => true
  }

  lemma BeatKeepsApartIff(b: Book, today: Day, beat: Beat, i: nat)
    requires SeatInv(b) && Possible(b, today, beat) && NoDayTwice(b.spans, i)
    ensures NoDayTwice(Beaten(b, today, beat).spans, i) <==> BeatFits(b, today, beat, i)
  {
    match beat
    case Opening(people, live) => OpeningKeepsApart(b, people, live, today, i);
    case Watching(snapshot, allowMass, failing) =>
      PlanIsFit(b, snapshot);
      var after := CarriedOutKeepsApartIff(b, PlanOf(b, snapshot), today, failing, i);
      hide SeatInv, AllFit, NoDayTwice, CarriedOut;
    case Mirroring(payments, opening, failed) => MirroredSameSpans(b, payments, opening, failed);
    case Person(change) =>
      ByPersonKeepsSeats(b, Runs.Event(today, change));
      hide Step;
  }

  ghost predicate ApartAt(moments: seq<Moment>, n: nat, i: nat)
    requires n <= |moments|
  {
    NoDayTwice(Course(moments[..n]).spans, i)
  }

  ghost predicate FitsAt(moments: seq<Moment>, n: nat, i: nat)
    requires n < |moments|
  {
    BeatFits(Course(moments[..n]), moments[n].today, moments[n].beat, i)
  }

  lemma MomentKeepsApartIff(moments: seq<Moment>, n: nat, i: nat)
    requires PossibleCourse(moments) && n < |moments| && ApartAt(moments, n, i)
    ensures ApartAt(moments, n + 1, i) <==> FitsAt(moments, n, i)
  {
    var before := moments[..n];
    assert moments[..n + 1][..n] == before;
    forall k | 0 <= k < n ensures Possible(Course(before[..k]), before[k].today, before[k].beat) {
      assert before[..k] == moments[..k];
    }
    hide Possible, Beaten, BeatFits, NoDayTwice, SeatInv;
    EveryRunBesideLcup(before);
    BeatKeepsApartIff(Course(before), moments[n].today, moments[n].beat, i);
  }

  lemma {:induction false} ApartWhileItFits(moments: seq<Moment>, n: nat, i: nat)
    requires PossibleCourse(moments) && n <= |moments| && forall k :: 0 <= k < n ==> FitsAt(moments, k, i)
    ensures ApartAt(moments, n, i)
  {
    if n > 0 {
      hide ApartAt, FitsAt, PossibleCourse;
      ApartWhileItFits(moments, n - 1, i);
      MomentKeepsApartIff(moments, n - 1, i);
    }
  }

  /** Over every course: no day of a seat is ever paid for twice if and only if every look that touched the seat fitted. */
  lemma EveryCourseKeepsApartIff(moments: seq<Moment>, i: nat)
    requires PossibleCourse(moments)
    ensures (forall n :: 0 <= n <= |moments| ==> ApartAt(moments, n, i)) <==> forall n :: 0 <= n < |moments| ==> FitsAt(moments, n, i)
  {
    hide ApartAt, FitsAt, PossibleCourse;
    if forall n :: 0 <= n <= |moments| ==> ApartAt(moments, n, i) {
      forall n | 0 <= n < |moments| ensures FitsAt(moments, n, i) {
        assert ApartAt(moments, n + 1, i);
        MomentKeepsApartIff(moments, n, i);
      }
    }
    if forall n :: 0 <= n < |moments| ==> FitsAt(moments, n, i) {
      forall n | 0 <= n <= |moments| ensures ApartAt(moments, n, i) {
        ApartWhileItFits(moments, n, i);
      }
    }
  }

  /** Frozen and back on one day: the stretch that ends that day and the one that begins it are both paid for it. */
  lemma FrozenAndBackTheSameDay(b: Book, i: nat, frozen: Membership, back: Membership, day: Day) returns (after: Book, s: nat)
    requires SeatInv(b) && i < |b.seats| && b.seats[i].state == Active && frozen.price >= 0 && back.price >= 0
    requires frozen.startDate == back.startDate && RunningSpan(b.spans, i).Some? && b.spans[RunningSpan(b.spans, i).value].start <= day
    ensures exists between :: Looked(b, i, frozen, Frozen, day, between) && Looked(between, i, back, Active, day, after)
    ensures s < |b.spans| < |after.spans| && after.spans[s].seat == after.spans[|b.spans|].seat == i
    ensures Holds(after.spans[s], day) && Holds(after.spans[|b.spans|], day) && !NoDayTwice(after.spans, i)
  {
    s := RunningSpan(b.spans, i).value;
    FreezeTold(b, i, frozen, day, s);
    FollowingKeeps(b, i, frozen, Frozen, day);
    FollowedSpans(b, i, frozen, Frozen, day);
    var between := SeatFollowed(b, i, frozen, Frozen, day).value;
    assert between.seats[i].state == Frozen && between.seats[i].startSeen == frozen.startDate && |between.spans| == |b.spans|;
    assert ToldOf(between, i, back, Active, day) == Started(day) by { hide RunningSpan, SeatInv, SeatFollowed; }
    FollowedSpans(between, i, back, Active, day);
    after := SeatFollowed(between, i, back, Active, day).value;
    assert Looked(b, i, frozen, Frozen, day, between) && Looked(between, i, back, Active, day, after);
    hide SeatFollowed, ToldOf, SeatInv, RunningSpan;
  }
}
