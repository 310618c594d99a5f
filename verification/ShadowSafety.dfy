/** What following the snapshot keeps, over any number of looks at any snapshots. */
module ShadowSafety {
  import opened Wrappers
  import opened Calendar
  import opened Entries
  import opened Books
  import opened LedgerSafety
  import opened Shadow

  // ---------- open spans ----------

  function OpenSpans(spans: seq<Span>, seat: nat): nat {
    if spans == [] then 0
    else OpenSpans(spans[..|spans| - 1], seat) + if IsOpen(spans[|spans| - 1], seat) then 1 else 0
  }

  function EndedSpans(spans: seq<Span>): nat {
    if spans == [] then 0 else EndedSpans(spans[..|spans| - 1]) + if spans[|spans| - 1].end.Some? then 1 else 0
  }

  lemma CountsAppended(spans: seq<Span>, span: Span, seat: nat)
    ensures OpenSpans(spans + [span], seat) == OpenSpans(spans, seat) + if IsOpen(span, seat) then 1 else 0
    ensures EndedSpans(spans + [span]) == EndedSpans(spans) + if span.end.Some? then 1 else 0
  {
    assert (spans + [span])[..|spans|] == spans;
  }

  lemma {:induction false} CountsUpdated(spans: seq<Span>, i: nat, span: Span, seat: nat)
    requires i < |spans|
    ensures OpenSpans(spans[i := span], seat) ==
      OpenSpans(spans, seat) - (if IsOpen(spans[i], seat) then 1 else 0) + if IsOpen(span, seat) then 1 else 0
    ensures EndedSpans(spans[i := span]) ==
      EndedSpans(spans) - (if spans[i].end.Some? then 1 else 0) + if span.end.Some? then 1 else 0
  {
    var last := |spans| - 1;
    if i == last {
      assert spans[i := span][..last] == spans[..last];
    } else {
      CountsUpdated(spans[..last], i, span, seat);
      assert spans[i := span][..last] == spans[..last][i := span];
    }
  }

  lemma {:induction false} RunningIffOpen(spans: seq<Span>, seat: nat)
    ensures RunningSpan(spans, seat).Some? <==> OpenSpans(spans, seat) > 0
  {
    if spans != [] {
      RunningIffOpen(spans[..|spans| - 1], seat);
    }
  }

  // ---------- the invariant ----------

  function Wanted(state: SeatState): nat {
    if state == Active then 1 else 0
  }

  ghost predicate SeatRunsIffActive(b: Book, seat: nat)
    requires seat < |b.seats|
  {
    OpenSpans(b.spans, seat) == Wanted(b.seats[seat].state)
  }

  /** Accounts and seats are one a student and one an account and group; a seat has exactly one open span when it is
      active and none otherwise. */
  ghost predicate SeatInv(b: Book) {
    Inv(b) &&
    (forall i :: 0 <= i < |b.seats| ==> b.seats[i].account < |b.accounts|) &&
    (forall i, j :: 0 <= i < j < |b.seats| && b.seats[i].lcupGroup.Some? ==>
      b.seats[i].account != b.seats[j].account || b.seats[i].lcupGroup != b.seats[j].lcupGroup) &&
    (forall i, j :: 0 <= i < j < |b.accounts| && b.accounts[i].Some? ==> b.accounts[i] != b.accounts[j]) &&
    forall i :: 0 <= i < |b.seats| ==> SeatRunsIffActive(b, i)
  }

  /** b' is b with its ledger operated on: only rows and spans differ, and a span keeps its seat. */
  lemma SeatInvAfter(b: Book, b': Book, changed: nat)
    requires SeatInv(b) && Keeps(b, b') && b'.accounts == b.accounts && |b'.seats| == |b.seats|
    requires forall i :: 0 <= i < |b.seats| ==>
      b'.seats[i].account == b.seats[i].account && b'.seats[i].lcupGroup == b.seats[i].lcupGroup
    requires forall i :: 0 <= i < |b.seats| && i != changed ==>
      b'.seats[i].state == b.seats[i].state && OpenSpans(b'.spans, i) == OpenSpans(b.spans, i)
    requires changed < |b.seats| ==> SeatRunsIffActive(b', changed)
    ensures SeatInv(b')
  {
    forall i | 0 <= i < |b'.seats| ensures SeatRunsIffActive(b', i) {
      if i != changed { assert SeatRunsIffActive(b, i); }
    }
  }

  lemma SameSpansSeatInv(b: Book, b': Book)
    requires SeatInv(b) && Inv(b') && b'.seats == b.seats && b'.spans == b.spans && b'.accounts == b.accounts
    ensures SeatInv(b')
  {
    forall i | 0 <= i < |b'.seats| ensures SeatRunsIffActive(b', i) {
      assert SeatRunsIffActive(b, i);
    }
  }

  // ---------- each operation's spans ----------

  lemma StartCounts(b: Book, seat: nat, day: Day, today: Day, opening: Option<Month>, other: nat)
    requires seat < |b.seats|
    ensures var b' := StartSpan(b, seat, day, today, opening);
            OpenSpans(b'.spans, other) == OpenSpans(b.spans, other) + (if other == seat then 1 else 0) &&
            EndedSpans(b'.spans) == EndedSpans(b.spans)
  {
    hide SpanBilled;
    CountsAppended(b.spans, Span(seat, day, None, None, opening), other);
  }

  lemma EndCounts(b: Book, id: nat, day: Day, why: EndReason, today: Day, other: nat)
    requires id < |b.spans| && b.spans[id].seat < |b.seats| && b.spans[id].end.None?
    ensures var b' := EndSpan(b, id, day, why, today);
            OpenSpans(b'.spans, other) == OpenSpans(b.spans, other) - (if other == b.spans[id].seat then 1 else 0) &&
            EndedSpans(b'.spans) == EndedSpans(b.spans) + 1
  {
    hide SpanBilled, Voided;
    CountsUpdated(b.spans, id, b.spans[id].(end := Some(day), endedBy := Some(why)), other);
  }

  /** A move that gives no end, or gives one to a span that has ended, opens and ends nothing. */
  lemma MoveCounts(b: Book, id: nat, start: Option<Day>, end: Option<Day>, reason: string, today: Day, other: nat)
    requires id < |b.spans| && b.spans[id].seat < |b.seats| && (end.None? || b.spans[id].end.Some?)
    ensures var b' := MovedOrSame(b, id, start, end, reason, today);
            OpenSpans(b'.spans, other) == OpenSpans(b.spans, other) && EndedSpans(b'.spans) == EndedSpans(b.spans)
  {
    hide SpanBilled, Voided, HasLive, Blank;
    var span := b.spans[id];
    CountsUpdated(b.spans, id, span.(start := if start.Some? then start.value else span.start, end := Or(end, span.end)), other);
  }

  // ---------- one membership ----------

  lemma WithAccountKeeps(b: Book, student: nat)
    requires SeatInv(b)
    ensures SeatInv(WithAccount(b, student)) && Keeps(b, WithAccount(b, student))
    ensures AccountAmong(b.accounts, student) < |WithAccount(b, student).accounts|
    ensures WithAccount(b, student).accounts[AccountAmong(b.accounts, student)] == Some(student)
    ensures WithAccount(b, student) == b.(accounts := WithAccount(b, student).accounts)
  {
    var b' := WithAccount(b, student);
    SeatsChangedKeeps(b, b');
    forall i | 0 <= i < |b'.seats| ensures SeatRunsIffActive(b', i) {
      assert SeatRunsIffActive(b, i);
    }
  }

  /** A seat with no span yet, added under a place that has none. */
  lemma SeatAppendedKeeps(b: Book, seat: Seat)
    requires SeatInv(b) && seat.account < |b.accounts| && seat.lcupGroup.Some?
    requires forall i :: 0 <= i < |b.seats| ==> !(b.seats[i].account == seat.account && b.seats[i].lcupGroup == seat.lcupGroup)
    ensures Keeps(b, b.(seats := b.seats + [seat])) && OpenSpans(b.spans, |b.seats|) == 0
  {
    SeatsChangedKeeps(b, b.(seats := b.seats + [seat]));
    NoSpanOfNewSeat(b.spans, |b.seats|);
  }

  lemma {:induction false} NoSpanOfNewSeat(spans: seq<Span>, seat: nat)
    requires forall s :: 0 <= s < |spans| ==> spans[s].seat != seat
    ensures OpenSpans(spans, seat) == 0
  {
    if spans != [] {
      NoSpanOfNewSeat(spans[..|spans| - 1], seat);
    }
  }

  lemma SeatAddedInv(b: Book, seat: Seat, b': Book)
    requires SeatInv(b) && seat.account < |b.accounts| && seat.lcupGroup.Some?
    requires forall i :: 0 <= i < |b.seats| ==> !(b.seats[i].account == seat.account && b.seats[i].lcupGroup == seat.lcupGroup)
    requires Inv(b') && b'.accounts == b.accounts && b'.seats == b.seats + [seat]
    requires forall i :: 0 <= i < |b.seats| ==> OpenSpans(b'.spans, i) == OpenSpans(b.spans, i)
    requires OpenSpans(b'.spans, |b.seats|) == Wanted(seat.state)
    ensures SeatInv(b')
  {
    forall i | 0 <= i < |b'.seats| ensures SeatRunsIffActive(b', i) {
      if i < |b.seats| { assert SeatRunsIffActive(b, i); }
    }
  }

  lemma AddingKeeps(b: Book, m: Membership, state: SeatState, today: Day)
    requires SeatInv(b)
    ensures var next := SeatAdded(b, m, state, today);
            next.Some? ==> SeatInv(next.value) && Keeps(b, next.value) && EndedSpans(next.value.spans) == EndedSpans(b.spans)
  {
    var next := SeatAdded(b, m, state, today);
    if next.Some? {
      var account := AccountAmong(b.accounts, m.student);
      var known := WithAccount(b, m.student);
      WithAccountKeeps(b, m.student);
      var seat := Seat(account, Some(m.group), m.groupName, m.price, None, m.days, state, m.startDate, None);
      var added := known.(seats := known.seats + [seat]);
      SeatAppendedKeeps(known, seat);
      KeepsTransitive(b, known, added);
      if state == Active {
        var day := FirstPaidDay(m, today);
        StartSpanKeeps(added, |b.seats|, day, today, None);
        KeepsTransitive(b, added, next.value);
        forall i: nat
          ensures OpenSpans(next.value.spans, i) == OpenSpans(b.spans, i) + if i == |b.seats| then 1 else 0
          ensures EndedSpans(next.value.spans) == EndedSpans(b.spans)
        {
          StartCounts(added, |b.seats|, day, today, None, i);
        }
      }
      SeatAddedInv(known, seat, next.value);
    }
  }

  lemma SeenKeeps(b: Book, i: nat, m: Membership, state: SeatState)
    requires SeatInv(b) && i < |b.seats| && m.price >= 0 && (state == Left ==> m.HasLeft())
    ensures Keeps(b, b.(seats := b.seats[i := SeatSeen(b.seats[i], m, state)]))
  {
    SeatsChangedKeeps(b, b.(seats := b.seats[i := SeatSeen(b.seats[i], m, state)]));
  }

  lemma LeftSpansHaveEnded(b: Book, i: nat)
    requires SeatInv(b) && i < |b.seats| && b.seats[i].state != Active
    ensures forall s :: 0 <= s < |b.spans| && b.spans[s].seat == i ==> b.spans[s].end.Some?
  {
    assert SeatRunsIffActive(b, i);
    forall s | 0 <= s < |b.spans| && b.spans[s].seat == i ensures b.spans[s].end.Some? {
      OpenSpanCounts(b.spans, s, i);
    }
  }

  lemma {:induction false} OpenSpanCounts(spans: seq<Span>, s: nat, seat: nat)
    requires s < |spans| && spans[s].seat == seat
    ensures spans[s].end.None? ==> OpenSpans(spans, seat) > 0
  {
    if s < |spans| - 1 {
      OpenSpanCounts(spans[..|spans| - 1], s, seat);
    }
  }

  /** What happened to the seat, as one of the ledger's operations on the seat as it is now seen. */
  datatype Told = Nothing | Ended(span: nat, day: Day, why: EndReason) | Started(day: Day)
                | StartMoved(span: nat, day: Day) | EndMoved(span: nat, day: Day)

  function ToldOf(b: Book, i: nat, m: Membership, state: SeatState, today: Day): Told
    requires i < |b.seats| && (state == Left ==> m.HasLeft())
  {
    var seat := b.seats[i];
    var startMoved := m.startDate != seat.startSeen;
    var running := RunningSpan(b.spans, i);
    if seat.state == Active && state != Active then
      if running.None? then Nothing
      else Ended(running.value, if state == Left then LeftOn(m) else today, if state == Left then Leave else Freeze)
    else if seat.state != Active && state == Active then
      Started(if startMoved && m.startDate.Some? then m.startDate.value else today)
    else if state == Active && startMoved && m.startDate.Some? && running.Some? && SpanCount(b.spans, i) == 1 then
      StartMoved(running.value, m.startDate.value)
    else if seat.state == Left && state == Left && seat.leftSeen != Some(LeftOn(m)) && LastLeft(b.spans, i).Some? then
      EndMoved(LastLeft(b.spans, i).value, LeftOn(m))
    else
      Nothing
  }

  function Heard(seen: Book, i: nat, told: Told, today: Day): Book
    requires i < |seen.seats| && SpansOnSeats(seen)
    requires told.Ended? || told.StartMoved? || told.EndMoved? ==> told.span < |seen.spans|
  {
    match told
    case Nothing => seen
    case Ended(s, day, why) => EndSpan(seen, s, day, why, today)
    case Started(day) => StartSpan(seen, i, day, today, None)
    case StartMoved(s, day) => MovedOrSame(seen, s, Some(day), None, START_MOVED, today)
    case EndMoved(s, day) => MovedOrSame(seen, s, None, Some(day), LEAVING_MOVED, today)
  }

  lemma FollowedIsHeard(b: Book, i: nat, m: Membership, state: SeatState, today: Day)
    requires i < |b.seats| && SpansOnSeats(b) && m.price >= 0 && (state == Left ==> m.HasLeft())
    ensures SeatFollowed(b, i, m, state, today) ==
      Some(Heard(b.(seats := b.seats[i := SeatSeen(b.seats[i], m, state)]), i, ToldOf(b, i, m, state, today), today))
  {
    hide EndSpan, StartSpan, MovedOrSame;
  }

  lemma HeardKeeps(b: Book, seen: Book, i: nat, told: Told, today: Day)
    requires SeatInv(b) && Keeps(b, seen) && i < |seen.seats| && seen.spans == b.spans
    requires told.Ended? ==> told.span < |b.spans| && IsOpen(b.spans[told.span], i)
    requires told.StartMoved? || told.EndMoved? ==> told.span < |b.spans|
    ensures Keeps(b, Heard(seen, i, told, today))
  {
    assert Inv(seen) && Inv(b);
    hide Keeps;
    match told
    case Nothing =>
    case Ended(s, day, why) =>
      EndSpanKeeps(seen, s, day, why, today);
      KeepsTransitive(b, seen, Heard(seen, i, told, today));
    case Started(day) =>
      StartSpanKeeps(seen, i, day, today, None);
      KeepsTransitive(b, seen, Heard(seen, i, told, today));
    case StartMoved(s, day) =>
      MovedOrSameKeeps(b, seen, s, Some(day), None, START_MOVED, today);
    case EndMoved(s, day) =>
      MovedOrSameKeeps(b, seen, s, None, Some(day), LEAVING_MOVED, today);
  }

  lemma MovedOrSameKeeps(
    b: Book, seen: Book, s: nat, start: Option<Day>, end: Option<Day>, reason: string, today: Day)
    requires Inv(b) && Keeps(b, seen) && s < |seen.spans|
    ensures Keeps(b, MovedOrSame(seen, s, start, end, reason, today))
  {
    MoveSpanKeeps(seen, s, start, end, reason, today);
    var moved := MovedOrSame(seen, s, start, end, reason, today);
    hide MoveSpan;
    if moved != seen {
      KeepsTransitive(b, seen, moved);
    }
  }

  /** The change in open spans each thing heard makes. */
  lemma HeardCounts(seen: Book, i: nat, told: Told, today: Day, other: nat)
    requires i < |seen.seats| && SpansOnSeats(seen)
    requires told.Ended? ==> told.span < |seen.spans| && IsOpen(seen.spans[told.span], i)
    requires told.StartMoved? ==> told.span < |seen.spans|
    requires told.EndMoved? ==> told.span < |seen.spans| && seen.spans[told.span].end.Some?
    ensures var after := Heard(seen, i, told, today).spans;
            OpenSpans(after, other) == OpenSpans(seen.spans, other) +
              (if other != i then 0 else if told.Started? then 1 else if told.Ended? then -1 else 0) &&
            EndedSpans(after) == EndedSpans(seen.spans) + (if told.Ended? then 1 else 0)
  {
    hide StartSpan, EndSpan, MovedOrSame;
    match told
    case Nothing =>
    case Ended(s, day, why) => EndCounts(seen, s, day, why, today, other);
    case Started(day) => StartCounts(seen, i, day, today, None, other);
    case StartMoved(s, day) => MoveCounts(seen, s, Some(day), None, START_MOVED, today, other);
    case EndMoved(s, day) => MoveCounts(seen, s, None, Some(day), LEAVING_MOVED, today, other);
  }

  lemma ToldFits(b: Book, i: nat, m: Membership, state: SeatState, today: Day)
    requires SeatInv(b) && i < |b.seats| && (state == Left ==> m.HasLeft())
    ensures var told := ToldOf(b, i, m, state, today);
            (told.Ended? <==> b.seats[i].state == Active && state != Active) &&
            (told.Started? <==> b.seats[i].state != Active && state == Active) &&
            (told.Ended? ==> told.span < |b.spans| && IsOpen(b.spans[told.span], i)) &&
            (told.StartMoved? ==> told.span < |b.spans|) &&
            (told.EndMoved? ==> told.span < |b.spans| && b.spans[told.span].end.Some?)
  {
    assert SeatRunsIffActive(b, i);
    RunningIffOpen(b.spans, i);
    if b.seats[i].state == Left {
      LeftSpansHaveEnded(b, i);
    }
    hide SeatInv;
  }

  lemma FollowedCounts(b: Book, i: nat, m: Membership, state: SeatState, today: Day, other: nat)
    requires SeatInv(b) && i < |b.seats| && m.price >= 0 && (state == Left ==> m.HasLeft())
    ensures SeatFollowed(b, i, m, state, today).Some?
    ensures var next, told := SeatFollowed(b, i, m, state, today).value, ToldOf(b, i, m, state, today);
            OpenSpans(next.spans, other) == OpenSpans(b.spans, other) +
              (if other != i then 0 else if told.Started? then 1 else if told.Ended? then -1 else 0) &&
            EndedSpans(next.spans) == EndedSpans(b.spans) + (if told.Ended? then 1 else 0)
  {
    var seen := b.(seats := b.seats[i := SeatSeen(b.seats[i], m, state)]);
    var told := ToldOf(b, i, m, state, today);
    FollowedIsHeard(b, i, m, state, today);
    ToldFits(b, i, m, state, today);
    assert SpansOnSeats(b) && SpansOnSeats(seen);
    hide *;
    HeardCounts(seen, i, told, today, other);
  }

  lemma FollowedKeeps(b: Book, i: nat, m: Membership, state: SeatState, today: Day)
    requires SeatInv(b) && i < |b.seats| && m.price >= 0 && (state == Left ==> m.HasLeft())
    ensures SeatFollowed(b, i, m, state, today).Some? && Keeps(b, SeatFollowed(b, i, m, state, today).value)
  {
    var seen := b.(seats := b.seats[i := SeatSeen(b.seats[i], m, state)]);
    SeenKeeps(b, i, m, state);
    FollowedIsHeard(b, i, m, state, today);
    ToldFits(b, i, m, state, today);
    assert SpansOnSeats(b) && SpansOnSeats(seen);
    hide *;
    HeardKeeps(b, seen, i, ToldOf(b, i, m, state, today), today);
  }

  lemma FollowingKeeps(b: Book, i: nat, m: Membership, state: SeatState, today: Day)
    requires SeatInv(b) && i < |b.seats| && m.price >= 0 && (state == Left ==> m.HasLeft())
    ensures var next := SeatFollowed(b, i, m, state, today);
            next.Some? && SeatInv(next.value) && Keeps(b, next.value) &&
            EndedSpans(next.value.spans) ==
              EndedSpans(b.spans) + if b.seats[i].state == Active && state != Active then 1 else 0
  {
    var next, told := SeatFollowed(b, i, m, state, today), ToldOf(b, i, m, state, today);
    ToldFits(b, i, m, state, today);
    FollowedKeeps(b, i, m, state, today);
    FollowedTables(b, i, m, state, today);
    hide ToldOf, SeatFollowed, OpenSpans, EndedSpans, Keeps;
    FollowedCounts(b, i, m, state, today, i);
    forall other: nat | other != i ensures OpenSpans(next.value.spans, other) == OpenSpans(b.spans, other) {
      FollowedCounts(b, i, m, state, today, other);
    }
    assert SeatRunsIffActive(b, i);
    assert SeatRunsIffActive(next.value, i);
    SeatInvAfter(b, next.value, i);
  }

  // ---------- the theorems ----------

  lemma AppliedKeeps(b: Book, item: Item, today: Day)
    requires SeatInv(b) && ItemOK(b, item)
    ensures var next := Applied(b, item, today);
            next.Some? ==> (SeatInv(next.value) && Keeps(b, next.value) &&
                            EndedSpans(next.value.spans) == EndedSpans(b.spans) + if Ends(b, item) then 1 else 0)
  {
    if item.seat.None? {
      AddingKeeps(b, item.m, item.state, today);
    } else if item.m.price >= 0 {
      FollowingKeeps(b, item.seat.value, item.m, item.state, today);
    }
    hide SeatInv, Keeps;
  }

  /** Each item leaves the other items' places as they were, so what is left to end is what was counted. */
  lemma {:induction false} EndsElsewhere(b: Book, b': Book, plan: seq<Item>)
    requires forall i :: 0 <= i < |plan| ==> ItemOK(b, plan[i]) && Agrees(b, b', plan[i].m.student, plan[i].m.group)
    ensures EndsIn(b', plan) == EndsIn(b, plan)
    decreases |plan|
  {
    if plan != [] {
      assert ItemOK(b, plan[0]) && Agrees(b, b', plan[0].m.student, plan[0].m.group);
      EndsElsewhere(b, b', plan[1..]);
    }
  }

  lemma AppliedLeavesOthers(b: Book, plan: seq<Item>, today: Day, student: nat, group: nat)
    requires PlanFits(b, plan) && plan != [] && Place(plan[0].m) != (student, group)
    ensures var next := Applied(b, plan[0], today); next.Some? ==> Agrees(b, next.value, student, group)
  {
    assert ItemOK(b, plan[0]);
    AppliedIsOnlyPlace(b, plan[0], today);
    var next := Applied(b, plan[0], today);
    hide Applied;
    if next.Some? {
      OtherPlaceAgrees(b, next.value, Place(plan[0].m), student, group);
    }
  }

  lemma EndsAfterFirst(b: Book, plan: seq<Item>, today: Day)
    requires PlanFits(b, plan) && plan != []
    ensures var next := Applied(b, plan[0], today); next.Some? ==> EndsIn(next.value, plan[1..]) == EndsIn(b, plan[1..])
  {
    var next := Applied(b, plan[0], today);
    if next.Some? {
      forall i | 0 <= i < |plan[1..]|
        ensures ItemOK(b, plan[1..][i]) && Agrees(b, next.value, plan[1..][i].m.student, plan[1..][i].m.group)
      {
        assert ItemOK(b, plan[i + 1]);
        assert Place(plan[0].m) != Place(plan[i + 1].m);
        AppliedLeavesOthers(b, plan, today, plan[i + 1].m.student, plan[i + 1].m.group);
      }
      hide Applied;
      EndsElsewhere(b, next.value, plan[1..]);
    }
  }

  lemma {:induction false} CarriedOutKeeps(b: Book, plan: seq<Item>, today: Day, failing: set<(nat, nat)>)
    returns (after: Book, errors: seq<Item>)
    requires SeatInv(b) && PlanFits(b, plan)
    ensures (after, errors) == CarriedOut(b, plan, today, failing)
    ensures SeatInv(after) && Keeps(b, after)
    ensures EndedSpans(after.spans) <= EndedSpans(b.spans) + EndsIn(b, plan)
    decreases |plan|
  {
    if plan == [] {
      after, errors := b, [];
    } else {
      assert ItemOK(b, plan[0]);
      var next := Applied(b, plan[0], today);
      AppliedFits(b, plan, today);
      AppliedKeeps(b, plan[0], today);
      EndsAfterFirst(b, plan, today);
      var ends, endsAll := EndsIn(b, plan[1..]), EndsIn(b, plan);
      assert endsAll == (if Ends(b, plan[0]) then 1 else 0) + ends;
      hide Applied, SeatInv, Keeps, PlanFits, EndsIn;
      if next.None? || (plan[0].m.student, plan[0].m.group) in failing {
        after, errors := CarriedOutKeeps(b, plan[1..], today, failing);
        errors := [plan[0]] + errors;
      } else {
        after, errors := CarriedOutKeeps(next.value, plan[1..], today, failing);
        KeepsTransitive(b, next.value, after);
      }
    }
  }

  /** A look at any snapshot, with any items failing, keeps every ledger invariant and leaves each seat with one open
      span when it is active and none otherwise; and unless a person allows it, it never ends more than
      MAX_ENDS_PER_TICK spans. */
  lemma WatchKeeps(b: Book, snapshot: seq<Membership>, today: Day, allowMass: bool, failing: set<(nat, nat)>)
    returns (w: Watched)
    requires SeatInv(b) && OnePerPlace(snapshot)
    ensures PlanFits(b, PlanOf(b, snapshot)) && w == Watch(b, snapshot, today, allowMass, failing)
    ensures SeatInv(w.book) && Keeps(b, w.book)
    ensures !allowMass ==> EndedSpans(w.book.spans) <= EndedSpans(b.spans) + MAX_ENDS_PER_TICK
    ensures w.held ==> w.book == b
  {
    PlanIsFit(b, snapshot);
    w := Watch(b, snapshot, today, allowMass, failing);
    if !w.held {
      var after, errors := CarriedOutKeeps(b, PlanOf(b, snapshot), today, failing);
    } else {
      KeepsItself(b);
    }
  }
}
