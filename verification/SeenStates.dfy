/** What a look, or the opening, makes of a membership, told from the membership's own fields. */
module SeenStates {
  import opened Wrappers
  import opened Calendar
  import opened Entries
  import opened Books
  import opened LedgerSafety
  import opened Shadow
  import opened ShadowSafety
  import opened ShadowFixpoint
  import opened HeardSpans
  import opened OpeningDay
  import opened SeatDays

  /** They have left, or their whole group is gone. */
  predicate Gone(m: Membership) {
    m.leftOn.Some? || m.groupDeletedOn.Some?
  }

  predicate Known(m: Membership) {
    Gone(m) || m.status == "active" || m.status == "trial" || m.status == "frozen"
  }

  predicate Pays(m: Membership) {
    m.leftOn.None? && m.groupDeletedOn.None? && m.status == "active"
  }

  /** The seat shows the membership: its group, price, weekdays and start date, and the state it is in. */
  predicate ShowsIt(seat: Seat, m: Membership) {
    seat.group == m.groupName && seat.price == m.price && seat.days == m.days && seat.startSeen == m.startDate &&
    (seat.state == Left <==> Gone(m)) && (seat.state == Active <==> Pays(m)) &&
    (seat.state == Trial <==> !Gone(m) && m.status == "trial") && (seat.state == Frozen <==> !Gone(m) && m.status == "frozen") &&
    (Gone(m) ==> seat.leftSeen == if m.leftOn.Some? then m.leftOn else m.groupDeletedOn)
  }

  /** One span of the seat has no end if the membership pays, and none otherwise. */
  ghost predicate RunsExactlyIf(spans: seq<Span>, i: nat, pays: bool) {
    (pays <==> exists s :: 0 <= s < |spans| && spans[s].seat == i && spans[s].end.None?) &&
    forall s, t :: 0 <= s < t < |spans| && spans[s].seat == i && spans[t].seat == i ==> spans[s].end.Some? || spans[t].end.Some?
  }

  lemma StateIs(m: Membership)
    ensures StateOf(m).Some? <==> Known(m)
    ensures Known(m) ==>
      (StateOf(m).value == Left <==> Gone(m)) && (StateOf(m).value == Active <==> Pays(m)) &&
      (StateOf(m).value == Trial <==> !Gone(m) && m.status == "trial") &&
      (StateOf(m).value == Frozen <==> !Gone(m) && m.status == "frozen")
    ensures m.HasLeft() <==> Gone(m)
    ensures m.HasLeft() ==> Some(LeftOn(m)) == if m.leftOn.Some? then m.leftOn else m.groupDeletedOn
  {
  }

  lemma {:induction false} TwoOpenCount(spans: seq<Span>, s: nat, t: nat, seat: nat)
    requires s < t < |spans| && IsOpen(spans[s], seat) && IsOpen(spans[t], seat)
    ensures OpenSpans(spans, seat) >= 2
  {
    if t == |spans| - 1 {
      OpenSpanCounts(spans[..t], s, seat);
    } else {
      TwoOpenCount(spans[..|spans| - 1], s, t, seat);
    }
  }

  lemma OpenAsActive(b: Book, i: nat)
    requires SeatInv(b) && i < |b.seats|
    ensures RunsExactlyIf(b.spans, i, b.seats[i].state == Active)
  {
    assert SeatRunsIffActive(b, i);
    RunningIffOpen(b.spans, i);
    forall s | 0 <= s < |b.spans| && b.spans[s].seat == i && b.spans[s].end.None? ensures OpenSpans(b.spans, i) > 0 {
      OpenSpanCounts(b.spans, s, i);
    }
    forall s, t | 0 <= s < t < |b.spans| && b.spans[s].seat == i && b.spans[t].seat == i
      ensures b.spans[s].end.Some? || b.spans[t].end.Some?
    {
      if b.spans[s].end.None? && b.spans[t].end.None? { TwoOpenCount(b.spans, s, t, i); }
    }
    hide SeatInv, OpenSpans;
  }

  // ---------- one look ----------

  /** Nothing to tell and known: the seat shows it, or there is no seat and they have left. */
  lemma QuietShows(b: Book, m: Membership)
    requires !Planned(b, m) && Known(m)
    ensures var seat := SeatOf(b, m.student, m.group);
            if seat.Some? then ShowsIt(b.seats[seat.value], m) else Gone(m)
  {
    StateIs(m);
    hide SeatOf;
  }

  lemma {:induction false} OtherPlans(snapshot: seq<Membership>, plan: seq<Item>, m: Membership)
    requires OnePerPlace(snapshot) && m in snapshot && forall item :: item in plan ==> item.m in snapshot
    ensures forall k :: 0 <= k < |plan| && plan[k].m != m ==> Place(plan[k].m) != Place(m)
  {
    var i :| 0 <= i < |snapshot| && snapshot[i] == m;
    forall k | 0 <= k < |plan| && plan[k].m != m ensures Place(plan[k].m) != Place(m) {
      assert plan[k] in plan;
      var j :| 0 <= j < |snapshot| && snapshot[j] == plan[k].m;
      assert i != j;
    }
  }

  lemma NoItemAbout(b: Book, snapshot: seq<Membership>, plan: seq<Item>, m: Membership, i: nat)
    requires OnePerPlace(snapshot) && m in snapshot && !Planned(b, m) && SeatOf(b, m.student, m.group) == Some(i)
    requires forall item :: item in plan <==> item.m in snapshot && Planned(b, item.m) && ItemOK(b, item)
    ensures forall k :: 0 <= k < |plan| ==> plan[k].seat != Some(i)
  {
    OtherPlans(snapshot, plan, m);
    forall k | 0 <= k < |plan| ensures plan[k].seat != Some(i) {
      assert plan[k] in plan && plan[k].m != m;
      OnePlaceASeat(b, plan[k], m, i);
    }
    hide Planned;
  }

  lemma OnePlaceASeat(b: Book, item: Item, m: Membership, i: nat)
    requires ItemOK(b, item) && SeatOf(b, m.student, m.group) == Some(i) && Place(item.m) != Place(m)
    ensures item.seat != Some(i)
  {
  }

  /** The book after a look that is not held, the membership's item not among the failed. */
  lemma LookIsQuiet(b: Book, snapshot: seq<Membership>, today: Day, allowMass: bool, failing: set<(nat, nat)>, m: Membership)
    returns (plan: seq<Item>, after: Book)
    requires SeatInv(b) && OnePerPlace(snapshot) && PlanFits(b, PlanOf(b, snapshot)) && m in snapshot
    requires var w := Watch(b, snapshot, today, allowMass, failing); !w.held && forall item :: item in w.errors ==> item.m != m
    ensures plan == PlanOf(b, snapshot) && after == Watch(b, snapshot, today, allowMass, failing).book && SeatInv(after)
    ensures after == CarriedOut(b, plan, today, failing).0
    ensures !Planned(after, m)
    ensures !Planned(b, m) ==> Agrees(b, after, m.student, m.group)
    ensures forall item :: item in plan <==> item.m in snapshot && Planned(b, item.m) && ItemOK(b, item)
  {
    PlanSound(b, snapshot);
    plan := PlanOf(b, snapshot);
    PlanItemsPlanned(b, snapshot, plan);
    WatchCarries(b, snapshot, today, allowMass, failing);
    hide *;
    var errors;
    after, errors := CarriedOutIsQuiet(b, plan, today, failing);
    var kept, _ := CarriedOutKeeps(b, plan, today, failing);
    if Planned(b, m) {
      var item := PlannedItem(b, snapshot, plan, m);
      var k :| 0 <= k < |plan| && plan[k] == item;
      assert plan[k] !in errors;
    } else {
      OtherPlans(snapshot, plan, m);
      NotInPlan(b, plan, m);
      PlannedAgrees(b, after, m);
    }
  }

  lemma PlanSound(b: Book, snapshot: seq<Membership>)
    requires SeatInv(b) && OnePerPlace(snapshot)
    ensures var plan := PlanOf(b, snapshot);
            PlanFits(b, plan) && forall item :: item in plan <==> item.m in snapshot && Planned(b, item.m) && ItemOK(b, item)
  {
    PlanIsFit(b, snapshot);
    hide Planned, ItemOK, PlanOf;
  }

  lemma WatchCarries(b: Book, snapshot: seq<Membership>, today: Day, allowMass: bool, failing: set<(nat, nat)>)
    requires PlanFits(b, PlanOf(b, snapshot)) && !Watch(b, snapshot, today, allowMass, failing).held
    ensures var w := Watch(b, snapshot, today, allowMass, failing);
            (w.book, w.errors) == CarriedOut(b, PlanOf(b, snapshot), today, failing)
  {
    hide CarriedOut, PlanOf, PlanFits;
  }

  lemma NotInPlan(b: Book, plan: seq<Item>, m: Membership)
    requires !Planned(b, m) && forall k :: 0 <= k < |plan| ==> Planned(b, plan[k].m)
    requires forall k :: 0 <= k < |plan| && plan[k].m != m ==> Place(plan[k].m) != Place(m)
    ensures !InPlan(plan, m.student, m.group)
  {
    hide Planned;
  }

  lemma PlannedItem(b: Book, snapshot: seq<Membership>, plan: seq<Item>, m: Membership) returns (item: Item)
    requires Planned(b, m) && m in snapshot
    requires forall item :: item in plan <==> item.m in snapshot && Planned(b, item.m) && ItemOK(b, item)
    ensures item in plan && item.m == m
  {
    item := Item(m, SeatOf(b, m.student, m.group), StateOf(m).value);
  }

  /** After a look that is not held, on every membership whose own item did not fail.  One of an unknown status touches
      nothing.  One that left before it was ever seen gets no seat.  Any other has a seat that shows it, and a span without
      an end exactly when it is active and has not left, nor its group gone: a trial and a freeze are states without one. */
  lemma LookShows(b: Book, snapshot: seq<Membership>, today: Day, allowMass: bool, failing: set<(nat, nat)>, m: Membership)
    requires SeatInv(b) && OnePerPlace(snapshot) && PlanFits(b, PlanOf(b, snapshot)) && m in snapshot
    requires var w := Watch(b, snapshot, today, allowMass, failing); !w.held && forall item :: item in w.errors ==> item.m != m
    ensures var after := Watch(b, snapshot, today, allowMass, failing).book;
            var was, now := SeatOf(b, m.student, m.group), SeatOf(after, m.student, m.group);
            if !Known(m) then now == was && (was.Some? ==> SameSeat(b, after, was.value))
            else if Gone(m) && was.None? then now.None?
            else now.Some? && ShowsIt(after.seats[now.value], m) && RunsExactlyIf(after.spans, now.value, Pays(m))
  {
    var plan, after := LookIsQuiet(b, snapshot, today, allowMass, failing, m);
    var was, now := SeatOf(b, m.student, m.group), SeatOf(after, m.student, m.group);
    StateIs(m);
    if !Known(m) {
      if was.Some? {
        NoItemAbout(b, snapshot, plan, m, was.value);
        var same := OthersLeaveIt(b, plan, today, failing, was.value);
      }
    } else {
      QuietShows(after, m);
      if now.Some? {
        OpenAsActive(after, now.value);
      }
      if Gone(m) && was.None? {
        assert !Planned(b, m);
      } else {
        SeatStays(b, plan, today, failing, m, after);
      }
    }
    hide Planned, SeatInv, PlanFits, CarriedOut, Watch, PlanOf, SeatOf, ShowsIt, RunsExactlyIf, Known, Gone, Pays;
  }

  /** A seat that was there is there still. */
  lemma SeatStays(b: Book, plan: seq<Item>, today: Day, failing: set<(nat, nat)>, m: Membership, after: Book)
    requires SeatInv(b) && PlanFits(b, plan) && after == CarriedOut(b, plan, today, failing).0
    ensures SeatOf(b, m.student, m.group).Some? ==> SeatOf(after, m.student, m.group).Some?
  {
    var kept, _ := CarriedOutKeeps(b, plan, today, failing);
    var was := SeatOf(b, m.student, m.group);
    if was.Some? {
      assert SeatIs(after, was.value, m.student, m.group);
    }
    hide SeatInv, PlanFits, CarriedOut, Inv, Grown;
  }

  // ---------- the days ----------

  /** A membership seen for the first time, and not gone: one new seat on the student's account; and when it pays, one new span,
      from its start date, or else the day the student joined, or else today. */
  lemma FirstSeen(b: Book, m: Membership, today: Day)
    requires SpansOnSeats(b) && Known(m) && !Gone(m) && SeatAdded(b, m, StateOf(m).value, today).Some?
    ensures var next := SeatAdded(b, m, StateOf(m).value, today).value;
            var from := if m.startDate.Some? then m.startDate.value else if m.joinedOn.Some? then m.joinedOn.value else today;
            |next.seats| == |b.seats| + 1 && next.seats[..|b.seats|] == b.seats && ShowsIt(next.seats[|b.seats|], m) &&
            next.seats[|b.seats|].account < |next.accounts| && next.accounts[next.seats[|b.seats|].account] == Some(m.student) &&
            next.seats[|b.seats|].lcupGroup == Some(m.group) && next.seats[|b.seats|].personalPrice.None? &&
            next.spans == b.spans + if Pays(m) then [Span(|b.seats|, from, None, None, None)] else []
  {
    StateIs(m);
    hide SpanBilled, AccountAmong, Known;
  }

  /** A membership seen again.  An active seat that is gone ends its running span on the day the student left, or else the day
      the group was deleted; one that is frozen or on trial ends it today.  A seat that was not active and pays now begins a span:
      from its start date if that has moved, today if not.  Otherwise no span begins or ends. */
  lemma SeenAgain(b: Book, i: nat, m: Membership, today: Day)
    requires SeatInv(b) && i < |b.seats| && m.price >= 0 && Known(m)
    ensures StateOf(m).Some? && SeatFollowed(b, i, m, StateOf(m).value, today).Some?
    ensures var next, was := SeatFollowed(b, i, m, StateOf(m).value, today).value, b.seats[i];
            next.accounts == b.accounts && |next.seats| == |b.seats| && ShowsIt(next.seats[i], m) &&
            (was.state == Active && !Pays(m) ==>
              exists r: nat :: r < |b.spans| && b.spans[r].seat == i && b.spans[r].end.None? &&
                next.spans == b.spans[r := b.spans[r].(
                  end := if m.leftOn.Some? then m.leftOn else if m.groupDeletedOn.Some? then m.groupDeletedOn else Some(today),
                  endedBy := Some(if Gone(m) then Leave else Freeze))]) &&
            (was.state != Active && Pays(m) ==>
              next.spans == b.spans +
                [Span(i, if m.startDate != was.startSeen && m.startDate.Some? then m.startDate.value else today, None, None, None)]) &&
            ((was.state == Active <==> Pays(m)) ==>
              |next.spans| == |b.spans| && forall s :: 0 <= s < |b.spans| ==>
                next.spans[s].seat == b.spans[s].seat && (next.spans[s].end.None? <==> b.spans[s].end.None?))
  {
    StateIs(m);
    var state := StateOf(m).value;
    FollowedSpans(b, i, m, state, today);
    FollowedTables(b, i, m, state, today);
    ToldFits(b, i, m, state, today);
    assert SeatRunsIffActive(b, i);
    RunningIffOpen(b.spans, i);
    hide SeatFollowed, SeatInv, RunningSpan, LastLeft, Known, StateOf, OpenSpans;
    ToldIs(b, i, m, state, today);
  }

  lemma ToldIs(b: Book, i: nat, m: Membership, state: SeatState, today: Day)
    requires i < |b.seats| && (state == Left ==> m.HasLeft())
    ensures var told, was := ToldOf(b, i, m, state, today), b.seats[i];
            (was.state == Active && state != Active && RunningSpan(b.spans, i).Some? ==>
              told == Ended(RunningSpan(b.spans, i).value, if state == Left then LeftOn(m) else today, if state == Left then Leave else Freeze)) &&
            (was.state != Active && state == Active ==>
              told == Started(if m.startDate != was.startSeen && m.startDate.Some? then m.startDate.value else today))
  {
    hide RunningSpan, LastLeft;
  }

  lemma {:induction false} CountsNone(spans: seq<Span>, i: nat)
    ensures SpanCount(spans, i) == 0 <==> forall t :: 0 <= t < |spans| ==> spans[t].seat != i
  {
    if spans != [] {
      var init := spans[..|spans| - 1];
      CountsNone(init, i);
      assert (forall t :: 0 <= t < |spans| ==> spans[t].seat != i) <==>
             (forall t :: 0 <= t < |init| ==> init[t].seat != i) && spans[|spans| - 1].seat != i;
    }
  }

  lemma {:induction false} CountsOne(spans: seq<Span>, i: nat, r: nat)
    requires r < |spans| && spans[r].seat == i
    ensures SpanCount(spans, i) == 1 <==> forall t :: 0 <= t < |spans| && spans[t].seat == i ==> t == r
  {
    var init := spans[..|spans| - 1];
    CountsNone(init, i);
    if r < |init| {
      CountsOne(init, i, r);
      CountAtLeast(init, i, r);
      assert (forall t :: 0 <= t < |spans| && spans[t].seat == i ==> t == r) <==>
             (forall t :: 0 <= t < |init| && init[t].seat == i ==> t == r) && spans[|spans| - 1].seat != i;
    }
  }

  /** An active seat whose start date lc-up puts right: its span begins on the new date when it is the only span the seat ever
      had, and otherwise nothing moves. */
  lemma StartPutRight(b: Book, i: nat, m: Membership, today: Day) returns (r: nat)
    requires SeatInv(b) && i < |b.seats| && m.price >= 0 && Pays(m) && b.seats[i].state == Active
    ensures r < |b.spans| && b.spans[r].seat == i && b.spans[r].end.None? && SeatFollowed(b, i, m, Active, today).Some?
    ensures SeatFollowed(b, i, m, Active, today).value.spans ==
            if m.startDate.Some? && m.startDate != b.seats[i].startSeen && forall t :: 0 <= t < |b.spans| && b.spans[t].seat == i ==> t == r
            then b.spans[r := b.spans[r].(start := m.startDate.value)] else b.spans
  {
    FollowedSpans(b, i, m, Active, today);
    assert SeatRunsIffActive(b, i);
    RunningIffOpen(b.spans, i);
    r := RunningSpan(b.spans, i).value;
    CountsOne(b.spans, i, r);
    hide SeatFollowed, SeatInv, RunningSpan, LastLeft, OpenSpans, SpanCount;
  }

  // ---------- when a look waits for a person ----------

  /** The running seats the snapshot would end. */
  ghost function WouldEnd(b: Book, snapshot: seq<Membership>): set<nat> {
    set i: nat | i < |b.seats| && b.seats[i].state == Active &&
      exists m :: m in snapshot && SeatIs(b, i, m.student, m.group) && Known(m) && !Pays(m)
  }

  lemma {:induction false} EndsInAppended(b: Book, plan: seq<Item>, item: Item)
    ensures EndsIn(b, plan + [item]) == EndsIn(b, plan) + if Ends(b, item) then 1 else 0
  {
    if plan == [] {
      assert [] + [item] == [item] && [item][1..] == [];
    } else {
      assert (plan + [item])[1..] == plan[1..] + [item];
      EndsInAppended(b, plan[1..], item);
    }
  }

  lemma OneSeatAPlace(b: Book, i: nat, j: nat, student: nat, group: nat)
    requires SeatInv(b) && i < |b.seats| && j < |b.seats| && SeatIs(b, i, student, group) && SeatIs(b, j, student, group)
    ensures i == j
  {
  }

  lemma EndsOne(b: Book, m: Membership)
    requires SeatInv(b)
    ensures var seat := SeatOf(b, m.student, m.group);
            (Planned(b, m) && Ends(b, Item(m, seat, StateOf(m).value)) <==>
              seat.Some? && b.seats[seat.value].state == Active && Known(m) && !Pays(m))
  {
    StateIs(m);
    hide SeatInv;
  }

  lemma OneMoreEnds(b: Book, snapshot: seq<Membership>, m: Membership)
    requires SeatInv(b) && forall x :: x in snapshot ==> Place(x) != Place(m)
    ensures var seat := SeatOf(b, m.student, m.group);
            var ends := seat.Some? && b.seats[seat.value].state == Active && Known(m) && !Pays(m);
            WouldEnd(b, snapshot + [m]) == WouldEnd(b, snapshot) + (if ends then {seat.value} else {}) &&
            (ends ==> seat.value !in WouldEnd(b, snapshot))
  {
    var seat := SeatOf(b, m.student, m.group);
    forall i: nat, x | i < |b.seats| && x in snapshot && SeatIs(b, i, x.student, x.group) ensures seat != Some(i) {
      assert seat == Some(i) ==> SeatIs(b, i, m.student, m.group);
    }
    forall i: nat | i < |b.seats| && SeatIs(b, i, m.student, m.group) ensures seat == Some(i) {
      OneSeatAPlace(b, i, seat.value, m.student, m.group);
    }
    assert forall x :: x in snapshot + [m] <==> x in snapshot || x == m;
    hide SeatInv, Known, Pays, SeatOf;
  }

  lemma PlanOneMore(b: Book, init: seq<Membership>, m: Membership)
    ensures var seat := SeatOf(b, m.student, m.group);
            PlanOf(b, init + [m]) ==
              if Planned(b, m) then PlanOf(b, init) + [Item(m, seat, StateOf(m).value)] else PlanOf(b, init)
  {
    assert (init + [m])[..|init|] == init;
    hide SeatOf, Changed;
  }

  lemma CountedOneMore(b: Book, init: seq<Membership>, m: Membership)
    requires SeatInv(b)
    ensures var seat := SeatOf(b, m.student, m.group);
            EndsIn(b, PlanOf(b, init + [m])) == EndsIn(b, PlanOf(b, init)) +
              if seat.Some? && b.seats[seat.value].state == Active && Known(m) && !Pays(m) then 1 else 0
  {
    var seat := SeatOf(b, m.student, m.group);
    PlanOneMore(b, init, m);
    EndsOne(b, m);
    hide SeatInv, Planned, SeatOf, Known, Pays, Ends, PlanOf;
    if Planned(b, m) {
      EndsInAppended(b, PlanOf(b, init), Item(m, seat, StateOf(m).value));
    }
  }

  lemma SizeOneMore(a: set<nat>, x: nat)
    ensures |a + {x}| == |a| + if x in a then 0 else 1
  {
    if x in a { assert a + {x} == a; }
  }

  lemma {:induction false} EndsAreCounted(b: Book, snapshot: seq<Membership>)
    requires SeatInv(b) && OnePerPlace(snapshot)
    ensures EndsIn(b, PlanOf(b, snapshot)) == |WouldEnd(b, snapshot)|
  {
    if snapshot == [] {
      assert WouldEnd(b, snapshot) == {};
    } else {
      var init, m := snapshot[..|snapshot| - 1], snapshot[|snapshot| - 1];
      assert forall k :: 0 <= k < |init| ==> init[k] == snapshot[k];
      assert snapshot == init + [m] && OnePerPlace(init);
      assert forall x :: x in init ==> Place(x) != Place(m);
      hide *;
      EndsAreCounted(b, init);
      OneMoreEnds(b, init, m);
      CountedOneMore(b, init, m);
      var seat := SeatOf(b, m.student, m.group);
      if seat.Some? {
        SizeOneMore(WouldEnd(b, init), seat.value);
      }
    }
  }

  /** A look waits for a person exactly when it would end more than forty running seats and nobody has allowed it. */
  lemma HeldIff(b: Book, snapshot: seq<Membership>, today: Day, allowMass: bool, failing: set<(nat, nat)>)
    requires SeatInv(b) && OnePerPlace(snapshot) && PlanFits(b, PlanOf(b, snapshot))
    ensures var w := Watch(b, snapshot, today, allowMass, failing);
            (w.held <==> |WouldEnd(b, snapshot)| > 40 && !allowMass) && (w.held ==> w.book == b && w.errors == [])
  {
    EndsAreCounted(b, snapshot);
    hide SeatInv, PlanFits, PlanOf, EndsIn, CarriedOut, WouldEnd;
  }
}
