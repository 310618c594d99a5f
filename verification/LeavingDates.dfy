/** A leaving date lc-up puts right afterwards: which span the correction reaches. */
module LeavingDates {
  import opened Wrappers
  import opened Calendar
  import opened Entries
  import opened Books
  import opened LedgerSafety
  import opened Shadow
  import opened ShadowSafety
  import opened HeardSpans
  import opened Mirror
  import opened OpeningDay
  import opened Runs
  import opened ShadowRuns
  import opened ShadowPaid
  import opened SpanCost
  import opened ClosedForm
  import opened Lessons

  // ---------- the span a leaving ended ----------

  lemma {:induction false} LastLeftIs(spans: seq<Span>, seat: nat)
    ensures var last := LastLeft(spans, seat);
            forall t :: 0 <= t < |spans| && spans[t].seat == seat && spans[t].endedBy == Some(Leave) ==>
              last.Some? && t <= last.value
  {
    if spans != [] {
      LastLeftIs(spans[..|spans| - 1], seat);
      var last := LastLeft(spans, seat);
      forall t | 0 <= t < |spans| && spans[t].seat == seat && spans[t].endedBy == Some(Leave)
        ensures last.Some? && t <= last.value
      {
        if t < |spans| - 1 { assert spans[..|spans| - 1][t] == spans[t]; }
      }
    }
  }

  lemma LastLeftAt(spans: seq<Span>, seat: nat, s: nat)
    requires s < |spans| && spans[s].seat == seat && spans[s].endedBy == Some(Leave)
    requires forall t :: s < t < |spans| && spans[t].seat == seat ==> spans[t].endedBy != Some(Leave)
    ensures LastLeft(spans, seat) == Some(s)
  {
    LastLeftIs(spans, seat);
    hide LastLeft;
  }

  /** A running span is its seat's newest. */
  ghost predicate RunningIsNewest(b: Book) {
    forall s, t :: 0 <= s < t < |b.spans| && b.spans[s].end.None? ==> b.spans[t].seat != b.spans[s].seat
  }

  lemma FollowingKeepsNewest(b: Book, i: nat, m: Membership, state: SeatState, today: Day)
    requires SeatInv(b) && RunningIsNewest(b) && i < |b.seats| && m.price >= 0 && (state == Left ==> m.HasLeft())
    ensures SeatFollowed(b, i, m, state, today).Some? && RunningIsNewest(SeatFollowed(b, i, m, state, today).value)
  {
    FollowedSpans(b, i, m, state, today);
    ToldFits(b, i, m, state, today);
    if ToldOf(b, i, m, state, today).Started? {
      LeftSpansHaveEnded(b, i);
    }
    hide SeatFollowed, ToldOf, SeatInv;
  }

  /** The span a correction would move is the seat's newest, and it ends on the leaving day last seen. */
  ghost predicate Aligned(b: Book, i: nat, s: nat)
    requires i < |b.seats|
  {
    b.seats[i].state == Left && s < |b.spans| && b.spans[s].seat == i && b.spans[s].endedBy == Some(Leave) &&
    b.spans[s].end.Some? && b.spans[s].end == b.seats[i].leftSeen &&
    forall t :: s < t < |b.spans| ==> b.spans[t].seat != i
  }

  /** Leaving from an active seat ends its running span on the leaving day. */
  lemma LeavingAligns(b: Book, i: nat, m: Membership, today: Day) returns (s: nat)
    requires SeatInv(b) && RunningIsNewest(b) && i < |b.seats| && b.seats[i].state == Active
    requires m.price >= 0 && m.HasLeft()
    ensures RunningSpan(b.spans, i) == Some(s)
    ensures SeatFollowed(b, i, m, Left, today).Some? && |SeatFollowed(b, i, m, Left, today).value.seats| == |b.seats|
    ensures Aligned(SeatFollowed(b, i, m, Left, today).value, i, s)
    ensures SeatFollowed(b, i, m, Left, today).value.spans == b.spans[s := EndedAt(b.spans[s], LeftOn(m), Leave)]
  {
    assert SeatRunsIffActive(b, i);
    RunningIffOpen(b.spans, i);
    FollowedSpans(b, i, m, Left, today);
    s := RunningSpan(b.spans, i).value;
    hide SeatFollowed, SeatInv, RunningSpan;
  }

  /** From then on, while the seat stays left, every correction reaches that same span. */
  lemma CorrectionReachesItsSpan(b: Book, i: nat, m: Membership, today: Day, s: nat)
    requires SeatInv(b) && i < |b.seats| && Aligned(b, i, s) && m.price >= 0 && m.HasLeft()
    ensures SeatFollowed(b, i, m, Left, today).Some? && |SeatFollowed(b, i, m, Left, today).value.seats| == |b.seats|
    ensures Aligned(SeatFollowed(b, i, m, Left, today).value, i, s)
    ensures SeatFollowed(b, i, m, Left, today).value.spans[s].end == Some(LeftOn(m))
  {
    LastLeftAt(b.spans, i, s);
    FollowedSpans(b, i, m, Left, today);
    hide SeatFollowed, SeatInv, LastLeft;
  }

  // ---------- a running span is the newest, over every run ----------

  lemma AddingKeepsNewest(b: Book, m: Membership, state: SeatState, today: Day)
    requires SeatInv(b) && RunningIsNewest(b)
    ensures var next := SeatAdded(b, m, state, today); next.Some? ==> RunningIsNewest(next.value)
  {
    hide SpanBilled, AccountAmong;
  }

  lemma {:induction false} CarriedOutKeepsNewest(b: Book, plan: seq<Item>, today: Day, failing: set<(nat, nat)>)
    returns (after: Book, errors: seq<Item>)
    requires SeatInv(b) && PlanFits(b, plan) && RunningIsNewest(b)
    ensures (after, errors) == CarriedOut(b, plan, today, failing)
    ensures RunningIsNewest(after)
    decreases |plan|
  {
    if plan == [] {
      after, errors := b, [];
    } else {
      var item, next := plan[0], Applied(b, plan[0], today);
      assert ItemOK(b, item);
      AppliedFits(b, plan, today);
      AppliedKeeps(b, item, today);
      if item.seat.None? {
        AddingKeepsNewest(b, item.m, item.state, today);
      } else if item.m.price >= 0 {
        FollowingKeepsNewest(b, item.seat.value, item.m, item.state, today);
      }
      assert next.Some? ==> RunningIsNewest(next.value);
      hide Applied, SeatInv, PlanFits, RunningIsNewest;
      if next.None? || (item.m.student, item.m.group) in failing {
        after, errors := CarriedOutKeepsNewest(b, plan[1..], today, failing);
        errors := [item] + errors;
      } else {
        after, errors := CarriedOutKeepsNewest(next.value, plan[1..], today, failing);
      }
    }
  }

  lemma SeatOpenedKeepsNewest(b: Book, holders: set<nat>, m: Membership, today: Day)
    requires SeatInv(b) && RunningIsNewest(b)
    ensures var next := SeatOpened(b, holders, m, today); next.Some? ==> RunningIsNewest(next.value)
  {
    hide SpanBilled, AccountAmong;
  }

  lemma {:induction false} SeatsOpenedKeepNewest(b: Book, holders: set<nat>, live: seq<Membership>, today: Day) returns (next: Option<Book>)
    requires SeatInv(b) && RunningIsNewest(b)
    ensures next == SeatsOpened(b, holders, live, today)
    ensures next.Some? ==> SeatInv(next.value) && RunningIsNewest(next.value)
  {
    if live == [] {
      next := Some(b);
    } else {
      var before := SeatsOpenedKeepNewest(b, holders, live[..|live| - 1], today);
      next := SeatsOpened(b, holders, live, today);
      hide SeatInv, SeatOpened, RunningIsNewest;
      if before.Some? && next.Some? {
        SeatOpenedKeeps(before.value, holders, live[|live| - 1], today);
        SeatOpenedKeepsNewest(before.value, holders, live[|live| - 1], today);
      }
    }
  }

  lemma OpeningKeepsNewest(b: Book, people: seq<Person>, live: seq<Membership>, today: Day)
    requires SeatInv(b) && RunningIsNewest(b) && b.entries == []
    ensures var next := LedgerOpened(b, people, live, today); next.Some? ==> RunningIsNewest(next.value)
  {
    var accounts := AccountsOpenedBalance(b, people, StudentsOf(live), today);
    AccountsOpenedSameSpans(b, people, StudentsOf(live), today);
    if accounts.Some? {
      var seats := SeatsOpenedKeepNewest(accounts.value, OpenedIds(people, StudentsOf(live)), live, today);
    }
  }

  lemma BeatKeepsNewest(b: Book, today: Day, beat: Beat)
    requires SeatInv(b) && RunningIsNewest(b) && Possible(b, today, beat)
    ensures RunningIsNewest(Beaten(b, today, beat))
  {
    match beat
    case Opening(people, live) => OpeningKeepsNewest(b, people, live, today);
    case Watching(snapshot, allowMass, failing) =>
      PlanIsFit(b, snapshot);
      var after, errors := CarriedOutKeepsNewest(b, PlanOf(b, snapshot), today, failing);
    case Mirroring(payments, opening, failed) => MirroredSameSpans(b, payments, opening, failed);
    case Person(change) =>
      ByPersonKeepsSeats(b, Runs.Event(today, change));
      hide Step;
  }

  /** Over every run a running span is its seat's newest, so a leaving from an active seat always aligns. */
  lemma {:induction false} EveryRunRunningIsNewest(moments: seq<Moment>)
    requires PossibleCourse(moments)
    ensures RunningIsNewest(Course(moments))
  {
    if moments != [] {
      var init, last := moments[..|moments| - 1], moments[|moments| - 1];
      PossibleBefore(moments);
      EveryRunRunningIsNewest(init);
      EveryRunBesideLcup(init);
      hide SeatInv, RunningIsNewest, Possible, Beaten;
      BeatKeepsNewest(Course(init), last.today, last.beat);
    }
  }

  // ---------- the family of seats it fails ----------

  /** The seat's spans follow each other; two may share a day, an end and a start both being paid. */
  ghost predicate Apart(spans: seq<Span>, seat: nat) {
    forall s, t :: 0 <= s < t < |spans| && spans[s].seat == seat && spans[t].seat == seat ==>
      spans[s].end.Some? && spans[s].end.value <= spans[t].start
  }

  /** A corrected leaving date keeps a seat's paid stretches apart exactly when no later span of the seat has begun before
      it: the program takes the newest span that ever ended by leaving, which need not be the seat's newest. */
  lemma CorrectionKeepsApartIff(b: Book, i: nat, m: Membership, today: Day, first: nat)
    requires SeatInv(b) && i < |b.seats| && Apart(b.spans, i) && b.seats[i].state == Left && m.price >= 0 && m.HasLeft()
    requires b.seats[i].leftSeen != Some(LeftOn(m)) && LastLeft(b.spans, i) == Some(first)
    ensures SeatFollowed(b, i, m, Left, today).Some?
    ensures Apart(SeatFollowed(b, i, m, Left, today).value.spans, i) <==>
      forall t :: first < t < |b.spans| && b.spans[t].seat == i ==> LeftOn(m) <= b.spans[t].start
  {
    FollowedSpans(b, i, m, Left, today);
    var after := SeatFollowed(b, i, m, Left, today).value.spans;
    assert after == b.spans[first := b.spans[first].(end := Some(LeftOn(m)))];
    hide SeatFollowed, SeatInv, LastLeft;
    if Apart(after, i) {
      forall t | first < t < |b.spans| && b.spans[t].seat == i ensures LeftOn(m) <= b.spans[t].start {
        assert after[t].seat == i && after[first].seat == i;
      }
    }
  }

  /** What lc-up shows of one student in five looks, and the days of the looks. */
  datatype Story = Story(left: Membership, back: Membership, frozen: Membership, gone: Membership, corrected: Membership)

  datatype Days = Days(left: Day, back: Day, frozen: Day, gone: Day, corrected: Day)

  /** The day a returning student's stretch begins: the day they are seen back, or the start date lc-up has moved to. */
  function BackOn(left: Membership, back: Membership, day: Day): Day {
    if back.startDate != left.startDate && back.startDate.Some? then back.startDate.value else day
  }

  function BackFrom(story: Story, on: Days): Day {
    BackOn(story.left, story.back, on.back)
  }

  /** Seen to have left, to be back, to be frozen, and to have left again, each on its day; then the last leaving day put
      right, to a day after the return. */
  predicate Told5(story: Story, on: Days) {
    story.left.price >= 0 && story.back.price >= 0 && story.frozen.price >= 0 && story.gone.price >= 0 &&
    story.corrected.price >= 0 && story.left.HasLeft() && story.gone.HasLeft() && story.corrected.HasLeft() &&
    on.left <= on.back <= on.frozen <= on.gone <= on.corrected &&
    BackFrom(story, on) < LeftOn(story.corrected) && LeftOn(story.gone) != LeftOn(story.corrected)
  }

  predicate Looked(b: Book, i: nat, m: Membership, state: SeatState, day: Day, b': Book) {
    i < |b.seats| && (state == Left ==> m.HasLeft()) && SeatFollowed(b, i, m, state, day) == Some(b')
  }

  /** The books the five looks leave. */
  datatype Looks = Looks(left: Book, back: Book, frozen: Book, gone: Book, corrected: Book)

  /** Each look leads from one book to the next. */
  predicate Follows(b: Book, i: nat, story: Story, on: Days, looks: Looks) {
    Looked(b, i, story.left, Left, on.left, looks.left) && Looked(looks.left, i, story.back, Active, on.back, looks.back) &&
    Looked(looks.back, i, story.frozen, Frozen, on.frozen, looks.frozen) &&
    Looked(looks.frozen, i, story.gone, Left, on.gone, looks.gone) &&
    Looked(looks.gone, i, story.corrected, Left, on.corrected, looks.corrected)
  }

  ghost predicate AllKept(looks: Looks) {
    SeatInv(looks.left) && SeatInv(looks.back) && SeatInv(looks.frozen) && SeatInv(looks.gone) && SeatInv(looks.corrected)
  }

  /** The spans, look by look: the correction of the second leaving day moves the end of the first stretch. */
  ghost predicate SpansTold(start: seq<Span>, i: nat, first: nat, story: Story, on: Days, looks: Looks)
    requires first < |start| && story.left.HasLeft() && story.corrected.HasLeft()
  {
    looks.left.spans == start[first := EndedAt(start[first], LeftOn(story.left), Leave)] &&
    looks.back.spans == looks.left.spans + [Span(i, BackFrom(story, on), None, None, None)] &&
    looks.frozen.spans == looks.back.spans[|start| := EndedAt(looks.back.spans[|start|], on.frozen, Freeze)] &&
    looks.gone.spans == looks.frozen.spans &&
    looks.corrected.spans == looks.gone.spans[first := looks.gone.spans[first].(end := Some(LeftOn(story.corrected)))]
  }

  /** Any active student with such a story ends with two stretches that are not apart: the one that ended at the first
      leaving now ends on the corrected day of the second, and the one begun by the return still ends at the freeze. */
  lemma EarlierSpanStretched(b: Book, i: nat, story: Story, on: Days) returns (looks: Looks, first: nat)
    requires SeatInv(b) && RunningIsNewest(b) && i < |b.seats| && b.seats[i].state == Active && Told5(story, on)
    ensures Follows(b, i, story, on, looks) && AllKept(looks)
    ensures RunningSpan(b.spans, i) == Some(first) && first < |b.spans| && SpansTold(b.spans, i, first, story, on, looks)
    ensures var spans, second := looks.corrected.spans, |b.spans|;
            |spans| == second + 1 && spans[second] == Span(i, BackFrom(story, on), Some(on.frozen), Some(Freeze), None) &&
            spans[first] == b.spans[first].(end := Some(LeftOn(story.corrected)), endedBy := Some(Leave)) && !Apart(spans, i)
  {
    looks, first := FiveLooks(b, i, story, on);
    StretchedOver(b.spans, i, first, story, on, looks);
    hide Follows, SeatInv, RunningSpan, SpansTold, Apart, Told5, RunningIsNewest, AllKept;
  }

  lemma FiveLooks(b: Book, i: nat, story: Story, on: Days) returns (looks: Looks, first: nat)
    requires SeatInv(b) && RunningIsNewest(b) && i < |b.seats| && b.seats[i].state == Active && Told5(story, on)
    ensures Follows(b, i, story, on, looks) && AllKept(looks)
    ensures RunningSpan(b.spans, i) == Some(first) && first < |b.spans| && b.spans[first].seat == i
    ensures SpansTold(b.spans, i, first, story, on, looks)
  {
    var second := |b.spans|;
    assert story.left.price >= 0 && story.back.price >= 0 && story.frozen.price >= 0 && story.gone.price >= 0 && story.corrected.price >= 0;
    assert LeftOn(story.gone) != LeftOn(story.corrected);
    hide SeatInv, RunningSpan, Looked, FirstThenSecond, RunningIsNewest, BackOn, Told5;
    var b1, b2;
    b1, b2, first := LeftAndBack(b, i, story.left, story.back, on.left, on.back);
    var b3 := WasFrozen(b2, i, story.frozen, on.frozen, first, second);
    var b4 := LeftFrozen(b3, i, story.gone, on.gone, first, second);
    var b5 := Corrected(b4, i, story.corrected, on.corrected, first, second);
    looks := Looks(b1, b2, b3, b4, b5);
  }

  /** The dates alone. */
  lemma StretchedOver(start: seq<Span>, i: nat, first: nat, story: Story, on: Days, looks: Looks)
    requires first < |start| && start[first].seat == i && story.left.HasLeft() && story.corrected.HasLeft()
    requires SpansTold(start, i, first, story, on, looks) && BackFrom(story, on) < LeftOn(story.corrected)
    ensures var spans, second := looks.corrected.spans, |start|;
            |spans| == second + 1 && spans[second] == Span(i, BackFrom(story, on), Some(on.frozen), Some(Freeze), None) &&
            spans[first] == start[first].(end := Some(LeftOn(story.corrected)), endedBy := Some(Leave)) && !Apart(spans, i)
  {
    var spans := looks.corrected.spans;
    assert spans[first].seat == i && spans[|start|].seat == i;
    hide BackFrom;
  }

  lemma LeftAndBack(b: Book, i: nat, left: Membership, back: Membership, leftDay: Day, backDay: Day)
    returns (b1: Book, b2: Book, first: nat)
    requires SeatInv(b) && RunningIsNewest(b) && i < |b.seats| && b.seats[i].state == Active
    requires left.price >= 0 && back.price >= 0 && left.HasLeft()
    ensures Looked(b, i, left, Left, leftDay, b1) && Looked(b1, i, back, Active, backDay, b2) && SeatInv(b1) && SeatInv(b2)
    ensures RunningSpan(b.spans, i) == Some(first) && |b1.seats| == |b2.seats| == |b.seats|
    ensures first < |b.spans| && b.spans[first].seat == i && |b2.spans| == |b.spans| + 1
    ensures b2.spans[|b.spans|].end.None?
    ensures b1.spans == b.spans[first := EndedAt(b.spans[first], LeftOn(left), Leave)]
    ensures b2.spans == b1.spans + [Span(i, BackOn(left, back, backDay), None, None, None)]
    ensures FirstThenSecond(b2, i, first, |b.spans|) && b2.seats[i].state == Active
  {
    first := LeavingAligns(b, i, left, leftDay);
    FollowingKeeps(b, i, left, Left, leftDay);
    FollowedSpans(b, i, left, Left, leftDay);
    b1 := SeatFollowed(b, i, left, Left, leftDay).value;
    assert b1.seats[i].startSeen == left.startDate && |b1.spans| == |b.spans|;
    hide SeatFollowed, SeatInv, RunningSpan, ToldOf, Aligned, FirstThenSecond;
    b2 := CameBack(b1, i, left, back, backDay, first);
  }

  lemma Corrected(b: Book, i: nat, m: Membership, today: Day, first: nat, second: nat) returns (after: Book)
    requires SeatInv(b) && i < |b.seats| && FirstThenSecond(b, i, first, second) && m.price >= 0 && m.HasLeft()
    requires b.seats[i].state == Left && b.seats[i].leftSeen != Some(LeftOn(m))
    ensures Looked(b, i, m, Left, today, after) && SeatInv(after) && |after.seats| == |b.seats|
    ensures first < |b.spans| && after.spans == b.spans[first := b.spans[first].(end := Some(LeftOn(m)))]
  {
    CorrectionOnFirst(b, i, m, today, first, second);
    FollowingKeeps(b, i, m, Left, today);
    FollowedSpans(b, i, m, Left, today);
    after := SeatFollowed(b, i, m, Left, today).value;
    hide SeatFollowed, SeatInv, ToldOf;
  }

  /** The seat's newest span but for the one at second, if any, ended by leaving. */
  ghost predicate FirstThenSecond(b: Book, i: nat, first: nat, second: nat)
    requires i < |b.seats|
  {
    first < second && |b.spans| == second + 1 && b.spans[first].seat == i && b.spans[first].endedBy == Some(Leave) &&
    b.spans[first].end.Some? && b.spans[second].seat == i && b.spans[second].endedBy != Some(Leave) &&
    forall t :: first < t < second ==> b.spans[t].seat != i
  }

  lemma CameBack(b: Book, i: nat, left: Membership, back: Membership, today: Day, first: nat) returns (after: Book)
    requires SeatInv(b) && i < |b.seats| && Aligned(b, i, first) && back.price >= 0 && b.seats[i].startSeen == left.startDate
    ensures SeatFollowed(b, i, back, Active, today) == Some(after) && SeatInv(after) && |after.seats| == |b.seats|
    ensures FirstThenSecond(after, i, first, |b.spans|) && after.seats[i].state == Active
    ensures after.spans == b.spans + [Span(i, BackOn(left, back, today), None, None, None)]
  {
    FollowingKeeps(b, i, back, Active, today);
    FollowedSpans(b, i, back, Active, today);
    after := SeatFollowed(b, i, back, Active, today).value;
    hide SeatFollowed, SeatInv;
  }

  lemma {:induction false} RunningAtEnd(spans: seq<Span>, seat: nat)
    requires spans != [] && IsOpen(spans[|spans| - 1], seat)
    ensures RunningSpan(spans, seat) == Some(|spans| - 1)
  {
  }

  lemma FreezeTold(b: Book, i: nat, m: Membership, today: Day, second: nat)
    requires i < |b.seats| && b.seats[i].state == Active && RunningSpan(b.spans, i) == Some(second)
    ensures ToldOf(b, i, m, Frozen, today) == Ended(second, today, Freeze)
  {
    hide RunningSpan;
  }

  lemma WasFrozen(b: Book, i: nat, m: Membership, today: Day, first: nat, second: nat) returns (after: Book)
    requires SeatInv(b) && i < |b.seats| && FirstThenSecond(b, i, first, second) && m.price >= 0
    requires b.seats[i].state == Active && b.spans[second].end.None?
    ensures Looked(b, i, m, Frozen, today, after) && SeatInv(after) && |after.seats| == |b.seats|
    ensures FirstThenSecond(after, i, first, second)
    ensures after.spans == b.spans[second := EndedAt(b.spans[second], today, Freeze)]
    ensures after.seats[i].state == Frozen
  {
    RunningAtEnd(b.spans, i);
    FreezeTold(b, i, m, today, second);
    hide SeatFollowed, SeatInv, RunningSpan, ToldOf;
    FollowingKeeps(b, i, m, Frozen, today);
    FollowedSpans(b, i, m, Frozen, today);
    after := SeatFollowed(b, i, m, Frozen, today).value;
  }

  lemma LeftFrozen(b: Book, i: nat, m: Membership, today: Day, first: nat, second: nat) returns (after: Book)
    requires SeatInv(b) && i < |b.seats| && FirstThenSecond(b, i, first, second) && m.price >= 0 && m.HasLeft()
    requires b.seats[i].state == Frozen
    ensures Looked(b, i, m, Left, today, after) && SeatInv(after) && |after.seats| == |b.seats|
    ensures after.spans == b.spans && after.seats[i].state == Left && after.seats[i].leftSeen == Some(LeftOn(m))
    ensures FirstThenSecond(after, i, first, second)
  {
    FollowingKeeps(b, i, m, Left, today);
    FollowedSpans(b, i, m, Left, today);
    after := SeatFollowed(b, i, m, Left, today).value;
    hide SeatFollowed, SeatInv;
  }

  lemma CorrectionOnFirst(b: Book, i: nat, m: Membership, today: Day, first: nat, second: nat)
    requires SeatInv(b) && i < |b.seats| && FirstThenSecond(b, i, first, second) && m.price >= 0 && m.HasLeft()
    requires b.seats[i].state == Left && b.seats[i].leftSeen != Some(LeftOn(m))
    ensures SeatFollowed(b, i, m, Left, today).Some?
    ensures SeatFollowed(b, i, m, Left, today).value.spans == b.spans[first := b.spans[first].(end := Some(LeftOn(m)))]
  {
    LastLeftAt(b.spans, i, first);
    FollowedSpans(b, i, m, Left, today);
    hide SeatFollowed, SeatInv, LastLeft;
  }

  // ---------- what the overlap costs ----------

  /** The lesson is one of those an ended span's cost counts. */
  predicate Counts(seat: Seat, span: Span, day: Day)
    requires span.end.Some?
  {
    FirstOwed(span) <= MonthOf(day) <= MonthOf(span.end.value) &&
    day in Kept(LessonsInMonth(MonthOf(day), seat.days), Some(span.start), span.end)
  }

  /** A span counts exactly the lessons of its days, in the months the opening does not carry. */
  lemma CountsIff(seat: Seat, span: Span, day: Day)
    requires span.end.Some?
    ensures Counts(seat, span, day) <==>
      IsLesson(seat.days, day) && span.start <= day <= span.end.value && FirstOwed(span) <= MonthOf(day)
  {
    var month := MonthOf(day);
    KeptAre(LessonsInMonth(month, seat.days), Some(span.start), span.end, day);
    LessonsBetweenAre(seat.days, FirstDay(month), FirstDay(month + 1));
    if day <= span.end.value { MonthOfMonotone(day, span.end.value); }
    hide Kept, LessonsBetween, FirstOwed;
  }

  lemma LookPaid(b: Book, billed: seq<int>, i: nat, m: Membership, state: SeatState, today: Day, b': Book)
    requires SeatInv(b) && SettledBy(b, billed, MonthOf(today)) && Looked(b, i, m, state, today, b') && m.price >= 0
    requires m.price == b.seats[i].price && m.days == b.seats[i].days
    ensures SettledBy(b', Rebilled(b, billed, b', MonthOf(today)), MonthOf(today))
    ensures |b'.seats| == |b.seats| && b'.seats[i].price == b.seats[i].price && b'.seats[i].days == b.seats[i].days
    ensures b'.seats[i].personalPrice == b.seats[i].personalPrice && |billed| == |b.spans|
  {
    FollowedPaid(b, billed, i, m, state, today);
    FollowedSpans(b, i, m, state, today);
    assert |billed| == |b.spans|;
    hide SeatFollowed, SettledBy, SeatInv, MonthOf;
  }

  predicate SameTermsTold(seat: Seat, story: Story) {
    seat.price == story.left.price == story.back.price == story.frozen.price == story.gone.price == story.corrected.price &&
    seat.days == story.left.days == story.back.days == story.frozen.days == story.gone.days == story.corrected.days
  }

  /** The month each span was last billed in after the five looks. */
  ghost function BilledLooks(b: Book, billed: seq<int>, looks: Looks, on: Days): (r: seq<int>)
    ensures |r| == |looks.corrected.spans|
  {
    var once := Rebilled(b, billed, looks.left, MonthOf(on.left));
    var twice := Rebilled(looks.left, once, looks.back, MonthOf(on.back));
    var third := Rebilled(looks.back, twice, looks.frozen, MonthOf(on.frozen));
    var fourth := Rebilled(looks.frozen, third, looks.gone, MonthOf(on.gone));
    Rebilled(looks.gone, fourth, looks.corrected, MonthOf(on.corrected))
  }

  /** The month the first stretch was last billed in: that of the correction, if it changed the stretch. */
  function FirstBilled(story: Story, on: Days): Month
    requires story.left.HasLeft() && story.corrected.HasLeft()
  {
    MonthOf(if LeftOn(story.left) == LeftOn(story.corrected) then on.left else on.corrected)
  }

  lemma BilledLooksAre(b: Book, billed: seq<int>, i: nat, first: nat, story: Story, on: Days, looks: Looks)
    requires |billed| == |b.spans| && first < |b.spans| && b.spans[first].end.None?
    requires story.left.HasLeft() && story.corrected.HasLeft() && SpansTold(b.spans, i, first, story, on, looks)
    ensures |looks.corrected.spans| == |b.spans| + 1
    ensures BilledLooks(b, billed, looks, on)[first] == FirstBilled(story, on)
    ensures BilledLooks(b, billed, looks, on)[|b.spans|] == MonthOf(on.frozen)
  {
    hide MonthOf, BackFrom;
  }

  lemma LookPaidLater(b: Book, billed: seq<int>, before: Day, i: nat, m: Membership, state: SeatState, today: Day, b': Book)
    requires SeatInv(b) && SettledBy(b, billed, MonthOf(before)) && before <= today
    requires Looked(b, i, m, state, today, b') && m.price >= 0 && i < |b.seats| && m.price == b.seats[i].price && m.days == b.seats[i].days
    ensures SettledBy(b', Rebilled(b, billed, b', MonthOf(today)), MonthOf(today))
    ensures i < |b'.seats| && b'.seats[i].price == b.seats[i].price && b'.seats[i].days == b.seats[i].days
    ensures b'.seats[i].personalPrice == b.seats[i].personalPrice
  {
    MonthOfMonotone(before, today);
    SettledLater(b, billed, MonthOf(before), MonthOf(today));
    hide SettledBy, SeatInv, MonthOf, Looked, Rebilled;
    LookPaid(b, billed, i, m, state, today, b');
  }

  lemma LooksPaid(b: Book, billed: seq<int>, i: nat, story: Story, on: Days, looks: Looks)
    requires SeatInv(b) && SettledBy(b, billed, MonthOf(on.left)) && i < |b.seats| && Told5(story, on)
    requires SameTermsTold(b.seats[i], story) && Follows(b, i, story, on, looks) && AllKept(looks)
    ensures SettledBy(looks.corrected, BilledLooks(b, billed, looks, on), MonthOf(on.corrected))
    ensures i < |looks.corrected.seats|
    ensures looks.corrected.seats[i].ChargePrice() == b.seats[i].ChargePrice() && looks.corrected.seats[i].days == b.seats[i].days
  {
    hide SettledBy, SeatInv, MonthOf, Rebilled, Looked;
    LookPaidLater(b, billed, on.left, i, story.left, Left, on.left, looks.left);
    var once := Rebilled(b, billed, looks.left, MonthOf(on.left));
    LookPaidLater(looks.left, once, on.left, i, story.back, Active, on.back, looks.back);
    var twice := Rebilled(looks.left, once, looks.back, MonthOf(on.back));
    LookPaidLater(looks.back, twice, on.back, i, story.frozen, Frozen, on.frozen, looks.frozen);
    var third := Rebilled(looks.back, twice, looks.frozen, MonthOf(on.frozen));
    LookPaidLater(looks.frozen, third, on.frozen, i, story.gone, Left, on.gone, looks.gone);
    var fourth := Rebilled(looks.frozen, third, looks.gone, MonthOf(on.gone));
    LookPaidLater(looks.gone, fourth, on.gone, i, story.corrected, Left, on.corrected, looks.corrected);
  }

  /** The span's total is its lessons' whole cost exactly when nothing was missed, which at a price in thousands follows from
      its having been billed through its end. */
  predicate PaidUnlessMissed(b: Book, s: nat, billed: Month)
    requires s < |b.spans| && b.spans[s].seat < |b.seats| && b.spans[s].end.Some?
  {
    var span, seat := b.spans[s], b.seats[b.spans[s].seat];
    -LessonsCost(seat, span) <= SpanTotal(b.entries, s) &&
    (SpanTotal(b.entries, s) == -LessonsCost(seat, span) <==> NothingMissed(seat, span, billed)) &&
    (seat.ChargePrice() % 1000 == 0 && MonthOf(span.end.value) <= billed ==> NothingMissed(seat, span, billed))
  }

  predicate BothCount(seat: Seat, one: Span, two: Span, day: Day) {
    one.end.Some? && two.end.Some? && Counts(seat, one, day) && Counts(seat, two, day)
  }

  /** The lessons both spans count are exactly those from one day to another, in months the opening does not carry. */
  ghost predicate ShareLessons(seat: Seat, one: Span, two: Span, from: Day, to: Day)
    requires one.end.Some? && two.end.Some?
  {
    forall day: Day :: BothCount(seat, one, two, day) <==> IsLesson(seat.days, day) && from <= day <= to && !one.InOpening(MonthOf(day))
  }

  /** Two ended spans of the seat share exactly the lessons of some days; and when there is one, each has been charged what
      it counts unless something was missed. */
  ghost predicate TwiceCharged(b: Book, i: nat, first: nat, second: nat, firstBilled: Month, secondBilled: Month, from: Day, to: Day) {
    first < second < |b.spans| && i < |b.seats| && b.spans[first].seat == b.spans[second].seat == i &&
    b.spans[first].end.Some? && b.spans[second].end.Some? &&
    ShareLessons(b.seats[i], b.spans[first], b.spans[second], from, to) &&
    ((exists day: Day :: BothCount(b.seats[i], b.spans[first], b.spans[second], day)) ==>
      PaidUnlessMissed(b, first, firstBilled) && PaidUnlessMissed(b, second, secondBilled))
  }

  ghost predicate ChargedAgain(b: Book, i: nat, first: nat, second: nat, story: Story, on: Days) {
    story.left.HasLeft() && story.corrected.HasLeft() && first < |b.spans| &&
    TwiceCharged(b, i, first, second, FirstBilled(story, on), MonthOf(on.frozen),
                 Max(b.spans[first].start, BackFrom(story, on)), Min(LeftOn(story.corrected), on.frozen))
  }

  /** With the seat's terms standing still: the lessons the two spans both count are exactly those from the later of their
      starts to the earlier of the corrected day and the freeze, in months the opening does not carry.  When there is one,
      each span has been charged all it counts unless something was missed, so those lessons are charged twice. */
  lemma StretchedIsChargedTwice(b: Book, billed: seq<int>, i: nat, story: Story, on: Days) returns (looks: Looks, first: nat)
    requires SeatInv(b) && RunningIsNewest(b) && i < |b.seats| && b.seats[i].state == Active && Told5(story, on)
    requires SettledBy(b, billed, MonthOf(on.left)) && SameTermsTold(b.seats[i], story)
    ensures Follows(b, i, story, on, looks) && RunningSpan(b.spans, i) == Some(first) && first < |b.spans|
    ensures |looks.corrected.spans| == |b.spans| + 1
    ensures ChargedAgain(looks.corrected, i, first, |b.spans|, story, on)
  {
    assert |billed| == |b.spans| && story.left.HasLeft() && story.corrected.HasLeft();
    hide *;
    looks, first := EarlierSpanStretched(b, i, story, on);
    LooksPaid(b, billed, i, story, on, looks);
    PaidAfterLooks(b, billed, i, first, story, on, looks);
  }

  lemma PaidAfterLooks(b: Book, billed: seq<int>, i: nat, first: nat, story: Story, on: Days, looks: Looks)
    requires |billed| == |b.spans| && first < |b.spans| && b.spans[first].seat == i && b.spans[first].end.None?
    requires story.left.HasLeft() && story.corrected.HasLeft() && SpansTold(b.spans, i, first, story, on, looks)
    requires SettledBy(looks.corrected, BilledLooks(b, billed, looks, on), MonthOf(on.corrected)) && i < |looks.corrected.seats|
    ensures ChargedAgain(looks.corrected, i, first, |b.spans|, story, on)
  {
    var after, second := looks.corrected, |b.spans|;
    BilledLooksAre(b, billed, i, first, story, on, looks);
    var one, two := after.spans[first], after.spans[second];
    assert one.seat == two.seat == i && one.start == b.spans[first].start && one.end == Some(LeftOn(story.corrected));
    assert two.start == BackFrom(story, on) && two.end == Some(on.frozen) && two.openingMonth.None?;
    hide SettledBy, Counts, BothCount, BilledLooks, MonthOf, BackFrom, PaidUnlessMissed, ShareLessons, FirstBilled, SpansTold;
    TwoSpansShare(after.seats[i], one, two);
    PaidWhenShared(after, BilledLooks(b, billed, looks, on), first, second, on.corrected, i);
    SharedAndPaid(after, i, first, second, FirstBilled(story, on), MonthOf(on.frozen),
                  Max(one.start, two.start), Min(one.end.value, two.end.value));
  }

  lemma SharedAndPaid(b: Book, i: nat, first: nat, second: nat, firstBilled: Month, secondBilled: Month, from: Day, to: Day)
    requires first < second < |b.spans| && i < |b.seats| && b.spans[first].seat == b.spans[second].seat == i
    requires b.spans[first].end.Some? && b.spans[second].end.Some?
    requires ShareLessons(b.seats[i], b.spans[first], b.spans[second], from, to)
    requires (exists day: Day :: BothCount(b.seats[i], b.spans[first], b.spans[second], day)) ==>
             PaidUnlessMissed(b, first, firstBilled) && PaidUnlessMissed(b, second, secondBilled)
    ensures TwiceCharged(b, i, first, second, firstBilled, secondBilled, from, to)
  {
  }

  lemma TwoSpansShare(seat: Seat, one: Span, two: Span)
    requires one.end.Some? && two.end.Some? && two.openingMonth.None?
    ensures ShareLessons(seat, one, two, Max(one.start, two.start), Min(one.end.value, two.end.value))
  {
    hide Counts, MonthOf;
    forall day: Day
      ensures BothCount(seat, one, two, day) <==>
              IsLesson(seat.days, day) && Max(one.start, two.start) <= day <= Min(one.end.value, two.end.value) &&
              !one.InOpening(MonthOf(day))
    {
      BothCountIff(seat, one, two, day);
    }
  }

  lemma PaidWhenShared(b: Book, billed: seq<int>, first: nat, second: nat, today: Day, i: nat)
    requires SettledBy(b, billed, MonthOf(today)) && |billed| == |b.spans| && i < |b.seats|
    requires first < |b.spans| && b.spans[first].seat == i && b.spans[first].end.Some? && billed[first] >= 0
    requires second < |b.spans| && b.spans[second].seat == i && b.spans[second].end.Some? && billed[second] >= 0
    ensures (exists day: Day :: BothCount(b.seats[i], b.spans[first], b.spans[second], day)) ==>
            PaidUnlessMissed(b, first, billed[first]) && PaidUnlessMissed(b, second, billed[second])
  {
    hide Counts, SettledBy, PaidUnlessMissed, MonthOf;
    if exists day: Day :: BothCount(b.seats[i], b.spans[first], b.spans[second], day) {
      var day: Day :| BothCount(b.seats[i], b.spans[first], b.spans[second], day);
      OnePaid(b, billed, first, today, day);
      OnePaid(b, billed, second, today, day);
    }
  }

  lemma BothCountIff(seat: Seat, one: Span, two: Span, day: Day)
    requires one.end.Some? && two.end.Some? && two.openingMonth.None?
    ensures BothCount(seat, one, two, day) <==>
            IsLesson(seat.days, day) && Max(one.start, two.start) <= day <= Min(one.end.value, two.end.value) &&
            !one.InOpening(MonthOf(day))
  {
    CountsIff(seat, one, day);
    CountsIff(seat, two, day);
    if one.start <= day { MonthOfMonotone(one.start, day); }
    if two.start <= day { MonthOfMonotone(two.start, day); }
    hide Counts, MonthOf;
  }

  /** A span that counts a lesson owes what it counts. */
  lemma OnePaid(b: Book, billed: seq<int>, s: nat, today: Day, day: Day)
    requires SettledBy(b, billed, MonthOf(today)) && |billed| == |b.spans|
    requires s < |b.spans| && b.spans[s].seat < |b.seats| && b.spans[s].end.Some? && billed[s] >= 0
    requires Counts(b.seats[b.spans[s].seat], b.spans[s], day)
    ensures PaidUnlessMissed(b, s, billed[s])
  {
    var span := b.spans[s];
    CountsIff(b.seats[span.seat], span, day);
    MonthOfMonotone(span.start, day);
    MonthOfMonotone(day, span.end.value);
    assert Inv(b) && SpanSettled(b, s, billed[s]);
    hide SettledBy, SpanSettled, Inv, LessonsCost, NothingMissed, SpanTotal, MonthOf, Counts;
    assert !span.InOpening(MonthOf(span.end.value));
    EndedSpanOwesItsLessons(b, s, billed[s]);
  }
}
