/** Runs alongside lc-up while prices and weekdays stand still: whatever was seen, missed, tried again and put right
    on the way, what every span was charged follows from its dates and from when it was last billed. */
module ShadowPaid {
  import opened Wrappers
  import opened Calendar
  import opened Lessons
  import opened Entries
  import opened Books
  import opened LedgerSafety
  import opened ClosedForm
  import opened SpanCost
  import opened Runs
  import opened Shadow
  import opened ShadowSafety
  import opened HeardSpans
  import opened Mirror
  import opened OpeningDay
  import opened ShadowRuns

  /** The month each span was last billed in, once spans that are new or have changed their dates are billed. */
  function Rebilled(b: Book, billed: seq<int>, b': Book, month: Month): (r: seq<int>)
    ensures |r| == |b'.spans|
  {
    seq(|b'.spans|, s requires 0 <= s < |b'.spans| =>
      if s < |b.spans| && s < |billed| && b'.spans[s] == b.spans[s] then billed[s] else month)
  }

  lemma SameSpansSameBilled(b: Book, billed: seq<int>, b': Book, month: Month)
    requires b'.spans == b.spans && |billed| == |b.spans|
    ensures Rebilled(b, billed, b', month) == billed
  {
  }

  lemma OneSpanRebilled(b: Book, billed: seq<int>, b': Book, month: Month, id: nat)
    requires |billed| == |b.spans| == |b'.spans| && id < |b.spans|
    requires b'.spans == b.spans[id := b'.spans[id]] && b'.spans[id] != b.spans[id]
    ensures Rebilled(b, billed, b', month) == billed[id := month]
  {
  }

  lemma NewSpanBilled(b: Book, billed: seq<int>, b': Book, month: Month)
    requires |billed| == |b.spans| && |b'.spans| == |b.spans| + 1 && b'.spans[..|b.spans|] == b.spans
    ensures Rebilled(b, billed, b', month) == billed + [month]
  {
    assert forall s :: 0 <= s < |b.spans| ==> b'.spans[s] == b'.spans[..|b.spans|][s];
  }

  lemma SettledLater(b: Book, billed: seq<int>, month: Month, later: Month)
    requires SettledBy(b, billed, month) && month <= later
    ensures SettledBy(b, billed, later)
  {
  }

  /** Nothing but what no span depends on has changed. */
  ghost predicate SameForSpans(b: Book, b': Book) {
    SpansOnSeats(b) && b'.spans == b.spans && |b.seats| <= |b'.seats| &&
    (forall i :: 0 <= i < |b.seats| ==> SameTerms(b.seats[i], b'.seats[i])) &&
    forall key :: IsSpanKey(key) ==> FindLive(b'.entries, key) == FindLive(b.entries, key)
  }

  lemma StaysSettled(b: Book, b': Book, billed: seq<int>, month: Month)
    requires SettledBy(b, billed, month) && Inv(b') && SameForSpans(b, b')
    ensures SettledBy(b', billed, month)
  {
    forall s | 0 <= s < |b'.spans| ensures SpanSettled(b', s, billed[s]) {
      assert SpanSettled(b, s, billed[s]);
      var seat, seat', span := b.seats[b.spans[s].seat], b'.seats[b.spans[s].seat], b.spans[s];
      SettledElsewhere(b.entries, b'.entries, seat, span, s, billed[s]);
      SameTermsSameRows(b'.entries, seat, seat', span, s, billed[s]);
    }
  }

  // ---------- the ledger's operations ----------

  lemma StartPaid(b: Book, billed: seq<int>, seat: nat, day: Day, today: Day, opening: Option<Month>)
    requires SettledBy(b, billed, MonthOf(today)) && seat < |b.seats|
    ensures var b' := StartSpan(b, seat, day, today, opening); SettledBy(b', Rebilled(b, billed, b', MonthOf(today)), MonthOf(today))
  {
    var b' := StartSpan(b, seat, day, today, opening);
    StartStaysSettled(b, billed, seat, day, today, opening);
    StartSpanKeeps(b, seat, day, today, opening);
    assert b'.spans == b.spans + [Span(seat, day, None, None, opening)] by { hide SpanBilled; }
    hide StartSpan, Inv, AllSettled, MonthOf;
    NewSpanBilled(b, billed, b', MonthOf(today));
  }

  lemma EndPaid(b: Book, billed: seq<int>, id: nat, day: Day, why: EndReason, today: Day)
    requires SettledBy(b, billed, MonthOf(today)) && id < |b.spans| && b.spans[id].end.None?
    ensures var b' := EndSpan(b, id, day, why, today); SettledBy(b', Rebilled(b, billed, b', MonthOf(today)), MonthOf(today))
  {
    var b' := EndSpan(b, id, day, why, today);
    EndStaysSettled(b, billed, id, day, why, today);
    EndSpanKeeps(b, id, day, why, today);
    assert b'.spans == b.spans[id := b.spans[id].(end := Some(day), endedBy := Some(why))] by { hide SpanBilled, Voided; }
    hide EndSpan, Inv, AllSettled, MonthOf;
    OneSpanRebilled(b, billed, b', MonthOf(today), id);
  }

  lemma MovePaid(b: Book, billed: seq<int>, id: nat, start: Option<Day>, end: Option<Day>, reason: string, today: Day)
    requires SettledBy(b, billed, MonthOf(today)) && id < |b.spans| && !Blank(reason)
    ensures var b' := MovedOrSame(b, id, start, end, reason, today);
            SettledBy(b', Rebilled(b, billed, b', MonthOf(today)), MonthOf(today))
  {
    var b' := MovedOrSame(b, id, start, end, reason, today);
    MovedSpans(b, id, start, end, reason, today);
    MovedIfDatesChange(b, id, start, end, reason, today);
    MoveStaysSettled(b, billed, id, start, end, reason, today);
    MoveSpanKeeps(b, id, start, end, reason, today);
    hide MoveSpan, Inv, AllSettled, MonthOf, Blank;
    if b'.spans == b.spans {
      SameSpansSameBilled(b, billed, b', MonthOf(today));
    } else {
      assert b'.spans[id] != b.spans[id];
      OneSpanRebilled(b, billed, b', MonthOf(today), id);
    }
  }

  // ---------- following the snapshot ----------

  /** lc-up says what it said about the seat's price and weekdays. */
  predicate Steady(b: Book, m: Membership, seat: Option<nat>) {
    seat.Some? && seat.value < |b.seats| ==> m.price == b.seats[seat.value].price && m.days == b.seats[seat.value].days
  }

  lemma SeenPaid(b: Book, billed: seq<int>, month: Month, i: nat, m: Membership, state: SeatState)
    requires SeatInv(b) && SettledBy(b, billed, month) && i < |b.seats| && m.price >= 0 && (state == Left ==> m.HasLeft())
    requires m.price == b.seats[i].price && m.days == b.seats[i].days
    ensures SettledBy(b.(seats := b.seats[i := SeatSeen(b.seats[i], m, state)]), billed, month)
  {
    SeenKeeps(b, i, m, state);
    hide SettledBy, FindLive;
    StaysSettled(b, b.(seats := b.seats[i := SeatSeen(b.seats[i], m, state)]), billed, month);
  }

  lemma HeardPaid(seen: Book, billed: seq<int>, i: nat, told: Told, today: Day)
    requires SettledBy(seen, billed, MonthOf(today)) && i < |seen.seats|
    requires told.Ended? ==> told.span < |seen.spans| && seen.spans[told.span].end.None?
    requires told.StartMoved? || told.EndMoved? ==> told.span < |seen.spans|
    ensures SpansOnSeats(seen) && |billed| == |seen.spans|
    ensures var b' := Heard(seen, i, told, today); SettledBy(b', Rebilled(seen, billed, b', MonthOf(today)), MonthOf(today))
  {
    assert SpansOnSeats(seen) && |billed| == |seen.spans|;
    assert START_MOVED[0] == 'l' && LEAVING_MOVED[0] == 'l';
    assert !Blank(START_MOVED) && !Blank(LEAVING_MOVED);
    hide EndSpan, StartSpan, MovedOrSame, MonthOf, Blank, SettledBy, Rebilled;
    match told
    case Nothing => SameSpansSameBilled(seen, billed, seen, MonthOf(today));
    case Ended(s, day, why) => EndPaid(seen, billed, s, day, why, today);
    case Started(day) => StartPaid(seen, billed, i, day, today, None);
    case StartMoved(s, day) => MovePaid(seen, billed, s, Some(day), None, START_MOVED, today);
    case EndMoved(s, day) => MovePaid(seen, billed, s, None, Some(day), LEAVING_MOVED, today);
  }

  lemma FollowedPaid(b: Book, billed: seq<int>, i: nat, m: Membership, state: SeatState, today: Day)
    requires SeatInv(b) && SettledBy(b, billed, MonthOf(today)) && i < |b.seats| && m.price >= 0
    requires (state == Left ==> m.HasLeft()) && Steady(b, m, Some(i))
    ensures SeatFollowed(b, i, m, state, today).Some?
    ensures var b' := SeatFollowed(b, i, m, state, today).value;
            SettledBy(b', Rebilled(b, billed, b', MonthOf(today)), MonthOf(today))
  {
    var seen := b.(seats := b.seats[i := SeatSeen(b.seats[i], m, state)]);
    SeenPaid(b, billed, MonthOf(today), i, m, state);
    ToldFits(b, i, m, state, today);
    FollowedIsHeard(b, i, m, state, today);
    var told := ToldOf(b, i, m, state, today);
    var b' := SeatFollowed(b, i, m, state, today).value;
    hide SeatFollowed, ToldOf, SettledBy, MonthOf, Heard;
    HeardPaid(seen, billed, i, told, today);
    assert Rebilled(seen, billed, b', MonthOf(today)) == Rebilled(b, billed, b', MonthOf(today));
  }

  lemma SeatAppendedPaid(b: Book, billed: seq<int>, month: Month, b': Book)
    requires SettledBy(b, billed, month) && Inv(b') && b'.spans == b.spans && b'.entries == b.entries
    requires |b.seats| <= |b'.seats| && b'.seats[..|b.seats|] == b.seats
    ensures SettledBy(b', billed, month)
  {
    forall i | 0 <= i < |b.seats| ensures SameTerms(b.seats[i], b'.seats[i]) {
      assert b'.seats[i] == b'.seats[..|b.seats|][i];
    }
    hide FindLive, SameTerms;
    StaysSettled(b, b', billed, month);
  }

  lemma AddedPaid(b: Book, billed: seq<int>, m: Membership, state: SeatState, today: Day)
    requires SeatInv(b) && SettledBy(b, billed, MonthOf(today)) && SeatAdded(b, m, state, today).Some?
    ensures var b' := SeatAdded(b, m, state, today).value; SettledBy(b', Rebilled(b, billed, b', MonthOf(today)), MonthOf(today))
  {
    var known := WithAccount(b, m.student);
    var seat := Seat(AccountAmong(b.accounts, m.student), Some(m.group), m.groupName, m.price, None, m.days, state,
                     m.startDate, None);
    var added := known.(seats := known.seats + [seat]);
    WithAccountKeeps(b, m.student);
    SeatAppendedKeeps(known, seat);
    SeatAppendedPaid(b, billed, MonthOf(today), added);
    assert |billed| == |b.spans|;
    var b' := SeatAdded(b, m, state, today).value;
    if state == Active {
      var day := FirstPaidDay(m, today);
      StartPaid(added, billed, |b.seats|, day, today, None);
      assert b' == StartSpan(added, |b.seats|, day, today, None);
      hide SettledBy, StartSpan, MonthOf, SeatAdded;
      assert Rebilled(added, billed, b', MonthOf(today)) == Rebilled(b, billed, b', MonthOf(today));
    } else {
      hide SettledBy, MonthOf;
      SameSpansSameBilled(b, billed, b', MonthOf(today));
    }
  }

  lemma AppliedPaid(b: Book, billed: seq<int>, item: Item, today: Day)
    requires SeatInv(b) && SettledBy(b, billed, MonthOf(today)) && ItemOK(b, item) && Steady(b, item.m, item.seat)
    requires Applied(b, item, today).Some?
    ensures var b' := Applied(b, item, today).value; SettledBy(b', Rebilled(b, billed, b', MonthOf(today)), MonthOf(today))
  {
    if item.seat.None? {
      AddedPaid(b, billed, item.m, item.state, today);
    } else {
      FollowedPaid(b, billed, item.seat.value, item.m, item.state, today);
    }
    hide SettledBy, Rebilled, MonthOf;
  }

  lemma SteadyElsewhere(b: Book, plan: seq<Item>, today: Day, i: nat)
    requires PlanFits(b, plan) && 0 < i < |plan| && Steady(b, plan[i].m, plan[i].seat)
    ensures var next := Applied(b, plan[0], today);
            next.Some? ==> Steady(next.value, plan[i].m, plan[i].seat)
  {
    assert ItemOK(b, plan[i]) && ItemOK(b, plan[0]) && Place(plan[0].m) != Place(plan[i].m);
    AppliedLeavesOthers(b, plan, today, plan[i].m.student, plan[i].m.group);
    hide Applied, SeatOf;
  }

  /** Only spans of the item's seat change. */
  ghost predicate OnlySpansOf(b: Book, b': Book, seat: Option<nat>) {
    |b.spans| <= |b'.spans| && forall s :: 0 <= s < |b.spans| ==>
      b'.spans[s].seat == b.spans[s].seat && (b'.spans[s] != b.spans[s] ==> seat == Some(b.spans[s].seat))
  }

  lemma AppliedTouches(b: Book, item: Item, today: Day)
    requires SeatInv(b) && ItemOK(b, item) && Applied(b, item, today).Some?
    ensures OnlySpansOf(b, Applied(b, item, today).value, item.seat)
  {
    if item.seat.None? {
      AddedTouches(b, item.m, item.state, today);
    } else {
      FollowedTouches(b, item.seat.value, item.m, item.state, today);
    }
    hide OnlySpansOf, SeatAdded, SeatFollowed;
  }

  lemma FollowedTouches(b: Book, i: nat, m: Membership, state: SeatState, today: Day)
    requires SeatInv(b) && i < |b.seats| && (state == Left ==> m.HasLeft()) && SeatFollowed(b, i, m, state, today).Some?
    ensures OnlySpansOf(b, SeatFollowed(b, i, m, state, today).value, Some(i))
  {
    assert m.price >= 0;
    FollowedSpans(b, i, m, state, today);
    ToldIsItsOwn(b, i, m, state, today);
    hide SeatFollowed, ToldOf, SeatInv;
    HeardTouches(b, SeatFollowed(b, i, m, state, today).value, i, ToldOf(b, i, m, state, today));
    hide *;
  }

  lemma HeardTouches(b: Book, b': Book, i: nat, told: Told)
    requires told.Ended? || told.StartMoved? || told.EndMoved? ==> told.span < |b.spans| && b.spans[told.span].seat == i
    requires b'.spans == SpansHeard(b.spans, i, told)
    ensures OnlySpansOf(b, b', Some(i))
  {
  }

  lemma AddedTouches(b: Book, m: Membership, state: SeatState, today: Day)
    requires SeatAdded(b, m, state, today).Some?
    ensures OnlySpansOf(b, SeatAdded(b, m, state, today).value, None)
  {
    hide SpanBilled, AccountAmong;
  }

  lemma ToldIsItsOwn(b: Book, i: nat, m: Membership, state: SeatState, today: Day)
    requires i < |b.seats| && (state == Left ==> m.HasLeft())
    ensures var told := ToldOf(b, i, m, state, today);
            told.Ended? || told.StartMoved? || told.EndMoved? ==> told.span < |b.spans| && b.spans[told.span].seat == i
  {
  }

  /** Two items of a plan are never about the same seat. */
  lemma SeatsDiffer(b: Book, plan: seq<Item>, k: nat)
    requires PlanFits(b, plan) && 0 < k < |plan| && plan[0].seat.Some?
    ensures plan[k].seat != plan[0].seat
  {
    assert ItemOK(b, plan[0]) && ItemOK(b, plan[k]) && Place(plan[0].m) != Place(plan[k].m);
    hide SeatOf;
  }

  lemma RebilledTwice(b: Book, billed: seq<int>, next: Book, after: Book, month: Month, seat: Option<nat>)
    requires |billed| == |b.spans| && OnlySpansOf(b, next, seat) && |next.spans| <= |after.spans|
    requires forall s :: 0 <= s < |next.spans| && seat == Some(next.spans[s].seat) ==> after.spans[s] == next.spans[s]
    ensures Rebilled(next, Rebilled(b, billed, next, month), after, month) == Rebilled(b, billed, after, month)
  {
    var once := Rebilled(b, billed, next, month);
    forall s | 0 <= s < |after.spans|
      ensures Rebilled(next, once, after, month)[s] == Rebilled(b, billed, after, month)[s]
    {
      if s < |b.spans| && next.spans[s] != b.spans[s] { assert after.spans[s] == next.spans[s]; }
    }
  }

  ghost predicate NotIn(plan: seq<Item>, seat: nat) {
    forall k :: 0 <= k < |plan| ==> plan[k].seat != Some(seat)
  }

  lemma {:induction false} CarriedOutPaid(b: Book, billed: seq<int>, plan: seq<Item>, today: Day, failing: set<(nat, nat)>)
    returns (after: Book, errors: seq<Item>)
    requires SeatInv(b) && PlanFits(b, plan) && SettledBy(b, billed, MonthOf(today))
    requires forall i :: 0 <= i < |plan| ==> Steady(b, plan[i].m, plan[i].seat)
    ensures (after, errors) == CarriedOut(b, plan, today, failing)
    ensures SettledBy(after, Rebilled(b, billed, after, MonthOf(today)), MonthOf(today))
    ensures |b.spans| <= |after.spans|
    ensures forall s :: 0 <= s < |b.spans| && NotIn(plan, b.spans[s].seat) ==> after.spans[s] == b.spans[s]
    decreases |plan|
  {
    assert |billed| == |b.spans|;
    if plan == [] {
      after, errors := b, [];
      SameSpansSameBilled(b, billed, b, MonthOf(today));
    } else {
      assert ItemOK(b, plan[0]);
      var next, rest := Applied(b, plan[0], today), plan[1..];
      AppliedFits(b, plan, today);
      AppliedKeeps(b, plan[0], today);
      assert forall i :: 0 <= i < |rest| ==> rest[i] == plan[i + 1];
      if next.None? || (plan[0].m.student, plan[0].m.group) in failing {
        hide Applied, SeatInv, SettledBy, PlanFits, Steady, Rebilled, MonthOf;
        after, errors := CarriedOutPaid(b, billed, rest, today, failing);
        errors := [plan[0]] + errors;
      } else {
        AppliedPaid(b, billed, plan[0], today);
        AppliedTouches(b, plan[0], today);
        forall i | 0 <= i < |rest|
          ensures Steady(next.value, rest[i].m, rest[i].seat)
          ensures plan[0].seat.Some? ==> rest[i].seat != plan[0].seat
        {
          SteadyElsewhere(b, plan, today, i + 1);
          if plan[0].seat.Some? { SeatsDiffer(b, plan, i + 1); }
        }
        hide Applied, SeatInv, SettledBy, PlanFits, Steady, Rebilled, MonthOf;
        after, errors := CarriedOutPaid(next.value, Rebilled(b, billed, next.value, MonthOf(today)), rest, today, failing);
        RebilledTwice(b, billed, next.value, after, MonthOf(today), plan[0].seat);
      }
    }
  }

  ghost predicate SteadySnapshot(b: Book, snapshot: seq<Membership>) {
    forall m :: m in snapshot ==> Steady(b, m, SeatOf(b, m.student, m.group))
  }

  lemma WatchPaid(b: Book, billed: seq<int>, snapshot: seq<Membership>, today: Day, allowMass: bool, failing: set<(nat, nat)>)
    requires SeatInv(b) && SettledBy(b, billed, MonthOf(today)) && OnePerPlace(snapshot) && SteadySnapshot(b, snapshot)
    ensures PlanFits(b, PlanOf(b, snapshot))
    ensures var b' := Watch(b, snapshot, today, allowMass, failing).book;
            SettledBy(b', Rebilled(b, billed, b', MonthOf(today)), MonthOf(today))
  {
    PlanIsFit(b, snapshot);
    var plan := PlanOf(b, snapshot);
    forall i | 0 <= i < |plan| ensures Steady(b, plan[i].m, plan[i].seat) {
      assert plan[i] in plan && plan[i].m in snapshot && ItemOK(b, plan[i]);
    }
    assert |billed| == |b.spans|;
    SameSpansSameBilled(b, billed, b, MonthOf(today));
    var after, errors := CarriedOutPaid(b, billed, plan, today, failing);
    hide SettledBy, Rebilled, MonthOf;
  }

  // ---------- payments, the opening, and what people enter ----------

  lemma PutInPlaceTouchesNoSpan(b: Book, row: Entry, replace: bool, reason: string, key: Key)
    requires Inv(b) && IsSpanKey(key) && !IsSpanKey(row.key) && row.Live()
    ensures FindLive(Posted(if replace then Voided(b.entries, RowWith(row.key), reason) else b.entries, row), key) ==
            FindLive(b.entries, key)
  {
    var choice := RowWith(row.key);
    var rows := if replace then Voided(b.entries, choice, reason) else b.entries;
    assert !TakesKey(choice, key);
    hide FindLive, Voided, Posted, TakesKey, IsSpanKey;
    assert FindLive(rows, key) == FindLive(b.entries, key) by { FindSpanKeyVoided(b, choice, reason, key); }
    FindPosted(rows, row, key);
    hide Inv;
  }

  lemma CopiedTouchesNoSpan(start: seq<Entry>, b: Book, p: LcPayment, key: Key)
    requires Inv(b) && IsSpanKey(key)
    ensures FindLive(Copied(start, b, p).entries, key) == FindLive(b.entries, key)
  {
    hide FindLive, Voided, AccountAmong, Posted, Inv;
    PutInPlaceTouchesNoSpan(b, PaymentRow(p, AccountAmong(b.accounts, p.student)),
                            FindLive(start, PaymentKey(p.id)).Some?, CHANGED_PAYMENT, key);
  }

  lemma {:induction false} AllCopiedPaid(
    start: seq<Entry>, b: Book, billed: seq<int>, month: Month, payments: seq<LcPayment>, opening: nat, failing: set<nat>)
    returns (after: Book)
    requires SeatInv(b) && SettledBy(b, billed, month)
    ensures after == AllCopied(start, b, payments, opening, failing)
    ensures SeatInv(after) && SettledBy(after, billed, month)
    decreases |payments|
  {
    if payments == [] {
      after := b;
    } else {
      var p := payments[0];
      var copied := Copied(start, b, p);
      CopiedKeeps(start, b, p);
      forall key | IsSpanKey(key) ensures FindLive(copied.entries, key) == FindLive(b.entries, key) {
        CopiedTouchesNoSpan(start, b, p, key);
      }
      assert SameForSpans(b, copied);
      hide FindLive, SeatInv, SettledBy, SameForSpans;
      if p.id <= opening || !ToCopy(start, p) || p.id in failing {
        after := AllCopiedPaid(start, b, billed, month, payments[1..], opening, failing);
      } else {
        InvOfSeatInv(copied);
        StaysSettled(b, copied, billed, month);
        after := AllCopiedPaid(start, copied, billed, month, payments[1..], opening, failing);
      }
    }
  }

  lemma InvOfSeatInv(b: Book)
    requires SeatInv(b)
    ensures Inv(b)
  {
  }

  lemma MirrorPaid(b: Book, billed: seq<int>, month: Month, payments: seq<LcPayment>, opening: nat, failing: set<nat>)
    requires SeatInv(b) && SettledBy(b, billed, month)
    ensures SettledBy(Mirrored(b, payments, opening, failing), billed, month)
  {
    var copied := AllCopiedPaid(b.entries, b, billed, month, payments, opening, failing);
    var after := Mirrored(b, payments, opening, failing);
    var choice := PaymentsOutside(SeenIds(payments, opening));
    MirrorKeeps(b, payments, opening, failing);
    forall key | IsSpanKey(key) ensures FindLive(after.entries, key) == FindLive(copied.entries, key) {
      FindSpanKeyVoided(copied, choice, DELETED_PAYMENT, key);
    }
    hide FindLive;
    StaysSettled(copied, after, billed, month);
  }

  lemma AccountOpenedPaid(b: Book, billed: seq<int>, month: Month, p: Person, today: Day)
    requires SeatInv(b) && SettledBy(b, billed, month) && Some(p.lcupId) !in b.accounts
    ensures SettledBy(AccountOpened(b, p, today), billed, month)
  {
    var after := AccountOpened(b, p, today);
    AccountOpenedKeeps(b, p, today);
    forall key | IsSpanKey(key) ensures FindLive(after.entries, key) == FindLive(b.entries, key) {
      FindPosted(b.entries, OpeningRow(p, |b.accounts|, today), key);
    }
    hide FindLive;
    StaysSettled(b, after, billed, month);
  }

  lemma {:induction false} AccountsOpenedPaid(
    b: Book, billed: seq<int>, month: Month, people: seq<Person>, inGroup: set<nat>, today: Day) returns (next: Option<Book>)
    requires SeatInv(b) && SettledBy(b, billed, month)
    ensures next == AccountsOpened(b, people, inGroup, today)
    ensures next.Some? ==> SeatInv(next.value) && SettledBy(next.value, billed, month)
  {
    if people == [] {
      next := Some(b);
    } else {
      var rest, p := people[..|people| - 1], people[|people| - 1];
      var before := AccountsOpenedPaid(b, billed, month, rest, inGroup, today);
      next := AccountsOpened(b, people, inGroup, today);
      hide SeatInv, SettledBy;
      if before.Some? && next.Some? && Opens(p, inGroup) {
        AccountOpenedKeeps(before.value, p, today);
        AccountOpenedPaid(before.value, billed, month, p, today);
      }
    }
  }

  lemma SeatOpenedPaid(b: Book, holders: set<nat>, billed: seq<int>, m: Membership, today: Day)
    requires SeatInv(b) && SettledBy(b, billed, MonthOf(today)) && SeatOpened(b, holders, m, today).Some?
    ensures var b' := SeatOpened(b, holders, m, today).value;
            SettledBy(b', Rebilled(b, billed, b', MonthOf(today)), MonthOf(today)) && |b.spans| <= |b'.spans| && b'.spans[..|b.spans|] == b.spans
  {
    var b', month := SeatOpened(b, holders, m, today).value, MonthOf(today);
    assert |billed| == |b.spans|;
    if StateOf(m).Some? {
      var account := AccountAmong(b.accounts, m.student);
      var seat := Seat(account, Some(m.group), m.groupName, m.price, None, m.days, StateOf(m).value, m.startDate, None);
      var added := b.(seats := b.seats + [seat]);
      SeatAppendedKeeps(b, seat);
      SeatAppendedPaid(b, billed, month, added);
      if StateOf(m) == Some(Active) {
        var day := FirstPaidDay(m, today);
        StartPaid(added, billed, |b.seats|, day, today, Some(month));
        assert b' == StartSpan(added, |b.seats|, day, today, Some(month));
        assert b'.spans == b.spans + [Span(|b.seats|, day, None, None, Some(month))] by { hide SpanBilled; }
        hide SettledBy, StartSpan, MonthOf, SeatOpened;
        assert Rebilled(added, billed, b', month) == Rebilled(b, billed, b', month);
      } else {
        SameSpansSameBilled(b, billed, b', month);
      }
    } else {
      SameSpansSameBilled(b, billed, b', month);
    }
  }

  lemma RebilledOpening(b: Book, billed: seq<int>, next: Book, after: Book, month: Month)
    requires |billed| == |b.spans| <= |next.spans| <= |after.spans|
    requires next.spans[..|b.spans|] == b.spans && after.spans[..|next.spans|] == next.spans
    ensures Rebilled(next, Rebilled(b, billed, next, month), after, month) == Rebilled(b, billed, after, month)
    ensures after.spans[..|b.spans|] == b.spans
  {
    assert forall s :: 0 <= s < |b.spans| ==> next.spans[s] == next.spans[..|b.spans|][s];
    assert forall s :: 0 <= s < |next.spans| ==> after.spans[s] == after.spans[..|next.spans|][s];
  }

  lemma {:induction false} SeatsOpenedPaid(b: Book, holders: set<nat>, billed: seq<int>, live: seq<Membership>, today: Day)
    returns (next: Option<Book>)
    requires SeatInv(b) && SettledBy(b, billed, MonthOf(today))
    ensures next == SeatsOpened(b, holders, live, today)
    ensures next.Some? ==> SeatInv(next.value) && SettledBy(next.value, Rebilled(b, billed, next.value, MonthOf(today)), MonthOf(today))
    ensures next.Some? ==> |b.spans| <= |next.value.spans| && next.value.spans[..|b.spans|] == b.spans
  {
    assert |billed| == |b.spans|;
    if live == [] {
      next := Some(b);
      SameSpansSameBilled(b, billed, b, MonthOf(today));
    } else {
      var before := SeatsOpenedPaid(b, holders, billed, live[..|live| - 1], today);
      next := SeatsOpened(b, holders, live, today);
      hide SeatInv, SettledBy, SeatOpened, Rebilled, MonthOf;
      if before.Some? && next.Some? {
        var once := Rebilled(b, billed, before.value, MonthOf(today));
        SeatOpenedKeeps(before.value, holders, live[|live| - 1], today);
        SeatOpenedPaid(before.value, holders, once, live[|live| - 1], today);
        RebilledOpening(b, billed, before.value, next.value, MonthOf(today));
      }
    }
  }

  lemma OpeningPaid(b: Book, billed: seq<int>, people: seq<Person>, live: seq<Membership>, today: Day)
    returns (next: Option<Book>)
    requires SeatInv(b) && SettledBy(b, billed, MonthOf(today)) && b.entries == []
    ensures next == LedgerOpened(b, people, live, today)
    ensures next.Some? ==> SettledBy(next.value, Rebilled(b, billed, next.value, MonthOf(today)), MonthOf(today))
  {
    next := OpeningBalancesAreLcups(b, people, live, today);
    var accounts := AccountsOpenedPaid(b, billed, MonthOf(today), people, StudentsOf(live), today);
    if accounts.Some? {
      AccountsOpenedSameSpans(b, people, StudentsOf(live), today);
      var seats := SeatsOpenedPaid(accounts.value, OpenedIds(people, StudentsOf(live)), billed, live, today);
      if seats.Some? && next.Some? {
        var after := Rebilled(accounts.value, billed, seats.value, MonthOf(today));
        assert after == Rebilled(b, billed, next.value, MonthOf(today));
        assert SameForSpans(seats.value, next.value);
        hide SettledBy, Rebilled, MonthOf, FindLive, LedgerOpened, AccountsOpened, SeatsOpened, SameForSpans;
        InvOfSeatInv(next.value);
        StaysSettled(seats.value, next.value, after, MonthOf(today));
      }
    }
  }

  lemma {:induction false} AccountsOpenedSameSpans(b: Book, people: seq<Person>, inGroup: set<nat>, today: Day)
    ensures var next := AccountsOpened(b, people, inGroup, today); next.Some? ==> next.value.spans == b.spans
  {
    if people != [] {
      AccountsOpenedSameSpans(b, people[..|people| - 1], inGroup, today);
    }
  }

  // ---------- the run ----------

  /** The beat changes no price or weekday. */
  ghost predicate SteadyBeat(b: Book, beat: Beat) {
    match beat
    case Opening(_, _) => true
    case Watching(snapshot, _, _) => SteadySnapshot(b, snapshot)
    case Mirroring(_, _, _) => true
    case Person(change) => !change.Prices?
  }

  /** The beat bills the span: the span is new, its dates have changed, or it was billed alone or with all that run, without
      failing. */
  ghost predicate BilledInBeat(b: Book, today: Day, beat: Beat, s: nat) {
    s >= |b.spans| || s >= |Beaten(b, today, beat).spans| || Beaten(b, today, beat).spans[s] != b.spans[s] ||
    (beat.Person? && BilledIn(b, Runs.Event(today, beat.change), s))
  }

  ghost function BilledAfterBeat(b: Book, billed: seq<int>, today: Day, beat: Beat): (r: seq<int>)
    ensures |r| == |Beaten(b, today, beat).spans|
  {
    seq(|Beaten(b, today, beat).spans|, s requires 0 <= s =>
      if BilledInBeat(b, today, beat, s) || s >= |billed| then MonthOf(today) else billed[s])
  }

  lemma NotByPerson(b: Book, billed: seq<int>, today: Day, beat: Beat)
    requires !beat.Person? && |billed| == |b.spans|
    ensures BilledAfterBeat(b, billed, today, beat) == Rebilled(b, billed, Beaten(b, today, beat), MonthOf(today))
  {
    hide Beaten, MonthOf;
  }

  lemma PersonPaid(b: Book, billed: seq<int>, today: Day, change: Change)
    requires SettledBy(b, billed, MonthOf(today)) && Possible(b, today, Beat.Person(change)) && !change.Prices?
    ensures SettledBy(Beaten(b, today, Beat.Person(change)), BilledAfterBeat(b, billed, today, Beat.Person(change)), MonthOf(today))
  {
    var e := Runs.Event(today, change);
    StepKeeps(b, e);
    StepStaysSettled(b, billed, e);
    ByPersonKeepsSeats(b, e);
    assert BilledAfterBeat(b, billed, today, Beat.Person(change)) == BilledAfter(b, billed, e) by { hide Step, MonthOf, BilledIn; }
    hide Step, MonthOf, Inv, AllSettled, BilledIn;
  }

  lemma BeatPaid(b: Book, billed: seq<int>, today: Day, beat: Beat)
    requires SeatInv(b) && SettledBy(b, billed, MonthOf(today))
    requires Possible(b, today, beat) && SteadyBeat(b, beat)
    ensures SettledBy(Beaten(b, today, beat), BilledAfterBeat(b, billed, today, beat), MonthOf(today))
  {
    assert |billed| == |b.spans|;
    if !beat.Person? {
      NotByPerson(b, billed, today, beat);
    }
    hide BilledAfterBeat, SettledBy, Rebilled, MonthOf;
    match beat
    case Opening(people, live) =>
      var next := OpeningPaid(b, billed, people, live, today);
      SameSpansSameBilled(b, billed, b, MonthOf(today));
    case Watching(snapshot, allowMass, failing) => WatchPaid(b, billed, snapshot, today, allowMass, failing);
    case Mirroring(payments, opening, failed) =>
      MirrorPaid(b, billed, MonthOf(today), payments, opening, failed);
      MirroredSameSpans(b, payments, opening, failed);
      SameSpansSameBilled(b, billed, Mirrored(b, payments, opening, failed), MonthOf(today));
    case Person(change) => PersonPaid(b, billed, today, change);
  }

  lemma {:induction false} CopiedSameSpans(start: seq<Entry>, b: Book, payments: seq<LcPayment>, opening: nat, failing: set<nat>)
    ensures AllCopied(start, b, payments, opening, failing).spans == b.spans
    decreases |payments|
  {
    if payments != [] {
      CopiedSameSpans(start, b, payments[1..], opening, failing);
      CopiedSameSpans(start, Copied(start, b, payments[0]), payments[1..], opening, failing);
    }
  }

  lemma MirroredSameSpans(b: Book, payments: seq<LcPayment>, opening: nat, failing: set<nat>)
    ensures Mirrored(b, payments, opening, failing).spans == b.spans
  {
    CopiedSameSpans(b.entries, b, payments, opening, failing);
  }

  /** The month each span was last billed in, over a course. */
  ghost function BilledCourse(moments: seq<Moment>): (r: seq<int>)
    ensures |r| == |Course(moments).spans|
  {
    if moments == [] then []
    else
      var last := moments[|moments| - 1];
      BilledAfterBeat(Course(moments[..|moments| - 1]), BilledCourse(moments[..|moments| - 1]), last.today, last.beat)
  }

  /** A course whose prices and weekdays stand still and whose days do not go back. */
  ghost predicate SteadyCourse(moments: seq<Moment>) {
    PossibleCourse(moments) &&
    (forall k :: 0 <= k < |moments| ==> SteadyBeat(Course(moments[..k]), moments[k].beat)) &&
    forall j, k :: 0 <= j < k < |moments| ==> moments[j].today <= moments[k].today
  }

  lemma SteadyBeforeLast(moments: seq<Moment>)
    requires SteadyCourse(moments) && moments != []
    ensures SteadyCourse(moments[..|moments| - 1])
    ensures var b, last := Course(moments[..|moments| - 1]), moments[|moments| - 1];
            Possible(b, last.today, last.beat) && SteadyBeat(b, last.beat)
  {
    var init := moments[..|moments| - 1];
    PossibleBefore(moments);
    forall k | 0 <= k < |init| ensures SteadyBeat(Course(init[..k]), init[k].beat) {
      assert init[..k] == moments[..k];
    }
    hide Possible, SteadyBeat, Beaten;
  }

  /** Over every course every span's live rows are the closed form for its dates, its opening month and the last month it was
      billed in. */
  lemma {:induction false} EveryRunPaid(moments: seq<Moment>)
    requires SteadyCourse(moments)
    ensures Inv(Course(moments)) && AllSettled(Course(moments), BilledCourse(moments))
    ensures moments != [] ==> SettledBy(Course(moments), BilledCourse(moments), MonthOf(moments[|moments| - 1].today))
  {
    if moments != [] {
      var init, last := moments[..|moments| - 1], moments[|moments| - 1];
      SteadyBeforeLast(moments);
      EveryRunPaid(init);
      EveryRunBesideLcup(init);
      var b, billed, month := Course(init), BilledCourse(init), MonthOf(last.today);
      if init == [] {
        assert SettledBy(b, billed, month);
      } else {
        MonthOfMonotone(init[|init| - 1].today, last.today);
        SettledLater(b, billed, MonthOf(init[|init| - 1].today), month);
      }
      hide SeatInv, Possible, SteadyBeat, Beaten, BilledAfterBeat, MonthOf, Inv, AllSettled, BilledBy;
      BeatPaid(b, billed, last.today, last.beat);
    }
  }

  /** The k-th beat bills the span, in the month or later. */
  ghost predicate BilledAtBeat(moments: seq<Moment>, k: nat, id: nat, month: Month) {
    k < |moments| && BilledInBeat(Course(moments[..k]), moments[k].today, moments[k].beat, id) && month <= MonthOf(moments[k].today)
  }

  lemma BilledAtBeatBefore(moments: seq<Moment>, init: seq<Moment>, k: nat, id: nat, month: Month)
    requires moments != [] && init == moments[..|moments| - 1] && k < |init|
    ensures BilledAtBeat(moments, k, id, month) <==> BilledAtBeat(init, k, id, month)
  {
    assert init[..k] == moments[..k];
  }

  lemma BilledLastBeat(moments: seq<Moment>, id: nat, month: Month)
    requires SteadyCourse(moments) && moments != [] && id < |Course(moments).spans|
    requires var last := moments[|moments| - 1]; BilledInBeat(Course(moments[..|moments| - 1]), last.today, last.beat, id)
    ensures month <= BilledCourse(moments)[id] <==> exists k :: BilledAtBeat(moments, k, id, month)
  {
    var last := moments[|moments| - 1];
    assert BilledAtBeat(moments, |moments| - 1, id, month) <==> month <= MonthOf(last.today);
    forall k: nat | BilledAtBeat(moments, k, id, month) ensures month <= MonthOf(last.today) {
      if k < |moments| - 1 { MonthOfMonotone(moments[k].today, last.today); }
    }
    hide Course, BilledInBeat, MonthOf;
  }

  lemma BilledEarlierBeat(moments: seq<Moment>, init: seq<Moment>, id: nat, month: Month)
    requires moments != [] && init == moments[..|moments| - 1]
    requires var last := moments[|moments| - 1]; !BilledInBeat(Course(init), last.today, last.beat, id)
    ensures (exists k :: BilledAtBeat(moments, k, id, month)) <==> exists k :: BilledAtBeat(init, k, id, month)
  {
    if exists k :: BilledAtBeat(moments, k, id, month) {
      var k :| BilledAtBeat(moments, k, id, month);
      assert k != |moments| - 1;
      BilledAtBeatBefore(moments, init, k, id, month);
      assert BilledAtBeat(init, k, id, month);
    }
    if exists k :: BilledAtBeat(init, k, id, month) {
      var k :| BilledAtBeat(init, k, id, month);
      BilledAtBeatBefore(moments, init, k, id, month);
      assert BilledAtBeat(moments, k, id, month);
    }
  }

  /** A span was last billed in or after a month exactly when some beat then or later began it, changed its dates or billed
      it. */
  lemma {:induction false} BilledSinceBeat(moments: seq<Moment>, id: nat, month: Month)
    requires SteadyCourse(moments) && id < |Course(moments).spans|
    ensures month <= BilledCourse(moments)[id] <==> exists k :: BilledAtBeat(moments, k, id, month)
  {
    if moments != [] {
      var init, last := moments[..|moments| - 1], moments[|moments| - 1];
      SteadyBeforeLast(moments);
      if BilledInBeat(Course(init), last.today, last.beat, id) {
        BilledLastBeat(moments, id, month);
      } else {
        BilledSinceBeat(init, id, month);
        BilledEarlierBeat(moments, init, id, month);
        assert BilledCourse(moments)[id] == BilledCourse(init)[id];
        hide BilledAtBeat, BilledCourse, Course;
      }
    }
  }

  // ---------- the ledger's promise ----------

  lemma SettledInCourse(moments: seq<Moment>, id: nat)
    requires SteadyCourse(moments) && id < |Course(moments).spans|
    ensures Inv(Course(moments)) && Course(moments).spans[id].seat < |Course(moments).seats|
    ensures SpanSettled(Course(moments), id, BilledCourse(moments)[id])
  {
    EveryRunPaid(moments);
    hide Course, BilledCourse, SpanSettled;
  }

  /** From an empty ledger, over every run of the opening, looks at any snapshots with any failures, copied payments, billing
      and money by hand, prices and weekdays standing still: a span that has ended has been charged, less what was given
      back, exactly what the lessons it owes cost, if and only if nothing was missed; and never more.  At a price in thousands
      nothing was missed when it was billed in its last month or later. */
  lemma EveryoneWhoLeftPaidTheirLessons(moments: seq<Moment>, id: nat)
    requires SteadyCourse(moments) && id < |Course(moments).spans|
    requires var span := Course(moments).spans[id]; span.end.Some? && !span.InOpening(span.EndMonth().value)
    ensures Course(moments).spans[id].seat < |Course(moments).seats|
    ensures var b := Course(moments); var span, seat := b.spans[id], b.seats[b.spans[id].seat];
            if span.end.value < span.start then SpanTotal(b.entries, id) == 0
            else -LessonsCost(seat, span) <= SpanTotal(b.entries, id) &&
                 (SpanTotal(b.entries, id) == -LessonsCost(seat, span) <==> NothingMissed(seat, span, BilledCourse(moments)[id])) &&
                 (seat.ChargePrice() % 1000 == 0 && (exists k :: BilledAtBeat(moments, k, id, MonthOf(span.end.value))) ==>
                  SpanTotal(b.entries, id) == -LessonsCost(seat, span))
  {
    var span := Course(moments).spans[id];
    SettledInCourse(moments, id);
    BilledSinceBeat(moments, id, MonthOf(span.end.value));
    hide Course, BilledCourse, SpanSettled, SpanTotal, LessonsCost, NothingMissed, MonthOf, Inv, BilledAtBeat;
    EndedOwes(Course(moments), id, BilledCourse(moments)[id]);
  }

  lemma EndedOwes(b: Book, id: nat, billed: int)
    requires Inv(b) && id < |b.spans| && b.spans[id].end.Some? && SpanSettled(b, id, billed)
    requires !b.spans[id].InOpening(b.spans[id].EndMonth().value)
    ensures var span, seat := b.spans[id], b.seats[b.spans[id].seat];
            if span.end.value < span.start then SpanTotal(b.entries, id) == 0
            else -LessonsCost(seat, span) <= SpanTotal(b.entries, id) &&
                 (SpanTotal(b.entries, id) == -LessonsCost(seat, span) <==> NothingMissed(seat, span, billed)) &&
                 (seat.ChargePrice() % 1000 == 0 && MonthOf(span.end.value) <= billed ==> NothingMissed(seat, span, billed))
  {
    var span := b.spans[id];
    if span.end.value < span.start {
      MonthOfMonotone(span.end.value, span.start);
      assert span.EndMonth() == Some(MonthOf(span.start));
      hide SpanSettled, SpanTotal, MonthOf, Inv;
      EndedBeforeStartOwesNothing(b, id, billed);
    } else {
      MonthOfMonotone(span.start, span.end.value);
      assert span.EndMonth() == Some(MonthOf(span.end.value));
      hide SpanSettled, SpanTotal, LessonsCost, NothingMissed, MonthOf, Inv;
      EndedSpanOwesItsLessons(b, id, billed);
    }
  }

  /** What a span owes that runs, or that ended in a month the opening balance carries. */
  function OtherwiseOwed(seat: Seat, span: Span, billed: int): int {
    if span.end.None? then -RunningCost(seat, span, FirstOwed(span), billed)
    else
      var month := span.EndMonth().value;
      if month <= billed then Max(0, Whole(seat, span, month) - Reached(seat, span, month)) else 0
  }

  /** And the rest of the spans: one that ended in a month the opening balance carries was only given lessons back, once that
      month was billed; one that still runs has been charged every month it owes up to the last one billed. */
  lemma EveryoneElseOwes(moments: seq<Moment>, id: nat)
    requires SteadyCourse(moments) && id < |Course(moments).spans|
    requires var span := Course(moments).spans[id]; span.end.Some? ==> span.InOpening(span.EndMonth().value)
    ensures Course(moments).spans[id].seat < |Course(moments).seats|
    ensures var b := Course(moments);
            SpanTotal(b.entries, id) == OtherwiseOwed(b.seats[b.spans[id].seat], b.spans[id], BilledCourse(moments)[id])
  {
    SettledInCourse(moments, id);
    ElseOwes(Course(moments), id, BilledCourse(moments)[id]);
    hide *;
  }

  lemma ElseOwes(b: Book, id: nat, billed: int)
    requires Inv(b) && id < |b.spans| && SpanSettled(b, id, billed)
    requires b.spans[id].end.Some? ==> b.spans[id].InOpening(b.spans[id].EndMonth().value)
    ensures SpanTotal(b.entries, id) == OtherwiseOwed(b.seats[b.spans[id].seat], b.spans[id], billed)
  {
    if b.spans[id].end.None? {
      RunningSpanOwes(b, id, billed);
    } else {
      EndedInOpeningGivesBack(b, id, billed);
    }
    hide SpanSettled, SpanTotal, MonthOf, Inv, Whole, Reached, RunningCost, FirstOwed;
  }
}
