/** Looking twice at the same snapshot: the second look has nothing to tell. */
module ShadowFixpoint {
  import opened Wrappers
  import opened Calendar
  import opened Entries
  import opened Books
  import opened LedgerSafety
  import opened Shadow
  import opened ShadowSafety

  lemma PlannedAgrees(b: Book, b': Book, m: Membership)
    requires Agrees(b, b', m.student, m.group)
    ensures Planned(b', m) == Planned(b, m)
  {
  }

  /** A membership carried out has nothing more to tell. */
  lemma AppliedIsQuiet(b: Book, item: Item, today: Day)
    requires ItemOK(b, item) && Planned(b, item.m) && SpansOnSeats(b)
    requires forall i :: 0 <= i < |b.seats| ==> b.seats[i].account < |b.accounts|
    ensures var next := Applied(b, item, today); next.Some? ==> !Planned(next.value, item.m)
  {
    var next := Applied(b, item, today);
    AppliedIsOnlyPlace(b, item, today);
    if next.Some? {
      if item.seat.None? {
        AddedSeatIs(b, item.m, item.state, today);
      } else {
        FollowedIsOnlyPlace(b, item.seat.value, item.m, item.state, today);
        assert next == SeatFollowed(b, item.seat.value, item.m, item.state, today);
        hide SeatFollowed;
        OtherSeatAmong(b, next.value, |b.seats|, item.m.student, item.m.group);
      }
    }
  }

  lemma AddedSeatIs(b: Book, m: Membership, state: SeatState, today: Day)
    requires SeatOf(b, m.student, m.group).None? && SpansOnSeats(b)
    requires forall i :: 0 <= i < |b.seats| ==> b.seats[i].account < |b.accounts|
    ensures var next := SeatAdded(b, m, state, today);
            next.Some? ==> (SeatOf(next.value, m.student, m.group) == Some(|b.seats|) &&
                            var seat := next.value.seats[|b.seats|];
                            seat.group == m.groupName && seat.price == m.price && seat.days == m.days &&
                            seat.state == state && seat.startSeen == m.startDate)
  {
    var account := AccountAmong(b.accounts, m.student);
    var seat := Seat(account, Some(m.group), m.groupName, if m.price < 0 then 0 else m.price, None, m.days, state, m.startDate, None);
    StartKeepsTables(WithAccount(b, m.student).(seats := b.seats + [seat]), |b.seats|, FirstPaidDay(m, today), today);
    AddedIsOnlyPlace(b, m, state, today);
    hide StartSpan;
  }

  ghost predicate InPlan(plan: seq<Item>, student: nat, group: nat) {
    exists i :: 0 <= i < |plan| && Place(plan[i].m) == (student, group)
  }

  lemma {:induction false} CarriedOutIsQuiet(b: Book, plan: seq<Item>, today: Day, failing: set<(nat, nat)>)
    returns (after: Book, errors: seq<Item>)
    requires PlanFits(b, plan) && forall i :: 0 <= i < |plan| ==> Planned(b, plan[i].m)
    ensures (after, errors) == CarriedOut(b, plan, today, failing)
    ensures forall student: nat, group: nat :: !InPlan(plan, student, group) ==> Agrees(b, after, student, group)
    ensures forall i :: 0 <= i < |plan| && plan[i] !in errors ==> !Planned(after, plan[i].m)
    decreases |plan|
  {
    if plan == [] {
      after, errors := b, [];
    } else {
      assert ItemOK(b, plan[0]) && Planned(b, plan[0].m);
      var next, rest := Applied(b, plan[0], today), plan[1..];
      AppliedFits(b, plan, today);
      AppliedIsQuiet(b, plan[0], today);
      forall student: nat, group: nat | Place(plan[0].m) != (student, group)
        ensures next.Some? ==> Agrees(b, next.value, student, group)
      {
        AppliedLeavesOthers(b, plan, today, student, group);
      }
      assert forall i :: 0 <= i < |rest| ==> rest[i] == plan[i + 1];
      assert !InPlan(rest, plan[0].m.student, plan[0].m.group);
      forall student: nat, group: nat | !InPlan(plan, student, group)
        ensures Place(plan[0].m) != (student, group) && !InPlan(rest, student, group)
      {
        assert Place(plan[0].m) != (student, group);
      }
      forall i | 0 <= i < |rest| ensures Planned(b, rest[i].m) && (next.Some? ==> Planned(next.value, rest[i].m)) {
        assert Planned(b, plan[i + 1].m);
        assert Place(plan[0].m) != Place(plan[i + 1].m);
        if next.Some? { PlannedAgrees(b, next.value, plan[i + 1].m); }
      }
      hide Applied, PlanFits, Planned, ItemOK;
      if next.None? || (plan[0].m.student, plan[0].m.group) in failing {
        var others;
        after, others := CarriedOutIsQuiet(b, rest, today, failing);
        errors := [plan[0]] + others;
        forall i | 0 <= i < |plan| && plan[i] !in errors ensures !Planned(after, plan[i].m) {
          assert plan[0] in errors;
          assert plan[i] == rest[i - 1] && forall x :: x in others ==> x in errors;
        }
      } else {
        after, errors := CarriedOutIsQuiet(next.value, rest, today, failing);
        PlannedAgrees(next.value, after, plan[0].m);
        forall i | 0 <= i < |plan| && plan[i] !in errors ensures !Planned(after, plan[i].m) {
          if i > 0 { assert plan[i] == rest[i - 1]; }
        }
        AgreesThrough(b, next.value, after, plan);
      }
    }
  }

  lemma AgreesThrough(b: Book, next: Book, after: Book, plan: seq<Item>)
    requires forall student: nat, group: nat :: !InPlan(plan, student, group) ==> Agrees(b, next, student, group)
    requires forall student: nat, group: nat :: !InPlan(plan, student, group) ==> Agrees(next, after, student, group)
    ensures forall student: nat, group: nat :: !InPlan(plan, student, group) ==> Agrees(b, after, student, group)
  {
    forall student: nat, group: nat | !InPlan(plan, student, group) ensures Agrees(b, after, student, group) {
      assert Agrees(b, next, student, group) && Agrees(next, after, student, group);
    }
  }

  lemma {:induction false} NothingPlanned(b: Book, snapshot: seq<Membership>)
    requires forall i :: 0 <= i < |snapshot| ==> !Planned(b, snapshot[i])
    ensures PlanOf(b, snapshot) == []
  {
    if snapshot != [] {
      NothingPlanned(b, snapshot[..|snapshot| - 1]);
    }
  }

  lemma QuietEverywhere(b: Book, snapshot: seq<Membership>, plan: seq<Item>, after: Book, i: nat)
    requires OnePerPlace(snapshot) && i < |snapshot|
    requires forall item :: item in plan <==> item.m in snapshot && Planned(b, item.m) && ItemOK(b, item)
    requires forall student: nat, group: nat :: !InPlan(plan, student, group) ==> Agrees(b, after, student, group)
    requires forall i :: 0 <= i < |plan| ==> !Planned(after, plan[i].m)
    ensures !Planned(after, snapshot[i])
  {
    var m := snapshot[i];
    if Planned(b, m) {
      var item := Item(m, SeatOf(b, m.student, m.group), StateOf(m).value);
      assert item in plan;
      var k :| 0 <= k < |plan| && plan[k] == item;
      assert !Planned(after, plan[k].m);
    } else {
      hide Planned;
      assert forall k :: 0 <= k < |plan| ==> plan[k] in plan;
      assert !InPlan(plan, m.student, m.group);
      PlannedAgrees(b, after, m);
    }
  }

  lemma PlanItemsPlanned(b: Book, snapshot: seq<Membership>, plan: seq<Item>)
    requires forall item :: item in plan <==> item.m in snapshot && Planned(b, item.m) && ItemOK(b, item)
    ensures forall i :: 0 <= i < |plan| ==> Planned(b, plan[i].m)
  {
    assert forall i :: 0 <= i < |plan| ==> plan[i] in plan;
  }

  /** After a look that no item failed and no person held, a second look at the same snapshot plans nothing and writes
      nothing, on any later day. */
  lemma SecondWatchPlansNothing(
    b: Book, snapshot: seq<Membership>, today: Day, allowMass: bool, failing: set<(nat, nat)>,
    later: Day, allowMass': bool, failing': set<(nat, nat)>)
    returns (after: Book)
    requires SeatInv(b) && OnePerPlace(snapshot) && PlanFits(b, PlanOf(b, snapshot))
    requires var w := Watch(b, snapshot, today, allowMass, failing); w.errors == [] && !w.held
    ensures after == Watch(b, snapshot, today, allowMass, failing).book
    ensures PlanOf(after, snapshot) == [] && PlanFits(after, [])
    ensures Watch(after, snapshot, later, allowMass', failing') == Watched(after, [], false)
  {
    PlanIsFit(b, snapshot);
    var plan := PlanOf(b, snapshot);
    PlanItemsPlanned(b, snapshot, plan);
    var errors;
    after, errors := CarriedOutIsQuiet(b, plan, today, failing);
    var kept, _ := CarriedOutKeeps(b, plan, today, failing);
    assert after == Watch(b, snapshot, today, allowMass, failing).book && errors == [];
    assert PlanFits(after, []);
    forall i | 0 <= i < |snapshot| ensures !Planned(after, snapshot[i]) {
      hide Planned, Agrees, ItemOK, Watch;
      QuietEverywhere(b, snapshot, plan, after, i);
    }
    NothingPlanned(after, snapshot);
  }
}
