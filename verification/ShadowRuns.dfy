/** Runs beside lc-up: the opening, ticks, and what people enter, in any order. */
module ShadowRuns {
  import opened Wrappers
  import opened Calendar
  import opened Entries
  import opened Books
  import opened LedgerSafety
  import opened PersonalPrices
  import opened Runs
  import opened Shadow
  import opened ShadowSafety
  import opened Mirror
  import opened OpeningDay

  datatype Beat =
    | Opening(people: seq<Person>, live: seq<Membership>)
    | Watching(snapshot: seq<Membership>, allowMass: bool, failing: set<(nat, nat)>)
    | Mirroring(payments: seq<LcPayment>, opening: nat, failed: set<nat>)
    | Person(change: Change)

  /** What happens besides following the snapshot: the month's billing and what people enter. */
  predicate ByPerson(change: Change) {
    change.Bills? || change.BillsOpen? || change.Enters? || change.TakesBack? || change.Prices?
  }

  ghost predicate Possible(b: Book, today: Day, beat: Beat) {
    match beat
    case Opening(_, _) => b.entries == []
    case Watching(snapshot, _, _) => OnePerPlace(snapshot)
    case Mirroring(_, _, _) => true
    case Person(change) => ByPerson(change) && Legal(b, Event(today, change))
  }

  /** The book after the beat.  An opening that is refused leaves it as it was. */
  ghost function Beaten(b: Book, today: Day, beat: Beat): Book {
    match beat
    case Opening(people, live) =>
      var next := LedgerOpened(b, people, live, today); if next.Some? then next.value else b
    case Watching(snapshot, allowMass, failing) =>
      if PlanFits(b, PlanOf(b, snapshot)) then Watch(b, snapshot, today, allowMass, failing).book else b
    case Mirroring(payments, opening, failed) => Mirrored(b, payments, opening, failed)
    case Person(change) => Step(b, Event(today, change))
  }

  /** What people do changes no seat's state and no span. */
  lemma ByPersonKeepsSeats(b: Book, e: Event)
    requires Inv(b) && ByPerson(e.change) && Legal(b, e)
    ensures var b' := Step(b, e);
            b'.accounts == b.accounts && b'.spans == b.spans && |b'.seats| == |b.seats| &&
            forall i :: 0 <= i < |b.seats| ==> b'.seats[i] == b.seats[i].(personalPrice := b'.seats[i].personalPrice)
  {
    hide SpanBilled, Voided, Posted;
    match e.change
    case BillsOpen(failing) => BillOpenKeepsSpans(b, 0, e.today, failing);
    case Prices(seat, price, reason) =>
      var r := SetPersonalPrice(b, seat, price, reason, e.today);
      if r.Done? && r.value != b {
        var wanted: Option<nat> := if price.None? then None else Some(price.value);
        RepricedTables(b.(seats := b.seats[seat := b.seats[seat].(personalPrice := wanted)]), seat, 0,
                           PriceText(reason), e.today);
      }
    case _ =>
  }

  lemma BeatKeeps(b: Book, today: Day, beat: Beat)
    requires SeatInv(b) && Possible(b, today, beat)
    ensures SeatInv(Beaten(b, today, beat)) && Keeps(b, Beaten(b, today, beat))
  {
    match beat
    case Opening(people, live) =>
      var next := OpeningBalancesAreLcups(b, people, live, today);
      KeepsItself(b);
    case Watching(snapshot, allowMass, failing) =>
      var w := WatchKeeps(b, snapshot, today, allowMass, failing);
    case Mirroring(payments, opening, failed) => MirrorKeeps(b, payments, opening, failed);
    case Person(change) =>
      var e := Event(today, change);
      StepKeeps(b, e);
      ByPersonKeepsSeats(b, e);
      hide Step;
      SeatInvAfter(b, Beaten(b, today, beat), |b.seats|);
  }

  datatype Moment = Moment(today: Day, beat: Beat)

  /** The book after some moments, from an empty one. */
  ghost function Course(moments: seq<Moment>): Book {
    if moments == [] then EMPTY
    else
      var last := moments[|moments| - 1];
      Beaten(Course(moments[..|moments| - 1]), last.today, last.beat)
  }

  /** Every beat can happen when its turn comes. */
  ghost predicate PossibleCourse(moments: seq<Moment>) {
    forall k :: 0 <= k < |moments| ==> Possible(Course(moments[..k]), moments[k].today, moments[k].beat)
  }

  lemma PossibleBefore(moments: seq<Moment>)
    requires PossibleCourse(moments) && moments != []
    ensures PossibleCourse(moments[..|moments| - 1])
    ensures var last := moments[|moments| - 1]; Possible(Course(moments[..|moments| - 1]), last.today, last.beat)
  {
    var init := moments[..|moments| - 1];
    forall k | 0 <= k < |init| ensures Possible(Course(init[..k]), init[k].today, init[k].beat) {
      assert init[..k] == moments[..k];
    }
  }

  /** Over every run of the opening, looks at any snapshots with any failures, copied payments, billing and what people
      enter, from an empty ledger: each seat has at most one open span, and has one exactly when its state is active; and
      every invariant of the ledger holds. */
  lemma {:induction false} EveryRunBesideLcup(moments: seq<Moment>)
    requires PossibleCourse(moments)
    ensures SeatInv(Course(moments))
    ensures moments != [] ==> Keeps(Course(moments[..|moments| - 1]), Course(moments))
  {
    if moments != [] {
      var init, last := moments[..|moments| - 1], moments[|moments| - 1];
      PossibleBefore(moments);
      EveryRunBesideLcup(init);
      hide Possible, Beaten;
      BeatKeeps(Course(init), last.today, last.beat);
    }
  }
}
