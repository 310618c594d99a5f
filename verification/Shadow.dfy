/**
 Following lc-up's snapshot: what one look at the memberships does to seats and spans.  A snapshot gives states, not
 events; each membership is compared with what its seat showed last, and the ledger is told what happened.
 */
module Shadow {
  import opened Wrappers
  import opened Calendar
  import opened Entries
  import opened Books

  datatype Membership = Membership(
    student: nat,
    group: nat,
    groupName: string,
    price: int,
    days: seq<int>,
    status: string,
    startDate: Option<Day>,
    joinedOn: Option<Day>,
    leftOn: Option<Day>,
    groupDeletedOn: Option<Day>)
  {
    predicate HasLeft() { leftOn.Some? || groupDeletedOn.Some? }
  }

  const MAX_ENDS_PER_TICK := 40

  function StateOf(m: Membership): Option<SeatState> {
    if m.HasLeft() then Some(Left)
    else if m.status == "active" then Some(Active)
    else if m.status == "trial" then Some(Trial)
    else if m.status == "frozen" then Some(Frozen)
    else None
  }

  function LeftOn(m: Membership): Day
    requires m.HasLeft()
  {
    if m.leftOn.Some? then m.leftOn.value else m.groupDeletedOn.value
  }

  function FirstPaidDay(m: Membership, today: Day): Day {
    if m.startDate.Some? then m.startDate.value else if m.joinedOn.Some? then m.joinedOn.value else today
  }

  // ---------- finding a seat, an account, a span ----------

  predicate SeatIs(b: Book, i: nat, student: nat, group: nat)
    requires i < |b.seats|
  {
    b.seats[i].lcupGroup == Some(group) && b.seats[i].account < |b.accounts| &&
    b.accounts[b.seats[i].account] == Some(student)
  }

  function SeatAmong(b: Book, n: nat, student: nat, group: nat): (r: Option<nat>)
    requires n <= |b.seats|
    ensures r.Some? ==> r.value < n && SeatIs(b, r.value, student, group)
    ensures r.None? ==> forall i :: 0 <= i < n ==> !SeatIs(b, i, student, group)
  {
    if n == 0 then None
    else if SeatIs(b, n - 1, student, group) then Some(n - 1)
    else SeatAmong(b, n - 1, student, group)
  }

  function SeatOf(b: Book, student: nat, group: nat): (r: Option<nat>)
    ensures r.Some? ==> r.value < |b.seats| && SeatIs(b, r.value, student, group)
    ensures r.None? ==> forall i :: 0 <= i < |b.seats| ==> !SeatIs(b, i, student, group)
  {
    SeatAmong(b, |b.seats|, student, group)
  }

  /** The account of a student, opened when there is none. */
  function AccountAmong(accounts: seq<Option<nat>>, student: nat): (r: nat)
    ensures r <= |accounts| && (r < |accounts| ==> accounts[r] == Some(student))
    ensures r == |accounts| ==> Some(student) !in accounts
  {
    if accounts == [] then 0
    else if accounts[0] == Some(student) then 0 else 1 + AccountAmong(accounts[1..], student)
  }

  function WithAccount(b: Book, student: nat): Book {
    if AccountAmong(b.accounts, student) < |b.accounts| then b else b.(accounts := b.accounts + [Some(student)])
  }

  predicate IsOpen(span: Span, seat: nat) {
    span.seat == seat && span.end.None?
  }

  /** The newest span of the seat without an end. */
  function RunningSpan(spans: seq<Span>, seat: nat): (r: Option<nat>)
    ensures r.Some? ==> r.value < |spans| && IsOpen(spans[r.value], seat)
  {
    if spans == [] then None
    else if IsOpen(spans[|spans| - 1], seat) then Some(|spans| - 1)
    else RunningSpan(spans[..|spans| - 1], seat)
  }

  /** The newest span of the seat that ended by leaving. */
  function LastLeft(spans: seq<Span>, seat: nat): (r: Option<nat>)
    ensures r.Some? ==> r.value < |spans| && spans[r.value].seat == seat && spans[r.value].endedBy == Some(Leave)
  {
    if spans == [] then None
    else if spans[|spans| - 1].seat == seat && spans[|spans| - 1].endedBy == Some(Leave) then Some(|spans| - 1)
    else LastLeft(spans[..|spans| - 1], seat)
  }

  function SpanCount(spans: seq<Span>, seat: nat): nat {
    if spans == [] then 0
    else SpanCount(spans[..|spans| - 1], seat) + if spans[|spans| - 1].seat == seat then 1 else 0
  }

  // ---------- one membership ----------

  predicate Changed(seat: Seat, state: SeatState, m: Membership)
    requires state == Left ==> m.HasLeft()
  {
    seat.group != m.groupName || seat.price != m.price || seat.days != m.days || seat.state != state ||
    m.startDate != seat.startSeen || (state == Left && Some(LeftOn(m)) != seat.leftSeen)
  }

  /** A membership never seen before becomes a seat; the table takes one seat a person and group, and no price below
      zero. */
  function SeatAdded(b: Book, m: Membership, state: SeatState, today: Day): Option<Book> {
    var account := AccountAmong(b.accounts, m.student);
    if m.price < 0 || (exists i :: 0 <= i < |b.seats| && b.seats[i].account == account && b.seats[i].lcupGroup == Some(m.group))
    then None
    else
      var seat := Seat(account, Some(m.group), m.groupName, m.price, None, m.days, state, m.startDate, None);
      var added := WithAccount(b, m.student).(seats := b.seats + [seat]);
      Some(if state == Active then StartSpan(added, |b.seats|, FirstPaidDay(m, today), today, None) else added)
  }

  /** The seat as the snapshot shows it now. */
  function SeatSeen(seat: Seat, m: Membership, state: SeatState): Seat
    requires m.price >= 0 && (state == Left ==> m.HasLeft())
  {
    seat.(group := m.groupName, price := m.price, days := m.days, state := state, startSeen := m.startDate,
          leftSeen := if state == Left then Some(LeftOn(m)) else None)
  }

  const START_MOVED := "lc-up changed the start date"
  const LEAVING_MOVED := "lc-up changed the leaving date"

  function MovedOrSame(b: Book, id: nat, start: Option<Day>, end: Option<Day>, reason: string, today: Day): Book
    requires id < |b.spans| && b.spans[id].seat < |b.seats|
  {
    var moved := MoveSpan(b, id, start, end, reason, today);
    if moved.Some? then moved.value else b
  }

  function SeatFollowed(b: Book, i: nat, m: Membership, state: SeatState, today: Day): Option<Book>
    requires i < |b.seats| && (state == Left ==> m.HasLeft())
  {
    if m.price < 0 then None
    else
      var seat := b.seats[i];
      var startMoved := m.startDate != seat.startSeen;
      var leftOn := if state == Left then Some(LeftOn(m)) else None;
      var leftMoved := seat.state == Left && state == Left && seat.leftSeen != leftOn;
      var seen := b.(seats := b.seats[i := SeatSeen(seat, m, state)]);
      var running := RunningSpan(b.spans, i);
      if seat.state == Active && state != Active then
        if running.None? then Some(seen)
        else if state == Left then Some(EndSpan(seen, running.value, LeftOn(m), Leave, today))
        else Some(EndSpan(seen, running.value, today, Freeze, today))
      else if seat.state != Active && state == Active then
        Some(StartSpan(seen, i, if startMoved && m.startDate.Some? then m.startDate.value else today, today, None))
      else if state == Active && startMoved && m.startDate.Some? && running.Some? && SpanCount(b.spans, i) == 1 then
        Some(MovedOrSame(seen, running.value, m.startDate, None, START_MOVED, today))
      else if leftMoved then
        var last := LastLeft(b.spans, i);
        Some(if last.None? then seen else MovedOrSame(seen, last.value, None, leftOn, LEAVING_MOVED, today))
      else
        Some(seen)
  }

  datatype Item = Item(m: Membership, seat: Option<nat>, state: SeatState)

  predicate ItemOK(b: Book, item: Item) {
    item.seat == SeatOf(b, item.m.student, item.m.group) && Some(item.state) == StateOf(item.m)
  }

  function Applied(b: Book, item: Item, today: Day): Option<Book>
    requires ItemOK(b, item)
  {
    if item.seat.None? then SeatAdded(b, item.m, item.state, today)
    else SeatFollowed(b, item.seat.value, item.m, item.state, today)
  }

  // ---------- one look at the snapshot ----------

  /** Whether the membership has something to tell. */
  predicate Planned(b: Book, m: Membership) {
    StateOf(m).Some? &&
    var seat := SeatOf(b, m.student, m.group);
    if seat.None? then StateOf(m) != Some(Left) else Changed(b.seats[seat.value], StateOf(m).value, m)
  }

  function PlanOf(b: Book, snapshot: seq<Membership>): seq<Item> {
    if snapshot == [] then []
    else
      var m := snapshot[|snapshot| - 1];
      PlanOf(b, snapshot[..|snapshot| - 1]) +
      if Planned(b, m) then [Item(m, SeatOf(b, m.student, m.group), StateOf(m).value)] else []
  }

  predicate Ends(b: Book, item: Item) {
    item.seat.Some? && item.seat.value < |b.seats| && b.seats[item.seat.value].state == Active && item.state != Active
  }

  function EndsIn(b: Book, plan: seq<Item>): nat {
    if plan == [] then 0 else (if Ends(b, plan[0]) then 1 else 0) + EndsIn(b, plan[1..])
  }

  /** The plan carried out item by item.  An item that fails, for whatever reason failing names or because the tables
      refuse it, leaves nothing behind and is listed. */
  function CarriedOut(b: Book, plan: seq<Item>, today: Day, failing: set<(nat, nat)>): (Book, seq<Item>)
    requires PlanFits(b, plan)
    decreases |plan|
  {
    if plan == [] then (b, [])
    else
      var item := plan[0];
      var next := Applied(b, item, today);
      if next.None? || (item.m.student, item.m.group) in failing then
        var rest := CarriedOut(b, plan[1..], today, failing);
        (rest.0, [item] + rest.1)
      else
        AppliedFits(b, plan, today);
        CarriedOut(next.value, plan[1..], today, failing)
  }

  ghost predicate PlanFits(b: Book, plan: seq<Item>) {
    (forall i :: 0 <= i < |plan| ==> ItemOK(b, plan[i])) &&
    (forall i :: 0 <= i < |b.seats| ==> b.seats[i].account < |b.accounts|) &&
    SpansOnSeats(b) &&
    forall i, j :: 0 <= i < j < |plan| ==> Place(plan[i].m) != Place(plan[j].m)
  }

  function Place(m: Membership): (nat, nat) {
    (m.student, m.group)
  }

  // ---------- what one membership does not touch ----------

  /** The seat of a place is the same seat with the same fields. */
  predicate Agrees(b: Book, b': Book, student: nat, group: nat) {
    var seat := SeatOf(b, student, group);
    SeatOf(b', student, group) == seat && (seat.Some? ==> b'.seats[seat.value] == b.seats[seat.value])
  }

  /** b' keeps b's accounts, and its seats but for the seat of one place, changed in place or added. */
  ghost predicate OnlyPlace(b: Book, b': Book, student: nat, group: nat) {
    |b.accounts| <= |b'.accounts| && b'.accounts[..|b.accounts|] == b.accounts &&
    |b.seats| <= |b'.seats| <= |b.seats| + 1 &&
    (forall i :: 0 <= i < |b'.seats| ==> b'.seats[i].account < |b'.accounts|) &&
    (forall i :: 0 <= i < |b.seats| ==>
      b'.seats[i].account == b.seats[i].account && b'.seats[i].lcupGroup == b.seats[i].lcupGroup) &&
    (forall i :: 0 <= i < |b.seats| && b'.seats[i] != b.seats[i] ==> SeatIs(b, i, student, group)) &&
    (|b'.seats| > |b.seats| ==> SeatIs(b', |b.seats|, student, group))
  }

  lemma {:induction false} OtherSeatAmong(b: Book, b': Book, n: nat, student: nat, group: nat)
    requires n <= |b.seats| <= |b'.seats| && |b.accounts| <= |b'.accounts| && b'.accounts[..|b.accounts|] == b.accounts
    requires forall i :: 0 <= i < |b.seats| ==> b.seats[i].account < |b.accounts|
    requires forall i :: 0 <= i < |b.seats| ==>
      b'.seats[i].account == b.seats[i].account && b'.seats[i].lcupGroup == b.seats[i].lcupGroup
    ensures SeatAmong(b', n, student, group) == SeatAmong(b, n, student, group)
  {
    if n > 0 {
      assert b'.accounts[b.seats[n - 1].account] == b'.accounts[..|b.accounts|][b.seats[n - 1].account];
      OtherSeatAmong(b, b', n - 1, student, group);
    }
  }

  lemma OtherPlaceAgrees(b: Book, b': Book, place: (nat, nat), student: nat, group: nat)
    requires OnlyPlace(b, b', place.0, place.1) && (student, group) != place
    requires forall i :: 0 <= i < |b.seats| ==> b.seats[i].account < |b.accounts|
    ensures Agrees(b, b', student, group)
  {
    OtherSeatAmong(b, b', |b.seats|, student, group);
  }

  /** The ledger's operations write spans and rows only, and keep every span on its seat. */
  predicate SameTables(b: Book, b': Book) {
    b'.accounts == b.accounts && b'.seats == b.seats &&
    |b.spans| <= |b'.spans| && forall s :: 0 <= s < |b.spans| ==> b'.spans[s].seat == b.spans[s].seat
  }

  lemma StartKeepsTables(b: Book, seat: nat, day: Day, today: Day)
    requires SpansOnSeats(b) && seat < |b.seats|
    ensures SameTables(b, StartSpan(b, seat, day, today, None)) && SpansOnSeats(StartSpan(b, seat, day, today, None))
  {
    hide SpanBilled, MonthOf;
  }

  lemma EndKeepsTables(b: Book, id: nat, day: Day, why: EndReason, today: Day)
    requires SpansOnSeats(b) && id < |b.spans|
    ensures SameTables(b, EndSpan(b, id, day, why, today)) && SpansOnSeats(EndSpan(b, id, day, why, today))
  {
    hide SpanBilled, Voided, HasLive, MonthOf, Blank;
  }

  lemma MoveKeepsTables(b: Book, id: nat, start: Option<Day>, end: Option<Day>, reason: string, today: Day)
    requires SpansOnSeats(b) && id < |b.spans|
    ensures SameTables(b, MovedOrSame(b, id, start, end, reason, today))
    ensures SpansOnSeats(MovedOrSame(b, id, start, end, reason, today))
  {
    hide SpanBilled, Voided, HasLive, MonthOf, Blank;
  }

  lemma AddedIsOnlyPlace(b: Book, m: Membership, state: SeatState, today: Day)
    requires SeatOf(b, m.student, m.group).None? && SpansOnSeats(b)
    requires forall i :: 0 <= i < |b.seats| ==> b.seats[i].account < |b.accounts|
    ensures var next := SeatAdded(b, m, state, today);
            next.Some? ==> OnlyPlace(b, next.value, m.student, m.group) && SpansOnSeats(next.value)
  {
    var account := AccountAmong(b.accounts, m.student);
    var seat := Seat(account, Some(m.group), m.groupName, if m.price < 0 then 0 else m.price, None, m.days, state, m.startDate, None);
    var added := WithAccount(b, m.student).(seats := b.seats + [seat]);
    StartKeepsTables(added, |b.seats|, FirstPaidDay(m, today), today);
    hide StartSpan, SeatAmong;
  }

  lemma FollowedTables(b: Book, i: nat, m: Membership, state: SeatState, today: Day)
    requires i < |b.seats| && SpansOnSeats(b) && m.price >= 0 && (state == Left ==> m.HasLeft())
    ensures var seen := b.(seats := b.seats[i := SeatSeen(b.seats[i], m, state)]);
            var next := SeatFollowed(b, i, m, state, today);
            next.Some? && SameTables(seen, next.value) && SpansOnSeats(next.value)
  {
    var seen := b.(seats := b.seats[i := SeatSeen(b.seats[i], m, state)]);
    var seat, next := b.seats[i], SeatFollowed(b, i, m, state, today);
    var running, last := RunningSpan(b.spans, i), LastLeft(b.spans, i);
    assert SpansOnSeats(seen) && SameTables(seen, seen);
    hide SameTables, SpansOnSeats, StartSpan, EndSpan, MovedOrSame, SeatSeen, SpanCount, RunningSpan, LastLeft;
    if seat.state == Active && state != Active {
      if running.Some? {
        var day, why := if state == Left then LeftOn(m) else today, if state == Left then Leave else Freeze;
        assert next == Some(EndSpan(seen, running.value, day, why, today));
        EndKeepsTables(seen, running.value, day, why, today);
      } else {
        assert next == Some(seen);
      }
    } else if seat.state != Active && state == Active {
      var day := if m.startDate != seat.startSeen && m.startDate.Some? then m.startDate.value else today;
      assert next == Some(StartSpan(seen, i, day, today, None));
      StartKeepsTables(seen, i, day, today);
    } else if state == Active && next != Some(seen) {
      assert next == Some(MovedOrSame(seen, running.value, m.startDate, None, START_MOVED, today));
      MoveKeepsTables(seen, running.value, m.startDate, None, START_MOVED, today);
    } else if next != Some(seen) {
      assert next == Some(MovedOrSame(seen, last.value, None, Some(LeftOn(m)), LEAVING_MOVED, today));
      MoveKeepsTables(seen, last.value, None, Some(LeftOn(m)), LEAVING_MOVED, today);
    }
  }

  lemma FollowedIsOnlyPlace(b: Book, i: nat, m: Membership, state: SeatState, today: Day)
    requires i < |b.seats| && SeatIs(b, i, m.student, m.group) && SpansOnSeats(b) && (state == Left ==> m.HasLeft())
    requires forall i :: 0 <= i < |b.seats| ==> b.seats[i].account < |b.accounts|
    ensures var next := SeatFollowed(b, i, m, state, today);
            next.Some? ==> OnlyPlace(b, next.value, m.student, m.group) && SpansOnSeats(next.value) &&
                           next.value.seats == b.seats[i := SeatSeen(b.seats[i], m, state)]
  {
    assert m.price < 0 ==> SeatFollowed(b, i, m, state, today).None?;
    if m.price >= 0 {
      FollowedTables(b, i, m, state, today);
    }
    hide SeatFollowed;
  }

  lemma AppliedIsOnlyPlace(b: Book, item: Item, today: Day)
    requires ItemOK(b, item) && SpansOnSeats(b)
    requires forall i :: 0 <= i < |b.seats| ==> b.seats[i].account < |b.accounts|
    ensures var next := Applied(b, item, today);
            next.Some? ==> OnlyPlace(b, next.value, item.m.student, item.m.group) && SpansOnSeats(next.value)
  {
    if item.seat.None? {
      AddedIsOnlyPlace(b, item.m, item.state, today);
    } else {
      FollowedIsOnlyPlace(b, item.seat.value, item.m, item.state, today);
    }
  }

  lemma AppliedFits(b: Book, plan: seq<Item>, today: Day)
    requires PlanFits(b, plan) && plan != []
    ensures var next := Applied(b, plan[0], today); next.Some? ==> PlanFits(next.value, plan[1..])
    ensures PlanFits(b, plan[1..])
  {
    var next := Applied(b, plan[0], today);
    AppliedIsOnlyPlace(b, plan[0], today);
    if next.Some? {
      forall i | 0 <= i < |plan[1..]| ensures ItemOK(next.value, plan[1..][i]) {
        assert ItemOK(b, plan[i + 1]);
        assert Place(plan[0].m) != Place(plan[i + 1].m);
        OtherPlaceAgrees(b, next.value, Place(plan[0].m), plan[i + 1].m.student, plan[i + 1].m.group);
      }
    }
  }

  datatype Watched = Watched(book: Book, errors: seq<Item>, held: bool)

  lemma {:induction false} PlanIsFit(b: Book, snapshot: seq<Membership>)
    requires SpansOnSeats(b) && forall i :: 0 <= i < |b.seats| ==> b.seats[i].account < |b.accounts|
    requires OnePerPlace(snapshot)
    ensures PlanFits(b, PlanOf(b, snapshot))
    ensures forall item :: item in PlanOf(b, snapshot) <==>
      item.m in snapshot && Planned(b, item.m) && ItemOK(b, item)
  {
    if snapshot != [] {
      var rest, m := snapshot[..|snapshot| - 1], snapshot[|snapshot| - 1];
      PlanIsFit(b, rest);
      var plan := PlanOf(b, rest);
      assert snapshot == rest + [m];
      forall i | 0 <= i < |plan| ensures Place(plan[i].m) != Place(m) {
        assert plan[i] in plan;
        var j :| 0 <= j < |rest| && rest[j] == plan[i].m;
        assert snapshot[j] == plan[i].m;
      }
    }
  }

  /** lc-up holds one membership a student and group. */
  ghost predicate OnePerPlace(snapshot: seq<Membership>) {
    forall i, j :: 0 <= i < j < |snapshot| ==> Place(snapshot[i]) != Place(snapshot[j])
  }

  /** One look.  More seats ending at once than a tick may end wait for a person. */
  ghost function Watch(b: Book, snapshot: seq<Membership>, today: Day, allowMass: bool, failing: set<(nat, nat)>): Watched
    requires PlanFits(b, PlanOf(b, snapshot))
  {
    var plan := PlanOf(b, snapshot);
    if EndsIn(b, plan) > MAX_ENDS_PER_TICK && !allowMass then Watched(b, [], true)
    else
      var done := CarriedOut(b, plan, today, failing);
      Watched(done.0, done.1, false)
  }
}
