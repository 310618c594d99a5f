/** The watcher at work over the ledger's tables: the loops of a tick, each proved against the functions above. */
module Watchers {
  import opened Wrappers
  import opened Calendar
  import opened Entries
  import opened Books
  import opened LedgerSafety
  import opened Ledgers
  import opened Shadow
  import opened ShadowSafety
  import opened Mirror
  import opened OpeningDay

  method AccountFor(ledger: Ledger, student: nat) returns (account: nat)
    modifies ledger`accounts
    ensures ledger.Tables() == WithAccount(old(ledger.Tables()), student)
    ensures account == AccountAmong(old(ledger.accounts), student)
  {
    account := AccountAmong(ledger.accounts, student);
    if account == |ledger.accounts| {
      ledger.accounts := ledger.accounts + [Some(student)];
    }
  }

  /** One membership, in one transaction: refused leaves everything as it was. */
  method Apply(ledger: Ledger, item: Item, today: Day) returns (refused: bool)
    requires ItemOK(ledger.Tables(), item) && SpansOnSeats(ledger.Tables())
    modifies ledger
    ensures refused <==> Applied(old(ledger.Tables()), item, today).None?
    ensures ledger.Tables() == if refused then old(ledger.Tables()) else Applied(old(ledger.Tables()), item, today).value
  {
    hide SpanBilled, Voided, SeatAmong;
    var m, state := item.m, item.state;
    if m.price < 0 {
      return true;
    }
    if item.seat.None? {
      var known := AccountAmong(ledger.accounts, m.student);
      if exists i :: 0 <= i < |ledger.seats| && ledger.seats[i].account == known && ledger.seats[i].lcupGroup == Some(m.group) {
        return true;
      }
      var account := AccountFor(ledger, m.student);
      var id := |ledger.seats|;
      ledger.seats := ledger.seats +
        [Seat(account, Some(m.group), m.groupName, m.price, None, m.days, state, m.startDate, None)];
      if state == Active {
        var span := ledger.StartSpan(id, FirstPaidDay(m, today), today, None);
      }
      return false;
    }
    var i := item.seat.value;
    var seat := ledger.seats[i];
    var was, startMoved := seat.state, m.startDate != seat.startSeen;
    var leftOn := if state == Left then Some(LeftOn(m)) else None;
    var leftMoved := was == Left && state == Left && seat.leftSeen != leftOn;
    ledger.seats := ledger.seats[i := SeatSeen(seat, m, state)];
    var running := RunningSpan(ledger.spans, i);
    if was == Active && state != Active {
      if running.Some? {
        if state == Left {
          ledger.EndSpan(running.value, leftOn.value, Leave, today);
        } else {
          ledger.EndSpan(running.value, today, Freeze, today);
        }
      }
    } else if was != Active && state == Active {
      var day := if startMoved && m.startDate.Some? then m.startDate.value else today;
      var span := ledger.StartSpan(i, day, today, None);
    } else if state == Active && startMoved && m.startDate.Some? && running.Some? && SpanCount(ledger.spans, i) == 1 {
      var unstored := ledger.MoveSpan(running.value, m.startDate, None, START_MOVED, today);
    } else if leftMoved {
      var last := LastLeft(ledger.spans, i);
      if last.Some? {
        var unstored := ledger.MoveSpan(last.value, None, leftOn, LEAVING_MOVED, today);
      }
    }
    return false;
  }

  /** Every membership that has something to tell, in the snapshot's order. */
  method Plan(b: Book, snapshot: seq<Membership>) returns (plan: seq<Item>)
    ensures plan == PlanOf(b, snapshot)
  {
    plan := [];
    for n := 0 to |snapshot|
      invariant plan == PlanOf(b, snapshot[..n])
    {
      var m := snapshot[n];
      assert snapshot[..n + 1][..n] == snapshot[..n];
      var state := StateOf(m);
      if state.Some? {
        var seat := SeatOf(b, m.student, m.group);
        if (seat.None? && state != Some(Left)) || (seat.Some? && Changed(b.seats[seat.value], state.value, m)) {
          plan := plan + [Item(m, seat, state.value)];
        }
      }
    }
    assert snapshot[..|snapshot|] == snapshot;
  }

  /** How many running seats the plan would end. */
  method CountEnds(b: Book, plan: seq<Item>) returns (ended: nat)
    ensures ended == EndsIn(b, plan)
  {
    ended := 0;
    assert plan[0..] == plan;
    for k := 0 to |plan|
      invariant ended + EndsIn(b, plan[k..]) == EndsIn(b, plan)
    {
      assert plan[k..][1..] == plan[k + 1..];
      if Ends(b, plan[k]) {
        ended := ended + 1;
      }
    }
    assert plan[|plan|..] == [];
  }

  /** The plan's first item, in its own transaction. */
  method CarryFirst(ledger: Ledger, plan: seq<Item>, today: Day, failing: set<(nat, nat)>) returns (failed: bool)
    requires PlanFits(ledger.Tables(), plan) && plan != []
    modifies ledger
    ensures PlanFits(ledger.Tables(), plan[1..])
    ensures CarriedOut(old(ledger.Tables()), plan, today, failing).0 ==
            CarriedOut(ledger.Tables(), plan[1..], today, failing).0
    ensures CarriedOut(old(ledger.Tables()), plan, today, failing).1 ==
            (if failed then [plan[0]] else []) + CarriedOut(ledger.Tables(), plan[1..], today, failing).1
  {
    assert SpansOnSeats(ledger.Tables());
    ghost var fails := CarriedOutStep(ledger.Tables(), plan, today, failing);
    hide PlanFits, Applied, ItemOK, CarriedOut;
    var item := plan[0];
    if (item.m.student, item.m.group) in failing {
      return true;
    }
    failed := Apply(ledger, item, today);
  }

  /** Carry out a plan item by item; the items that failed are listed and leave nothing behind. */
  method CarryOut(ledger: Ledger, plan: seq<Item>, today: Day, failing: set<(nat, nat)>) returns (errors: seq<Item>)
    requires PlanFits(ledger.Tables(), plan)
    modifies ledger
    ensures (ledger.Tables(), errors) == CarriedOut(old(ledger.Tables()), plan, today, failing)
  {
    hide PlanFits, CarriedOut;
    ghost var before := ledger.Tables();
    var rest := plan;
    errors := [];
    while rest != []
      invariant PlanFits(ledger.Tables(), rest)
      invariant CarriedOut(before, plan, today, failing).0 == CarriedOut(ledger.Tables(), rest, today, failing).0
      invariant CarriedOut(before, plan, today, failing).1 == errors + CarriedOut(ledger.Tables(), rest, today, failing).1
      decreases |rest|
    {
      var failed := CarryFirst(ledger, rest, today, failing);
      if failed {
        errors := errors + [rest[0]];
      }
      rest := rest[1..];
    }
    CarriedOutNothing(ledger.Tables(), today, failing);
    assert rest == [] && errors + [] == errors;
    assert CarriedOut(before, plan, today, failing) ==
           (CarriedOut(before, plan, today, failing).0, CarriedOut(before, plan, today, failing).1);
  }

  lemma CarriedOutNothing(b: Book, today: Day, failing: set<(nat, nat)>)
    requires PlanFits(b, [])
    ensures CarriedOut(b, [], today, failing) == (b, [])
  {
  }

  /** One look.  The items that failed are listed; held says the whole look waits for a person. */
  method WatchSnapshot(ledger: Ledger, snapshot: seq<Membership>, today: Day, allowMass: bool, failing: set<(nat, nat)>)
    returns (errors: seq<Item>, held: bool)
    requires SpansOnSeats(ledger.Tables()) && OnePerPlace(snapshot)
    requires forall i :: 0 <= i < |ledger.seats| ==> ledger.seats[i].account < |ledger.accounts|
    modifies ledger
    ensures PlanFits(old(ledger.Tables()), PlanOf(old(ledger.Tables()), snapshot))
    ensures Watched(ledger.Tables(), errors, held) == Watch(old(ledger.Tables()), snapshot, today, allowMass, failing)
  {
    PlanIsFit(ledger.Tables(), snapshot);
    var plan := Plan(ledger.Tables(), snapshot);
    var ended := CountEnds(ledger.Tables(), plan);
    hide PlanFits, CarriedOut, PlanOf, EndsIn;
    if ended > MAX_ENDS_PER_TICK && !allowMass {
      return [], true;
    }
    errors := CarryOut(ledger, plan, today, failing);
    held := false;
  }

  lemma CarriedOutStep(b: Book, plan: seq<Item>, today: Day, failing: set<(nat, nat)>) returns (fails: bool)
    requires PlanFits(b, plan) && plan != []
    ensures ItemOK(b, plan[0]) && PlanFits(b, plan[1..])
    ensures fails <==> Applied(b, plan[0], today).None? || (plan[0].m.student, plan[0].m.group) in failing
    ensures !fails ==> PlanFits(Applied(b, plan[0], today).value, plan[1..])
    ensures CarriedOut(b, plan, today, failing).0 ==
      if fails then CarriedOut(b, plan[1..], today, failing).0
      else CarriedOut(Applied(b, plan[0], today).value, plan[1..], today, failing).0
    ensures CarriedOut(b, plan, today, failing).1 ==
      if fails then [plan[0]] + CarriedOut(b, plan[1..], today, failing).1
      else CarriedOut(Applied(b, plan[0], today).value, plan[1..], today, failing).1
  {
    AppliedFits(b, plan, today);
    assert ItemOK(b, plan[0]);
    fails := Applied(b, plan[0], today).None? || (plan[0].m.student, plan[0].m.group) in failing;
    hide Applied, PlanFits, ItemOK;
  }

  /** One payment that is new or has changed: its old row voided, its row written. */
  method CopyPayment(ledger: Ledger, start: seq<Entry>, p: LcPayment)
    modifies ledger
    ensures ledger.Tables() == Copied(start, old(ledger.Tables()), p)
  {
    Reasons();
    hide FindLive, AccountAmong, Voided, Blank;
    if FindLive(start, PaymentKey(p.id)).Some? {
      ledger.VoidAll(RowWith(PaymentKey(p.id)), CHANGED_PAYMENT);
    }
    var account := AccountFor(ledger, p.student);
    var written := ledger.Post(PaymentRow(p, account));
  }

  lemma SeenOneMore(payments: seq<LcPayment>, p: LcPayment, opening: nat)
    ensures SeenIds(payments + [p], opening) == SeenIds(payments, opening) + if p.id > opening then {p.id} else {}
  {
  }

  /** Copy, change and void lc-up's payments; the ones in failing are left for the next tick. */
  method MirrorPayments(ledger: Ledger, payments: seq<LcPayment>, opening: nat, failing: set<nat>)
    modifies ledger
    ensures ledger.Tables() == Mirrored(old(ledger.Tables()), payments, opening, failing)
  {
    Reasons();
    hide FindLive, SeenIds, Copied, Voided, Blank;
    ghost var before := ledger.Tables();
    var start := ledger.entries;
    var seen: set<nat> := {};
    var k := 0;
    assert payments[0..] == payments && payments[..0] == [];
    NothingSeen(opening);
    while k < |payments|
      invariant k <= |payments| && seen == SeenIds(payments[..k], opening)
      invariant AllCopied(start, ledger.Tables(), payments[k..], opening, failing) ==
                AllCopied(start, before, payments, opening, failing)
    {
      var p := payments[k];
      assert payments[k..][0] == p && payments[k..][1..] == payments[k + 1..];
      assert payments[..k + 1] == payments[..k] + [p];
      SeenOneMore(payments[..k], p, opening);
      if p.id > opening {
        seen := seen + {p.id};
        var row := FindLive(start, PaymentKey(p.id));
        if !(row.Some? && Matches(row.value, p)) && p.id !in failing {
          CopyPayment(ledger, start, p);
        }
      }
      k := k + 1;
    }
    assert payments[..|payments|] == payments && payments[|payments|..] == [];
    ledger.VoidAll(PaymentsOutside(seen), DELETED_PAYMENT);
  }

  lemma NothingSeen(opening: nat)
    ensures SeenIds([], opening) == {}
  {
  }

  // ---------- the opening ----------

  lemma {:induction false} RefusedAccountsStayRefused(
    b: Book, people: seq<Person>, n: nat, inGroup: set<nat>, today: Day)
    requires n <= |people| && AccountsOpened(b, people[..n], inGroup, today).None?
    ensures AccountsOpened(b, people, inGroup, today).None?
    decreases |people| - n
  {
    if n == |people| {
      assert people[..n] == people;
    } else {
      assert people[..n + 1][..n] == people[..n];
      RefusedAccountsStayRefused(b, people, n + 1, inGroup, today);
    }
  }

  lemma {:induction false} RefusedSeatsStayRefused(b: Book, holders: set<nat>, live: seq<Membership>, n: nat, today: Day)
    requires n <= |live| && SeatsOpened(b, holders, live[..n], today).None?
    ensures SeatsOpened(b, holders, live, today).None?
    decreases |live| - n
  {
    if n == |live| {
      assert live[..n] == live;
    } else {
      assert live[..n + 1][..n] == live[..n];
      RefusedSeatsStayRefused(b, holders, live, n + 1, today);
    }
  }

  /** Each person's account and opening balance; refused leaves the rest undone, for the caller to roll back. */
  method OpenAccounts(ledger: Ledger, people: seq<Person>, inGroup: set<nat>, today: Day) returns (refused: bool, holders: set<nat>)
    modifies ledger
    ensures refused <==> AccountsOpened(old(ledger.Tables()), people, inGroup, today).None?
    ensures !refused ==> Some(ledger.Tables()) == AccountsOpened(old(ledger.Tables()), people, inGroup, today)
    ensures !refused ==> holders == OpenedIds(people, inGroup)
  {
    ghost var before := ledger.Tables();
    holders := {};
    for n := 0 to |people|
      invariant Some(ledger.Tables()) == AccountsOpened(before, people[..n], inGroup, today)
      invariant holders == OpenedIds(people[..n], inGroup)
    {
      var p := people[n];
      assert people[..n + 1][..n] == people[..n];
      OpenedOneMore(people[..n], p, inGroup);
      assert people[..n + 1] == people[..n] + [p];
      if p.lcupId in inGroup || p.balance != 0 {
        if Some(p.lcupId) in ledger.accounts {
          RefusedAccountsStayRefused(before, people, n + 1, inGroup, today);
          return true, holders;
        }
        holders := holders + {p.lcupId};
        var account := |ledger.accounts|;
        ledger.accounts := ledger.accounts + [Some(p.lcupId)];
        if p.balance != 0 {
          var written := ledger.Post(OpeningRow(p, account, today));
        }
      }
    }
    assert people[..|people|] == people;
    return false, holders;
  }

  lemma OpenedOneMore(people: seq<Person>, p: Person, inGroup: set<nat>)
    ensures OpenedIds(people + [p], inGroup) == OpenedIds(people, inGroup) + if Opens(p, inGroup) then {p.lcupId} else {}
  {
  }

  method OpenSeat(ledger: Ledger, holders: set<nat>, m: Membership, today: Day) returns (refused: bool)
    modifies ledger
    ensures refused <==> SeatOpened(old(ledger.Tables()), holders, m, today).None?
    ensures ledger.Tables() == if refused then old(ledger.Tables()) else SeatOpened(old(ledger.Tables()), holders, m, today).value
  {
    hide SpanBilled;
    var state := StateOf(m);
    if state.None? {
      return false;
    }
    var account := AccountAmong(ledger.accounts, m.student);
    if m.student !in holders || account == |ledger.accounts| || m.price < 0 ||
       (exists i :: 0 <= i < |ledger.seats| && ledger.seats[i].account == account && ledger.seats[i].lcupGroup == Some(m.group)) {
      return true;
    }
    var id := |ledger.seats|;
    ledger.seats := ledger.seats +
      [Seat(account, Some(m.group), m.groupName, m.price, None, m.days, state.value, m.startDate, None)];
    if state == Some(Active) {
      var span := ledger.StartSpan(id, FirstPaidDay(m, today), today, Some(MonthOf(today)));
    }
    return false;
  }

  method OpenSeats(ledger: Ledger, holders: set<nat>, live: seq<Membership>, today: Day) returns (refused: bool)
    modifies ledger
    ensures refused <==> SeatsOpened(old(ledger.Tables()), holders, live, today).None?
    ensures !refused ==> Some(ledger.Tables()) == SeatsOpened(old(ledger.Tables()), holders, live, today)
  {
    hide SeatOpened;
    ghost var before := ledger.Tables();
    for n := 0 to |live|
      invariant Some(ledger.Tables()) == SeatsOpened(before, holders, live[..n], today)
    {
      assert live[..n + 1][..n] == live[..n];
      refused := OpenSeat(ledger, holders, live[n], today);
      if refused {
        RefusedSeatsStayRefused(before, holders, live, n + 1, today);
        return true;
      }
    }
    assert live[..|live|] == live;
    return false;
  }

  method RollBack(ledger: Ledger, saved: Book)
    modifies ledger
    ensures ledger.Tables() == saved
  {
    ledger.accounts, ledger.seats, ledger.spans := saved.accounts, saved.seats, saved.spans;
    ledger.entries, ledger.openedOn := saved.entries, saved.openedOn;
  }

  /** Open the ledger, all of it or none.  A rehearsal, without apply, answers with the tables it reached and puts back
      the ones it found. */
  method OpenLedger(ledger: Ledger, people: seq<Person>, live: seq<Membership>, today: Day, apply: bool)
    returns (would: Option<Book>)
    modifies ledger
    ensures would == LedgerOpened(old(ledger.Tables()), people, live, today)
    ensures ledger.Tables() == if apply && would.Some? then would.value else old(ledger.Tables())
  {
    if ledger.openedOn.Some? {
      return None;
    }
    var saved := ledger.Tables();
    var refused, holders := OpenAccounts(ledger, people, StudentsOf(live), today);
    if !refused {
      refused := OpenSeats(ledger, holders, live, today);
    }
    if refused {
      RollBack(ledger, saved);
      return None;
    }
    ledger.openedOn := Some(today);
    would := Some(ledger.Tables());
    if !apply {
      RollBack(ledger, saved);
    }
  }
}
