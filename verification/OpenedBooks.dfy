/** When the ledger can be opened, and what it holds then, told from lc-up's people and memberships themselves. */
module OpenedBooks {
  import opened Wrappers
  import opened Calendar
  import opened Lessons
  import opened Entries
  import opened Books
  import opened LedgerSafety
  import opened BilledMonths
  import opened Shadow
  import opened ShadowSafety
  import opened OpeningDay
  import opened SeenStates

  /** Someone of a group, or with a balance either way. */
  ghost predicate GetsAccount(people: seq<Person>, live: seq<Membership>, k: nat)
    requires k < |people|
  {
    people[k].balance != 0 || exists m :: m in live && m.student == people[k].lcupId
  }

  lemma OpensIs(people: seq<Person>, live: seq<Membership>, k: nat)
    requires k < |people|
    ensures Opens(people[k], StudentsOf(live)) <==> GetsAccount(people, live, k)
  {
  }

  /** The first day a membership pays from. */
  function PaidFrom(m: Membership, today: Day): Day {
    if m.startDate.Some? then m.startDate.value else if m.joinedOn.Some? then m.joinedOn.value else today
  }

  // ---------- one seat ----------

  /** The seat of a membership the opening takes, and its span: this month's charge is in the balance already. */
  lemma SeatOpenedIs(b: Book, holders: set<nat>, m: Membership, today: Day)
    requires SpansOnSeats(b) && !Gone(m) && SeatOpened(b, holders, m, today).Some?
    ensures var next := SeatOpened(b, holders, m, today).value;
            next.accounts == b.accounts && next.entries == b.entries && next.openedOn == b.openedOn &&
            if !Known(m) then next == b
            else |next.seats| == |b.seats| + 1 && next.seats[..|b.seats|] == b.seats && ShowsIt(next.seats[|b.seats|], m) &&
                 SeatIs(next, |b.seats|, m.student, m.group) && next.seats[|b.seats|].personalPrice.None? &&
                 next.spans == b.spans + if Pays(m) then [Span(|b.seats|, PaidFrom(m, today), None, None, Some(MonthOf(today)))] else []
  {
    StateIs(m);
    SeatOpenedWritesNoRow(b, holders, m, today);
    hide SpanBilled, AccountAmong, MonthOf;
  }

  /** A seat is refused when its student got no account, its price is below zero, or the student has one in the group. */
  lemma SeatOpenedIff(b: Book, holders: set<nat>, m: Membership, today: Day)
    requires SeatInv(b) && forall id :: id in holders ==> Some(id) in b.accounts
    ensures SeatOpened(b, holders, m, today).Some? <==>
      !Known(m) || (m.student in holders && m.price >= 0 && forall i :: 0 <= i < |b.seats| ==> !SeatIs(b, i, m.student, m.group))
  {
    StateIs(m);
    var account := AccountAmong(b.accounts, m.student);
    forall i | 0 <= i < |b.seats|
      ensures account < |b.accounts| ==> (SeatIs(b, i, m.student, m.group) <==> b.seats[i].account == account && b.seats[i].lcupGroup == Some(m.group))
    {
    }
    hide StartSpan;
  }

  // ---------- all of them ----------

  /** Of a membership the opening took: its seat, and its span when it pays. */
  ghost predicate Taken(b: Book, m: Membership, today: Day, i: nat) {
    i < |b.seats| && SeatIs(b, i, m.student, m.group) && ShowsIt(b.seats[i], m) && b.seats[i].personalPrice.None? &&
    (Pays(m) ==> Span(i, PaidFrom(m, today), None, None, Some(MonthOf(today))) in b.spans)
  }

  ghost predicate AllLive(live: seq<Membership>) {
    forall m :: m in live ==> !Gone(m)
  }

  /** The membership has one of the seats from the n-th on. */
  ghost predicate HasNewSeat(b: Book, n: nat, m: Membership, today: Day) {
    exists i: nat :: n <= i && Taken(b, m, today, i)
  }

  /** The seat is that of a membership of a known status. */
  ghost predicate TakenFrom(b: Book, live: seq<Membership>, today: Day, i: nat) {
    exists m :: m in live && Known(m) && Taken(b, m, today, i)
  }

  /** The seats from the n-th on are those of the memberships of a known status, and no others. */
  ghost predicate NewSeats(n: nat, next: Book, live: seq<Membership>, today: Day) {
    n <= |next.seats| && (forall m :: m in live && Known(m) ==> HasNewSeat(next, n, m, today)) &&
    forall i: nat :: n <= i < |next.seats| ==> TakenFrom(next, live, today, i)
  }

  lemma TakenStays(b: Book, next: Book, m: Membership, today: Day, i: nat)
    requires Taken(b, m, today, i) && |b.seats| <= |next.seats| && next.seats[..|b.seats|] == b.seats && next.accounts == b.accounts
    requires |b.spans| <= |next.spans| && next.spans[..|b.spans|] == b.spans
    ensures Taken(next, m, today, i)
  {
    assert next.seats[i] == next.seats[..|b.seats|][i];
    assert forall s :: s in next.spans[..|b.spans|] ==> s in next.spans;
    hide Known, Pays, ShowsIt, PaidFrom, MonthOf;
  }

  lemma KnownTaken(mid: Book, next: Book, holders: set<nat>, m: Membership, today: Day)
    requires SpansOnSeats(mid) && !Gone(m) && SeatOpened(mid, holders, m, today) == Some(next)
    ensures next.accounts == mid.accounts && |mid.seats| <= |next.seats| <= |mid.seats| + 1 && next.seats[..|mid.seats|] == mid.seats
    ensures |mid.spans| <= |next.spans| && next.spans[..|mid.spans|] == mid.spans
    ensures Known(m) ==> Taken(next, m, today, |mid.seats|)
    ensures !Known(m) ==> |next.seats| == |mid.seats|
  {
    SeatOpenedIs(mid, holders, m, today);
    hide SeatOpened, Known, ShowsIt, SeatIs, PaidFrom, MonthOf, Gone, SpansOnSeats;
    if Known(m) && Pays(m) {
      assert next.spans[|mid.spans|] in next.spans;
    }
  }

  lemma OneMoreTaken(n: nat, mid: Book, next: Book, holders: set<nat>, init: seq<Membership>, m: Membership, today: Day)
    requires SpansOnSeats(mid) && NewSeats(n, mid, init, today) && !Gone(m) && SeatOpened(mid, holders, m, today) == Some(next)
    ensures NewSeats(n, next, init + [m], today)
  {
    var live, j := init + [m], |mid.seats|;
    KnownTaken(mid, next, holders, m, today);
    hide SeatOpened, Known, Taken, Gone, SpansOnSeats;
    forall x | x in live && Known(x) ensures HasNewSeat(next, n, x, today) {
      if x in init {
        assert HasNewSeat(mid, n, x, today);
        var i: nat :| n <= i && Taken(mid, x, today, i);
        TakenStays(mid, next, x, today, i);
      } else {
        assert x == m && Taken(next, m, today, j);
      }
    }
    forall i: nat | n <= i < |next.seats| ensures TakenFrom(next, live, today, i) {
      if i < |mid.seats| {
        assert TakenFrom(mid, init, today, i);
        var x :| x in init && Known(x) && Taken(mid, x, today, i);
        TakenStays(mid, next, x, today, i);
        assert x in live;
      } else {
        assert m in live && Taken(next, m, today, i);
      }
    }
  }

  lemma {:induction false} SeatsOpenedAre(b: Book, holders: set<nat>, live: seq<Membership>, today: Day)
    requires SeatInv(b) && AllLive(live) && SeatsOpened(b, holders, live, today).Some?
    ensures NewSeats(|b.seats|, SeatsOpened(b, holders, live, today).value, live, today)
  {
    if live != [] {
      var init, m := live[..|live| - 1], live[|live| - 1];
      assert live == init + [m] && m in live && forall x :: x in init ==> x in live;
      SeatsOpenedAre(b, holders, init, today);
      var mid := SeatsOpenedKeep(b, holders, init, today);
      var next := SeatsOpened(b, holders, live, today).value;
      assert SpansOnSeats(mid.value);
      hide SeatInv, SeatOpened, NewSeats, Gone, Known;
      OneMoreTaken(|b.seats|, mid.value, next, holders, init, m, today);
    }
  }

  /** Once opened: the ledger says today; every membership of a known status has a seat that shows it and a span without an end
      exactly when it is active, from its first paid day and with this month inside the balance; there are no other new seats, so
      an unknown status makes none; and every row is a person's opening balance. */
  lemma OpeningShows(b: Book, people: seq<Person>, live: seq<Membership>, today: Day)
    requires SeatInv(b) && b.entries == [] && AllLive(live) && LedgerOpened(b, people, live, today).Some?
    ensures var next := LedgerOpened(b, people, live, today).value;
            b.openedOn.None? && next.openedOn == Some(today) && NewSeats(|b.seats|, next, live, today) &&
            (forall i: nat :: i < |next.seats| ==> RunsExactlyIf(next.spans, i, next.seats[i].state == Active)) &&
            forall i :: 0 <= i < |next.entries| ==> IsOpeningRow(next, next.entries[i], people, today)
  {
    var next := OpeningBalancesAreLcups(b, people, live, today);
    var accounts := AccountsOpenedBalance(b, people, StudentsOf(live), today);
    var holders := OpenedIds(people, StudentsOf(live));
    SeatsOpenedAre(accounts.value, holders, live, today);
    OpeningRowsAre(b, people, StudentsOf(live), today);
    var same := SeatsOpenedKeep(accounts.value, holders, live, today);
    assert forall row :: IsOpeningRow(accounts.value, row, people, today) ==> IsOpeningRow(next.value, row, people, today);
    AccountsOpenedSeats(b, people, StudentsOf(live), today);
    forall i: nat | i < |next.value.seats| ensures RunsExactlyIf(next.value.spans, i, next.value.seats[i].state == Active) {
      OpenAsActive(next.value, i);
    }
    var seats := SeatsOpened(accounts.value, holders, live, today).value;
    assert next.value == seats.(openedOn := Some(today));
    hide SeatInv, AccountsOpened, SeatsOpened, RunsExactlyIf, Taken, IsOpeningRow;
    SameButOpened(|b.seats|, seats, today, live);
  }

  lemma SameButOpened(n: nat, seats: Book, today: Day, live: seq<Membership>)
    requires NewSeats(n, seats, live, today)
    ensures NewSeats(n, seats.(openedOn := Some(today)), live, today)
  {
    var next := seats.(openedOn := Some(today));
    forall m, i: nat | Taken(seats, m, today, i) ensures Taken(next, m, today, i) {
    }
    hide Taken, Known;
    forall m | m in live && Known(m) ensures HasNewSeat(next, n, m, today) {
      assert HasNewSeat(seats, n, m, today);
      var i: nat :| n <= i && Taken(seats, m, today, i);
      assert Taken(next, m, today, i);
    }
    forall i: nat | n <= i < |next.seats| ensures TakenFrom(next, live, today, i) {
      assert TakenFrom(seats, live, today, i);
      var m :| m in live && Known(m) && Taken(seats, m, today, i);
      assert Taken(next, m, today, i);
    }
  }

  lemma {:induction false} AccountsOpenedSeats(b: Book, people: seq<Person>, inGroup: set<nat>, today: Day)
    ensures var next := AccountsOpened(b, people, inGroup, today);
            next.Some? ==> next.value.seats == b.seats && next.value.spans == b.spans && next.value.openedOn == b.openedOn
  {
    if people != [] {
      AccountsOpenedSeats(b, people[..|people| - 1], inGroup, today);
    }
  }

  // ---------- when it opens ----------

  /** Nobody who gets an account has one, and no two of them are the same person. */
  ghost predicate AllNew(b: Book, people: seq<Person>, inGroup: set<nat>) {
    forall k :: 0 <= k < |people| && Opens(people[k], inGroup) ==>
      Some(people[k].lcupId) !in b.accounts &&
      forall j :: 0 <= j < k && Opens(people[j], inGroup) ==> people[j].lcupId != people[k].lcupId
  }

  lemma AllNewOneMore(b: Book, init: seq<Person>, p: Person, inGroup: set<nat>)
    ensures AllNew(b, init + [p], inGroup) <==>
      AllNew(b, init, inGroup) && (Opens(p, inGroup) ==> Some(p.lcupId) !in b.accounts && p.lcupId !in OpenedIds(init, inGroup))
  {
    var all := init + [p];
    hide Opens;
    if AllNew(b, all, inGroup) {
      forall k | 0 <= k < |init| && Opens(init[k], inGroup)
        ensures Some(init[k].lcupId) !in b.accounts && forall j :: 0 <= j < k && Opens(init[j], inGroup) ==> init[j].lcupId != init[k].lcupId
      {
        assert all[k] == init[k] && forall j :: 0 <= j < k ==> all[j] == init[j];
      }
      assert all[|init|] == p;
      forall j | 0 <= j < |init| && Opens(init[j], inGroup) && Opens(p, inGroup) ensures init[j].lcupId != p.lcupId {
        assert all[j] == init[j];
      }
    }
  }

  lemma {:induction false} AccountsOpenedIff(b: Book, people: seq<Person>, inGroup: set<nat>, today: Day)
    ensures AccountsOpened(b, people, inGroup, today).Some? <==> AllNew(b, people, inGroup)
    ensures AccountsOpened(b, people, inGroup, today).Some? ==>
      forall id :: Some(id) in AccountsOpened(b, people, inGroup, today).value.accounts <==> Some(id) in b.accounts || id in OpenedIds(people, inGroup)
  {
    if people != [] {
      var init, p := people[..|people| - 1], people[|people| - 1];
      assert people == init + [p];
      AccountsOpenedIff(b, init, inGroup, today);
      AllNewOneMore(b, init, p, inGroup);
      hide AllNew, Posted;
      assert forall x :: x in people <==> x in init || x == p;
    }
  }

  /** Each membership of a known status is on someone with an account, at a price not below zero, in a group the student has no
      seat in; and no two of them are one student's in one group. */
  ghost predicate AllFit(b: Book, holders: set<nat>, live: seq<Membership>) {
    forall k :: 0 <= k < |live| && Known(live[k]) ==>
      live[k].student in holders && live[k].price >= 0 &&
      (forall i :: 0 <= i < |b.seats| ==> !SeatIs(b, i, live[k].student, live[k].group)) &&
      forall j :: 0 <= j < k && Known(live[j]) ==> Place(live[j]) != Place(live[k])
  }

  lemma AllFitOneMore(b: Book, holders: set<nat>, init: seq<Membership>, m: Membership)
    ensures AllFit(b, holders, init + [m]) <==>
      AllFit(b, holders, init) &&
      (Known(m) ==> m.student in holders && m.price >= 0 && (forall i :: 0 <= i < |b.seats| ==> !SeatIs(b, i, m.student, m.group)) &&
                    forall x :: x in init && Known(x) ==> Place(x) != Place(m))
  {
    var all := init + [m];
    hide Known, SeatIs;
    assert all[|init|] == m && forall k :: 0 <= k < |init| ==> all[k] == init[k];
    if AllFit(b, holders, all) && Known(m) {
      forall x | x in init && Known(x) ensures Place(x) != Place(m) {
        var j :| 0 <= j < |init| && init[j] == x;
        assert all[j] == x;
      }
    }
    if AllFit(b, holders, all) {
      forall k | 0 <= k < |init| && Known(init[k])
        ensures init[k].student in holders && init[k].price >= 0
        ensures forall i :: 0 <= i < |b.seats| ==> !SeatIs(b, i, init[k].student, init[k].group)
        ensures forall j :: 0 <= j < k && Known(init[j]) ==> Place(init[j]) != Place(init[k])
      {
        assert all[k] == init[k] && forall j :: 0 <= j < k ==> all[j] == init[j];
      }
    }
  }

  /** The seats so far: those there were, and one of each membership of a known status. */
  lemma PlaceTakenIff(b: Book, mid: Book, init: seq<Membership>, today: Day, m: Membership)
    requires NewSeats(|b.seats|, mid, init, today) && mid.accounts == b.accounts
    requires mid.seats[..|b.seats|] == b.seats
    ensures (exists i :: 0 <= i < |mid.seats| && SeatIs(mid, i, m.student, m.group)) <==>
      (exists i :: 0 <= i < |b.seats| && SeatIs(b, i, m.student, m.group)) || (exists x :: x in init && Known(x) && Place(x) == Place(m))
  {
    hide Known, ShowsIt, PaidFrom, MonthOf;
    assert forall i :: 0 <= i < |b.seats| ==> mid.seats[i] == b.seats[i];
    if x :| x in init && Known(x) && Place(x) == Place(m) {
      assert HasNewSeat(mid, |b.seats|, x, today);
      var i: nat :| |b.seats| <= i && Taken(mid, x, today, i);
      assert SeatIs(mid, i, m.student, m.group);
    }
    if i :| 0 <= i < |b.seats| && SeatIs(b, i, m.student, m.group) {
      assert SeatIs(mid, i, m.student, m.group);
    }
    if i :| 0 <= i < |mid.seats| && SeatIs(mid, i, m.student, m.group) {
      if i < |b.seats| {
        assert SeatIs(b, i, m.student, m.group);
      } else {
        assert TakenFrom(mid, init, today, i);
        var x :| x in init && Known(x) && Taken(mid, x, today, i);
        assert Place(x) == Place(m);
      }
    }
  }

  lemma {:induction false} SeatsOpenedIff(b: Book, holders: set<nat>, live: seq<Membership>, today: Day)
    requires SeatInv(b) && AllLive(live) && forall id :: id in holders ==> Some(id) in b.accounts
    ensures SeatsOpened(b, holders, live, today).Some? <==> AllFit(b, holders, live)
    ensures SeatsOpened(b, holders, live, today).Some? ==>
      var next := SeatsOpened(b, holders, live, today).value;
      next.accounts == b.accounts && |b.seats| <= |next.seats| && next.seats[..|b.seats|] == b.seats
  {
    if live != [] {
      var init, m := live[..|live| - 1], live[|live| - 1];
      assert live == init + [m] && m in live && forall x :: x in init ==> x in live;
      SeatsOpenedIff(b, holders, init, today);
      AllFitOneMore(b, holders, init, m);
      var mid := SeatsOpenedKeep(b, holders, init, today);
      if mid.Some? {
        SeatsOpenedAre(b, holders, init, today);
        assert SeatInv(mid.value) && SpansOnSeats(mid.value);
        hide SeatInv, SeatOpened, NewSeats, Gone, Known, AllFit, SeatIs;
        PlaceTakenIff(b, mid.value, init, today, m);
        SeatOpenedIff(mid.value, holders, m, today);
        var next := SeatOpened(mid.value, holders, m, today);
        if next.Some? {
          KnownTaken(mid.value, next.value, holders, m, today);
          PrefixOfPrefix(b.seats, mid.value.seats, next.value.seats);
        }
      }
    }
  }

  lemma PrefixOfPrefix(a: seq<Seat>, b: seq<Seat>, c: seq<Seat>)
    requires |a| <= |b| <= |c| && b[..|a|] == a && c[..|b|] == b
    ensures c[..|a|] == a
  {
    assert c[..|a|] == c[..|b|][..|a|];
  }

  lemma SameFits(b: Book, b': Book, holders: set<nat>, live: seq<Membership>)
    requires SeatInv(b) && Keeps(b, b') && b'.seats == b.seats
    ensures AllFit(b', holders, live) <==> AllFit(b, holders, live)
  {
    forall i, student: nat, group: nat | 0 <= i < |b.seats| ensures SeatIs(b', i, student, group) <==> SeatIs(b, i, student, group) {
      assert b.seats[i].account < |b.accounts|;
    }
    hide SeatInv, Inv, Known, SeatIs;
  }

  /** The ledger opens exactly when it has not been opened, the people getting accounts are new, and every membership of a known
      status fits. */
  lemma OpensIff(b: Book, people: seq<Person>, live: seq<Membership>, today: Day)
    requires SeatInv(b) && b.entries == [] && AllLive(live)
    ensures LedgerOpened(b, people, live, today).Some? <==>
      b.openedOn.None? && AllNew(b, people, StudentsOf(live)) && AllFit(b, OpenedIds(people, StudentsOf(live)), live)
  {
    var inGroup := StudentsOf(live);
    var accounts := AccountsOpenedBalance(b, people, inGroup, today);
    AccountsOpenedIff(b, people, inGroup, today);
    AccountsOpenedSeats(b, people, inGroup, today);
    if accounts.Some? {
      SeatsOpenedIff(accounts.value, OpenedIds(people, inGroup), live, today);
      SameFits(b, accounts.value, OpenedIds(people, inGroup), live);
    }
    hide SeatInv, AccountsOpened, SeatsOpened, AllNew, AllFit;
  }

  // ---------- its rows ----------

  /** The row is a person's opening balance, on the person's account, dated the opening day. */
  ghost predicate IsOpeningRow(b: Book, row: Entry, people: seq<Person>, today: Day) {
    exists k: nat :: k < |people| && people[k].balance != 0 && row.account < |b.accounts| && b.accounts[row.account] == Some(people[k].lcupId) &&
      row == Entry(row.account, None, Opening, people[k].balance, today, None, OpeningKey(people[k].lcupId), "", "", None)
  }

  lemma OpeningRowStays(b: Book, next: Book, row: Entry, init: seq<Person>, p: Person, today: Day)
    requires IsOpeningRow(b, row, init, today) && |b.accounts| <= |next.accounts| && next.accounts[..|b.accounts|] == b.accounts
    ensures IsOpeningRow(next, row, init + [p], today)
  {
    var k: nat :| k < |init| && init[k].balance != 0 && row.account < |b.accounts| && b.accounts[row.account] == Some(init[k].lcupId) &&
      row == Entry(row.account, None, Opening, init[k].balance, today, None, OpeningKey(init[k].lcupId), "", "", None);
    assert (init + [p])[k] == init[k] && next.accounts[row.account] == next.accounts[..|b.accounts|][row.account];
  }

  lemma {:induction false} OpeningRowsAre(b: Book, people: seq<Person>, inGroup: set<nat>, today: Day)
    requires b.entries == [] && AccountsOpened(b, people, inGroup, today).Some?
    ensures var next := AccountsOpened(b, people, inGroup, today).value;
            forall i :: 0 <= i < |next.entries| ==> IsOpeningRow(next, next.entries[i], people, today)
  {
    if people != [] {
      var init, p := people[..|people| - 1], people[|people| - 1];
      assert people == init + [p];
      OpeningRowsAre(b, init, inGroup, today);
      var mid, next := AccountsOpened(b, init, inGroup, today).value, AccountsOpened(b, people, inGroup, today).value;
      assert next == mid || next == AccountOpened(mid, p, today);
      forall i | 0 <= i < |next.entries| ensures IsOpeningRow(next, next.entries[i], people, today) {
        if i < |mid.entries| {
          assert IsOpeningRow(mid, mid.entries[i], init, today);
          OpeningRowStays(mid, next, mid.entries[i], init, p, today);
        } else {
          assert people[|init|] == p;
        }
      }
    }
  }

  /** The month after the opening is the first one charged: the month's billing in it writes the month's price. */
  lemma NextMonthIsCharged(b: Book, s: nat, openedOn: Day, today: Day, failing: set<nat>)
    requires SpansOnSeats(b) && s < |b.spans| && s !in failing && b.spans[s].end.None?
    requires b.spans[s].openingMonth == Some(MonthOf(openedOn)) && MonthOf(today) == MonthOf(openedOn) + 1
    requires MonthOf(b.spans[s].start) <= MonthOf(today)
    requires FindLive(b.entries, ChargeKey(s, MonthOf(today))).None?
    ensures var row := MonthsCharge(b.seats[b.spans[s].seat], b.spans[s], s, MonthOf(today));
            FindLive(BillOpenFrom(b, 0, today, failing).entries, ChargeKey(s, MonthOf(today))) ==
              if row.amount == 0 then None else Some(row)
  {
    hide FindLive, BillOpenFrom, MonthOf, MonthsCharge;
    TickChargesTheMonth(b, today, failing, s);
  }
}
