/** Opening the ledger: one account a person, from lc-up's balance, and a span for every seat already running. */
module OpeningDay {
  import opened Wrappers
  import opened Calendar
  import opened Lessons
  import opened Entries
  import opened Books
  import opened LedgerSafety
  import opened Shadow
  import opened ShadowSafety

  datatype Person = Person(lcupId: nat, balance: int)

  /** Whether the person gets an account: someone in a group, or with a balance that is not nothing. */
  predicate Opens(p: Person, inGroup: set<nat>) {
    p.lcupId in inGroup || p.balance != 0
  }

  function OpeningRow(p: Person, account: nat, today: Day): Entry {
    Entry(account, None, Opening, p.balance, today, None, OpeningKey(p.lcupId), "", "", None)
  }

  function AccountOpened(b: Book, p: Person, today: Day): Book {
    var begun := b.(accounts := b.accounts + [Some(p.lcupId)]);
    if p.balance == 0 then begun else begun.(entries := Posted(b.entries, OpeningRow(p, |b.accounts|, today)))
  }

  /** The accounts of the first n people, in order; an account lc-up's id already has refuses the opening. */
  function AccountsOpened(b: Book, people: seq<Person>, inGroup: set<nat>, today: Day): Option<Book> {
    if people == [] then Some(b)
    else
      var before := AccountsOpened(b, people[..|people| - 1], inGroup, today);
      var p := people[|people| - 1];
      if before.None? then None
      else if !Opens(p, inGroup) then before
      else if Some(p.lcupId) in before.value.accounts then None
      else Some(AccountOpened(before.value, p, today))
  }

  /** holders holds the students whose account the opening has made; no other has one to put a seat on. */
  function SeatOpened(b: Book, holders: set<nat>, m: Membership, today: Day): Option<Book> {
    var account := AccountAmong(b.accounts, m.student);
    if StateOf(m).None? then Some(b)
    else if m.student !in holders || account == |b.accounts| || m.price < 0 ||
            (exists i :: 0 <= i < |b.seats| && b.seats[i].account == account && b.seats[i].lcupGroup == Some(m.group))
    then None
    else
      var seat := Seat(account, Some(m.group), m.groupName, m.price, None, m.days, StateOf(m).value, m.startDate, None);
      var added := b.(seats := b.seats + [seat]);
      Some(if StateOf(m) == Some(Active)
           then StartSpan(added, |b.seats|, FirstPaidDay(m, today), today, Some(MonthOf(today))) else added)
  }

  function SeatsOpened(b: Book, holders: set<nat>, live: seq<Membership>, today: Day): Option<Book> {
    if live == [] then Some(b)
    else
      var before := SeatsOpened(b, holders, live[..|live| - 1], today);
      if before.None? then None else SeatOpened(before.value, holders, live[|live| - 1], today)
  }

  function OpenedIds(people: seq<Person>, inGroup: set<nat>): set<nat> {
    set p | p in people && Opens(p, inGroup) :: p.lcupId
  }

  function StudentsOf(live: seq<Membership>): set<nat> {
    set m | m in live :: m.student
  }

  /** The whole opening, or None: it opens once, and anything refused rolls all of it back. */
  function LedgerOpened(b: Book, people: seq<Person>, live: seq<Membership>, today: Day): Option<Book> {
    if b.openedOn.Some? then None
    else
      var accounts := AccountsOpened(b, people, StudentsOf(live), today);
      var seats := if accounts.None? then None else SeatsOpened(accounts.value, OpenedIds(people, StudentsOf(live)), live, today);
      if seats.None? then None else Some(seats.value.(openedOn := Some(today)))
  }

  // ---------- the opening writes no charge ----------

  lemma {:induction false} OpeningBillsNothing(rows: seq<Entry>, seat: Seat, span: Span, id: nat, month: Month, last: int)
    requires span.end.None? && span.openingMonth.Some? && last <= span.openingMonth.value
    ensures MonthsBilled(rows, seat, span, id, month, last) == rows
    decreases last - month
  {
    if month <= last {
      assert span.InOpening(month);
      OpeningBillsNothing(rows, seat, span, id, month + 1, last);
    }
  }

  lemma SeatOpenedWritesNoRow(b: Book, holders: set<nat>, m: Membership, today: Day)
    ensures var next := SeatOpened(b, holders, m, today);
            next.Some? ==> next.value.entries == b.entries && next.value.accounts == b.accounts &&
                           next.value.openedOn == b.openedOn
  {
    var account := AccountAmong(b.accounts, m.student);
    if SeatOpened(b, holders, m, today).Some? && StateOf(m) == Some(Active) {
      var seat := Seat(account, Some(m.group), m.groupName, m.price, None, m.days, Active, m.startDate, None);
      var span := Span(|b.seats|, FirstPaidDay(m, today), None, None, Some(MonthOf(today)));
      OpeningBillsNothing(b.entries, seat, span, |b.spans|, MonthOf(span.start), MonthOf(today));
    }
  }

  lemma SeatOpenedKeeps(b: Book, holders: set<nat>, m: Membership, today: Day)
    requires SeatInv(b)
    ensures var next := SeatOpened(b, holders, m, today); next.Some? ==> SeatInv(next.value) && Keeps(b, next.value)
  {
    var next, account := SeatOpened(b, holders, m, today), AccountAmong(b.accounts, m.student);
    if next.Some? && StateOf(m).Some? {
      var seat := Seat(account, Some(m.group), m.groupName, m.price, None, m.days, StateOf(m).value, m.startDate, None);
      var added := b.(seats := b.seats + [seat]);
      SeatAppendedKeeps(b, seat);
      if StateOf(m) == Some(Active) {
        var day := FirstPaidDay(m, today);
        StartSpanKeeps(added, |b.seats|, day, today, Some(MonthOf(today)));
        KeepsTransitive(b, added, next.value);
        forall i: nat ensures OpenSpans(next.value.spans, i) == OpenSpans(b.spans, i) + if i == |b.seats| then 1 else 0 {
          StartCounts(added, |b.seats|, day, today, Some(MonthOf(today)), i);
        }
      }
      hide SeatOpened;
      SeatAddedInv(b, seat, next.value);
    } else {
      KeepsItself(b);
    }
  }

  lemma {:induction false} SeatsOpenedKeep(b: Book, holders: set<nat>, live: seq<Membership>, today: Day) returns (next: Option<Book>)
    requires SeatInv(b)
    ensures next == SeatsOpened(b, holders, live, today)
    ensures next.Some? ==> SeatInv(next.value) && Keeps(b, next.value)
    ensures next.Some? ==> next.value.entries == b.entries && next.value.accounts == b.accounts
  {
    if live == [] {
      next := Some(b);
      KeepsItself(b);
    } else {
      var before := SeatsOpenedKeep(b, holders, live[..|live| - 1], today);
      next := SeatsOpened(b, holders, live, today);
      if before.Some? && next.Some? {
        SeatOpenedKeeps(before.value, holders, live[|live| - 1], today);
        SeatOpenedWritesNoRow(before.value, holders, live[|live| - 1], today);
        hide SeatInv, SeatOpened;
        KeepsTransitive(b, before.value, next.value);
      }
    }
  }

  // ---------- balances on the opening day ----------

  /** Rows are the opening rows of accounts that exist. */
  ghost predicate OnlyOpeningRows(b: Book) {
    forall i :: 0 <= i < |b.entries| ==>
      b.entries[i].key.OpeningKey? && Some(b.entries[i].key.person) in b.accounts && b.entries[i].account < |b.accounts|
  }

  ghost predicate BalanceIs(b: Book, p: Person) {
    var account := AccountAmong(b.accounts, p.lcupId);
    account < |b.accounts| && Balance(b.entries, account) == p.balance
  }

  lemma {:induction false} AccountStays(accounts: seq<Option<nat>>, more: Option<nat>, student: nat)
    requires AccountAmong(accounts, student) < |accounts|
    ensures AccountAmong(accounts + [more], student) == AccountAmong(accounts, student)
  {
    if accounts != [] && accounts[0] != Some(student) {
      assert (accounts + [more])[1..] == accounts[1..] + [more];
      AccountStays(accounts[1..], more, student);
    }
  }

  lemma {:induction false} AccountAtEnd(accounts: seq<Option<nat>>, student: nat)
    requires Some(student) !in accounts
    ensures AccountAmong(accounts + [Some(student)], student) == |accounts|
  {
    if accounts != [] {
      assert (accounts + [Some(student)])[1..] == accounts[1..] + [Some(student)];
      AccountAtEnd(accounts[1..], student);
    }
  }

  lemma {:induction false} NoRowNoBalance(rows: seq<Entry>, account: nat)
    requires forall i :: 0 <= i < |rows| ==> rows[i].account != account
    ensures Balance(rows, account) == 0
  {
    if rows != [] {
      NoRowNoBalance(rows[..|rows| - 1], account);
    }
  }

  lemma AccountOpenedBalances(b: Book, p: Person, today: Day)
    requires OnlyOpeningRows(b) && Some(p.lcupId) !in b.accounts
    ensures OnlyOpeningRows(AccountOpened(b, p, today)) && BalanceIs(AccountOpened(b, p, today), p)
    ensures forall q: Person :: BalanceIs(b, q) ==> BalanceIs(AccountOpened(b, p, today), q)
  {
    var b', row := AccountOpened(b, p, today), OpeningRow(p, |b.accounts|, today);
    assert FindLive(b.entries, OpeningKey(p.lcupId)).None?;
    AccountAtEnd(b.accounts, p.lcupId);
    NoRowNoBalance(b.entries, |b.accounts|);
    BalanceAppended(b.entries, row, |b.accounts|);
    forall q: Person | BalanceIs(b, q) ensures BalanceIs(b', q) {
      AccountStays(b.accounts, Some(p.lcupId), q.lcupId);
      BalanceAppended(b.entries, row, AccountAmong(b.accounts, q.lcupId));
    }
  }

  lemma AccountOpenedKeeps(b: Book, p: Person, today: Day)
    requires SeatInv(b) && Some(p.lcupId) !in b.accounts
    ensures SeatInv(AccountOpened(b, p, today)) && Keeps(b, AccountOpened(b, p, today))
  {
    var begun, b' := b.(accounts := b.accounts + [Some(p.lcupId)]), AccountOpened(b, p, today);
    SeatsChangedKeeps(b, begun);
    if p.balance != 0 {
      PostedKeeps(begun, OpeningRow(p, |b.accounts|, today));
      KeepsTransitive(b, begun, b');
    }
    forall i | 0 <= i < |b'.seats| ensures SeatRunsIffActive(b', i) {
      assert SeatRunsIffActive(b, i);
    }
  }

  /** The first n people are opened with their balances. */
  ghost predicate OpenedWell(b: Book, before: Book, people: seq<Person>, inGroup: set<nat>) {
    SeatInv(b) && Keeps(before, b) && OnlyOpeningRows(b) &&
    forall i :: 0 <= i < |people| && Opens(people[i], inGroup) ==> BalanceIs(b, people[i])
  }

  lemma OneMoreOpened(b: Book, before: Book, people: seq<Person>, inGroup: set<nat>, p: Person, today: Day)
    requires OpenedWell(b, before, people, inGroup) && Some(p.lcupId) !in b.accounts
    ensures OpenedWell(AccountOpened(b, p, today), before, people + [p], inGroup)
  {
    AccountOpenedKeeps(b, p, today);
    AccountOpenedBalances(b, p, today);
    hide SeatInv, AccountOpened, BalanceIs, OnlyOpeningRows;
    KeepsTransitive(before, b, AccountOpened(b, p, today));
  }

  lemma {:induction false} AccountsOpenedBalance(b: Book, people: seq<Person>, inGroup: set<nat>, today: Day)
    returns (next: Option<Book>)
    requires SeatInv(b) && OnlyOpeningRows(b)
    ensures next == AccountsOpened(b, people, inGroup, today)
    ensures next.Some? ==> OpenedWell(next.value, b, people, inGroup)
  {
    if people == [] {
      next := Some(b);
      KeepsItself(b);
    } else {
      var rest, p := people[..|people| - 1], people[|people| - 1];
      var before := AccountsOpenedBalance(b, rest, inGroup, today);
      assert people == rest + [p];
      next := AccountsOpened(b, people, inGroup, today);
      if before.Some? && next.Some? && Opens(p, inGroup) {
        OneMoreOpened(before.value, b, rest, inGroup, p, today);
      }
    }
  }

  /** On the opening day every person's balance is lc-up's: opening writes one row a balance and no charge, because the
      opening month's charge is already inside it.  And every seat has an open span exactly when it is active. */
  lemma OpeningBalancesAreLcups(b: Book, people: seq<Person>, live: seq<Membership>, today: Day) returns (next: Option<Book>)
    requires SeatInv(b) && b.entries == []
    ensures next == LedgerOpened(b, people, live, today)
    ensures next.Some? ==> SeatInv(next.value) && Keeps(b, next.value)
    ensures next.Some? ==> forall i :: 0 <= i < |people| && Opens(people[i], StudentsOf(live)) ==> BalanceIs(next.value, people[i])
    ensures next.Some? ==> forall i :: 0 <= i < |next.value.entries| ==> next.value.entries[i].kind == Opening
  {
    next := LedgerOpened(b, people, live, today);
    var accounts := AccountsOpenedBalance(b, people, StudentsOf(live), today);
    if accounts.Some? {
      var seats := SeatsOpenedKeep(accounts.value, OpenedIds(people, StudentsOf(live)), live, today);
      if seats.Some? && next.Some? {
        KeepsTransitive(b, accounts.value, seats.value);
        SeatsChangedKeeps(seats.value, next.value);
        KeepsTransitive(b, seats.value, next.value);
        forall i | 0 <= i < |next.value.entries| ensures next.value.entries[i].kind == Opening {
          assert RowOK(next.value, next.value.entries[i]);
        }
        SameSpansSeatInv(seats.value, next.value);
      }
    }
  }
}
