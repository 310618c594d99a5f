/** Money entered by hand: asked for once, counted once, and taken back whole. */
module MoneyByHand {
  import opened Wrappers
  import opened Calendar
  import opened Entries
  import opened Books
  import opened LedgerSafety

  lemma {:induction false} FirstOfGrown(before: seq<Entry>, after: seq<Entry>, key: Key)
    requires Grown(before, after) && FirstOf(before, key).Some?
    ensures FirstOf(after, key).Some? && SameOrVoided(FirstOf(before, key).value, FirstOf(after, key).value)
    decreases |after|
  {
    if |after| > |before| {
      assert after[..|after| - 1] == after[..|after| - 1];
      FirstOfGrown(before, after[..|after| - 1], key);
    } else {
      var init, init' := before[..|before| - 1], after[..|after| - 1];
      assert SameOrVoided(before[|before| - 1], after[|after| - 1]);
      assert Grown(init, init') by {
        forall i | 0 <= i < |init| ensures SameOrVoided(init[i], init'[i]) {
          assert SameOrVoided(before[i], after[i]);
        }
      }
      if FirstOf(init, key).Some? {
        FirstOfGrown(init, init', key);
      } else {
        SameKeysNone(init, init', key);
      }
    }
  }

  lemma {:induction false} SameKeysNone(before: seq<Entry>, after: seq<Entry>, key: Key)
    requires Grown(before, after) && |after| == |before| && FirstOf(before, key).None?
    ensures FirstOf(after, key).None?
  {
    forall i | 0 <= i < |after| ensures after[i].key != key {
      assert SameOrVoided(before[i], after[i]);
    }
  }

  /** A request sent again, on any later day and after anything the ledger has done since, voiding included, writes nothing
      and answers with its own row. */
  lemma AskedAgainIsTheSameRow(b: Book, m: Money, today: Day, b': Book, later: Day)
    requires Inv(b) && EnterMoney(b, m, today).Done?
    requires Keeps(EnterMoney(b, m, today).value.0, b')
    ensures EnterMoney(b', m, later).Done? && EnterMoney(b', m, later).value.0 == b'
    ensures SameOrVoided(EnterMoney(b, m, today).value.1, EnterMoney(b', m, later).value.1)
  {
    var (after, row) := EnterMoney(b, m, today).value;
    EnteredIsFirst(b, m, today);
    FirstOfGrown(after.entries, b'.entries, ManualKey(m.request));
  }

  lemma EnteredIsFirst(b: Book, m: Money, today: Day)
    requires EnterMoney(b, m, today).Done?
    ensures var (after, row) := EnterMoney(b, m, today).value;
            FirstOf(after.entries, ManualKey(m.request)) == Some(row) && row.account == m.account
  {
    if FirstOf(b.entries, ManualKey(m.request)).None? {
      assert FindLive(b.entries, ManualKey(m.request)).None?;
      assert (b.entries + [MoneyRow(m)])[..|b.entries|] == b.entries;
    }
  }

  /** A request never reaches a second student, whatever the ledger has done since, taking the money back included. */
  lemma OtherStudentIsRefused(b: Book, m: Money, today: Day, b': Book, other: Money, later: Day)
    requires EnterMoney(b, m, today).Done? && other.request == m.request && other.account != m.account
    requires Keeps(EnterMoney(b, m, today).value.0, b')
    ensures EnterMoney(b', other, later) == Refused(OtherStudent)
  {
    EnteredIsFirst(b, m, today);
    FirstOfGrown(EnterMoney(b, m, today).value.0.entries, b'.entries, ManualKey(m.request));
  }

  // ---------- what is taken, and what refused ----------

  predicate Unused(b: Book, request: string) {
    forall i :: 0 <= i < |b.entries| ==> b.entries[i].key != ManualKey(request)
  }

  /** Dated from the opening to today, both included. */
  predicate InTime(b: Book, m: Money, today: Day) {
    b.openedOn.Some? && b.openedOn.value <= m.day <= today
  }

  /** An adjustment has an amount of either sign, not nothing and 50 million at most, and a note; a payment or a refund has a
      positive one, and one of the three methods. */
  predicate WellMade(m: Money) {
    (m.kind == Adjust && (0 < m.amount <= 50_000_000 || -50_000_000 <= m.amount < 0) && exists i :: 0 <= i < |m.note| && !IsSpace(m.note[i])) ||
    ((m.kind == Payment || m.kind == Refund) && 0 < m.amount <= 50_000_000 &&
     (m.paidBy == "Naqd pul" || m.paidBy == "Plastik karta" || m.paidBy == "Bank hisobi"))
  }

  /** Money asked for with a request never used is taken exactly when it is in time and well made; then this row, and nothing
      else, is written. */
  lemma TakenExactly(b: Book, m: Money, today: Day)
    requires Unused(b, m.request)
    ensures EnterMoney(b, m, today).Done? <==> InTime(b, m, today) && WellMade(m)
    ensures EnterMoney(b, m, today).Done? ==>
      var row := Entry(m.account, None, m.kind, if m.kind == Refund then -m.amount else m.amount, m.day, None,
                       ManualKey(m.request), if m.kind == Adjust then "" else m.paidBy, m.note, None);
      EnterMoney(b, m, today).value == (b.(entries := b.entries + [row]), row)
  {
    assert FirstOf(b.entries, ManualKey(m.request)).None?;
    assert FindLive(b.entries, ManualKey(m.request)).None?;
    assert METHODS[0] == "Naqd pul" && METHODS[1] == "Plastik karta" && METHODS[2] == "Bank hisobi" && |METHODS| == 3;
  }

  /** What is refused says the first thing wrong: not open, then the day, then the kind, then the amount, then the note or the
      method. */
  lemma RefusedFor(b: Book, m: Money, today: Day)
    requires Unused(b, m.request) && EnterMoney(b, m, today).Refused?
    ensures var why := EnterMoney(b, m, today).why;
            (why == NotOpen <==> b.openedOn.None?) &&
            (why == FutureDay <==> b.openedOn.Some? && today < m.day) &&
            (why == BeforeOpening <==> b.openedOn.Some? && m.day <= today && m.day < b.openedOn.value) &&
            (InTime(b, m, today) ==>
              (why == BadKind <==> m.kind == Opening || m.kind == Charge || m.kind == Credit) &&
              (why == BadAmount <==> (m.kind == Adjust && (m.amount == 0 || m.amount > 50_000_000 || m.amount < -50_000_000)) ||
                                     ((m.kind == Payment || m.kind == Refund) && (m.amount <= 0 || m.amount > 50_000_000))) &&
              (why != BadKind && why != BadAmount ==> why == if m.kind == Adjust then NoReason else NoMethod))
  {
    assert FirstOf(b.entries, ManualKey(m.request)).None?;
  }

  /** Only a live row entered by hand is taken back, with a reason that is not blank; the first thing wrong is named. */
  lemma TakenBackExactly(b: Book, row: nat, reason: string)
    requires row < |b.entries|
    ensures var entry, r := b.entries[row], VoidEntered(b, row, reason);
            if !entry.key.ManualKey? then r == Refused(NotByHand)
            else if entry.voided.Some? then r == Refused(AlreadyVoided)
            else if forall i :: 0 <= i < |reason| ==> IsSpace(reason[i]) then r == Refused(NoReason)
            else r == Done(b.(entries := b.entries[row := entry.(voided := Some(reason))]))
  {
  }

  /** The signed worth of what is entered: a payment raises the balance, a refund lowers it, an adjustment does as it says. */
  function SignedAmount(m: Money): int {
    if m.kind == Refund then -m.amount else m.amount
  }

  /** New money moves that student's balance by its signed amount and nobody else's, and lies between the opening day and
      today. */
  lemma MoneyMovesOneBalance(b: Book, m: Money, today: Day, account: nat)
    requires EnterMoney(b, m, today).Done? && FirstOf(b.entries, ManualKey(m.request)).None?
    ensures var after := EnterMoney(b, m, today).value.0;
            Balance(after.entries, account) == Balance(b.entries, account) + if account == m.account then SignedAmount(m) else 0
    ensures b.openedOn.Some? && b.openedOn.value <= m.day <= today
    ensures m.kind == Payment ==> SignedAmount(m) > 0
    ensures m.kind == Refund ==> SignedAmount(m) < 0
  {
    assert FindLive(b.entries, ManualKey(m.request)).None?;
    BalanceAppended(b.entries, MoneyRow(m), account);
  }

  lemma {:induction false} BalanceVoided(rows: seq<Entry>, i: nat, reason: string, account: nat)
    requires i < |rows| && rows[i].Live()
    ensures Balance(rows[i := rows[i].(voided := Some(reason))], account) ==
      Balance(rows, account) - if rows[i].account == account then rows[i].amount else 0
  {
    var last := |rows| - 1;
    var rows' := rows[i := rows[i].(voided := Some(reason))];
    if i == last {
      assert rows'[..last] == rows[..last];
    } else {
      BalanceVoided(rows[..last], i, reason, account);
      assert rows'[..last] == rows[..last][i := rows[i].(voided := Some(reason))];
    }
  }

  /** Only live rows entered by hand are taken back, with a reason, and taking one back undoes exactly what it did. */
  lemma TakingBackUndoes(b: Book, row: nat, reason: string, account: nat)
    requires row < |b.entries|
    ensures VoidEntered(b, row, reason).Done? <==>
      b.entries[row].key.ManualKey? && b.entries[row].Live() && !Blank(reason)
    ensures VoidEntered(b, row, reason).Done? ==>
      Balance(VoidEntered(b, row, reason).value.entries, account) ==
      Balance(b.entries, account) - if b.entries[row].account == account then b.entries[row].amount else 0
  {
    if b.entries[row].Live() {
      BalanceVoided(b.entries, row, reason, account);
    }
  }
}
