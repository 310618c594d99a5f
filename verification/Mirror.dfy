/** Copying lc-up's payments: after one pass the live payment rows are the payments, and a second pass has nothing to do. */
module Mirror {
  import opened Wrappers
  import opened Calendar
  import opened Entries
  import opened Books
  import opened LedgerSafety
  import opened Shadow
  import opened ShadowSafety

  datatype LcPayment = LcPayment(id: nat, student: nat, kind: string, amount: int, paidOn: Day, paidBy: string, note: string)

  const CHANGED_PAYMENT := "lc-up changed this payment"
  const DELETED_PAYMENT := "lc-up deleted this payment"

  function PaymentKind(p: LcPayment): Kind {
    if p.kind == "refund" then Refund else Payment
  }

  /** The row says what the payment says now. */
  predicate Matches(row: Entry, p: LcPayment) {
    row.amount == p.amount && row.day == p.paidOn && row.kind == PaymentKind(p) && row.paidBy == p.paidBy
  }

  function PaymentRow(p: LcPayment, account: nat): Entry {
    Entry(account, None, PaymentKind(p), p.amount, p.paidOn, None, PaymentKey(p.id), p.paidBy, p.note, None)
  }

  /** Whether the payment differs from the live row of the pass's beginning. */
  predicate ToCopy(start: seq<Entry>, p: LcPayment) {
    var row := FindLive(start, PaymentKey(p.id));
    row.None? || !Matches(row.value, p)
  }

  function Copied(start: seq<Entry>, b: Book, p: LcPayment): Book {
    var known := WithAccount(b, p.student);
    var rows := if FindLive(start, PaymentKey(p.id)).Some?
                then Voided(b.entries, RowWith(PaymentKey(p.id)), CHANGED_PAYMENT) else b.entries;
    known.(entries := Posted(rows, PaymentRow(p, AccountAmong(b.accounts, p.student))))
  }

  /** Every payment after the opening one, in order; the ones that fail are left as they were. */
  function AllCopied(start: seq<Entry>, b: Book, payments: seq<LcPayment>, opening: nat, failing: set<nat>): Book
    decreases |payments|
  {
    if payments == [] then b
    else
      var p := payments[0];
      if p.id <= opening || !ToCopy(start, p) || p.id in failing then AllCopied(start, b, payments[1..], opening, failing)
      else AllCopied(start, Copied(start, b, p), payments[1..], opening, failing)
  }

  function SeenIds(payments: seq<LcPayment>, opening: nat): set<nat> {
    set p | p in payments && p.id > opening :: p.id
  }

  function Mirrored(b: Book, payments: seq<LcPayment>, opening: nat, failing: set<nat>): Book {
    var copied := AllCopied(b.entries, b, payments, opening, failing);
    copied.(entries := Voided(copied.entries, PaymentsOutside(SeenIds(payments, opening)), DELETED_PAYMENT))
  }

  /** lc-up gives each payment one id. */
  ghost predicate OnePerId(payments: seq<LcPayment>) {
    forall i, j :: 0 <= i < j < |payments| ==> payments[i].id != payments[j].id
  }

  // ---------- what a copy keeps ----------

  lemma Reasons()
    ensures !Blank(CHANGED_PAYMENT) && !Blank(DELETED_PAYMENT)
  {
    assert CHANGED_PAYMENT[0] == 'l' && DELETED_PAYMENT[0] == 'l';
  }

  lemma CopiedKeeps(start: seq<Entry>, b: Book, p: LcPayment)
    requires SeatInv(b)
    ensures SeatInv(Copied(start, b, p)) && Keeps(b, Copied(start, b, p))
  {
    var known, account := WithAccount(b, p.student), AccountAmong(b.accounts, p.student);
    WithAccountKeeps(b, p.student);
    Reasons();
    var voided := known;
    if FindLive(start, PaymentKey(p.id)).Some? {
      VoidElsewhereKeeps(known, RowWith(PaymentKey(p.id)), CHANGED_PAYMENT);
      voided := known.(entries := Voided(b.entries, RowWith(PaymentKey(p.id)), CHANGED_PAYMENT));
      KeepsTransitive(b, known, voided);
    }
    PostedKeeps(voided, PaymentRow(p, account));
    KeepsTransitive(b, voided, Copied(start, b, p));
    SameSpansSeatInv(known, Copied(start, b, p));
  }

  /** A copy puts the payment's own row in place and touches no other payment's. */
  lemma CopiedFinds(start: seq<Entry>, b: Book, p: LcPayment, id: nat)
    requires SeatInv(b)
    requires FindLive(start, PaymentKey(p.id)) == FindLive(b.entries, PaymentKey(p.id))
    ensures FindLive(Copied(start, b, p).entries, PaymentKey(id)) ==
      if id == p.id then Some(PaymentRow(p, AccountAmong(b.accounts, p.student))) else FindLive(b.entries, PaymentKey(id))
  {
    var row := PaymentRow(p, AccountAmong(b.accounts, p.student));
    var replace := FindLive(start, PaymentKey(p.id)).Some?;
    assert Copied(start, b, p).entries ==
           Posted(if replace then Voided(b.entries, RowWith(row.key), CHANGED_PAYMENT) else b.entries, row);
    hide *;
    PutInPlace(b.entries, row, replace, CHANGED_PAYMENT, PaymentKey(id));
  }

  lemma PutInPlace(rows: seq<Entry>, row: Entry, replace: bool, reason: string, key: Key)
    requires UniqueLive(rows) && row.Live() && (replace <==> FindLive(rows, row.key).Some?)
    ensures FindLive(Posted(if replace then Voided(rows, RowWith(row.key), reason) else rows, row), key) ==
            if key == row.key then Some(row) else FindLive(rows, key)
  {
    FindVoided(rows, RowWith(row.key), reason, key);
    FindVoided(rows, RowWith(row.key), reason, row.key);
    hide Voided;
    FindPosted(if replace then Voided(rows, RowWith(row.key), reason) else rows, row, key);
  }

  predicate NamesId(payments: seq<LcPayment>, id: nat) {
    exists i :: 0 <= i < |payments| && payments[i].id == id
  }

  /** The live row of an id after the payments are copied. */
  ghost predicate RowAfterCopy(start: seq<Entry>, rows: seq<Entry>, before: seq<Entry>, payments: seq<LcPayment>, opening: nat, id: nat) {
    if id > opening && NamesId(payments, id) then
      FindLive(rows, PaymentKey(id)).Some? &&
      forall p :: p in payments && p.id == id ==> Matches(FindLive(rows, PaymentKey(id)).value, p)
    else
      FindLive(rows, PaymentKey(id)) == FindLive(before, PaymentKey(id))
  }

  lemma {:induction false} AllCopiedKeeps(
    start: seq<Entry>, b: Book, payments: seq<LcPayment>, opening: nat, failing: set<nat>) returns (after: Book)
    requires SeatInv(b)
    ensures after == AllCopied(start, b, payments, opening, failing)
    ensures SeatInv(after) && Keeps(b, after)
    decreases |payments|
  {
    if payments == [] {
      after := b;
    } else {
      var p := payments[0];
      CopiedKeeps(start, b, p);
      hide SeatInv, Keeps, Copied;
      if p.id <= opening || !ToCopy(start, p) || p.id in failing {
        after := AllCopiedKeeps(start, b, payments[1..], opening, failing);
      } else {
        after := AllCopiedKeeps(start, Copied(start, b, p), payments[1..], opening, failing);
        KeepsTransitive(b, Copied(start, b, p), after);
      }
    }
  }

  lemma {:induction false} AllCopiedFinds(start: seq<Entry>, b: Book, payments: seq<LcPayment>, opening: nat, id: nat)
    requires SeatInv(b) && OnePerId(payments)
    requires forall i :: NamesId(payments, i) ==> FindLive(b.entries, PaymentKey(i)) == FindLive(start, PaymentKey(i))
    ensures RowAfterCopy(start, AllCopied(start, b, payments, opening, {}).entries, b.entries, payments, opening, id)
    decreases |payments|
  {
    if payments != [] {
      var p, rest := payments[0], payments[1..];
      NamesRest(payments);
      assert payments == [p] + rest && NamesId(payments, p.id);
      hide SeatInv, Copied, OnePerId, FindLive, Matches;
      if p.id <= opening || !ToCopy(start, p) {
        AllCopiedFinds(start, b, rest, opening, id);
        StillThePayment(start, AllCopied(start, b, rest, opening, {}).entries, b.entries, p, rest, opening, id);
      } else {
        var next := Copied(start, b, p);
        OneCopied(start, b, p, p);
        CopiedFinds(start, b, p, p.id);
        AllCopiedFinds(start, next, rest, opening, id);
        NowThePayment(start, AllCopied(start, next, rest, opening, {}).entries, b.entries, next.entries, p, rest, opening, id);
      }
    }
  }

  lemma NamesOneMore(p: LcPayment, rest: seq<LcPayment>, id: nat)
    ensures NamesId([p] + rest, id) <==> id == p.id || NamesId(rest, id)
  {
    var all := [p] + rest;
    if NamesId(all, id) && id != p.id {
      var j :| 0 <= j < |all| && all[j].id == id;
      assert rest[j - 1].id == id;
    }
    if NamesId(rest, id) {
      var j :| 0 <= j < |rest| && rest[j].id == id;
      assert all[j + 1].id == id;
    }
    assert all[0] == p;
  }

  lemma StillThePayment(
    start: seq<Entry>, rows: seq<Entry>, before: seq<Entry>, p: LcPayment, rest: seq<LcPayment>, opening: nat, id: nat)
    requires RowAfterCopy(start, rows, before, rest, opening, id) && !NamesId(rest, p.id)
    requires FindLive(before, PaymentKey(p.id)) == FindLive(start, PaymentKey(p.id)) && (p.id <= opening || !ToCopy(start, p))
    ensures RowAfterCopy(start, rows, before, [p] + rest, opening, id)
  {
    NamesOneMore(p, rest, id);
    assert forall q :: q in rest && q.id == id ==> NamesId(rest, id);
    hide FindLive, Matches, NamesId;
  }

  lemma NowThePayment(
    start: seq<Entry>, rows: seq<Entry>, before: seq<Entry>, next: seq<Entry>, p: LcPayment, rest: seq<LcPayment>, opening: nat, id: nat)
    requires RowAfterCopy(start, rows, next, rest, opening, id) && !NamesId(rest, p.id) && p.id > opening
    requires FindLive(next, PaymentKey(p.id)).Some? && Matches(FindLive(next, PaymentKey(p.id)).value, p)
    requires id != p.id ==> FindLive(next, PaymentKey(id)) == FindLive(before, PaymentKey(id))
    ensures RowAfterCopy(start, rows, before, [p] + rest, opening, id)
  {
    NamesOneMore(p, rest, id);
    assert forall q :: q in rest && q.id == id ==> NamesId(rest, id);
    hide FindLive, Matches, NamesId;
  }

  // ---------- the theorems ----------

  /** A pass keeps every invariant of the ledger, whichever payments fail. */
  lemma MirrorKeeps(b: Book, payments: seq<LcPayment>, opening: nat, failing: set<nat>)
    requires SeatInv(b)
    ensures SeatInv(Mirrored(b, payments, opening, failing)) && Keeps(b, Mirrored(b, payments, opening, failing))
  {
    var copied := AllCopiedKeeps(b.entries, b, payments, opening, failing);
    Reasons();
    VoidElsewhereKeeps(copied, PaymentsOutside(SeenIds(payments, opening)), DELETED_PAYMENT);
    KeepsTransitive(b, copied, Mirrored(b, payments, opening, failing));
    SameSpansSeatInv(copied, Mirrored(b, payments, opening, failing));
  }

  /** The row says the payment's amount, day and method; "refund" is a refund and any other kind a payment. */
  predicate Says(row: Entry, p: LcPayment) {
    row.amount == p.amount && row.day == p.paidOn && row.paidBy == p.paidBy && (row.kind == Refund <==> p.kind == "refund") &&
    (row.kind == Payment <==> p.kind != "refund")
  }

  lemma MatchesIs(row: Entry, p: LcPayment)
    ensures Matches(row, p) <==> Says(row, p)
  {
  }

  ghost predicate RowIsThePayment(rows: seq<Entry>, payments: seq<LcPayment>, opening: nat, id: nat) {
    var row := FindLive(rows, PaymentKey(id));
    (row.Some? <==> id > opening && NamesId(payments, id)) &&
    (row.Some? ==> forall p :: p in payments && p.id == id ==> Says(row.value, p))
  }

  /** The live payment rows are the payments after the opening one, each once and each as it is now. */
  ghost predicate RowsAreThePayments(rows: seq<Entry>, payments: seq<LcPayment>, opening: nat) {
    forall id: nat :: RowIsThePayment(rows, payments, opening, id)
  }

  lemma SeenIffNamed(payments: seq<LcPayment>, opening: nat, id: nat)
    ensures id in SeenIds(payments, opening) <==> id > opening && NamesId(payments, id)
  {
    if NamesId(payments, id) && id > opening {
      var i :| 0 <= i < |payments| && payments[i].id == id;
      assert payments[i] in payments;
    }
  }

  lemma DeletedFinds(rows: seq<Entry>, seen: set<nat>, reason: string, id: nat)
    requires UniqueLive(rows)
    ensures FindLive(Voided(rows, PaymentsOutside(seen), reason), PaymentKey(id)) ==
            if id in seen then FindLive(rows, PaymentKey(id)) else None
  {
    FindVoided(rows, PaymentsOutside(seen), reason, PaymentKey(id));
    var row := FindLive(rows, PaymentKey(id));
    assert row.Some? ==> (PaymentsOutside(seen).Takes(row.value) <==> id !in seen);
    hide *;
  }

  lemma OnePassMirrorsRow(b: Book, payments: seq<LcPayment>, opening: nat, id: nat)
    requires SeatInv(b) && OnePerId(payments)
    ensures RowIsThePayment(Mirrored(b, payments, opening, {}).entries, payments, opening, id)
  {
    var copied := AllCopiedKeeps(b.entries, b, payments, opening, {});
    assert UniqueLive(copied.entries);
    AllCopiedFinds(b.entries, b, payments, opening, id);
    assert Mirrored(b, payments, opening, {}).entries ==
           Voided(copied.entries, PaymentsOutside(SeenIds(payments, opening)), DELETED_PAYMENT);
    hide *;
    DeletedFinds(copied.entries, SeenIds(payments, opening), DELETED_PAYMENT, id);
    SeenIffNamed(payments, opening, id);
    RowAfterCopyIsThePayment(b.entries, copied.entries, Mirrored(b, payments, opening, {}).entries, payments, opening, id,
                             SeenIds(payments, opening));
  }

  lemma RowAfterCopyIsThePayment(
    start: seq<Entry>, copied: seq<Entry>, after: seq<Entry>, payments: seq<LcPayment>, opening: nat, id: nat, seen: set<nat>)
    requires RowAfterCopy(start, copied, start, payments, opening, id)
    requires FindLive(after, PaymentKey(id)) == if id in seen then FindLive(copied, PaymentKey(id)) else None
    requires id in seen <==> id > opening && NamesId(payments, id)
    ensures RowIsThePayment(after, payments, opening, id)
  {
    var row := FindLive(after, PaymentKey(id));
    if row.Some? {
      forall p | p in payments && p.id == id ensures Says(row.value, p) {
        MatchesIs(row.value, p);
      }
    }
    hide Matches, Says, FindLive;
  }

  /** One pass with no failure, from any earlier state of the rows. */
  lemma OnePassMirrors(b: Book, payments: seq<LcPayment>, opening: nat)
    requires SeatInv(b) && OnePerId(payments)
    ensures RowsAreThePayments(Mirrored(b, payments, opening, {}).entries, payments, opening)
  {
    forall id: nat ensures RowIsThePayment(Mirrored(b, payments, opening, {}).entries, payments, opening, id) {
      OnePassMirrorsRow(b, payments, opening, id);
    }
  }

  lemma {:induction false} NothingToCopy(start: seq<Entry>, b: Book, payments: seq<LcPayment>, opening: nat, failing: set<nat>)
    requires forall i :: 0 <= i < |payments| && payments[i].id > opening ==> !ToCopy(start, payments[i])
    ensures AllCopied(start, b, payments, opening, failing) == b
    decreases |payments|
  {
    if payments != [] {
      NothingToCopy(start, b, payments[1..], opening, failing);
    }
  }

  /** When the rows are the payments, a pass writes nothing and voids nothing. */
  lemma SecondPassDoesNothing(b: Book, payments: seq<LcPayment>, opening: nat, failing: set<nat>)
    requires Inv(b) && RowsAreThePayments(b.entries, payments, opening)
    ensures Mirrored(b, payments, opening, failing) == b
  {
    forall i | 0 <= i < |payments| && payments[i].id > opening ensures !ToCopy(b.entries, payments[i]) {
      assert NamesId(payments, payments[i].id);
      assert RowIsThePayment(b.entries, payments, opening, payments[i].id) && payments[i] in payments;
      MatchesIs(FindLive(b.entries, PaymentKey(payments[i].id)).value, payments[i]);
    }
    NothingToCopy(b.entries, b, payments, opening, failing);
    var choice := PaymentsOutside(SeenIds(payments, opening));
    forall i | 0 <= i < |b.entries| ensures VoidIf(b.entries[i], choice, DELETED_PAYMENT) == b.entries[i] {
      var row := b.entries[i];
      if row.Live() && row.key.PaymentKey? {
        FindUnique(b.entries, i);
        assert RowIsThePayment(b.entries, payments, opening, row.key.payment);
        var j :| 0 <= j < |payments| && payments[j].id == row.key.payment;
        assert payments[j] in payments;
      }
    }
    assert Voided(b.entries, choice, DELETED_PAYMENT) == b.entries;
  }

  // ---------- whose account a payment is on ----------

  /** The row under the payment's key is the one of the pass's beginning, or a new one on its student's account. */
  ghost predicate OnAccount(start: seq<Entry>, b: Book, p: LcPayment) {
    var row := FindLive(b.entries, PaymentKey(p.id));
    if !ToCopy(start, p) then row == FindLive(start, PaymentKey(p.id)) else row.Some? && WrittenFor(b, row.value, p)
  }

  /** The row copied from the payment, field by field, on its student's account. */
  ghost predicate WrittenFor(b: Book, row: Entry, p: LcPayment) {
    row.account < |b.accounts| && b.accounts[row.account] == Some(p.student) &&
    row == Entry(row.account, None, if p.kind == "refund" then Refund else Payment, p.amount, p.paidOn, None, PaymentKey(p.id),
                 p.paidBy, p.note, None)
  }

  lemma CopyKeepsAccounts(start: seq<Entry>, b: Book, p: LcPayment)
    ensures |b.accounts| <= |Copied(start, b, p).accounts| && Copied(start, b, p).accounts[..|b.accounts|] == b.accounts
    ensures var account := AccountAmong(b.accounts, p.student);
            account < |Copied(start, b, p).accounts| && Copied(start, b, p).accounts[account] == Some(p.student)
  {
    hide FindLive, Voided, Posted, Blank;
  }

  lemma {:induction false} AllCopiedAccounts(start: seq<Entry>, b: Book, payments: seq<LcPayment>, opening: nat, p: LcPayment)
    requires SeatInv(b) && OnePerId(payments) && p.id > opening
    requires forall i :: NamesId(payments, i) ==> FindLive(b.entries, PaymentKey(i)) == FindLive(start, PaymentKey(i))
    requires p in payments || (!NamesId(payments, p.id) && OnAccount(start, b, p))
    ensures OnAccount(start, AllCopied(start, b, payments, opening, {}), p)
    decreases |payments|
  {
    if payments != [] {
      var q, rest := payments[0], payments[1..];
      NamesRest(payments);
      assert p in payments <==> p == q || p in rest by { assert payments == [q] + rest; }
      assert NamesId(payments, q.id);
      if q.id <= opening || !ToCopy(start, q) {
        assert p == q ==> OnAccount(start, b, p);
        hide SeatInv, OnAccount, FindLive, ToCopy, NamesId, OnePerId;
        AllCopiedAccounts(start, b, rest, opening, p);
      } else {
        hide SeatInv, OnAccount, FindLive, ToCopy, NamesId, OnePerId, Copied;
        OneCopied(start, b, p, q);
        AllCopiedAccounts(start, Copied(start, b, q), rest, opening, p);
      }
    }
  }

  lemma OneCopied(start: seq<Entry>, b: Book, p: LcPayment, q: LcPayment)
    requires SeatInv(b) && FindLive(b.entries, PaymentKey(q.id)) == FindLive(start, PaymentKey(q.id)) && ToCopy(start, q)
    ensures SeatInv(Copied(start, b, q))
    ensures forall i: nat :: i != q.id ==>
      FindLive(Copied(start, b, q).entries, PaymentKey(i)) == FindLive(b.entries, PaymentKey(i))
    ensures p == q || (p.id != q.id && OnAccount(start, b, p)) ==> OnAccount(start, Copied(start, b, q), p)
  {
    var next := Copied(start, b, q);
    forall i: nat ensures i != q.id ==> FindLive(next.entries, PaymentKey(i)) == FindLive(b.entries, PaymentKey(i)) {
      CopiedFinds(start, b, q, i);
    }
    CopiedFinds(start, b, q, q.id);
    CopiedKeeps(start, b, q);
    CopyKeepsAccounts(start, b, q);
    CopiedFinds(start, b, q, p.id);
    hide Copied, SeatInv, FindLive, Matches, AccountAmong;
    AccountStands(start, b, next, p, q);
  }

  lemma NamesRest(payments: seq<LcPayment>)
    requires OnePerId(payments) && payments != []
    ensures OnePerId(payments[1..]) && !NamesId(payments[1..], payments[0].id)
    ensures forall i :: NamesId(payments[1..], i) ==> NamesId(payments, i)
    ensures forall i :: NamesId(payments, i) ==> i == payments[0].id || NamesId(payments[1..], i)
  {
    var rest := payments[1..];
    assert forall k :: 0 <= k < |rest| ==> rest[k] == payments[k + 1];
    forall i | NamesId(rest, i) ensures NamesId(payments, i) && i != payments[0].id {
      var k :| 0 <= k < |rest| && rest[k].id == i;
      assert payments[k + 1].id == i;
    }
    forall i | NamesId(payments, i) ensures i == payments[0].id || NamesId(rest, i) {
      var k :| 0 <= k < |payments| && payments[k].id == i;
      if k > 0 { assert rest[k - 1].id == i; }
    }
  }

  lemma AccountStands(start: seq<Entry>, b: Book, next: Book, p: LcPayment, q: LcPayment)
    requires |b.accounts| <= |next.accounts| && next.accounts[..|b.accounts|] == b.accounts
    requires p.id != q.id ==> FindLive(next.entries, PaymentKey(p.id)) == FindLive(b.entries, PaymentKey(p.id))
    requires var row := FindLive(next.entries, PaymentKey(q.id)); row.Some? && WrittenFor(next, row.value, q)
    ensures OnAccount(start, b, p) && p.id != q.id ==> OnAccount(start, next, p)
    ensures p == q && ToCopy(start, q) ==> OnAccount(start, next, p)
  {
    var row := FindLive(b.entries, PaymentKey(p.id));
    assert row.Some? && row.value.account < |b.accounts| ==>
      next.accounts[row.value.account] == next.accounts[..|b.accounts|][row.value.account];
    hide FindLive, Matches;
  }

  ghost predicate OnStudent(b: Book, row: Entry, student: nat) {
    row.account < |b.accounts| && b.accounts[row.account] == Some(student)
  }

  /** The pass compares amount, day, kind and method, not the student.  So after it a payment is on its student's account
      exactly when before it one of those had changed, or it had no row, or its row was on that account already: one that
      lc-up has only moved to another student stays with the first. */
  lemma PaymentFollowsItsStudentIff(b: Book, payments: seq<LcPayment>, opening: nat, p: LcPayment)
    requires SeatInv(b) && OnePerId(payments) && p in payments && p.id > opening
    ensures var after, was := Mirrored(b, payments, opening, {}), FindLive(b.entries, PaymentKey(p.id));
            var row := FindLive(after.entries, PaymentKey(p.id));
            row.Some? &&
            (OnStudent(after, row.value, p.student) <==>
              was.None? || !Says(was.value, p) || OnStudent(b, was.value, p.student)) &&
            (was.Some? && Says(was.value, p) ==> row == was) &&
            (was.None? || !Says(was.value, p) ==> WrittenFor(after, row.value, p))
  {
    var copied := AllCopiedKeeps(b.entries, b, payments, opening, {});
    var after := Mirrored(b, payments, opening, {});
    AllCopiedAccounts(b.entries, b, payments, opening, p);
    var i :| 0 <= i < |payments| && payments[i] == p;
    assert NamesId(payments, p.id) by { assert payments[i].id == p.id; }
    SeenIffNamed(payments, opening, p.id);
    DeletedFinds(copied.entries, SeenIds(payments, opening), DELETED_PAYMENT, p.id);
    assert after.accounts == copied.accounts;
    if FindLive(b.entries, PaymentKey(p.id)).Some? {
      LiveRowOK(b, PaymentKey(p.id));
      MatchesIs(FindLive(b.entries, PaymentKey(p.id)).value, p);
    }
    hide FindLive, Matches, Says, AllCopied, SeenIds, Voided, SeatInv;
  }

  lemma FirstCopied(p: LcPayment, opening: nat)
    requires p.id > opening
    ensures Mirrored(Book([], [], [], [], None), [p], opening, {}) == Book([Some(p.student)], [], [], [PaymentRow(p, 0)], None)
  {
    var empty := Book([], [], [], [], None);
    assert Copied([], empty, p) == Book([Some(p.student)], [], [], [PaymentRow(p, 0)], None);
    assert AllCopied([], empty, [p], opening, {}) == Copied([], empty, p);
    hide Copied;
    NotDeleted(PaymentRow(p, 0), [p], opening, p);
  }

  lemma NotDeleted(row: Entry, payments: seq<LcPayment>, opening: nat, p: LcPayment)
    requires p in payments && p.id > opening && row.key == PaymentKey(p.id)
    ensures Voided([row], PaymentsOutside(SeenIds(payments, opening)), DELETED_PAYMENT) == [row]
  {
    assert p.id in SeenIds(payments, opening);
  }

  /** A payment copied for one student, which lc-up then moves to another and changes in nothing else. */
  lemma MovedPaymentStaysBehind(p: LcPayment, other: nat, opening: nat)
    requires p.id > opening && p.student != other
    ensures var b := Mirrored(Book([], [], [], [], None), [p], opening, {});
            var b' := Mirrored(b, [p.(student := other)], opening, {});
            b' == b && b'.accounts == [Some(p.student)] &&
            b'.entries == [PaymentRow(p, 0)] && OnStudent(b', b'.entries[0], p.student)
  {
    var moved, row := p.(student := other), PaymentRow(p, 0);
    var b := Book([Some(p.student)], [], [], [row], None);
    FirstCopied(p, opening);
    NotDeleted(row, [moved], opening, moved);
    hide Mirrored, Copied, SeenIds, Voided;
    assert FindLive([row], PaymentKey(moved.id)) == Some(row) by { FindUnique([row], 0); }
    assert !ToCopy([row], moved);
    NothingToCopy([row], b, [moved], opening, {});
    assert Mirrored(b, [moved], opening, {}) == b by { MirroredSame(b, [moved], opening, {}); }
  }

  lemma MirroredSame(b: Book, payments: seq<LcPayment>, opening: nat, failing: set<nat>)
    requires AllCopied(b.entries, b, payments, opening, failing) == b
    requires Voided(b.entries, PaymentsOutside(SeenIds(payments, opening)), DELETED_PAYMENT) == b.entries
    ensures Mirrored(b, payments, opening, failing) == b
  {
    hide AllCopied, SeenIds, Voided;
  }
}
