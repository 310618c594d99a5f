/**
 The ledger's rows.  A row is written once, under a key, and stays as written, except that it may later be voided,
 once, with a reason.  At most one row of a key is live.
 */
module Entries {
  import opened Wrappers
  import opened Calendar

  datatype Kind = Opening | Charge | Credit | Payment | Refund | Adjust

  /** What a row is for.  Each constructor is one prefix of the key's text. */
  datatype Key =
    | OpeningKey(person: nat)
    | ChargeKey(span: nat, month: Month)
    | EndKey(span: nat, month: Month)
    | PaymentKey(payment: nat)
    | ManualKey(request: string)

  datatype Entry = Entry(
    account: nat,
    span: Option<nat>,
    kind: Kind,
    amount: int,
    day: Day,
    month: Option<Month>,
    key: Key,
    paidBy: string,
    note: string,
    voided: Option<string>)
  {
    predicate Live() { voided.None? }
  }

  // ---------- finding and writing ----------

  predicate LiveAt(rows: seq<Entry>, i: int, key: Key) {
    0 <= i < |rows| && rows[i].Live() && rows[i].key == key
  }

  /** The live row of a key. */
  function FindLive(rows: seq<Entry>, key: Key): (r: Option<Entry>)
    ensures r.Some? ==> r.value in rows && r.value.Live() && r.value.key == key
    ensures r.None? ==> forall i :: !LiveAt(rows, i, key)
  {
    if rows == [] then None
    else
      var last := rows[|rows| - 1];
      assert forall i :: LiveAt(rows, i, key) ==> i == |rows| - 1 || LiveAt(rows[..|rows| - 1], i, key);
      if last.Live() && last.key == key then Some(last) else FindLive(rows[..|rows| - 1], key)
  }

  /** The rows with one more, or as they are when its key is taken by a live row. */
  function Posted(rows: seq<Entry>, row: Entry): seq<Entry> {
    if FindLive(rows, row.key).Some? then rows else rows + [row]
  }

  ghost predicate UniqueLive(rows: seq<Entry>) {
    forall i, j :: 0 <= i < j < |rows| && rows[i].Live() && rows[j].Live() ==> rows[i].key != rows[j].key
  }

  lemma FindAppended(rows: seq<Entry>, row: Entry, key: Key)
    ensures FindLive(rows + [row], key) == if row.Live() && row.key == key then Some(row) else FindLive(rows, key)
  {
    assert (rows + [row])[..|rows|] == rows;
  }

  lemma FindPosted(rows: seq<Entry>, row: Entry, key: Key)
    requires row.Live()
    ensures FindLive(Posted(rows, row), key) ==
      if row.key == key && FindLive(rows, key).None? then Some(row) else FindLive(rows, key)
  {
    FindAppended(rows, row, key);
  }

  lemma PostedStaysUnique(rows: seq<Entry>, row: Entry)
    requires UniqueLive(rows)
    ensures UniqueLive(Posted(rows, row))
  {
    forall i, j | 0 <= i < j < |Posted(rows, row)| && Posted(rows, row)[i].Live() && Posted(rows, row)[j].Live()
      ensures Posted(rows, row)[i].key != Posted(rows, row)[j].key
    {
      if j == |rows| { assert !LiveAt(rows, i, row.key); }
    }
  }

  // With one live row a key, the row found is the row there is.
  lemma {:induction false} FindUnique(rows: seq<Entry>, i: nat)
    requires UniqueLive(rows) && i < |rows| && rows[i].Live()
    ensures FindLive(rows, rows[i].key) == Some(rows[i])
  {
    if i < |rows| - 1 {
      var init := rows[..|rows| - 1];
      FindUnique(init, i);
    }
  }

  // ---------- voiding ----------

  /** Which rows a change voids. */
  datatype Choice =
    | RowsOf(span: nat)
    | ChargesAfter(span: nat, month: Month)
    | ChargesIn(span: nat, month: Month)
    | RowWith(key: Key)
    | PaymentsOutside(seen: set<nat>)
  {
    predicate Takes(row: Entry) {
      match this
      case RowsOf(s) => row.span == Some(s)
      case ChargesAfter(s, m) => row.span == Some(s) && row.kind == Charge && row.month.Some? && row.month.value > m
      case ChargesIn(s, m) => row.span == Some(s) && row.kind == Charge && row.month == Some(m)
      case RowWith(k) => row.key == k
      case PaymentsOutside(seen) => row.key.PaymentKey? && row.key.payment !in seen
    }
  }

  function VoidIf(row: Entry, choice: Choice, reason: string): Entry {
    if row.Live() && choice.Takes(row) then row.(voided := Some(reason)) else row
  }

  /** Void every live row the choice takes. */
  function Voided(rows: seq<Entry>, choice: Choice, reason: string): (r: seq<Entry>)
    ensures |r| == |rows|
    ensures forall i :: 0 <= i < |rows| ==> r[i] == VoidIf(rows[i], choice, reason)
  {
    if rows == [] then [] else Voided(rows[..|rows| - 1], choice, reason) + [VoidIf(rows[|rows| - 1], choice, reason)]
  }

  lemma NoneBefore(rows: seq<Entry>, i: nat)
    requires UniqueLive(rows) && i < |rows| && rows[i].Live()
    ensures FindLive(rows[..i], rows[i].key).None?
  {
  }

  lemma {:induction false} FindVoided(rows: seq<Entry>, choice: Choice, reason: string, key: Key)
    requires UniqueLive(rows)
    ensures FindLive(Voided(rows, choice, reason), key) ==
      var row := FindLive(rows, key);
      if row.Some? && choice.Takes(row.value) then None else row
  {
    if rows != [] {
      var init, last := rows[..|rows| - 1], rows[|rows| - 1];
      FindVoided(init, choice, reason, key);
      var before := Voided(init, choice, reason);
      assert Voided(rows, choice, reason) == before + [VoidIf(last, choice, reason)];
      FindAppended(before, VoidIf(last, choice, reason), key);
      if last.Live() && last.key == key {
        NoneBefore(rows, |rows| - 1);
      }
    }
  }

  lemma VoidedStaysUnique(rows: seq<Entry>, choice: Choice, reason: string)
    requires UniqueLive(rows)
    ensures UniqueLive(Voided(rows, choice, reason))
  {
    forall i, j | 0 <= i < j < |rows| && Voided(rows, choice, reason)[i].Live() && Voided(rows, choice, reason)[j].Live()
      ensures Voided(rows, choice, reason)[i].key != Voided(rows, choice, reason)[j].key
    {
      assert rows[i].Live() && rows[j].Live();
    }
  }

  // ---------- history ----------

  /** A row later on: itself, or itself voided once with a reason. */
  predicate SameOrVoided(before: Entry, after: Entry) {
    after == before ||
    (before.Live() && after.voided.Some? && !Blank(after.voided.value) && after == before.(voided := after.voided))
  }

  /** Rows are only appended or voided. */
  ghost predicate Grown(before: seq<Entry>, after: seq<Entry>) {
    |before| <= |after| && forall i :: 0 <= i < |before| ==> SameOrVoided(before[i], after[i])
  }

  lemma GrownTransitive(a: seq<Entry>, b: seq<Entry>, c: seq<Entry>)
    requires Grown(a, b) && Grown(b, c)
    ensures Grown(a, c)
  {
    forall i | 0 <= i < |a| ensures SameOrVoided(a[i], c[i]) {
      assert SameOrVoided(a[i], b[i]) && SameOrVoided(b[i], c[i]);
    }
  }

  lemma VoidedIsGrown(rows: seq<Entry>, choice: Choice, reason: string)
    requires !Blank(reason)
    ensures Grown(rows, Voided(rows, choice, reason))
  {
  }

  // ---------- sums ----------

  /** What a person's live rows add up to; below zero, the person owes. */
  function Balance(rows: seq<Entry>, account: nat): int {
    if rows == [] then 0
    else
      var last := rows[|rows| - 1];
      Balance(rows[..|rows| - 1], account) + if last.Live() && last.account == account then last.amount else 0
  }

  function SpanTotal(rows: seq<Entry>, span: nat): int {
    if rows == [] then 0
    else
      var last := rows[|rows| - 1];
      SpanTotal(rows[..|rows| - 1], span) + if last.Live() && last.span == Some(span) then last.amount else 0
  }

  lemma BalanceAppended(rows: seq<Entry>, row: Entry, account: nat)
    ensures Balance(rows + [row], account) ==
      Balance(rows, account) + if row.Live() && row.account == account then row.amount else 0
  {
    assert (rows + [row])[..|rows|] == rows;
  }
}
