/**
 The ledger's tables as one value, and what each operation of the ledger does to them.  The class in Ledgers.dfy
 carries these out in place, in the steps and loops of the program; what the operations are worth is proved about
 the functions here.
 */
module Books {
  import opened Wrappers
  import opened Calendar
  import opened Lessons
  import opened Entries

  datatype SeatState = Active | Trial | Frozen | Left

  datatype Seat = Seat(
    account: nat,
    lcupGroup: Option<nat>,
    group: string,
    price: nat,
    personalPrice: Option<nat>,
    days: seq<int>,
    state: SeatState,
    startSeen: Option<Day>,
    leftSeen: Option<Day>)
  {
    function ChargePrice(): nat {
      if personalPrice.None? then price else personalPrice.value
    }
  }

  datatype EndReason = Leave | Freeze

  datatype Span = Span(
    seat: nat,
    start: Day,
    end: Option<Day>,
    endedBy: Option<EndReason>,
    openingMonth: Option<Month>)
  {
    /** The last month the span is billed for, once it has ended. */
    function EndMonth(): Option<Month> {
      if end.None? then None
      else if MonthOf(end.value) < MonthOf(start) then Some(MonthOf(start))
      else Some(MonthOf(end.value))
    }

    /** Whether the opening balance already carries the month's charge. */
    predicate InOpening(month: Month) {
      openingMonth.Some? && month <= openingMonth.value
    }
  }

  /** accounts holds each account's lc-up student id; ids of every table are positions. */
  datatype Book = Book(
    accounts: seq<Option<nat>>,
    seats: seq<Seat>,
    spans: seq<Span>,
    entries: seq<Entry>,
    openedOn: Option<Day>)

  const MAX_AMOUNT := 50_000_000

  ghost predicate SpansOnSeats(b: Book) {
    forall s :: 0 <= s < |b.spans| ==> b.spans[s].seat < |b.seats|
  }

  // ---------- billing a span ----------

  /** The month's price from the span's start. */
  function Whole(seat: Seat, span: Span, month: Month): int {
    MonthAmount(seat.ChargePrice(), seat.days, month, Some(span.start), None)
  }

  function ChargeRow(seat: Seat, span: Span, id: nat, month: Month, amount: int): Entry {
    Entry(seat.account, Some(id), Charge, -amount, Max(span.start, FirstDay(month)), Some(month),
          ChargeKey(id, month), "", "", None)
  }

  function CreditRow(seat: Seat, span: Span, id: nat, month: Month, amount: int): Entry
    requires span.end.Some?
  {
    Entry(seat.account, Some(id), Credit, amount, span.end.value, Some(month), EndKey(id, month), "", "", None)
  }

  function GivenBack(rows: seq<Entry>, seat: Seat, span: Span, id: nat, month: Month, charged: int, whole: int): seq<Entry>
    requires span.end.Some?
  {
    var price := if whole == seat.ChargePrice() then charged else seat.ChargePrice();
    var kept := MonthAmount(price, seat.days, month, Some(span.start), span.end);
    if charged > kept then Posted(rows, CreditRow(seat, span, id, month, charged - kept)) else rows
  }

  function ChargePosted(rows: seq<Entry>, seat: Seat, span: Span, id: nat, month: Month): seq<Entry> {
    var whole := Whole(seat, span, month);
    if span.InOpening(month) || whole == 0 then rows else Posted(rows, ChargeRow(seat, span, id, month, whole))
  }

  function Charged(rows: seq<Entry>, seat: Seat, span: Span, id: nat, month: Month): int {
    if span.InOpening(month) then Whole(seat, span, month)
    else
      var row := FindLive(rows, ChargeKey(id, month));
      if row.Some? then -row.value.amount else 0
  }

  function MonthBilled(rows: seq<Entry>, seat: Seat, span: Span, id: nat, month: Month): seq<Entry> {
    var posted := ChargePosted(rows, seat, span, id, month);
    if span.EndMonth() == Some(month) then
      GivenBack(posted, seat, span, id, month, Charged(posted, seat, span, id, month), Whole(seat, span, month))
    else
      posted
  }

  function MonthsBilled(rows: seq<Entry>, seat: Seat, span: Span, id: nat, month: Month, last: int): seq<Entry>
    decreases last - month
  {
    if month > last then rows
    else MonthsBilled(MonthBilled(rows, seat, span, id, month), seat, span, id, month + 1, last)
  }

  function LastMonth(span: Span, today: Day): Month {
    var end := span.EndMonth();
    if end.Some? then Min(end.value, MonthOf(today)) else MonthOf(today)
  }

  function SpanBilled(rows: seq<Entry>, seat: Seat, span: Span, id: nat, today: Day): seq<Entry> {
    MonthsBilled(rows, seat, span, id, MonthOf(span.start), LastMonth(span, today))
  }

  function BillSpan(b: Book, id: nat, today: Day): Book
    requires id < |b.spans| && b.spans[id].seat < |b.seats|
  {
    b.(entries := SpanBilled(b.entries, b.seats[b.spans[id].seat], b.spans[id], id, today))
  }

  /** The spans a new month's charge can reach. */
  predicate Running(span: Span, today: Day) {
    span.end.None? || span.end.value >= FirstDay(MonthOf(today))
  }

  /** Bill every running span from the id on; the spans that fail are left as they were. */
  function BillOpenFrom(b: Book, id: nat, today: Day, failing: set<nat>): Book
    requires SpansOnSeats(b)
    decreases |b.spans| - id
  {
    if id >= |b.spans| then b
    else if Running(b.spans[id], today) && id !in failing then BillOpenFrom(BillSpan(b, id, today), id + 1, today, failing)
    else BillOpenFrom(b, id + 1, today, failing)
  }

  // ---------- a span's life ----------

  function StartSpan(b: Book, seat: nat, day: Day, today: Day, opening: Option<Month>): Book
    requires seat < |b.seats|
  {
    BillSpan(b.(spans := b.spans + [Span(seat, day, None, None, opening)]), |b.spans|, today)
  }

  function EndText(why: EndReason): string {
    if why == Leave then "leave: the seat ended" else "freeze: the seat ended"
  }

  function EndSpan(b: Book, id: nat, day: Day, why: EndReason, today: Day): Book
    requires id < |b.spans| && b.spans[id].seat < |b.seats|
  {
    var ended := b.(spans := b.spans[id := b.spans[id].(end := Some(day), endedBy := Some(why))]);
    BillSpan(ended.(entries := Voided(b.entries, ChargesAfter(id, MonthOf(day)), EndText(why))), id, today)
  }

  function Or<T>(a: Option<T>, b: Option<T>): Option<T> {
    if a.Some? then a else b
  }

  /** Whether a live row of the span exists. */
  predicate HasLive(rows: seq<Entry>, id: nat) {
    exists i :: 0 <= i < |rows| && rows[i].Live() && rows[i].span == Some(id)
  }

  /** A row cannot be voided without a reason: the whole change is refused, and None is its answer. */
  function MoveSpan(b: Book, id: nat, start: Option<Day>, end: Option<Day>, reason: string, today: Day): Option<Book>
    requires id < |b.spans| && b.spans[id].seat < |b.seats|
  {
    var span := b.spans[id];
    var moved := span.(start := if start.Some? then start.value else span.start, end := Or(end, span.end));
    if moved == span then Some(b)
    else if Blank(reason) && HasLive(b.entries, id) then None
    else
      Some(BillSpan(b.(spans := b.spans[id := moved], entries := Voided(b.entries, RowsOf(id), reason)), id, today))
  }

  // ---------- a personal price ----------

  datatype Refusal = NoReason | BadPrice | OtherStudent | NotOpen | FutureDay | BeforeOpening | BadAmount | NoMethod
                   | BadKind | NotByHand | AlreadyVoided

  datatype Outcome<T> = Done(value: T) | Refused(why: Refusal)

  /** This month's charge of every open span of the seat, from the id on, voided and written again. */
  function RepricedFrom(b: Book, seat: nat, id: nat, reason: string, today: Day): Book
    requires SpansOnSeats(b)
    decreases |b.spans| - id
  {
    if id >= |b.spans| then b
    else if b.spans[id].seat == seat && b.spans[id].end.None? then
      var voided := b.(entries := Voided(b.entries, ChargesIn(id, MonthOf(today)), reason));
      RepricedFrom(BillSpan(voided, id, today), seat, id + 1, reason, today)
    else
      RepricedFrom(b, seat, id + 1, reason, today)
  }

  function PriceText(reason: string): string {
    "New personal price: " + reason
  }

  function SetPersonalPrice(b: Book, seat: nat, price: Option<int>, reason: string, today: Day): Outcome<Book>
    requires seat < |b.seats| && SpansOnSeats(b)
  {
    if Blank(reason) then Refused(NoReason)
    else if price.Some? && (price.value < 0 || price.value > MAX_AMOUNT) then Refused(BadPrice)
    else
      var wanted: Option<nat> := if price.None? then None else Some(price.value);
      if b.seats[seat].personalPrice == wanted then Done(b)
      else
        var priced := b.(seats := b.seats[seat := b.seats[seat].(personalPrice := wanted)]);
        Done(RepricedFrom(priced, seat, 0, PriceText(reason), today))
  }

  // ---------- money a person enters ----------

  const METHODS := ["Naqd pul", "Plastik karta", "Bank hisobi"]

  /** The first row ever written under the key, live or not. */
  function FirstOf(rows: seq<Entry>, key: Key): (r: Option<Entry>)
    ensures r.Some? ==> r.value in rows && r.value.key == key
    ensures r.None? <==> forall i :: 0 <= i < |rows| ==> rows[i].key != key
  {
    if rows == [] then None
    else
      var earlier := FirstOf(rows[..|rows| - 1], key);
      if earlier.Some? then earlier
      else if rows[|rows| - 1].key == key then Some(rows[|rows| - 1]) else None
  }

  predicate GoodAmount(amount: int) {
    0 < amount <= MAX_AMOUNT
  }

  datatype Money = Money(account: nat, kind: Kind, amount: int, day: Day, request: string, paidBy: string, note: string)

  /** What is wrong with the money, in the order it is looked at. */
  function MoneyRefusal(m: Money, openedOn: Option<Day>, today: Day): Option<Refusal> {
    if openedOn.None? then Some(NotOpen)
    else if m.day > today then Some(FutureDay)
    else if m.day < openedOn.value then Some(BeforeOpening)
    else if m.kind == Adjust then
      if !GoodAmount(if m.amount < 0 then -m.amount else m.amount) then Some(BadAmount)
      else if Blank(m.note) then Some(NoReason)
      else None
    else if m.kind == Payment || m.kind == Refund then
      if !GoodAmount(m.amount) then Some(BadAmount)
      else if m.paidBy !in METHODS then Some(NoMethod)
      else None
    else
      Some(BadKind)
  }

  function MoneyRow(m: Money): Entry {
    Entry(m.account, None, m.kind, if m.kind == Refund then -m.amount else m.amount, m.day, None,
          ManualKey(m.request), if m.kind == Adjust then "" else m.paidBy, m.note, None)
  }

  /** The row the request stands for, and the book with it written. */
  function EnterMoney(b: Book, m: Money, today: Day): Outcome<(Book, Entry)> {
    var existing := FirstOf(b.entries, ManualKey(m.request));
    if existing.Some? then
      if existing.value.account != m.account then Refused(OtherStudent) else Done((b, existing.value))
    else
      var refusal := MoneyRefusal(m, b.openedOn, today);
      if refusal.Some? then Refused(refusal.value)
      else Done((b.(entries := Posted(b.entries, MoneyRow(m))), MoneyRow(m)))
  }

  function VoidEntered(b: Book, row: nat, reason: string): Outcome<Book>
    requires row < |b.entries|
  {
    var entry := b.entries[row];
    if !entry.key.ManualKey? then Refused(NotByHand)
    else if !entry.Live() then Refused(AlreadyVoided)
    else if Blank(reason) then Refused(NoReason)
    else Done(b.(entries := b.entries[row := entry.(voided := Some(reason))]))
  }
}
