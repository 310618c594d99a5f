/** A price agreed for one student: this month's charge is written again, other live rows and everyone else's stand, and
    earlier months that were never charged are charged at the new price. */
module PersonalPrices {
  import opened Wrappers
  import opened Calendar
  import opened Lessons
  import opened Entries
  import opened Books
  import opened Billing
  import opened LedgerSafety

  /** Whether the change rewrites the span. */
  predicate Rewritten(b: Book, seat: nat, s: nat)
    requires s < |b.spans|
  {
    b.spans[s].seat == seat && b.spans[s].end.None?
  }

  /** One span's charge of the month voided, and the span billed. */
  function RewrittenSpan(b: Book, s: nat, reason: string, today: Day): Book
    requires s < |b.spans| && b.spans[s].seat < |b.seats|
  {
    BillSpan(b.(entries := Voided(b.entries, ChargesIn(s, MonthOf(today)), reason)), s, today)
  }

  /** What is live under a key of the span after its month is written again; found is what was live before. */
  function RewrittenRow(found: Option<Entry>, seat: Seat, span: Span, s: nat, today: Day, key: Key): Option<Entry>
    requires IsSpanKey(key)
  {
    var kept := if key == ChargeKey(s, MonthOf(today)) then None else found;
    if key.ChargeKey? && key.span == s && MonthOf(span.start) <= key.month <= MonthOf(today) &&
       kept.None? && !span.InOpening(key.month) && Whole(seat, span, key.month) != 0
    then Some(ChargeRow(seat, span, s, key.month, Whole(seat, span, key.month)))
    else kept
  }

  lemma RewrittenSpanFinds(b: Book, s: nat, reason: string, today: Day, key: Key)
    requires Inv(b) && s < |b.spans| && b.spans[s].end.None? && IsSpanKey(key)
    ensures FindLive(RewrittenSpan(b, s, reason, today).entries, key) ==
      if key.span == s then RewrittenRow(FindLive(b.entries, key), b.seats[b.spans[s].seat], b.spans[s], s, today, key)
      else FindLive(b.entries, key)
  {
    var choice := ChargesIn(s, MonthOf(today));
    FindSpanKeyVoided(b, choice, reason, key);
    SpanBilledFinds(Voided(b.entries, choice, reason), b.seats[b.spans[s].seat], b.spans[s], s, today, key);
    if key.span == s && key.EndKey? {
      assert CreditOK(b.entries, b.spans[s], s, key.month);
    }
    hide FindLive, MonthAmount, MonthOf;
  }

  lemma RepricedStep(b: Book, seat: nat, id: nat, reason: string, today: Day, key: Key) returns (once: Book)
    requires Inv(b) && IsSpanKey(key) && !Blank(reason) && id < |b.spans| && Rewritten(b, seat, id)
    ensures Inv(once) && once.spans == b.spans && once.seats == b.seats
    ensures RepricedFrom(b, seat, id, reason, today) == RepricedFrom(once, seat, id + 1, reason, today)
    ensures FindLive(once.entries, key) ==
      if key.span == id then RewrittenRow(FindLive(b.entries, key), b.seats[seat], b.spans[id], id, today, key) else FindLive(b.entries, key)
  {
    once := RewrittenSpan(b, id, reason, today);
    RepriceOneKeeps(b, id, reason, today);
    RewrittenSpanFinds(b, id, reason, today, key);
    hide FindLive, MonthAmount, MonthOf, RewrittenRow;
  }

  lemma {:induction false} RepricedFinds(b: Book, seat: nat, id: nat, reason: string, today: Day, key: Key)
    requires Inv(b) && IsSpanKey(key) && !Blank(reason)
    ensures FindLive(RepricedFrom(b, seat, id, reason, today).entries, key) ==
      if id <= key.span < |b.spans| && Rewritten(b, seat, key.span)
      then RewrittenRow(FindLive(b.entries, key), b.seats[seat], b.spans[key.span], key.span, today, key)
      else FindLive(b.entries, key)
    decreases |b.spans| - id
  {
    hide FindLive, RewrittenRow, IsSpanKey, Blank, MonthOf, BillSpan, Voided;
    if id < |b.spans| && Rewritten(b, seat, id) {
      var once := RepricedStep(b, seat, id, reason, today, key);
      hide Inv, RepricedFrom;
      RepricedFinds(once, seat, id + 1, reason, today, key);
    } else if id < |b.spans| {
      RepricedSkips(b, seat, id, reason, today);
      hide Inv, RepricedFrom;
      RepricedFinds(b, seat, id + 1, reason, today, key);
    }
  }

  lemma RepricedSkips(b: Book, seat: nat, id: nat, reason: string, today: Day)
    requires SpansOnSeats(b) && id < |b.spans| && !Rewritten(b, seat, id)
    ensures RepricedFrom(b, seat, id, reason, today) == RepricedFrom(b, seat, id + 1, reason, today)
  {
  }

  /** A new personal price: on the seat's running spans this month's charge is the new price's, other live charges stand,
      and every other span's rows are as they were. */
  lemma NewPriceRewritesThisMonth(b: Book, seat: nat, price: Option<int>, reason: string, today: Day, key: Key)
    requires Inv(b) && seat < |b.seats| && IsSpanKey(key) && key.span < |b.spans|
    requires SetPersonalPrice(b, seat, price, reason, today).Done?
    requires SetPersonalPrice(b, seat, price, reason, today).value != b
    ensures var b' := SetPersonalPrice(b, seat, price, reason, today).value;
            var span, month := b.spans[key.span], MonthOf(today);
            b'.spans == b.spans && |b'.seats| == |b.seats| &&
            (!Rewritten(b, seat, key.span) ==> FindLive(b'.entries, key) == FindLive(b.entries, key)) &&
            (Rewritten(b, seat, key.span) && key == ChargeKey(key.span, month) ==>
              FindLive(b'.entries, key) ==
                if MonthOf(span.start) <= month && !span.InOpening(month) && Whole(b'.seats[seat], span, month) != 0
                then Some(ChargeRow(b'.seats[seat], span, key.span, month, Whole(b'.seats[seat], span, month))) else None) &&
            (key != ChargeKey(key.span, month) && FindLive(b.entries, key).Some? ==>
              FindLive(b'.entries, key) == FindLive(b.entries, key))
  {
    var wanted: Option<nat> := if price.None? then None else Some(price.value);
    var priced := b.(seats := b.seats[seat := b.seats[seat].(personalPrice := wanted)]);
    SeatsChangedKeeps(b, priced);
    assert PriceText(reason)[0] == 'N';
    RepricedFinds(priced, seat, 0, PriceText(reason), today, key);
    RepricedTables(priced, seat, 0, PriceText(reason), today);
    hide RepricedFrom, FindLive, MonthAmount, MonthOf;
  }

  /** The seat as the new price makes it. */
  function Repriced(seat: Seat, price: Option<int>): Seat
    requires price.Some? ==> 0 <= price.value
  {
    seat.(personalPrice := if price.None? then None else Some(price.value))
  }

  /** A price the ledger takes, and that is not the seat's already. */
  predicate NewPrice(b: Book, seat: nat, price: Option<int>, reason: string)
    requires seat < |b.seats|
  {
    !Blank(reason) && (price.Some? ==> 0 <= price.value <= MAX_AMOUNT) && Repriced(b.seats[seat], price) != b.seats[seat]
  }

  /** A price is taken with a reason that is not blank and an amount from nothing to 50 million, none standing for the group's
      price again; then it is the seat's, and nothing else of any seat or span has changed.  The reason is asked for first. */
  lemma PriceTakenExactly(b: Book, seat: nat, price: Option<int>, reason: string, today: Day)
    requires seat < |b.seats| && SpansOnSeats(b)
    ensures var r := SetPersonalPrice(b, seat, price, reason, today);
            if forall i :: 0 <= i < |reason| ==> IsSpace(reason[i]) then r == Refused(NoReason)
            else if price.Some? && !(0 <= price.value <= 50_000_000) then r == Refused(BadPrice)
            else
              r.Done? && r.value.accounts == b.accounts && r.value.spans == b.spans && r.value.openedOn == b.openedOn &&
              |r.value.seats| == |b.seats| && (price.None? <==> r.value.seats[seat].personalPrice.None?) &&
              (price.Some? ==> r.value.seats[seat].personalPrice.value == price.value) &&
              r.value.seats == b.seats[seat := b.seats[seat].(personalPrice := r.value.seats[seat].personalPrice)]
  {
    hide RepricedFrom;
    if !Blank(reason) && (price.Some? ==> 0 <= price.value <= MAX_AMOUNT) {
      var priced := b.(seats := b.seats[seat := Repriced(b.seats[seat], price)]);
      if priced.seats[seat] == b.seats[seat] {
        assert priced.seats == b.seats;
      } else {
        RepricedTables(priced, seat, 0, PriceText(reason), today);
      }
    }
  }

  /** The change voids and writes nothing under the keys of the span's earlier months. */
  ghost predicate EarlierMonthsStand(b: Book, b': Book, s: nat, today: Day) {
    forall key :: IsSpanKey(key) && key.span == s && key.month < MonthOf(today) ==>
      FindLive(b'.entries, key) == FindLive(b.entries, key)
  }

  /** Each earlier month the span owes has a live charge, or costs nothing at the price. */
  ghost predicate EarlierMonthsCharged(b: Book, seat: Seat, s: nat, today: Day)
    requires s < |b.spans|
  {
    forall m: Month :: MonthOf(b.spans[s].start) <= m < MonthOf(today) && !b.spans[s].InOpening(m) ==>
      FindLive(b.entries, ChargeKey(s, m)).Some? || Whole(seat, b.spans[s], m) == 0
  }

  lemma PricedFinds(b: Book, seat: nat, price: Option<int>, reason: string, today: Day, key: Key)
    requires Inv(b) && seat < |b.seats| && IsSpanKey(key) && key.span < |b.spans| && NewPrice(b, seat, price, reason)
    ensures SetPersonalPrice(b, seat, price, reason, today).Done?
    ensures FindLive(SetPersonalPrice(b, seat, price, reason, today).value.entries, key) ==
      if Rewritten(b, seat, key.span)
      then RewrittenRow(FindLive(b.entries, key), Repriced(b.seats[seat], price), b.spans[key.span], key.span, today, key)
      else FindLive(b.entries, key)
  {
    var priced := b.(seats := b.seats[seat := Repriced(b.seats[seat], price)]);
    SeatsChangedKeeps(b, priced);
    assert PriceText(reason)[0] == 'N';
    hide FindLive, Whole, MonthOf, RewrittenRow, RepricedFrom;
    RepricedFinds(priced, seat, 0, PriceText(reason), today, key);
  }

  /** Earlier months are promised to stay as they were.  They do, span by span, exactly when each one owed was charged
      already or costs nothing at the new price: the span is billed from its first month, and a month without a live charge
      gets one. */
  lemma EarlierMonthsStandIff(b: Book, seat: nat, price: Option<int>, reason: string, today: Day, s: nat)
    requires Inv(b) && seat < |b.seats| && s < |b.spans| && Rewritten(b, seat, s) && NewPrice(b, seat, price, reason)
    ensures SetPersonalPrice(b, seat, price, reason, today).Done?
    ensures EarlierMonthsStand(b, SetPersonalPrice(b, seat, price, reason, today).value, s, today) <==>
            EarlierMonthsCharged(b, Repriced(b.seats[seat], price), s, today)
  {
    PricedFinds(b, seat, price, reason, today, ChargeKey(s, 0));
    var b', priced, span := SetPersonalPrice(b, seat, price, reason, today).value, Repriced(b.seats[seat], price), b.spans[s];
    forall key | IsSpanKey(key) && key.span == s
      ensures FindLive(b'.entries, key) == RewrittenRow(FindLive(b.entries, key), priced, span, s, today, key)
    {
      PricedFinds(b, seat, price, reason, today, key);
    }
    hide SetPersonalPrice, FindLive, Whole, MonthOf, Inv;
    if EarlierMonthsStand(b, b', s, today) {
      forall m: Month | MonthOf(span.start) <= m < MonthOf(today) && !span.InOpening(m)
        ensures FindLive(b.entries, ChargeKey(s, m)).Some? || Whole(priced, span, m) == 0
      {
        assert FindLive(b'.entries, ChargeKey(s, m)) == FindLive(b.entries, ChargeKey(s, m));
      }
    }
  }

  /** An earlier month the span owes and was never charged for is charged, at the new price. */
  lemma UnchargedMonthIsCharged(b: Book, seat: nat, price: Option<int>, reason: string, today: Day, s: nat, month: Month)
    requires Inv(b) && seat < |b.seats| && s < |b.spans| && Rewritten(b, seat, s) && NewPrice(b, seat, price, reason)
    requires MonthOf(b.spans[s].start) <= month < MonthOf(today) && !b.spans[s].InOpening(month)
    requires FindLive(b.entries, ChargeKey(s, month)).None?
    ensures SetPersonalPrice(b, seat, price, reason, today).Done?
    ensures var whole := Whole(Repriced(b.seats[seat], price), b.spans[s], month);
            var row := FindLive(SetPersonalPrice(b, seat, price, reason, today).value.entries, ChargeKey(s, month));
            if whole == 0 then row.None? else row.Some? && row.value.amount == -whole
  {
    PricedFinds(b, seat, price, reason, today, ChargeKey(s, month));
    hide FindLive, Whole, MonthOf, SetPersonalPrice;
  }

  lemma {:induction false} RepricedTables(b: Book, seat: nat, id: nat, reason: string, today: Day)
    requires SpansOnSeats(b)
    ensures RepricedFrom(b, seat, id, reason, today) == b.(entries := RepricedFrom(b, seat, id, reason, today).entries)
    decreases |b.spans| - id
  {
    if id < |b.spans| {
      if Rewritten(b, seat, id) {
        RepricedTables(RewrittenSpan(b, id, reason, today), seat, id + 1, reason, today);
      } else {
        RepricedTables(b, seat, id + 1, reason, today);
      }
    }
  }
}
