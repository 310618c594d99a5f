/** What following one membership does to the dates of the spans, rows aside. */
module HeardSpans {
  import opened Wrappers
  import opened Calendar
  import opened Entries
  import opened Books
  import opened LedgerSafety
  import opened Shadow
  import opened ShadowSafety

  function EndedAt(span: Span, day: Day, why: EndReason): Span {
    span.(end := Some(day), endedBy := Some(why))
  }

  /** The spans after each thing heard, rows aside. */
  function SpansHeard(spans: seq<Span>, i: nat, told: Told): seq<Span>
    requires told.Ended? || told.StartMoved? || told.EndMoved? ==> told.span < |spans|
  {
    match told
    case Nothing => spans
    case Ended(s, day, why) => spans[s := EndedAt(spans[s], day, why)]
    case Started(day) => spans + [Span(i, day, None, None, None)]
    case StartMoved(s, day) => spans[s := spans[s].(start := day)]
    case EndMoved(s, day) => spans[s := spans[s].(end := Some(day))]
  }

  lemma MovedSpans(b: Book, id: nat, start: Option<Day>, end: Option<Day>, reason: string, today: Day)
    requires id < |b.spans| && b.spans[id].seat < |b.seats| && !Blank(reason)
    ensures MovedOrSame(b, id, start, end, reason, today).spans ==
            b.spans[id := b.spans[id].(start := if start.Some? then start.value else b.spans[id].start,
                                       end := Or(end, b.spans[id].end))]
  {
    hide SpanBilled, Voided, HasLive, MonthOf, Blank;
  }

  lemma FollowedSpans(b: Book, i: nat, m: Membership, state: SeatState, today: Day)
    requires SeatInv(b) && i < |b.seats| && m.price >= 0 && (state == Left ==> m.HasLeft())
    ensures var told, next := ToldOf(b, i, m, state, today), SeatFollowed(b, i, m, state, today);
            (told.Ended? || told.StartMoved? || told.EndMoved? ==> told.span < |b.spans|) &&
            next.Some? && next.value.spans == SpansHeard(b.spans, i, told) &&
            next.value.seats == b.seats[i := SeatSeen(b.seats[i], m, state)]
  {
    var told, seen := ToldOf(b, i, m, state, today), b.(seats := b.seats[i := SeatSeen(b.seats[i], m, state)]);
    FollowedIsHeard(b, i, m, state, today);
    ToldFits(b, i, m, state, today);
    FollowedTables(b, i, m, state, today);
    assert START_MOVED[0] == 'l' && LEAVING_MOVED[0] == 'l';
    if told.StartMoved? {
      MovedSpans(seen, told.span, Some(told.day), None, START_MOVED, today);
    } else if told.EndMoved? {
      MovedSpans(seen, told.span, None, Some(told.day), LEAVING_MOVED, today);
    }
    hide SeatFollowed, ToldOf, SeatInv, SpanBilled, Voided, MovedOrSame, MonthOf;
  }
}
