/** A classroom's lessons: the next one after a moment, the first so many, and those of a stretch of days. */
module LessonSchedule {
  import opened Wrappers
  import opened Calendar

  /** Microseconds of school time since midnight of day 0. */
  type Moment = nat

  const MINUTE := 60 * 1_000_000
  const DAY_LENGTH := 24 * 60 * MINUTE
  const DEFAULT_LESSON_MINUTES := 120

  /** lesson_days as stored: a value that is neither has no computable schedule. */
  datatype LessonDays = Odd | Even | OtherDays

  /** lessonMinute is lesson_time as read, when it can be: minutes after midnight. */
  datatype Classroom = Classroom(days: LessonDays, lessonMinute: Option<nat>, startDate: Option<Day>)

  predicate MeetsOn(c: Classroom, day: Day) {
    match c.days
    case Odd => day % 7 in {0, 2, 4}
    case Even => day % 7 in {1, 3, 5}
    case OtherDays => false
  }

  predicate Readable(c: Classroom) {
    c.days != OtherDays && c.lessonMinute.Some? && c.lessonMinute.value < 24 * 60
  }

  function StartOn(c: Classroom, day: Day): Moment
    requires c.lessonMinute.Some?
  {
    day * DAY_LENGTH + c.lessonMinute.value * MINUTE
  }

  function DayOf(moment: Moment): Day {
    moment / DAY_LENGTH
  }

  // ---------- one lesson's interval ----------

  /** lesson_time as read: a start, and an end when a readable one is written; minutes after midnight. */
  datatype LessonTime = LessonTime(start: nat, end: Option<nat>)

  function EndMinute(t: LessonTime): nat {
    if t.end.Some? then t.end.value else (t.start + DEFAULT_LESSON_MINUTES) % (24 * 60)
  }

  /** An end at or before the start belongs to the next day. */
  function LessonInterval(t: LessonTime, day: Day): (Moment, Moment) {
    var starts, ends := day * DAY_LENGTH + t.start * MINUTE, day * DAY_LENGTH + EndMinute(t) * MINUTE;
    (starts, if ends <= starts then ends + DAY_LENGTH else ends)
  }

  /** A lesson is never empty, never longer than a day, and a bare start lasts its two hours even past midnight. */
  lemma IntervalRunsForward(t: LessonTime, day: Day)
    requires t.start < 24 * 60 && (t.end.Some? ==> t.end.value < 24 * 60)
    ensures var (starts, ends) := LessonInterval(t, day);
            starts < ends <= starts + DAY_LENGTH && (t.end.None? ==> ends == starts + 7_200_000_000)
  {
    if t.end.None? && t.start + DEFAULT_LESSON_MINUTES >= 24 * 60 {
      assert EndMinute(t) == t.start + DEFAULT_LESSON_MINUTES - 24 * 60;
    }
  }

  // ---------- the lesson days ----------

  /** The first lesson day on or after a day. */
  function NextDay(c: Classroom, day: Day): (r: Day)
    requires c.days != OtherDays
    ensures day <= r <= day + 2 && MeetsOn(c, r)
    ensures forall d :: day <= d < r ==> !MeetsOn(c, d)
  {
    if MeetsOn(c, day) then day else if MeetsOn(c, day + 1) then day + 1 else day + 2
  }

  /** The lesson day number n, from 0, on or after a day. */
  function NthDay(c: Classroom, from: Day, n: nat): (r: Day)
    requires c.days != OtherDays
    ensures MeetsOn(c, r) && from <= r <= from + 2 + 3 * n
  {
    if n == 0 then NextDay(c, from) else NextDay(c, NthDay(c, from, n - 1) + 1)
  }

  /** Every lesson day from lo to the day before hi. */
  function DaysBetween(c: Classroom, lo: Day, hi: Day): seq<Day>
    decreases hi - lo
  {
    if lo >= hi then [] else DaysBetween(c, lo, hi - 1) + if MeetsOn(c, hi - 1) then [hi - 1] else []
  }

  method LessonDaysInRange(c: Classroom, first: Day, last: Day) returns (out: seq<Day>)
    ensures out == DaysBetween(c, first, last + 1)
    ensures forall day: Day :: day in out <==> first <= day <= last && OnItsWeekday(c, day)
  {
    RangeIsItsWeekdays(c, first, last + 1);
    if c.days == OtherDays || first > last {
      NoDaysBetween(c, first, last + 1);
      return [];
    }
    out := [];
    var day := first;
    while day <= last
      invariant first <= day <= last + 1
      invariant out == DaysBetween(c, first, day)
    {
      if MeetsOn(c, day) {
        out := out + [day];
      }
      day := day + 1;
    }
  }

  lemma {:induction false} NoDaysBetween(c: Classroom, lo: Day, hi: Day)
    requires c.days == OtherDays || lo >= hi
    ensures DaysBetween(c, lo, hi) == []
    decreases hi - lo
  {
    if lo < hi {
      NoDaysBetween(c, lo, hi - 1);
    }
  }

  // ---------- the next lesson ----------

  function ScanFrom(c: Classroom, after: Moment): Day {
    if c.startDate.Some? && c.startDate.value > DayOf(after) then c.startDate.value else DayOf(after)
  }

  function NextStart(c: Classroom, after: Moment): Moment
    requires Readable(c)
  {
    var day := NextDay(c, ScanFrom(c, after));
    if StartOn(c, day) > after then StartOn(c, day) else StartOn(c, NextDay(c, day + 1))
  }

  lemma LaterDayStartsLater(c: Classroom, a: Day, b: Day)
    requires Readable(c) && a < b
    ensures StartOn(c, a) < StartOn(c, b)
    ensures forall m: Moment :: DayOf(m) <= a ==> m < StartOn(c, b)
  {
    assert a * DAY_LENGTH + DAY_LENGTH <= b * DAY_LENGTH;
    forall m: Moment | DayOf(m) <= a ensures m < StartOn(c, b) {
      assert m < DayOf(m) * DAY_LENGTH + DAY_LENGTH;
    }
  }

  /** The least lesson start strictly after the moment and not before the class begins. */
  lemma NextStartIsLeast(c: Classroom, after: Moment)
    requires Readable(c)
    ensures exists d: Day :: MeetsOn(c, d) && NextStart(c, after) == StartOn(c, d) && (c.startDate.Some? ==> c.startDate.value <= d)
    ensures after < NextStart(c, after)
    ensures forall d: Day :: MeetsOn(c, d) && (c.startDate.Some? ==> c.startDate.value <= d) && after < StartOn(c, d) ==>
      NextStart(c, after) <= StartOn(c, d)
  {
    var first := NextDay(c, ScanFrom(c, after));
    var second := NextDay(c, first + 1);
    LaterDayStartsLater(c, first, second);
    assert DayOf(after) <= first;
    forall d: Day | MeetsOn(c, d) && (c.startDate.Some? ==> c.startDate.value <= d) && after < StartOn(c, d)
      ensures NextStart(c, after) <= StartOn(c, d)
    {
      StartsOnItsDay(c, d);
      assert DayOf(after) <= d by {
        if d < DayOf(after) {
          EarlierDayStartsBefore(c, d, after);
        }
      }
      assert first <= d;
      if first < d {
        LaterDayStartsLater(c, first, d);
        assert second <= d;
        if second < d { LaterDayStartsLater(c, second, d); }
      }
    }
  }

  lemma StartsOnItsDay(c: Classroom, day: Day)
    requires Readable(c)
    ensures DayOf(StartOn(c, day)) == day
  {
    var rest := c.lessonMinute.value * MINUTE;
    assert rest < DAY_LENGTH;
  }

  lemma EarlierDayStartsBefore(c: Classroom, day: Day, moment: Moment)
    requires Readable(c) && day < DayOf(moment)
    ensures StartOn(c, day) < moment
  {
    assert day * DAY_LENGTH + DAY_LENGTH <= DayOf(moment) * DAY_LENGTH <= moment;
  }

  /** The first two lesson days of the scan: the second one's lesson starts after the moment. */
  lemma TwoDays(c: Classroom, scanFrom: Day, after: Moment) returns (first: Day, second: Day)
    requires Readable(c) && DayOf(after) <= scanFrom
    ensures first == NextDay(c, scanFrom) && second == NextDay(c, first + 1)
    ensures MeetsOn(c, first) && MeetsOn(c, second) && scanFrom <= first < second <= scanFrom + 5 && after < StartOn(c, second)
    ensures forall d :: scanFrom <= d <= second && MeetsOn(c, d) ==> d == first || d == second
  {
    first := NextDay(c, scanFrom);
    second := NextDay(c, first + 1);
    LaterDayStartsLater(c, first, second);
    hide NextDay, MeetsOn, StartOn, DayOf;
  }

  lemma FoundIsNext(c: Classroom, after: Moment, first: Day, second: Day)
    requires Readable(c) && first == NextDay(c, ScanFrom(c, after)) && second == NextDay(c, first + 1)
    ensures NextStart(c, after) == if after < StartOn(c, first) then StartOn(c, first) else StartOn(c, second)
  {
    hide NextDay, StartOn, ScanFrom;
  }

  /** The scan of eight days always finds it; None means only that the schedule cannot be read. */
  method NextLessonStartAfter(c: Classroom, after: Moment) returns (r: Option<Moment>)
    requires c.lessonMinute.Some? ==> c.lessonMinute.value < 24 * 60
    ensures r == if Readable(c) then Some(NextStart(c, after)) else None
    ensures r.Some? <==> c.days != OtherDays && c.lessonMinute.Some?
    ensures r.Some? ==> IsLessonStart(c, r.value) && after < r.value
    ensures forall start: Moment :: r.Some? && IsLessonStart(c, start) && after < start ==> r.value <= start
  {
    if Readable(c) {
      NextStartIsTheNext(c, after);
    }
    if c.days == OtherDays {
      return None;
    }
    if c.lessonMinute.None? {
      return None;
    }
    var scanFrom := DayOf(after);
    if c.startDate.Some? && c.startDate.value > scanFrom {
      scanFrom := c.startDate.value;
    }
    ghost var first, second := TwoDays(c, scanFrom, after);
    assert scanFrom == ScanFrom(c, after) && Readable(c);
    hide *;
    for offset := 0 to 8
      invariant forall d :: scanFrom <= d < scanFrom + offset && MeetsOn(c, d) ==> StartOn(c, d) <= after
    {
      var day := scanFrom + offset;
      if MeetsOn(c, day) {
        var start := StartOn(c, day);
        if start > after {
          assert day == first || (StartOn(c, first) <= after && day == second);
          FoundIsNext(c, after, first, second);
          return Some(start);
        }
      }
    }
    return None;
  }

  // ---------- the first so many lessons ----------

  lemma {:induction false} NthDayIncreases(c: Classroom, from: Day, n: nat, m: nat)
    requires c.days != OtherDays && n < m
    ensures NthDay(c, from, n) < NthDay(c, from, m)
    decreases m
  {
    if n < m - 1 {
      NthDayIncreases(c, from, n, m - 1);
    }
  }

  lemma NthDayIsFirst(c: Classroom, from: Day)
    requires c.days != OtherDays
    ensures NthDay(c, from, 0) == NextDay(c, from)
  {
  }

  /** Looking at one day either meets the lesson day in turn or passes a day without one. */
  lemma InTurn(c: Classroom, from: Day, day: Day, n: nat)
    requires c.days != OtherDays && NextDay(c, day) == NthDay(c, from, n)
    ensures MeetsOn(c, day) ==> NthDay(c, from, n) == day && NextDay(c, day + 1) == NthDay(c, from, n + 1)
    ensures !MeetsOn(c, day) ==> NextDay(c, day + 1) == NthDay(c, from, n)
  {
  }

  /** The lesson starts counted from a day, in order, one each. */
  ghost predicate AreFirstStarts(c: Classroom, from: Day, out: seq<Option<Moment>>)
    requires Readable(c)
  {
    forall i :: 0 <= i < |out| ==> out[i] == Some(StartOn(c, NthDay(c, from, i)))
  }

  lemma OneMoreStart(c: Classroom, from: Day, out: seq<Option<Moment>>, day: Day)
    requires Readable(c) && AreFirstStarts(c, from, out) && day == NthDay(c, from, |out|)
    ensures AreFirstStarts(c, from, out + [Some(StartOn(c, day))])
  {
  }

  lemma NthDayIsNear(c: Classroom, from: Day, day: Day, n: nat)
    requires c.days != OtherDays && NextDay(c, day) == NthDay(c, from, n)
    ensures day <= from + 2 + 3 * n
  {
  }

  /** The bound of 3 * count + 7 days is never what stops it: every place is filled. */
  method LessonStarts(c: Classroom, count: int, from: Day) returns (out: seq<Option<Moment>>)
    requires c.lessonMinute.Some? ==> c.lessonMinute.value < 24 * 60
    ensures |out| == if count <= 0 then 0 else count
    ensures !Readable(c) ==> forall i :: 0 <= i < |out| ==> out[i] == None
    ensures Readable(c) ==> AreFirstStarts(c, from, out)
  {
    if count <= 0 {
      return [];
    }
    if c.days == OtherDays || c.lessonMinute.None? {
      return seq(count, i => None);
    }
    assert Readable(c);
    out := [];
    assert AreFirstStarts(c, from, out);
    hide *;
    var day := from;
    NthDayIsFirst(c, from);
    for n := 0 to count * 3 + 7
      invariant |out| <= count && AreFirstStarts(c, from, out)
      invariant |out| < count ==> day == from + n <= from + 2 + 3 * |out| && NextDay(c, day) == NthDay(c, from, |out|)
    {
      if |out| >= count {
        break;
      }
      InTurn(c, from, day, |out|);
      if MeetsOn(c, day) {
        OneMoreStart(c, from, out, day);
        out := out + [Some(StartOn(c, day))];
      }
      day := day + 1;
      NthDayIsNear(c, from, day, |out|);
    }
    // Every place is filled, so the program's padding with None finds nothing to pad.
    assert |out| == count;
  }

  // ---------- the three enumerations agree ----------

  function FirstDays(c: Classroom, from: Day, n: nat): seq<Day>
    requires c.days != OtherDays
  {
    seq(n, i requires 0 <= i < n => NthDay(c, from, i))
  }

  lemma {:induction false} NoLessonBetween(c: Classroom, lo: Day, mid: Day, hi: Day)
    requires lo <= mid <= hi && forall d :: mid <= d < hi ==> !MeetsOn(c, d)
    ensures DaysBetween(c, lo, hi) == DaysBetween(c, lo, mid)
    decreases hi - mid
  {
    if mid < hi {
      NoLessonBetween(c, lo, mid, hi - 1);
    }
  }

  lemma RangeEndsOn(c: Classroom, lo: Day, day: Day)
    requires lo <= day && MeetsOn(c, day)
    ensures DaysBetween(c, lo, day + 1) == DaysBetween(c, lo, day) + [day]
  {
  }

  lemma FirstDaysEndOn(c: Classroom, from: Day, n: nat)
    requires c.days != OtherDays
    ensures FirstDays(c, from, n + 1) == FirstDays(c, from, n) + [NthDay(c, from, n)]
  {
    hide NthDay;
  }

  lemma NoLessonBeforeFirst(c: Classroom, from: Day)
    requires c.days != OtherDays
    ensures DaysBetween(c, from, NthDay(c, from, 0)) == []
  {
    NoLessonBetween(c, from, from, NthDay(c, from, 0));
  }

  lemma NoLessonBeforeNext(c: Classroom, from: Day, n: nat)
    requires c.days != OtherDays
    ensures DaysBetween(c, from, NthDay(c, from, n + 1)) == DaysBetween(c, from, NthDay(c, from, n) + 1)
  {
    NoLessonBetween(c, from, NthDay(c, from, n) + 1, NthDay(c, from, n + 1));
  }

  /** The lesson days of a range that ends on the n-th are the first n, in order: a range leaves out none and adds none. */
  lemma {:induction false} RangeIsTheFirstDays(c: Classroom, from: Day, n: nat)
    requires c.days != OtherDays
    ensures DaysBetween(c, from, NthDay(c, from, n) + 1) == FirstDays(c, from, n + 1)
  {
    hide *;
    RangeEndsOn(c, from, NthDay(c, from, n));
    FirstDaysEndOn(c, from, n);
    if n == 0 {
      NoLessonBeforeFirst(c, from);
      NoFirstDays(c, from);
    } else {
      RangeIsTheFirstDays(c, from, n - 1);
      NoLessonBeforeNext(c, from, n - 1);
    }
  }

  lemma NoFirstDays(c: Classroom, from: Day)
    requires c.days != OtherDays
    ensures FirstDays(c, from, 0) == []
  {
  }

  /** Asking for the next lesson over and over walks the same days as counting them. */
  lemma NextStartWalksTheDays(c: Classroom, from: Day, n: nat)
    requires Readable(c) && (c.startDate.Some? ==> c.startDate.value <= from)
    ensures NextStart(c, StartOn(c, NthDay(c, from, n))) == StartOn(c, NthDay(c, from, n + 1))
  {
    StartsOnItsDay(c, NthDay(c, from, n));
  }

  /** And the walk begins at the first of them, asked just before the day begins. */
  lemma NextStartBeginsTheWalk(c: Classroom, from: Day)
    requires Readable(c) && 0 < from && (c.startDate.Some? ==> c.startDate.value <= from)
    ensures NextStart(c, from * DAY_LENGTH - 1) == StartOn(c, NthDay(c, from, 0))
  {
    var eve := from * DAY_LENGTH - 1;
    assert DayOf(eve) == from - 1;
    assert StartOn(c, from - 1) <= eve;
    LaterDayStartsLater(c, from - 1, NextDay(c, from));
    hide StartOn, DayOf;
  }

  // ---------- on the calendar ----------

  /** Mondays, Wednesdays and Fridays, or Tuesdays, Thursdays and Saturdays. */
  predicate OnItsWeekday(c: Classroom, day: Day) {
    (c.days == Odd && (IsoWeekday(day) == 1 || IsoWeekday(day) == 3 || IsoWeekday(day) == 5)) ||
    (c.days == Even && (IsoWeekday(day) == 2 || IsoWeekday(day) == 4 || IsoWeekday(day) == 6))
  }

  lemma MeetsOnItsWeekday(c: Classroom, day: Day)
    ensures MeetsOn(c, day) <==> OnItsWeekday(c, day)
  {
  }

  /** The days of a range are exactly its days on the class's weekdays, each once and in order. */
  lemma {:induction false} RangeIsItsWeekdays(c: Classroom, lo: Day, hi: Day)
    ensures forall day: Day :: day in DaysBetween(c, lo, hi) <==> lo <= day < hi && OnItsWeekday(c, day)
    ensures forall i, j :: 0 <= i < j < |DaysBetween(c, lo, hi)| ==> DaysBetween(c, lo, hi)[i] < DaysBetween(c, lo, hi)[j]
    decreases hi - lo
  {
    if lo < hi {
      RangeIsItsWeekdays(c, lo, hi - 1);
      MeetsOnItsWeekday(c, hi - 1);
      var before := DaysBetween(c, lo, hi - 1);
      assert forall i :: 0 <= i < |before| ==> before[i] in before;
      hide MeetsOn, OnItsWeekday;
    }
  }

  /** The days counted from a day: the first is the first of the class's weekdays, each next one the next, none passed over. */
  lemma CountedDaysAreItsWeekdays(c: Classroom, from: Day, n: nat)
    requires c.days != OtherDays
    ensures from <= NthDay(c, from, n) && OnItsWeekday(c, NthDay(c, from, n))
    ensures forall day: Day :: from <= day < NthDay(c, from, 0) ==> !OnItsWeekday(c, day)
    ensures forall day: Day :: NthDay(c, from, n) < day < NthDay(c, from, n + 1) ==> !OnItsWeekday(c, day)
    ensures NthDay(c, from, n) < NthDay(c, from, n + 1)
  {
    forall day: Day ensures MeetsOn(c, day) <==> OnItsWeekday(c, day) {
      MeetsOnItsWeekday(c, day);
    }
    NthDayIncreases(c, from, n, n + 1);
    hide MeetsOn, OnItsWeekday;
  }

  /** A lesson of the class: on one of its weekdays, not before the class begins, at its time of the day. */
  ghost predicate IsLessonStart(c: Classroom, start: Moment)
    requires c.lessonMinute.Some?
  {
    exists day: Day :: OnItsWeekday(c, day) && (c.startDate.Some? ==> c.startDate.value <= day) &&
      start == day * 86_400_000_000 + c.lessonMinute.value * 60_000_000
  }

  /** The next lesson is the first one that starts after the moment. */
  lemma NextStartIsTheNext(c: Classroom, after: Moment)
    requires Readable(c)
    ensures IsLessonStart(c, NextStart(c, after)) && after < NextStart(c, after)
    ensures forall start: Moment :: IsLessonStart(c, start) && after < start ==> NextStart(c, after) <= start
  {
    NextStartIsLeast(c, after);
    forall day: Day ensures (MeetsOn(c, day) <==> OnItsWeekday(c, day)) && StartOn(c, day) == day * 86_400_000_000 + c.lessonMinute.value * 60_000_000 {
      MeetsOnItsWeekday(c, day);
    }
    hide MeetsOn, OnItsWeekday, NextStart, StartOn;
    forall start: Moment | IsLessonStart(c, start) && after < start ensures NextStart(c, after) <= start {
      var day: Day :| OnItsWeekday(c, day) && (c.startDate.Some? ==> c.startDate.value <= day) &&
        start == day * 86_400_000_000 + c.lessonMinute.value * 60_000_000;
      assert MeetsOn(c, day) && after < StartOn(c, day);
    }
  }

  /** A written end is that time of the lesson's day, or of the next day when it is not after the start. */
  lemma IntervalIs(t: LessonTime, day: Day)
    ensures var minute := 60_000_000;
            LessonInterval(t, day).0 == (day * 1440 + t.start) * minute &&
            (t.end.Some? ==> LessonInterval(t, day).1 == ((if t.start < t.end.value then day else day + 1) * 1440 + t.end.value) * minute)
  {
  }

  /** A lesson starts at its time of its day. */
  lemma StartIsAtItsTime(c: Classroom, day: Day)
    requires c.lessonMinute.Some?
    ensures StartOn(c, day) == day * 86_400_000_000 + c.lessonMinute.value * 60_000_000
  {
  }
}
