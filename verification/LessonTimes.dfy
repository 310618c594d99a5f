/** Reading a classroom's lesson_time, which a person typed: a clock time or a bare hour with am or pm, or a range. */
module LessonTimes {
  import opened Wrappers
  import opened KeyTexts
  import opened LessonSchedule

  const DAY_MINUTES := 24 * 60

  // ---------- the text ----------

  function DropSpaces(text: string): (r: string)
    ensures |r| <= |text| && (r != "" ==> !IsSpace(r[0]))
  {
    if text != "" && IsSpace(text[0]) then DropSpaces(text[1..]) else text
  }

  function DropSpacesBehind(text: string): (r: string)
    ensures |r| <= |text| && (r != "" ==> !IsSpace(r[|r| - 1]))
  {
    if text != "" && IsSpace(text[|text| - 1]) then DropSpacesBehind(text[..|text| - 1]) else text
  }

  function Strip(text: string): (r: string)
    ensures |r| <= |text|
  {
    DropSpacesBehind(DropSpaces(text))
  }

  predicate IsDash(c: char) {
    c == '-' || c == '\U{2013}' || c == '\U{2014}' || c == '/'
  }

  /** How many characters of a separator the text begins with: a dash, a slash, or the word "to". */
  function SeparatorAt(text: string): (n: nat)
    ensures n <= |text|
  {
    if text == "" then 0
    else if IsDash(text[0]) then 1
    else if |text| >= 2 && text[0] in "tT" && text[1] in "oO" then 2
    else 0
  }

  /** Where the first separator begins; the text's length when there is none. */
  function FirstSeparator(text: string): (i: nat)
    ensures i <= |text| && (i < |text| ==> SeparatorAt(text[i..]) > 0)
  {
    if text == "" || SeparatorAt(text) > 0 then 0 else 1 + FirstSeparator(text[1..])
  }

  /** The part before the first separator, and what follows it. */
  function Before(text: string): string {
    Strip(text[..FirstSeparator(text)])
  }

  function Behind(text: string): string {
    var i := FirstSeparator(text);
    text[i + SeparatorAt(text[i..])..]
  }

  // ---------- one time ----------

  datatype Half = AM | PM | Whole

  /** What stands behind the digits: nothing, or am or pm. */
  function HalfOf(text: string): Option<Half> {
    var t := DropSpaces(text);
    if t == "" then Some(Whole)
    else if |t| == 2 && t[0] in "aA" && t[1] in "mM" then Some(AM)
    else if |t| == 2 && t[0] in "pP" && t[1] in "mM" then Some(PM)
    else None
  }

  /** One or two digits at the front. */
  function DigitsAtFront(text: string): (n: nat)
    ensures n <= |text| && n <= 2 && AllDigits(text[..n])
  {
    if text == "" || !IsDigit(text[0]) then 0 else if |text| == 1 || !IsDigit(text[1]) then 1 else 2
  }

  function TimeOfDay(hour: nat, minute: nat, half: Half): (r: Option<nat>)
    ensures r.Some? ==> r.value < DAY_MINUTES
  {
    var h := if half == PM && hour < 12 then hour + 12 else if half == AM && hour == 12 then 0 else hour;
    if h > 23 || minute > 59 then None else Some(h * 60 + minute)
  }

  function ReadClock(text: string): (r: Option<nat>)
    ensures r.Some? ==> r.value < DAY_MINUTES
  {
    var n := DigitsAtFront(text);
    var rest := text[n..];
    if n == 0 then None
    else if rest != "" && rest[0] == ':' then
      if |rest| < 3 || !AllDigits(rest[1..3]) || HalfOf(rest[3..]).None? then None
      else TimeOfDay(ValueOf(text[..n]), ValueOf(rest[1..3]), HalfOf(rest[3..]).value)
    else if HalfOf(rest).None? || HalfOf(rest) == Some(Whole) then None
    else TimeOfDay(ValueOf(text[..n]), 0, HalfOf(rest).value)
  }

  /** Minutes after midnight, of the start when the text is a range. */
  function ReadStart(raw: string): (r: Option<nat>)
    ensures r.Some? ==> r.value < DAY_MINUTES
  {
    ReadClock(Before(Strip(raw)))
  }

  /** A start, and the end when a readable one is written. */
  function ReadTime(raw: string): (r: Option<LessonTime>)
    ensures r.Some? ==> r.value.start < DAY_MINUTES && (r.value.end.Some? ==> r.value.end.value < DAY_MINUTES)
  {
    var start := ReadStart(raw);
    if start.None? then None else Some(LessonTime(start.value, ReadStart(Behind(Strip(raw)))))
  }

  lemma BlankIsNoTime(text: string)
    requires text == "" || Strip(text) == ""
    ensures ReadStart(text) == None
  {
  }

  lemma EndReads(raw: string)
    ensures ReadTime(raw).None? <==> ReadStart(raw).None?
    ensures ReadTime(raw).Some? ==>
      var explicit := ReadStart(Behind(Strip(raw)));
      EndMinute(ReadTime(raw).value) ==
        if explicit.Some? then explicit.value else (ReadStart(raw).value + DEFAULT_LESSON_MINUTES) % DAY_MINUTES
  {
    hide ReadStart, Behind, Strip;
  }

  /** The program asks for the end on its own, and reads the start again to do so. */
  method ParseLessonEndTime(raw: string) returns (end: Option<nat>)
    ensures end == if ReadTime(raw).None? then None else Some(EndMinute(ReadTime(raw).value))
  {
    EndReads(raw);
    hide *;
    if raw == "" {
      BlankIsNoTime("");
      return None;
    }
    var start := ReadStart(raw);
    if start.None? {
      return None;
    }
    var text := Strip(raw);
    if FirstSeparator(text) < |text| && Strip(Behind(text)) != "" {
      var explicit := ReadStart(Behind(text));
      if explicit.Some? {
        return explicit;
      }
    } else {
      NoneBehind(text);
      BlankIsNoTime(Behind(text));
    }
    return Some((start.value + DEFAULT_LESSON_MINUTES) % DAY_MINUTES);
  }

  lemma NoneBehind(text: string)
    requires FirstSeparator(text) == |text| || Strip(Behind(text)) == ""
    ensures Strip(Behind(text)) == ""
  {
  }

  // ---------- what the written forms mean ----------

  /** No separator begins in the text, however it goes on. */
  predicate Clean(text: string) {
    forall i :: 0 <= i < |text| ==> !IsDash(text[i]) && text[i] !in "tT"
  }

  lemma {:induction false} SeparatorBehindClean(text: string, rest: string)
    requires Clean(text) && (rest == "" || SeparatorAt(rest) > 0)
    ensures FirstSeparator(text + rest) == |text|
  {
    if text == "" {
      assert text + rest == rest;
    } else {
      SeparatorBehindClean(text[1..], rest);
      assert (text + rest)[1..] == text[1..] + rest;
    }
  }

  predicate Trim(text: string) {
    text != "" && !IsSpace(text[0]) && !IsSpace(text[|text| - 1])
  }

  lemma {:induction false} DroppedInFront(blank: string, text: string)
    requires Blank(blank) && text != "" && !IsSpace(text[0])
    ensures DropSpaces(blank + text) == text
  {
    if blank == "" {
      assert blank + text == text;
    } else {
      assert (blank + text)[1..] == blank[1..] + text;
      DroppedInFront(blank[1..], text);
    }
  }

  lemma {:induction false} DroppedBehind(text: string, blank: string)
    requires Blank(blank) && text != "" && !IsSpace(text[|text| - 1])
    ensures DropSpacesBehind(text + blank) == text
  {
    if blank == "" {
      assert text + blank == text;
    } else {
      assert (text + blank)[..|text + blank| - 1] == text + blank[..|blank| - 1];
      DroppedBehind(text, blank[..|blank| - 1]);
    }
  }

  lemma StripsTo(left: string, text: string, right: string)
    requires Blank(left) && Blank(right) && Trim(text)
    ensures Strip(left + (text + right)) == text
  {
    DroppedInFront(left, text + right);
    DroppedBehind(text, right);
  }

  /** Two halves with a separator between, and blanks at will. */
  function Written(start: string, left: string, sep: string, right: string, rest: string): string {
    start + (left + (sep + (right + rest)))
  }

  predicate IsSeparator(sep: string) {
    sep in ["-", "\U{2013}", "\U{2014}", "/", "to", "To", "tO", "TO"]
  }

  /** The second half, or nothing at all behind the separator. */
  predicate Second(right: string, rest: string) {
    Blank(right) && if rest == "" then right == "" else Trim(rest)
  }

  lemma CleanThenBlank(start: string, left: string)
    requires Clean(start) && Blank(left)
    ensures Clean(start + left)
  {
    forall i | 0 <= i < |start + left| ensures !IsDash((start + left)[i]) && (start + left)[i] !in "tT" {
      assert i >= |start| ==> (start + left)[i] == left[i - |start|];
    }
  }

  lemma SeparatorInFront(sep: string, behind: string)
    requires IsSeparator(sep)
    ensures SeparatorAt(sep + behind) == |sep| > 0 && !IsSpace((sep + behind)[0]) && !IsSpace(sep[|sep| - 1])
    ensures (sep + behind)[|sep|..] == behind
  {
    var whole := sep + behind;
    assert whole[0] == sep[0] && (|sep| == 2 ==> whole[1] == sep[1]);
  }

  lemma SplitsAt(front: string, sep: string, rest: string)
    requires Clean(front) && IsSeparator(sep)
    ensures Before(front + (sep + rest)) == Strip(front) && Behind(front + (sep + rest)) == rest
  {
    var text, behind := front + (sep + rest), sep + rest;
    SeparatorInFront(sep, rest);
    SeparatorBehindClean(front, behind);
    assert text[..|front|] == front && text[|front|..] == behind;
    assert text[|front| + |sep|..] == text[|front|..][|sep|..];
    hide IsSeparator, Clean, SeparatorAt, Strip, FirstSeparator;
  }

  lemma EndsOf(front: string, sep: string, right: string, rest: string)
    requires front != "" && !IsSpace(front[0]) && IsSeparator(sep) && Second(right, rest)
    ensures Trim(front + (sep + (right + rest)))
  {
    var text := front + (sep + (right + rest));
    SeparatorInFront(sep, right + rest);
    hide IsSpace, IsSeparator, SeparatorAt, Blank;
    assert text[0] == front[0];
    assert text[|text| - 1] == if rest == "" then sep[|sep| - 1] else rest[|rest| - 1];
  }

  lemma WrittenParts(start: string, left: string, sep: string, right: string, rest: string)
    requires Clean(start) && Trim(start) && Blank(left) && IsSeparator(sep) && Second(right, rest)
    ensures var text := Written(start, left, sep, right, rest);
            Before(text) == start && Behind(text) == right + rest && Trim(text)
  {
    var text, front := Written(start, left, sep, right, rest), start + left;
    CleanThenBlank(start, left);
    StripsTo("", start, left);
    assert "" + front == front && front[0] == start[0];
    assert text == front + (sep + (right + rest));
    hide Clean, Blank, Strip, IsSpace, IsSeparator, SeparatorAt, Written, Before, Behind, Second;
    SplitsAt(front, sep, right + rest);
    EndsOf(front, sep, right, rest);
  }

  lemma WholeText(text: string)
    requires Clean(text) && Trim(text)
    ensures Strip(text) == text && Before(text) == text && ReadStart(text) == ReadClock(text)
  {
    SeparatorBehindClean(text, "");
    assert text + "" == text && text[..|text|] == text;
  }

  /** A range starts when its first half says and ends when its second does, with every separator and any blanks around the
      halves; whatever the second half is, the start stands. */
  lemma RangeReadsItsHalves(start: string, left: string, sep: string, right: string, rest: string, outer: (string, string))
    requires Clean(start) && Trim(start) && IsSeparator(sep) && Second(right, rest)
    requires Blank(left) && Blank(outer.0) && Blank(outer.1)
    ensures var raw := outer.0 + (Written(start, left, sep, right, rest) + outer.1);
            ReadStart(raw) == ReadStart(start) &&
            ReadTime(raw) == if ReadStart(start).None? then None else Some(LessonTime(ReadStart(start).value, ReadStart(rest)))
  {
    var text := Written(start, left, sep, right, rest);
    WrittenParts(start, left, sep, right, rest);
    StripsTo(outer.0, text, outer.1);
    WholeText(start);
    if rest != "" {
      StripsTo(right, rest, "");
      StripsTo("", rest, "");
    }
    assert rest + "" == rest && "" + rest == rest;
    hide Strip, Written, Before, Behind, ReadClock, Clean, Trim, Blank, IsSeparator;
  }

  function TwoDigits(n: nat): (text: string)
    requires n < 100
    ensures AllDigits(text)
  {
    Padded(Digits(n), 2)
  }

  lemma TwoDigitsRead(n: nat)
    requires n < 100
    ensures |TwoDigits(n)| == 2 && ValueOf(TwoDigits(n)) == n
  {
    assert PowerOfTen(2) == 100;
    DigitsFit(n, 2);
    DigitsRead(n);
    PaddedReads(Digits(n), 2);
  }

  /** "HH:MM". */
  function ClockText(minute: nat): string
    requires minute < DAY_MINUTES
  {
    TwoDigits(minute / 60) + (":" + TwoDigits(minute % 60))
  }

  lemma ClockParts(hours: string, minutes: string, half: string)
    requires AllDigits(hours) && AllDigits(minutes) && |hours| == |minutes| == 2
    ensures var text := hours + (":" + minutes) + half;
            DigitsAtFront(text) == 2 && text[..2] == hours && text[2] == ':' && text[2..][1..3] == minutes &&
            text[2..][3..] == half && |text| >= 5
  {
    var text := hours + (":" + minutes) + half;
    assert text[0] == hours[0] && text[1] == hours[1];
    assert text[2..] == ":" + minutes + half;
    assert text[2..][3..] == half;
  }

  lemma ClockTextIsPlain(minute: nat)
    requires minute < DAY_MINUTES
    ensures Clean(ClockText(minute)) && Trim(ClockText(minute)) && |ClockText(minute)| == 5
  {
    TwoDigitsRead(minute / 60);
    TwoDigitsRead(minute % 60);
    var text := ClockText(minute);
    forall i | 0 <= i < |text| ensures IsDigit(text[i]) || text[i] == ':' {
    }
  }

  /** Every time of the day, written as a clock shows it, reads as itself. */
  lemma ClockReadsBack(minute: nat)
    requires minute < DAY_MINUTES
    ensures ReadStart(ClockText(minute)) == Some(minute)
  {
    var hours, minutes := TwoDigits(minute / 60), TwoDigits(minute % 60);
    TwoDigitsRead(minute / 60);
    TwoDigitsRead(minute % 60);
    ClockParts(hours, minutes, "");
    ClockTextIsPlain(minute);
    WholeText(ClockText(minute));
    assert hours + (":" + minutes) + "" == ClockText(minute);
  }

  /** And a range of two such times as both: the lesson runs from the one to the other. */
  lemma RangeReadsBack(start: nat, end: nat, left: string, sep: string, right: string)
    requires start < DAY_MINUTES && end < DAY_MINUTES && IsSeparator(sep) && Blank(left) && Blank(right)
    ensures ReadTime(Written(ClockText(start), left, sep, right, ClockText(end))) == Some(LessonTime(start, Some(end)))
  {
    ClockTextIsPlain(start);
    ClockTextIsPlain(end);
    ClockReadsBack(start);
    ClockReadsBack(end);
    hide ClockText, Clean, Trim, ReadStart, ReadTime, Written, IsSeparator;
    RangeReadsItsHalves(ClockText(start), left, sep, right, ClockText(end), ("", ""));
    var text := Written(ClockText(start), left, sep, right, ClockText(end));
    assert "" + (text + "") == text;
  }

  /** "HH:MM" on a twelve-hour clock, with its half of the day. */
  function TwelveText(minute: nat, space: string): string
    requires minute < DAY_MINUTES
  {
    var hour := minute / 60;
    var shown := if hour % 12 == 0 then 12 else hour % 12;
    TwoDigits(shown) + (":" + TwoDigits(minute % 60)) + (space + if hour < 12 then "AM" else "PM")
  }

  lemma TwelveTextIsPlain(hours: string, minutes: string, half: string, text: string)
    requires AllDigits(hours) && AllDigits(minutes) && |hours| == |minutes| == 2
    requires half in ["AM", "PM", " AM", " PM"] && text == hours + (":" + minutes) + half
    ensures Clean(text) && Trim(text)
  {
    assert text[0] == hours[0] && text[|text| - 1] == half[|half| - 1];
    forall i | 0 <= i < |text| ensures IsDigit(text[i]) || text[i] == ':' || text[i] in " APM" {
      if 5 <= i { assert text[i] == half[i - 5]; }
    }
  }

  lemma ClockReads(hours: string, minutes: string, behind: string)
    requires AllDigits(hours) && AllDigits(minutes) && |hours| == |minutes| == 2 && HalfOf(behind).Some?
    ensures ReadClock(hours + (":" + minutes) + behind) == TimeOfDay(ValueOf(hours), ValueOf(minutes), HalfOf(behind).value)
  {
    ClockParts(hours, minutes, behind);
    hide ValueOf, HalfOf, DigitsAtFront, TimeOfDay;
  }

  /** Twelve-hour times read as themselves too, midnight and noon included, with a space or without. */
  lemma TwelveReadsBack(minute: nat, space: string)
    requires minute < DAY_MINUTES && space in ["", " "]
    ensures ReadStart(TwelveText(minute, space)) == Some(minute)
  {
    var hour := minute / 60;
    var shown := if hour % 12 == 0 then 12 else hour % 12;
    TwoDigitsRead(shown);
    TwoDigitsRead(minute % 60);
    var half := if hour < 12 then "AM" else "PM";
    var text := TwelveText(minute, space);
    assert TimeOfDay(shown, minute % 60, if half == "AM" then AM else PM) == Some(minute);
    HalfReads(space, half);
    assert text == TwoDigits(shown) + (":" + TwoDigits(minute % 60)) + (space + half);
    hide *;
    ClockReads(TwoDigits(shown), TwoDigits(minute % 60), space + half);
    TwelveTextIsPlain(TwoDigits(shown), TwoDigits(minute % 60), space + half, text);
    WholeText(text);
  }

  lemma HalfReads(space: string, half: string)
    requires space in ["", " "] && half in ["AM", "PM"]
    ensures HalfOf(space + half) == Some(if half == "AM" then AM else PM)
    ensures space + half in ["AM", "PM", " AM", " PM"]
  {
    assert " " + "AM" == " AM" && " " + "PM" == " PM";
    assert !IsSpace(half[0]) && IsSpace(' ');
    if space == " " {
      assert (space + half)[1..] == half;
      assert DropSpaces(half) == half;
    } else {
      assert space + half == half;
    }
  }

  lemma ClockLike(text: string)
    requires text != "" && forall i :: 0 <= i < |text| ==> IsDigit(text[i]) || text[i] == ':' || text[i] in " aApPmM"
    requires IsDigit(text[0]) && text[|text| - 1] != ' '
    ensures Clean(text) && Trim(text)
  {
  }

  /** Any two digits, a colon and any two digits: a time of the day below 24:00 with minutes below sixty, and nothing otherwise. */
  lemma FourDigitsRead(hour: nat, minute: nat)
    requires hour < 100 && minute < 100
    ensures ReadStart(TwoDigits(hour) + (":" + TwoDigits(minute))) ==
            if hour < 24 && minute < 60 then Some(hour * 60 + minute) else None
  {
    var hours, minutes := TwoDigits(hour), TwoDigits(minute);
    TwoDigitsRead(hour);
    TwoDigitsRead(minute);
    var text := hours + (":" + minutes);
    assert text + "" == text;
    assert TimeOfDay(hour, minute, Whole) == if hour < 24 && minute < 60 then Some(hour * 60 + minute) else None;
    ClockLike(text);
    assert HalfOf("") == Some(Whole);
    hide *;
    ClockReads(hours, minutes, "");
    WholeText(text);
  }

  /** A one-digit hour reads too. */
  lemma OneDigitReads(hour: nat, minute: nat)
    requires hour < 10 && minute < 60
    ensures ReadStart(Digits(hour) + (":" + TwoDigits(minute))) == Some(hour * 60 + minute)
  {
    var hours, minutes := Digits(hour), TwoDigits(minute);
    TwoDigitsRead(minute);
    DigitsRead(hour);
    var text := hours + (":" + minutes);
    ClockLike(text);
    assert |hours| == 1 && text[1] == ':' && text[..1] == hours && text[1..] == ":" + minutes;
    assert text[1..][1..3] == minutes && text[1..][3..] == "" && HalfOf("") == Some(Whole);
    assert DigitsAtFront(text) == 1;
    assert ReadClock(text) == TimeOfDay(hour, minute, Whole) by { hide ValueOf, HalfOf, DigitsAtFront, TimeOfDay, Digits; }
    hide ReadClock, ValueOf, HalfOf;
    WholeText(text);
  }

  /** And an hour alone, with am or pm in any letters, with a space or without: twelve is midnight or noon. */
  lemma HourWithHalfReads(hour: nat, space: string, half: string)
    requires 1 <= hour <= 12 && space in ["", " "] && |half| == 2 && half[0] in "aApP" && half[1] in "mM"
    ensures ReadStart(Digits(hour) + (space + half)) == Some((if hour == 12 then 0 else hour * 60) + if half[0] in "pP" then 720 else 0)
  {
    hide *;
    var hours, behind := Digits(hour), space + half;
    ShortDigits(hour);
    HourOfHalf(hour, half[0] in "pP");
    AnyHalfReads(space, half);
    HourAlone(hours, behind);
    HourTextIsPlain(hours, space, half);
    WholeText(hours + behind);
  }

  lemma ShortDigits(hour: nat)
    requires hour <= 12
    ensures 1 <= |Digits(hour)| <= 2 && AllDigits(Digits(hour)) && ValueOf(Digits(hour)) == hour
  {
    DigitsRead(hour);
    assert PowerOfTen(2) == 100;
    DigitsFit(hour, 2);
  }

  lemma HourOfHalf(hour: nat, later: bool)
    requires 1 <= hour <= 12
    ensures TimeOfDay(hour, 0, if later then PM else AM) == Some((if hour == 12 then 0 else hour * 60) + if later then 720 else 0)
  {
  }

  lemma HourTextIsPlain(hours: string, space: string, half: string)
    requires AllDigits(hours) && hours != ""
    requires space in ["", " "] && |half| == 2 && half[0] in "aApP" && half[1] in "mM"
    ensures Clean(hours + (space + half)) && Trim(hours + (space + half))
  {
    var text := hours + (space + half);
    assert text[|text| - 1] == half[1];
    forall i | 0 <= i < |text| ensures IsDigit(text[i]) || text[i] in " aApPmM" {
      if i >= |hours| { assert text[i] == (space + half)[i - |hours|]; }
    }
    hide Clean, Trim;
    ClockLike(text);
  }

  lemma AnyHalfReads(space: string, half: string)
    requires space in ["", " "] && |half| == 2 && half[0] in "aApP" && half[1] in "mM"
    ensures HalfOf(space + half) == Some(if half[0] in "pP" then PM else AM)
    ensures (space + half)[0] in " aApP" && |space + half| <= 3
  {
    assert !IsSpace(half[0]) && IsSpace(' ');
    if space == " " {
      assert (space + half)[1..] == half;
      assert DropSpaces(half) == half;
    } else {
      assert space + half == half;
    }
  }

  lemma HourAlone(hours: string, behind: string)
    requires AllDigits(hours) && 1 <= |hours| <= 2 && behind != "" && behind[0] in " aApP"
    requires HalfOf(behind) == Some(AM) || HalfOf(behind) == Some(PM)
    ensures ReadClock(hours + behind) == TimeOfDay(ValueOf(hours), 0, HalfOf(behind).value)
  {
    var text := hours + behind;
    assert DigitsAtFront(text) == |hours| && text[..|hours|] == hours && text[|hours|..] == behind;
    hide ValueOf, HalfOf, DigitsAtFront, TimeOfDay;
  }

  /** An hour on its own is a time only with am or pm. */
  lemma BareHourIsUnreadable(hour: nat)
    requires hour < 100
    ensures ReadStart(Digits(hour)) == None
  {
    assert PowerOfTen(2) == 100;
    DigitsFit(hour, 2);
    OnlyDigitsIsUnreadable(Digits(hour));
  }

  lemma OnlyDigitsIsUnreadable(text: string)
    requires AllDigits(text) && 0 < |text| <= 2
    ensures ReadStart(text) == None
  {
    assert ReadClock(text) == None by {
      assert text[|text|..] == "";
    }
    assert Clean(text) && Trim(text);
    hide *;
    WholeText(text);
  }

  /** A range whose second half cannot be read lasts the usual two hours. */
  lemma UnreadableEndIsTheUsualLength(start: string, left: string, sep: string, right: string, rest: string)
    requires Clean(start) && Trim(start) && IsSeparator(sep) && Blank(left) && Second(right, rest)
    requires ReadStart(start).Some? && ReadStart(rest).None?
    ensures var time := ReadTime(Written(start, left, sep, right, rest));
            time.Some? && EndMinute(time.value) == (ReadStart(start).value + 120) % 1440
  {
    hide ReadTime, ReadStart, Clean, Trim, Written, IsSeparator;
    RangeReadsItsHalves(start, left, sep, right, rest, ("", ""));
    var text := Written(start, left, sep, right, rest);
    assert Blank("") && "" + (text + "") == text;
  }
}
