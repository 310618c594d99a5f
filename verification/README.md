# Money, attempts, tallies and timetables: a verified model

A Dafny model of the parts of the school platform that keep state over months and are read by people who were not there:
the billing ledger and its shadow run beside lc-up, the clock and life of an assessment attempt, the small-cell rule of
the answer tally, the lesson timetable, and the ranking on certificates. `dafny verify dfyconfig.toml` checks all of it.

## How it is built

Code that changes rows in place is a class or a method with the program's own loops and branches (`Ledger`, `Watchers`,
`StudentAttempt`, `StudentSittings`, `AnswerRow`, `ResponseTally`, and the loops over answers, options and days). Each is
proved equal to a function of the tables before it; what the operations are worth over whole runs is proved about those
functions. What each operation takes, refuses and writes is also told outright, in the rows' own fields, dates and settings
(`BilledMonths`, `VoidedRows`, `SeenStates`, `OpenedBooks`, `AttemptRules`, `MoneyByHand.TakenExactly`, `Grading.CoveredAre`
and their like).

* A date is a day number (day 0 is Monday 1 January of year 1), a month a month number, an instant whole microseconds.
  `KeyTexts` proves that the "YYYY-MM" texts order months the same way and that the key texts tell the same rows apart.
* A request, a membership, a payment and a tick's span are one atomic step each, as their transactions make them; a step
  that raises leaves nothing. Which steps raise is a parameter (`failing`), so the theorems hold for every choice.
* `today` and the instant are parameters, read once a request; settings, the snapshot, the payments and the grading
  verdict on one answer are parameters too.
* `round` is exact: the nearest whole number, halves to even (roundTiesToEven, section 4.3.1 of IEEE 754-2008). The program
  divides floating-point numbers first; `Floats.AmountIsThePrograms` proves that up to 50,000,000 so'm, the most a personal
  price can be set to, it arrives at the same amount.

## What the proofs found

* **A new personal price charges months that were free.** Earlier months are promised to stay as they were, but the span is
  billed from its first month and a month without a live charge gets one. When a grant is taken back in April, January,
  February and March are charged (`Cases.GrantIsChargedBack`; `Cases.GrantEndedChargesItsMonths` for every grant). Earlier
  months stand exactly when each one owed had been charged or costs nothing at the new price
  (`PersonalPrices.EarlierMonthsStandIff`).
* **A span told to end in a month to come may never be billed for it.** The month's billing passes over a span that ended
  before the month. A student said in January to leave on the 10th of February, with no tick in February, is never charged
  for February (`Cases.LateLeavingIsLost`, however many ticks follow). A span has been charged exactly its lessons if and only
  if nothing was missed, which at a price in thousands follows from its having been billed in its last month or later
  (`ShadowPaid.EveryoneWhoLeftPaidTheirLessons`, `ShadowPaid.BilledSinceBeat`).
* **Part of a month can cost more than the month.** Amounts are rounded to 1,000 so'm but a whole month is the price
  itself, so 30 of 31 lessons at 1,900 so'm cost 2,000. `Lessons.PartAbovePriceIff` says exactly when; then nothing is
  given back at the end (`SpanCost.EndedSpanOwesItsLessons`, `SpanCost.RoundedPastHappens`). At prices in thousands it
  never happens.
* **A corrected leaving date can reach the wrong stretch.** When lc-up changes the day a student left, the newest span that
  ever ended by leaving is moved. For every active student who is seen to leave, to be back, to be frozen and to leave again,
  each on its own day, that is the first stretch, and a correction to a day after the return makes it end after the second
  began (`LeavingDates.EarlierSpanStretched`; `LeavingDates.CorrectionKeepsApartIff` says exactly when that happens). With the
  terms standing still, the lessons both stretches count are exactly those from the later start to the corrected day or the
  freeze, whichever is earlier; each stretch has been charged all it counts exactly when nothing of it was missed, which at
  prices in thousands follows from its having been billed through its end (`LeavingDates.StretchedIsChargedTwice`). After
  leaving from an active seat the right stretch follows every correction (`LeavingDates.LeavingAligns`,
  `LeavingDates.CorrectionReachesItsSpan`).
* **A day can be paid for twice.** Both ends of a stretch are paid, and following lc-up has no guard of the kind the seat
  actions have. Frozen and back on one day, that day lies in both stretches (`SeatDays.FrozenAndBackTheSameDay`). Over every
  course no day of a seat is ever in two stretches if and only if every return came after all the days paid for and every
  corrected leaving day stretched its span over no other (`SeatDays.EveryCourseKeepsApartIff`); then, nothing missed, all the
  seat was charged is the cost of its lessons, each once (`SeatTotals.EveryCourseChargesEachLessonOnce`).
* **A part of a month is taken for a whole one once the seat is free.** A month charged whole comes back at the price it was
  charged at, as promised (`PriceRuns.PriceSinceDoesNotMove`). Whether it was whole is read off the present price, and at
  price zero every month looks whole (`PriceRuns.FreeSinceIsTakenForWhole`).
* **Ending a span twice.** What an earlier end gave back is never taken back. Ending a span that has ended keeps the ledger's
  invariant exactly when nothing was given back, or the day is the same and the charge still covers it
  (`LedgerSafety.EndSpanKeepsIff`). Ended on the 21st of January and again on the 26th, 271,000 are charged for lessons that
  cost 335,000 (`Cases.EndedTwiceKeepsItsCredit`). Every caller in the repository ends a span it has just found running.
* **A payment moved to another student stays with the first.** The copying pass compares amount, day, kind and method
  (`Mirror.PaymentFollowsItsStudentIff`, `Mirror.MovedPaymentStaysBehind`).
* **The small-cell rule does not always hide a single student.** The documentation of `_held_back_cells` promises a sum
  that cannot be split back. On counts 0, 0, 1, 9 the second empty cell is shown, which tells the reader that the first is
  the companion and the third a single (`SmallCells.TieDisclosesASingle`). A single is hidden exactly when no visible cell
  that ties with the companion stands before it (`SmallCells.SingleIsHiddenIff`); with no tie every single is hidden. A
  row of nothing but singles is read off whole, as the documentation admits.
* **A pause can expire an attempt.** Pauses are promised not to burn the lifetime. Each duration is cut to whole seconds on
  its own, so a pause may carry one second over; the attempt expires exactly when it stood at the limit and the fractions
  carry (`AttemptClock.PausingExpiresIff`). On whole seconds it never does.
* **"Focus mode always creates a fresh attempt" fails beside an attempt in progress**: the table allows one, and refuses
  (`Sittings.FocusStartsIff`, `Sittings.FocusBesideAnAttemptIsRefused`). For the same
  reason an abandoned attempt cannot come back once another has been begun (`Sittings.ComesBackIff`).

## Model

| member | source | states |
|---|---|---|
| Calendar.MonthOfIsUnique | backend/billing/ledger.py:37-38 | a day lies in one month only |
| Calendar.MonthOfMonotone | backend/billing/ledger.py:37-38 | a later day never lies in an earlier month |
| Calendar.MonthOfFirstDay | backend/billing/ledger.py:41-43 | a day is at or after a month's first day exactly when its month is that month or later |
| Calendar.MonthBegins | backend/billing/lessons.py:20-23 | where each month of a year begins, leap days included |
| Calendar.YearBegins | backend/billing/lessons.py:20-23 | the first day after so many years: 365 each and one for every leap year, centuries but the fourth excepted |
| Calendar.OneKnownDay | backend/billing/lessons.py:12-17 | 1 January 2024 is a Monday, and February 2024 has 29 days |
| KeyTexts.MonthTextsOrder | backend/billing/ledger.py:46-50 | month texts compare as the months follow each other, and differ when the months do |
| KeyTexts.KeyTextsDiffer | backend/billing/ledger.py:145-159 | rows of different kinds, spans, months, payments or requests never share a key text |
| KeyTexts.TextsAreWritten | backend/billing/ledger.py:34-38 | a month and a key of each kind, as they are written |
| Lessons.RoundHalfEven | backend/billing/lessons.py:28 | nearest whole number, an exact half to the even one |
| Lessons.NearestIsUnique | backend/billing/lessons.py:28 | no other number is the rounded one |
| Lessons.LessonsBetweenAre | backend/billing/lessons.py:12-17 | the lesson days are exactly the days of the range on the wanted weekdays, in order, each once |
| Lessons.KeptAre | backend/billing/lessons.py:25 | the lessons paid for are exactly those from start to end, both included |
| Lessons.MonthLessonsAre | backend/billing/lessons.py:12-24 | a month's lessons are exactly its days on the wanted ISO weekdays |
| Lessons.AmountIsNearest | backend/billing/lessons.py:20-28 | a stretch costs within 500 so'm of price × kept ÷ lessons |
| Lessons.WholeMonthIsThePrice | backend/billing/lessons.py:26-27 | a stretch over the whole month costs the price itself |
| Lessons.AmountOfNothing | backend/billing/lessons.py:20-28 | a stretch that misses the month costs nothing |
| Lessons.WiderCostsNoLess | backend/billing/lessons.py:20-28 | a wider stretch never costs less, and part of a month never passes a price in thousands |
| Lessons.PartAbovePriceIff | backend/billing/lessons.py:26-28 | part of a month costs more than its price exactly when the broken thousand is rounded up |
| Lessons.PartCanCostMoreThanTheMonth | backend/billing/lessons.py:26-28 | January, daily lessons, 1,900 so'm: 30 of 31 lessons cost 2,000, the month 1,900 |
| Lessons.CutIsNearest | backend/billing/lessons.py:20-28 | a month cut into j stretches sums to within 500·j of the cost of the lessons in their union |
| Floats.FloatsRoundTheSame | backend/billing/lessons.py:28 | two rounded divisions and a rounding give the exactly rounded number, for prices up to 50,000,000 |
| Floats.AmountIsThePrograms | backend/billing/lessons.py:25-28 | so the amount of part of a month is the program's |
| Entries.FindLive | backend/billing/ledger.py:59-60 | the live row of a key when there is one |
| Entries.PostedStaysUnique | backend/billing/models.py:149-151 | posting keeps one live row a key |
| Entries.FindVoided | backend/billing/ledger.py:71-77 | voiding leaves a key's live row unless it was the one chosen |
| Entries.VoidedIsGrown | backend/billing/ledger.py:71-77 | voiding changes no amount, day or key, only marks live rows, with a reason |
| Ledgers.Ledger.constructor | backend/billing/models.py:122-155 | an empty ledger |
| Ledgers.Ledger.Post | backend/billing/ledger.py:57-68 | a row is appended exactly when its key has no live row |
| Ledgers.Ledger.Void | backend/billing/ledger.py:71-77 | one row marked, refused exactly when the reason is blank |
| Ledgers.Ledger.VoidAll | backend/billing/ledger.py:216-229 | every live row chosen is marked and no other |
| Ledgers.Ledger.GiveBack | backend/billing/ledger.py:138-145 | the credit row written, at the price charged or the current one |
| Ledgers.Ledger.BillSpan | backend/billing/ledger.py:148-166 | the month loop writes what the month-by-month function says |
| Ledgers.Ledger.BillOpenSpans | backend/billing/ledger.py:169-180 | every span with no end, or one in this month or later, billed; those that fail left and listed |
| Ledgers.Ledger.StartSpan | backend/billing/ledger.py:205-209 | a new span, billed to today |
| Ledgers.Ledger.EndSpan | backend/billing/ledger.py:212-219 | later charges voided, the end month billed and given back |
| Ledgers.Ledger.MoveSpan | backend/billing/ledger.py:222-232 | refused exactly when a date changes, a live row stands and the reason is blank; nothing when the dates stand; else all rows voided and written again |
| Ledgers.Ledger.SetPersonalPrice | backend/billing/ledger.py:183-202 | each refusal in its order, or this month's charges voided and written again |
| Ledgers.Ledger.EnterMoney | backend/billing/ledger.py:91-121 | each refusal in its order, the request's own row, or a new row |
| Ledgers.Ledger.VoidEntered | backend/billing/ledger.py:124-135 | each refusal in its order, or the row voided |
| Billing.MonthBilledFinds | backend/billing/ledger.py:154-166 | what billing a month leaves live under every key |
| Billing.SpanBilledFinds | backend/billing/ledger.py:148-166 | what billing a span leaves live under every key |
| Billing.SpanBilledAppends | backend/billing/ledger.py:148-166 | billing only appends live charges below zero and credits above zero of its own span |
| Billing.BillingTwiceIsBillingOnce | backend/billing/ledger.py:148-149 | billing again, that day or an earlier one, writes nothing |
| BilledMonths.BilledMonthIsCharged | backend/billing/ledger.py:148-163 | billing a span writes the month's row, field by field, for every month it reaches that had none and costs something |
| BilledMonths.OtherwiseUntouched | backend/billing/ledger.py:148-166 | and nothing under any other key but the credit of a last month reached |
| BilledMonths.TickBillsExactly | backend/billing/ledger.py:169-180 | the month's billing bills each span that has no end or one in this month or later, unless it fails, and no other |
| BilledMonths.TickChargesTheMonth | backend/billing/ledger.py:169-180 | so a student still running is charged the new month at the price |
| LedgerSafety.ChargedOnItsDay | backend/billing/ledger.py:161 | a charge falls on a day of its own month that the span has reached |
| LedgerSafety.BillSpanKeeps | backend/billing/ledger.py:148-166 | billing keeps the ledger's invariant and only grows the rows |
| LedgerSafety.BillOpenFromKeeps | backend/billing/ledger.py:169-180 | so does the month's billing, whichever spans fail |
| LedgerSafety.StartSpanKeeps | backend/billing/ledger.py:205-209 | so does starting a span |
| LedgerSafety.EndSpanKeepsIff | backend/billing/ledger.py:212-219 | ending any span, ended before or not, keeps it exactly when the span ends cleanly |
| LedgerSafety.MoveSpanKeeps | backend/billing/ledger.py:222-232 | so does moving any span's dates |
| LedgerSafety.SetPersonalPriceKeeps | backend/billing/ledger.py:183-202 | so does a new personal price |
| LedgerSafety.EnterMoneyKeeps | backend/billing/ledger.py:91-121 | so does money entered, and its answer is a row of the ledger |
| LedgerSafety.VoidEnteredKeeps | backend/billing/ledger.py:124-135 | so does taking it back |
| ClosedForm.BillingSettles | backend/billing/ledger.py:148-166 | rows that agree with the closed form become exactly it when billed |
| ClosedForm.StartStaysSettled | backend/billing/ledger.py:205-209 | starting leaves every span's rows the closed form |
| ClosedForm.EndStaysSettled | backend/billing/ledger.py:212-219 | so does ending any span that ends cleanly, one ended before included |
| ClosedForm.MoveStaysSettled | backend/billing/ledger.py:222-232 | so does moving |
| ClosedForm.TickStaysSettled | backend/billing/ledger.py:169-180 | so does the month's billing, failures included |
| SpanCost.SettledTotal | backend/billing/ledger.py:148-166 | a span's live rows add up to the closed form month by month |
| SpanCost.RunningSpanOwes | backend/billing/ledger.py:6 | a running span owes every month from its start that the opening does not carry, the first in part |
| SpanCost.EndedSpanOwesItsLessons | backend/billing/ledger.py:6-7 | a span ended after the opening month, opened with the ledger or not, owes exactly its lessons if and only if nothing was missed, and never more |
| SpanCost.BilledShortOfItsEnd | backend/billing/ledger.py:152-154 | billed only to a month before its end, it has been charged to that month and no further |
| SpanCost.EndedBeforeStartOwesNothing | backend/billing/ledger.py:152-166 | a span ended before it started owes nothing, unless the opening carries its month |
| SpanCost.EndedInOpeningGivesBack | backend/billing/ledger.py:156-157 | a span ended inside the opening month only gives lessons back, once billed |
| SpanCost.RoundedPastHappens | backend/billing/ledger.py:138-145 | a concrete span: no credit row is written, 1,900 is charged for lessons that cost 2,000 |
| SpanCost.BalanceIsSpansPlusTheRest | backend/billing/ledger.py:53-54 | a balance is what the person's own spans cost plus the rows of no span |
| Runs.EveryRunKeeps | backend/billing/ledger.py:8-11 | over every lawful run, prices included: rows only grow, one live row a key, one row a request, credits paired with charges |
| Runs.NoMonthNetsAboveZero | backend/billing/ledger.py:138-166 | from an empty ledger no charged month of a span ever nets above zero |
| Runs.EveryRunSettles | backend/billing/ledger.py:148-232 | at fixed terms a span's live rows depend only on its dates, opening month and last billed month |
| Runs.BilledSince | backend/billing/ledger.py:169-176 | a span was last billed in a month or later exactly when some event billed it then or later |
| Runs.RunsAgreeOnASpan | backend/billing/ledger.py:8-9 | two runs that agree on those leave the same live rows |
| Runs.AfterAnyRunLessonsArePaid | backend/billing/ledger.py:6-8 | after any run a span ended after the opening has been charged its lessons if and only if nothing was missed |
| MoneyByHand.AskedAgainIsTheSameRow | backend/billing/ledger.py:92-99 | a request sent again, after anything, writes nothing and answers its own row |
| MoneyByHand.TakenExactly | backend/billing/ledger.py:91-121 | new money is taken exactly when dated from the opening to today and well made, and this row is written |
| MoneyByHand.RefusedFor | backend/billing/ledger.py:97-118 | what is refused names the first thing wrong |
| MoneyByHand.TakenBackExactly | backend/billing/ledger.py:125-135 | money is taken back exactly when entered by hand, live, and with a reason; the first thing wrong is named |
| MoneyByHand.OtherStudentIsRefused | backend/billing/ledger.py:97-98 | a used request is refused for another student, whatever has happened since |
| MoneyByHand.MoneyMovesOneBalance | backend/billing/ledger.py:100-121 | new money moves one balance by its sign and no other, between the opening and today |
| MoneyByHand.TakingBackUndoes | backend/billing/ledger.py:124-135 | only live rows entered by hand are taken back, and that undoes exactly what they did |
| PersonalPrices.NewPriceRewritesThisMonth | backend/billing/ledger.py:184-202 | this month's charge of running spans is rewritten; other live rows and other spans stand |
| PersonalPrices.PriceTakenExactly | backend/billing/ledger.py:184-197 | a price is taken exactly with a reason and between nothing and 50,000,000, and is the seat's then |
| PersonalPrices.EarlierMonthsStandIff | backend/billing/ledger.py:185-186 | earlier months keep their rows exactly when each one owed was charged or costs nothing at the new price |
| PersonalPrices.UnchargedMonthIsCharged | backend/billing/ledger.py:199-202 | an earlier month owed and never charged is charged at the new price |
| Cases.GrantEndedChargesItsMonths | backend/billing/ledger.py:185-202 | for every grant that ends, each whole month since the span began becomes a charge |
| Cases.GrantIsChargedBack | backend/billing/ledger.py:185-202 | a run from nothing: free for three months, charged for all three when the grant ends |
| Cases.PassedOverForGood | backend/billing/ledger.py:172-176 | no later tick bills a span for an end month that went by |
| Cases.LateLeavingIsLost | backend/billing/ledger.py:169-176 | a run from nothing: leaving next month, no tick in it, ten lessons never charged whatever ticks follow |
| Cases.EndedTwiceKeepsItsCredit | backend/billing/ledger.py:212-219 | a run from nothing, ended on the 21st and again on the 26th: the old credit stands and 271,000 are charged for 335,000 of lessons |
| PriceRuns.EveryChargeAtItsTerms | backend/billing/ledger.py:148-163 | over every lawful run, prices and weekdays changing: a month's live charge is its cost from the span's start at the terms it was last written at |
| PriceRuns.TermsAreTheFirstThatStand | backend/billing/ledger.py:154-202 | those are the seat's terms at the first billing that reached the month and after which nothing had it written again; there is a charge exactly when there was one |
| PriceRuns.EverySpanOwesAtItsTerms | backend/billing/ledger.py:148-202 | over every lawful run a span has been charged each month at its own terms, less what was given back |
| PriceRuns.PriceSinceDoesNotMove | backend/billing/ledger.py:138-145 | a month charged whole is given back at the price it was charged at, whatever the price is by then |
| PriceRuns.FreeSinceIsTakenForWhole | backend/billing/ledger.py:141-142 | once the seat is free, what comes back is the charge less that part of the charge, whole month or not |
| ClassLinks.LinkSeats | backend/billing/shadow.py:132-152 | off first, then on; the refused are exactly the seats left without their group's class |
| ClassLinks.PassLinksRightly | backend/billing/shadow.py:133-152 | after a pass a seat has the class its group is paired with, none if unpaired, or none because the person has another seat there; right ones and our own stand |
| ClassLinks.SecondPassChangesNothing | backend/billing/shadow.py:132-152 | a second pass changes nothing |
| Shadow.AppliedIsOnlyPlace | backend/billing/shadow.py:280-318 | one membership touches one seat only |
| Shadow.PlanIsFit | backend/billing/shadow.py:325-337 | the plan is exactly the memberships with something to tell, each with its own seat |
| ShadowSafety.AddingKeeps | backend/billing/shadow.py:282-291 | a new seat has an open span exactly when active |
| ShadowSafety.FollowingKeeps | backend/billing/shadow.py:292-318 | every pair of old and new states leaves one open span exactly when active, and ends one exactly on leaving active |
| ShadowSafety.CarriedOutKeeps | backend/billing/shadow.py:342-348 | so does the whole plan, with failed memberships rolled back |
| ShadowSafety.WatchKeeps | backend/billing/shadow.py:321-348 | so does a look, which ends at most 40 spans unless a person allows more |
| ShadowFixpoint.SecondWatchPlansNothing | backend/billing/shadow.py:321-348 | after an error-free look a second one plans and writes nothing |
| HeardSpans.FollowedSpans | backend/billing/shadow.py:292-318 | what each pair of old and new states does to the spans and the seat |
| SeenStates.LookShows | backend/billing/shadow.py:164-167 | after a look every membership of a known status that did not fail has a seat that shows it, with an open span exactly when it is active and neither it nor its group is gone; an unknown status touches nothing |
| SeenStates.FirstSeen | backend/billing/shadow.py:282-291 | a first sight makes one seat, and a span from its first paid day when it pays |
| SeenStates.SeenAgain | backend/billing/shadow.py:292-310 | on which day a span ends or begins when a seat stops or starts paying |
| SeenStates.StartPutRight | backend/billing/shadow.py:311-313 | a corrected start date moves the span exactly when it is the seat's only one |
| SeenStates.HeldIff | backend/billing/shadow.py:338-341 | a look waits exactly when it would end more than forty running seats and nobody allowed it |
| LeavingDates.LeavingAligns | backend/billing/shadow.py:299-302 | leaving from an active seat ends its running span on the leaving day |
| LeavingDates.CorrectionReachesItsSpan | backend/billing/shadow.py:314-317 | from then on every corrected leaving day moves that same span |
| LeavingDates.EveryRunRunningIsNewest | backend/billing/shadow.py:298 | over every run a running span is its seat's newest |
| LeavingDates.CorrectionKeepsApartIff | backend/billing/shadow.py:314-317 | a correction keeps a seat's stretches apart exactly when no later one began before the corrected day |
| LeavingDates.EarlierSpanStretched | backend/billing/shadow.py:314-317 | left, back, frozen, left, corrected, each look on its own day: the first stretch ends on the corrected day, after the second began, for every active student |
| LeavingDates.CountsIff | backend/billing/lessons.py:25 | an ended span's cost counts exactly the lessons of its days in the months it owes |
| LeavingDates.StretchedIsChargedTwice | backend/billing/shadow.py:314-317 | at fixed terms the lessons both spans count are exactly those of the days they share outside the opening; if any, each span has been charged all it counts if and only if nothing was missed, as at prices in thousands once billed through its end |
| SeatDays.MeetsIff | backend/billing/lessons.py:25 | two stretches meet exactly when some day, both ends included, lies in both |
| SeatDays.FollowingKeepsApartIff | backend/billing/shadow.py:296-318 | a look at one membership leaves no day in two stretches exactly when a return comes after all days paid for, and a corrected end meets no other stretch |
| SeatDays.CarriedOutKeepsApartIff | backend/billing/shadow.py:342-347 | so does a whole plan, failures included, for each seat by the one item about it |
| SeatDays.EveryCourseKeepsApartIff | backend/classes/seat_actions.py:132-136 | over every course no day of a seat is ever paid for twice if and only if every look fitted |
| SeatDays.FrozenAndBackTheSameDay | backend/billing/shadow.py:302-309 | frozen and back on one day: both stretches are paid for it |
| SeatTotals.EachLessonIsPaidOnce | backend/billing/ledger.py:6-7 | a seat whose stretches share no day was charged what they cost, each month within 500 so'm a stretch of the price of its lessons, each once |
| SeatTotals.EveryCourseChargesEachLessonOnce | backend/classes/seat_actions.py:132-136 | so over every course at fixed terms whose looks all fitted |
| Mirror.MirrorKeeps | backend/billing/shadow.py:242-269 | copying payments keeps every invariant, whichever fail |
| Mirror.OnePassMirrors | backend/billing/shadow.py:237-269 | from any rows, one pass makes the live payment rows exactly the payments after the opening one, in amount, day, method and kind, "refund" alone being a refund |
| Mirror.SecondPassDoesNothing | backend/billing/shadow.py:252-269 | then a pass writes and voids nothing |
| Mirror.PaymentFollowsItsStudentIff | backend/billing/shadow.py:252-262 | after a pass a payment is on its student's account exactly when before it it had no row, had changed, or was there already; a row written says the payment field by field |
| Mirror.MovedPaymentStaysBehind | backend/billing/shadow.py:252-254 | a payment copied and then only moved to another student stays on the first one's account |
| OpeningDay.OpeningBillsNothing | backend/billing/ledger.py:156-157 | a span opened with the ledger writes no charge of the opening month or earlier |
| OpeningDay.SeatOpenedWritesNoRow | backend/billing/shadow.py:211-226 | opening a seat writes no row |
| OpeningDay.OpeningBalancesAreLcups | backend/billing/shadow.py:180-226 | on the opening day every balance is lc-up's and seats have open spans exactly when active |
| OpenedBooks.OpensIff | backend/billing/shadow.py:180-226 | the ledger opens exactly when unopened, the people getting accounts are new, and every membership of a known status fits |
| OpenedBooks.OpensIs | backend/billing/shadow.py:194-203 | an account is opened exactly for someone in a group or with a balance |
| OpenedBooks.OpeningShows | backend/billing/shadow.py:194-230 | once opened: today's date, a seat for each membership of a known status and no other, its span with this month in the balance when active, and only opening rows |
| OpenedBooks.NextMonthIsCharged | backend/billing/shadow.py:222-226 | the month after the opening is charged by that month's billing |
| ShadowRuns.BeatKeeps | backend/billing/shadow.py:351-379 | each kind of beat keeps every invariant |
| ShadowRuns.EveryRunBesideLcup | backend/billing/shadow.py:351-379 | over every possible course of opening, looks, payments, billing and hand entries: one open span exactly when active |
| ShadowPaid.WatchPaid | backend/billing/shadow.py:321-348 | a look at fixed terms, leaving days to come included, leaves every span's rows the closed form, billing exactly the spans it begins or changes |
| ShadowPaid.EveryRunPaid | backend/billing/shadow.py:351-379 | so does every course |
| ShadowPaid.BilledSinceBeat | backend/billing/shadow.py:351-379 | a span was last billed in a month or later exactly when some beat then or later began it, changed its dates or billed it |
| ShadowPaid.EveryoneWhoLeftPaidTheirLessons | backend/billing/shadow.py:1-15 | over every course at fixed terms a span ended after the opening month has been charged exactly the lessons it owes if and only if nothing was missed, and never more |
| ShadowPaid.EveryoneElseOwes | backend/billing/shadow.py:1-15 | and what a running span, or one ended inside the opening, has been charged or given back |
| VoidedRows.EndingVoids | backend/billing/ledger.py:213-219 | an ending voids exactly the live charges of later months, and says which ending it was |
| VoidedRows.MovingVoids | backend/billing/ledger.py:222-232 | a move voids exactly the span's live rows, and none when nothing moves or the reason is blank |
| VoidedRows.PriceVoids | backend/billing/ledger.py:194-202 | a new price voids exactly this month's live charges of the seat's running spans, and says so |
| VoidedRows.LookVoids | backend/billing/shadow.py:286-318 | a look voids rows of that seat's spans alone, with the reason its old and new state give |
| VoidedRows.PassVoids | backend/billing/shadow.py:242-269 | a pass voids exactly the live rows of payments changed or gone, and says which; a failing copy leaves its row |
| Watchers.AccountFor | backend/billing/shadow.py:111-113 | the student's account, opened when missing |
| Watchers.Apply | backend/billing/shadow.py:280-318 | one membership carried out, or refused whole |
| Watchers.Plan | backend/billing/shadow.py:325-337 | the plan in the snapshot's order |
| Watchers.CountEnds | backend/billing/shadow.py:338 | how many running seats the plan ends |
| Watchers.CarryOut | backend/billing/shadow.py:342-347 | the loop that isolates each failure |
| Watchers.WatchSnapshot | backend/billing/shadow.py:321-348 | the whole look, held when too many end |
| Watchers.CopyPayment | backend/billing/shadow.py:255-263 | a changed payment's row voided, the new one written |
| Watchers.MirrorPayments | backend/billing/shadow.py:242-269 | the whole pass |
| Watchers.OpenAccounts | backend/billing/shadow.py:196-210 | accounts and opening rows, person by person |
| Watchers.OpenSeat | backend/billing/shadow.py:212-226 | one seat and its span, or refused |
| Watchers.OpenLedger | backend/billing/shadow.py:180-232 | all of the opening or none; without apply the report of it and no change |
| StudentAttempts.StudentAttempt.Save | backend/assessments/views_attempt.py:312-417 | the clock after a save, each gate in its order |
| StudentAttempts.StudentAttempt.Submit | backend/assessments/views_attempt.py:457-532 | the clock after a hand-in, each gate in its order |
| StudentAttempts.StudentAttempt.AbandonAttempt | backend/assessments/views_attempt.py:615-621 | the clock after giving up |
| StudentAttempts.StudentAttempt.PauseAttempt | backend/assessments/views_attempt.py:664-678 | the clock after a pause, the first pause kept |
| StudentAttempts.StudentAttempt.ResumeAttempt | backend/assessments/views_attempt.py:712-764 | the clock after a resume or a resurrection |
| StudentAttempts.StudentAttempt.ReapIfInactive | backend/assessments/tasks.py:49-66 | the attempt abandoned exactly past its leash |
| AttemptRules.HandsInIff | backend/assessments/views_attempt.py:457-532 | handed in exactly when in progress, with life left and complete; then at the instant of the request, with its time |
| AttemptRules.SavesIff | backend/assessments/views_attempt.py:312-417 | saved exactly when in progress, with life left and stored; past its life given up |
| AttemptRules.ResumesIff | backend/assessments/views_attempt.py:712-764 | comes back exactly when paused, or abandoned recently with life left; then all the dead time is banked |
| AttemptRules.ReapsIff | backend/assessments/tasks.py:20-66 | reaped exactly after the timeout of silence, or after the longer one of a pause, both within their bounds |
| AttemptRules.AnHourOfSilence | backend/assessments/tasks.py:20-62 | with nothing set an hour of silence is reaped and a pause of two hours is not |
| StudentAttempts.StudentAttempt.GradeOnce | backend/assessments/grading_service.py:68-138 | score, verdicts and time of a submitted attempt, and nothing otherwise |
| StudentAttempts.StudentAttempt.Mark | backend/assessments/grading_service.py:81-138 | the loop: every question's points once, the earned ones in the score, each answered row's verdict |
| StudentAttempts.FrozenIsGradedOn | backend/assessments/grading_service.py:84-130 | a frozen attempt is graded on exactly its questions still live, in its own order: result, verdicts and time are what those questions and their answers add up to |
| StudentAttempts.UnfrozenIsGradedOnAll | backend/assessments/grading_service.py:84-130 | one never frozen is graded so on every live question |
| StudentAttempts.GradedForGood | backend/assessments/grading_service.py:68-75 | once graded, no run of requests, answers and gradings changes result, verdicts, answers or clock |
| StudentAttempts.FirstGradingStands | backend/assessments/grading_service.py:68-138 | over any run the result is the score of the first grading that found the attempt handed in, whatever the questions become |
| AttemptClock.StepKeepsClock | backend/assessments/models.py:584-602 | each request keeps banked seconds within a second a window of the true dead time |
| AttemptClock.EveryRunDrifts | backend/assessments/models.py:596-602 | in microseconds, elapsed stays above active time less 1 s and below it plus max(1, windows) s |
| AttemptClock.EveryRunIsExact | backend/assessments/models.py:584-602 | on whole seconds elapsed equals unpaused in-progress time, abandonment while paused included |
| AttemptClock.EveryRunKeepsLifecycle | backend/assessments/views_attempt.py:457-515 | submitted_at is unset exactly in progress or abandoned; handed in is never paused |
| AttemptClock.HandedInForGood | backend/assessments/views_attempt.py:457-463 | submitted and graded are never left, and graded never changes |
| AttemptClock.ResurrectedPassesTheGates | backend/assessments/views_attempt.py:726-745 | a resurrected attempt may be saved and submitted at that instant |
| AttemptClock.GatesAgree | backend/assessments/views_attempt.py:464-471 | the save, submit and resurrect gates give one verdict at one instant |
| AttemptClock.PausedClock | backend/assessments/models.py:584-602 | a pause moves the frozen clock by the carried second and nothing else |
| AttemptClock.PausingExpiresIff | backend/assessments/views_attempt.py:314-318 | after any run a pause expires an attempt exactly at the limit with a carry |
| AttemptClock.PausingNeverExpires | backend/assessments/views_attempt.py:314-316 | on whole seconds a pause of any length never expires it, nor does resuming |
| AttemptClock.APauseCanExpire | backend/assessments/views_attempt.py:314-318 | a concrete pause that does |
| Sittings.Focused | backend/assessments/views_attempt.py:174-177 | exactly the live questions asked for, in the live order |
| Sittings.StudentSittings.StartAttempt | backend/assessments/views_attempt.py:136-216 | found again, repaired, refused or begun, in that order |
| Sittings.StudentSittings.Ask | backend/assessments/views_attempt.py:712-742 | a request on one attempt; coming back beside another in progress is refused |
| Sittings.EveryRunKeepsQuestions | backend/assessments/views_attempt.py:167-172 | over every run one attempt in progress, and frozen questions never change |
| Sittings.StartAgainFindsIt | backend/assessments/views_attempt.py:156-165 | starting again finds the same attempt and questions after any edits |
| Sittings.PlainStartBegins | backend/assessments/views_attempt.py:136-190 | with none in progress a plain start begins on all the live questions, if the homework is open |
| Sittings.PlainStartFinds | backend/assessments/views_attempt.py:156-216 | with one in progress it finds that one, repaired where it lacks questions or activity |
| Sittings.FocusRefusedFor | backend/assessments/views_attempt.py:131-187 | why a focus retry does not begin |
| Sittings.HiddenRunAddsNothing | backend/assessments/views_attempt.py:131-146 | no run of starts and requests gives an attempt while the homework is hidden |
| Sittings.FocusStartsIff | backend/assessments/views_attempt.py:156-182 | a focus retry begins a fresh attempt exactly when none is in progress and a question asked for is live |
| Sittings.FocusBesideAnAttemptIsRefused | backend/assessments/views_attempt.py:156-187 | a retry of one question beside an attempt in progress is refused |
| Sittings.ComesBackIff | backend/assessments/views_attempt.py:712-745 | an abandoned attempt comes back exactly when never handed in, recent enough, with life left once the dead time is taken off, and no other in progress |
| Answers.AnswerRow.SaveAnswer | backend/assessments/views_attempt.py:340-385 | the row after a save, refused exactly when stale |
| Answers.HighestCounterWins | backend/assessments/views_attempt.py:353-369 | in any order the answer with the highest counter ends stored, with that counter |
| Answers.OrderDoesNotMatter | backend/assessments/views_attempt.py:353-369 | reordering and retries cannot change the row |
| Answers.RefusedIff | backend/assessments/views_attempt.py:353-369 | a save is refused exactly when it carries a counter that an earlier save reached |
| Answers.UncountedLastWins | backend/assessments/views_attempt.py:354-369 | without a counter the last to arrive wins |
| Grading.ScoreWithinMax | backend/assessments/grading_service.py:94-121 | the score never passes the maximum and reaches it exactly when every question with points is right |
| Grading.CoveredAre | backend/assessments/grading_service.py:84-87 | the questions graded are exactly the frozen ones still live, in the frozen order |
| Grading.ResultSums | backend/assessments/grading_service.py:94-121 | maximum, score, right answers and time are the sums of each question's |
| Grading.PercentIs | backend/assessments/grading_service.py:117-121 | the percentage is the points earned out of the points there were, nothing when there were none |
| Grading.MarkedAt | backend/assessments/grading_service.py:104-115 | each answered question's row gets its verdict and points |
| Grading.NotMarked | backend/assessments/grading_service.py:104-115 | and no other row changes |
| Grading.AddedQuestionIsNotGraded | backend/assessments/grading_service.py:22-39 | a question added after the start does not change what is graded |
| SmallCells.HeldBackCells | backend/assessments/answer_tally.py:310-317 | the two loops find the held-back set |
| SmallCells.HeldBackIs | backend/assessments/answer_tally.py:288-317 | nothing, or all singles with one smallest other cell, or every cell when all are singles |
| SmallCells.SwapReadsTheSame | backend/assessments/answer_tally.py:288-304 | swapping such a single with the companion gives different counts and the same published row |
| SmallCells.OnlySwapsReadTheSame | backend/assessments/answer_tally.py:288-304 | no other counts publish the same row |
| SmallCells.SingleIsHiddenIff | backend/assessments/answer_tally.py:288-309 | a single is hidden from a reader who knows the rule exactly when no visible tie precedes it |
| SmallCells.NoTieHidesEverySingle | backend/assessments/answer_tally.py:288-309 | without a visible tie every single is hidden |
| SmallCells.TieDisclosesASingle | backend/assessments/answer_tally.py:313-316 | on counts 0, 0, 1, 9 the row gives every count away |
| SmallCells.AllSinglesAreDisclosed | backend/assessments/answer_tally.py:306-309 | a row of singles gives every count away |
| Tallies.ResponseTally.Record | backend/assessments/answer_tally.py:263-279 | one student's answer counted |
| Tallies.EveryStudentCountsOnce | backend/assessments/answer_tally.py:263-285 | every student is counted once, each form as often as given, as wrong as often as marked wrong |
| Tallies.AliasNeverClaimsAKey | backend/assessments/answer_tally.py:329-342 | an answer that is an option's key is credited to an option with that key |
| Tallies.OptionIsMeant | backend/assessments/answer_tally.py:329-342 | an answer means the first option with that key, or with no such key the first with that alias |
| Tallies.QuotedAsFirstWritten | backend/assessments/answer_tally.py:272-274 | a form is quoted as the first student wrote it |
| Tallies.AnsweredAre | backend/assessments/answer_tally.py:263-285 | responses, waiting and no answer, counted from the students |
| Tallies.BuildLookup | backend/assessments/answer_tally.py:333-342 | the two passes build the map from forms to options, keys first |
| Tallies.CountOptions | backend/assessments/answer_tally.py:344-353 | every answer lands in exactly one option or in unrecognised |
| Tallies.ShowCells | backend/assessments/answer_tally.py:361-400 | the cells and shares published, a share exactly with its count |
| Tallies.SharesTellNothingMore | backend/assessments/answer_tally.py:361-402 | shares and sentence follow from the cells shown, so they disclose nothing more |
| Tallies.OptionBlock | backend/assessments/answer_tally.py:320-403 | the block: counts by form, shares, state, sentence, and responses plus no_answer conserved |
| Tallies.BlockOf | backend/assessments/answer_tally.py:320-403 | from the students' answers: each option's count and share, state, sentence, and every student counted once |
| WrongAnswers.RankingIsUnique | backend/assessments/answer_tally.py:426-428 | there is one ranking of the same mistakes |
| WrongAnswers.AnswerBlock | backend/assessments/answer_tally.py:406-465 | the block: the first five shared mistakes above the cohort floor, and the note |
| WrongAnswers.AnswersBlockOf | backend/assessments/answer_tally.py:406-465 | from five answers on the five commonest shared mistakes, or all there are, commonest first and quoted as first written; below five none; and the note says which case it is |
| WrongAnswers.ListIsTheCommonest | backend/assessments/answer_tally.py:410-418 | each listed count is how many were marked wrong for it, and what is left out ranks lower |
| WrongAnswers.SameAnswersRankTheSame | backend/assessments/answer_tally.py:426-428 | the ranking does not depend on the order of the answers |
| LessonSchedule.IntervalRunsForward | backend/classes/lesson_schedule.py:105-128 | a lesson is never empty nor longer than a day; a bare start lasts two hours even past midnight |
| LessonSchedule.IntervalIs | backend/classes/lesson_schedule.py:105-128 | a written end is that time of the day, or of the next when not after the start |
| LessonSchedule.StartIsAtItsTime | backend/classes/lesson_schedule.py:123-125 | a lesson starts at its minute of its day |
| LessonSchedule.NextStartIsLeast | backend/classes/lesson_schedule.py:136-169 | the next start is the least one after the moment and not before the class begins |
| LessonSchedule.NextLessonStartAfter | backend/classes/lesson_schedule.py:136-169 | the eight-day scan always finds it when the schedule is readable |
| LessonSchedule.LessonDaysInRange | backend/classes/lesson_schedule.py:172-189 | the loop lists the lesson days of the range |
| LessonSchedule.LessonStarts | backend/classes/lesson_schedule.py:192-227 | the bound of 3·count + 7 days always fills every place, in order |
| LessonSchedule.RangeIsItsWeekdays | backend/classes/lesson_schedule.py:25-28 | the days of a range are exactly its Mondays, Wednesdays and Fridays, or its Tuesdays, Thursdays and Saturdays |
| LessonSchedule.CountedDaysAreItsWeekdays | backend/classes/lesson_schedule.py:192-227 | the days counted are those weekdays in turn, none passed over |
| LessonSchedule.NextStartIsTheNext | backend/classes/lesson_schedule.py:136-169 | the next start is the first lesson after the moment, at its time on such a weekday |
| LessonSchedule.RangeIsTheFirstDays | backend/classes/lesson_schedule.py:172-227 | the days of a range and the first so many are the same days |
| LessonSchedule.NextStartWalksTheDays | backend/classes/lesson_schedule.py:136-169 | asking for the next lesson again and again walks those days |
| LessonSchedule.NextStartBeginsTheWalk | backend/classes/lesson_schedule.py:136-169 | and begins at the first of them |
| LessonTimes.ParseLessonEndTime | backend/classes/lesson_schedule.py:76-102 | the end: the one written if readable, else two hours on |
| LessonTimes.RangeReadsItsHalves | backend/classes/lesson_schedule.py:32-102 | a range starts when its first half says and ends when its second does, with every separator in any letters and any blanks |
| LessonTimes.ClockReadsBack | backend/classes/lesson_schedule.py:37-64 | every time of the day written HH:MM reads as itself |
| LessonTimes.RangeReadsBack | backend/classes/lesson_schedule.py:93-99 | every range of two such times, with every separator and any blanks, reads as both |
| LessonTimes.TwelveReadsBack | backend/classes/lesson_schedule.py:58-64 | every twelve-hour time reads as itself, midnight and noon included |
| LessonTimes.FourDigitsRead | backend/classes/lesson_schedule.py:37-70 | two digits, a colon and two digits are a time exactly below 24:00 with minutes below sixty |
| LessonTimes.OneDigitReads | backend/classes/lesson_schedule.py:37 | a one-digit hour reads |
| LessonTimes.HourWithHalfReads | backend/classes/lesson_schedule.py:38-64 | an hour with am or pm, in any letters, reads; twelve is midnight or noon |
| LessonTimes.BareHourIsUnreadable | backend/classes/lesson_schedule.py:53-55 | an hour alone is no time |
| LessonTimes.UnreadableEndIsTheUsualLength | backend/classes/lesson_schedule.py:95-102 | an unreadable second half leaves the default length |
| Ranking.RankByStudent | backend/classes/certificates_service.py:112-126 | each student's rank is one more than how many scored higher, a missing score below every score; nobody else has one |
| Ranking.BetterIgnoresOrder | backend/classes/certificates_service.py:114-116 | the rank does not depend on how equal scores are ordered |
| Ranking.TiesShareARank | backend/classes/certificates_service.py:113 | a rank is shared exactly by equal scores |

## Left out

- ShadowFixpoint.SecondWatchPlansNothing: covers one membership a student and group, which the memberships' own table requires.
- StudentAttempts.StudentAttempt.Submit: the queue that grades later when grading at once fails, and the homework page's own copy of the status.
- StudentAttempts.StudentAttempt.ReapIfInactive: the job's batch of 500 and its two readings of the clock; one attempt is looked at with one reading.
- StudentAttempts.StudentAttempt.Save: the question's own time (first and last seen, capped) is a parameter of submitting and grading, and the cursor is not kept.
- Grading.ScoreWithinMax: the percentage is not rounded to its column, and the verdict on one answer is any function of question and answer.
- Tallies.ResponseTally.Record: the normal form grading uses and the quoted spelling are given with the answer; folding, tag stripping and shortening are not modelled.
- LessonTimes.ReadClock: digits are the ten ASCII ones; the program also takes other scripts' digits.
- LessonSchedule.NextStart: school time has no clock changes, as in Tashkent; conversion from other zones is not modelled.
- Tallies.OptionBlock: how a share is rounded for print is any function of count and responses; the wording of the sentences and labels is not modelled.
- Floats.AmountIsThePrograms: prices up to 50,000,000 so'm; a group's price comes from lc-up without a bound, and above that the model's amount is the exact one.
- SeatTotals.EachLessonIsPaidOnce: the seat's stretches have all ended after the opening month; one that still runs is charged whole months.
- Ranking.RankByStudent: the sort is the library's; its result is taken in any order a sort by score may leave.
- Texts: shortening to 300 characters, the date inside an end's reason, stripping before storing, who wrote a row and when.
- Dates after the year 9999, where the program stops.
- Names, phones and linked users of accounts, `_refresh_accounts`, the parsing of snapshots and balances (`_group_details`, `lcup_people`), the daily comparison, the gates before a tick, and the counters of its report.
- What `active_time_seconds` means: it is computed as the program does, but a save during a short pause counts the gap, so no relation to elapsed time is claimed.
- Access control, rate limits, serializers, notifications, certificates' pages, and everything else that renders or delivers.
