/** The block of a typed-answer question: the mistakes more than one student made, commonest first. */
module WrongAnswers {
  import opened Wrappers
  import opened KeyTexts
  import opened SmallCells
  import opened Tallies

  const TOP_WRONG_ANSWERS := 5

  // ---------- the order of the list ----------

  datatype Mistake = Mistake(form: string, count: nat)

  /** Commonest first; the form breaks ties. */
  predicate Outranks(a: Mistake, b: Mistake) {
    a.count > b.count || (a.count == b.count && TextLess(a.form, b.form))
  }

  lemma {:induction false} TextLessIsStrict(a: string, b: string)
    ensures TextLess(a, b) ==> !TextLess(b, a) && a != b
    ensures a != b ==> TextLess(a, b) || TextLess(b, a)
  {
    if a != "" && b != "" && a[0] == b[0] {
      TextLessIsStrict(a[1..], b[1..]);
      assert a == [a[0]] + a[1..] && b == [b[0]] + b[1..];
    }
  }

  lemma {:induction false} TextLessTransitive(a: string, b: string, c: string)
    requires TextLess(a, b) && TextLess(b, c)
    ensures TextLess(a, c)
  {
    if a != "" && a[0] == b[0] && b[0] == c[0] {
      TextLessTransitive(a[1..], b[1..], c[1..]);
    }
  }

  lemma OutranksTransitive(a: Mistake, b: Mistake, c: Mistake)
    requires Outranks(a, b) && Outranks(b, c)
    ensures Outranks(a, c)
  {
    if a.count == b.count == c.count {
      TextLessTransitive(a.form, b.form, c.form);
    }
  }

  lemma OneOutranks(a: Mistake, b: Mistake)
    ensures Outranks(a, b) ==> !Outranks(b, a)
    ensures a.form != b.form ==> Outranks(a, b) || Outranks(b, a)
  {
    TextLessIsStrict(a.form, b.form);
  }

  ghost predicate Ranked(list: seq<Mistake>) {
    forall i, j :: 0 <= i < j < |list| ==> Outranks(list[i], list[j])
  }

  /** The list holds exactly the mistakes that at least MIN_CELL students made. */
  predicate HoldsTheShared(list: seq<Mistake>, wrong: map<string, nat>) {
    (forall m :: m in list ==> m.form in wrong && m.count == wrong[m.form] && m.count >= MIN_CELL) &&
    forall form :: form in wrong && wrong[form] >= MIN_CELL ==> Mistake(form, wrong[form]) in list
  }

  /** There is one such list. */
  lemma {:induction false} RankingIsUnique(a: seq<Mistake>, b: seq<Mistake>)
    requires Ranked(a) && Ranked(b) && forall m :: m in a <==> m in b
    ensures a == b
  {
    if a != [] || b != [] {
      assert (a != [] ==> a[0] in a) && (b != [] ==> b[0] in b);
      assert a[0] == b[0] by {
        assert a[0] in b && b[0] in a;
        OneOutranks(a[0], b[0]);
      }
      forall m ensures m in a[1..] <==> m in b[1..] {
        OneOutranks(a[0], a[0]);
        assert m in a <==> m == a[0] || m in a[1..] by { assert a == [a[0]] + a[1..]; }
        assert m in b <==> m == b[0] || m in b[1..] by { assert b == [b[0]] + b[1..]; }
      }
      RankingIsUnique(a[1..], b[1..]);
    }
  }

  lemma InsertedIsRanked(list: seq<Mistake>, m: Mistake, i: nat)
    requires Ranked(list) && i <= |list| && forall x :: x in list ==> x.form != m.form
    requires forall k :: 0 <= k < i ==> Outranks(list[k], m)
    requires i < |list| ==> !Outranks(list[i], m)
    ensures Ranked(list[..i] + [m] + list[i..])
    ensures forall x :: x in list[..i] + [m] + list[i..] <==> x == m || x in list
  {
    var more := list[..i] + [m] + list[i..];
    forall k | i <= k < |list| ensures Outranks(m, list[k]) {
      assert list[i] in list;
      OneOutranks(list[i], m);
      if k > i { OutranksTransitive(m, list[i], list[k]); }
    }
    hide Outranks;
    assert list == list[..i] + list[i..];
    forall j, k | 0 <= j < k < |more| ensures Outranks(more[j], more[k]) {
      assert more[j] == if j < i then list[j] else if j == i then m else list[j - 1];
      assert more[k] == if k < i then list[k] else if k == i then m else list[k - 1];
    }
  }

  method Insert(list: seq<Mistake>, m: Mistake) returns (more: seq<Mistake>)
    requires Ranked(list) && forall x :: x in list ==> x.form != m.form
    ensures Ranked(more) && forall x :: x in more <==> x == m || x in list
  {
    var i := 0;
    while i < |list| && Outranks(list[i], m)
      invariant 0 <= i <= |list|
      invariant forall k :: 0 <= k < i ==> Outranks(list[k], m)
    {
      i := i + 1;
    }
    more := list[..i] + [m] + list[i..];
    InsertedIsRanked(list, m, i);
  }

  /** Sort the shared mistakes. */
  method Rank(wrong: map<string, nat>) returns (list: seq<Mistake>)
    ensures Ranked(list) && HoldsTheShared(list, wrong)
  {
    list := [];
    var rest := wrong;
    while rest != map[]
      invariant forall form :: form in rest ==> form in wrong && rest[form] == wrong[form]
      invariant Ranked(list)
      invariant forall m :: m in list <==>
        m.form in wrong && m.form !in rest && m.count == wrong[m.form] && m.count >= MIN_CELL
      decreases |rest|
    {
      var form :| form in rest;
      if rest[form] >= MIN_CELL {
        list := Insert(list, Mistake(form, rest[form]));
      }
      rest := rest - {form};
    }
  }

  // ---------- the block ----------

  datatype Note = NobodyAnswered | TooFewAnswered | NotYetScored | AllCorrect | NoSharedMistake | NoNote

  /** An answer quoted as the class wrote it, and how many made the mistake. */
  datatype Listed = Listed(answer: string, count: nat)

  datatype AnswersBlock = AnswersBlock(
    state: BlockState,
    responses: nat,
    noAnswer: nat,
    ungraded: nat,
    topWrong: seq<Listed>,
    distinctWrong: Option<nat>,
    note: Note)

  /** How many there are to print. */
  function Printed(n: nat): nat {
    if n < TOP_WRONG_ANSWERS then n else TOP_WRONG_ANSWERS
  }

  /** Every form that was counted has a spelling to quote. */
  ghost predicate Quotable(t: Counts) {
    (forall form :: form in t.wrong ==> form in t.counts && 0 < t.wrong[form]) &&
    forall form :: form in t.counts ==> form in t.display
  }

  lemma {:induction false} RecordedIsQuotable(answers: seq<Seen>)
    ensures Quotable(AllRecorded(answers))
  {
    if answers != [] {
      RecordedIsQuotable(answers[..|answers| - 1]);
    }
  }

  method AddUp(m: map<string, nat>) returns (total: nat)
    ensures total == Total(m)
  {
    total := 0;
    var rest := m;
    while rest != map[]
      invariant total + Total(rest) == Total(m)
      decreases |rest|
    {
      var form :| form in rest;
      TotalWithout(rest, form);
      total := total + rest[form];
      rest := rest - {form};
    }
  }

  function NoteFor(state: BlockState, wrong: nat, shared: nat, ungraded: nat): Note {
    if state == NoData then NobodyAnswered
    else if state == Suppressed then TooFewAnswered
    else if wrong == 0 then if ungraded > 0 then NotYetScored else AllCorrect
    else if shared == 0 then NoSharedMistake
    else NoNote
  }

  method AnswerBlock(t: Counts) returns (b: AnswersBlock, ghost list: seq<Mistake>)
    requires Quotable(t)
    ensures Ranked(list) && HoldsTheShared(list, t.wrong)
    ensures b.responses == Total(t.counts) && b.noAnswer == t.noAnswer && b.ungraded == t.ungraded
    ensures b.state == StateOf(b.responses)
    ensures |b.topWrong| == if b.state == Data then Printed(|list|) else 0
    ensures forall i :: 0 <= i < |b.topWrong| ==>
      b.topWrong[i].count == list[i].count && list[i].form in t.display && b.topWrong[i].answer == t.display[list[i].form]
    ensures b.distinctWrong == if b.state == Data then Some(|t.wrong|) else None
    ensures b.note == NoteFor(b.state, |t.wrong|, |list|, t.ungraded)
  {
    hide Total, Ranked;
    var responses := AddUp(t.counts);
    var state := StateOf(responses);
    var ranked := Rank(t.wrong);
    list := ranked;
    var top: seq<Listed> := [];
    if state == Data {
      for i := 0 to Printed(|ranked|)
        invariant |top| == i
        invariant forall k :: 0 <= k < i ==> top[k] == Listed(t.display[ranked[k].form], ranked[k].count)
      {
        assert ranked[i] in ranked;
        top := top + [Listed(t.display[ranked[i].form], ranked[i].count)];
      }
    }
    b := AnswersBlock(state, responses, t.noAnswer, t.ungraded, top,
                      if state == Data then Some(|t.wrong|) else None,
                      NoteFor(state, |t.wrong|, |ranked|, t.ungraded));
  }

  // ---------- what the list says ----------

  /** A listed mistake was made by at least two students and one left out by no more than any listed: the list is what the
      class got wrong together, read straight off the students' answers. */
  lemma ListIsTheCommonest(answers: seq<Seen>, list: seq<Mistake>, n: nat)
    requires Ranked(list) && HoldsTheShared(list, AllRecorded(answers).wrong) && n <= |list|
    ensures forall i :: 0 <= i < n ==> list[i].count == GivenWrong(answers, list[i].form) >= MIN_CELL
    ensures forall i, j :: 0 <= i < j < n ==>
      list[i].count > list[j].count || (list[i].count == list[j].count && TextLess(list[i].form, list[j].form))
    ensures forall form :: GivenWrong(answers, form) >= MIN_CELL && (forall i :: 0 <= i < n ==> list[i].form != form) ==>
      forall i :: 0 <= i < n ==> Outranks(list[i], Mistake(form, GivenWrong(answers, form)))
  {
    EveryStudentCountsOnce(answers);
    var wrong := AllRecorded(answers).wrong;
    forall i | 0 <= i < n ensures list[i].count == GivenWrong(answers, list[i].form) >= MIN_CELL {
      assert list[i] in list;
      assert At(wrong, list[i].form) == GivenWrong(answers, list[i].form);
    }
    forall form | GivenWrong(answers, form) >= MIN_CELL && (forall i :: 0 <= i < n ==> list[i].form != form)
      ensures forall i :: 0 <= i < n ==> Outranks(list[i], Mistake(form, GivenWrong(answers, form)))
    {
      assert At(wrong, form) == GivenWrong(answers, form);
      var m := Mistake(form, wrong[form]);
      assert m in list;
      var k :| 0 <= k < |list| && list[k] == m;
      assert n <= k;
    }
  }

  lemma {:induction false} GivenWrongSplits(a: seq<Seen>, b: seq<Seen>, form: string)
    ensures GivenWrong(a + b, form) == GivenWrong(a, form) + GivenWrong(b, form)
  {
    if b == [] {
      assert a + b == a;
    } else {
      GivenWrongSplits(a, b[..|b| - 1], form);
      assert (a + b)[..|a + b| - 1] == a + b[..|b| - 1];
    }
  }

  lemma {:induction false} GivenWrongInAnyOrder(a: seq<Seen>, b: seq<Seen>, form: string)
    requires multiset(a) == multiset(b)
    ensures GivenWrong(a, form) == GivenWrong(b, form)
    decreases |a|
  {
    if a == [] {
      assert |multiset(b)| == 0;
    } else {
      hide GivenWrong;
      var k := TakenOut(a, b);
      var init, last := a[..|a| - 1], a[|a| - 1];
      assert a == init + [last];
      GivenWrongInAnyOrder(init, b[..k] + b[k + 1..], form);
      GivenWrongMoved(b[..k], last, b[k + 1..], form);
      GivenWrongSplits(init, [last], form);
    }
  }

  lemma GivenWrongMoved(before: seq<Seen>, one: Seen, behind: seq<Seen>, form: string)
    ensures GivenWrong(before + [one] + behind, form) == GivenWrong(before + behind, form) + GivenWrong([one], form)
  {
    GivenWrongSplits(before, behind, form);
    GivenWrongSplits(before + [one], behind, form);
    GivenWrongSplits(before, [one], form);
  }

  /** The same answers rank the same way in whatever order they were read, on either database. */
  lemma SameAnswersRankTheSame(answers: seq<Seen>, others: seq<Seen>, a: seq<Mistake>, b: seq<Mistake>)
    requires multiset(answers) == multiset(others)
    requires Ranked(a) && HoldsTheShared(a, AllRecorded(answers).wrong)
    requires Ranked(b) && HoldsTheShared(b, AllRecorded(others).wrong)
    ensures a == b
  {
    EveryStudentCountsOnce(answers);
    EveryStudentCountsOnce(others);
    var mine, theirs := AllRecorded(answers).wrong, AllRecorded(others).wrong;
    forall m ensures m in a <==> m in b {
      GivenWrongInAnyOrder(answers, others, m.form);
      assert At(mine, m.form) == At(theirs, m.form);
    }
    RankingIsUnique(a, b);
  }

  /** Somebody gave the form and was marked wrong. */
  predicate WrongFor(answers: seq<Seen>, i: nat, form: string) {
    i < |answers| && HasAnswer(answers[i]) && answers[i].raw.form == form && answers[i].verdict == Some(false)
  }

  lemma {:induction false} GivenWrongIff(answers: seq<Seen>, form: string)
    ensures GivenWrong(answers, form) > 0 <==> exists i: nat :: WrongFor(answers, i, form)
  {
    if answers != [] {
      var init := answers[..|answers| - 1];
      GivenWrongIff(init, form);
      if i: nat :| WrongFor(init, i, form) {
        assert WrongFor(answers, i, form);
      }
      if i: nat :| WrongFor(answers, i, form) {
        assert i < |init| ==> WrongFor(init, i, form);
      }
      if HasAnswer(answers[|init|]) && answers[|init|].raw.form == form && answers[|init|].verdict == Some(false) {
        assert WrongFor(answers, |init|, form);
      }
    }
  }

  predicate AnyWrong(answers: seq<Seen>) {
    exists i :: 0 <= i < |answers| && HasAnswer(answers[i]) && answers[i].verdict == Some(false)
  }

  /** The note is about what the list shows: nobody, too few, nothing scored yet, nothing wrong, nothing shared, or nothing to say. */
  lemma NoteIs(answers: seq<Seen>, list: seq<Mistake>, state: BlockState)
    requires HoldsTheShared(list, AllRecorded(answers).wrong)
    requires (state == NoData <==> Answered(answers) == 0) && (state == Suppressed <==> 0 < Answered(answers) < 5) && (state == Data <==> Answered(answers) >= 5)
    ensures NoteFor(state, |AllRecorded(answers).wrong|, |list|, AllRecorded(answers).ungraded) ==
            if Answered(answers) == 0 then NobodyAnswered
            else if Answered(answers) < 5 then TooFewAnswered
            else if !AnyWrong(answers) then if Waiting(answers) > 0 then NotYetScored else AllCorrect
            else if forall form :: GivenWrong(answers, form) < 2 then NoSharedMistake
            else NoNote
  {
    var wrong := AllRecorded(answers).wrong;
    AnsweredAre(answers);
    EveryStudentCountsOnce(answers);
    RecordedIsQuotable(answers);
    hide Total, AllRecorded, GivenWrong;
    assert AnyWrong(answers) <==> wrong != map[] by { SomeWrong(answers, wrong); }
    SomeShared(answers, list, wrong);
    assert |wrong| == 0 <==> wrong == map[];
  }

  lemma SomeWrong(answers: seq<Seen>, wrong: map<string, nat>)
    requires forall form :: At(wrong, form) == GivenWrong(answers, form)
    requires forall form :: form in wrong ==> wrong[form] > 0
    ensures AnyWrong(answers) <==> wrong != map[]
  {
    hide GivenWrong;
    if AnyWrong(answers) {
      var i :| 0 <= i < |answers| && HasAnswer(answers[i]) && answers[i].verdict == Some(false);
      assert WrongFor(answers, i, answers[i].raw.form);
      GivenWrongIff(answers, answers[i].raw.form);
      assert answers[i].raw.form in wrong;
    }
    if form :| form in wrong {
      assert At(wrong, form) > 0;
      GivenWrongIff(answers, form);
      var i: nat :| WrongFor(answers, i, form);
    }
  }

  lemma SomeShared(answers: seq<Seen>, list: seq<Mistake>, wrong: map<string, nat>)
    requires forall form :: At(wrong, form) == GivenWrong(answers, form)
    requires HoldsTheShared(list, wrong)
    ensures list == [] <==> forall form :: GivenWrong(answers, form) < 2
  {
    hide GivenWrong;
    if list != [] {
      assert list[0] in list;
      assert At(wrong, list[0].form) == GivenWrong(answers, list[0].form) >= 2;
    }
    if form :| GivenWrong(answers, form) >= 2 {
      assert At(wrong, form) == GivenWrong(answers, form) && form in wrong;
      assert Mistake(form, wrong[form]) in list;
    }
  }

  /** From the students' answers to the block: every student is counted once; from five answers on, the five commonest mistakes
      that two or more made are listed, all of them when there are fewer, commonest first, each quoted as it was first written
      with how many were marked wrong for it; below five answers none are; and the note says which of these it is. */
  method AnswersBlockOf(answers: seq<Seen>) returns (b: AnswersBlock, ghost list: seq<Mistake>)
    ensures b.responses == Answered(answers) && b.noAnswer == |answers| - Answered(answers) && b.ungraded == Waiting(answers)
    ensures Ranked(list) && HoldsTheShared(list, AllRecorded(answers).wrong)
    ensures |b.topWrong| == if Answered(answers) >= 5 then Min(5, |list|) else 0
    ensures forall i :: 0 <= i < |b.topWrong| ==> b.topWrong[i].count == GivenWrong(answers, list[i].form) >= 2
    ensures forall i, form :: 0 <= i < |b.topWrong| && GivenWrong(answers, form) > b.topWrong[i].count ==>
      exists k :: 0 <= k < i && list[k].form == form
    ensures forall i, k :: 0 <= i < |b.topWrong| && IsFirstOf(answers, k, list[i].form) ==> b.topWrong[i].answer == answers[k].raw.quoted
    ensures b.distinctWrong == if Answered(answers) >= 5 then Some(|AllRecorded(answers).wrong|) else None
    ensures b.note ==
            if Answered(answers) == 0 then NobodyAnswered
            else if Answered(answers) < 5 then TooFewAnswered
            else if !AnyWrong(answers) then if Waiting(answers) > 0 then NotYetScored else AllCorrect
            else if forall form :: GivenWrong(answers, form) < 2 then NoSharedMistake
            else NoNote
  {
    var tally := TallyOf(answers);
    AnsweredAre(answers);
    RecordedIsQuotable(answers);
    b, list := AnswerBlock(tally);
    ListIsTheCommonest(answers, list, |b.topWrong|);
    NoteIs(answers, list, b.state);
    forall i, form | 0 <= i < |b.topWrong| && GivenWrong(answers, form) > b.topWrong[i].count
      ensures exists k :: 0 <= k < i && list[k].form == form
    {
      CommonerComesFirst(answers, list, i, form);
    }
    forall i, k | 0 <= i < |b.topWrong| && IsFirstOf(answers, k, list[i].form) ensures b.topWrong[i].answer == answers[k].raw.quoted {
      QuotedAsFirstWritten(answers, k);
    }
    hide Total, GivenWrong, Ranked, AllRecorded, HoldsTheShared;
  }

  /** The first of the answers to give the form. */
  predicate IsFirstOf(answers: seq<Seen>, k: int, form: string) {
    0 <= k < |answers| && HasAnswer(answers[k]) && answers[k].raw.form == form &&
    forall j :: 0 <= j < k && HasAnswer(answers[j]) ==> answers[j].raw.form != form
  }

  lemma CommonerComesFirst(answers: seq<Seen>, list: seq<Mistake>, i: nat, form: string)
    requires Ranked(list) && HoldsTheShared(list, AllRecorded(answers).wrong) && i < |list|
    requires GivenWrong(answers, form) > list[i].count
    ensures exists k :: 0 <= k < i && list[k].form == form
  {
    EveryStudentCountsOnce(answers);
    var wrong := AllRecorded(answers).wrong;
    assert At(wrong, form) == GivenWrong(answers, form) && list[i] in list;
    var m := Mistake(form, wrong[form]);
    assert m in list;
    var k :| 0 <= k < |list| && list[k] == m;
  }
}
