/** Counting one question's answers, one a student, and laying them onto its options. */
module Tallies {
  import opened Wrappers
  import opened SmallCells

  /** What a student's record holds: something that cannot be counted, or a scalar with its normalised form and the
      spelling to quote.  The form is the one grading compares by (case, width and spaces folded) and may be empty. */
  datatype Raw = Blob | Scalar(form: string, quoted: string)

  datatype Counts = Counts(
    counts: map<string, nat>,
    display: map<string, string>,
    wrong: map<string, nat>,
    noAnswer: nat,
    ungraded: nat)

  const NO_COUNTS := Counts(map[], map[], map[], 0, 0)

  function At(m: map<string, nat>, form: string): nat {
    if form in m then m[form] else 0
  }

  function OneMore(m: map<string, nat>, form: string): map<string, nat> {
    m[form := At(m, form) + 1]
  }

  predicate Countable(raw: Raw) {
    raw.Scalar? && raw.form != ""
  }

  /** The counts after one more student; no verdict means the answer has yet to be scored. */
  function Recorded(t: Counts, raw: Raw, verdict: Option<bool>): Counts {
    if !Countable(raw) then t.(noAnswer := t.noAnswer + 1)
    else
      Counts(OneMore(t.counts, raw.form),
             if raw.form in t.display then t.display else t.display[raw.form := raw.quoted],
             if verdict == Some(false) then OneMore(t.wrong, raw.form) else t.wrong,
             t.noAnswer,
             if verdict.None? then t.ungraded + 1 else t.ungraded)
  }

  datatype Seen = Seen(raw: Raw, verdict: Option<bool>)

  function AllRecorded(answers: seq<Seen>): Counts {
    if answers == [] then NO_COUNTS
    else
      var last := answers[|answers| - 1];
      Recorded(AllRecorded(answers[..|answers| - 1]), last.raw, last.verdict)
  }

  // ---------- sums over a map ----------

  ghost function Total(m: map<string, nat>): nat {
    if m == map[] then 0
    else
      var k :| k in m;
      m[k] + Total(m - {k})
  }

  lemma {:induction false} TotalWithout(m: map<string, nat>, k: string)
    requires k in m
    ensures Total(m) == m[k] + Total(m - {k})
    decreases |m|
  {
    var first :| first in m && Total(m) == m[first] + Total(m - {first});
    if first != k {
      TotalWithout(m - {first}, k);
      TotalWithout(m - {k}, first);
      assert m - {first} - {k} == m - {k} - {first};
    }
  }

  lemma TotalOneMore(m: map<string, nat>, form: string)
    ensures Total(OneMore(m, form)) == Total(m) + 1
  {
    var more := OneMore(m, form);
    TotalWithout(more, form);
    if form in m {
      TotalWithout(m, form);
      assert more - {form} == m - {form};
    } else {
      assert more - {form} == m;
    }
  }

  /** How many of the answers give this form. */
  function Given(answers: seq<Seen>, form: string): nat {
    if answers == [] then 0
    else
      var last := answers[|answers| - 1].raw;
      Given(answers[..|answers| - 1], form) + if Countable(last) && last.form == form then 1 else 0
  }

  function GivenWrong(answers: seq<Seen>, form: string): nat {
    if answers == [] then 0
    else
      var last := answers[|answers| - 1];
      GivenWrong(answers[..|answers| - 1], form) +
      if Countable(last.raw) && last.raw.form == form && last.verdict == Some(false) then 1 else 0
  }

  lemma {:induction false} StudentsAddUp(answers: seq<Seen>)
    ensures var t := AllRecorded(answers);
            Total(t.counts) + t.noAnswer == |answers| && t.ungraded <= Total(t.counts) && "" !in t.counts
  {
    if answers != [] {
      var init, last := answers[..|answers| - 1], answers[|answers| - 1];
      StudentsAddUp(init);
      if Countable(last.raw) {
        TotalOneMore(AllRecorded(init).counts, last.raw.form);
      }
      hide Total;
    }
  }

  lemma {:induction false} FormCounts(answers: seq<Seen>, form: string)
    ensures At(AllRecorded(answers).counts, form) == Given(answers, form)
    ensures At(AllRecorded(answers).wrong, form) == GivenWrong(answers, form) <= Given(answers, form)
    ensures form in AllRecorded(answers).wrong <==> GivenWrong(answers, form) > 0
  {
    if answers != [] {
      FormCounts(answers[..|answers| - 1], form);
    }
  }

  /** A form is counted as often as it was given, as wrong as often as it was given and marked wrong, and every student is
      counted once, as an answer or as none. */
  lemma EveryStudentCountsOnce(answers: seq<Seen>)
    ensures forall form :: form in AllRecorded(answers).wrong <==> GivenWrong(answers, form) > 0
    ensures var t := AllRecorded(answers);
            Total(t.counts) + t.noAnswer == |answers| && t.ungraded <= Total(t.counts) && "" !in t.counts
    ensures forall form :: At(AllRecorded(answers).counts, form) == Given(answers, form) &&
                           At(AllRecorded(answers).wrong, form) == GivenWrong(answers, form) <= Given(answers, form)
  {
    StudentsAddUp(answers);
    hide *;
    forall form
      ensures At(AllRecorded(answers).counts, form) == Given(answers, form) &&
              At(AllRecorded(answers).wrong, form) == GivenWrong(answers, form) <= Given(answers, form)
    {
      FormCounts(answers, form);
    }
    forall form ensures form in AllRecorded(answers).wrong <==> GivenWrong(answers, form) > 0 {
      FormCounts(answers, form);
    }
  }

  // ---------- told from the answers ----------

  /** Something countable was written. */
  predicate HasAnswer(s: Seen) {
    s.raw.Scalar? && s.raw.form != ""
  }

  function Answered(answers: seq<Seen>): nat {
    if answers == [] then 0
    else Answered(answers[..|answers| - 1]) + if HasAnswer(answers[|answers| - 1]) then 1 else 0
  }

  /** How many answers still wait for a verdict. */
  function Waiting(answers: seq<Seen>): nat {
    if answers == [] then 0
    else
      var last := answers[|answers| - 1];
      Waiting(answers[..|answers| - 1]) + if HasAnswer(last) && last.verdict.None? then 1 else 0
  }

  lemma {:induction false} AnsweredAre(answers: seq<Seen>)
    ensures var t := AllRecorded(answers);
            Total(t.counts) == Answered(answers) && t.ungraded == Waiting(answers) && t.noAnswer == |answers| - Answered(answers)
  {
    if answers == [] {
    } else {
      var init, last := answers[..|answers| - 1], answers[|answers| - 1];
      AnsweredAre(init);
      if HasAnswer(last) {
        TotalOneMore(AllRecorded(init).counts, last.raw.form);
      }
      hide Total;
    }
  }

  /** A form is quoted as the first student wrote it. */
  lemma {:induction false} QuotedAsFirstWritten(answers: seq<Seen>, k: nat)
    requires k < |answers| && HasAnswer(answers[k])
    requires forall j :: 0 <= j < k && HasAnswer(answers[j]) ==> answers[j].raw.form != answers[k].raw.form
    ensures var display := AllRecorded(answers).display;
            answers[k].raw.form in display && display[answers[k].raw.form] == answers[k].raw.quoted
  {
    var init := answers[..|answers| - 1];
    if k < |init| {
      QuotedAsFirstWritten(init, k);
    } else {
      NotQuoted(init, answers[k].raw.form);
    }
  }

  lemma {:induction false} NotQuoted(answers: seq<Seen>, form: string)
    requires forall j :: 0 <= j < |answers| && HasAnswer(answers[j]) ==> answers[j].raw.form != form
    ensures form !in AllRecorded(answers).display
  {
    if answers != [] {
      NotQuoted(answers[..|answers| - 1], form);
    }
  }

  /** The tally as it is filled, in place. */
  class ResponseTally {
    var counts: map<string, nat>
    var display: map<string, string>
    var wrong: map<string, nat>
    var noAnswer: nat
    var ungraded: nat

    function Now(): Counts
      reads this
    {
      Counts(counts, display, wrong, noAnswer, ungraded)
    }

    constructor ()
      ensures Now() == NO_COUNTS
    {
      counts, display, wrong, noAnswer, ungraded := map[], map[], map[], 0, 0;
    }

    method Record(raw: Raw, verdict: Option<bool>)
      modifies this
      ensures Now() == Recorded(old(Now()), raw, verdict)
    {
      if !raw.Scalar? || raw.form == "" {
        noAnswer := noAnswer + 1;
        return;
      }
      counts := OneMore(counts, raw.form);
      if raw.form !in display {
        display := display[raw.form := raw.quoted];
      }
      if verdict == Some(false) {
        wrong := OneMore(wrong, raw.form);
      } else if verdict.None? {
        ungraded := ungraded + 1;
      }
    }
  }

  // ---------- options ----------

  /** An option's normalised key and the normalised spellings that also mean it. */
  datatype Choice = Choice(key: string, aliases: seq<string>)

  /** The first option with the key. */
  function KeyedBy(options: seq<Choice>, form: string): (r: Option<nat>)
    ensures r.Some? ==> r.value < |options| && options[r.value].key == form
    ensures r.Some? ==> forall i: nat :: i < r.value ==> options[i].key != form
    ensures r.None? ==> forall i: nat :: i < |options| ==> options[i].key != form
  {
    if options == [] then None
    else
      var before := KeyedBy(options[..|options| - 1], form);
      if before.Some? then before else if options[|options| - 1].key == form then Some(|options| - 1) else None
  }

  /** The first option with the alias. */
  function AliasedBy(options: seq<Choice>, form: string): (r: Option<nat>)
    ensures r.Some? ==> r.value < |options| && form in options[r.value].aliases
    ensures r.Some? ==> forall i: nat :: i < r.value ==> form !in options[i].aliases
    ensures r.None? ==> forall i: nat :: i < |options| ==> form !in options[i].aliases
  {
    if options == [] then None
    else
      var before := AliasedBy(options[..|options| - 1], form);
      if before.Some? then before else if form in options[|options| - 1].aliases then Some(|options| - 1) else None
  }

  /** Which option an answer counts for: a key before any alias. */
  function OptionOf(options: seq<Choice>, form: string): (r: Option<nat>)
    ensures r.Some? ==> r.value < |options|
  {
    if form == "" then None
    else if KeyedBy(options, form).Some? then KeyedBy(options, form)
    else AliasedBy(options, form)
  }

  predicate IsLookup(lookup: map<string, nat>, options: seq<Choice>) {
    (forall form :: form in lookup ==> OptionOf(options, form) == Some(lookup[form])) &&
    forall i: nat :: i < |options| ==>
      (options[i].key == "" || options[i].key in lookup) &&
      forall j: nat :: j < |options[i].aliases| ==> options[i].aliases[j] == "" || options[i].aliases[j] in lookup
  }

  /** An answer that is some option's key is credited to an option with that key, whatever another option's text says. */
  lemma AliasNeverClaimsAKey(options: seq<Choice>, form: string, i: nat)
    requires i < |options| && options[i].key == form && form != ""
    ensures OptionOf(options, form).Some?
    ensures options[OptionOf(options, form).value].key == form && OptionOf(options, form).value <= i
  {
    assert KeyedBy(options, form).Some?;
  }

  lemma LookupIsOptionOf(lookup: map<string, nat>, options: seq<Choice>, form: string)
    requires IsLookup(lookup, options)
    ensures OptionOf(options, form) == if form in lookup then Some(lookup[form]) else None
  {
  }

  predicate AreKeys(keys: map<string, nat>, options: seq<Choice>) {
    (forall form :: form in keys ==> form != "" && KeyedBy(options, form) == Some(keys[form])) &&
    forall i: nat :: i < |options| ==> options[i].key == "" || options[i].key in keys
  }

  /** The first pass: an option's key, unless an earlier option has it. */
  method BuildKeys(options: seq<Choice>) returns (keys: map<string, nat>)
    ensures AreKeys(keys, options)
  {
    keys := map[];
    for i := 0 to |options|
      invariant forall form :: form in keys ==> form != "" && KeyedBy(options, form) == Some(keys[form])
      invariant forall k: nat :: k < i ==> options[k].key == "" || options[k].key in keys
    {
      var key := options[i].key;
      if key != "" && key !in keys {
        assert KeyedBy(options, key).Some? && KeyedBy(options, key).value == i;
        keys := keys[key := i];
      }
    }
  }

  predicate HasAliases(lookup: map<string, nat>, option: Choice, n: nat) {
    forall j: nat :: j < n && j < |option.aliases| ==> option.aliases[j] == "" || option.aliases[j] in lookup
  }

  predicate AliasesAdded(lookup: map<string, nat>, keys: map<string, nat>, options: seq<Choice>) {
    (forall form :: form in keys ==> form in lookup && lookup[form] == keys[form]) &&
    forall form :: form in lookup && form !in keys ==> form != "" && AliasedBy(options, form) == Some(lookup[form])
  }

  /** One option's aliases, where no key and no earlier option has them. */
  method AddAliases(lookup: map<string, nat>, ghost keys: map<string, nat>, options: seq<Choice>, i: nat)
    returns (more: map<string, nat>)
    requires i < |options| && AliasesAdded(lookup, keys, options)
    requires forall k: nat :: k < i ==> HasAliases(lookup, options[k], |options[k].aliases|)
    ensures AliasesAdded(more, keys, options)
    ensures forall k: nat :: k <= i ==> HasAliases(more, options[k], |options[k].aliases|)
  {
    more := lookup;
    for j := 0 to |options[i].aliases|
      invariant AliasesAdded(more, keys, options)
      invariant forall form :: form in lookup ==> form in more
      invariant HasAliases(more, options[i], j)
    {
      var form := options[i].aliases[j];
      if form != "" && form !in more {
        assert AliasedBy(options, form) == Some(i) by {
          var first := AliasedBy(options, form);
          assert first.Some? && first.value <= i;
        }
        more := more[form := i];
      }
    }
    forall k: nat | k <= i ensures HasAliases(more, options[k], |options[k].aliases|) {
      if k < i { assert HasAliases(lookup, options[k], |options[k].aliases|); }
    }
  }

  /** Keys in a first pass, aliases in a second. */
  method BuildLookup(options: seq<Choice>) returns (lookup: map<string, nat>)
    ensures IsLookup(lookup, options)
  {
    var keys := BuildKeys(options);
    lookup := keys;
    for i := 0 to |options|
      invariant AliasesAdded(lookup, keys, options)
      invariant forall k: nat :: k < i ==> HasAliases(lookup, options[k], |options[k].aliases|)
    {
      lookup := AddAliases(lookup, keys, options, i);
    }
    TwoPassesMakeALookup(lookup, keys, options);
  }

  lemma TwoPassesMakeALookup(lookup: map<string, nat>, keys: map<string, nat>, options: seq<Choice>)
    requires AreKeys(keys, options) && AliasesAdded(lookup, keys, options)
    requires forall k: nat :: k < |options| ==> HasAliases(lookup, options[k], |options[k].aliases|)
    ensures IsLookup(lookup, options)
  {
    forall form | form in lookup ensures OptionOf(options, form) == Some(lookup[form]) {
      if form !in keys {
        assert KeyedBy(options, form).None?;
      }
    }
    forall i: nat, j: nat | i < |options| && j < |options[i].aliases|
      ensures options[i].aliases[j] == "" || options[i].aliases[j] in lookup
    {
      assert HasAliases(lookup, options[i], |options[i].aliases|);
    }
  }

  // ---------- the counts of the options ----------

  /** The form means the option: it is the first with that key, or no option has that key and it is the first with that alias. */
  ghost predicate Means(options: seq<Choice>, form: string, i: nat) {
    i < |options| && form != "" &&
    ((options[i].key == form && forall j :: 0 <= j < i ==> options[j].key != form) ||
     ((forall j :: 0 <= j < |options| ==> options[j].key != form) && form in options[i].aliases &&
      forall j :: 0 <= j < i ==> form !in options[j].aliases))
  }

  lemma OptionIsMeant(options: seq<Choice>, form: string, i: nat)
    ensures OptionOf(options, form) == Some(i) <==> Means(options, form, i)
  {
    var key, alias := KeyedBy(options, form), AliasedBy(options, form);
    hide KeyedBy, AliasedBy;
    if Means(options, form, i) && key.Some? {
      assert options[key.value].key == form;
    }
  }

  /** The answers an option is credited with: those of the forms that mean it. */
  function ShareOf(m: map<string, nat>, options: seq<Choice>, option: Option<nat>): map<string, nat> {
    map form | form in m && OptionOf(options, form) == option :: m[form]
  }

  lemma ShareWithout(m: map<string, nat>, options: seq<Choice>, form: string, option: Option<nat>)
    requires form in m
    ensures Total(ShareOf(m, options, option)) == Total(ShareOf(m - {form}, options, option)) +
      if OptionOf(options, form) == option then m[form] else 0
  {
    var share := ShareOf(m, options, option);
    if OptionOf(options, form) == option {
      TotalWithout(share, form);
      assert share - {form} == ShareOf(m - {form}, options, option);
    } else {
      assert share == ShareOf(m - {form}, options, option);
    }
  }

  /** How many of the answers mean the option. */
  ghost function MeantFor(answers: seq<Seen>, options: seq<Choice>, i: nat): nat {
    if answers == [] then 0
    else
      var last := answers[|answers| - 1];
      MeantFor(answers[..|answers| - 1], options, i) + if HasAnswer(last) && Means(options, last.raw.form, i) then 1 else 0
  }

  lemma ShareOneMore(m: map<string, nat>, options: seq<Choice>, form: string, option: Option<nat>)
    ensures Total(ShareOf(OneMore(m, form), options, option)) ==
            Total(ShareOf(m, options, option)) + if OptionOf(options, form) == option then 1 else 0
  {
    var share, more := ShareOf(m, options, option), ShareOf(OneMore(m, form), options, option);
    hide OptionOf;
    if OptionOf(options, form) == option {
      assert more == OneMore(share, form);
      TotalOneMore(share, form);
    } else {
      assert more == share;
    }
  }

  /** An option's count is how many students' answers mean it. */
  lemma {:induction false} ShareIsMeant(answers: seq<Seen>, options: seq<Choice>, i: nat)
    ensures Total(ShareOf(AllRecorded(answers).counts, options, Some(i))) == MeantFor(answers, options, i)
  {
    if answers == [] {
      assert ShareOf(AllRecorded(answers).counts, options, Some(i)) == map[];
    } else {
      var init, last := answers[..|answers| - 1], answers[|answers| - 1];
      ShareIsMeant(init, options, i);
      if HasAnswer(last) {
        ShareOneMore(AllRecorded(init).counts, options, last.raw.form, Some(i));
        OptionIsMeant(options, last.raw.form, i);
      }
      hide Total, ShareOf, OptionOf, Means;
    }
  }

  datatype BlockState = NoData | Unreadable | Suppressed | Data

  /** The sentence printed with the block. */
  datatype Sentence = NobodyYet | NothingFits | TooFewStudents | SmallCellsHeld | NoSentence

  /** P is what a share is printed as. */
  datatype Block<P> = Block(
    state: BlockState, row: Row, shares: seq<Option<P>>, noAnswer: nat, unrecognised: nat, ungraded: nat, sentence: Sentence)

  function StateOf(responses: nat): BlockState {
    if responses == 0 then NoData else if responses < MIN_RESPONSES then Suppressed else Data
  }

  /** What has been laid onto the options, with what is left, makes the whole. */
  ghost predicate LaidOut(m: map<string, nat>, rest: map<string, nat>, options: seq<Choice>, counts: seq<nat>, others: nat) {
    |counts| == |options| &&
    (forall i: nat :: i < |options| ==>
      counts[i] + Total(ShareOf(rest, options, Some(i))) == Total(ShareOf(m, options, Some(i)))) &&
    others + Total(ShareOf(rest, options, None)) == Total(ShareOf(m, options, None)) &&
    Sum(counts) + others + Total(rest) == Total(m)
  }

  /** rest' is rest without answers worth x, all of which meant the one option. */
  ghost predicate TakesFrom(rest: map<string, nat>, rest': map<string, nat>, options: seq<Choice>, option: Option<nat>, x: nat) {
    Total(rest) == x + Total(rest') &&
    (forall i: nat :: i < |options| ==>
      Total(ShareOf(rest, options, Some(i))) == Total(ShareOf(rest', options, Some(i))) + if option == Some(i) then x else 0) &&
    Total(ShareOf(rest, options, None)) == Total(ShareOf(rest', options, None)) + if option == None then x else 0
  }

  lemma FormTakesFrom(rest: map<string, nat>, options: seq<Choice>, form: string)
    requires form in rest
    ensures TakesFrom(rest, rest - {form}, options, OptionOf(options, form), rest[form])
  {
    TotalWithout(rest, form);
    forall option: Option<nat>
      ensures Total(ShareOf(rest, options, option)) == Total(ShareOf(rest - {form}, options, option)) +
        if OptionOf(options, form) == option then rest[form] else 0
    {
      ShareWithout(rest, options, form, option);
    }
    hide Total, ShareOf, OptionOf;
  }

  lemma LayOnto(
    m: map<string, nat>, rest: map<string, nat>, rest': map<string, nat>, options: seq<Choice>,
    counts: seq<nat>, others: nat, i: nat, x: nat)
    requires LaidOut(m, rest, options, counts, others) && i < |options|
    requires TakesFrom(rest, rest', options, Some(i), x)
    ensures i < |counts| && LaidOut(m, rest', options, counts[i := counts[i] + x], others)
  {
    hide Total, ShareOf, Sum;
    SumUpdated(counts, i, counts[i] + x);
    var counts' := counts[i := counts[i] + x];
    forall j: nat | j < |options|
      ensures counts'[j] + Total(ShareOf(rest', options, Some(j))) == Total(ShareOf(m, options, Some(j)))
    {
      assert counts[j] + Total(ShareOf(rest, options, Some(j))) == Total(ShareOf(m, options, Some(j)));
    }
  }

  lemma LayElsewhere(
    m: map<string, nat>, rest: map<string, nat>, rest': map<string, nat>, options: seq<Choice>,
    counts: seq<nat>, others: nat, x: nat)
    requires LaidOut(m, rest, options, counts, others) && TakesFrom(rest, rest', options, None, x)
    ensures LaidOut(m, rest', options, counts, others + x)
  {
    hide Total, ShareOf, Sum;
  }

  lemma LayOneOut(
    m: map<string, nat>, rest: map<string, nat>, options: seq<Choice>, counts: seq<nat>, others: nat, form: string)
    requires LaidOut(m, rest, options, counts, others) && form in rest
    ensures var option := OptionOf(options, form);
            if option.Some? then
              option.value < |counts| &&
              LaidOut(m, rest - {form}, options, counts[option.value := counts[option.value] + rest[form]], others)
            else
              LaidOut(m, rest - {form}, options, counts, others + rest[form])
  {
    hide *;
    FormTakesFrom(rest, options, form);
    var option := OptionOf(options, form);
    if option.Some? {
      LayOnto(m, rest, rest - {form}, options, counts, others, option.value, rest[form]);
    } else {
      LayElsewhere(m, rest, rest - {form}, options, counts, others, rest[form]);
    }
  }

  lemma LaidOutAll(m: map<string, nat>, options: seq<Choice>, counts: seq<nat>, others: nat)
    requires LaidOut(m, map[], options, counts, others)
    ensures |counts| == |options| && forall i: nat :: i < |options| ==> counts[i] == Total(ShareOf(m, options, Some(i)))
    ensures others == Total(ShareOf(m, options, None)) && Sum(counts) + others == Total(m)
  {
    forall option: Option<nat> ensures Total(ShareOf(map[], options, option)) == 0 {
      assert ShareOf(map[], options, option) == map[];
    }
  }

  /** One form's count laid onto its option, or onto none. */
  method LayForm(lookup: map<string, nat>, options: seq<Choice>, counts: seq<nat>, unrecognised: nat, form: string, count: nat)
    returns (more: seq<nat>, others: nat)
    requires IsLookup(lookup, options) && |counts| == |options|
    ensures var option := OptionOf(options, form);
            if option.Some? then more == counts[option.value := counts[option.value] + count] && others == unrecognised
            else more == counts && others == unrecognised + count
  {
    LookupIsOptionOf(lookup, options, form);
    more, others := counts, unrecognised;
    hide IsLookup;
    if form in lookup {
      var index := lookup[form];
      more := counts[index := counts[index] + count];
    } else {
      others := unrecognised + count;
    }
  }

  lemma LaidOutSize(m: map<string, nat>, rest: map<string, nat>, options: seq<Choice>, counts: seq<nat>, others: nat)
    requires LaidOut(m, rest, options, counts, others)
    ensures |counts| == |options|
  {
  }

  /** Each option's count is the answers of the forms that mean it and the unrecognised are the rest, so every answer lands
      in exactly one place. */
  method CountOptions(m: map<string, nat>, options: seq<Choice>) returns (counts: seq<nat>, unrecognised: nat)
    ensures |counts| == |options|
    ensures forall i: nat :: i < |options| ==> counts[i] == Total(ShareOf(m, options, Some(i)))
    ensures unrecognised == Total(ShareOf(m, options, None))
    ensures Sum(counts) + unrecognised == Total(m)
  {
    hide *;
    var lookup := BuildLookup(options);
    counts := seq(|options|, i => 0);
    NothingLaidOut(m, options, counts);
    counts, unrecognised := LayAll(lookup, m, options, counts);
    LaidOutAll(m, options, counts, unrecognised);
  }

  method LayAll(lookup: map<string, nat>, m: map<string, nat>, options: seq<Choice>, zeros: seq<nat>)
    returns (counts: seq<nat>, unrecognised: nat)
    requires IsLookup(lookup, options) && LaidOut(m, m, options, zeros, 0)
    ensures LaidOut(m, map[], options, counts, unrecognised)
  {
    hide *;
    counts, unrecognised := zeros, 0;
    var rest := m;
    while rest != map[]
      invariant LaidOut(m, rest, options, counts, unrecognised)
      decreases |rest|
    {
      var form :| form in rest;
      LaidOutSize(m, rest, options, counts, unrecognised);
      LayOneOut(m, rest, options, counts, unrecognised, form);
      counts, unrecognised := LayForm(lookup, options, counts, unrecognised, form, rest[form]);
      rest := rest - {form};
    }
  }

  lemma NothingLaidOut(m: map<string, nat>, options: seq<Choice>, counts: seq<nat>)
    requires |counts| == |options| && forall i :: 0 <= i < |counts| ==> counts[i] == 0
    ensures LaidOut(m, m, options, counts, 0)
  {
    SumOfZeros(counts);
    hide Total, ShareOf, Sum;
  }

  lemma {:induction false} SumOfZeros(counts: seq<nat>)
    requires forall i :: 0 <= i < |counts| ==> counts[i] == 0
    ensures Sum(counts) == 0
  {
    if counts != [] {
      SumOfZeros(counts[..|counts| - 1]);
    }
  }

  /** Each shown cell's share of the responses. */
  function SharesOf<P>(row: Row, percent: (nat, nat) -> P): (shares: seq<Option<P>>)
    ensures |shares| == |row.cells|
  {
    seq(|row.cells|, i requires 0 <= i < |row.cells| =>
      if row.cells[i].Some? then Some(percent(row.cells[i].value, row.responses)) else None)
  }

  function SentenceOf(state: BlockState, held: bool): Sentence {
    match state
    case NoData => NobodyYet
    case Unreadable => NothingFits
    case Suppressed => TooFewStudents
    case Data => if held then SmallCellsHeld else NoSentence
  }

  /** The cells and shares as a reader sees them; a share is shown exactly with its count. */
  method ShowCells<P>(counts: seq<nat>, percent: (nat, nat) -> P) returns (shown: seq<Option<nat>>, shares: seq<Option<P>>, held: bool)
    ensures Row(Sum(counts), shown) == Published(counts)
    ensures shares == SharesOf(Published(counts), percent)
    ensures held <==> Sum(counts) >= MIN_RESPONSES && HeldBack(counts) != {}
  {
    var responses := Sum(counts);
    var show := responses >= MIN_RESPONSES;
    var heldBack: set<nat> := {};
    if show {
      heldBack := HeldBackCells(counts);
    }
    held := heldBack != {};
    hide HeldBack, Sum;
    shown, shares := [], [];
    for i := 0 to |counts|
      invariant |shown| == |shares| == i
      invariant forall k :: 0 <= k < i ==> shown[k] == if show && k !in heldBack then Some(counts[k]) else None
      invariant forall k :: 0 <= k < i ==> shares[k] == if show && k !in heldBack then Some(percent(counts[k], responses)) else None
    {
      var visible := show && i !in heldBack;
      shown := shown + [if visible then Some(counts[i]) else None];
      shares := shares + [if visible then Some(percent(counts[i], responses)) else None];
    }
    assert shown == Published(counts).cells;
    assert shares == SharesOf(Published(counts), percent);
  }

  /** The shares and the sentence tell a reader nothing the counts shown do not: two rows of counts that publish the same
      counts publish the same shares and the same sentence. */
  lemma SharesTellNothingMore<P>(counts: seq<nat>, other: seq<nat>, percent: (nat, nat) -> P)
    requires Published(other) == Published(counts) && Sum(counts) >= MIN_RESPONSES
    ensures SharesOf(Published(other), percent) == SharesOf(Published(counts), percent)
    ensures SentenceOf(StateOf(Sum(other)), HeldBack(other) != {}) == SentenceOf(StateOf(Sum(counts)), HeldBack(counts) != {})
  {
    SameRowSameHeld(counts, other);
    hide HeldBack, Sum, Published;
  }

  /** The block of one multiple-choice question. */
  method OptionBlock<P>(t: Counts, options: seq<Choice>, percent: (nat, nat) -> P)
    returns (b: Block<P>, ghost counts: seq<nat>)
    ensures |counts| == |options|
    ensures forall i: nat :: i < |options| ==> counts[i] == Total(ShareOf(t.counts, options, Some(i)))
    ensures b.row == Published(counts) && b.shares == SharesOf(b.row, percent)
    ensures b.unrecognised == Total(ShareOf(t.counts, options, None))
    ensures b.noAnswer == t.noAnswer + b.unrecognised && b.ungraded == t.ungraded
    ensures b.row.responses + b.noAnswer == Total(t.counts) + t.noAnswer
    ensures b.state == if Sum(counts) == 0 && b.unrecognised > 0 then Unreadable else StateOf(Sum(counts))
    ensures b.sentence == SentenceOf(b.state, HeldBack(counts) != {})
  {
    var cells, unrecognised := CountOptions(t.counts, options);
    counts := cells;
    var responses := Sum(cells);
    var state := StateOf(responses);
    if state == NoData && unrecognised > 0 {
      state := Unreadable;
    }
    var shown, shares, held := ShowCells(cells, percent);
    hide Published, Sum, ShareOf, HeldBack, SharesOf;
    b := Block(state, Row(responses, shown), shares, t.noAnswer + unrecognised, unrecognised, t.ungraded, SentenceOf(state, held));
    assert b.row.responses == responses;
  }

  lemma SharesAreMeant(answers: seq<Seen>, options: seq<Choice>)
    ensures forall i: nat :: i < |options| ==>
      Total(ShareOf(AllRecorded(answers).counts, options, Some(i))) == MeantFor(answers, options, i)
  {
    hide *;
    forall i: nat | i < |options| ensures Total(ShareOf(AllRecorded(answers).counts, options, Some(i))) == MeantFor(answers, options, i) {
      ShareIsMeant(answers, options, i);
    }
  }

  /** Every student's answer counted. */
  method TallyOf(answers: seq<Seen>) returns (t: Counts)
    ensures t == AllRecorded(answers)
  {
    var tally := new ResponseTally();
    for i := 0 to |answers|
      invariant tally.Now() == AllRecorded(answers[..i])
    {
      assert answers[..i + 1][..i] == answers[..i];
      tally.Record(answers[i].raw, answers[i].verdict);
    }
    assert answers[..|answers|] == answers;
    return tally.Now();
  }

  /** From the students' answers to the block.  Each option's count is how many answers mean it, and the responses are their sum;
      every other student is in no_answer.  The state says whether anyone answered, whether what was written fits no option, and
      whether there are five responses; the sentence says the same, or that small cells are held back. */
  method BlockOf<P>(answers: seq<Seen>, options: seq<Choice>, percent: (nat, nat) -> P) returns (b: Block<P>, ghost counts: seq<nat>)
    ensures b.row.responses + b.noAnswer == |answers| && b.ungraded == Waiting(answers)
    ensures |counts| == |options| && forall i: nat :: i < |options| ==> counts[i] == MeantFor(answers, options, i)
    ensures b.row == Published(counts) && b.row.responses == Sum(counts) && b.unrecognised == Answered(answers) - Sum(counts)
    ensures |b.shares| == |counts| == |b.row.cells| && forall i :: 0 <= i < |counts| ==>
              b.shares[i] == if b.row.cells[i].Some? then Some(percent(counts[i], Sum(counts))) else None
    ensures b.state == NoData <==> Answered(answers) == 0
    ensures b.state == Unreadable <==> Answered(answers) > 0 && Sum(counts) == 0
    ensures b.state == Suppressed <==> 0 < Sum(counts) < 5
    ensures b.state == Data <==> Sum(counts) >= 5
    ensures b.sentence == match b.state case NoData => NobodyYet case Unreadable => NothingFits case Suppressed => TooFewStudents
                          case Data => if exists i :: 0 <= i < |counts| && counts[i] == 1 then SmallCellsHeld else NoSentence
  {
    var tally := TallyOf(answers);
    AnsweredAre(answers);
    SharesAreMeant(answers, options);
    hide Total, ShareOf, HeldBack, MeantFor, AllRecorded, Answered, Waiting, Sum;
    b, counts := OptionBlock(tally, options, percent);
    SinglesAreSmall(counts);
  }
}
