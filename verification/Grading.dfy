/** Grading an attempt: which questions count, what they add up to, and doing it once. */
module Grading {
  import opened Wrappers

  /** key stands for everything the verdict depends on in the question as it is now. */
  datatype Question<K> = Question(id: nat, points: nat, key: K)

  datatype Answer<A> = Answer(question: nat, answer: A, seconds: nat)

  datatype Result = Result(score: nat, max: nat, correct: nat, total: nat)
  {
    function Percent(): real {
      if max == 0 then 0.0 else score as real / max as real * 100.0
    }
  }

  function QuestionOf<K>(live: seq<Question<K>>, id: nat): Option<Question<K>> {
    if live == [] then None
    else if live[|live| - 1].id == id then Some(live[|live| - 1])
    else QuestionOf(live[..|live| - 1], id)
  }

  /** The questions an attempt is graded on: those it was frozen to that are still live, in its own order; all the live
      ones when it was never frozen. */
  function Covered<K>(live: seq<Question<K>>, order: seq<nat>): seq<Question<K>> {
    if order == [] then live else Kept(live, order)
  }

  function Kept<K>(live: seq<Question<K>>, order: seq<nat>): seq<Question<K>> {
    if order == [] then []
    else
      var found := QuestionOf(live, order[|order| - 1]);
      Kept(live, order[..|order| - 1]) + if found.Some? then [found.value] else []
  }

  function AnswerTo<A>(answers: map<nat, Answer<A>>, id: nat): Option<Answer<A>> {
    if id in answers then Some(answers[id]) else None
  }

  predicate Right<K, A>(q: Question<K>, answers: map<nat, Answer<A>>, ok: (Question<K>, A) -> bool) {
    var a := AnswerTo(answers, q.id);
    a.Some? && ok(q, a.value.answer)
  }

  function Earned<K, A>(q: Question<K>, answers: map<nat, Answer<A>>, ok: (Question<K>, A) -> bool): nat {
    if Right(q, answers, ok) then q.points else 0
  }

  function Spent<K, A>(q: Question<K>, answers: map<nat, Answer<A>>): nat {
    var a := AnswerTo(answers, q.id);
    if a.Some? then a.value.seconds else 0
  }

  /** Every question's points once, the earned ones in the score. */
  function Scored<K, A>(questions: seq<Question<K>>, answers: map<nat, Answer<A>>, ok: (Question<K>, A) -> bool): Result {
    if questions == [] then Result(0, 0, 0, 0)
    else
      var q := questions[|questions| - 1];
      var r := Scored(questions[..|questions| - 1], answers, ok);
      Result(r.score + Earned(q, answers, ok), r.max + q.points,
             r.correct + (if Right(q, answers, ok) then 1 else 0), r.total + 1)
  }

  function TimeSpent<K, A>(questions: seq<Question<K>>, answers: map<nat, Answer<A>>): nat {
    if questions == [] then 0
    else TimeSpent(questions[..|questions| - 1], answers) + Spent(questions[|questions| - 1], answers)
  }

  /** The verdict written on an answer's row: right or wrong, and the points it earned. */
  datatype Verdict = Verdict(right: bool, points: nat)

  /** Each answered question's row marked, the others left as they were. */
  function Marked<K, A>(
    questions: seq<Question<K>>, answers: map<nat, Answer<A>>, ok: (Question<K>, A) -> bool, verdicts: map<nat, Verdict>)
    : map<nat, Verdict>
  {
    if questions == [] then verdicts
    else
      var q := questions[|questions| - 1];
      var before := Marked(questions[..|questions| - 1], answers, ok, verdicts);
      if AnswerTo(answers, q.id).None? then before
      else before[q.id := Verdict(Right(q, answers, ok), Earned(q, answers, ok))]
  }

  /** What each question in turn adds. */
  lemma OneMoreGraded<K, A>(
    questions: seq<Question<K>>, i: nat, answers: map<nat, Answer<A>>, ok: (Question<K>, A) -> bool, verdicts: map<nat, Verdict>)
    requires i < |questions|
    ensures var q, r := questions[i], Scored(questions[..i], answers, ok);
            Scored(questions[..i + 1], answers, ok) ==
              Result(r.score + Earned(q, answers, ok), r.max + q.points, r.correct + (if Right(q, answers, ok) then 1 else 0), r.total + 1) &&
            TimeSpent(questions[..i + 1], answers) == TimeSpent(questions[..i], answers) + Spent(q, answers) &&
            Marked(questions[..i + 1], answers, ok, verdicts) ==
              var before := Marked(questions[..i], answers, ok, verdicts);
              if AnswerTo(answers, q.id).None? then before
              else before[q.id := Verdict(Right(q, answers, ok), Earned(q, answers, ok))]
  {
    assert questions[..i + 1][..i] == questions[..i];
  }

  // ---------- which questions count ----------

  ghost predicate OneId<K(!new)>(live: seq<Question<K>>) {
    forall i, j :: 0 <= i < j < |live| ==> live[i].id != live[j].id
  }

  predicate IsLive<K>(live: seq<Question<K>>, id: nat) {
    exists i :: 0 <= i < |live| && live[i].id == id
  }

  lemma {:induction false} QuestionOfIs<K(!new)>(live: seq<Question<K>>, id: nat)
    requires OneId(live)
    ensures QuestionOf(live, id).Some? <==> IsLive(live, id)
    ensures QuestionOf(live, id).Some? ==> QuestionOf(live, id).value in live && QuestionOf(live, id).value.id == id
    ensures forall q :: q in live && q.id == id ==> QuestionOf(live, id) == Some(q)
  {
    if live != [] {
      var init, last := live[..|live| - 1], live[|live| - 1];
      assert live == init + [last] && OneId(init);
      QuestionOfIs(init, id);
      if last.id == id {
        assert IsLive(live, id) by { assert live[|init|].id == id; }
        assert forall q :: q in init ==> q.id != id;
      } else {
        assert IsLive(live, id) <==> IsLive(init, id) by {
          if i :| 0 <= i < |init| && init[i].id == id { assert live[i].id == id; }
          if i :| 0 <= i < |live| && live[i].id == id { assert init[i].id == id; }
        }
      }
    }
  }

  /** An attempt frozen to some questions is graded on exactly those of them that are still live, as they are now, in its own
      order: at says at which place of the order each one stands. */
  lemma {:induction false} CoveredAre<K(!new)>(live: seq<Question<K>>, order: seq<nat>) returns (at: seq<nat>)
    requires order != [] && OneId(live)
    ensures forall q :: q in Covered(live, order) <==> q in live && q.id in order
    ensures LivePlaces(live, order, at) && |at| == |Covered(live, order)|
    ensures forall k :: 0 <= k < |at| ==> at[k] < |order| && order[at[k]] == Covered(live, order)[k].id
  {
    at := KeptIs(live, order);
    hide Kept, IsLive, LivePlaces;
    forall q ensures q in Kept(live, order) <==> q in live && q.id in order {
      KeptHas(live, order, q);
    }
  }

  lemma {:induction false} KeptHas<K(!new)>(live: seq<Question<K>>, order: seq<nat>, q: Question<K>)
    requires OneId(live)
    ensures q in Kept(live, order) <==> q in live && q.id in order
  {
    if order != [] {
      var init, last := order[..|order| - 1], order[|order| - 1];
      assert order == init + [last];
      KeptHas(live, init, q);
      QuestionOfIs(live, last);
      assert last in order;
      hide QuestionOf, IsLive;
    }
  }

  /** The places of the order whose question is live, rising. */
  ghost predicate LivePlaces<K(!new)>(live: seq<Question<K>>, order: seq<nat>, at: seq<nat>) {
    (forall j, k :: 0 <= j < k < |at| ==> at[j] < at[k]) &&
    forall i: nat :: i in at <==> i < |order| && IsLive(live, order[i])
  }

  lemma OneMorePlace<K(!new)>(live: seq<Question<K>>, init: seq<nat>, last: nat, at: seq<nat>)
    requires LivePlaces(live, init, at)
    ensures LivePlaces(live, init + [last], if IsLive(live, last) then at + [|init|] else at)
  {
    var order, more := init + [last], if IsLive(live, last) then at + [|init|] else at;
    hide IsLive;
    forall k | 0 <= k < |at| ensures at[k] < |init| {
      assert at[k] in at;
    }
    forall i: nat ensures i in more <==> i < |order| && IsLive(live, order[i]) {
      assert i in more <==> i in at || (i == |init| && IsLive(live, last));
      assert i < |init| ==> order[i] == init[i];
    }
  }

  lemma KeptOneMore<K(!new)>(live: seq<Question<K>>, init: seq<nat>, last: nat)
    requires OneId(live)
    ensures var found := QuestionOf(live, last);
            (found.Some? <==> IsLive(live, last)) && (found.Some? ==> found.value.id == last) &&
            Kept(live, init + [last]) == Kept(live, init) + if found.Some? then [found.value] else []
  {
    QuestionOfIs(live, last);
    assert (init + [last])[..|init|] == init;
    hide QuestionOf, IsLive;
  }

  lemma {:induction false} KeptIs<K(!new)>(live: seq<Question<K>>, order: seq<nat>) returns (at: seq<nat>)
    requires OneId(live)
    ensures LivePlaces(live, order, at) && |at| == |Kept(live, order)|
    ensures forall k :: 0 <= k < |at| ==> at[k] < |order| && order[at[k]] == Kept(live, order)[k].id
  {
    at := [];
    if order != [] {
      var init, last := order[..|order| - 1], order[|order| - 1];
      assert order == init + [last];
      hide *;
      var before := KeptIs(live, init);
      KeptOneMore(live, init, last);
      OneMorePlace(live, init, last, before);
      at := if IsLive(live, last) then before + [|init|] else before;
      forall k | 0 <= k < |at| ensures at[k] < |order| && order[at[k]] == Kept(live, order)[k].id {
        if k < |before| {
          assert at[k] == before[k] && order[before[k]] == init[before[k]] && Kept(live, order)[k] == Kept(live, init)[k];
        }
      }
    }
  }

  // ---------- what they add up to ----------

  /** Each graded question that was answered gets its verdict, with its points when right. */
  lemma {:induction false} MarkedAt<K(!new), A>(
    questions: seq<Question<K>>, answers: map<nat, Answer<A>>, ok: (Question<K>, A) -> bool, verdicts: map<nat, Verdict>, q: Question<K>)
    requires q in questions && q.id in answers && forall x :: x in questions && x.id == q.id ==> x == q
    ensures q.id in Marked(questions, answers, ok, verdicts)
    ensures var right := ok(q, answers[q.id].answer);
            Marked(questions, answers, ok, verdicts)[q.id] == Verdict(right, if right then q.points else 0)
  {
    var init, last := questions[..|questions| - 1], questions[|questions| - 1];
    assert questions == init + [last];
    if last.id != q.id {
      MarkedAt(init, answers, ok, verdicts, q);
    }
  }

  /** And every other row stands. */
  lemma {:induction false} NotMarked<K, A>(
    questions: seq<Question<K>>, answers: map<nat, Answer<A>>, ok: (Question<K>, A) -> bool, verdicts: map<nat, Verdict>, id: nat)
    requires id !in answers || forall i :: 0 <= i < |questions| ==> questions[i].id != id
    ensures id in Marked(questions, answers, ok, verdicts) <==> id in verdicts
    ensures id in verdicts ==> Marked(questions, answers, ok, verdicts)[id] == verdicts[id]
  {
    if questions != [] {
      NotMarked(questions[..|questions| - 1], answers, ok, verdicts, id);
    }
  }

  function PointsOf<K>(questions: seq<Question<K>>): seq<nat> {
    seq(|questions|, i requires 0 <= i < |questions| => questions[i].points)
  }

  /** What each question earned: its points, if it was answered right. */
  function EarnedOf<K, A>(questions: seq<Question<K>>, answers: map<nat, Answer<A>>, ok: (Question<K>, A) -> bool): seq<nat> {
    seq(|questions|, i requires 0 <= i < |questions| => PointsIfRight(questions[i], answers, ok))
  }

  function PointsIfRight<K, A>(q: Question<K>, answers: map<nat, Answer<A>>, ok: (Question<K>, A) -> bool): nat {
    if q.id in answers && ok(q, answers[q.id].answer) then q.points else 0
  }

  /** Whether each question was answered right, as one or nothing. */
  function RightsOf<K, A>(questions: seq<Question<K>>, answers: map<nat, Answer<A>>, ok: (Question<K>, A) -> bool): seq<nat> {
    seq(|questions|, i requires 0 <= i < |questions| =>
      if questions[i].id in answers && ok(questions[i], answers[questions[i].id].answer) then 1 else 0)
  }

  /** The seconds spent on each question's answer. */
  function SecondsOf<K, A>(questions: seq<Question<K>>, answers: map<nat, Answer<A>>): seq<nat> {
    seq(|questions|, i requires 0 <= i < |questions| => if questions[i].id in answers then answers[questions[i].id].seconds else 0)
  }

  /** The maximum is the sum of the questions' points, the score of those earned, the ones answered right and every question
      are counted, and the time is the sum of the answers'. */
  lemma {:induction false} ResultSums<K, A>(
    questions: seq<Question<K>>, answers: map<nat, Answer<A>>, ok: (Question<K>, A) -> bool)
    ensures var r := Scored(questions, answers, ok);
            r.max == Sum(PointsOf(questions)) && r.score == Sum(EarnedOf(questions, answers, ok)) &&
            r.correct == Sum(RightsOf(questions, answers, ok)) && r.total == |questions|
    ensures TimeSpent(questions, answers) == Sum(SecondsOf(questions, answers))
  {
    if questions != [] {
      var init := questions[..|questions| - 1];
      ResultSums(init, answers, ok);
      assert PointsOf(questions)[..|init|] == PointsOf(init);
      assert EarnedOf(questions, answers, ok)[..|init|] == EarnedOf(init, answers, ok);
      assert RightsOf(questions, answers, ok)[..|init|] == RightsOf(init, answers, ok);
      assert SecondsOf(questions, answers)[..|init|] == SecondsOf(init, answers);
    }
  }

  /** The percentage is the points earned out of the points there were. */
  lemma PercentIs(r: Result)
    ensures if r.max == 0 then r.Percent() == 0.0 else r.Percent() * r.max as real == 100.0 * r.score as real
  {
    if r.max != 0 {
      var ratio := r.score as real / r.max as real;
      assert ratio * r.max as real == r.score as real;
    }
  }

  // ---------- what a result is worth ----------

  /** The score never passes the maximum, and reaches it exactly when every question with points was answered right. */
  lemma {:induction false} ScoreWithinMax<K, A>(
    questions: seq<Question<K>>, answers: map<nat, Answer<A>>, ok: (Question<K>, A) -> bool)
    ensures var r := Scored(questions, answers, ok);
            r.score <= r.max && r.correct <= r.total == |questions| && 0.0 <= r.Percent() <= 100.0
    ensures var r := Scored(questions, answers, ok);
            r.score == r.max <==> forall i :: 0 <= i < |questions| && questions[i].points > 0 ==> Right(questions[i], answers, ok)
  {
    if questions != [] {
      var init, last := questions[..|questions| - 1], questions[|questions| - 1];
      ScoreWithinMax(init, answers, ok);
      assert questions == init + [last];
      assert (forall i :: 0 <= i < |questions| && questions[i].points > 0 ==> Right(questions[i], answers, ok)) <==>
        (last.points > 0 ==> Right(last, answers, ok)) &&
        (forall i :: 0 <= i < |init| && init[i].points > 0 ==> Right(init[i], answers, ok)) by {
        assert forall i :: 0 <= i < |init| ==> init[i] == questions[i];
      }
    }
    var r := Scored(questions, answers, ok);
    if r.max > 0 {
      RatioAtMostOne(r.score as real, r.max as real);
    }
  }

  lemma RatioAtMostOne(part: real, whole: real)
    requires 0.0 <= part <= whole && 0.0 < whole
    ensures 0.0 <= part / whole <= 1.0
  {
    var ratio := part / whole;
    assert ratio * whole == part;
  }

  /** A question added after the attempt began is in nobody's frozen list, so it is not graded. */
  lemma {:induction false} AddedQuestionIsNotGraded<K>(live: seq<Question<K>>, added: Question<K>, order: seq<nat>)
    requires order != [] && added.id !in order
    ensures Covered(live + [added], order) == Covered(live, order)
  {
    KeptWithout(live, added, order);
  }

  lemma {:induction false} KeptWithout<K>(live: seq<Question<K>>, added: Question<K>, order: seq<nat>)
    requires added.id !in order
    ensures Kept(live + [added], order) == Kept(live, order)
  {
    if order != [] {
      KeptWithout(live, added, order[..|order| - 1]);
      assert (live + [added])[..|live|] == live;
      assert order[|order| - 1] in order;
    }
  }
}
