/** Competition ranking: students with the same score share a rank, and the next score takes its place in the order. */
module Ranking {
  import opened Wrappers

  datatype Attempt = Attempt(student: nat, score: Option<nat>)

  /** A missing score sorts below every score. */
  function Worth(a: Attempt): int {
    if a.score.None? then -1 else a.score.value
  }

  ghost predicate Descending(ordered: seq<Attempt>) {
    forall i, j :: 0 <= i < j < |ordered| ==> Worth(ordered[i]) >= Worth(ordered[j])
  }

  ghost predicate OnePerStudent(attempts: seq<Attempt>) {
    forall i, j :: 0 <= i < j < |attempts| ==> attempts[i].student != attempts[j].student
  }

  /** How many did strictly better. */
  function Better(attempts: seq<Attempt>, worth: int): nat {
    if attempts == [] then 0
    else Better(attempts[..|attempts| - 1], worth) + if Worth(attempts[|attempts| - 1]) > worth then 1 else 0
  }

  /** Did strictly better: has a score, and the other has none or a lower one. */
  predicate Beats(a: Attempt, b: Attempt) {
    a.score.Some? && (b.score.None? || a.score.value > b.score.value)
  }

  function Beaters(attempts: seq<Attempt>, a: Attempt): set<nat> {
    set i: nat | i < |attempts| && Beats(attempts[i], a)
  }

  lemma {:induction false} BetterIsBeaters(attempts: seq<Attempt>, a: Attempt)
    ensures Better(attempts, Worth(a)) == |Beaters(attempts, a)|
  {
    if attempts == [] {
      assert Beaters(attempts, a) == {};
    } else {
      var init, last := attempts[..|attempts| - 1], attempts[|attempts| - 1];
      BetterIsBeaters(init, a);
      assert Beaters(attempts, a) == Beaters(init, a) + (if Beats(last, a) then {|init|} else {}) && |init| !in Beaters(init, a);
    }
  }

  lemma {:induction false} BetterSplits(a: seq<Attempt>, b: seq<Attempt>, worth: int)
    ensures Better(a + b, worth) == Better(a, worth) + Better(b, worth)
  {
    if b == [] {
      assert a + b == a;
    } else {
      BetterSplits(a, b[..|b| - 1], worth);
      assert (a + b)[..|a + b| - 1] == a + b[..|b| - 1];
    }
  }

  lemma {:induction false} BetterIsAll(attempts: seq<Attempt>, worth: int)
    requires forall i :: 0 <= i < |attempts| ==> Worth(attempts[i]) > worth
    ensures Better(attempts, worth) == |attempts|
  {
    if attempts != [] {
      BetterIsAll(attempts[..|attempts| - 1], worth);
    }
  }

  lemma {:induction false} BetterIsNone(attempts: seq<Attempt>, worth: int)
    requires forall i :: 0 <= i < |attempts| ==> Worth(attempts[i]) <= worth
    ensures Better(attempts, worth) == 0
  {
    if attempts != [] {
      BetterIsNone(attempts[..|attempts| - 1], worth);
    }
  }

  /** In a descending order the ones who did better are the ones before the score's first place. */
  lemma BetterInOrder(ordered: seq<Attempt>, first: nat)
    requires Descending(ordered) && first < |ordered|
    requires forall i :: 0 <= i < first ==> Worth(ordered[i]) > Worth(ordered[first])
    ensures Better(ordered, Worth(ordered[first])) == first
  {
    var worth := Worth(ordered[first]);
    BetterIsAll(ordered[..first], worth);
    BetterIsNone(ordered[first..], worth);
    BetterSplits(ordered[..first], ordered[first..], worth);
    assert ordered[..first] + ordered[first..] == ordered;
  }

  /** How many did better does not depend on the order they are listed in. */
  lemma {:induction false} BetterIgnoresOrder(a: seq<Attempt>, b: seq<Attempt>, worth: int)
    requires multiset(a) == multiset(b)
    ensures Better(a, worth) == Better(b, worth)
    decreases |a|
  {
    if a == [] {
      assert |multiset(b)| == 0;
    } else {
      hide Better;
      var k := TakenOut(a, b);
      var init, last := a[..|a| - 1], a[|a| - 1];
      assert a == init + [last];
      BetterIgnoresOrder(init, b[..k] + b[k + 1..], worth);
      BetterMoved(b[..k], last, b[k + 1..], worth);
      BetterSplits(init, [last], worth);
    }
  }

  lemma BetterMoved(before: seq<Attempt>, one: Attempt, behind: seq<Attempt>, worth: int)
    ensures Better(before + [one] + behind, worth) == Better(before + behind, worth) + Better([one], worth)
  {
    BetterSplits(before, behind, worth);
    BetterSplits(before + [one], behind, worth);
    BetterSplits(before, [one], worth);
  }

  /** ordered is the attempts as a sort by score, highest first, leaves them; equal scores may stand in any order.  Each
      student's rank is one more than the number who did strictly better, so it does not depend on that order. */
  method RankByStudent(attempts: seq<Attempt>, ordered: seq<Attempt>) returns (ranks: map<nat, nat>, size: nat)
    requires OnePerStudent(ordered) && Descending(ordered) && multiset(ordered) == multiset(attempts)
    ensures size == |attempts|
    ensures forall a :: a in attempts ==> a.student in ranks && ranks[a.student] == 1 + |Beaters(attempts, a)|
    ensures forall s :: s in ranks ==> exists a :: a in attempts && a.student == s
  {
    ranks := map[];
    hide Better, AreRanked;
    NobodyRanked(ordered);
    var previous: Option<int> := None;
    var currentRank := 0;
    for n := 0 to |ordered|
      invariant previous.None? <==> n == 0
      invariant n > 0 ==> previous == Some(Worth(ordered[n - 1])) && currentRank == 1 + Better(ordered, Worth(ordered[n - 1]))
      invariant AreRanked(ordered, n, ranks)
    {
      var worth := Worth(ordered[n]);
      if previous != Some(worth) {
        BetterInOrder(ordered, n);
        currentRank := n + 1;
        previous := Some(worth);
      }
      RankedOneMore(ordered, n, ranks);
      ranks := ranks[ordered[n].student := currentRank];
    }
    size := |ordered|;
    assert |multiset(ordered)| == |multiset(attempts)|;
    RanksInAnyOrder(ordered, attempts, ranks);
  }

  /** The first n of the order have their ranks, and nobody else has one. */
  ghost predicate AreRanked(ordered: seq<Attempt>, n: nat, ranks: map<nat, nat>)
    requires n <= |ordered|
  {
    (forall i :: 0 <= i < n ==>
      ordered[i].student in ranks && ranks[ordered[i].student] == 1 + Better(ordered, Worth(ordered[i]))) &&
    forall s :: s in ranks ==> exists i :: 0 <= i < n && ordered[i].student == s
  }

  lemma NobodyRanked(ordered: seq<Attempt>)
    ensures AreRanked(ordered, 0, map[])
  {
  }

  lemma RankedOneMore(ordered: seq<Attempt>, n: nat, ranks: map<nat, nat>)
    requires n < |ordered| && AreRanked(ordered, n, ranks) && OnePerStudent(ordered)
    ensures AreRanked(ordered, n + 1, ranks[ordered[n].student := 1 + Better(ordered, Worth(ordered[n]))])
  {
    hide Better;
  }

  lemma RanksInAnyOrder(ordered: seq<Attempt>, attempts: seq<Attempt>, ranks: map<nat, nat>)
    requires AreRanked(ordered, |ordered|, ranks) && multiset(ordered) == multiset(attempts)
    ensures forall a :: a in attempts ==> a.student in ranks && ranks[a.student] == 1 + |Beaters(attempts, a)|
    ensures forall s :: s in ranks ==> exists a :: a in attempts && a.student == s
  {
    hide Better;
    forall a | a in attempts
      ensures a.student in ranks && ranks[a.student] == 1 + |Beaters(attempts, a)|
    {
      assert a in multiset(ordered);
      BetterIgnoresOrder(ordered, attempts, Worth(a));
      BetterIsBeaters(attempts, a);
    }
    forall s | s in ranks ensures exists a :: a in attempts && a.student == s {
      var i :| 0 <= i < |ordered| && ordered[i].student == s;
      assert ordered[i] in multiset(attempts);
    }
  }

  /** The order the sort leaves equal scores in does not show. */
  lemma TiesShareARank(attempts: seq<Attempt>, a: Attempt, b: Attempt)
    requires a in attempts && b in attempts
    ensures |Beaters(attempts, a)| == |Beaters(attempts, b)| <==> a.score == b.score
  {
    BetterIsBeaters(attempts, a);
    BetterIsBeaters(attempts, b);
    hide Beaters;
    if Worth(a) < Worth(b) {
      BetterIsStrict(attempts, Worth(a), Worth(b), b);
    } else if Worth(b) < Worth(a) {
      BetterIsStrict(attempts, Worth(b), Worth(a), a);
    }
  }

  lemma {:induction false} BetterIsStrict(attempts: seq<Attempt>, low: int, high: int, one: Attempt)
    requires low < high
    ensures Better(attempts, high) <= Better(attempts, low)
    ensures one in attempts && Worth(one) == high ==> Better(attempts, high) < Better(attempts, low)
  {
    if attempts != [] {
      BetterIsStrict(attempts[..|attempts| - 1], low, high, one);
      assert attempts == attempts[..|attempts| - 1] + [attempts[|attempts| - 1]];
    }
  }
}
