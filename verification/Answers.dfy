/** The answer row of one question under saves that arrive late, twice or out of order. */
module Answers {
  import opened Wrappers

  /** A save carries the client's own counter; 0 when the client sends none. */
  datatype Save<A> = Save(counter: nat, answer: A)

  datatype Row<A> = Row(answer: A, counter: nat)

  /** Whether the write is refused: it carries a counter the row has already reached. */
  predicate Stale<A>(row: Option<Row<A>>, save: Save<A>) {
    row.Some? && save.counter > 0 && row.value.counter >= save.counter
  }

  function Stored<A>(row: Option<Row<A>>, save: Save<A>): Option<Row<A>> {
    if row.None? then Some(Row(save.answer, save.counter))
    else if Stale(row, save) then row
    else Some(Row(save.answer, Max(row.value.counter, save.counter)))
  }

  function AllStored<A>(saves: seq<Save<A>>): Option<Row<A>> {
    if saves == [] then None else Stored(AllStored(saves[..|saves| - 1]), saves[|saves| - 1])
  }

  /** Every save carries a counter, and equal counters carry the same answer: retries repeat what they said. */
  ghost predicate Counted<A(!new)>(saves: seq<Save<A>>) {
    forall s, t :: s in saves && t in saves ==> s.counter > 0 && (s.counter == t.counter ==> s.answer == t.answer)
  }

  /** In whatever order they arrive, the row ends with the answer of the highest counter, and with that counter. */
  lemma {:induction false} HighestCounterWins<A(!new)>(saves: seq<Save<A>>)
    requires Counted(saves) && saves != []
    ensures AllStored(saves).Some?
    ensures var row := AllStored(saves).value;
            Save(row.counter, row.answer) in saves && forall s :: s in saves ==> s.counter <= row.counter
  {
    var init, last := saves[..|saves| - 1], saves[|saves| - 1];
    assert saves == init + [last];
    if init != [] {
      assert forall s :: s in init ==> s in saves;
      HighestCounterWins(init);
      var row := AllStored(init).value;
      assert Save(row.counter, row.answer) in saves && last in saves;
    }
  }

  /** Reordering and retrying cannot change the outcome: the same saves, in any order and number, leave the same row. */
  lemma OrderDoesNotMatter<A(!new)>(saves: seq<Save<A>>, others: seq<Save<A>>)
    requires Counted(saves) && forall s :: s in saves <==> s in others
    ensures AllStored(saves) == AllStored(others)
  {
    if saves != [] {
      HighestCounterWins(saves);
    }
    if others != [] {
      HighestCounterWins(others);
    }
  }

  lemma {:induction false} CounterIsTheHighest<A(!new)>(saves: seq<Save<A>>)
    ensures AllStored(saves).Some? <==> saves != []
    ensures saves != [] ==> (exists s :: s in saves && s.counter == AllStored(saves).value.counter) &&
                            forall s :: s in saves ==> s.counter <= AllStored(saves).value.counter
  {
    if saves != [] {
      var init, last := saves[..|saves| - 1], saves[|saves| - 1];
      assert saves == init + [last] && last in saves && forall s :: s in init ==> s in saves;
      CounterIsTheHighest(init);
    }
  }

  /** A save is refused exactly when it carries a counter and some save that came before carried that one or a higher: whatever
      was refused on the way, and whatever came without a counter. */
  lemma RefusedIff<A(!new)>(saves: seq<Save<A>>, save: Save<A>)
    ensures Stale(AllStored(saves), save) <==> save.counter > 0 && exists s :: s in saves && s.counter >= save.counter
    ensures !Stale(AllStored(saves), save) ==> AllStored(saves + [save]).Some? && AllStored(saves + [save]).value.answer == save.answer
    ensures Stale(AllStored(saves), save) ==> AllStored(saves + [save]) == AllStored(saves)
  {
    CounterIsTheHighest(saves);
    assert (saves + [save])[..|saves|] == saves;
  }

  /** Without a counter the last save to arrive wins, so there the order does matter. */
  lemma UncountedLastWins<A(!new)>(saves: seq<Save<A>>, last: Save<A>)
    requires last.counter == 0
    ensures AllStored(saves + [last]).Some? && AllStored(saves + [last]).value.answer == last.answer
  {
    assert (saves + [last])[..|saves|] == saves;
  }

  /** The row itself, saved in place. */
  class AnswerRow<A> {
    var row: Option<Row<A>>

    constructor ()
      ensures row == None
    {
      row := None;
    }

    method SaveAnswer(save: Save<A>) returns (stale: bool)
      modifies this
      ensures row == Stored(old(row), save)
      ensures stale <==> Stale(old(row), save)
    {
      if row.None? {
        row := Some(Row(save.answer, save.counter));
        return false;
      }
      if save.counter > 0 && row.value.counter >= save.counter {
        return true;
      }
      row := Some(Row(save.answer, Max(row.value.counter, save.counter)));
      return false;
    }
  }
}
