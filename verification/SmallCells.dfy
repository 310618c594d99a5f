/** Which counts of a tally are held back, and what a reader of the published row can still work out. */
module SmallCells {
  import opened Wrappers

  const MIN_RESPONSES := 5
  const MIN_CELL := 2

  // ---------- the rule ----------

  predicate IsSmall(counts: seq<nat>, i: nat)
    requires i < |counts|
  {
    0 < counts[i] < MIN_CELL
  }

  function Small(counts: seq<nat>): set<nat> {
    set i: nat | i < |counts| && IsSmall(counts, i)
  }

  /** Smallest count first, then lowest index. */
  predicate Before(counts: seq<nat>, i: nat, j: nat)
    requires i < |counts| && j < |counts|
  {
    counts[i] < counts[j] || (counts[i] == counts[j] && i < j)
  }

  /** The first of the first n cells, smallest first, that is not small. */
  function FirstOther(counts: seq<nat>, n: nat): (r: Option<nat>)
    requires n <= |counts|
    ensures r.None? <==> forall i :: 0 <= i < n ==> IsSmall(counts, i)
    ensures r.Some? ==> r.value < n && !IsSmall(counts, r.value)
    ensures r.Some? ==> forall i :: 0 <= i < n && !IsSmall(counts, i) && i != r.value ==> Before(counts, r.value, i)
  {
    if n == 0 then None
    else
      var before := FirstOther(counts, n - 1);
      if IsSmall(counts, n - 1) then before
      else if before.None? || Before(counts, n - 1, before.value) then Some(n - 1) else before
  }

  /** The cell that goes with the small ones. */
  function Companion(counts: seq<nat>): Option<nat> {
    FirstOther(counts, |counts|)
  }

  function HeldBack(counts: seq<nat>): set<nat> {
    if Small(counts) == {} then {}
    else if Companion(counts).None? then Small(counts)
    else Small(counts) + {Companion(counts).value}
  }

  /** The rule as the program finds it: the small cells, then the next smallest. */
  method HeldBackCells(counts: seq<nat>) returns (held: set<nat>)
    ensures held == HeldBack(counts)
  {
    held := {};
    for i := 0 to |counts|
      invariant held == set j: nat | j < i && IsSmall(counts, j)
    {
      if 0 < counts[i] < MIN_CELL {
        held := held + {i};
      }
    }
    assert held == Small(counts);
    if held == {} {
      return;
    }
    var next: Option<nat> := None;
    for i := 0 to |counts|
      invariant next == FirstOther(counts, i)
    {
      if i !in held && (next.None? || Before(counts, i, next.value)) {
        next := Some(i);
      }
    }
    if next.Some? {
      held := held + {next.value};
    }
  }

  lemma SinglesAreSmall(counts: seq<nat>)
    ensures Small(counts) == {} <==> forall i: nat :: i < |counts| ==> counts[i] != 1
    ensures HeldBack(counts) == {} <==> Small(counts) == {}
    ensures forall i: nat :: i in Small(counts) <==> i < |counts| && counts[i] == 1
  {
    forall i: nat ensures i in Small(counts) <==> i < |counts| && counts[i] == 1 {
      if i < |counts| && counts[i] == 1 { assert IsSmall(counts, i); }
    }
    assert Small(counts) <= HeldBack(counts);
  }

  /** The cell taken along with the small ones is a smallest of the others, and the lowest of those. */
  predicate IsCompanion(counts: seq<nat>, c: nat) {
    c < |counts| && counts[c] != 1 &&
    forall i: nat :: i < |counts| && counts[i] != 1 ==> counts[c] < counts[i] || (counts[c] == counts[i] && c <= i)
  }

  lemma CompanionIsOne(counts: seq<nat>)
    ensures Companion(counts).Some? ==> IsCompanion(counts, Companion(counts).value)
    ensures Companion(counts).None? <==> forall i: nat :: i < |counts| ==> counts[i] == 1
  {
    var c := Companion(counts);
    if c.Some? {
      assert !IsSmall(counts, c.value);
      forall i: nat | i < |counts| && counts[i] != 1 && i != c.value ensures Before(counts, c.value, i) {
        assert !IsSmall(counts, i);
      }
      hide FirstOther;
    } else {
      forall i: nat | i < |counts| ensures counts[i] == 1 {
        assert IsSmall(counts, i);
      }
    }
  }

  /** Nothing is held back from a row without singles.  Otherwise every single is, and with them the companion if any cell
      can be one; so in a row of two or more a hidden cell has a hidden neighbour. */
  lemma HeldBackIs(counts: seq<nat>)
    ensures HeldBack(counts) == {} <==> forall i: nat :: i < |counts| ==> counts[i] != 1
    ensures Small(counts) <= HeldBack(counts)
    ensures HeldBack(counts) != {} ==>
      (HeldBack(counts) == Small(counts) && forall i: nat :: i < |counts| ==> counts[i] == 1) ||
      (exists c :: IsCompanion(counts, c) && HeldBack(counts) == Small(counts) + {c})
    ensures HeldBack(counts) != {} && |counts| >= 2 ==> exists i, j :: i in HeldBack(counts) && j in HeldBack(counts) && i != j
  {
    SinglesAreSmall(counts);
    CompanionIsOne(counts);
    assert HeldBack(counts) == if Small(counts) == {} then {} else if Companion(counts).None? then Small(counts)
                               else Small(counts) + {Companion(counts).value};
    hide HeldBack, Small, Companion;
    if HeldBack(counts) != {} {
      if Companion(counts).Some? {
        var i :| i in Small(counts);
        var c := Companion(counts).value;
        assert i in HeldBack(counts) && c in HeldBack(counts) && i != c;
      } else if |counts| >= 2 {
        assert 0 in HeldBack(counts) && 1 in HeldBack(counts);
      }
    }
  }

  // ---------- what is published ----------

  /** The row a reader sees: how many answered, and each cell's count or nothing. */
  datatype Row = Row(responses: nat, cells: seq<Option<nat>>)

  function Published(counts: seq<nat>): Row {
    var shown := Sum(counts) >= MIN_RESPONSES;
    Row(Sum(counts), seq(|counts|, i requires 0 <= i < |counts| =>
      if shown && i !in HeldBack(counts) then Some(counts[i]) else None))
  }

  lemma {:induction false} SumUpdated(counts: seq<nat>, i: nat, x: nat)
    requires i < |counts|
    ensures Sum(counts[i := x]) == Sum(counts) - counts[i] + x
  {
    var last := |counts| - 1;
    if i == last {
      assert counts[i := x][..last] == counts[..last];
    } else {
      SumUpdated(counts[..last], i, x);
      assert counts[i := x][..last] == counts[..last][i := x];
    }
  }

  /** Two rows that read the same hold back the same cells and agree on the rest. */
  lemma SameRowSameHeld(counts: seq<nat>, other: seq<nat>)
    requires Sum(counts) >= MIN_RESPONSES && Published(other) == Published(counts)
    ensures |other| == |counts| && Sum(other) == Sum(counts) && HeldBack(other) == HeldBack(counts)
    ensures forall i: nat :: i < |counts| && i !in HeldBack(counts) ==> other[i] == counts[i]
  {
    assert |Published(other).cells| == |other| && |Published(counts).cells| == |counts|;
    forall i: nat
      ensures i < |counts| ==> (i in HeldBack(other) <==> i in HeldBack(counts))
      ensures i < |counts| && i !in HeldBack(counts) ==> other[i] == counts[i]
    {
      if i < |counts| {
        assert Published(other).cells[i] == Published(counts).cells[i];
      }
    }
    assert forall i :: i in HeldBack(counts) ==> i < |counts|;
    assert forall i :: i in HeldBack(other) ==> i < |counts|;
  }

  // ---------- swapping a single with the companion ----------

  /** No visible cell that ties with the companion comes before the single. */
  predicate Swappable(counts: seq<nat>, s: nat) {
    s in Small(counts) && Companion(counts).Some? &&
    forall t: nat :: t < |counts| && t !in HeldBack(counts) && counts[t] == counts[Companion(counts).value] ==> s < t
  }

  function Swapped(counts: seq<nat>, s: nat): seq<nat>
    requires s < |counts| && Companion(counts).Some?
  {
    counts[Companion(counts).value := counts[s]][s := counts[Companion(counts).value]]
  }

  lemma SwappedHolds(counts: seq<nat>, s: nat)
    requires Swappable(counts, s)
    ensures HeldBack(Swapped(counts, s)) == HeldBack(counts)
  {
    var c, other := Companion(counts).value, Swapped(counts, s);
    assert IsSmall(counts, s) && !IsSmall(counts, c) && counts[c] != 1;
    assert forall i: nat :: i < |counts| && i != s && i != c ==> (IsSmall(other, i) <==> IsSmall(counts, i));
    assert IsSmall(other, c) && !IsSmall(other, s);
    forall i: nat | i < |counts| && !IsSmall(other, i) && i != s ensures Before(other, s, i) {
      assert !IsSmall(counts, i) && i != c && Before(counts, c, i);
      assert i !in HeldBack(counts);
    }
    assert Companion(other) == Some(s);
    assert c in Small(other) && s in Small(counts);
    assert Small(other) == Small(counts) - {s} + {c};
  }

  /** A single that no visible tie precedes can be swapped with the companion: different counts, the same row. */
  lemma SwapReadsTheSame(counts: seq<nat>, s: nat)
    requires Sum(counts) >= MIN_RESPONSES && Swappable(counts, s)
    ensures Published(Swapped(counts, s)) == Published(counts)
    ensures Swapped(counts, s) != counts && Swapped(counts, s)[s] != 1
  {
    var c := Companion(counts).value;
    SwappedHolds(counts, s);
    SumUpdated(counts, c, counts[s]);
    SumUpdated(counts[c := counts[s]], s, counts[c]);
    assert IsSmall(counts, s) && !IsSmall(counts, c);
    var mine, swapped := Published(counts), Published(Swapped(counts, s));
    forall i | 0 <= i < |counts| ensures mine.cells[i] == swapped.cells[i] {
      assert s in HeldBack(counts) && c in HeldBack(counts);
    }
    assert mine.cells == swapped.cells;
  }

  /** The only other counts behind a row are those swaps. */
  lemma OnlySwapsReadTheSame(counts: seq<nat>, other: seq<nat>)
    requires Sum(counts) >= MIN_RESPONSES && Published(other) == Published(counts) && other != counts
    ensures Companion(counts).Some? && Companion(other).Some? && Companion(other).value < |counts|
    ensures Swappable(counts, Companion(other).value) && other == Swapped(counts, Companion(other).value)
  {
    SameRowSameHeld(counts, other);
    HeldBackIs(counts);
    HeldBackIs(other);
    var held := HeldBack(counts);
    if held == {} {
      OneCellApart(counts, other, |counts|);
    } else {
      OtherCompanion(counts, other);
    }
  }

  /** Every held-back cell is a single but the companion. */
  lemma HeldAreSingles(counts: seq<nat>)
    ensures forall i: nat :: i in HeldBack(counts) ==> i < |counts| && (counts[i] == 1 || Some(i) == Companion(counts))
    ensures HeldBack(counts) != {} && Companion(counts).Some? ==>
      Companion(counts).value in HeldBack(counts) && counts[Companion(counts).value] != 1
  {
    assert Companion(counts).Some? ==> !IsSmall(counts, Companion(counts).value);
  }

  lemma OtherCompanion(counts: seq<nat>, other: seq<nat>)
    requires |other| == |counts| && Sum(other) == Sum(counts) && HeldBack(other) == HeldBack(counts) != {}
    requires forall i: nat :: i < |counts| && i !in HeldBack(counts) ==> other[i] == counts[i]
    requires other != counts
    ensures Companion(counts).Some? && Companion(other).Some? && Companion(other).value < |counts|
    ensures Swappable(counts, Companion(other).value) && other == Swapped(counts, Companion(other).value)
  {
    HeldAreSingles(counts);
    HeldAreSingles(other);
    var mine, theirs := Companion(counts), Companion(other);
    if mine.Some? && theirs.Some? && mine != theirs {
      TwoCellsApart(counts, other, mine.value, theirs.value);
    } else {
      hide Companion, HeldBack, Swappable, Swapped;
      OneCellApart(counts, other, if mine.Some? then mine.value else if theirs.Some? then theirs.value else 0);
    }
  }

  lemma TwoCellsApart(counts: seq<nat>, other: seq<nat>, c: nat, s: nat)
    requires |other| == |counts| && Sum(other) == Sum(counts) && HeldBack(other) == HeldBack(counts)
    requires forall i: nat :: i < |counts| && i !in HeldBack(counts) ==> other[i] == counts[i]
    requires Companion(counts) == Some(c) && Companion(other) == Some(s) && c != s && c in HeldBack(counts) && s in HeldBack(counts)
    requires forall i: nat :: i in HeldBack(counts) ==> i < |counts| && (counts[i] == 1 || i == c) && (other[i] == 1 || i == s)
    ensures Swappable(counts, s) && other == Swapped(counts, s)
  {
    SinglesAreSmall(counts);
    CompanionIsOne(other);
    assert Swappable(counts, s) <==>
      forall t: nat :: t < |counts| && t !in HeldBack(counts) && counts[t] == counts[c] ==> s < t;
    assert Swapped(counts, s) == counts[c := counts[s]][s := counts[c]];
    hide *;
    assert other == counts[c := 1][s := other[s]];
    SumUpdated(counts, c, 1);
    SumUpdated(counts[c := 1], s, other[s]);
    assert other[s] == counts[c];
    forall t: nat | t < |counts| && t !in HeldBack(counts) && counts[t] == counts[c] ensures s < t {
      TiesComeAfter(other, s, t);
    }
  }

  lemma TiesComeAfter(counts: seq<nat>, c: nat, t: nat)
    requires Companion(counts) == Some(c) && c < |counts| && t < |counts| && t != c && counts[t] == counts[c]
    ensures c < t
  {
    CompanionIsOne(counts);
    hide Companion;
  }

  /** Two rows of counts that could differ in one cell only, with one sum, do not differ. */
  lemma OneCellApart(counts: seq<nat>, other: seq<nat>, i: nat)
    requires |other| == |counts| && Sum(other) == Sum(counts)
    requires forall j: nat :: j < |counts| && j != i ==> other[j] == counts[j]
    ensures other == counts
  {
    if i < |counts| {
      assert other == counts[i := other[i]];
      SumUpdated(counts, i, other[i]);
    }
  }

  // ---------- the theorems ----------

  /** What the rule is for, and exactly when it delivers it: a reader of a published row can tell that a held-back option
      was picked by one student unless no visible cell that ties with the companion comes before it. */
  lemma SingleIsHiddenIff(counts: seq<nat>, s: nat)
    requires Sum(counts) >= MIN_RESPONSES && s in Small(counts)
    ensures (exists other :: Published(other) == Published(counts) && |other| == |counts| && other[s] != 1) <==>
            Swappable(counts, s)
  {
    if Swappable(counts, s) {
      SwapReadsTheSame(counts, s);
      assert |Swapped(counts, s)| == |counts|;
    }
    forall other | Published(other) == Published(counts) && |other| == |counts| && other[s] != 1
      ensures Swappable(counts, s)
    {
      assert IsSmall(counts, s);
      OnlySwapsReadTheSame(counts, other);
    }
  }

  /** When no visible cell ties with the companion, every held-back single is hidden. */
  lemma NoTieHidesEverySingle(counts: seq<nat>, s: nat)
    requires Sum(counts) >= MIN_RESPONSES && s in Small(counts) && Companion(counts).Some?
    requires forall t: nat :: t < |counts| && t !in HeldBack(counts) ==> counts[t] != counts[Companion(counts).value]
    ensures exists other :: Published(other) == Published(counts) && |other| == |counts| && other[s] != 1
  {
    SingleIsHiddenIff(counts, s);
  }

  /** Two empty options, one picked once, one picked nine times: the second empty cell shows, so the reader knows the
      first is the companion and the third a single. */
  lemma TieDisclosesASingle(counts: seq<nat>, other: seq<nat>)
    requires counts == [0, 0, 1, 9] && Published(other) == Published(counts)
    ensures HeldBack(counts) == {0, 2} && other == counts
  {
    assert IsSmall(counts, 2) && !IsSmall(counts, 0) && !IsSmall(counts, 1) && !IsSmall(counts, 3);
    assert Small(counts) == {2};
    var c := Companion(counts);
    assert c.Some? && (c == Some(0) || Before(counts, c.value, 0));
    assert Sum(counts) == 10 by {
      assert counts[..3] == [0, 0, 1] && counts[..3][..2] == [0, 0] && counts[..3][..2][..1] == [0];
      assert Sum([0]) == 0 && Sum([0, 0]) == 0 by { assert [0][..0] == [] && [0, 0][..1] == [0]; }
      assert Sum([0, 0, 1]) == 1 by { assert [0, 0, 1][..2] == [0, 0]; }
    }
    if other != counts {
      OnlySwapsReadTheSame(counts, other);
    }
  }

  /** A row in which every option was picked once has no companion to hide behind: its counts can be read off. */
  lemma AllSinglesAreDisclosed(counts: seq<nat>, other: seq<nat>)
    requires Sum(counts) >= MIN_RESPONSES && (forall i: nat :: i < |counts| ==> counts[i] == 1)
    requires Published(other) == Published(counts)
    ensures other == counts
  {
    if other != counts {
      OnlySwapsReadTheSame(counts, other);
    }
  }
}
