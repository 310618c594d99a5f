/** Which class of ours each seat is in, kept from the pairing of groups with classes. */
module ClassLinks {
  import opened Wrappers

  /** A seat: whose it is, the lc-up group it comes from (none for one the school made itself), and its class. */
  datatype Link = Link(account: nat, group: Option<nat>, classroom: Option<nat>)

  function WantedFor(l: Link, paired: map<nat, nat>): Option<nat> {
    if l.group.Some? && l.group.value in paired then Some(paired[l.group.value]) else None
  }

  predicate Stale(l: Link, paired: map<nat, nat>) {
    l.group.Some? && l.classroom.Some? && l.classroom != WantedFor(l, paired)
  }

  function Cleared(links: seq<Link>, paired: map<nat, nat>): (r: seq<Link>)
    ensures |r| == |links|
    ensures forall i :: 0 <= i < |r| ==> r[i] == if Stale(links[i], paired) then links[i].(classroom := None) else links[i]
  {
    seq(|links|, i requires 0 <= i < |links| =>
      if Stale(links[i], paired) then links[i].(classroom := None) else links[i])
  }

  predicate Taken(links: seq<Link>, account: nat, classroom: nat) {
    exists i :: 0 <= i < |links| && links[i].account == account && links[i].classroom == Some(classroom)
  }

  /** The table's rule: a person has one seat in a class. */
  ghost predicate OneSeatPerClass(links: seq<Link>) {
    forall i, j :: 0 <= i < j < |links| && links[i].classroom.Some? && links[i].account == links[j].account ==>
      links[i].classroom != links[j].classroom
  }

  /** One seat's update, refused by the table when the person already has a seat in the class. */
  function LinkedOne(links: seq<Link>, paired: map<nat, nat>, i: nat): seq<Link>
    requires i < |links|
  {
    var wanted := WantedFor(links[i], paired);
    if wanted.None? || links[i].classroom == wanted || Taken(links, links[i].account, wanted.value) then links
    else links[i := links[i].(classroom := wanted)]
  }

  function LinkedFrom(links: seq<Link>, paired: map<nat, nat>, i: nat): seq<Link>
    decreases |links| - i
  {
    if i >= |links| then links else LinkedFrom(LinkedOne(links, paired, i), paired, i + 1)
  }

  function AllLinked(links: seq<Link>, paired: map<nat, nat>): seq<Link> {
    LinkedFrom(Cleared(links, paired), paired, 0)
  }

  /** The seat's group has a class and the seat does not have that one. */
  predicate Unlinked(l: Link, paired: map<nat, nat>) {
    l.group.Some? && l.group.value in paired && l.classroom != Some(paired[l.group.value])
  }

  /** Off first, then on, seat by seat; refused says which seats the table would not take. */
  method LinkSeats(links: seq<Link>, paired: map<nat, nat>) returns (linked: seq<Link>, refused: seq<nat>)
    ensures linked == AllLinked(links, paired)
    ensures |linked| == |links| && forall i: nat :: i in refused <==> i < |links| && Unlinked(linked[i], paired)
  {
    linked := links;
    for i := 0 to |links|
      invariant |linked| == |links|
      invariant forall k :: 0 <= k < i ==> linked[k] == Cleared(links, paired)[k]
      invariant forall k :: i <= k < |links| ==> linked[k] == links[k]
    {
      if Stale(linked[i], paired) {
        linked := linked[i := linked[i].(classroom := None)];
      }
    }
    assert linked == Cleared(links, paired);
    refused := [];
    for i := 0 to |links|
      invariant |linked| == |links|
      invariant LinkedFrom(linked, paired, i) == AllLinked(links, paired)
      invariant forall k: nat :: k in refused <==> k < i && Unlinked(linked[k], paired)
    {
      var wanted := WantedFor(linked[i], paired);
      if wanted.Some? && linked[i].classroom != wanted {
        if Taken(linked, linked[i].account, wanted.value) {
          refused := refused + [i];
        } else {
          linked := linked[i := linked[i].(classroom := wanted)];
        }
      }
    }
  }

  // ---------- what a pass leaves ----------

  /** A seat of a group has the class its group is paired with, and none when it is paired with none; or none, because the
      person has another seat in that class. */
  predicate RightlyLinked(links: seq<Link>, paired: map<nat, nat>, i: nat)
    requires i < |links|
  {
    links[i].group.Some? ==>
      if links[i].group.value !in paired then links[i].classroom.None?
      else
        var wanted := paired[links[i].group.value];
        links[i].classroom == Some(wanted) ||
        (links[i].classroom.None? &&
         exists j :: 0 <= j < |links| && links[j].account == links[i].account && links[j].classroom == Some(wanted))
  }

  /** A seat of our own, or one in its group's class already. */
  predicate RightNow(l: Link, paired: map<nat, nat>) {
    l.group.None? || (l.group.value in paired && l.classroom == Some(paired[l.group.value]))
  }

  /** Nothing but classes of seats with a group changed, and no class was taken away. */
  ghost predicate OnlyLinked(before: seq<Link>, after: seq<Link>) {
    |after| == |before| && forall i :: 0 <= i < |before| ==>
      after[i] == before[i] || (before[i].group.Some? && before[i].classroom.None? && after[i] == before[i].(classroom := after[i].classroom))
  }

  lemma TakenStays(before: seq<Link>, after: seq<Link>, account: nat, classroom: nat)
    requires OnlyLinked(before, after) && Taken(before, account, classroom)
    ensures Taken(after, account, classroom)
  {
    var i :| 0 <= i < |before| && before[i].account == account && before[i].classroom == Some(classroom);
    assert after[i] == before[i];
  }

  predicate NoneStale(links: seq<Link>, paired: map<nat, nat>) {
    forall i :: 0 <= i < |links| ==> !Stale(links[i], paired)
  }

  lemma LinkedOneIsRight(links: seq<Link>, paired: map<nat, nat>, i: nat)
    requires i < |links| && NoneStale(links, paired) && OneSeatPerClass(links)
    ensures var r := LinkedOne(links, paired, i);
            OnlyLinked(links, r) && NoneStale(r, paired) && OneSeatPerClass(r) && RightlyLinked(r, paired, i)
  {
    assert !Stale(links[i], paired);
  }

  lemma {:induction false} LinkedFromIsRight(links: seq<Link>, paired: map<nat, nat>, i: nat)
    requires NoneStale(links, paired) && OneSeatPerClass(links)
    requires forall k: nat :: k < i && k < |links| ==> RightlyLinked(links, paired, k)
    ensures var r := LinkedFrom(links, paired, i);
            OnlyLinked(links, r) && NoneStale(r, paired) && OneSeatPerClass(r) &&
            forall k: nat :: k < |r| ==> RightlyLinked(r, paired, k)
    decreases |links| - i
  {
    if i < |links| {
      var next := LinkedOne(links, paired, i);
      LinkedOneIsRight(links, paired, i);
      forall k: nat | k < i + 1 && k < |next| ensures RightlyLinked(next, paired, k) {
        if k < i {
          assert RightlyLinked(links, paired, k);
          RightStays(links, next, paired, k);
        }
      }
      LinkedFromIsRight(next, paired, i + 1);
    }
  }

  lemma RightStays(before: seq<Link>, after: seq<Link>, paired: map<nat, nat>, k: nat)
    requires OnlyLinked(before, after) && k < |before| && RightlyLinked(before, paired, k) && NoneStale(after, paired)
    ensures RightlyLinked(after, paired, k)
  {
    assert !Stale(after[k], paired);
    if before[k].group.Some? && before[k].classroom.None? && WantedFor(before[k], paired).Some? {
      TakenStays(before, after, before[k].account, WantedFor(before[k], paired).value);
    }
  }

  /** After a pass every seat of a group has the group's class, except where the group has none or the person already has a
      seat in that class; seats of our own are untouched and nobody has two seats in a class. */
  lemma PassLinksRightly(links: seq<Link>, paired: map<nat, nat>)
    requires OneSeatPerClass(links)
    ensures var r := AllLinked(links, paired);
            |r| == |links| && OneSeatPerClass(r) && (forall k: nat :: k < |r| ==> RightlyLinked(r, paired, k)) &&
            forall k: nat :: k < |r| ==> r[k] == if RightNow(links[k], paired) then links[k] else links[k].(classroom := r[k].classroom)
  {
    LinkedFromIsRight(Cleared(links, paired), paired, 0);
  }

  lemma {:induction false} NothingToLink(links: seq<Link>, paired: map<nat, nat>, i: nat)
    requires forall k: nat :: k < |links| ==> RightlyLinked(links, paired, k)
    ensures LinkedFrom(links, paired, i) == links
    decreases |links| - i
  {
    if i < |links| {
      assert RightlyLinked(links, paired, i);
      NothingToLink(links, paired, i + 1);
    }
  }

  /** A second pass over the same pairing changes nothing. */
  lemma SecondPassChangesNothing(links: seq<Link>, paired: map<nat, nat>)
    requires OneSeatPerClass(links)
    ensures AllLinked(AllLinked(links, paired), paired) == AllLinked(links, paired)
  {
    var once := AllLinked(links, paired);
    LinkedFromIsRight(Cleared(links, paired), paired, 0);
    assert Cleared(once, paired) == once;
    NothingToLink(once, paired, 0);
  }
}
