/** When a batch may be cut, read off the events themselves: which of them a later one merges over. */
module BatchAccepted {
  import opened Wrappers
  import opened AgentEvents
  import opened AgentEventBatch
  import opened BatchLaws
  import opened BatchMemory

  /** The events there were and those that were not taken for replays. */
  function Accepted(current: seq<Event>, incoming: seq<Event>): seq<Event> {
    if incoming == [] then current
    else
      var before, x := Accepted(current, incoming[..|incoming| - 1]), incoming[|incoming| - 1];
      if IsDuplicate(before, x) then before else before + [x]
  }

  /** Event `j` lands on the open frame of its key, which is event `i`. */
  predicate MergesOver(all: seq<Event>, j: nat, i: nat) {
    i < j < |all| && KeyOf(all[j]).Some? && OpenAt(all[..j], KeyOf(all[j]).value) == Some(i)
  }

  /** Of all events, the first `n` of which were there before: no later one merges over event `i`. */
  predicate Survives(all: seq<Event>, n: nat, i: nat) {
    i < |all| && forall j :: n <= j < |all| ==> !MergesOver(all, j, i)
  }

  /** Some surviving event has the durable id of `e`. */
  ghost predicate KeepsId(all: seq<Event>, n: nat, e: Event) {
    exists s: nat :: s < |all| && Survives(all, n, s) && SameDurable(e, all[s])
  }

  /** Some surviving event of the session got as far as `e`. */
  ghost predicate KeepsSequence(all: seq<Event>, n: nat, e: Event) {
    exists s: nat :: s < |all| && Survives(all, n, s) && all[s].session == e.session && all[s].sequence >= e.sequence
  }

  /** Every durable id is still on a surviving event, and the newest sequence of every session too. */
  ghost predicate NothingForgotten(all: seq<Event>, n: nat) {
    forall i :: 0 <= i < |all| ==>
      (all[i].id > 0 ==> KeepsId(all, n, all[i])) && (all[i].sequence > 0 ==> KeepsSequence(all, n, all[i]))
  }

  lemma {:induction false} SeenIsAccepted(current: seq<Event>, incoming: seq<Event>)
    ensures AbsorbAll(Batch(current, current), incoming).seen == Accepted(current, incoming)
    ensures |Accepted(current, incoming)| >= |current|
  {
    if incoming != [] {
      hide Place, NewestDurable, IsDuplicate;
      SeenIsAccepted(current, incoming[..|incoming| - 1]);
    }
  }

  // ----- The list is the surviving events ----------------------------------

  /** What merging never changes. */
  predicate Alike(a: Event, b: Event) {
    a.id == b.id && a.sequence == b.sequence && a.session == b.session && KeyOf(a) == KeyOf(b)
  }

  function Via(order: seq<nat>, at: Option<nat>): Option<nat>
    requires at.Some? ==> at.value < |order|
  {
    if at.None? then None else Some(order[at.value])
  }

  /** The list holds the surviving events in `order`, and its open frames are theirs. */
  ghost predicate Lists(list: seq<Event>, all: seq<Event>, n: nat, order: seq<nat>) {
    && |order| == |list| && n <= |all|
    && (forall p :: 0 <= p < |list| ==> order[p] < |all| && Alike(list[p], all[order[p]]))
    && (forall p, q :: 0 <= p < q < |list| ==> order[p] != order[q])
    && (forall i: nat :: i in order <==> Survives(all, n, i))
    && (forall k: MergeKey :: OpenAt(all, k) == Via(order, OpenAt(list, k)))
  }

  lemma SurvivesSnoc(all: seq<Event>, n: nat, x: Event, i: nat)
    requires n <= |all|
    ensures Survives(all + [x], n, i) <==>
      i == |all| || (Survives(all, n, i) && !(KeyOf(x).Some? && OpenAt(all, KeyOf(x).value) == Some(i)))
  {
    var after := all + [x];
    assert after[..|all|] == all && after[|all|] == x;
    forall j | 0 <= j < |all|
      ensures MergesOver(after, j, i) <==> MergesOver(all, j, i)
    {
      assert after[..j] == all[..j] && after[j] == all[j];
    }
    hide KeyOf, OpenAt;
    assert i < |all| && KeyOf(x).Some? && OpenAt(all, KeyOf(x).value) == Some(i) <==> MergesOver(after, |all|, i);
    if Survives(after, n, i) && i < |all| {
      assert !MergesOver(after, |all|, i);
    }
  }

  lemma {:induction false} FirstLists(current: seq<Event>) returns (order: seq<nat>)
    ensures Lists(current, current, |current|, order)
  {
    order := seq(|current|, p => p);
    hide OpenAt, KeyOf;
    forall i: nat
      ensures i in order <==> Survives(current, |current|, i)
    {
      if i < |current| {
        assert order[i] == i;
      }
    }
  }

  /** An event that opens no frame, or the first of its key, joins at the end. */
  lemma {:induction false} ListsPushed(list: seq<Event>, all: seq<Event>, n: nat, order: seq<nat>, x: Event, landed: Event)
    requires Lists(list, all, n, order) && Alike(landed, x)
    requires KeyOf(x).None? ==> landed == x
    requires KeyOf(x).Some? ==> OpenAt(list, KeyOf(x).value).None?
    ensures Lists(list + [landed], all + [x], n, order + [|all|])
  {
    var after, order' := list + [landed], order + [|all|];
    forall k: MergeKey
      ensures OpenAt(all + [x], k) == Via(order', OpenAt(after, k))
    {
      assert OpenAt(all, k) == Via(order, OpenAt(list, k));
      OpenAtSnoc(all, x, k);
      OpenAtSnoc(list, landed, k);
      assert Closes(landed, k) <==> Closes(x, k);
      hide OpenAt, KeyOf, Closes;
    }
    hide OpenAt, Closes, Survives;
    forall i: nat
      ensures i in order' <==> Survives(all + [x], n, i)
    {
      SurvivesSnoc(all, n, x, i);
      if KeyOf(x).Some? {
        assert OpenAt(all, KeyOf(x).value) == Via(order, OpenAt(list, KeyOf(x).value));
      }
    }
  }

  function Without(order: seq<nat>, p: nat): seq<nat>
    requires p < |order|
  {
    order[..p] + order[p + 1..]
  }

  lemma WithoutAt(order: seq<nat>, p: nat, last: nat)
    requires p < |order| && (forall a, b :: 0 <= a < b < |order| ==> order[a] != order[b])
    ensures
      var after := Without(order, p) + [last];
      && |after| == |order|
      && (forall q :: 0 <= q < |order| && q != p ==> after[Shifted(q, p)] == order[q])
      && (forall i :: i in after <==> i == last || (i in order && i != order[p]))
  {
    var after := Without(order, p) + [last];
    forall i | i in order && i != order[p]
      ensures i in after
    {
      var q :| 0 <= q < |order| && order[q] == i;
      assert after[Shifted(q, p)] == i;
    }
    assert after[|order| - 1] == last;
  }

  /** A frame that lands on the open one of its key takes its place at the end. */
  lemma {:induction false} ListsMoved(list: seq<Event>, all: seq<Event>, n: nat, order: seq<nat>, x: Event, landed: Event, p: nat)
    requires Lists(list, all, n, order) && Alike(landed, x)
    requires KeyOf(x).Some? && OpenAt(list, KeyOf(x).value) == Some(p)
    requires forall i :: i in order ==> i < |all|
    ensures Lists(Drop(list, KeyOf(x).value) + [landed], all + [x], n, Without(order, p) + [|all|])
  {
    var k := KeyOf(x).value;
    var after, order' := Drop(list, k) + [landed], Without(order, p) + [|all|];
    OpenAtItem(list, k);
    assert after == list[..p] + list[p + 1..] + [landed];
    WithoutAt(order, p, |all|);
    MovedKeys(list, all, order, x, landed, p, order');
    MovedElements(list, all, order, x, landed, p);
    MovedSurvive(list, all, n, order, x, p);
    hide OpenAt, Drop, Item, KeyOf, Survives, Alike, Without;
  }

  lemma {:induction false} MovedKeys(list: seq<Event>, all: seq<Event>, order: seq<nat>, x: Event, landed: Event, p: nat, order': seq<nat>)
    requires |order| == |list| == |order'| && KeyOf(x).Some? && KeyOf(landed) == KeyOf(x)
    requires OpenAt(list, KeyOf(x).value) == Some(p)
    requires forall k: MergeKey :: OpenAt(all, k) == Via(order, OpenAt(list, k))
    requires order'[|list| - 1] == |all| && forall q :: 0 <= q < |order| && q != p ==> order'[Shifted(q, p)] == order[q]
    ensures |Drop(list, KeyOf(x).value) + [landed]| == |list|
    ensures forall k: MergeKey :: OpenAt(all + [x], k) == Via(order', OpenAt(Drop(list, KeyOf(x).value) + [landed], k))
  {
    var own := KeyOf(x).value;
    var after := Drop(list, own) + [landed];
    DropSize(list, own);
    forall k: MergeKey
      ensures OpenAt(all + [x], k) == Via(order', OpenAt(after, k))
    {
      assert OpenAt(all, k) == Via(order, OpenAt(list, k));
      OpenAtSnoc(all, x, k);
      assert !Closes(x, k);
      IndexMovesAt(list, own, landed, k);
      hide OpenAt, Drop, Closes;
      if k != own && OpenAt(list, k).Some? {
        OpenOfOther(list, own, k);
      }
    }
  }

  /** Two keys are open at two positions. */
  lemma OpenOfOther(list: seq<Event>, j: MergeKey, k: MergeKey)
    requires j != k && OpenAt(list, j).Some? && OpenAt(list, k).Some?
    ensures OpenAt(list, j) != OpenAt(list, k)
  {
    hide OpenAt, KeyOf;
    assert KeyOf(list[OpenAt(list, j).value]) == Some(j) && KeyOf(list[OpenAt(list, k).value]) == Some(k);
  }

  lemma MovedElements(list: seq<Event>, all: seq<Event>, order: seq<nat>, x: Event, landed: Event, p: nat)
    requires |order| == |list| && p < |list| && Alike(landed, x)
    requires forall q :: 0 <= q < |list| ==> order[q] < |all| && Alike(list[q], all[order[q]])
    requires forall a, b :: 0 <= a < b < |order| ==> order[a] != order[b]
    ensures
      var after, order' := list[..p] + list[p + 1..] + [landed], Without(order, p) + [|all|];
      && (forall q :: 0 <= q < |after| ==> order'[q] < |all| + 1 && Alike(after[q], (all + [x])[order'[q]]))
      && (forall a, b :: 0 <= a < b < |order'| ==> order'[a] != order'[b])
  {
    hide KeyOf, Alike;
    var after, order' := list[..p] + list[p + 1..] + [landed], Without(order, p) + [|all|];
    forall q | 0 <= q < |after|
      ensures order'[q] < |all| + 1 && Alike(after[q], (all + [x])[order'[q]])
    {
      if q < |list| - 1 {
        var was := if q < p then q else q + 1;
        assert after[q] == list[was] && order'[q] == order[was];
      }
    }
  }

  lemma MovedSurvive(list: seq<Event>, all: seq<Event>, n: nat, order: seq<nat>, x: Event, p: nat)
    requires |order| == |list| && n <= |all| && p < |order| && KeyOf(x).Some?
    requires OpenAt(all, KeyOf(x).value) == Some(order[p])
    requires forall a, b :: 0 <= a < b < |order| ==> order[a] != order[b]
    requires forall i: nat :: i in order <==> Survives(all, n, i)
    ensures forall i: nat :: i in Without(order, p) + [|all|] <==> Survives(all + [x], n, i)
  {
    WithoutAt(order, p, |all|);
    hide OpenAt, KeyOf, Survives, Without;
    forall i: nat
      ensures i in Without(order, p) + [|all|] <==> Survives(all + [x], n, i)
    {
      SurvivesSnoc(all, n, x, i);
    }
  }

  lemma LandedAlike(previous: Option<Event>, newest: Option<int>, x: Event)
    ensures Alike(Landed(previous, newest, x), x)
  {
  }

  lemma {:induction false} PlaceLists(list: seq<Event>, all: seq<Event>, n: nat, order: seq<nat>, newest: Option<int>, x: Event)
    returns (order': seq<nat>)
    requires Lists(list, all, n, order)
    ensures Lists(Place(list, newest, x), all + [x], n, order')
  {
    if KeyOf(x).None? {
      ListsPushed(list, all, n, order, x, x);
      order' := order + [|all|];
    } else {
      var k := KeyOf(x).value;
      LandedAlike(Item(list, k), newest, x);
      if OpenAt(list, k).None? {
        OpenAtItem(list, k);
        ListsPushed(list, all, n, order, x, Landed(Item(list, k), newest, x));
        order' := order + [|all|];
      } else {
        var p := OpenAt(list, k).value;
        assert forall i :: i in order ==> i < |all|;
        hide Lists, OpenAt, Drop, Item, KeyOf, Landed, Alike;
        ListsMoved(list, all, n, order, x, Landed(Item(list, k), newest, x), p);
        order' := Without(order, p) + [|all|];
      }
    }
  }

  lemma {:induction false} MergedLists(current: seq<Event>, incoming: seq<Event>) returns (order: seq<nat>)
    ensures
      var b := AbsorbAll(Batch(current, current), incoming);
      Lists(b.list, b.seen, |current|, order)
  {
    if incoming == [] {
      order := FirstLists(current);
    } else {
      var b := AbsorbAll(Batch(current, current), incoming[..|incoming| - 1]);
      var x := incoming[|incoming| - 1];
      order := MergedLists(current, incoming[..|incoming| - 1]);
      hide Lists, Place, NewestDurable, IsDuplicate;
      if !IsDuplicate(b.seen, x) {
        order := PlaceLists(b.list, b.seen, |current|, order, NewestDurable(b.seen + [x], x.session), x);
      }
    }
  }

  // ----- What the list still tells -----------------------------------------

  lemma {:induction false} NewestIsBound(list: seq<Event>, i: nat)
    requires i < |list| && list[i].sequence > 0
    ensures NewestDurable(list, list[i].session).Some? && NewestDurable(list, list[i].session).value >= list[i].sequence
  {
    if i < |list| - 1 {
      NewestIsBound(list[..|list| - 1], i);
    }
  }

  lemma {:induction false} NewestIsReached(list: seq<Event>, session: string) returns (i: nat)
    requires NewestDurable(list, session).Some?
    ensures i < |list| && list[i].session == session && NewestDurable(list, session) == Some(list[i].sequence) && list[i].sequence > 0
  {
    var n := |list| - 1;
    var before := NewestDurable(list[..n], session);
    if list[n].session == session && list[n].sequence > 0 && (before.None? || before.value <= list[n].sequence) {
      i := n;
    } else {
      i := NewestIsReached(list[..n], session);
    }
  }

  lemma ListedAt(list: seq<Event>, all: seq<Event>, n: nat, order: seq<nat>, s: nat) returns (p: nat)
    requires Lists(list, all, n, order) && Survives(all, n, s)
    ensures p < |list| && order[p] == s && Alike(list[p], all[s])
  {
    hide OpenAt, Survives, KeyOf;
    p :| 0 <= p < |order| && order[p] == s;
  }

  lemma ListedSurvives(list: seq<Event>, all: seq<Event>, n: nat, order: seq<nat>, p: nat) returns (s: nat)
    requires Lists(list, all, n, order) && p < |list|
    ensures s < |all| && Survives(all, n, s) && Alike(list[p], all[s])
  {
    hide OpenAt, Survives, KeyOf;
    s := order[p];
    assert s in order;
  }

  lemma IdIsListed(list: seq<Event>, all: seq<Event>, n: nat, order: seq<nat>, e: Event)
    requires Lists(list, all, n, order)
    ensures KeepsId(all, n, e) <==> IsDuplicate(list, e)
  {
    hide Lists, Survives, KeyOf;
    if IsDuplicate(list, e) {
      var p :| 0 <= p < |list| && SameDurable(e, list[p]);
      var s := ListedSurvives(list, all, n, order, p);
      assert SameDurable(e, all[s]);
    }
    if KeepsId(all, n, e) {
      var s: nat :| s < |all| && Survives(all, n, s) && SameDurable(e, all[s]);
      var p := ListedAt(list, all, n, order, s);
      assert SameDurable(e, list[p]);
    }
  }

  lemma {:induction false} SequenceIsListed(list: seq<Event>, all: seq<Event>, n: nat, order: seq<nat>, e: Event)
    requires Lists(list, all, n, order) && e.sequence > 0
    ensures KeepsSequence(all, n, e) <==>
      NewestDurable(list, e.session).Some? && NewestDurable(list, e.session).value >= e.sequence
  {
    hide NewestDurable, Lists, Survives, KeyOf;
    if NewestDurable(list, e.session).Some? && NewestDurable(list, e.session).value >= e.sequence {
      var p := NewestIsReached(list, e.session);
      var s := ListedSurvives(list, all, n, order, p);
    }
    if KeepsSequence(all, n, e) {
      var s: nat :| s < |all| && Survives(all, n, s) && all[s].session == e.session && all[s].sequence >= e.sequence;
      var p := ListedAt(list, all, n, order, s);
      NewestIsBound(list, p);
    }
  }

  /** What is listed was accepted, so the list never tells more. */
  lemma {:induction false} ListTellsNoMore(list: seq<Event>, all: seq<Event>, n: nat, order: seq<nat>, session: string)
    requires Lists(list, all, n, order)
    ensures NewestDurable(list, session).Some? ==>
      NewestDurable(all, session).Some? && NewestDurable(all, session).value >= NewestDurable(list, session).value
  {
    hide NewestDurable, Lists, Survives, KeyOf;
    if NewestDurable(list, session).Some? {
      var p := NewestIsReached(list, session);
      var s := ListedSurvives(list, all, n, order, p);
      NewestIsBound(all, s);
    }
  }

  lemma {:induction false} SameIds(list: seq<Event>, all: seq<Event>, n: nat, order: seq<nat>, e: Event)
    requires Lists(list, all, n, order) && NothingForgotten(all, n)
    ensures IsDuplicate(list, e) <==> IsDuplicate(all, e)
  {
    hide Lists, Survives, KeyOf;
    IdIsListed(list, all, n, order, e);
    if i :| 0 <= i < |all| && SameDurable(e, all[i]) {
      IdIsListed(list, all, n, order, all[i]);
      var p :| 0 <= p < |list| && SameDurable(all[i], list[p]);
      assert SameDurable(e, list[p]);
    }
  }

  lemma {:induction false} SameNewest(list: seq<Event>, all: seq<Event>, n: nat, order: seq<nat>, session: string)
    requires Lists(list, all, n, order) && NothingForgotten(all, n)
    ensures NewestDurable(list, session) == NewestDurable(all, session)
  {
    hide NewestDurable, Lists, Survives, KeyOf, KeepsId, KeepsSequence;
    ListTellsNoMore(list, all, n, order, session);
    if NewestDurable(all, session).Some? {
      var i := NewestIsReached(all, session);
      assert KeepsSequence(all, n, all[i]);
      SequenceIsListed(list, all, n, order, all[i]);
    }
  }

  lemma MemoryKeeps(list: seq<Event>, all: seq<Event>, n: nat, order: seq<nat>, i: nat)
    requires Lists(list, all, n, order) && SameMemory(all, list) && i < |all|
    ensures (all[i].id > 0 ==> KeepsId(all, n, all[i])) && (all[i].sequence > 0 ==> KeepsSequence(all, n, all[i]))
  {
    hide Lists, Survives, KeyOf, NewestDurable, KeepsId, KeepsSequence;
    if all[i].id > 0 {
      assert SameDurable(all[i], all[i]) && IsDuplicate(all, all[i]);
      IdIsListed(list, all, n, order, all[i]);
    }
    if all[i].sequence > 0 {
      NewestIsBound(all, i);
      assert NewestDurable(list, all[i].session) == NewestDurable(all, all[i].session);
      SequenceIsListed(list, all, n, order, all[i]);
    }
  }

  lemma RememberedIff(list: seq<Event>, all: seq<Event>, n: nat, order: seq<nat>)
    requires Lists(list, all, n, order)
    ensures SameMemory(all, list) <==> NothingForgotten(all, n)
  {
    hide Lists, KeepsId, KeepsSequence, NewestDurable, IsDuplicate;
    if NothingForgotten(all, n) {
      hide NothingForgotten;
      forall e: Event
        ensures IsDuplicate(all, e) <==> IsDuplicate(list, e)
      {
        SameIds(list, all, n, order, e);
      }
      forall session: string
        ensures NewestDurable(all, session) == NewestDurable(list, session)
      {
        SameNewest(list, all, n, order, session);
      }
    }
    if SameMemory(all, list) {
      forall i | 0 <= i < |all|
        ensures (all[i].id > 0 ==> KeepsId(all, n, all[i])) && (all[i].sequence > 0 ==> KeepsSequence(all, n, all[i]))
      {
        MemoryKeeps(list, all, n, order, i);
      }
    }
  }

  /**
   * A batch may be cut after `first`, whatever follows, if and only if every
   * durable id accepted by then, and every session's newest sequence, is on an
   * event that no later one merged over.
   */
  lemma SplitsIffNothingForgotten(current: seq<Event>, first: seq<Event>)
    ensures (forall second :: Merged(Merged(current, first), second) == Merged(current, first + second)) <==>
      NothingForgotten(Accepted(current, first), |current|)
  {
    var b := AbsorbAll(Batch(current, current), first);
    var order := MergedLists(current, first);
    SeenIsAccepted(current, first);
    RememberedIff(b.list, b.seen, |current|, order);
    SplitsIffRemembered(current, first);
    hide Merged, AbsorbAll, Accepted, NothingForgotten, SameMemory;
  }

  predicate IsDurable(e: Event) {
    e.id > 0 || e.sequence > 0
  }

  /** A batch may be cut wherever no accepted event merges over a durable one. */
  lemma SparedBatchSplits(current: seq<Event>, first: seq<Event>, second: seq<Event>)
    requires forall i: nat, j: nat :: |current| <= j && MergesOver(Accepted(current, first), j, i) ==>
      !IsDurable(Accepted(current, first)[i])
    ensures Merged(Merged(current, first), second) == Merged(current, first + second)
  {
    var all, n := Accepted(current, first), |current|;
    forall i: nat | i < |all| && IsDurable(all[i])
      ensures KeepsId(all, n, all[i]) || all[i].id <= 0
      ensures KeepsSequence(all, n, all[i])
    {
      assert Survives(all, n, i);
      hide Survives, MergesOver;
      assert all[i].id > 0 ==> SameDurable(all[i], all[i]);
    }
    hide MergesOver, Survives, Accepted, KeepsId, KeepsSequence;
    assert NothingForgotten(all, n);
    SplitsIffNothingForgotten(current, first);
  }
}
