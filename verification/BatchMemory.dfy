/**
 * Exactly when a batch may be cut. `appendAgentEventBatch` starts every call
 * from the list alone, so what a merge threw away is not remembered.
 */
module BatchMemory {
  import opened Wrappers
  import opened AgentEvents
  import opened BatchLaws

  /** The same durable events count as seen, and every session got equally far. */
  ghost predicate SameMemory(a: seq<Event>, b: seq<Event>) {
    && (forall e: Event :: IsDuplicate(a, e) <==> IsDuplicate(b, e))
    && (forall session: string :: NewestDurable(a, session) == NewestDurable(b, session))
  }

  /** All that was accepted can be read back off the list. */
  ghost predicate Remembers(b: Batch) {
    SameMemory(b.seen, b.list)
  }

  /** What is on the list was accepted. */
  ghost predicate ListWasSeen(b: Batch) {
    forall e: Event :: IsDuplicate(b.list, e) ==> IsDuplicate(b.seen, e)
  }

  lemma SameMemorySnoc(a: seq<Event>, b: seq<Event>, x: Event)
    requires SameMemory(a, b)
    ensures SameMemory(a + [x], b + [x])
  {
    forall e: Event
      ensures IsDuplicate(a + [x], e) <==> IsDuplicate(b + [x], e)
    {
      DuplicateSnoc(a, x, e);
      DuplicateSnoc(b, x, e);
    }
    forall session: string
      ensures NewestDurable(a + [x], session) == NewestDurable(b + [x], session)
    {
      NewestSnoc(a, x, session);
      NewestSnoc(b, x, session);
    }
  }

  lemma AbsorbAlike(b: Batch, c: Batch, x: Event)
    requires b.list == c.list && SameMemory(b.seen, c.seen)
    ensures Absorb(b, x).list == Absorb(c, x).list && SameMemory(Absorb(b, x).seen, Absorb(c, x).seen)
  {
    hide NewestDurable, Place;
    SameMemorySnoc(b.seen, c.seen, x);
  }

  lemma {:induction false} AbsorbAllAlike(b: Batch, c: Batch, incoming: seq<Event>)
    requires b.list == c.list && SameMemory(b.seen, c.seen)
    ensures AbsorbAll(b, incoming).list == AbsorbAll(c, incoming).list
    ensures SameMemory(AbsorbAll(b, incoming).seen, AbsorbAll(c, incoming).seen)
  {
    if incoming != [] {
      var n := |incoming| - 1;
      AbsorbAllAlike(b, c, incoming[..n]);
      hide SameMemory, Absorb;
      AbsorbAlike(AbsorbAll(b, incoming[..n]), AbsorbAll(c, incoming[..n]), incoming[n]);
    }
  }

  lemma PlacedLast(list: seq<Event>, newest: Option<int>, x: Event)
    ensures
      var after := Place(list, newest, x);
      after != [] && after[|after| - 1].id == x.id && after[|after| - 1].session == x.session
  {
    hide Drop, Item;
  }

  lemma DropDuplicate(list: seq<Event>, k: MergeKey, e: Event)
    requires IsDuplicate(Drop(list, k), e)
    ensures IsDuplicate(list, e)
  {
    OpenAtItem(list, k);
    hide Drop, Item;
    var i :| 0 <= i < |Drop(list, k)| && SameDurable(e, Drop(list, k)[i]);
    assert Drop(list, k)[i] in list;
  }

  lemma PlacedDuplicate(list: seq<Event>, newest: Option<int>, x: Event, e: Event)
    requires IsDuplicate(Place(list, newest, x), e)
    ensures IsDuplicate(list, e) || SameDurable(e, x)
  {
    if KeyOf(x).None? {
      DuplicateSnoc(list, x, e);
    } else {
      var k := KeyOf(x).value;
      hide Drop, Item, KeyOf, IsDuplicate;
      DuplicateSnoc(Drop(list, k), Landed(Item(list, k), newest, x), e);
      if IsDuplicate(Drop(list, k), e) {
        DropDuplicate(list, k, e);
      }
    }
  }

  lemma AbsorbSeen(b: Batch, x: Event)
    requires ListWasSeen(b)
    ensures ListWasSeen(Absorb(b, x))
  {
    if !IsDuplicate(b.seen, x) {
      var newest := NewestDurable(b.seen + [x], x.session);
      forall e: Event | IsDuplicate(Absorb(b, x).list, e)
        ensures IsDuplicate(b.seen + [x], e)
      {
        PlacedDuplicate(b.list, newest, x, e);
        DuplicateSnoc(b.seen, x, e);
      }
    }
  }

  lemma {:induction false} AbsorbAllSeen(b: Batch, incoming: seq<Event>)
    requires ListWasSeen(b)
    ensures ListWasSeen(AbsorbAll(b, incoming))
  {
    if incoming != [] {
      AbsorbAllSeen(b, incoming[..|incoming| - 1]);
      hide ListWasSeen, Absorb;
      AbsorbSeen(AbsorbAll(b, incoming[..|incoming| - 1]), incoming[|incoming| - 1]);
    }
  }

  lemma OneMore(b: Batch, x: Event)
    ensures AbsorbAll(b, [x]) == Absorb(b, x)
  {
    assert [x][..0] == [];
    assert AbsorbAll(b, []) == b;
  }

  /** A forgotten event is taken for new. */
  lemma ForgottenIsPlaced(b: Batch, e: Event)
    requires IsDuplicate(b.seen, e) && !IsDuplicate(b.list, e)
    ensures Absorb(Batch(b.list, b.list), e).list != Absorb(b, e).list
  {
    var placed := Place(b.list, NewestDurable(b.list + [e], e.session), e);
    PlacedLast(b.list, NewestDurable(b.list + [e], e.session), e);
    if placed == b.list {
      assert SameDurable(e, b.list[|b.list| - 1]);
    }
  }

  function Longest(list: seq<Event>): nat {
    if list == [] then 0
    else
      var before := Longest(list[..|list| - 1]);
      var here := |list[|list| - 1].itemId.Or("")|;
      if here > before then here else before
  }

  lemma {:induction false} NoSuchItem(list: seq<Event>, k: MergeKey)
    requires |k.item| > Longest(list) && k.kind.MessageDelta?
    ensures Item(list, k) == None
  {
    if list != [] {
      NoSuchItem(list[..|list| - 1], k);
    }
  }

  /** A session that was set back anchors its next frame too early. */
  lemma ForgottenAnchor(b: Batch, session: string) returns (x: Event)
    requires NewestDurable(b.seen, session) != NewestDurable(b.list, session)
    ensures Absorb(Batch(b.list, b.list), x).list != Absorb(b, x).list
  {
    var item := seq(Longest(b.list) + 1, _ => 'x');
    var k := MergeKey(session, MessageDelta, item);
    x := Event(0, 0, session, MessageDelta, Some(item), None, map[], Some(-1), None, None, None, "");
    NoSuchItem(b.list, k);
    NewestSnoc(b.seen, x, session);
    NewestSnoc(b.list, x, session);
    NewestIsPositive(b.seen, session);
    NewestIsPositive(b.list, session);
    AnchorShows(b.list, NewestDurable(b.seen, session), NewestDurable(b.list, session), x);
  }

  lemma {:induction false} NewestIsPositive(seen: seq<Event>, session: string)
    ensures NewestDurable(seen, session).Some? ==> NewestDurable(seen, session).value > 0
  {
    if seen != [] {
      NewestIsPositive(seen[..|seen| - 1], session);
    }
  }

  lemma AnchorShows(list: seq<Event>, a: Option<int>, b: Option<int>, x: Event)
    requires KeyOf(x).Some? && Item(list, KeyOf(x).value) == None && x.sequence <= 0 && x.causalAnchor == Some(-1)
    requires a != b && (a.Some? ==> a.value > 0) && (b.Some? ==> b.value > 0)
    ensures Place(list, a, x) != Place(list, b, x)
  {
    var rest := Drop(list, KeyOf(x).value);
    hide Drop, Item;
    assert Open(a, x).causalAnchor != Open(b, x).causalAnchor;
    assert (rest + [Open(a, x)])[|rest|] != (rest + [Open(b, x)])[|rest|];
  }

  /** A batch may be cut after `first`, whatever follows, exactly when nothing accepted by then is forgotten. */
  lemma SplitsIffRemembered(current: seq<Event>, first: seq<Event>)
    ensures (forall second :: Merged(Merged(current, first), second) == Merged(current, first + second)) <==>
      Remembers(AbsorbAll(Batch(current, current), first))
  {
    var start := Batch(current, current);
    var b := AbsorbAll(start, first);
    AbsorbAllSeen(start, first);
    if Remembers(b) {
      forall second
        ensures Merged(Merged(current, first), second) == Merged(current, first + second)
      {
        AbsorbConcat(start, first, second);
        AbsorbAllAlike(b, Batch(b.list, b.list), second);
      }
    } else {
      var x := Forgotten(b);
      AbsorbConcat(start, first, [x]);
      assert Merged(Merged(current, first), [x]) != Merged(current, first + [x]);
    }
  }

  lemma Forgotten(b: Batch) returns (x: Event)
    requires ListWasSeen(b) && !Remembers(b)
    ensures AbsorbAll(Batch(b.list, b.list), [x]).list != AbsorbAll(b, [x]).list
  {
    hide AbsorbAll, Absorb, NewestDurable;
    if e: Event :| IsDuplicate(b.seen, e) && !IsDuplicate(b.list, e) {
      x := e;
      ForgottenIsPlaced(b, e);
    } else {
      var session: string :| NewestDurable(b.seen, session) != NewestDurable(b.list, session);
      x := ForgottenAnchor(b, session);
    }
    OneMore(b, x);
    OneMore(Batch(b.list, b.list), x);
  }

  /** Transient deltas leave nothing to forget. */
  lemma TransientIsRemembered(current: seq<Event>, first: seq<Event>)
    requires AllTransient(current) && AllTransient(first)
    ensures Remembers(AbsorbAll(Batch(current, current), first))
  {
    AbsorbAllForgets(Batch(current, current), first);
  }
}
