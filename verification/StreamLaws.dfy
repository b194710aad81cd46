/** Which events make one frame and which end it, told by the fields of the events alone. */
module StreamLaws {
  import opened Wrappers
  import opened AgentEvents
  import opened BatchLaws
  import opened BatchMemory

  predicate IsDelta(kind: Kind) {
    kind in {MessageDelta, ReasoningDelta, CommandOutputDelta, DiffDelta, ToolProgress}
  }

  predicate HasItem(e: Event) {
    e.itemId.Some? && e.itemId.value != ""
  }

  /** A delta of some item, or a thought. */
  predicate InStream(e: Event) {
    IsDelta(e.kind) && (HasItem(e) || e.kind == ReasoningDelta)
  }

  /** The item a delta belongs to; a thought without one belongs to the live thought. */
  function ItemName(e: Event): string {
    if HasItem(e) then e.itemId.value else "reasoning:live"
  }

  /** Deltas of one frame. */
  predicate SameStream(a: Event, b: Event) {
    InStream(a) && InStream(b) && a.session == b.session && a.kind == b.kind && ItemName(a) == ItemName(b)
  }

  /** Turn and reasoning events, deltas apart. */
  predicate IsTurnOrThought(kind: Kind) {
    kind.TurnStarted? || kind.OtherTurn? || kind.OtherReasoning?
  }

  /** An event of no stream ends what its item streams, or, when it is of a turn or a thought and names no item, the live thought. */
  predicate Ends(x: Event, d: Event) {
    && !InStream(x) && x.session == d.session
    && ((HasItem(x) && x.itemId.value == ItemName(d)) ||
        (x.itemId.None? && IsTurnOrThought(x.kind) && ItemName(d) == "reasoning:live"))
  }

  /** Whether the list takes the event in: anything without a positive id, and an id its session has not got yet. */
  predicate IsNew(list: seq<Event>, e: Event) {
    e.id <= 0 || forall i :: 0 <= i < |list| ==> list[i].id != e.id || list[i].session != e.session
  }

  /** `before` joined by `d`: everything is of `d` but the text, the fields of the data, and the anchor. */
  predicate IsJoined(frame: Event, before: Event, d: Event) {
    && frame == d.(text := frame.text, data := before.data + d.data, causalAnchor := before.causalAnchor)
    && frame.text == Some(Tail(
         if d.kind == ToolProgress then d.text.Or(TextOf(before)) else TextOf(before) + TextOf(d)))
  }

  /** `d` on its own: everything is its own, but that a long text is cut and the anchor may be set. */
  predicate IsOpened(frame: Event, d: Event) {
    && frame == d.(text := frame.text, causalAnchor := frame.causalAnchor)
    && TextOf(frame) == Tail(TextOf(d)) && (d.text.None? ==> frame.text.None?)
    && (d.sequence > 0 ==> frame.causalAnchor == d.causalAnchor)
  }

  // ----- The fields against the keys ---------------------------------------

  lemma KeyIsStream(e: Event)
    ensures KeyOf(e).Some? <==> InStream(e)
    ensures InStream(e) ==> KeyOf(e) == Some(MergeKey(e.session, e.kind, ItemName(e)))
    ensures IsMergeable(e.kind) <==> IsDelta(e.kind)
  {
  }

  lemma ClosesIsEnds(x: Event, d: Event)
    requires InStream(d)
    ensures Closes(x, KeyOf(d).value) <==> Ends(x, d)
  {
    KeyIsStream(x);
    KeyIsStream(d);
    hide KeyOf, IsDelta;
  }

  lemma NewIsNoDuplicate(list: seq<Event>, e: Event)
    ensures IsNew(list, e) <==> !IsDuplicate(list, e)
  {
    if !IsNew(list, e) {
      var i :| 0 <= i < |list| && list[i].id == e.id && list[i].session == e.session;
      assert SameDurable(e, list[i]);
    }
  }

  lemma MergedOne(list: seq<Event>, e: Event)
    ensures Merged(list, [e]) == if IsNew(list, e) then Place(list, NewestDurable(list + [e], e.session), e) else list
  {
    NewIsNoDuplicate(list, e);
    assert [e][..0] == [];
    assert AbsorbAll(Batch(list, list), []) == Batch(list, list);
    hide IsDuplicate, Place, NewestDurable;
  }

  lemma JoinedByMerge(before: Event, d: Event)
    requires InStream(d)
    ensures IsJoined(Merge(before, d), before, d)
  {
    hide Tail;
  }

  lemma OpenedByOpen(newest: Option<int>, d: Event)
    ensures IsOpened(Open(newest, d), d)
  {
  }

  // ----- The laws ----------------------------------------------------------

  /** A replay changes nothing, an event of no stream is added as it is, and any other comes last too. */
  lemma ReplayIsIgnored(list: seq<Event>, e: Event)
    ensures !IsNew(list, e) ==> Merged(list, [e]) == list
    ensures IsNew(list, e) && !InStream(e) ==> Merged(list, [e]) == list + [e]
    ensures
      var after := Merged(list, [e]);
      IsNew(list, e) ==> after != [] && after[|after| - 1].id == e.id && after[|after| - 1].session == e.session
  {
    MergedOne(list, e);
    KeyIsStream(e);
    PlacedLast(list, NewestDurable(list + [e], e.session), e);
    hide Drop, Item, Landed, IsNew, IsDuplicate, InStream, KeyOf;
  }

  /** An event that is neither of the stream nor its end leaves the open frame as it was. */
  lemma StepKeeps(b: Batch, x: Event, d: Event)
    requires InStream(d) && !SameStream(x, d) && !Ends(x, d)
    ensures Item(Absorb(b, x).list, KeyOf(d).value) == Item(b.list, KeyOf(d).value)
  {
    KeyIsStream(x);
    KeyIsStream(d);
    ClosesIsEnds(x, d);
    var k := KeyOf(d).value;
    assert KeyOf(x) != Some(k);
    hide KeyOf, Closes, Ends, SameStream, InStream, Drop, Item, Place, IsDuplicate, NewestDurable;
    PlaceSkips(b.list, NewestDurable(b.seen + [x], x.session), x, k);
  }

  /** Once a stream ended, nothing but a delta of it opens a frame. */
  lemma StepStaysEnded(b: Batch, x: Event, d: Event)
    requires InStream(d) && !SameStream(x, d)
    requires Item(b.list, KeyOf(d).value) == None || (Ends(x, d) && !IsDuplicate(b.seen, x))
    ensures Item(Absorb(b, x).list, KeyOf(d).value) == None
  {
    if Ends(x, d) {
      KeyIsStream(x);
      KeyIsStream(d);
      ClosesIsEnds(x, d);
      var k := KeyOf(d).value;
      hide Closes, Ends, SameStream, InStream, Drop, Item, IsDuplicate, NewestDurable;
      DropSnoc(b.list, x, k);
    } else {
      StepKeeps(b, x, d);
    }
  }

  /** No delta of the stream of `d` is among the events. */
  predicate NoneOf(events: seq<Event>, d: Event) {
    forall i :: 0 <= i < |events| ==> !SameStream(events[i], d)
  }

  predicate NoneEnds(events: seq<Event>, d: Event) {
    forall i :: 0 <= i < |events| ==> !Ends(events[i], d)
  }

  lemma {:induction false} StaysEnded(b: Batch, between: seq<Event>, d: Event)
    requires InStream(d) && NoneOf(between, d) && Item(b.list, KeyOf(d).value) == None
    ensures Item(AbsorbAll(b, between).list, KeyOf(d).value) == None
  {
    if between != [] {
      var n := |between| - 1;
      assert NoneOf(between[..n], d) && !SameStream(between[n], d);
      hide InStream, KeyOf, Item, SameStream, Absorb, NoneOf;
      StaysEnded(b, between[..n], d);
      StepStaysEnded(AbsorbAll(b, between[..n]), between[n], d);
    }
  }

  lemma {:induction false} StaysOpen(b: Batch, between: seq<Event>, d: Event)
    requires InStream(d) && NoneOf(between, d) && NoneEnds(between, d)
    ensures Item(AbsorbAll(b, between).list, KeyOf(d).value) == Item(b.list, KeyOf(d).value)
  {
    if between != [] {
      var n := |between| - 1;
      assert NoneOf(between[..n], d) && NoneEnds(between[..n], d) && !SameStream(between[n], d) && !Ends(between[n], d);
      hide InStream, KeyOf, Item, SameStream, Ends, Absorb, NoneOf, NoneEnds;
      StaysOpen(b, between[..n], d);
      StepKeeps(AbsorbAll(b, between[..n]), between[n], d);
    }
  }

  lemma StepOpens(b: Batch, d: Event)
    requires InStream(d) && d.id <= 0 && Item(b.list, KeyOf(d).value) == None
    ensures
      var after := Absorb(b, d).list;
      |after| == |b.list| + 1 && after[..|b.list|] == b.list && IsOpened(after[|b.list|], d)
  {
    var k := KeyOf(d).value;
    OpenAtItem(b.list, k);
    assert !IsDuplicate(b.seen, d);
    OpenedByOpen(NewestDurable(b.seen + [d], d.session), d);
    hide Open, OpenAt, Item, Drop, KeyOf, InStream, IsDuplicate, NewestDurable, IsOpened;
  }

  lemma StepJoins(b: Batch, d: Event) returns (p: nat)
    requires InStream(d) && d.id <= 0 && Item(b.list, KeyOf(d).value).Some?
    ensures p < |b.list| && b.list[p] == Item(b.list, KeyOf(d).value).value
    ensures
      var after := Absorb(b, d).list;
      |after| == |b.list| && after[..|b.list| - 1] == b.list[..p] + b.list[p + 1..] && IsJoined(after[|b.list| - 1], b.list[p], d)
  {
    var k := KeyOf(d).value;
    OpenAtItem(b.list, k);
    p := OpenAt(b.list, k).value;
    assert !IsDuplicate(b.seen, d);
    JoinedByMerge(b.list[p], d);
    hide Merge, OpenAt, Item, Drop, KeyOf, InStream, IsDuplicate, NewestDurable, IsJoined;
  }

  lemma AbsorbFirst(b: Batch, x: Event, rest: seq<Event>)
    ensures AbsorbAll(b, [x] + rest) == AbsorbAll(Absorb(b, x), rest)
  {
    AbsorbConcat(b, [x], rest);
    assert [x][..0] == [];
    assert AbsorbAll(b, []) == b;
    hide Absorb;
  }

  lemma AbsorbLast(b: Batch, events: seq<Event>, d: Event)
    ensures AbsorbAll(b, events + [d]) == Absorb(AbsorbAll(b, events), d)
  {
    assert (events + [d])[..|events|] == events;
    hide Absorb;
  }

  /**
   * After an event that ends the stream the next delta of it opens a frame with
   * only its own text, whatever of other streams came between.
   */
  lemma EndedStreamOpensAnew(current: seq<Event>, x: Event, between: seq<Event>, d: Event)
    requires InStream(d) && d.id <= 0 && IsNew(current, x) && Ends(x, d) && NoneOf(between, d)
    ensures
      var before, after := Merged(current, [x] + between), Merged(current, [x] + between + [d]);
      |after| == |before| + 1 && after[..|before|] == before && IsOpened(after[|before|], d)
  {
    var start := Batch(current, current);
    NewIsNoDuplicate(current, x);
    assert !SameStream(x, d);
    hide IsNew, Ends, SameStream, NoneOf, KeyOf, InStream, Item, Absorb, AbsorbAll, IsDuplicate;
    AbsorbFirst(start, x, between);
    AbsorbLast(start, [x] + between, d);
    StepStaysEnded(start, x, d);
    StaysEnded(Absorb(start, x), between, d);
    StepOpens(AbsorbAll(start, [x] + between), d);
  }

  /** A delta whose stream nothing before it belonged to opens a frame. */
  lemma FirstOfStreamOpens(before: seq<Event>, d: Event)
    requires InStream(d) && d.id <= 0 && NoneOf(before, d)
    ensures
      var list, after := Merged([], before), Merged([], before + [d]);
      |after| == |list| + 1 && after[..|list|] == list && IsOpened(after[|list|], d)
  {
    var start := Batch([], []);
    assert Item([], KeyOf(d).value) == None;
    hide SameStream, NoneOf, KeyOf, InStream, Item, Absorb, AbsorbAll;
    AbsorbLast(start, before, d);
    StaysEnded(start, before, d);
    StepOpens(AbsorbAll(start, before), d);
  }

  /**
   * Until an event ends the stream the next delta of it joins the frame the last
   * one left, wherever that is in the list, and moves it to the end.
   */
  lemma OpenStreamJoins(current: seq<Event>, first: Event, between: seq<Event>, d: Event) returns (p: nat)
    requires InStream(first) && first.id <= 0 && d.id <= 0 && SameStream(first, d)
    requires NoneOf(between, d) && NoneEnds(between, d)
    ensures
      var one := Merged(current, [first]);
      var before, after := Merged(current, [first] + between), Merged(current, [first] + between + [d]);
      && one != [] && p < |before| && before[p] == one[|one| - 1]
      && |after| == |before| && after[..|before| - 1] == before[..p] + before[p + 1..]
      && IsJoined(after[|before| - 1], before[p], d)
  {
    var start := Batch(current, current);
    KeyIsStream(first);
    KeyIsStream(d);
    assert KeyOf(first) == KeyOf(d);
    FirstIsLast(start, first);
    hide SameStream, NoneOf, NoneEnds, KeyOf, InStream, Item, Absorb, AbsorbAll, IsJoined;
    AbsorbFirst(start, first, between);
    AbsorbFirst(start, first, []);
    assert [first] + [] == [first];
    NothingAbsorbed(Absorb(start, first));
    AbsorbLast(start, [first] + between, d);
    StaysOpen(Absorb(start, first), between, d);
    p := StepJoins(AbsorbAll(start, [first] + between), d);
  }

  lemma NothingAbsorbed(b: Batch)
    ensures AbsorbAll(b, []) == b
  {
  }

  /** A delta that was taken in is the last frame, and its stream's open one. */
  lemma FirstIsLast(b: Batch, d: Event)
    requires InStream(d) && d.id <= 0
    ensures
      var after := Absorb(b, d).list;
      after != [] && Item(after, KeyOf(d).value) == Some(after[|after| - 1])
  {
    var k := KeyOf(d).value;
    var landed := Landed(Item(b.list, k), NewestDurable(b.seen + [d], d.session), d);
    assert !IsDuplicate(b.seen, d) && KeyOf(landed) == Some(k);
    DropSnoc(Drop(b.list, k), landed, k);
    hide Item, Drop, KeyOf, InStream, IsDuplicate, NewestDurable, Landed;
  }

  /** Two deltas become one frame if and only if they are of one stream. */
  lemma TwoDeltasOneFrame(a: Event, b: Event)
    requires IsDelta(a.kind) && IsDelta(b.kind) && a.id <= 0 && b.id <= 0
    ensures |Merged([], [a, b])| == 1 <==> SameStream(a, b)
  {
    KeyIsStream(a);
    KeyIsStream(b);
    assert [a] + [b] == [a, b];
    var start := Batch([], []);
    NothingAbsorbed(start);
    AbsorbLast(start, [], a);
    assert [] + [a] == [a];
    AbsorbLast(start, [a], b);
    var one := Absorb(start, a).list;
    assert |one| == 1 && KeyOf(one[0]) == KeyOf(a) && one[..0] == [];
    hide KeyOf, InStream, SameStream, Merge, Open;
    assert IsDuplicate(Absorb(start, a).seen, b) == false;
    if KeyOf(b).Some? && KeyOf(b) == KeyOf(a) {
      assert SameStream(a, b) by {
        KeysAreStreams(a, b);
      }
    } else {
      assert !SameStream(a, b) by {
        KeysAreStreams(a, b);
      }
    }
  }

  lemma KeysAreStreams(a: Event, b: Event)
    ensures SameStream(a, b) <==> KeyOf(a).Some? && KeyOf(a) == KeyOf(b)
  {
    KeyIsStream(a);
    KeyIsStream(b);
  }
}
