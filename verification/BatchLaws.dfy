/**
 * Batching changes nothing: a batch may be cut anywhere, and events may be
 * merged among themselves before they land, without the window showing it.
 */
module BatchLaws {
  import opened Wrappers
  import opened AgentEvents

  /** Deltas and progress frames are never stored: they carry no id and no sequence. */
  predicate IsTransient(e: Event) {
    IsMergeable(e.kind) ==> e.id <= 0 && e.sequence <= 0
  }

  predicate AllTransient(list: seq<Event>) {
    forall i :: 0 <= i < |list| ==> IsTransient(list[i])
  }

  /** A frame the display may hold back. */
  predicate IsDeferred(e: Event) {
    IsMergeable(e.kind) && IsTransient(e)
  }

  predicate AllDeferred(list: seq<Event>) {
    forall i :: 0 <= i < |list| ==> IsDeferred(list[i])
  }

  /** A progress frame without text. */
  predicate IsSilent(e: Event, k: MergeKey) {
    KeyOf(e) == Some(k) && IsReplaceable(e.kind) && e.text.None?
  }

  predicate Speaks(e: Event, k: MergeKey) {
    KeyOf(e) == Some(k) && e.text.Some?
  }

  /** Between the two frames there is one of `k` with text, or an event that is not held back and so ends the batch. */
  ghost predicate Parted(frames: seq<Event>, i: nat, j: nat, k: MergeKey)
    requires i < j < |frames|
  {
    exists m: nat :: i < m < j && (Speaks(frames[m], k) || !IsDeferred(frames[m]))
  }

  /** Any two progress frames of an item without text are parted. */
  ghost predicate SpeaksUp(frames: seq<Event>) {
    forall i: nat, j: nat, k :: i < j < |frames| && IsSilent(frames[i], k) && IsSilent(frames[j], k) ==>
      Parted(frames, i, j, k)
  }

  lemma PartedSlice(frames: seq<Event>, from: nat, to: nat, i: nat, j: nat, k: MergeKey)
    requires i < j && from + j < to <= |frames| && Parted(frames, from + i, from + j, k)
    ensures Parted(frames[from..to], i, j, k)
  {
    hide Speaks, IsDeferred;
    var m: nat :| from + i < m < from + j && (Speaks(frames[m], k) || !IsDeferred(frames[m]));
    assert frames[from..to][m - from] == frames[m];
  }

  lemma {:induction false} SpeaksUpSlice(frames: seq<Event>, from: nat, to: nat)
    requires SpeaksUp(frames) && from <= to <= |frames|
    ensures SpeaksUp(frames[from..to])
  {
    hide Parted, IsSilent;
    var slice := frames[from..to];
    forall i: nat, j: nat, k | i < j < |slice| && IsSilent(slice[i], k) && IsSilent(slice[j], k)
      ensures Parted(slice, i, j, k)
    {
      assert slice[i] == frames[from + i] && slice[j] == frames[from + j];
      PartedSlice(frames, from, to, i, j, k);
    }
  }

  // ----- Cutting a batch ---------------------------------------------------

  lemma {:induction false} AbsorbConcat(b: Batch, first: seq<Event>, second: seq<Event>)
    ensures AbsorbAll(b, first + second) == AbsorbAll(AbsorbAll(b, first), second)
    decreases |second|
  {
    if second == [] {
      assert first + second == first;
    } else {
      var n := |second| - 1;
      assert (first + second)[..|first + second| - 1] == first + second[..n];
      AbsorbConcat(b, first, second[..n]);
    }
  }

  lemma DuplicateSnoc(seen: seq<Event>, x: Event, e: Event)
    ensures IsDuplicate(seen + [x], e) <==> IsDuplicate(seen, e) || SameDurable(e, x)
  {
    if IsDuplicate(seen, e) {
      var i :| 0 <= i < |seen| && SameDurable(e, seen[i]);
      assert SameDurable(e, (seen + [x])[i]);
    }
    assert (seen + [x])[|seen|] == x;
  }

  /** Taking an open frame out never touches the durable events. */
  lemma {:induction false} DropKeepsDurable(list: seq<Event>, k: MergeKey, e: Event, session: string)
    requires AllTransient(list)
    ensures AllTransient(Drop(list, k))
    ensures IsDuplicate(Drop(list, k), e) <==> IsDuplicate(list, e)
    ensures NewestDurable(Drop(list, k), session) == NewestDurable(list, session)
  {
    if list != [] {
      var n := |list| - 1;
      assert list == list[..n] + [list[n]];
      DuplicateSnoc(list[..n], list[n], e);
      hide KeyOf, Closes, SameDurable;
      if KeyOf(list[n]) != Some(k) && !Closes(list[n], k) {
        DropKeepsDurable(list[..n], k, e, session);
        DuplicateSnoc(Drop(list[..n], k), list[n], e);
        NewestSnoc(Drop(list[..n], k), list[n], session);
      }
    }
  }

  /** Placing a transient frame, or appending anything else, records exactly that event. */
  lemma PlaceKeepsDurable(list: seq<Event>, newest: Option<int>, x: Event, e: Event, session: string)
    requires AllTransient(list) && IsTransient(x)
    ensures AllTransient(Place(list, newest, x))
    ensures IsDuplicate(Place(list, newest, x), e) <==> IsDuplicate(list + [x], e)
    ensures NewestDurable(Place(list, newest, x), session) == NewestDurable(list + [x], session)
  {
    if KeyOf(x).Some? {
      var k := KeyOf(x).value;
      var landed := Landed(Item(list, k), newest, x);
      DropKeepsDurable(list, k, e, session);
      DuplicateSnoc(list, x, e);
      DuplicateSnoc(Drop(list, k), landed, e);
      NewestSnoc(list, x, session);
      NewestSnoc(Drop(list, k), landed, session);
    }
  }

  /** What was seen can be read back off the list itself. */
  ghost predicate SeenIsList(b: Batch) {
    && AllTransient(b.list)
    && (forall e: Event :: IsDuplicate(b.seen, e) <==> IsDuplicate(b.list, e))
    && (forall session: string :: NewestDurable(b.seen, session) == NewestDurable(b.list, session))
  }

  lemma AbsorbForgets(b: Batch, x: Event)
    requires SeenIsList(b) && IsTransient(x)
    ensures Absorb(b, x).list == Absorb(Batch(b.list, b.list), x).list
    ensures SeenIsList(Absorb(b, x))
  {
    NewestSnoc(b.seen, x, x.session);
    NewestSnoc(b.list, x, x.session);
    if !IsDuplicate(b.seen, x) {
      var newest := NewestDurable(b.seen + [x], x.session);
      var after := Absorb(b, x);
      forall e: Event
        ensures IsDuplicate(after.seen, e) <==> IsDuplicate(after.list, e)
      {
        PlaceKeepsDurable(b.list, newest, x, e, "");
        DuplicateSnoc(b.seen, x, e);
        DuplicateSnoc(b.list, x, e);
      }
      forall session: string
        ensures NewestDurable(after.seen, session) == NewestDurable(after.list, session)
      {
        PlaceKeepsDurable(b.list, newest, x, x, session);
        NewestSnoc(b.seen, x, session);
        NewestSnoc(b.list, x, session);
      }
      PlaceKeepsDurable(b.list, newest, x, x, "");
    }
  }

  lemma {:induction false} AbsorbAllForgets(b: Batch, incoming: seq<Event>)
    requires SeenIsList(b) && AllTransient(incoming)
    ensures AbsorbAll(b, incoming).list == Merged(b.list, incoming)
    ensures SeenIsList(AbsorbAll(b, incoming))
    decreases |incoming|
  {
    if incoming != [] {
      var n := |incoming| - 1;
      AbsorbAllForgets(b, incoming[..n]);
      AbsorbAllForgets(Batch(b.list, b.list), incoming[..n]);
      AbsorbForgets(AbsorbAll(b, incoming[..n]), incoming[n]);
      AbsorbForgets(AbsorbAll(Batch(b.list, b.list), incoming[..n]), incoming[n]);
    }
  }

  lemma MergedTransient(current: seq<Event>, incoming: seq<Event>)
    requires AllTransient(current) && AllTransient(incoming)
    ensures AllTransient(Merged(current, incoming))
  {
    AbsorbAllForgets(Batch(current, current), incoming);
  }

  /** One batch or two: the list is the same. */
  lemma BatchSplits(current: seq<Event>, first: seq<Event>, second: seq<Event>)
    requires AllTransient(current) && AllTransient(first) && AllTransient(second)
    ensures Merged(Merged(current, first), second) == Merged(current, first + second)
  {
    var b := Batch(current, current);
    AbsorbConcat(b, first, second);
    AbsorbAllForgets(b, first);
    AbsorbAllForgets(AbsorbAll(b, first), second);
  }

  // ----- Merging before landing --------------------------------------------

  lemma TailTail(a: string, b: string)
    ensures Tail(Tail(a) + b) == Tail(a + b) == Tail(a + Tail(b))
  {
    var n := MAX_MERGED_EVENT_TEXT;
    if |a| > n {
      assert Tail(a) + b == (a + b)[|a| - n..];
    }
    if |b| > n {
      assert Tail(b) == (a + b)[|a| + |b| - n..];
      assert (a + Tail(b))[|a| + n - n..] == Tail(b);
    }
  }

  lemma MapConcatAssociative<K, V>(a: map<K, V>, b: map<K, V>, c: map<K, V>)
    ensures (a + b) + c == a + (b + c)
  {
  }

  /**
   * Merging `e` into `q` and landing the result is landing `q` and then `e`,
   * except for two text-less snapshots in front of a frame that shows text.
   */
  lemma Fusion(previous: Option<Event>, newest: Option<int>, q: Event, e: Event)
    requires KeyOf(q).Some? && KeyOf(e) == KeyOf(q) && IsTransient(q) && IsTransient(e)
    ensures Merge(Landed(previous, newest, q), e) == Landed(previous, newest, Merge(q, e)) <==>
      !(IsReplaceable(e.kind) && q.text.None? && e.text.None? && previous.Some? && TextOf(previous.value) != "")
  {
    var left, right := Merge(Landed(previous, newest, q), e), Landed(previous, newest, Merge(q, e));
    if previous.None? {
      FusionOpens(newest, q, e);
      assert left.(text := None) == right.(text := None);
    } else {
      FusionMerges(previous.value, q, e);
      MapConcatAssociative(previous.value.data, q.data, e.data);
      hide MergedText, Tail;
      assert left.(text := None) == right.(text := None);
    }
  }

  lemma FusionMerges(p: Event, q: Event, e: Event)
    requires KeyOf(q).Some? && KeyOf(e) == KeyOf(q)
    ensures Tail(MergedText(Merge(p, q), e)) == Tail(MergedText(p, Merge(q, e))) <==>
      !(IsReplaceable(e.kind) && q.text.None? && e.text.None? && TextOf(p) != "")
  {
    if IsAdditive(e.kind) {
      assert TextOf(p) + TextOf(q) + TextOf(e) == TextOf(p) + (TextOf(q) + TextOf(e));
      TailTail(TextOf(p) + TextOf(q), TextOf(e));
      TailTail(TextOf(p), TextOf(q) + TextOf(e));
    }
  }

  lemma FusionOpens(newest: Option<int>, q: Event, e: Event)
    requires KeyOf(q).Some? && KeyOf(e) == KeyOf(q) && IsTransient(q) && IsTransient(e)
    ensures Merge(Open(newest, q), e).text == Open(newest, Merge(q, e)).text
  {
    var merged := Merge(q, e);
    assert |TextOf(merged)| <= MAX_MERGED_EVENT_TEXT;
    assert Open(newest, merged).text == merged.text;
    assert TextOf(Open(newest, q)) == Tail(TextOf(q));
    if IsAdditive(e.kind) {
      TailTail(TextOf(q), TextOf(e));
    }
  }

  /** Two different keys have two different open frames. */
  lemma {:induction false} DropsCommute(list: seq<Event>, j: MergeKey, k: MergeKey)
    requires j != k
    ensures Drop(Drop(list, j), k) == Drop(Drop(list, k), j)
    ensures Item(Drop(list, k), j) == Item(list, j)
    ensures Item(Drop(list, j), k) == Item(list, k)
  {
    if list != [] {
      var n := |list| - 1;
      var init, last := list[..n], list[n];
      assert list == init + [last];
      DropsCommute(init, j, k);
      DropSnoc(init, last, j);
      DropSnoc(init, last, k);
      DropSnoc(Drop(init, j), last, k);
      DropSnoc(Drop(init, k), last, j);
    }
  }

  /** Placing a frame of another key leaves the frame of `k` alone. */
  lemma PlaceSkips(list: seq<Event>, newest: Option<int>, b: Event, k: MergeKey)
    requires KeyOf(b) != Some(k) && !Closes(b, k)
    ensures Drop(Place(list, newest, b), k) == Place(Drop(list, k), newest, b)
    ensures Item(Place(list, newest, b), k) == Item(list, k)
  {
    if KeyOf(b).None? {
      DropSnoc(list, b, k);
    } else {
      var j := KeyOf(b).value;
      hide Drop, Item, Landed, KeyOf, ClosedItem;
      DropsCommute(list, j, k);
      DropSnoc(Drop(list, j), Landed(Item(list, j), newest, b), k);
    }
  }

  /** A deferred frame is never dropped and never moves the causal anchor. */
  lemma MergedSnoc(current: seq<Event>, incoming: seq<Event>, e: Event)
    requires AllTransient(current) && AllTransient(incoming) && IsDeferred(e)
    ensures Merged(current, incoming + [e]) ==
      Place(Merged(current, incoming), NewestDurable(Merged(current, incoming), e.session), e)
  {
    BatchSplits(current, incoming, [e]);
    var list := Merged(current, incoming);
    assert [e][..0] == [];
    assert AbsorbAll(Batch(list, list), []) == Batch(list, list);
    NewestSnoc(list, e, e.session);
  }

  lemma {:induction false} DeferredKeepNewest(current: seq<Event>, incoming: seq<Event>, session: string)
    requires AllTransient(current) && AllDeferred(incoming)
    ensures NewestDurable(Merged(current, incoming), session) == NewestDurable(current, session)
  {
    if incoming != [] {
      var n := |incoming| - 1;
      DeferredKeepNewest(current, incoming[..n], session);
      assert incoming == incoming[..n] + [incoming[n]];
      MergedSnoc(current, incoming[..n], incoming[n]);
      var list := Merged(current, incoming[..n]);
      MergedTransient(current, incoming[..n]);
      PlaceKeepsDurable(list, NewestDurable(list, incoming[n].session), incoming[n], incoming[n], session);
      NewestSnoc(list, incoming[n], session);
    }
  }

  lemma {:induction false} DropDeferred(queue: seq<Event>, k: MergeKey)
    requires AllDeferred(queue)
    ensures AllDeferred(Drop(queue, k))
    ensures Item(queue, k).Some? ==> IsDeferred(Item(queue, k).value) && KeyOf(Item(queue, k).value) == Some(k)
  {
    if queue != [] {
      DropDeferred(queue[..|queue| - 1], k);
    }
  }

  /** Lists that differ in the frame of `k` alone keep doing so. */
  lemma PlaceWithout(whole: seq<Event>, rest: seq<Event>, newest: Option<int>, b: Event, k: MergeKey)
    requires KeyOf(b) != Some(k) && !Closes(b, k)
    requires Drop(whole, k) == Drop(rest, k)
    ensures Drop(Place(whole, newest, b), k) == Drop(Place(rest, newest, b), k)
    ensures Item(Place(whole, newest, b), k) == Item(whole, k)
    ensures Item(Place(rest, newest, b), k) == Item(rest, k)
  {
    hide *;
    PlaceSkips(whole, newest, b, k);
    PlaceSkips(rest, newest, b, k);
  }

  /** `whole` is `rest` with `q` landed on it as the frame of `k`. */
  ghost predicate OnlyDiffers(whole: seq<Event>, rest: seq<Event>, newest: Option<int>, q: Event, k: MergeKey) {
    Drop(whole, k) == Drop(rest, k) && Item(whole, k) == Some(Landed(Item(rest, k), newest, q))
  }

  lemma DiffersFirst(current: seq<Event>, init: seq<Event>, q: Event, k: MergeKey)
    requires AllTransient(current) && AllDeferred(init) && IsDeferred(q) && KeyOf(q) == Some(k)
    ensures OnlyDiffers(Merged(current, init + [q]), Merged(current, init), NewestDurable(current, k.session), q, k)
  {
    var rest, newest := Merged(current, init), NewestDurable(current, k.session);
    var landed := Landed(Item(rest, k), newest, q);
    assert AllTransient(init) && KeyOf(landed) == Some(k) && q.session == k.session;
    assert Place(rest, newest, q) == Drop(rest, k) + [landed];
    hide AbsorbAll, Merged, Drop, Item, NewestDurable, Landed, KeyOf, Place, AllTransient, AllDeferred, IsDeferred;
    MergedSnoc(current, init, q);
    DeferredKeepNewest(current, init, k.session);
    DropSnoc(Drop(rest, k), landed, k);
  }

  lemma DiffersNext(current: seq<Event>, init: seq<Event>, without: seq<Event>, b: Event, q: Event, k: MergeKey)
    requires AllTransient(current) && AllDeferred(init) && AllDeferred(without) && IsDeferred(b) && KeyOf(b) != Some(k)
    requires OnlyDiffers(Merged(current, init), Merged(current, without), NewestDurable(current, k.session), q, k)
    ensures OnlyDiffers(Merged(current, init + [b]), Merged(current, without + [b]), NewestDurable(current, k.session), q, k)
  {
    assert AllTransient(init) && AllTransient(without) && !Closes(b, k);
    hide AbsorbAll, Drop, Item, NewestDurable, Landed, KeyOf, Closes, Place;
    MergedSnoc(current, init, b);
    MergedSnoc(current, without, b);
    DeferredKeepNewest(current, init, b.session);
    DeferredKeepNewest(current, without, b.session);
    PlaceWithout(Merged(current, init), Merged(current, without), NewestDurable(current, b.session), b, k);
  }

  /** Landing a queue with or without its frame of `k` differs in that frame alone. */
  lemma {:induction false} LandWithout(current: seq<Event>, queue: seq<Event>, k: MergeKey)
    requires AllTransient(current) && AllDeferred(queue) && Item(queue, k).Some?
    ensures AllDeferred(Drop(queue, k))
    ensures OnlyDiffers(Merged(current, queue), Merged(current, Drop(queue, k)),
                        NewestDurable(current, k.session), Item(queue, k).value, k)
  {
    DropDeferred(queue, k);
    var n := |queue| - 1;
    var init, last := queue[..n], queue[n];
    assert queue == init + [last];
    DropSnoc(init, last, k);
    assert !Closes(last, k) && AllDeferred(init);
    if KeyOf(last) == Some(k) {
      DiffersFirst(current, init, last, k);
    } else {
      LandWithout(current, init, k);
      DiffersNext(current, init, Drop(init, k), last, Item(queue, k).value, k);
    }
  }

  /** What the pending queue becomes when a deferred frame joins it. */
  lemma {:induction false} QueueStep(queue: seq<Event>, e: Event)
    requires AllDeferred(queue) && IsDeferred(e)
    ensures Merged(queue, [e]) == Place(queue, None, e)
    ensures AllDeferred(Merged(queue, [e]))
  {
    assert queue == Merged(queue, []);
    assert [] + [e] == [e];
    MergedSnoc(queue, [], e);
    DeferredHasNoDurable(queue, e.session);
    if KeyOf(e).Some? {
      DropDeferred(queue, KeyOf(e).value);
    }
  }

  lemma {:induction false} DeferredHasNoDurable(queue: seq<Event>, session: string)
    requires AllDeferred(queue)
    ensures NewestDurable(queue, session) == None
  {
    if queue != [] {
      DeferredHasNoDurable(queue[..|queue| - 1], session);
    }
  }

  /** A frame opened in the queue lands as if it had gone straight to the window. */
  lemma OpenedLands(list: seq<Event>, newest: Option<int>, e: Event)
    requires KeyOf(e).Some? && IsTransient(e)
    ensures Place(list, newest, Open(None, e)) == Place(list, newest, e)
  {
    var held := Open(None, e);
    var previous := Item(list, KeyOf(e).value);
    if previous.Some? && IsAdditive(e.kind) {
      TailTail(TextOf(previous.value), TextOf(e));
    }
    assert Landed(previous, newest, held) == Landed(previous, newest, e);
  }

  /** Queueing a deferred frame and then landing the queue is landing the queue and then the frame. */
  lemma QueueThenLand(current: seq<Event>, queue: seq<Event>, e: Event)
    requires AllTransient(current) && AllDeferred(queue) && IsDeferred(e)
    requires forall k :: IsSilent(e, k) && Item(queue, k).Some? ==> !IsSilent(Item(queue, k).value, k)
    ensures Merged(current, Merged(queue, [e])) == Merged(current, queue + [e])
  {
    hide AbsorbAll, Drop, Item, NewestDurable, ClosedItem;
    QueueStep(queue, e);
    MergedSnoc(current, queue, e);
    DeferredKeepNewest(current, queue, e.session);
    var newest := NewestDurable(current, e.session);
    if KeyOf(e).Some? {
      var k := KeyOf(e).value;
      OpenAtItem(queue, k);
      if Item(queue, k).None? {
        MergedSnoc(current, queue, Open(None, e));
        OpenedLands(Merged(current, queue), newest, e);
      } else {
        var q := Item(queue, k).value;
        LandWithout(current, queue, k);
        DropDeferred(queue, k);
        assert IsSilent(e, k) ==> !IsSilent(q, k);
        MergedSnoc(current, Drop(queue, k), Merge(q, e));
        DeferredKeepNewest(current, Drop(queue, k), e.session);
        Fusion(Item(Merged(current, Drop(queue, k)), k), newest, q, e);
      }
    }
  }

  lemma QueuedSilentStep(queue: seq<Event>, last: Event, k: MergeKey)
    requires IsDeferred(last)
    requires Item(Place(queue, None, last), k).Some? && IsSilent(Item(Place(queue, None, last), k).value, k)
    ensures KeyOf(last) == Some(k) ==> IsSilent(last, k)
    ensures KeyOf(last) != Some(k) ==> Item(Place(queue, None, last), k) == Item(queue, k)
  {
    hide Drop, Item, Tail;
    assert !Closes(last, k);
    hide ClosedItem;
    if KeyOf(last) == Some(k) {
      DropSnoc(Drop(queue, k), Landed(Item(queue, k), None, last), k);
    } else {
      hide *;
      PlaceSkips(queue, None, last, k);
    }
  }

  /** A queued progress frame without text is its item's only frame so far, or its last. */
  lemma {:induction false} QueuedSilent(frames: seq<Event>, k: MergeKey) returns (i: nat)
    requires AllDeferred(frames)
    requires Item(Merged([], frames), k).Some? && IsSilent(Item(Merged([], frames), k).value, k)
    ensures AllDeferred(Merged([], frames))
    ensures i < |frames| && IsSilent(frames[i], k) && forall m :: i < m < |frames| ==> KeyOf(frames[m]) != Some(k)
  {
    i := 0;
    QueueIsDeferred(frames);
    if frames != [] {
      var n := |frames| - 1;
      var init, last := frames[..n], frames[n];
      assert frames == init + [last];
      QueueIsDeferred(init);
      var queue := Merged([], init);
      assert AllTransient(init) && AllTransient([last]) && AllTransient([]) && !Closes(last, k);
      BatchSplits([], init, [last]);
      QueueStep(queue, last);
      assert AllDeferred(init) && IsDeferred(last);
      hide AbsorbAll, Merged, Drop, Item, Place, IsSilent, KeyOf, Closes, AllDeferred, AllTransient, IsDeferred;
      QueuedSilentStep(queue, last, k);
      if KeyOf(last) == Some(k) {
        i := n;
      } else {
        i := QueuedSilent(init, k);
      }
    }
  }

  lemma {:induction false} QueueIsDeferred(frames: seq<Event>)
    requires AllDeferred(frames)
    ensures AllDeferred(Merged([], frames))
  {
    if frames != [] {
      var n := |frames| - 1;
      QueueIsDeferred(frames[..n]);
      assert frames == frames[..n] + [frames[n]];
      assert AllTransient(frames[..n]) && AllTransient([frames[n]]) && AllTransient([]) && IsDeferred(frames[n]);
      hide *;
      BatchSplits([], frames[..n], [frames[n]]);
      QueueStep(Merged([], frames[..n]), frames[n]);
    }
  }

  lemma NotSilentTwice(init: seq<Event>, e: Event, k: MergeKey)
    requires AllDeferred(init) && SpeaksUp(init + [e]) && IsSilent(e, k)
    requires Item(Merged([], init), k).Some?
    ensures !IsSilent(Item(Merged([], init), k).value, k)
  {
    hide AbsorbAll, Item;
    var all := init + [e];
    assert all[|init|] == e && forall m :: 0 <= m < |init| ==> all[m] == init[m];
    if IsSilent(Item(Merged([], init), k).value, k) {
      var i := QueuedSilent(init, k);
    }
  }

  lemma QueueIsInvisibleNext(current: seq<Event>, init: seq<Event>, e: Event)
    requires AllTransient(current) && AllDeferred(init) && IsDeferred(e) && SpeaksUp(init + [e])
    requires Merged(current, Merged([], init)) == Merged(current, init)
    ensures Merged(current, Merged([], init + [e])) == Merged(current, init + [e])
  {
    var queue := Merged([], init);
    QueueIsDeferred(init);
    assert AllTransient(init) && AllTransient([e]) && AllTransient(queue) && AllTransient([]);
    forall k | IsSilent(e, k) && Item(queue, k).Some?
      ensures !IsSilent(Item(queue, k).value, k)
    {
      NotSilentTwice(init, e, k);
    }
    hide *;
    BatchSplits([], init, [e]);
    QueueStep(queue, e);
    QueueThenLand(current, queue, e);
    BatchSplits(current, queue, [e]);
    BatchSplits(current, init, [e]);
  }

  /** A queue of deferred frames, merged among themselves first, lands as the frames would one by one. */
  lemma {:induction false} QueueIsInvisible(current: seq<Event>, frames: seq<Event>)
    requires AllTransient(current) && AllDeferred(frames) && SpeaksUp(frames)
    ensures Merged(current, Merged([], frames)) == Merged(current, frames)
  {
    if frames == [] {
      assert Merged([], frames) == [] && Merged(current, frames) == current;
    } else {
      var n := |frames| - 1;
      var init := frames[..n];
      assert AllDeferred(init) && IsDeferred(frames[n]) && frames == init + [frames[n]];
      hide *;
      SpeaksUpSlice(frames, 0, n);
      assert frames[0..n] == init;
      QueueIsInvisible(current, init);
      QueueIsInvisibleNext(current, init, frames[n]);
    }
  }

  /** The same when an event that is not held back ends the batch. */
  lemma QueueWithLastIsInvisible(current: seq<Event>, frames: seq<Event>, last: Event)
    requires AllTransient(current) && AllDeferred(frames) && IsTransient(last) && KeyOf(last).None? && SpeaksUp(frames)
    ensures Merged([], frames + [last]) == Merged([], frames) + [last]
    ensures Merged(current, Merged([], frames + [last])) == Merged(current, frames + [last])
  {
    QueueIsInvisible(current, frames);
    QueueIsDeferred(frames);
    var queue := Merged([], frames);
    BatchSplits([], frames, [last]);
    assert [last][..0] == [];
    assert AbsorbAll(Batch(queue, queue), []) == Batch(queue, queue);
    assert !IsDuplicate(queue, last);
    BatchSplits(current, queue, [last]);
    BatchSplits(current, frames, [last]);
  }
}
