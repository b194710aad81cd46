/**
 * What a merged frame shows: the end of everything its open run streamed, held
 * at the place in the durable order where the run began.
 */
module OpenRuns {
  import opened Wrappers
  import opened AgentEvents
  import opened BatchLaws

  /** Everything the frames of `k` said, in order. */
  function Streamed(frames: seq<Event>, k: MergeKey): string {
    if frames == [] then ""
    else
      var n := |frames| - 1;
      Streamed(frames[..n], k) + if KeyOf(frames[n]) == Some(k) then TextOf(frames[n]) else ""
  }

  /** The last text a frame of `k` carried. */
  function LatestText(frames: seq<Event>, k: MergeKey): string {
    if frames == [] then ""
    else
      var n := |frames| - 1;
      if KeyOf(frames[n]) == Some(k) && frames[n].text.Some? then frames[n].text.value
      else LatestText(frames[..n], k)
  }

  /** The fields of `data` the frames of `k` set, the latest value of each. */
  function LatestData(frames: seq<Event>, k: MergeKey): map<string, string> {
    if frames == [] then map[]
    else
      var n := |frames| - 1;
      LatestData(frames[..n], k) + if KeyOf(frames[n]) == Some(k) then frames[n].data else map[]
  }

  predicate NeverCloses(frames: seq<Event>, k: MergeKey) {
    forall i :: 0 <= i < |frames| ==> !Closes(frames[i], k)
  }

  lemma MergedStep(current: seq<Event>, incoming: seq<Event>, e: Event)
    requires AllTransient(current) && AllTransient(incoming) && IsTransient(e)
    ensures
      var list := Merged(current, incoming);
      Merged(current, incoming + [e]) ==
        if IsDuplicate(list, e) then list else Place(list, NewestDurable(list + [e], e.session), e)
  {
    BatchSplits(current, incoming, [e]);
    var list := Merged(current, incoming);
    assert [e][..0] == [];
    assert AbsorbAll(Batch(list, list), []) == Batch(list, list);
  }

  lemma KeyShape(e: Event)
    ensures KeyOf(e).Some? ==> KeyOf(e).value.session == e.session && KeyOf(e).value.kind == e.kind && IsMergeable(e.kind)
    ensures forall newest, previous :: KeyOf(Landed(previous, newest, e)) == KeyOf(e)
  {
  }

  /** The open frame of `k` after one more event that does not close it. */
  lemma ItemAfter(current: seq<Event>, incoming: seq<Event>, e: Event, k: MergeKey)
    requires AllTransient(current) && AllTransient(incoming) && IsTransient(e) && !Closes(e, k)
    ensures
      var list := Merged(current, incoming);
      Item(Merged(current, incoming + [e]), k) ==
        if KeyOf(e) == Some(k) then Some(Landed(Item(list, k), NewestDurable(list, k.session), e)) else Item(list, k)
  {
    hide AbsorbAll, Drop, Item, NewestDurable, ClosedItem, Landed, KeyOf;
    var list := Merged(current, incoming);
    MergedStep(current, incoming, e);
    if KeyOf(e) == Some(k) {
      KeyShape(e);
      NewestSnoc(list, e, e.session);
      DropSnoc(Drop(list, k), Landed(Item(list, k), NewestDurable(list, k.session), e), k);
    } else {
      PlaceSkips(list, NewestDurable(list + [e], e.session), e, k);
    }
  }

  /** `frame` shows the run: its end, its latest data, and the anchor it began with. */
  ghost predicate Shows(frame: Event, run: seq<Event>, k: MergeKey, anchor: Option<int>) {
    && TextOf(frame) == Tail(if IsAdditive(k.kind) then Streamed(run, k) else LatestText(run, k))
    && frame.data == LatestData(run, k)
    && frame.causalAnchor == anchor
  }

  lemma {:induction false} ShowsFirst(newest: Option<int>, first: Event, k: MergeKey)
    requires KeyOf(first) == Some(k) && IsTransient(first)
    ensures Shows(Open(newest, first), [first], k, if newest.Some? then newest else first.causalAnchor)
  {
    assert [first][..0] == [];
    assert Streamed([first], k) == TextOf(first);
    assert LatestText([first], k) == TextOf(first);
  }

  lemma RunSnoc(run: seq<Event>, e: Event, k: MergeKey)
    ensures KeyOf(e) == Some(k) ==>
      && Streamed(run + [e], k) == Streamed(run, k) + TextOf(e)
      && LatestText(run + [e], k) == e.text.Or(LatestText(run, k))
      && LatestData(run + [e], k) == LatestData(run, k) + e.data
    ensures KeyOf(e) != Some(k) ==>
      && Streamed(run + [e], k) == Streamed(run, k)
      && LatestText(run + [e], k) == LatestText(run, k)
      && LatestData(run + [e], k) == LatestData(run, k)
  {
    assert (run + [e])[..|run|] == run;
    assert Streamed(run, k) + "" == Streamed(run, k);
  }

  lemma {:induction false} ShowsNext(frame: Event, run: seq<Event>, e: Event, k: MergeKey, anchor: Option<int>)
    requires Shows(frame, run, k, anchor)
    ensures KeyOf(e) == Some(k) ==> Shows(Merge(frame, e), run + [e], k, anchor)
    ensures KeyOf(e) != Some(k) ==> Shows(frame, run + [e], k, anchor)
  {
    RunSnoc(run, e, k);
    if KeyOf(e) == Some(k) {
      if IsAdditive(k.kind) {
        TailTail(Streamed(run, k), TextOf(e));
      } else {
        TailTail("", LatestText(run, k));
        assert "" + Tail(LatestText(run, k)) == Tail(LatestText(run, k)) && "" + LatestText(run, k) == LatestText(run, k);
      }
    }
  }

  /** The frame a run holds open, from the event `first` that opened it. */
  lemma {:induction false} OpenFrame(current: seq<Event>, before: seq<Event>, first: Event, after: seq<Event>, k: MergeKey)
    requires AllTransient(current) && AllTransient(before) && IsTransient(first) && AllTransient(after)
    requires KeyOf(first) == Some(k) && NeverCloses(after, k)
    requires Item(Merged(current, before), k).None?
    ensures
      var frame := Item(Merged(current, before + [first] + after), k);
      var newest := NewestDurable(Merged(current, before), k.session);
      frame.Some? && Shows(frame.value, [first] + after, k, if newest.Some? then newest else first.causalAnchor)
    decreases |after|
  {
    var newest := NewestDurable(Merged(current, before), k.session);
    var anchor := if newest.Some? then newest else first.causalAnchor;
    if after == [] {
      assert before + [first] + after == before + [first];
      assert [first] + after == [first];
      ItemAfter(current, before, first, k);
      ShowsFirst(newest, first, k);
    } else {
      var n := |after| - 1;
      OpenFrame(current, before, first, after[..n], k);
      assert before + [first] + after == before + [first] + after[..n] + [after[n]];
      assert [first] + after == [first] + after[..n] + [after[n]];
      ItemAfter(current, before + [first] + after[..n], after[n], k);
      ShowsNext(Item(Merged(current, before + [first] + after[..n]), k).value, [first] + after[..n], after[n], k, anchor);
    }
  }

  // ----- Where the promise stops -------------------------------------------

  function Frame(id: int, kind: Kind, text: Option<string>): Event {
    Event(id, id, "s", kind, Some("item"), text, map[], None, None, None, None, "now")
  }

  /** Progress frames that never carry text say nothing. */
  lemma {:induction false} NothingSaid(frames: seq<Event>, k: MergeKey)
    requires forall m :: 0 <= m < |frames| ==> !Speaks(frames[m], k)
    ensures LatestText(frames, k) == ""
  {
    if frames != [] {
      NothingSaid(frames[..|frames| - 1], k);
    }
  }

  lemma {:induction false} LatestConcat(first: seq<Event>, frames: seq<Event>, k: MergeKey)
    requires forall m :: 0 <= m < |frames| ==> !Speaks(frames[m], k)
    ensures LatestText(first + frames, k) == LatestText(first, k)
    decreases |frames|
  {
    if frames == [] {
      assert first + frames == first;
    } else {
      var n := |frames| - 1;
      assert (first + frames)[..|first| + n] == first + frames[..n];
      LatestConcat(first, frames[..n], k);
    }
  }

  lemma DeferredCloseNothing(frames: seq<Event>, k: MergeKey)
    requires AllDeferred(frames)
    ensures NeverCloses(frames, k) && AllTransient(frames)
  {
  }

  /** A queue of two or more frames of `k`, none of which carries text, ends up showing the empty text. */
  lemma MutedQueue(frames: seq<Event>, k: MergeKey)
    requires AllDeferred(frames) && |frames| >= 2
    requires IsSilent(frames[0], k) && IsSilent(frames[|frames| - 1], k)
    requires forall m :: 0 <= m < |frames| ==> !Speaks(frames[m], k)
    ensures Item(Merged([], frames), k).Some? && Item(Merged([], frames), k).value.text == Some("")
  {
    var n := |frames| - 1;
    var first, middle, last := frames[0], frames[1..n], frames[n];
    assert frames[..n] == [] + [first] + middle && frames == frames[..n] + [last] == [] + [first] + frames[1..];
    assert [first] + frames[1..] == frames && AllDeferred(middle) && AllDeferred(frames[1..]);
    assert Item(Merged([], []), k).None?;
    DeferredCloseNothing(frames, k);
    DeferredCloseNothing(middle, k);
    DeferredCloseNothing(frames[1..], k);
    NothingSaid(frames, k);
    assert KeyOf(first) == KeyOf(last) == Some(k) && IsTransient(first) && IsTransient(last) && !Closes(last, k);
    assert !IsAdditive(k.kind) && AllTransient([]) && AllTransient(frames[..n]);
    assert forall newest, p :: Landed(Some(p), newest, last).text.Some?;
    hide AbsorbAll, Merged, Item, AllDeferred, LatestText, Streamed, NewestDurable, NeverCloses, KeyOf, Closes, IsDeferred,
      AllTransient, IsTransient, Landed, Speaks, IsSilent, IsAdditive;
    OpenFrame([], [], first, middle, k);
    OpenFrame([], [], first, frames[1..], k);
    ItemAfter([], frames[..n], last, k);
  }

  /** Landing that queue on a window that shows text for `k` blanks it; landing its frames does not. */
  lemma MutedQueueBlanks(frames: seq<Event>, k: MergeKey) returns (current: seq<Event>)
    requires AllDeferred(frames) && |frames| >= 2
    requires IsSilent(frames[0], k) && IsSilent(frames[|frames| - 1], k)
    requires forall m :: 0 <= m < |frames| ==> !Speaks(frames[m], k)
    ensures AllTransient(current)
    ensures Merged(current, Merged([], frames)) != Merged(current, frames)
  {
    var shown := frames[0].(text := Some("a"));
    current := [shown];
    assert KeyOf(shown) == Some(k) && IsTransient(shown) && IsReplaceable(k.kind) && AllTransient(current);
    hide *;
    MutedQueue(frames, k);
    ShownStays(shown, frames, k);
    QueueIsDeferred(frames);
    LandsBlank(current, Merged([], frames), k);
  }

  lemma LandsBlank(current: seq<Event>, queue: seq<Event>, k: MergeKey)
    requires AllTransient(current) && AllDeferred(queue) && IsReplaceable(k.kind)
    requires Item(queue, k).Some? && Item(queue, k).value.text == Some("")
    ensures Item(Merged(current, queue), k).Some? && TextOf(Item(Merged(current, queue), k).value) == ""
  {
    hide AbsorbAll, Merged, Item, Drop, NewestDurable, AllTransient, AllDeferred;
    LandWithout(current, queue, k);
    DropDeferred(queue, k);
  }

  lemma ShowsText(frame: Event, run: seq<Event>, k: MergeKey)
    requires !IsAdditive(k.kind) && exists anchor :: Shows(frame, run, k, anchor)
    ensures TextOf(frame) == Tail(LatestText(run, k))
  {
  }

  lemma ShownStays(shown: Event, frames: seq<Event>, k: MergeKey)
    requires AllDeferred(frames) && KeyOf(shown) == Some(k) && IsTransient(shown) && shown.text == Some("a")
    requires IsReplaceable(k.kind)
    requires forall m :: 0 <= m < |frames| ==> !Speaks(frames[m], k)
    ensures Item(Merged([shown], frames), k).Some? && TextOf(Item(Merged([shown], frames), k).value) == "a"
  {
    assert [] + [shown] + frames == [shown] + frames;
    assert Item(Merged([], []), k).None?;
    assert AllTransient([]) && AllTransient([shown]) && !IsAdditive(k.kind);
    assert LatestText([shown], k) == "a" && Tail("a") == "a";
    assert Place([], None, shown) == [shown];
    assert NewestDurable([], shown.session) == None;
    hide *;
    DeferredCloseNothing(frames, k);
    OpenFrame([], [], shown, frames, k);
    BatchSplits([], [shown], frames);
    MergedOne([], shown);
    LatestConcat([shown], frames, k);
    ShowsText(Item(Merged([shown], frames), k).value, [shown] + frames, k);
  }

  ghost predicate Invisible(frames: seq<Event>) {
    forall current | AllTransient(current) :: Merged(current, Merged([], frames)) == Merged(current, frames)
  }

  /**
   * Holding frames back shows in no window, wherever a batch is cut, exactly
   * when no item sends two progress frames without a text between them.
   */
  lemma InvisibleIffSpeaksUp(frames: seq<Event>)
    requires AllDeferred(frames)
    ensures SpeaksUp(frames) <==> forall a, b | 0 <= a <= b <= |frames| :: Invisible(frames[a..b])
  {
    if SpeaksUp(frames) {
      forall a, b, current | 0 <= a <= b <= |frames| && AllTransient(current)
        ensures Merged(current, Merged([], frames[a..b])) == Merged(current, frames[a..b])
      {
        SpeaksUpSlice(frames, a, b);
        QueueIsInvisible(current, frames[a..b]);
      }
    } else {
      var i: nat, j: nat, k :| i < j < |frames| && IsSilent(frames[i], k) && IsSilent(frames[j], k) &&
                               !Parted(frames, i, j, k);
      var slice := frames[i..j + 1];
      assert slice[0] == frames[i] && slice[|slice| - 1] == frames[j];
      var current := MutedQueueBlanks(slice, k);
      assert !Invisible(frames[i..j + 1]);
    }
  }

  /** Two progress frames without text, queued together, blank the text already shown. */
  lemma TextlessProgressBlanks()
    ensures
      var shown := [Frame(0, ToolProgress, Some("Scanned"))];
      var e := Frame(0, ToolProgress, None);
      && Merged(shown, [e, e]) != Merged(shown, Merged([], [e, e]))
      && TextOf(Merged(shown, [e, e])[0]) == "Scanned"
      && TextOf(Merged(shown, Merged([], [e, e]))[0]) == ""
  {
    var p := Frame(0, ToolProgress, Some("Scanned"));
    var e := Frame(0, ToolProgress, None);
    hide AbsorbAll;
    MergedPair([p], e, e);
    MergedPair([], e, e);
    assert Merged([], [e, e]) == [Merge(e, e)];
    MergedOne([p], Merge(e, e));
  }

  lemma MergedOne(list: seq<Event>, e: Event)
    requires e.id <= 0 && e.sequence <= 0
    ensures Merged(list, [e]) == Place(list, NewestDurable(list, e.session), e)
  {
    assert [e][..0] == [];
    assert AbsorbAll(Batch(list, list), []) == Batch(list, list);
    NewestSnoc(list, e, e.session);
  }

  lemma MergedPair(list: seq<Event>, a: Event, b: Event)
    requires IsTransient(a) && IsTransient(b) && AllTransient(list) && IsMergeable(a.kind) && IsMergeable(b.kind)
    ensures Merged(list, [a, b]) ==
      var one := Place(list, NewestDurable(list, a.session), a);
      Place(one, NewestDurable(one, b.session), b)
  {
    assert [a] + [b] == [a, b];
    BatchSplits(list, [a], [b]);
    MergedOne(list, a);
    MergedOne(Merged(list, [a]), b);
  }

  /** A delta with a durable id is forgotten once it merged, so a replay is taken for new. */
  lemma DurableDeltaIsReplayed()
    ensures
      var a, b := Frame(1, MessageDelta, Some("a")), Frame(2, MessageDelta, Some("b"));
      && Merged([a], [b, a]) == [Merge(a, b)]
      && Merged(Merged([a], [b]), [a]) == [Merge(Merge(a, b), a)]
  {
    var a, b := Frame(1, MessageDelta, Some("a")), Frame(2, MessageDelta, Some("b"));
    assert [b, a][..1] == [b] && [b][..0] == [] && [a][..0] == [];
    var start := Batch([a], [a]);
    assert AbsorbAll(start, []) == start;
    var ab := Merge(a, b);
    assert Absorb(start, b) == Batch([ab], [a, b]);
    assert SameDurable(a, [a, b][0]);
    assert AbsorbAll(start, [b, a]) == Absorb(AbsorbAll(start, [b]), a);
    assert AbsorbAll(Batch([ab], [ab]), []) == Batch([ab], [ab]);
    assert Absorb(Batch([ab], [ab]), a) == Batch([Merge(ab, a)], [ab, a]);
  }
}
