/** Which frames can be in the pending queue at once, whatever the clock does. */
module QueueMeetings {
  import opened Wrappers
  import opened InsertionMap
  import opened AgentEvents
  import opened BatchLaws
  import opened DisplayScheduler

  /** The first-content map once these events were pushed. No flush touches it. */
  function Content(events: seq<Event>): seq<Entry<string, bool>> {
    if events == [] then []
    else
      var n := |events| - 1;
      ContentNext(Content(events[..n]), events[n])
  }

  function ContentNext(content: seq<Entry<string, bool>>, e: Event): seq<Entry<string, bool>> {
    var announced := Announced(Initial.(firstContent := content), e);
    if IsVisible(e) then Put(announced, e.session, false) else announced
  }

  /** Event `m` is delivered before `push` returns, with everything that waited. */
  predicate Ends(events: seq<Event>, m: nat)
    requires m < |events|
  {
    IsImmediate(Initial.(firstContent := Content(events[..m])), events[m])
  }

  // ----- How many entries some frames make ---------------------------------

  function Keys(frames: seq<Event>): set<MergeKey> {
    set e | e in frames && KeyOf(e).Some? :: KeyOf(e).value
  }

  function Unkeyed(frames: seq<Event>): nat {
    if frames == [] then 0
    else Unkeyed(frames[..|frames| - 1]) + if KeyOf(frames[|frames| - 1]).None? then 1 else 0
  }

  /** One for every item, and one for every frame that belongs to none. */
  function Slots(frames: seq<Event>): nat {
    |Keys(frames)| + Unkeyed(frames)
  }

  lemma KeysSnoc(frames: seq<Event>, e: Event)
    ensures Keys(frames + [e]) == Keys(frames) + if KeyOf(e).Some? then {KeyOf(e).value} else {}
    ensures Unkeyed(frames + [e]) == Unkeyed(frames) + if KeyOf(e).None? then 1 else 0
  {
    hide KeyOf;
    assert (frames + [e])[..|frames|] == frames && e in frames + [e];
    assert forall x :: x in frames + [e] <==> x in frames || x == e;
  }

  lemma {:induction false} UnkeyedConcat(a: seq<Event>, b: seq<Event>)
    ensures Unkeyed(a + b) == Unkeyed(a) + Unkeyed(b)
    decreases |b|
  {
    if b == [] {
      assert a + b == a;
    } else {
      var n := |b| - 1;
      assert (a + b)[..|a| + n] == a + b[..n];
      UnkeyedConcat(a, b[..n]);
    }
  }

  /** Fewer frames make no more entries. */
  lemma FewerSlots(frames: seq<Event>, i: nat, j: nat)
    requires i <= j <= |frames|
    ensures Slots(frames[i..j]) <= Slots(frames)
  {
    assert frames == frames[..i] + frames[i..j] + frames[j..];
    UnkeyedConcat(frames[..i] + frames[i..j], frames[j..]);
    UnkeyedConcat(frames[..i], frames[i..j]);
    hide KeyOf, Unkeyed;
    assert forall e :: e in frames[i..j] ==> e in frames;
    SubsetIsSmaller(Keys(frames[i..j]), Keys(frames));
  }

  lemma SubsetIsSmaller(a: set<MergeKey>, b: set<MergeKey>)
    requires a <= b
    ensures |a| <= |b|
  {
    assert b == a + (b - a);
  }

  lemma PlaceSize(queue: seq<Event>, e: Event)
    ensures |Place(queue, None, e)| ==
      |queue| + if KeyOf(e).Some? && Item(queue, KeyOf(e).value).Some? then 0 else 1
  {
    if KeyOf(e).Some? {
      OpenAtItem(queue, KeyOf(e).value);
    }
    hide Drop, Item, OpenAt, KeyOf;
  }

  lemma PlaceItem(queue: seq<Event>, e: Event, k: MergeKey)
    requires IsDeferred(e)
    ensures Item(Place(queue, None, e), k).Some? <==> KeyOf(e) == Some(k) || Item(queue, k).Some?
  {
    assert !Closes(e, k);
    hide Drop, Item, ClosedItem;
    if KeyOf(e) == Some(k) {
      DropSnoc(Drop(queue, k), Landed(Item(queue, k), None, e), k);
    } else {
      PlaceSkips(queue, None, e, k);
    }
  }

  /** The queue has an entry for every item that spoke, and one for every frame of none. */
  ghost predicate HasSlots(queue: seq<Event>, frames: seq<Event>) {
    |queue| == Slots(frames) && forall k :: Item(queue, k).Some? <==> k in Keys(frames)
  }

  lemma SlotsNext(queue: seq<Event>, frames: seq<Event>, e: Event)
    requires HasSlots(queue, frames) && IsDeferred(e)
    ensures HasSlots(Place(queue, None, e), frames + [e])
  {
    hide Drop, Item, Place, KeyOf, Unkeyed, Keys, IsDeferred;
    KeysSnoc(frames, e);
    PlaceSize(queue, e);
    forall k
      ensures Item(Place(queue, None, e), k).Some? <==> k in Keys(frames + [e])
    {
      PlaceItem(queue, e, k);
    }
    if KeyOf(e).Some? && KeyOf(e).value in Keys(frames) {
      assert Keys(frames + [e]) == Keys(frames);
    }
  }

  lemma {:induction false} SlotsAreEntries(frames: seq<Event>)
    requires AllDeferred(frames)
    ensures HasSlots(Merged([], frames), frames)
  {
    if frames == [] {
      assert Merged([], frames) == [];
    } else {
      var n := |frames| - 1;
      var init, e := frames[..n], frames[n];
      assert frames == init + [e];
      assert AllTransient([]) && AllTransient(init) && AllTransient([e]) && AllDeferred(init) && IsDeferred(e);
      hide *;
      SlotsAreEntries(init);
      QueueIsDeferred(init);
      BatchSplits([], init, [e]);
      QueueStep(Merged([], init), e);
      SlotsNext(Merged([], init), init, e);
    }
  }

  // ----- Which frames never meet -------------------------------------------

  /** A text is between the frames, or the first of them has left the queue before the second one comes. */
  ghost predicate KeptApart(events: seq<Event>, i: nat, j: nat, k: MergeKey)
    requires i < j < |events|
  {
    || (exists m :: i < m < j && Speaks(events[m], k))
    || (exists m :: i <= m < j && Ends(events, m))
    || Slots(events[i..j]) >= MAX_PENDING_AGENT_EVENTS - 1
  }

  /** No two progress frames of an item can meet in the queue without a text between them. */
  ghost predicate NeverMeet(events: seq<Event>) {
    forall i: nat, j: nat, k :: i < j < |events| && IsSilent(events[i], k) && IsSilent(events[j], k) ==>
      KeptApart(events, i, j, k)
  }

  lemma EndsAlike(events: seq<Event>, n: nat, m: nat)
    requires m < n <= |events|
    ensures Ends(events[..n], m) == Ends(events, m)
  {
    assert events[..n][..m] == events[..m] && events[..n][m] == events[m];
  }

  lemma NeverMeetPrefix(events: seq<Event>, n: nat)
    requires NeverMeet(events) && n <= |events|
    ensures NeverMeet(events[..n])
  {
    var init := events[..n];
    hide Ends, IsSilent, Speaks, Slots;
    forall i: nat, j: nat, k | i < j < n && IsSilent(init[i], k) && IsSilent(init[j], k)
      ensures KeptApart(init, i, j, k)
    {
      assert KeptApart(events, i, j, k);
      assert init[i..j] == events[i..j];
      if m: nat :| i < m < j && Speaks(events[m], k) {
        assert Speaks(init[m], k);
      } else if m: nat :| i <= m < j && Ends(events, m) {
        EndsAlike(events, n, m);
      }
    }
  }

  /** An event that is not held back ends its batch, so texts and such events between are enough. */
  lemma SpeakingUpNeverMeets(events: seq<Event>)
    requires AllTransient(events) && SpeaksUp(events)
    ensures NeverMeet(events)
  {
    forall i: nat, j: nat, k | i < j < |events| && IsSilent(events[i], k) && IsSilent(events[j], k)
      ensures KeptApart(events, i, j, k)
    {
      assert Parted(events, i, j, k);
      var m: nat :| i < m < j && (Speaks(events[m], k) || !IsDeferred(events[m]));
      if !Speaks(events[m], k) {
        assert IsTransient(events[m]);
        assert Ends(events, m);
      }
    }
  }

  /** From event `a` on all may wait together: none before the last ended the batch, and there was room. */
  ghost predicate WaitTogether(events: seq<Event>, a: nat)
    requires a <= |events|
  {
    a < |events| ==>
      && (forall m :: a <= m < |events| - 1 ==> !Ends(events, m))
      && Slots(events[a..|events| - 1]) < MAX_PENDING_AGENT_EVENTS - 1
  }

  lemma SliceOfSlice<T>(s: seq<T>, a: nat, b: nat, i: nat, j: nat)
    requires a + j <= b <= |s| && i <= j
    ensures s[a..b][i..j] == s[a + i..a + j]
  {
    assert |s[a..b][i..j]| == j - i;
    forall x | 0 <= x < j - i
      ensures s[a..b][i..j][x] == s[a + i..a + j][x]
    {
    }
  }

  lemma TogetherHasText(events: seq<Event>, a: nat, i: nat, j: nat, k: MergeKey) returns (m: nat)
    requires a <= i < j < |events| && WaitTogether(events, a) && KeptApart(events, i, j, k)
    ensures i < m < j && Speaks(events[m], k)
  {
    hide Ends, Speaks, Slots;
    var n := |events| - 1;
    SliceOfSlice(events, a, n, i - a, j - a);
    FewerSlots(events[a..n], i - a, j - a);
    m :| i < m < j && Speaks(events[m], k);
  }

  /** What waits together speaks up. */
  lemma TogetherSpeaksUp(events: seq<Event>, a: nat)
    requires NeverMeet(events) && a <= |events| && WaitTogether(events, a)
    ensures SpeaksUp(events[a..])
  {
    var queue := events[a..];
    hide WaitTogether, KeptApart, IsSilent, Parted;
    forall i: nat, j: nat, k | i < j < |queue| && IsSilent(queue[i], k) && IsSilent(queue[j], k)
      ensures Parted(queue, i, j, k)
    {
      assert queue[i] == events[a + i] && queue[j] == events[a + j];
      assert KeptApart(events, a + i, a + j, k);
      TogetherParts(events, a, i, j, k);
    }
  }

  lemma TogetherParts(events: seq<Event>, a: nat, i: nat, j: nat, k: MergeKey)
    requires a + j < |events| && i < j && WaitTogether(events, a) && KeptApart(events, a + i, a + j, k)
    ensures Parted(events[a..], i, j, k)
  {
    var m := TogetherHasText(events, a, a + i, a + j, k);
    hide WaitTogether, KeptApart, Speaks, IsDeferred;
    assert events[a..][m - a] == events[m];
  }
}
