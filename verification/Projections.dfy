/** Merging the stored and the live projection of one conversation. */
module Projections {
  import opened Wrappers
  import opened Sorting

  /** Identities and keys are compared for equality only. */
  type Id = nat

  datatype Kind = Message(isUser: bool) | Reasoning | OtherRow

  /**
   * A row. `words` is its trimmed text, `own` the identity its ids give it, and
   * `identity` the one it was stamped with, which comes first.
   */
  datatype Item = Item(
    key: Id,
    kind: Kind,
    words: string,
    streaming: bool,
    named: bool,
    own: Id,
    identity: Option<Id>,
    sequence: int)

  datatype Shadow = Shadow(sequence: int, identity: Id)

  const STREAMED_PREFIX_FLOOR := 24

  function IdentityOf(item: Item): Id {
    item.identity.Or(item.own)
  }

  /** The text two projections of one row would share. */
  function ShadowText(item: Item): Option<string> {
    if (item.kind.Reasoning? || item.kind == Message(false)) && item.words != "" then Some(item.words) else None
  }

  function ShadowOf(item: Item): Shadow {
    Shadow(item.sequence, IdentityOf(item))
  }

  function Adopt(item: Item, shadow: Shadow): Item {
    if item.identity == Some(shadow.identity) then item else item.(identity := Some(shadow.identity))
  }

  function Identities(items: seq<Item>): set<Id> {
    set item | item in items :: IdentityOf(item)
  }

  function Texts(items: seq<Item>): set<string> {
    set item | item in items && ShadowText(item).Some? :: ShadowText(item).value
  }

  /** Where each live identity sits; the last row of an identity counts. */
  function Anchors(live: seq<Item>): map<Id, int> {
    if live == [] then map[]
    else Anchors(live[..|live| - 1])[IdentityOf(live[|live| - 1]) := live[|live| - 1].sequence]
  }

  /** A live row that is matched on its text: still streaming, or without an id. */
  predicate IsShadowed(item: Item) {
    item.streaming || !item.named
  }

  /** The first live row of each text that may be matched on its text. */
  function Shadows(live: seq<Item>): map<string, Shadow> {
    if live == [] then map[]
    else
      var last, before := live[|live| - 1], Shadows(live[..|live| - 1]);
      var text := ShadowText(last);
      if IsShadowed(last) && text.Some? && text.value !in before then before[text.value := ShadowOf(last)] else before
  }

  /** The last stored thought. */
  function NewestThought(stored: seq<Item>): (at: Option<nat>)
    ensures at.Some? ==> at.value < |stored| && stored[at.value].kind.Reasoning?
    ensures at.None? ==> forall i :: 0 <= i < |stored| ==> !stored[i].kind.Reasoning?
  {
    if stored == [] then None
    else if stored[|stored| - 1].kind.Reasoning? then Some(|stored| - 1)
    else NewestThought(stored[..|stored| - 1])
  }

  /** A live row that is still streaming into the stored thought `into`. */
  predicate StreamsInto(item: Item, ids: set<Id>, into: Option<string>) {
    && IdentityOf(item) !in ids && item.streaming
    && ShadowText(item).Some? && |item.words| >= STREAMED_PREFIX_FLOOR
    && into.Some? && item.words <= into.value
  }

  /** The last live row that streams into it. */
  function Arriving(live: seq<Item>, ids: set<Id>, into: Option<string>): Option<Shadow> {
    if live == [] then None
    else if StreamsInto(live[|live| - 1], ids, into) then Some(ShadowOf(live[|live| - 1]))
    else Arriving(live[..|live| - 1], ids, into)
  }

  /** Everything both loops over the rows look things up in. */
  datatype Tables = Tables(
    ids: set<Id>,
    texts: set<string>,
    anchors: map<Id, int>,
    shadows: map<string, Shadow>,
    newest: Option<nat>,
    arriving: Option<Shadow>)

  function TablesOf(stored: seq<Item>, live: seq<Item>): Tables {
    var newest := NewestThought(stored);
    var into := if newest.Some? then Some(stored[newest.value].words) else None;
    Tables(Identities(stored), Texts(stored), Anchors(live), Shadows(live), newest, Arriving(live, Identities(stored), into))
  }

  function ShadowFor(t: Tables, item: Item, isNewest: bool): Option<Shadow> {
    var text := ShadowText(item);
    var byText := if text.Some? && text.value in t.shadows then Some(t.shadows[text.value]) else None;
    if IdentityOf(item) in t.anchors then None
    else if isNewest && t.arriving.Some? then t.arriving
    else byText
  }

  /** A stored row, moved up to where its live twin sits and answering to its identity. */
  function Placed(t: Tables, item: Item, isNewest: bool): Item {
    var shadow := ShadowFor(t, item, isNewest);
    var anchor :=
      if IdentityOf(item) in t.anchors then Some(t.anchors[IdentityOf(item)])
      else if shadow.Some? then Some(shadow.value.sequence)
      else None;
    var anchored := if anchor.Some? && anchor.value < item.sequence then item.(sequence := anchor.value) else item;
    if shadow.None? then anchored else Adopt(anchored, shadow.value)
  }

  /** A live row the stored rows already show. */
  predicate IsShown(t: Tables, item: Item) {
    || IdentityOf(item) in t.ids
    || (IsShadowed(item) && ShadowText(item).Some? && ShadowText(item).value in t.texts)
    || (t.arriving.Some? && IdentityOf(item) == t.arriving.value.identity)
  }

  function PlacedAll(t: Tables, stored: seq<Item>): (placed: seq<Item>)
    ensures |placed| == |stored|
  {
    seq(|stored|, i requires 0 <= i < |stored| => Placed(t, stored[i], t.newest == Some(i)))
  }

  function Unshown(t: Tables, live: seq<Item>): seq<Item> {
    if live == [] then []
    else Unshown(t, live[..|live| - 1]) + if IsShown(t, live[|live| - 1]) then [] else [live[|live| - 1]]
  }

  function BySequence(): (Item, Item) -> bool {
    (a: Item, b: Item) => a.sequence <= b.sequence
  }

  function Merged(stored: seq<Item>, live: seq<Item>): seq<Item> {
    var t := TablesOf(stored, live);
    Sort(BySequence(), PlacedAll(t, stored) + Unshown(t, live))
  }

  // ----- The loops ---------------------------------------------------------

  method BuildTables(stored: seq<Item>, live: seq<Item>) returns (t: Tables)
    ensures t == TablesOf(stored, live)
  {
    var ids := set item | item in stored :: IdentityOf(item);
    var anchors: map<Id, int> := map[];
    var shadows: map<string, Shadow> := map[];
    for i := 0 to |live|
      invariant anchors == Anchors(live[..i]) && shadows == Shadows(live[..i])
    {
      assert live[..i + 1][..i] == live[..i];
      anchors := anchors[IdentityOf(live[i]) := live[i].sequence];
      var text := ShadowText(live[i]);
      if IsShadowed(live[i]) && text.Some? && text.value !in shadows {
        shadows := shadows[text.value := ShadowOf(live[i])];
      }
    }
    assert live[..|live|] == live;
    var texts: set<string> := {};
    var newest: Option<nat> := None;
    for i := 0 to |stored|
      invariant texts == Texts(stored[..i]) && newest == NewestThought(stored[..i])
    {
      assert stored[..i + 1] == stored[..i] + [stored[i]] && stored[..i + 1][..i] == stored[..i];
      var text := ShadowText(stored[i]);
      if text.Some? {
        texts := texts + {text.value};
      }
      if stored[i].kind.Reasoning? {
        newest := Some(i);
      }
    }
    assert stored[..|stored|] == stored;
    var into := if newest.Some? then Some(stored[newest.value].words) else None;
    var arriving := FindArriving(live, ids, into);
    t := Tables(ids, texts, anchors, shadows, newest, arriving);
  }

  method FindArriving(live: seq<Item>, ids: set<Id>, into: Option<string>) returns (arriving: Option<Shadow>)
    ensures arriving == Arriving(live, ids, into)
  {
    arriving := None;
    for i := 0 to |live|
      invariant arriving == Arriving(live[..i], ids, into)
    {
      assert live[..i + 1][..i] == live[..i];
      if StreamsInto(live[i], ids, into) {
        arriving := Some(ShadowOf(live[i]));
      }
    }
    assert live[..|live|] == live;
  }

  method MergeProjections(stored: seq<Item>, live: seq<Item>) returns (items: seq<Item>)
    ensures items == Merged(stored, live)
  {
    hide Placed, IsShown, Sort, TablesOf;
    var t := BuildTables(stored, live);
    items := PlacedAll(t, stored);
    for i := 0 to |live|
      invariant items == PlacedAll(t, stored) + Unshown(t, live[..i])
    {
      assert live[..i + 1][..i] == live[..i];
      if !IsShown(t, live[i]) {
        items := items + [live[i]];
      }
    }
    assert live[..|live|] == live;
    items := Sort(BySequence(), items);
  }

  // ----- Nothing is lost ---------------------------------------------------

  /** The same row, possibly earlier and under another identity. */
  predicate Survives(stored: Item, shown: Item) {
    shown.sequence <= stored.sequence && stored == shown.(sequence := stored.sequence, identity := stored.identity)
  }

  lemma PlacedSurvives(t: Tables, item: Item, isNewest: bool)
    ensures Survives(item, Placed(t, item, isNewest))
  {
  }

  lemma BySequenceIsTotal()
    ensures TotalPreorder(BySequence())
  {
  }

  /**
   * The output is every stored row once, no later than it was and otherwise the
   * same, with every live row that is not yet shown, in order of sequence.
   */
  lemma MergeKeepsStored(stored: seq<Item>, live: seq<Item>)
    ensures
      var t := TablesOf(stored, live);
      && multiset(Merged(stored, live)) == multiset(PlacedAll(t, stored)) + multiset(Unshown(t, live))
      && (forall i :: 0 <= i < |stored| ==> Survives(stored[i], PlacedAll(t, stored)[i]))
      && (forall i, j :: 0 <= i < j < |Merged(stored, live)| ==> Merged(stored, live)[i].sequence <= Merged(stored, live)[j].sequence)
  {
    var t := TablesOf(stored, live);
    hide TablesOf, Placed, Unshown, Survives;
    forall i | 0 <= i < |stored|
      ensures Survives(stored[i], PlacedAll(t, stored)[i])
    {
      PlacedSurvives(t, stored[i], t.newest == Some(i));
    }
    BySequenceIsTotal();
    SortSorts(BySequence(), PlacedAll(t, stored) + Unshown(t, live));
  }

  lemma {:induction false} UnshownKeeps(t: Tables, live: seq<Item>, item: Item)
    ensures item in Unshown(t, live) <==> item in live && !IsShown(t, item)
  {
    hide IsShown;
    if live != [] {
      UnshownKeeps(t, live[..|live| - 1], item);
      assert live == live[..|live| - 1] + [live[|live| - 1]];
    }
  }

  /** Some stored row says what the live row says: by identity, by its whole text, or as a thought it opens. */
  ghost predicate IsCovered(stored: seq<Item>, item: Item) {
    exists s :: s in stored && CoveredBy(s, item)
  }

  predicate CoveredBy(s: Item, item: Item) {
    || IdentityOf(s) == IdentityOf(item)
    || (ShadowText(item).Some? && ShadowText(s) == ShadowText(item))
    || (s.kind.Reasoning? && item.streaming && |item.words| >= STREAMED_PREFIX_FLOOR && item.words <= s.words)
  }

  lemma {:induction false} ArrivingIsLive(live: seq<Item>, ids: set<Id>, into: Option<string>)
    requires Arriving(live, ids, into).Some?
    ensures exists item :: item in live && StreamsInto(item, ids, into) && ShadowOf(item) == Arriving(live, ids, into).value
  {
    var n := |live| - 1;
    if StreamsInto(live[n], ids, into) {
      assert live[n] in live;
    } else {
      ArrivingIsLive(live[..n], ids, into);
      var item :| item in live[..n] && StreamsInto(item, ids, into) && ShadowOf(item) == Arriving(live, ids, into).value;
      assert item in live;
    }
  }

  ghost predicate DistinctIdentities(live: seq<Item>) {
    forall a, b :: a in live && b in live && IdentityOf(a) == IdentityOf(b) ==> a == b
  }

  /** The row answers to the identity of the one that streams into a stored thought, so it is dropped with it. */
  predicate IsSwallowed(t: Tables, item: Item) {
    t.arriving.Some? && IdentityOf(item) == t.arriving.value.identity
  }

  /** A stored row has the row's text, or is a thought the row is streaming into. */
  ghost predicate IsRepeated(stored: seq<Item>, item: Item) {
    || (ShadowText(item).Some? && ShadowText(item).value in Texts(stored))
    || exists s :: s in stored && s.kind.Reasoning? && item.streaming && |item.words| >= STREAMED_PREFIX_FLOOR && item.words <= s.words
  }

  predicate NoStoredKey(stored: seq<Item>, item: Item) {
    forall s :: s in stored ==> s.key != item.key
  }

  lemma ArrivingIsNew(stored: seq<Item>, live: seq<Item>)
    ensures
      var t := TablesOf(stored, live);
      t.arriving.Some? ==> t.arriving.value.identity !in t.ids
  {
    var t := TablesOf(stored, live);
    var into := if t.newest.Some? then Some(stored[t.newest.value].words) else None;
    if t.arriving.Some? {
      ArrivingIsLive(live, t.ids, into);
    }
  }

  lemma SwallowedCoverage(stored: seq<Item>, live: seq<Item>, item: Item)
    requires IsSwallowed(TablesOf(stored, live), item)
    ensures IsCovered(stored, item) <==> IsRepeated(stored, item)
  {
    ArrivingIsNew(stored, live);
    assert TablesOf(stored, live).ids == Identities(stored);
    hide TablesOf;
    if IsCovered(stored, item) {
      var s :| s in stored && CoveredBy(s, item);
      assert IdentityOf(s) in Identities(stored);
      assert IsRepeated(stored, item);
    } else if IsRepeated(stored, item) {
      RepeatedIsCovered(stored, item);
    }
  }

  lemma RepeatedIsCovered(stored: seq<Item>, item: Item)
    requires IsRepeated(stored, item)
    ensures IsCovered(stored, item)
  {
    if ShadowText(item).Some? && ShadowText(item).value in Texts(stored) {
      var s :| s in stored && ShadowText(s).Some? && ShadowText(s).value == ShadowText(item).value;
      assert CoveredBy(s, item);
    } else {
      var s :| s in stored && s.kind.Reasoning? && item.streaming && |item.words| >= STREAMED_PREFIX_FLOOR && item.words <= s.words;
      assert CoveredBy(s, item);
    }
  }

  lemma InMerged(stored: seq<Item>, live: seq<Item>, item: Item)
    ensures
      var t := TablesOf(stored, live);
      item in Merged(stored, live) <==> item in PlacedAll(t, stored) || (item in live && !IsShown(t, item))
  {
    var t := TablesOf(stored, live);
    hide TablesOf, IsShown, PlacedAll;
    UnshownKeeps(t, live, item);
    var all := PlacedAll(t, stored) + Unshown(t, live);
    assert item in multiset(all) <==> item in all;
    assert item in multiset(Merged(stored, live)) <==> item in Merged(stored, live);
  }

  lemma PlacedKeepsKeys(t: Tables, stored: seq<Item>, item: Item)
    requires NoStoredKey(stored, item)
    ensures item !in PlacedAll(t, stored)
  {
    forall i | 0 <= i < |stored|
      ensures PlacedAll(t, stored)[i].key != item.key
    {
      PlacedSurvives(t, stored[i], t.newest == Some(i));
      assert stored[i] in stored;
    }
  }

  /**
   * A live row is shown unchanged or covered by a stored one if and only if it is
   * not dropped for an identity it shares with the arriving row, or is repeated
   * by a stored row all the same.
   */
  lemma ShownOrCoveredIff(stored: seq<Item>, live: seq<Item>, item: Item)
    requires item in live
    ensures
      var shown := item in Merged(stored, live) || IsCovered(stored, item);
      var spared := IsSwallowed(TablesOf(stored, live), item) ==> IsRepeated(stored, item);
      (spared ==> shown) && (NoStoredKey(stored, item) ==> (shown <==> spared))
  {
    var t := TablesOf(stored, live);
    assert t.ids == Identities(stored) && t.texts == Texts(stored);
    InMerged(stored, live, item);
    if IsSwallowed(t, item) {
      assert IsShown(t, item);
      SwallowedCoverage(stored, live, item);
      hide TablesOf, IsShown, PlacedAll, IsCovered, IsRepeated;
      if NoStoredKey(stored, item) {
        PlacedKeepsKeys(t, stored, item);
      }
    } else if IsShown(t, item) {
      ShownByStored(stored, t, item);
    }
  }

  lemma ShownByStored(stored: seq<Item>, t: Tables, item: Item)
    requires t.ids == Identities(stored) && t.texts == Texts(stored)
    requires IsShown(t, item) && !IsSwallowed(t, item)
    ensures IsCovered(stored, item)
  {
    if IdentityOf(item) in t.ids {
      var s :| s in stored && IdentityOf(s) == IdentityOf(item);
      assert CoveredBy(s, item);
    } else {
      assert IsRepeated(stored, item);
      RepeatedIsCovered(stored, item);
    }
  }

  /** No live row is lost if and only if every one that shares the arriving identity is repeated by a stored row. */
  lemma NothingLiveIsLostIff(stored: seq<Item>, live: seq<Item>)
    requires forall item :: item in live ==> NoStoredKey(stored, item)
    ensures (forall item :: item in live ==> item in Merged(stored, live) || IsCovered(stored, item)) <==>
      (forall item :: item in live && IsSwallowed(TablesOf(stored, live), item) ==> IsRepeated(stored, item))
  {
    forall item | item in live
      ensures (item in Merged(stored, live) || IsCovered(stored, item)) <==>
        (IsSwallowed(TablesOf(stored, live), item) ==> IsRepeated(stored, item))
    {
      ShownOrCoveredIff(stored, live, item);
    }
    hide *;
  }

  /** With an identity to each live row, a live row is shown unchanged or covered by a stored one. */
  lemma LiveIsShownOrCovered(stored: seq<Item>, live: seq<Item>, item: Item)
    requires DistinctIdentities(live) && item in live
    ensures item in Merged(stored, live) || IsCovered(stored, item)
  {
    var t := TablesOf(stored, live);
    if IsSwallowed(t, item) {
      var into := if t.newest.Some? then Some(stored[t.newest.value].words) else None;
      ArrivingIsLive(live, t.ids, into);
      var other :| other in live && StreamsInto(other, t.ids, into) && ShadowOf(other) == t.arriving.value;
      assert other == item && stored[t.newest.value] in stored;
      assert IsRepeated(stored, item);
    }
    ShownOrCoveredIff(stored, live, item);
  }

  /** The thought a live row was streaming into takes over its identity, so the reader's row stays the same row. */
  lemma ThoughtAnswersToArriving(stored: seq<Item>, live: seq<Item>)
    requires TablesOf(stored, live).arriving.Some?
    ensures
      var t := TablesOf(stored, live);
      t.newest.Some? && var thought := stored[t.newest.value];
      (IdentityOf(thought) !in Identities(live) ==>
         IdentityOf(Placed(t, thought, true)) == t.arriving.value.identity && Placed(t, thought, true) in Merged(stored, live))
  {
    var t := TablesOf(stored, live);
    ArrivingHasThought(stored, live);
    var at := t.newest.value;
    var thought := stored[at];
    AnchorsAreLive(live, IdentityOf(thought));
    assert t.anchors == Anchors(live);
    hide TablesOf, Anchors, Identities;
    if IdentityOf(thought) !in t.anchors {
      AdoptsArriving(t, thought);
    }
    assert PlacedAll(t, stored)[at] == Placed(t, thought, true);
    InMerged(stored, live, Placed(t, thought, true));
  }

  lemma ArrivingHasThought(stored: seq<Item>, live: seq<Item>)
    ensures
      var t := TablesOf(stored, live);
      && (t.arriving.Some? ==> t.newest.Some?) && (t.newest.Some? ==> t.newest.value < |stored|)
  {
    var t := TablesOf(stored, live);
    hide Anchors, Shadows, Identities, Texts;
    if t.arriving.Some? && t.newest.None? {
      ArrivingIsLive(live, t.ids, None);
    }
  }

  lemma AdoptsArriving(t: Tables, thought: Item)
    requires t.arriving.Some? && IdentityOf(thought) !in t.anchors
    ensures IdentityOf(Placed(t, thought, true)) == t.arriving.value.identity
  {
    hide ShadowText;
  }

  lemma {:induction false} AnchorsAreLive(live: seq<Item>, id: Id)
    ensures id in Anchors(live) <==> id in Identities(live)
  {
    if live != [] {
      AnchorsAreLive(live[..|live| - 1], id);
      assert live == live[..|live| - 1] + [live[|live| - 1]];
    }
  }

  // ----- Where the promise stops -------------------------------------------

  /** Two live rows under one identity: when one streams into a stored thought, the other is lost with it. */
  lemma SharedIdentityLosesARow(thought: Item, streaming: Item, other: Item)
    requires thought.kind.Reasoning? && other.key != thought.key
    requires StreamsInto(streaming, {IdentityOf(thought)}, Some(thought.words))
    requires !StreamsInto(other, {IdentityOf(thought)}, Some(thought.words)) && !CoveredBy(thought, other)
    requires IdentityOf(other) == IdentityOf(streaming)
    ensures !IsCovered([thought], other) && other !in Merged([thought], [streaming, other])
  {
    var stored, live := [thought], [streaming, other];
    var t := TablesOf(stored, live);
    assert live[..1] == [streaming] && thought in stored;
    assert Identities(stored) == {IdentityOf(thought)};
    assert Arriving(live, t.ids, Some(thought.words)) == Arriving([streaming], t.ids, Some(thought.words));
    assert t.arriving == Some(ShadowOf(streaming));
    hide TablesOf, StreamsInto, CoveredBy;
    UnshownKeeps(t, live, other);
    assert PlacedAll(t, stored)[0].key == thought.key;
    assert other !in multiset(PlacedAll(t, stored) + Unshown(t, live));
    assert other !in multiset(Merged(stored, live));
  }
}
