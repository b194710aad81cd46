/** What the merge of two projections puts out, told by the rows alone. */
module ProjectionLaws {
  import opened Wrappers
  import opened Sorting
  import opened Projections

  /** A thought, or a message that is not the user's, with words in it. */
  predicate HasSharedText(item: Item) {
    item.words != "" && (item.kind == Reasoning || item.kind == Message(false))
  }

  predicate SharesText(a: Item, b: Item) {
    HasSharedText(a) && HasSharedText(b) && a.words == b.words
  }

  function Identity(item: Item): Id {
    if item.identity.Some? then item.identity.value else item.own
  }

  predicate SameIdentity(a: Item, b: Item) {
    Identity(a) == Identity(b)
  }

  ghost predicate IsStored(stored: seq<Item>, item: Item) {
    exists s :: s in stored && SameIdentity(s, item)
  }

  /** Row `i` is the last thought among the rows. */
  predicate IsLastThought(stored: seq<Item>, i: nat) {
    i < |stored| && stored[i].kind == Reasoning && forall j :: i < j < |stored| ==> stored[j].kind != Reasoning
  }

  /** Live row `j` is streaming into the thought, of which it has at least 24 characters, and nothing is stored under its identity. */
  ghost predicate Streams(stored: seq<Item>, thought: Item, live: Item) {
    && live.streaming && HasSharedText(live) && |live.words| >= 24 && live.words <= thought.words
    && !IsStored(stored, live)
  }

  /** Live row `j` is the last one that streams into the last stored thought. */
  ghost predicate IsArriving(stored: seq<Item>, live: seq<Item>, j: nat) {
    exists i: nat :: IsLastThought(stored, i) && IsLastStreaming(stored, stored[i], live, j)
  }

  ghost predicate IsLastStreaming(stored: seq<Item>, thought: Item, live: seq<Item>, j: nat) {
    j < |live| && Streams(stored, thought, live[j]) && forall k :: j < k < |live| ==> !Streams(stored, thought, live[k])
  }

  /** A live row that the stored rows stand for. */
  ghost predicate IsReplaced(stored: seq<Item>, live: seq<Item>, item: Item) {
    || IsStored(stored, item)
    || ((item.streaming || !item.named) && exists s :: s in stored && SharesText(s, item))
    || exists j: nat :: IsArriving(stored, live, j) && SameIdentity(live[j], item)
  }

  // ----- The rows against the tables ---------------------------------------

  lemma TextIsShared(item: Item)
    ensures ShadowText(item) == if HasSharedText(item) then Some(item.words) else None
    ensures IdentityOf(item) == Identity(item)
  {
  }

  lemma LastThoughtIs(stored: seq<Item>)
    ensures NewestThought(stored).Some? ==> IsLastThought(stored, NewestThought(stored).value)
    ensures forall i: nat :: IsLastThought(stored, i) ==> NewestThought(stored) == Some(i)
  {
    LastThoughtFound(stored);
    forall i: nat | IsLastThought(stored, i)
      ensures NewestThought(stored) == Some(i)
    {
    }
  }

  lemma {:induction false} LastThoughtFound(stored: seq<Item>)
    ensures NewestThought(stored).Some? ==> IsLastThought(stored, NewestThought(stored).value)
  {
    if stored != [] {
      LastThoughtFound(stored[..|stored| - 1]);
    }
  }

  lemma StreamsInto(stored: seq<Item>, thought: Item, live: Item)
    ensures Projections.StreamsInto(live, Identities(stored), Some(thought.words)) <==> Streams(stored, thought, live)
  {
    TextIsShared(live);
    StoredIsKnown(stored, live);
    hide Identities, IsStored, ShadowText;
  }

  lemma StoredIsKnown(stored: seq<Item>, item: Item)
    ensures IdentityOf(item) in Identities(stored) <==> IsStored(stored, item)
  {
    if IdentityOf(item) in Identities(stored) {
      var s :| s in stored && IdentityOf(s) == IdentityOf(item);
      assert SameIdentity(s, item);
    }
    if IsStored(stored, item) {
      var s :| s in stored && SameIdentity(s, item);
      assert IdentityOf(s) in Identities(stored);
    }
  }

  lemma TextIsKnown(stored: seq<Item>, item: Item)
    ensures ShadowText(item).Some? && ShadowText(item).value in Texts(stored) <==> exists s :: s in stored && SharesText(s, item)
  {
    TextIsShared(item);
    if ShadowText(item).Some? && ShadowText(item).value in Texts(stored) {
      var s :| s in stored && ShadowText(s).Some? && ShadowText(s).value == ShadowText(item).value;
      TextIsShared(s);
      assert SharesText(s, item);
    }
    if s :| s in stored && SharesText(s, item) {
      TextIsShared(s);
      assert ShadowText(s).value in Texts(stored);
    }
  }

  lemma {:induction false} ArrivingIs(stored: seq<Item>, thought: Item, live: seq<Item>) returns (j: nat)
    ensures
      var arriving := Arriving(live, Identities(stored), Some(thought.words));
      if arriving.Some? then IsLastStreaming(stored, thought, live, j) && arriving.value == ShadowOf(live[j])
      else forall k :: 0 <= k < |live| ==> !Streams(stored, thought, live[k])
  {
    j := 0;
    if live != [] {
      var n := |live| - 1;
      StreamsInto(stored, thought, live[n]);
      hide Streams, Identities, Projections.StreamsInto;
      if Streams(stored, thought, live[n]) {
        j := n;
      } else {
        j := ArrivingIs(stored, thought, live[..n]);
      }
    }
  }

  lemma LastStreamingIsOne(stored: seq<Item>, thought: Item, live: seq<Item>, a: nat, b: nat)
    requires IsLastStreaming(stored, thought, live, a) && IsLastStreaming(stored, thought, live, b)
    ensures a == b
  {
    hide Streams;
  }

  /** The arriving row of the tables is the last live row that streams into the last stored thought. */
  lemma ArrivingRow(stored: seq<Item>, live: seq<Item>) returns (j: nat)
    ensures
      var arriving := TablesOf(stored, live).arriving;
      && (arriving.Some? ==> IsArriving(stored, live, j) && j < |live| && arriving.value == ShadowOf(live[j]))
      && (forall k: nat :: IsArriving(stored, live, k) ==> arriving.Some? && k == j)
  {
    LastThoughtIs(stored);
    var newest := NewestThought(stored);
    if newest.Some? {
      var thought := stored[newest.value];
      j := ArrivingIs(stored, thought, live);
      hide Streams, Arriving, Identities, Anchors, Shadows, Texts, NewestThought;
      forall k: nat | IsArriving(stored, live, k)
        ensures TablesOf(stored, live).arriving.Some? && k == j
      {
        var i: nat :| IsLastThought(stored, i) && IsLastStreaming(stored, stored[i], live, k);
        assert stored[i] == thought;
        if TablesOf(stored, live).arriving.Some? {
          LastStreamingIsOne(stored, thought, live, k, j);
        }
      }
    } else {
      j := 0;
      NothingArrives(live, Identities(stored));
    }
  }

  lemma {:induction false} NothingArrives(live: seq<Item>, ids: set<Id>)
    ensures Arriving(live, ids, None) == None
  {
    if live != [] {
      NothingArrives(live[..|live| - 1], ids);
    }
  }

  lemma ShownIsReplaced(stored: seq<Item>, live: seq<Item>, item: Item)
    ensures IsShown(TablesOf(stored, live), item) <==> IsReplaced(stored, live, item)
  {
    var t := TablesOf(stored, live);
    assert t.ids == Identities(stored) && t.texts == Texts(stored);
    StoredIsKnown(stored, item);
    TextIsKnown(stored, item);
    var j := ArrivingRow(stored, live);
    TextIsShared(item);
    if j < |live| {
      TextIsShared(live[j]);
    }
    hide TablesOf, IsStored, IsArriving, Identities, Texts, ShadowText;
    if t.arriving.Some? && IdentityOf(item) == t.arriving.value.identity {
      assert IsArriving(stored, live, j) && SameIdentity(live[j], item);
    }
  }

  // ----- Which live rows come out ------------------------------------------

  lemma {:induction false} UnshownCounts(t: Tables, live: seq<Item>, item: Item)
    ensures multiset(Unshown(t, live))[item] == if IsShown(t, item) then 0 else multiset(live)[item]
  {
    hide IsShown;
    if live != [] {
      UnshownCounts(t, live[..|live| - 1], item);
      assert live == live[..|live| - 1] + [live[|live| - 1]];
    }
  }

  /**
   * A live row comes out as often as it came in, unless the stored rows stand for
   * it: by its identity, by its text when it is streaming or without an id, or
   * because it has the identity of the row that streams into the last thought.
   */
  lemma LiveComesOutIff(stored: seq<Item>, live: seq<Item>, item: Item)
    requires forall s :: s in stored ==> s.key != item.key
    ensures multiset(Merged(stored, live))[item] == if IsReplaced(stored, live, item) then 0 else multiset(live)[item]
  {
    var t := TablesOf(stored, live);
    ShownIsReplaced(stored, live, item);
    UnshownCounts(t, live, item);
    PlacedKeepsKeys(t, stored, item);
    MergeKeepsStored(stored, live);
    hide TablesOf, IsShown, IsReplaced, Merged, PlacedAll, Unshown;
  }

  /** The rows at one sequence, in order. */
  function At(rows: seq<Item>, sequence: int): seq<Item> {
    if rows == [] then [] else (if rows[0].sequence == sequence then [rows[0]] else []) + At(rows[1..], sequence)
  }

  /** The live rows no stored row stands for, in order. */
  ghost function Left(stored: seq<Item>, live: seq<Item>, rows: seq<Item>): seq<Item> {
    if rows == [] then []
    else
      var n := |rows| - 1;
      Left(stored, live, rows[..n]) + if IsReplaced(stored, live, rows[n]) then [] else [rows[n]]
  }

  lemma {:induction false} UnshownIsLeft(stored: seq<Item>, live: seq<Item>, rows: seq<Item>)
    ensures Unshown(TablesOf(stored, live), rows) == Left(stored, live, rows)
  {
    if rows != [] {
      UnshownIsLeft(stored, live, rows[..|rows| - 1]);
      ShownIsReplaced(stored, live, rows[|rows| - 1]);
      hide TablesOf, IsShown, IsReplaced;
    }
  }

  lemma {:induction false} TiesAreAt(rows: seq<Item>, item: Item)
    ensures Ties(BySequence(), item, rows) == At(rows, item.sequence)
  {
    if rows != [] {
      TiesAreAt(rows[1..], item);
    }
  }

  lemma AtCons(first: Item, rest: seq<Item>, sequence: int)
    ensures At([first] + rest, sequence) == (if first.sequence == sequence then [first] else []) + At(rest, sequence)
  {
    assert ([first] + rest)[1..] == rest;
  }

  lemma {:induction false} AtConcat(a: seq<Item>, b: seq<Item>, sequence: int)
    ensures At(a + b, sequence) == At(a, sequence) + At(b, sequence)
  {
    if a == [] {
      assert a + b == b;
    } else {
      hide At;
      assert a == [a[0]] + a[1..] && a + b == [a[0]] + (a[1..] + b);
      AtCons(a[0], a[1..], sequence);
      AtCons(a[0], a[1..] + b, sequence);
      AtConcat(a[1..], b, sequence);
    }
  }

  /** At each sequence the stored rows come first, then the live rows that are left, both in the order they had. */
  lemma TiesKeepOrder(stored: seq<Item>, live: seq<Item>) returns (placed: seq<Item>)
    ensures |placed| == |stored| && forall i :: 0 <= i < |stored| ==> Survives(stored[i], placed[i])
    ensures forall sequence ::
      At(Merged(stored, live), sequence) == At(placed, sequence) + At(Left(stored, live, live), sequence)
  {
    var t := TablesOf(stored, live);
    placed := PlacedAll(t, stored);
    MergeKeepsStored(stored, live);
    UnshownIsLeft(stored, live, live);
    BySequenceIsTotal();
    hide TablesOf, PlacedAll, Unshown, Left, Survives, BySequence;
    forall sequence
      ensures At(Merged(stored, live), sequence) == At(placed, sequence) + At(Left(stored, live, live), sequence)
    {
      var item := Item(0, OtherRow, "", false, false, 0, None, sequence);
      SortIsStable(BySequence(), placed + Unshown(t, live), item);
      TiesAreAt(Merged(stored, live), item);
      TiesAreAt(placed + Unshown(t, live), item);
      AtConcat(placed, Unshown(t, live), sequence);
    }
  }

  // ----- Where the stored rows go ------------------------------------------

  /** Live row `j` is the last one under the identity. */
  predicate IsTwin(live: seq<Item>, item: Item, j: nat) {
    j < |live| && SameIdentity(live[j], item) && forall k :: j < k < |live| ==> !SameIdentity(live[k], item)
  }

  /** Live row `j` is the first one, streaming or without an id, that shares the text. */
  predicate IsTextTwin(live: seq<Item>, item: Item, j: nat) {
    && j < |live| && CanStandFor(live[j], item)
    && forall k :: 0 <= k < j ==> !CanStandFor(live[k], item)
  }

  predicate CanStandFor(live: Item, item: Item) {
    (live.streaming || !live.named) && SharesText(live, item)
  }

  /** The row moved up to where the live one sits, if that is earlier. */
  function MovedUp(item: Item, live: Item): Item {
    item.(sequence := if live.sequence < item.sequence then live.sequence else item.sequence)
  }

  /** The row moved up, and answering to the identity of the live one. */
  function StandsFor(item: Item, live: Item): Item {
    MovedUp(item, live).(identity := Some(Identity(live)))
  }

  lemma {:induction false} AnchorIsTwin(live: seq<Item>, item: Item, j: nat)
    requires IsTwin(live, item, j)
    ensures IdentityOf(item) in Anchors(live) && Anchors(live)[IdentityOf(item)] == live[j].sequence
  {
    if j < |live| - 1 {
      AnchorIsTwin(live[..|live| - 1], item, j);
    }
  }

  lemma {:induction false} NoAnchor(live: seq<Item>, item: Item)
    requires forall k :: 0 <= k < |live| ==> !SameIdentity(live[k], item)
    ensures IdentityOf(item) !in Anchors(live)
  {
    if live != [] {
      NoAnchor(live[..|live| - 1], item);
    }
  }

  lemma {:induction false} ShadowIsTextTwin(live: seq<Item>, item: Item, j: nat)
    requires IsTextTwin(live, item, j)
    ensures item.words in Shadows(live) && Shadows(live)[item.words] == ShadowOf(live[j])
  {
    var n := |live| - 1;
    TextIsShared(live[n]);
    if j < n {
      ShadowIsTextTwin(live[..n], item, j);
    } else {
      NoShadow(live[..n], item);
    }
  }

  lemma {:induction false} NoShadow(live: seq<Item>, item: Item)
    requires HasSharedText(item) && forall k :: 0 <= k < |live| ==> !CanStandFor(live[k], item)
    ensures item.words !in Shadows(live)
  {
    if live != [] {
      TextIsShared(live[|live| - 1]);
      NoShadow(live[..|live| - 1], item);
    }
  }

  /** The placed row comes out. */
  lemma PlacedComesOut(stored: seq<Item>, live: seq<Item>, i: nat)
    requires i < |stored|
    ensures
      var t := TablesOf(stored, live);
      Placed(t, stored[i], t.newest == Some(i)) in Merged(stored, live)
  {
    var t := TablesOf(stored, live);
    assert PlacedAll(t, stored)[i] == Placed(t, stored[i], t.newest == Some(i));
    hide TablesOf, Placed;
    InMerged(stored, live, PlacedAll(t, stored)[i]);
  }

  /** A stored row with a live twin under its identity sits at the earlier of the two places. */
  lemma TwinMovesUp(stored: seq<Item>, live: seq<Item>, i: nat, j: nat)
    requires i < |stored| && IsTwin(live, stored[i], j)
    ensures MovedUp(stored[i], live[j]) in Merged(stored, live)
  {
    var t := TablesOf(stored, live);
    assert t.anchors == Anchors(live);
    AnchorIsTwin(live, stored[i], j);
    PlacedComesOut(stored, live, i);
    hide TablesOf, Merged, Anchors, ShadowText;
  }

  /** The last stored thought stands for the live row that streams into it. */
  lemma ThoughtStandsForArriving(stored: seq<Item>, live: seq<Item>, i: nat, j: nat)
    requires IsLastThought(stored, i) && IsArriving(stored, live, j)
    requires forall k :: 0 <= k < |live| ==> !SameIdentity(live[k], stored[i])
    ensures j < |live| && StandsFor(stored[i], live[j]) in Merged(stored, live)
  {
    var t := TablesOf(stored, live);
    assert t.anchors == Anchors(live) && t.newest == NewestThought(stored);
    var k := ArrivingRow(stored, live);
    LastThoughtIs(stored);
    NoAnchor(live, stored[i]);
    PlacedComesOut(stored, live, i);
    hide TablesOf, Merged, Anchors, ShadowText, IsArriving, NewestThought, IsLastThought;
  }

  /** A stored row with no live twin of its identity stands for the first live row that shares its text. */
  lemma TextTwinIsStoodFor(stored: seq<Item>, live: seq<Item>, i: nat, j: nat)
    requires i < |stored| && IsTextTwin(live, stored[i], j)
    requires forall k :: 0 <= k < |live| ==> !SameIdentity(live[k], stored[i])
    requires IsLastThought(stored, i) ==> forall k: nat :: !IsArriving(stored, live, k)
    ensures StandsFor(stored[i], live[j]) in Merged(stored, live)
  {
    var t := TablesOf(stored, live);
    assert t.anchors == Anchors(live) && t.newest == NewestThought(stored) && t.shadows == Shadows(live);
    var k := ArrivingRow(stored, live);
    LastThoughtIs(stored);
    NoAnchor(live, stored[i]);
    ShadowIsTextTwin(live, stored[i], j);
    TextIsShared(stored[i]);
    PlacedComesOut(stored, live, i);
    hide TablesOf, Merged, Anchors, Shadows, ShadowText, IsArriving, NewestThought, IsLastThought;
  }

  /** Any other stored row comes out as it is. */
  lemma OthersStay(stored: seq<Item>, live: seq<Item>, i: nat)
    requires i < |stored|
    requires forall k :: 0 <= k < |live| ==> !SameIdentity(live[k], stored[i]) && !CanStandFor(live[k], stored[i])
    requires IsLastThought(stored, i) ==> forall k: nat :: !IsArriving(stored, live, k)
    ensures stored[i] in Merged(stored, live)
  {
    var t := TablesOf(stored, live);
    assert t.anchors == Anchors(live) && t.newest == NewestThought(stored) && t.shadows == Shadows(live);
    var k := ArrivingRow(stored, live);
    LastThoughtIs(stored);
    NoAnchor(live, stored[i]);
    TextIsShared(stored[i]);
    if HasSharedText(stored[i]) {
      NoShadow(live, stored[i]);
    }
    PlacedComesOut(stored, live, i);
    hide TablesOf, Merged, Anchors, Shadows, ShadowText, IsArriving, NewestThought, IsLastThought, HasSharedText;
  }
}
