/**
 * `appendAgentEventBatch` as it runs: one pass over the current list to build
 * the index map, one pass over the batch that keeps the map right across tail
 * moves, and one pass from the tail that evicts.
 */
module AgentEventBatch {
  import opened Wrappers
  import opened AgentEvents

  function DurableIds(seen: seq<Event>): set<(string, int)> {
    set e | e in seen && e.id > 0 :: (e.session, e.id)
  }

  function Found(indexes: map<MergeKey, nat>, k: MergeKey): Option<nat> {
    if k in indexes then Some(indexes[k]) else None
  }

  /** The map holds exactly the open frame of every key. */
  ghost predicate Indexed(list: seq<Event>, indexes: map<MergeKey, nat>) {
    forall k: MergeKey :: Found(indexes, k) == OpenAt(list, k)
  }

  ghost predicate TracksNewest(seen: seq<Event>, newest: map<string, int>) {
    forall session: string ::
      NewestDurable(seen, session) == if session in newest then Some(newest[session]) else None
  }

  function Shifted(at: nat, above: nat): nat {
    if at > above then at - 1 else at
  }

  function ShiftedDown(indexes: map<MergeKey, nat>, above: nat): map<MergeKey, nat> {
    map k | k in indexes :: Shifted(indexes[k], above)
  }

  method ShiftDown(indexes: map<MergeKey, nat>, above: nat) returns (shifted: map<MergeKey, nat>)
    ensures shifted == ShiftedDown(indexes, above)
  {
    shifted := indexes;
    var todo := indexes.Keys;
    while todo != {}
      invariant todo <= indexes.Keys == shifted.Keys
      invariant forall k :: k in todo ==> shifted[k] == indexes[k]
      invariant forall k :: k in indexes.Keys - todo ==> shifted[k] == ShiftedDown(indexes, above)[k]
      decreases |todo|
    {
      var k :| k in todo;
      if shifted[k] > above {
        shifted := shifted[k := shifted[k] - 1];
      }
      todo := todo - {k};
    }
  }

  /** Forgets every open frame that `e` closes. */
  method ClearItem(indexes: map<MergeKey, nat>, e: Event) returns (cleared: map<MergeKey, nat>)
    requires KeyOf(e).None?
    requires forall k :: k in indexes ==> IsMergeable(k.kind)
    ensures cleared == map k | k in indexes && !Closes(e, k) :: indexes[k]
  {
    cleared := indexes;
    var item := ClosedItem(e);
    if item.None? {
      return;
    }
    var kinds := [MessageDelta, ReasoningDelta, CommandOutputDelta, DiffDelta, ToolProgress];
    for i := 0 to |kinds|
      invariant cleared == map k | k in indexes && !(Closes(e, k) && k.kind in kinds[..i]) :: indexes[k]
    {
      assert kinds[..i + 1] == kinds[..i] + [kinds[i]];
      cleared := cleared - {MergeKey(e.session, kinds[i], item.value)};
    }
    assert kinds[..|kinds|] == kinds;
    assert forall k :: k in indexes ==> k.kind in kinds;
  }

  lemma DuplicateById(seen: seq<Event>, e: Event)
    ensures IsDuplicate(seen, e) <==> e.id > 0 && (e.session, e.id) in DurableIds(seen)
  {
    if e.id > 0 && (e.session, e.id) in DurableIds(seen) {
      var x :| x in seen && x.id > 0 && (x.session, x.id) == (e.session, e.id);
      var i :| 0 <= i < |seen| && seen[i] == x;
      assert SameDurable(e, seen[i]);
    }
  }

  /** The index map after `e` was pushed. */
  function IndexAfterPush(indexes: map<MergeKey, nat>, e: Event, at: nat): map<MergeKey, nat> {
    if KeyOf(e).Some? then indexes[KeyOf(e).value := at]
    else map k | k in indexes && !Closes(e, k) :: indexes[k]
  }

  lemma IndexPushed(list: seq<Event>, indexes: map<MergeKey, nat>, e: Event)
    requires Indexed(list, indexes)
    ensures Indexed(list + [e], IndexAfterPush(indexes, e, |list|))
    ensures forall k :: k in indexes ==> IsMergeable(k.kind)
  {
    forall k: MergeKey
      ensures Found(IndexAfterPush(indexes, e, |list|), k) == OpenAt(list + [e], k)
      ensures k in indexes ==> IsMergeable(k.kind)
    {
      OpenAtSnoc(list, e, k);
      assert Found(indexes, k) == OpenAt(list, k);
    }
  }

  /** Where the open frame of `j` goes when the one of `k` is taken out. */
  function AfterDrop(at: Option<nat>, dropped: Option<nat>): Option<nat> {
    if at.Some? && dropped.Some? then Some(Shifted(at.value, dropped.value)) else at
  }

  lemma {:induction false} OpenAtDrop(list: seq<Event>, k: MergeKey, j: MergeKey)
    requires j != k
    ensures OpenAt(Drop(list, k), j) == AfterDrop(OpenAt(list, j), OpenAt(list, k))
  {
    if list != [] {
      var init, last := list[..|list| - 1], list[|list| - 1];
      assert list == init + [last];
      hide *;
      OpenAtDrop(init, k, j);
      OpenAtDropSnoc(init, last, k, j);
    }
  }

  lemma OpenAtDropSnoc(list: seq<Event>, e: Event, k: MergeKey, j: MergeKey)
    requires j != k && OpenAt(Drop(list, k), j) == AfterDrop(OpenAt(list, j), OpenAt(list, k))
    ensures OpenAt(Drop(list + [e], k), j) == AfterDrop(OpenAt(list + [e], j), OpenAt(list + [e], k))
  {
    assert Closes(e, j) ==> KeyOf(e).None?;
    hide OpenAt, Drop, Item, KeyOf, Closes;
    OpenAtSnoc(list, e, j);
    OpenAtSnoc(list, e, k);
    DropSnoc(list, e, k);
    OpenAtSnoc(Drop(list, k), e, j);
    DropSize(list, k);
  }

  lemma DropSize(list: seq<Event>, k: MergeKey)
    ensures |Drop(list, k)| == if OpenAt(list, k).Some? then |list| - 1 else |list|
  {
    hide OpenAt, Drop, Item, KeyOf;
    OpenAtItem(list, k);
  }

  lemma IndexMovesAt(list: seq<Event>, k: MergeKey, moved: Event, j: MergeKey)
    requires OpenAt(list, k).Some? && KeyOf(moved) == Some(k)
    ensures OpenAt(Drop(list, k) + [moved], j) ==
      if j == k then Some(|list| - 1)
      else if OpenAt(list, j).None? then None
      else Some(Shifted(OpenAt(list, j).value, OpenAt(list, k).value))
  {
    var after := Drop(list, k) + [moved];
    OpenAtItem(list, k);
    assert |after| == |list|;
    assert after[..|after| - 1] == Drop(list, k);
    if j != k {
      OpenAtDrop(list, k, j);
    }
  }

  /** Moving the open frame of `k` to the tail shifts the frames behind it. */
  lemma IndexMoves(list: seq<Event>, indexes: map<MergeKey, nat>, k: MergeKey, moved: Event)
    requires Indexed(list, indexes) && KeyOf(moved) == Some(k)
    requires Found(indexes, k).Some? && Found(indexes, k) == OpenAt(list, k)
    ensures Indexed(Drop(list, k) + [moved], ShiftedDown(indexes, indexes[k])[k := |list| - 1])
  {
    var after := Drop(list, k) + [moved];
    var shifted: map<MergeKey, nat> := ShiftedDown(indexes, indexes[k])[k := |list| - 1];
    forall j: MergeKey
      ensures Found(shifted, j) == OpenAt(after, j)
    {
      assert Found(indexes, j) == OpenAt(list, j);
      IndexMovesAt(list, k, moved, j);
    }
  }

  lemma NoteDurable(seen: seq<Event>, newest: map<string, int>, e: Event)
    requires TracksNewest(seen, newest)
    ensures e.sequence <= 0 ==> TracksNewest(seen + [e], newest)
    ensures e.sequence > 0 ==>
      var known := if e.session in newest then newest[e.session] else 0;
      TracksNewest(seen + [e], newest[e.session := if known >= e.sequence then known else e.sequence])
  {
    forall session: string
      ensures NewestDurable(seen + [e], session) ==
        if e.session == session && e.sequence > 0 then MaxSequence(NewestDurable(seen, session), Some(e.sequence))
        else NewestDurable(seen, session)
    {
      NewestSnoc(seen, e, session);
    }
  }

  method Note(ghost seen: seq<Event>, newest: map<string, int>, e: Event) returns (noted: map<string, int>)
    requires TracksNewest(seen, newest)
    ensures TracksNewest(seen + [e], noted)
  {
    NoteDurable(seen, newest, e);
    noted := newest;
    if e.sequence > 0 {
      var known := if e.session in newest then newest[e.session] else 0;
      noted := newest[e.session := if known >= e.sequence then known else e.sequence];
    }
  }

  /** A longer tail weighs at least as much. */
  lemma {:induction false} BudgetShrinks(size: Event -> nat, list: seq<Event>, i: nat, j: nat)
    requires i <= j <= |list| && WithinBudget(size, list[i..])
    ensures WithinBudget(size, list[j..])
    decreases j - i
  {
    if i < j {
      assert list[i..][1..] == list[i + 1..];
      BudgetShrinks(size, list, i + 1, j);
    }
  }

  lemma LongestIs(size: Event -> nat, list: seq<Event>, from: nat)
    requires from <= |list| && WithinBudget(size, list[from..])
    requires from > 0 ==> !WithinBudget(size, list[from - 1..])
    ensures LongestWithin(size, list) == list[from..]
  {
    hide WithinBudget;
    var start := |list| - |LongestWithin(size, list)|;
    if start < from {
      BudgetShrinks(size, list, start, from - 1);
    } else if from < start {
      LongerIsOver(size, list, from);
    }
  }

  lemma NewestIsTail(list: seq<Event>, limit: nat, m: nat)
    requires m <= |Newest(list, limit)|
    ensures Newest(list, limit)[|Newest(list, limit)| - m..] == list[|list| - m..]
    ensures limit > 0 ==> |Newest(list, limit)| == if |list| <= limit then |list| else limit
  {
    var bounded := Newest(list, limit);
    if bounded != list {
      assert list[|list| - limit..][limit - m..] == list[|list| - m..];
    }
  }

  lemma EvictedIs(size: Event -> nat, list: seq<Event>, limit: nat)
    ensures Evicted(size, list, limit) == LongestWithin(size, Newest(list, limit))
  {
    hide LongestWithin, Newest;
  }

  lemma EvictedFits(size: Event -> nat, list: seq<Event>, limit: nat)
    requires limit > 0
    ensures
      var kept := Evicted(size, list, limit);
      |kept| <= |list| && kept == list[|list| - |kept|..] && |kept| <= limit
      && TotalText(kept) <= 2_000_000 && TotalBytes(size, kept) <= 8 * 1024 * 1024
  {
    var kept := Evicted(size, list, limit);
    hide Newest, LongestWithin;
    NewestIsTail(list, limit, |kept|);
  }

  lemma OverBudget(size: Event -> nat, list: seq<Event>)
    ensures !WithinBudget(size, list) ==> TotalText(list) > 2_000_000 || TotalBytes(size, list) > 8 * 1024 * 1024
  {
  }

  /** Any tail longer than the one that stays exceeds the count or a budget. */
  lemma LongerIsEvicted(size: Event -> nat, list: seq<Event>, limit: nat, n: nat)
    requires limit > 0 && |Evicted(size, list, limit)| < n <= |list|
    ensures n > limit || TotalText(list[|list| - n..]) > 2_000_000 || TotalBytes(size, list[|list| - n..]) > 8 * 1024 * 1024
  {
    EvictedIs(size, list, limit);
    hide *;
    OverBudget(size, list[|list| - n..]);
    if n <= limit {
      NewestIsTail(list, limit, 0);
      NewestIsTail(list, limit, n);
      LongerIsOver(size, Newest(list, limit), |Newest(list, limit)| - n);
    }
  }

  /** Keeps the newest events that fit both budgets. */
  method Evict(size: Event -> nat, bounded: seq<Event>) returns (kept: seq<Event>)
    ensures kept == LongestWithin(size, bounded)
  {
    var total, bytes := 0, 0;
    var index := |bounded| - 1;
    while index >= 0
      invariant -1 <= index < |bounded|
      invariant total == TotalText(bounded[index + 1..]) <= MAX_TOTAL_EVENT_TEXT
      invariant bytes == TotalBytes(size, bounded[index + 1..]) <= MAX_TOTAL_EVENT_BYTES
    {
      assert bounded[index..][1..] == bounded[index + 1..];
      total := total + |TextOf(bounded[index])|;
      bytes := bytes + size(bounded[index]);
      if total > MAX_TOTAL_EVENT_TEXT || bytes > MAX_TOTAL_EVENT_BYTES {
        LongestIs(size, bounded, index + 1);
        return bounded[index + 1..];
      }
      index := index - 1;
    }
    LongestIs(size, bounded, 0);
    assert bounded[0..] == bounded;
    kept := bounded;
  }

  /** The first pass: which frames of the current list are open, and how far each session got. */
  method IndexCurrent(current: seq<Event>) returns (indexes: map<MergeKey, nat>, newest: map<string, int>)
    ensures Indexed(current, indexes) && TracksNewest(current, newest)
  {
    indexes, newest := map[], map[];
    for i := 0 to |current|
      invariant Indexed(current[..i], indexes) && TracksNewest(current[..i], newest)
    {
      var e := current[i];
      assert current[..i + 1] == current[..i] + [e];
      IndexPushed(current[..i], indexes, e);
      newest := Note(current[..i], newest, e);
      var key := KeyOf(e);
      if key.Some? {
        indexes := indexes[key.value := i];
      } else {
        indexes := ClearItem(indexes, e);
      }
    }
    assert current[..|current|] == current;
  }

  /** One accepted event joins the list, and the index map follows. */
  method Land(list: seq<Event>, open: map<MergeKey, nat>, lastDurable: Option<int>, e: Event)
    returns (next: seq<Event>, indexes: map<MergeKey, nat>)
    requires Indexed(list, open)
    ensures next == Place(list, lastDurable, e)
    ensures Indexed(next, indexes)
  {
    hide OpenAt, Drop, Item, ClosedItem, ShiftedDown, Tail;
    next, indexes := list, open;
    var key := KeyOf(e);
    if key.Some? {
      OpenAtItem(list, key.value);
      assert Found(open, key.value) == OpenAt(list, key.value);
    }
    hide Indexed;
    if key.Some? && key.value in indexes {
      var at := indexes[key.value];
      var previous := next[at];
      var text := if IsAdditive(e.kind) then TextOf(previous) + TextOf(e) else e.text.Or(previous.text.Or(""));
      var merged := e.(text := Some(Tail(text)), data := previous.data + e.data, causalAnchor := previous.causalAnchor);
      IndexMoves(next, indexes, key.value, merged);
      next := next[..at] + next[at + 1..];
      indexes := ShiftDown(indexes, at);
      next := next + [merged];
      indexes := indexes[key.value := |next| - 1];
    } else {
      IndexPushed(list, open, e);
      if key.None? {
        indexes := ClearItem(indexes, e);
      }
      var stamped := if key.Some? && e.sequence <= 0 && lastDurable.Some? then e.(causalAnchor := lastDurable) else e;
      var pushed := if key.Some? && TextOf(stamped) != "" then stamped.(text := Some(Tail(TextOf(stamped)))) else stamped;
      IndexPushed(next, open, pushed);
      next := next + [pushed];
      if key.Some? {
        indexes := indexes[key.value := |next| - 1];
      }
    }
  }

  lemma AbsorbAllSnoc(b: Batch, incoming: seq<Event>, i: nat)
    requires i < |incoming|
    ensures AbsorbAll(b, incoming[..i + 1]) == Absorb(AbsorbAll(b, incoming[..i]), incoming[i])
  {
    assert incoming[..i + 1][..i] == incoming[..i];
  }

  lemma TracksNewestAt(seen: seq<Event>, newest: map<string, int>, session: string)
    requires TracksNewest(seen, newest)
    ensures NewestDurable(seen, session) == if session in newest then Some(newest[session]) else None
  {
  }

  lemma DurableIdsSnoc(seen: seq<Event>, e: Event)
    ensures DurableIds(seen + [e]) == DurableIds(seen) + if e.id > 0 then {(e.session, e.id)} else {}
  {
    assert e in seen + [e];
  }

  /** The maps and the set kept beside the list being built. */
  ghost predicate Tracks(b: Batch, ids: set<(string, int)>, next: seq<Event>,
                         indexes: map<MergeKey, nat>, newest: map<string, int>)
  {
    next == b.list && ids == DurableIds(b.seen) && Indexed(next, indexes) && TracksNewest(b.seen, newest)
  }

  /** One incoming event: a durable one already seen is skipped, anything else lands. */
  method Receive(ghost b: Batch, ids: set<(string, int)>, next: seq<Event>,
                 indexes: map<MergeKey, nat>, newest: map<string, int>, e: Event)
    returns (ids': set<(string, int)>, next': seq<Event>, indexes': map<MergeKey, nat>, newest': map<string, int>)
    requires Tracks(b, ids, next, indexes, newest)
    ensures Tracks(Absorb(b, e), ids', next', indexes', newest')
  {
    ids', next', indexes', newest' := ids, next, indexes, newest;
    DuplicateById(b.seen, e);
    if e.id > 0 && (e.session, e.id) in ids {
      return;
    }
    DurableIdsSnoc(b.seen, e);
    if e.id > 0 {
      ids' := ids + {(e.session, e.id)};
    }
    newest' := Note(b.seen, newest, e);
    TracksNewestAt(b.seen + [e], newest', e.session);
    var lastDurable := if e.session in newest' then Some(newest'[e.session]) else None;
    next', indexes' := Land(next, indexes, lastDurable, e);
  }

  lemma TracksFirst(current: seq<Event>, indexes: map<MergeKey, nat>, newest: map<string, int>)
    requires Indexed(current, indexes) && TracksNewest(current, newest)
    ensures Tracks(Batch(current, current), DurableIds(current), current, indexes, newest)
  {
  }

  /** The second pass: every incoming event in turn. */
  method ReceiveAll(current: seq<Event>, incoming: seq<Event>) returns (next: seq<Event>)
    ensures next == Merged(current, incoming)
  {
    var ids := DurableIds(current);
    next := current;
    var indexes: map<MergeKey, nat>, newest: map<string, int> := IndexCurrent(current);
    ghost var start := Batch(current, current);
    TracksFirst(current, indexes, newest);
    for i := 0 to |incoming|
      invariant Tracks(AbsorbAll(start, incoming[..i]), ids, next, indexes, newest)
    {
      ghost var b := AbsorbAll(start, incoming[..i]);
      ids, next, indexes, newest := Receive(b, ids, next, indexes, newest, incoming[i]);
      AbsorbAllSnoc(start, incoming, i);
    }
    assert incoming[..|incoming|] == incoming;
  }

  method Append(size: Event -> nat, current: seq<Event>, incoming: seq<Event>, limit: nat) returns (result: seq<Event>)
    ensures result == Appended(size, current, incoming, limit)
  {
    if incoming == [] {
      return current;
    }
    var next := ReceiveAll(current, incoming);
    result := Evict(size, Newest(next, limit));
  }
}
