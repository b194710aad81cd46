/**
 * The live agent-event window: which frames merge, what a merge yields, and
 * what one incoming event does to a list of events.
 *
 * The list is read from its tail: a frame is *open* for its key when no later
 * event closed it. `Drop` and `Item` say that by recursion on the list; the
 * index map that `AgentEventBatch.Append` maintains is the fast form of the
 * same thing.
 */
module AgentEvents {
  import opened Wrappers

  /** The wire kinds, as far as the window tells them apart. */
  datatype Kind =
    | MessageDelta
    | ReasoningDelta
    | CommandOutputDelta
    | DiffDelta
    | ToolProgress
    | TurnStarted
    | OtherTurn(suffix: string)
    | OtherReasoning(suffix: string)
    | OtherKind(name: string)

  datatype Event = Event(
    id: int,
    sequence: int,
    session: string,
    kind: Kind,
    itemId: Option<string>,
    text: Option<string>,
    data: map<string, string>,
    causalAnchor: Option<int>,
    role: Option<string>,
    status: Option<string>,
    title: Option<string>,
    createdAt: string)

  /** The parts of the merge key, which the app joins with NUL. */
  datatype MergeKey = MergeKey(session: string, kind: Kind, item: string)

  const MAX_MERGED_EVENT_TEXT: nat := 256_000
  const MAX_TOTAL_EVENT_TEXT: nat := 2_000_000
  const MAX_TOTAL_EVENT_BYTES: nat := 8 * 1024 * 1024
  const MAX_PENDING_AGENT_EVENTS: nat := 256
  const WINDOW_LIMIT: nat := 2_000
  const LIVE_REASONING := "reasoning:live"

  predicate IsAdditive(kind: Kind) {
    kind.MessageDelta? || kind.ReasoningDelta? || kind.CommandOutputDelta? || kind.DiffDelta?
  }

  predicate IsReplaceable(kind: Kind) {
    kind.ToolProgress?
  }

  predicate IsMergeable(kind: Kind) {
    IsAdditive(kind) || IsReplaceable(kind)
  }

  /** An absent or empty item id falls back to the live thought, for thoughts only. */
  function KeyOf(e: Event): Option<MergeKey> {
    if !IsMergeable(e.kind) then None
    else if e.itemId.Some? && e.itemId.value != "" then Some(MergeKey(e.session, e.kind, e.itemId.value))
    else if e.kind.ReasoningDelta? then Some(MergeKey(e.session, e.kind, LIVE_REASONING))
    else None
  }

  /** The item an unkeyed event closes. Unlike `KeyOf`, an empty id closes nothing. */
  function ClosedItem(e: Event): Option<string> {
    var item :=
      if e.itemId.Some? then e.itemId
      else if e.kind.ReasoningDelta? || e.kind.OtherReasoning? || e.kind.TurnStarted? || e.kind.OtherTurn?
      then Some(LIVE_REASONING)
      else None;
    if item == Some("") then None else item
  }

  /** Whether `e` ends the open run of key `k`. */
  predicate Closes(e: Event, k: MergeKey) {
    KeyOf(e).None? && e.session == k.session && ClosedItem(e) == Some(k.item)
  }

  function TextOf(e: Event): string {
    e.text.Or("")
  }

  /** The end of a text, at most `MAX_MERGED_EVENT_TEXT` long. */
  function Tail(text: string): (tail: string)
    ensures |tail| <= MAX_MERGED_EVENT_TEXT
    ensures |text| <= MAX_MERGED_EVENT_TEXT ==> tail == text
    ensures |text| > MAX_MERGED_EVENT_TEXT ==> |tail| == MAX_MERGED_EVENT_TEXT && exists head :: text == head + tail
  {
    if |text| > MAX_MERGED_EVENT_TEXT then
      assert text == text[..|text| - MAX_MERGED_EVENT_TEXT] + text[|text| - MAX_MERGED_EVENT_TEXT..];
      text[|text| - MAX_MERGED_EVENT_TEXT..]
    else text
  }

  // ----- Durable identity and causal order --------------------------------

  predicate SameDurable(a: Event, b: Event) {
    a.id > 0 && a.id == b.id && a.session == b.session
  }

  predicate IsDuplicate(seen: seq<Event>, e: Event) {
    exists i :: 0 <= i < |seen| && SameDurable(e, seen[i])
  }

  function MaxSequence(a: Option<int>, b: Option<int>): Option<int> {
    if a.None? then b else if b.None? then a else Some(if a.value >= b.value then a.value else b.value)
  }

  /** The newest positive sequence `session` has among `seen`. */
  function NewestDurable(seen: seq<Event>, session: string): Option<int> {
    if seen == [] then None
    else
      var last := seen[|seen| - 1];
      var before := NewestDurable(seen[..|seen| - 1], session);
      if last.session == session && last.sequence > 0 then MaxSequence(before, Some(last.sequence)) else before
  }

  // ----- The open frame of a key ------------------------------------------

  /** The position of the last frame of `k`, if no later event closed it. */
  function OpenAt(list: seq<Event>, k: MergeKey): (at: Option<nat>)
    ensures at.Some? ==> at.value < |list| && KeyOf(list[at.value]) == Some(k)
  {
    if list == [] then None
    else
      var n := |list| - 1;
      if KeyOf(list[n]) == Some(k) then Some(n)
      else if Closes(list[n], k) then None
      else OpenAt(list[..n], k)
  }

  function Item(list: seq<Event>, k: MergeKey): Option<Event> {
    if list == [] then None
    else
      var n := |list| - 1;
      if KeyOf(list[n]) == Some(k) then Some(list[n])
      else if Closes(list[n], k) then None
      else Item(list[..n], k)
  }

  /** `list` without the open frame of `k`. */
  function Drop(list: seq<Event>, k: MergeKey): seq<Event> {
    if list == [] then []
    else
      var n := |list| - 1;
      if KeyOf(list[n]) == Some(k) then list[..n]
      else if Closes(list[n], k) then list
      else Drop(list[..n], k) + [list[n]]
  }

  /** `Item` and `Drop` are the element at that position, and the rest. */
  ghost predicate OpensAt(list: seq<Event>, k: MergeKey) {
    match OpenAt(list, k)
    case None => Item(list, k) == None && Drop(list, k) == list
    case Some(p) => Item(list, k) == Some(list[p]) && Drop(list, k) == list[..p] + list[p + 1..]
  }

  lemma {:induction false} OpenAtItem(list: seq<Event>, k: MergeKey)
    ensures OpensAt(list, k)
  {
    if list != [] {
      var n := |list| - 1;
      assert list == list[..n] + [list[n]];
      hide OpensAt;
      OpenAtItem(list[..n], k);
      OpensAtSnoc(list[..n], list[n], k);
    }
  }

  lemma OpensAtSnoc(list: seq<Event>, e: Event, k: MergeKey)
    requires OpensAt(list, k)
    ensures OpensAt(list + [e], k)
  {
    hide OpenAt, Item, Drop, KeyOf, Closes;
    OpenAtSnoc(list, e, k);
    DropSnoc(list, e, k);
    if OpenAt(list + [e], k).Some? && OpenAt(list + [e], k) == OpenAt(list, k) {
      var p := OpenAt(list, k).value;
      assert (list + [e])[..p] == list[..p] && (list + [e])[p + 1..] == list[p + 1..] + [e];
    }
  }

  lemma OpenAtSnoc(list: seq<Event>, e: Event, k: MergeKey)
    ensures OpenAt(list + [e], k) ==
      if KeyOf(e) == Some(k) then Some(|list|) else if Closes(e, k) then None else OpenAt(list, k)
  {
    assert (list + [e])[..|list|] == list;
  }

  lemma DropSnoc(list: seq<Event>, e: Event, k: MergeKey)
    ensures KeyOf(e) == Some(k) ==> Drop(list + [e], k) == list && Item(list + [e], k) == Some(e)
    ensures Closes(e, k) ==> Drop(list + [e], k) == list + [e] && Item(list + [e], k) == None
    ensures KeyOf(e) != Some(k) && !Closes(e, k) ==>
      Drop(list + [e], k) == Drop(list, k) + [e] && Item(list + [e], k) == Item(list, k)
  {
    assert (list + [e])[..|list|] == list;
  }

  lemma NewestSnoc(seen: seq<Event>, e: Event, session: string)
    ensures NewestDurable(seen + [e], session) ==
      if e.session == session && e.sequence > 0 then MaxSequence(NewestDurable(seen, session), Some(e.sequence))
      else NewestDurable(seen, session)
  {
    assert (seen + [e])[..|seen|] == seen;
  }

  // ----- What one event does ----------------------------------------------

  function MergedText(previous: Event, e: Event): string {
    if IsAdditive(e.kind) then TextOf(previous) + TextOf(e)
    else e.text.Or(previous.text.Or(""))
  }

  /** `e` landing on the open frame `previous` of its own key. */
  function Merge(previous: Event, e: Event): Event {
    e.(text := Some(Tail(MergedText(previous, e))), data := previous.data + e.data, causalAnchor := previous.causalAnchor)
  }

  /** `e` opening a frame of its own, anchored to the newest durable event. */
  function Open(newest: Option<int>, e: Event): Event {
    var stamped := if e.sequence <= 0 && newest.Some? then e.(causalAnchor := newest) else e;
    if TextOf(stamped) != "" then stamped.(text := Some(Tail(TextOf(stamped)))) else stamped
  }

  function Landed(previous: Option<Event>, newest: Option<int>, e: Event): Event {
    if previous.Some? then Merge(previous.value, e) else Open(newest, e)
  }

  /** An accepted event joins the list at its tail, taking its open frame with it. */
  function Place(list: seq<Event>, newest: Option<int>, e: Event): seq<Event> {
    match KeyOf(e)
    case None => list + [e]
    case Some(k) => Drop(list, k) + [Landed(Item(list, k), newest, e)]
  }

  /** The list being built, and every event that was accepted into it so far. */
  datatype Batch = Batch(list: seq<Event>, seen: seq<Event>)

  function Absorb(b: Batch, e: Event): Batch {
    if IsDuplicate(b.seen, e) then b
    else Batch(Place(b.list, NewestDurable(b.seen + [e], e.session), e), b.seen + [e])
  }

  function AbsorbAll(b: Batch, incoming: seq<Event>): Batch {
    if incoming == [] then b
    else Absorb(AbsorbAll(b, incoming[..|incoming| - 1]), incoming[|incoming| - 1])
  }

  /** A whole batch landing on `current`, before anything is evicted. */
  function Merged(current: seq<Event>, incoming: seq<Event>): seq<Event> {
    AbsorbAll(Batch(current, current), incoming).list
  }

  // ----- Eviction ----------------------------------------------------------

  function TotalText(list: seq<Event>): nat {
    if list == [] then 0 else |TextOf(list[0])| + TotalText(list[1..])
  }

  function TotalBytes(size: Event -> nat, list: seq<Event>): nat {
    if list == [] then 0 else size(list[0]) + TotalBytes(size, list[1..])
  }

  predicate WithinBudget(size: Event -> nat, list: seq<Event>) {
    TotalText(list) <= MAX_TOTAL_EVENT_TEXT && TotalBytes(size, list) <= MAX_TOTAL_EVENT_BYTES
  }

  /** The longest tail of `list` within the text and byte budgets. */
  function LongestWithin(size: Event -> nat, list: seq<Event>): (kept: seq<Event>)
    ensures |kept| <= |list| && kept == list[|list| - |kept|..]
    ensures WithinBudget(size, kept)
  {
    if WithinBudget(size, list) then list else LongestWithin(size, list[1..])
  }

  /** Any longer tail is over a budget. */
  lemma {:induction false} LongerIsOver(size: Event -> nat, list: seq<Event>, i: nat)
    requires i < |list| - |LongestWithin(size, list)|
    ensures !WithinBudget(size, list[i..])
  {
    if i == 0 {
      assert list[0..] == list;
    } else {
      LongerIsOver(size, list[1..], i - 1);
      assert list[1..][i - 1..] == list[i..];
    }
  }

  /** The last `limit` events; a limit of zero keeps everything, as `slice(-0)` does. */
  function Newest(list: seq<Event>, limit: nat): seq<Event> {
    if limit == 0 || |list| <= limit then list else list[|list| - limit..]
  }

  function Evicted(size: Event -> nat, list: seq<Event>, limit: nat): seq<Event> {
    LongestWithin(size, Newest(list, limit))
  }

  /** What `appendAgentEventBatch` returns. */
  function Appended(size: Event -> nat, current: seq<Event>, incoming: seq<Event>, limit: nat): seq<Event> {
    if incoming == [] then current else Evicted(size, Merged(current, incoming), limit)
  }
}
