/** Selecting the active branch of a session, and folding worker results onto the rows that spawned them. */
module TranscriptBranch {
  import opened Wrappers
  import opened Text

  /** Ids are compared for equality only. */
  type Id = nat

  datatype Entry = Entry(id: Id, session: Id, parent: Option<Id>, payload: string)

  // ----- The active branch -------------------------------------------------

  function FindEntry(entries: seq<Entry>, id: Id): Option<Entry> {
    if entries == [] then None
    else if entries[0].id == id then Some(entries[0])
    else FindEntry(entries[1..], id)
  }

  /** The entries of one session by id; of two with the same id the later one counts. */
  function ById(entries: seq<Entry>, session: Id): (byId: map<Id, Entry>)
    ensures forall id :: id in byId ==> byId[id].id == id && byId[id].session == session && byId[id] in entries
  {
    if entries == [] then map[]
    else
      var last := entries[|entries| - 1];
      var before := ById(entries[..|entries| - 1], session);
      if last.session == session then before[last.id := last] else before
  }

  /** From `id` towards the root, until there is no parent or an entry comes round again. */
  function Upward(byId: map<Id, Entry>, id: Option<Id>, visited: set<Id>): seq<Entry>
    requires forall k :: k in byId ==> byId[k].id == k
    decreases byId.Keys - visited
  {
    if id.None? || id.value !in byId || id.value in visited then []
    else [byId[id.value]] + Upward(byId, byId[id.value].parent, visited + {id.value})
  }

  function Reversed(s: seq<Entry>): seq<Entry> {
    if s == [] then [] else Reversed(s[1..]) + [s[0]]
  }

  function Branch(entries: seq<Entry>, activeLeaf: Option<Id>): seq<Entry> {
    if activeLeaf.None? then []
    else
      var leaf := FindEntry(entries, activeLeaf.value);
      if leaf.None? then [] else Reversed(Upward(ById(entries, leaf.value.session), activeLeaf, {}))
  }

  method SelectActiveBranch(entries: seq<Entry>, activeLeaf: Option<Id>) returns (branch: seq<Entry>)
    ensures branch == Branch(entries, activeLeaf)
  {
    if activeLeaf.None? {
      return [];
    }
    var leaf := FindEntry(entries, activeLeaf.value);
    if leaf.None? {
      return [];
    }
    var byId := ById(entries, leaf.value.session);
    var walked: seq<Entry> := [];
    var visited: set<Id> := {};
    var current := activeLeaf;
    while current.Some? && current.value in byId && current.value !in visited
      invariant walked + Upward(byId, current, visited) == Upward(byId, activeLeaf, {})
      decreases byId.Keys - visited
    {
      var entry := byId[current.value];
      assert Upward(byId, current, visited) == [entry] + Upward(byId, entry.parent, visited + {entry.id});
      hide Upward;
      assert walked + ([entry] + Upward(byId, entry.parent, visited + {entry.id})) ==
             walked + [entry] + Upward(byId, entry.parent, visited + {entry.id});
      walked := walked + [entry];
      visited := visited + {entry.id};
      current := entry.parent;
    }
    assert Upward(byId, current, visited) == [];
    hide Upward, ById, Reversed;
    assert walked == Upward(byId, activeLeaf, {});
    branch := Reversed(walked);
  }

  lemma {:induction false} ReversedAt(s: seq<Entry>, i: nat)
    requires i < |s|
    ensures |Reversed(s)| == |s| && Reversed(s)[|s| - 1 - i] == s[i]
  {
    if i > 0 {
      ReversedAt(s[1..], i - 1);
    } else if |s| > 1 {
      ReversedAt(s[1..], 0);
    }
  }

  /** Where the walk stopped: at a root, at a missing parent, or at an entry already passed. */
  ghost predicate Stops(byId: map<Id, Entry>, next: Option<Id>, visited: set<Id>, up: seq<Entry>) {
    next.None? || next.value !in byId || next.value in visited || exists i :: 0 <= i < |up| && up[i].id == next.value
  }

  ghost predicate IsWalk(byId: map<Id, Entry>, visited: set<Id>, up: seq<Entry>) {
    && (forall i :: 0 <= i < |up| ==> up[i].id in byId && up[i] == byId[up[i].id] && up[i].id !in visited)
    && (forall i, j :: 0 <= i < j < |up| ==> up[i].id != up[j].id)
    && (forall i :: 0 <= i < |up| - 1 ==> up[i].parent == Some(up[i + 1].id))
  }

  lemma WalkCons(byId: map<Id, Entry>, visited: set<Id>, first: Entry, rest: seq<Entry>)
    requires first.id in byId && byId[first.id] == first && first.id !in visited
    requires IsWalk(byId, visited + {first.id}, rest) && (rest != [] ==> first.parent == Some(rest[0].id))
    ensures IsWalk(byId, visited, [first] + rest)
  {
    var up := [first] + rest;
    assert forall i :: 1 <= i < |up| ==> up[i] == rest[i - 1];
  }

  /** Each entry is the parent of the one before it, none comes twice, and the walk goes as far as it can. */
  lemma {:induction false} UpwardIsWalk(byId: map<Id, Entry>, id: Option<Id>, visited: set<Id>)
    requires forall k :: k in byId ==> byId[k].id == k
    ensures
      var up := Upward(byId, id, visited);
      && (up != [] ==> id == Some(up[0].id))
      && IsWalk(byId, visited, up)
      && Stops(byId, if up == [] then id else up[|up| - 1].parent, visited, up)
    decreases byId.Keys - visited
  {
    if id.Some? && id.value in byId && id.value !in visited {
      var first := byId[id.value];
      var rest := Upward(byId, first.parent, visited + {id.value});
      UpwardIsWalk(byId, first.parent, visited + {id.value});
      var up := [first] + rest;
      assert up == Upward(byId, id, visited);
      WalkCons(byId, visited, first, rest);
      hide Upward, IsWalk;
      var next := if rest == [] then first.parent else rest[|rest| - 1].parent;
      if next.Some? {
        if next.value == id.value {
          assert up[0].id == next.value;
        } else if exists i :: 0 <= i < |rest| && rest[i].id == next.value {
          var i :| 0 <= i < |rest| && rest[i].id == next.value;
          assert up[i + 1].id == next.value;
        }
      }
    }
  }

  /** The parent of the top entry is missing, or an entry already on the branch. */
  ghost predicate ReachesUp(entries: seq<Entry>, session: Id, branch: seq<Entry>)
    requires branch != []
  {
    branch[0].parent.Some? ==>
      || (forall e :: e in entries && e.session == session ==> e.id != branch[0].parent.value)
      || (exists i :: 0 <= i < |branch| && branch[i].id == branch[0].parent.value)
  }

  /** The branch is one root-to-leaf path of the leaf's session, free of repeats even when parents form a cycle. */
  lemma {:induction false} BranchIsPath(entries: seq<Entry>, leafId: Id)
    requires FindEntry(entries, leafId).Some?
    ensures
      var branch := Branch(entries, Some(leafId));
      var session := FindEntry(entries, leafId).value.session;
      && branch != [] && branch[|branch| - 1].id == leafId
      && (forall i :: 0 <= i < |branch| ==> branch[i] in entries && branch[i].session == session)
      && (forall i, j :: 0 <= i < j < |branch| ==> branch[i].id != branch[j].id)
      && (forall i :: 0 <= i < |branch| - 1 ==> branch[i + 1].parent == Some(branch[i].id))
      && ReachesUp(entries, session, branch)
  {
    hide *;
    var session := FindEntry(entries, leafId).value.session;
    var up := LeafWalk(entries, leafId);
    ReversedWalk(ById(entries, session), up);
    TopReachesUp(entries, session, up);
  }

  /** No later entry of its session has its id. */
  predicate IsNewestAt(entries: seq<Entry>, e: Entry, k: nat) {
    && k < |entries| && entries[k] == e
    && forall j :: k < j < |entries| && entries[j].session == e.session ==> entries[j].id != e.id
  }

  ghost predicate IsNewestOf(entries: seq<Entry>, e: Entry) {
    exists k :: IsNewestAt(entries, e, k)
  }

  lemma NewestSnoc(entries: seq<Entry>, last: Entry, e: Entry)
    requires IsNewestOf(entries, e) && !(last.session == e.session && last.id == e.id)
    ensures IsNewestOf(entries + [last], e)
  {
    var k: nat :| IsNewestAt(entries, e, k);
    assert IsNewestAt(entries + [last], e, k);
  }

  lemma {:induction false} ByIdIsNewest(entries: seq<Entry>, session: Id, id: Id)
    requires id in ById(entries, session)
    ensures IsNewestOf(entries, ById(entries, session)[id])
  {
    var n := |entries| - 1;
    if entries[n].session == session && entries[n].id == id {
      assert IsNewestAt(entries, ById(entries, session)[id], n);
    } else {
      var e := ById(entries[..n], session)[id];
      ByIdIsNewest(entries[..n], session, id);
      assert e == ById(entries, session)[id];
      hide ById, IsNewestOf;
      NewestSnoc(entries[..n], entries[n], e);
      assert entries == entries[..n] + [entries[n]];
    }
  }

  lemma {:induction false} FirstIsFound(entries: seq<Entry>, id: Id, k: nat)
    requires k < |entries| && entries[k].id == id && forall j :: 0 <= j < k ==> entries[j].id != id
    ensures FindEntry(entries, id) == Some(entries[k])
  {
    if k > 0 {
      FirstIsFound(entries[1..], id, k - 1);
    }
  }

  /** The session is that of the first entry with the leaf's id; of entries that share an id there, the last one is taken. */
  lemma BranchTakesNewest(entries: seq<Entry>, leafId: Id, k: nat)
    requires k < |entries| && entries[k].id == leafId && forall j :: 0 <= j < k ==> entries[j].id != leafId
    ensures forall e :: e in Branch(entries, Some(leafId)) ==> e.session == entries[k].session && IsNewestOf(entries, e)
    ensures Branch(entries, Some(leafId)) != []
  {
    FirstIsFound(entries, leafId, k);
    var up := LeafWalk(entries, leafId);
    var byId := ById(entries, entries[k].session);
    ReversedWalk(byId, up);
    forall e | e in Branch(entries, Some(leafId))
      ensures e.session == entries[k].session && IsNewestOf(entries, e)
    {
      hide Branch, ById, IsNewestOf, FindEntry;
      ReversedHolds(up, e);
      ByIdIsNewest(entries, entries[k].session, e.id);
    }
  }

  lemma {:induction false} ReversedHolds(up: seq<Entry>, e: Entry)
    requires e in Reversed(up)
    ensures e in up
  {
    if up != [] && e != up[0] {
      ReversedHolds(up[1..], e);
    }
  }

  lemma {:induction false} LeafWalk(entries: seq<Entry>, leafId: Id) returns (up: seq<Entry>)
    requires FindEntry(entries, leafId).Some?
    ensures
      var byId := ById(entries, FindEntry(entries, leafId).value.session);
      && up != [] && up[0].id == leafId && IsWalk(byId, {}, up) && Stops(byId, up[|up| - 1].parent, {}, up)
      && Branch(entries, Some(leafId)) == Reversed(up)
  {
    var byId := ById(entries, FindEntry(entries, leafId).value.session);
    LeafIsKnown(entries, leafId);
    hide ById, FindEntry, IsWalk, Stops, Reversed;
    up := Upward(byId, Some(leafId), {});
    UpwardIsWalk(byId, Some(leafId), {});
  }

  /** A walk upward, read from its far end, is a path downward. */
  lemma ReversedWalk(byId: map<Id, Entry>, up: seq<Entry>)
    requires up != [] && IsWalk(byId, {}, up)
    ensures
      var branch := Reversed(up);
      && |branch| == |up| && branch[|branch| - 1] == up[0] && branch[0] == up[|up| - 1]
      && (forall i :: 0 <= i < |branch| ==> branch[i].id in byId && branch[i] == byId[branch[i].id])
      && (forall i, j :: 0 <= i < j < |branch| ==> branch[i].id != branch[j].id)
      && (forall i :: 0 <= i < |branch| - 1 ==> branch[i + 1].parent == Some(branch[i].id))
  {
    var branch := Reversed(up);
    ReversedAt(up, 0);
    forall i | 0 <= i < |branch|
      ensures branch[i] == up[|up| - 1 - i]
    {
      ReversedAt(up, |up| - 1 - i);
    }
    hide Reversed;
  }

  lemma {:induction false} TopReachesUp(entries: seq<Entry>, session: Id, up: seq<Entry>)
    requires up != [] && Stops(ById(entries, session), up[|up| - 1].parent, {}, up)
    ensures Reversed(up) != [] && ReachesUp(entries, session, Reversed(up))
  {
    ReversedAt(up, |up| - 1);
    hide Reversed;
    if up[|up| - 1].parent.Some? {
      var top := up[|up| - 1].parent.value;
      if i :| 0 <= i < |up| && up[i].id == top {
        ReversedAt(up, i);
        assert Reversed(up)[|up| - 1 - i].id == top;
      } else {
        forall e | e in entries && e.session == session
          ensures e.id != top
        {
          InById(entries, session, e);
        }
      }
    }
  }

  lemma {:induction false} InById(entries: seq<Entry>, session: Id, e: Entry)
    requires e in entries && e.session == session
    ensures e.id in ById(entries, session)
  {
    var n := |entries| - 1;
    if e != entries[n] {
      assert e in entries[..n];
      InById(entries[..n], session, e);
    }
  }

  lemma {:induction false} FoundIsEntry(entries: seq<Entry>, id: Id)
    ensures FindEntry(entries, id).Some? ==> FindEntry(entries, id).value in entries && FindEntry(entries, id).value.id == id
    ensures FindEntry(entries, id).None? ==> forall e :: e in entries ==> e.id != id
  {
    if entries != [] {
      FoundIsEntry(entries[1..], id);
    }
  }

  lemma LeafIsKnown(entries: seq<Entry>, leafId: Id)
    requires FindEntry(entries, leafId).Some?
    ensures leafId in ById(entries, FindEntry(entries, leafId).value.session)
  {
    FoundIsEntry(entries, leafId);
    InById(entries, FindEntry(entries, leafId).value.session, FindEntry(entries, leafId).value);
  }

  ghost predicate OneEach(entries: seq<Entry>) {
    forall a, b :: a in entries && b in entries && a.id == b.id ==> a == b
  }

  /** The order of the input does not matter, as long as an id names one entry. */
  lemma BranchIgnoresOrder(a: seq<Entry>, b: seq<Entry>, activeLeaf: Option<Id>)
    requires OneEach(a) && forall e :: e in a <==> e in b
    ensures Branch(a, activeLeaf) == Branch(b, activeLeaf)
  {
    if activeLeaf.Some? {
      FoundIsEntry(a, activeLeaf.value);
      FoundIsEntry(b, activeLeaf.value);
      if FindEntry(a, activeLeaf.value).Some? {
        var session := FindEntry(a, activeLeaf.value).value.session;
        forall e | e in a && e.session == session
          ensures e.id in ById(a, session) && e.id in ById(b, session)
        {
          InById(a, session, e);
          InById(b, session, e);
        }
        hide ById, FindEntry, Branch, Upward;
        assert ById(a, session) == ById(b, session);
      }
    }
  }

  // ----- Worker delegations ------------------------------------------------

  datatype Facet = Spawn | Result | Blocked | Rejected | Steered

  /** The properties of a row's data that are read, and any other. */
  datatype Field = ChildBlocked | WillRetry | SteeredBy | Delivered | ChildSessionId | OtherField(name: string)

  /** A string, or any other value. */
  datatype Value = Words(words: string) | OtherValue(raw: string)

  datatype Item = Item(
    key: Id,
    isDelegation: bool,
    data: map<Field, Value>,
    status: Option<string>,
    title: Option<string>,
    text: string)

  /** The facet is read off the data each time. */
  function FacetOf(item: Item): Facet {
    if ChildBlocked in item.data then Blocked
    else if WillRetry in item.data then Rejected
    else if SteeredBy in item.data then Steered
    else if Delivered in item.data then Result
    else Spawn
  }

  /** The worker a row names; an empty name counts as none. */
  function ChildOf(item: Item): Option<string> {
    if ChildSessionId in item.data && item.data[ChildSessionId].Words? && item.data[ChildSessionId].words != ""
    then Some(item.data[ChildSessionId].words)
    else None
  }

  predicate IsSpawn(item: Item) {
    item.isDelegation && FacetOf(item).Spawn? && ChildOf(item).Some?
  }

  predicate IsResult(item: Item) {
    item.isDelegation && FacetOf(item).Result? && ChildOf(item).Some?
  }

  function Child(item: Item): string
    requires ChildOf(item).Some?
  {
    ChildOf(item).value
  }

  const RESULT_PREFIX := "[worker result]"

  /** A worker-result payload is all the text is. */
  predicate IsSummary(text: string) {
    RESULT_PREFIX <= text && Trim(text[|RESULT_PREFIX|..]) != ""
  }

  /** A result joining the panel of its worker: the objective stays, unless there was none. */
  function Joined(panel: Item, result: Item): Item {
    panel.(data := panel.data + result.data,
           status := if result.status.Some? then result.status else panel.status,
           title := if result.title.Some? then result.title else panel.title,
           text := if result.text != "" && panel.text == "" && !IsSummary(result.text) then result.text else panel.text)
  }

  /** A joined panel reads as a result, of the same worker. */
  lemma JoinedReads(panel: Item, result: Item)
    requires (IsSpawn(panel) || IsResult(panel)) && IsResult(result) && Child(result) == Child(panel)
    ensures IsResult(Joined(panel, result)) && Child(Joined(panel, result)) == Child(panel)
    ensures Joined(panel, result).key == panel.key
    ensures panel.text != "" ==> Joined(panel, result).text == panel.text
  {
  }

  /** A spawn with every result of its worker that follows, up to the next spawn of the same worker. */
  function Panel(panel: Item, rest: seq<Item>): Item
    decreases |rest|
  {
    if rest == [] then panel
    else if IsSpawn(rest[0]) && ChildOf(rest[0]) == ChildOf(panel) then panel
    else if IsResult(rest[0]) && ChildOf(rest[0]) == ChildOf(panel) then Panel(Joined(panel, rest[0]), rest[1..])
    else Panel(panel, rest[1..])
  }

  /** Every row in its place, without the results whose worker was spawned before them. */
  function Folded(items: seq<Item>, spawned: set<string>): seq<Item> {
    if items == [] then []
    else if IsSpawn(items[0]) then [Panel(items[0], items[1..])] + Folded(items[1..], spawned + {Child(items[0])})
    else if IsResult(items[0]) && Child(items[0]) in spawned then Folded(items[1..], spawned)
    else [items[0]] + Folded(items[1..], spawned)
  }

  /** The row at `p` is the panel its worker's next result will join. */
  predicate IsOpen(folded: seq<Item>, panels: map<string, nat>, p: nat)
    requires p < |folded|
  {
    ChildOf(folded[p]).Some? && Child(folded[p]) in panels && panels[Child(folded[p])] == p
  }

  /** The rows so far, once the rest has been folded in. */
  function Finished(folded: seq<Item>, panels: map<string, nat>, rest: seq<Item>): (done: seq<Item>)
    ensures |done| == |folded|
  {
    seq(|folded|, p requires 0 <= p < |folded| =>
      if IsOpen(folded, panels, p) then Panel(folded[p], rest) else folded[p])
  }

  predicate PanelsOk(folded: seq<Item>, panels: map<string, nat>) {
    forall c :: c in panels ==>
      panels[c] < |folded| && (IsSpawn(folded[panels[c]]) || IsResult(folded[panels[c]])) && Child(folded[panels[c]]) == c
  }

  /** The whole output, when `items` are still to come. */
  function Outcome(folded: seq<Item>, panels: map<string, nat>, items: seq<Item>): seq<Item> {
    Finished(folded, panels, items) + Folded(items, panels.Keys)
  }

  method FoldWorkerDelegations(items: seq<Item>) returns (folded: seq<Item>)
    ensures folded == Folded(items, {})
  {
    folded := [];
    var panels: map<string, nat> := map[];
    assert items[0..] == items && panels.Keys == {} && Finished(folded, panels, items) == [];
    assert Outcome(folded, panels, items) == [] + Folded(items, {});
    hide Outcome, Folded;
    for i := 0 to |items|
      invariant PanelsOk(folded, panels)
      invariant Outcome(folded, panels, items[i..]) == Folded(items, {})
    {
      var item := items[i];
      assert items[i..] == [item] + items[i + 1..];
      if IsSpawn(item) {
        SpawnFolds(folded, panels, item, items[i + 1..]);
        panels := panels[Child(item) := |folded|];
        folded := folded + [item];
      } else if IsResult(item) && Child(item) in panels {
        JoinedReads(folded[panels[Child(item)]], item);
        ResultFolds(folded, panels, item, items[i + 1..]);
        var at := panels[Child(item)];
        folded := folded[at := Joined(folded[at], item)];
      } else {
        OtherFolds(folded, panels, item, items[i + 1..]);
        folded := folded + [item];
      }
    }
    assert items[|items|..] == [];
    NothingLeft(folded, panels);
  }

  lemma NothingLeft(folded: seq<Item>, panels: map<string, nat>)
    ensures Outcome(folded, panels, []) == folded
  {
    assert Finished(folded, panels, []) == folded;
  }

  lemma Regroup(a: seq<Item>, x: Item, b: seq<Item>)
    ensures a + [x] + b == a + ([x] + b)
  {
  }

  lemma SpawnFolds(folded: seq<Item>, panels: map<string, nat>, item: Item, rest: seq<Item>)
    requires PanelsOk(folded, panels) && IsSpawn(item)
    ensures Outcome(folded + [item], panels[Child(item) := |folded|], rest) == Outcome(folded, panels, [item] + rest)
  {
    assert ([item] + rest)[1..] == rest;
    assert panels[Child(item) := |folded|].Keys == panels.Keys + {Child(item)};
    FinishedStep(folded, panels, item, rest);
    Regroup(Finished(folded, panels, [item] + rest), Panel(item, rest), Folded(rest, panels.Keys + {Child(item)}));
    hide Finished, Panel, PanelsOk;
  }

  lemma ResultFolds(folded: seq<Item>, panels: map<string, nat>, item: Item, rest: seq<Item>)
    requires PanelsOk(folded, panels) && IsResult(item) && Child(item) in panels
    ensures
      var at := panels[Child(item)];
      Outcome(folded[at := Joined(folded[at], item)], panels, rest) == Outcome(folded, panels, [item] + rest)
  {
    assert ([item] + rest)[1..] == rest;
    FinishedStep(folded, panels, item, rest);
    hide Finished, Panel, Joined, PanelsOk;
  }

  lemma OtherFolds(folded: seq<Item>, panels: map<string, nat>, item: Item, rest: seq<Item>)
    requires PanelsOk(folded, panels) && !IsSpawn(item) && !(IsResult(item) && Child(item) in panels)
    ensures Outcome(folded + [item], panels, rest) == Outcome(folded, panels, [item] + rest)
  {
    assert ([item] + rest)[1..] == rest;
    FinishedStep(folded, panels, item, rest);
    Regroup(Finished(folded, panels, [item] + rest), item, Folded(rest, panels.Keys));
    hide Finished, Panel, PanelsOk;
  }

  lemma FinishedStep(folded: seq<Item>, panels: map<string, nat>, item: Item, rest: seq<Item>)
    requires PanelsOk(folded, panels)
    ensures IsSpawn(item) ==>
      Finished(folded + [item], panels[Child(item) := |folded|], rest) == Finished(folded, panels, [item] + rest) + [Panel(item, rest)]
    ensures IsResult(item) && Child(item) in panels ==>
      Finished(folded[panels[Child(item)] := Joined(folded[panels[Child(item)]], item)], panels, rest) ==
        Finished(folded, panels, [item] + rest)
    ensures !IsSpawn(item) && !(IsResult(item) && Child(item) in panels) ==>
      Finished(folded + [item], panels, rest) == Finished(folded, panels, [item] + rest) + [item]
  {
    assert ([item] + rest)[1..] == rest;
  }

  // ----- Nothing is lost ---------------------------------------------------

  /** The result at `i` has an earlier spawn of its worker to join. */
  predicate Joins(items: seq<Item>, i: nat)
    requires i < |items|
  {
    IsResult(items[i]) && exists j :: 0 <= j < i && IsSpawn(items[j]) && Child(items[j]) == Child(items[i])
  }

  function Keys(items: seq<Item>): seq<Id> {
    seq(|items|, i requires 0 <= i < |items| => items[i].key)
  }

  /** The keys, from row `n` on, of the rows that do not join an earlier one. */
  function Staying(items: seq<Item>, n: nat): seq<Id>
    requires n <= |items|
    decreases |items| - n
  {
    if n == |items| then [] else (if Joins(items, n) then [] else [items[n].key]) + Staying(items, n + 1)
  }

  function Spawned(items: seq<Item>): set<string> {
    set item | item in items && IsSpawn(item) :: Child(item)
  }

  /** The first row about worker `c`, if any, is a result. */
  predicate ResultFirst(rest: seq<Item>, c: string) {
    rest != [] &&
    if IsSpawn(rest[0]) && Child(rest[0]) == c then false
    else (IsResult(rest[0]) && Child(rest[0]) == c) || ResultFirst(rest[1..], c)
  }

  /**
   * A panel keeps its key, its worker and its objective. One that no result
   * joins stays what it was; one that a result joins reads as a result.
   */
  lemma {:induction false} PanelKeepsKey(panel: Item, rest: seq<Item>)
    requires IsSpawn(panel) || IsResult(panel)
    ensures
      var after := Panel(panel, rest);
      && after.key == panel.key && ChildOf(after) == ChildOf(panel) && after.isDelegation
      && (panel.text != "" ==> after.text == panel.text)
      && (if ResultFirst(rest, Child(panel)) then FacetOf(after) == Result else after == panel)
    ensures panel.data.Keys <= Panel(panel, rest).data.Keys
    decreases |rest|
  {
    if rest != [] {
      if IsResult(rest[0]) && Child(rest[0]) == Child(panel) {
        JoinedReads(panel, rest[0]);
        PanelKeepsKey(Joined(panel, rest[0]), rest[1..]);
      } else if !(IsSpawn(rest[0]) && Child(rest[0]) == Child(panel)) {
        PanelKeepsKey(panel, rest[1..]);
      }
    }
  }

  lemma JoinsIfSpawned(items: seq<Item>, n: nat)
    requires n < |items|
    ensures Joins(items, n) <==> IsResult(items[n]) && Child(items[n]) in Spawned(items[..n])
    ensures Spawned(items[..n + 1]) == Spawned(items[..n]) + if IsSpawn(items[n]) then {Child(items[n])} else {}
  {
    assert items[..n + 1] == items[..n] + [items[n]];
    if Joins(items, n) {
      var j :| 0 <= j < n && IsSpawn(items[j]) && Child(items[j]) == Child(items[n]);
      assert items[j] in items[..n];
    }
  }

  /** Every row stays in its place under its own key, but for the results that have an earlier spawn to join. */
  lemma {:induction false} FoldingLosesNoRow(items: seq<Item>, n: nat)
    requires n <= |items|
    ensures Keys(Folded(items[n..], Spawned(items[..n]))) == Staying(items, n)
    decreases |items| - n
  {
    if n < |items| {
      FoldingLosesNoRow(items, n + 1);
      JoinsIfSpawned(items, n);
      assert items[n..][1..] == items[n + 1..];
      var rest := Folded(items[n + 1..], Spawned(items[..n + 1]));
      assert items[n..][0] == items[n];
      if IsSpawn(items[n]) {
        PanelKeepsKey(items[n], items[n + 1..]);
        KeysCons(Panel(items[n], items[n + 1..]), rest);
      } else {
        assert Spawned(items[..n + 1]) == Spawned(items[..n]);
        KeysCons(items[n], rest);
        assert [] + Staying(items, n + 1) == Staying(items, n + 1);
      }
      hide Spawned, Panel, Joins, Keys;
    }
  }

  lemma KeysCons(item: Item, rest: seq<Item>)
    ensures Keys([item] + rest) == [item.key] + Keys(rest)
  {
  }

  // ----- What a panel shows ------------------------------------------------

  /** A spawn has none of the four fields, and a result only that it was delivered. */
  lemma FacetsByField(item: Item)
    ensures IsSpawn(item) <==>
      && item.isDelegation && NamesWorker(item)
      && forall field :: field in {ChildBlocked, WillRetry, SteeredBy, Delivered} ==> field !in item.data
    ensures IsResult(item) <==>
      && item.isDelegation && NamesWorker(item) && Delivered in item.data
      && forall field :: field in {ChildBlocked, WillRetry, SteeredBy} ==> field !in item.data
    ensures NamesWorker(item) ==> ChildOf(item) == Some(item.data[ChildSessionId].words)
  {
  }

  /** The child session is given, and as a string that is not empty. */
  ghost predicate NamesWorker(item: Item) {
    exists name: string :: name != "" && ChildSessionId in item.data && item.data[ChildSessionId] == Words(name)
  }

  /** A text is a summary if and only if it begins with the prefix and has something to read behind it. */
  lemma SummaryHasWords(text: string)
    ensures IsSummary(text) <==>
      RESULT_PREFIX <= text && exists i :: |RESULT_PREFIX| <= i < |text| && !IsSpace(text[i])
  {
    if RESULT_PREFIX <= text {
      var rest := text[|RESULT_PREFIX|..];
      SpaceTrimsAway(rest);
      assert forall i :: 0 <= i < |rest| ==> rest[i] == text[|RESULT_PREFIX| + i];
      assert forall i :: |RESULT_PREFIX| <= i < |text| ==> text[i] == rest[i - |RESULT_PREFIX|];
    }
  }

  /** The results of worker `c` up to its next spawn. */
  function Heard(c: string, rest: seq<Item>): seq<Item> {
    if rest == [] then []
    else if IsSpawn(rest[0]) && Child(rest[0]) == c then []
    else if IsResult(rest[0]) && Child(rest[0]) == c then [rest[0]] + Heard(c, rest[1..])
    else Heard(c, rest[1..])
  }

  /** The last one of `first` and what the results carried. */
  function LastStatus(first: Option<string>, heard: seq<Item>): Option<string> {
    if heard == [] then first
    else if heard[|heard| - 1].status.Some? then heard[|heard| - 1].status
    else LastStatus(first, heard[..|heard| - 1])
  }

  function LastTitle(first: Option<string>, heard: seq<Item>): Option<string> {
    if heard == [] then first
    else if heard[|heard| - 1].title.Some? then heard[|heard| - 1].title
    else LastTitle(first, heard[..|heard| - 1])
  }

  function LatestValue(first: map<Field, Value>, heard: seq<Item>, field: Field): Option<Value> {
    if heard == [] then (if field in first then Some(first[field]) else None)
    else if field in heard[|heard| - 1].data then Some(heard[|heard| - 1].data[field])
    else LatestValue(first, heard[..|heard| - 1], field)
  }

  /** The objective, or else the first text of a result that is not a summary. */
  function FirstText(first: string, heard: seq<Item>): string {
    if heard == [] then first
    else
      var n := |heard| - 1;
      var before := FirstText(first, heard[..n]);
      if before != "" || IsSummary(heard[n].text) then before else heard[n].text
  }

  lemma HeardOne(panel: Item, result: Item, field: Field)
    ensures LastStatus(panel.status, [result]) == Joined(panel, result).status
    ensures LastTitle(panel.title, [result]) == Joined(panel, result).title
    ensures LatestValue(panel.data, [result], field) == LatestValue(Joined(panel, result).data, [], field)
    ensures FirstText(panel.text, [result]) == Joined(panel, result).text
  {
    hide IsSummary;
    assert [result][..0] == [];
  }

  lemma {:induction false} HeardFirst(panel: Item, result: Item, later: seq<Item>, field: Field)
    ensures LastStatus(panel.status, [result] + later) == LastStatus(Joined(panel, result).status, later)
    ensures LastTitle(panel.title, [result] + later) == LastTitle(Joined(panel, result).title, later)
    ensures LatestValue(panel.data, [result] + later, field) == LatestValue(Joined(panel, result).data, later, field)
    ensures FirstText(panel.text, [result] + later) == FirstText(Joined(panel, result).text, later)
    decreases |later|
  {
    if later == [] {
      assert [result] + later == [result];
      HeardOne(panel, result, field);
    } else {
      hide IsSummary, Joined;
      var n := |later| - 1;
      HeardFirst(panel, result, later[..n], field);
      var all := [result] + later;
      assert |all| - 1 == n + 1 && all[n + 1] == later[n] && all[..n + 1] == [result] + later[..n];
    }
  }

  /** A panel shows the last status and title its worker's results carried, the latest value of every field, and the first text. */
  lemma {:induction false} PanelShows(panel: Item, rest: seq<Item>, field: Field)
    requires IsSpawn(panel) || IsResult(panel)
    ensures
      var after, heard := Panel(panel, rest), Heard(Child(panel), rest);
      && after.status == LastStatus(panel.status, heard) && after.title == LastTitle(panel.title, heard)
      && (if field in after.data then Some(after.data[field]) else None) == LatestValue(panel.data, heard, field)
      && after.text == FirstText(panel.text, heard)
    decreases |rest|
  {
    if rest != [] {
      if IsResult(rest[0]) && Child(rest[0]) == Child(panel) {
        JoinedReads(panel, rest[0]);
        HeardFirst(panel, rest[0], Heard(Child(panel), rest[1..]), field);
        hide Joined, LastStatus, LastTitle, LatestValue, FirstText;
        PanelShows(Joined(panel, rest[0]), rest[1..], field);
      } else if !(IsSpawn(rest[0]) && Child(rest[0]) == Child(panel)) {
        hide Joined, LastStatus, LastTitle, LatestValue, FirstText;
        PanelShows(panel, rest[1..], field);
      }
    }
  }
}
