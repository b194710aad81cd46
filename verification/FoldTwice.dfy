/**
 * Folding worker results twice. A panel that a result joined reads as a result
 * itself, so an earlier spawn of its worker that nothing joined takes it in.
 */
module FoldTwice {
  import opened TranscriptBranch

  predicate Spawns(item: Item, c: string) {
    IsSpawn(item) && Child(item) == c
  }

  predicate Reports(item: Item, c: string) {
    IsResult(item) && Child(item) == c
  }

  /** Some row is a result of worker `c`. */
  predicate AnyResult(items: seq<Item>, c: string) {
    items != [] && (Reports(items[0], c) || AnyResult(items[1..], c))
  }

  /** A spawn of worker `c` with a result of it somewhere behind. */
  predicate SpawnThenResult(items: seq<Item>, c: string) {
    items != [] && ((Spawns(items[0], c) && AnyResult(items[1..], c)) || SpawnThenResult(items[1..], c))
  }

  /** Worker `c` is spawned, spawned again with no result of it between, and then heard of. */
  predicate Respawned(items: seq<Item>, c: string) {
    items != [] &&
    if Spawns(items[0], c) && !ResultFirst(items[1..], c) then SpawnThenResult(items[1..], c) else Respawned(items[1..], c)
  }

  /** The same, by position. */
  ghost predicate RespawnedAt(items: seq<Item>, c: string, a: nat, b: nat, r: nat) {
    && a < b < r < |items| && Spawns(items[a], c) && Spawns(items[b], c) && Reports(items[r], c)
    && forall i :: a < i < b ==> !Reports(items[i], c)
  }

  // ----- What one fold leaves ----------------------------------------------

  lemma {:induction false} AnyAfterFirst(items: seq<Item>, c: string)
    ensures AnyResult(items, c) <==> ResultFirst(items, c) || SpawnThenResult(items, c)
  {
    if items != [] {
      AnyAfterFirst(items[1..], c);
      hide IsSpawn, IsResult;
      assert Spawns(items[0], c) ==> !Reports(items[0], c) by {
        SpawnIsNoResult(items[0]);
      }
    }
  }

  lemma SpawnIsNoResult(item: Item)
    ensures !(IsSpawn(item) && IsResult(item))
  {
  }

  /** The first row a fold puts out for a spawn. */
  lemma PanelReads(spawn: Item, rest: seq<Item>, c: string)
    requires IsSpawn(spawn)
    ensures Spawns(Panel(spawn, rest), c) <==> Child(spawn) == c && !ResultFirst(rest, c)
    ensures Reports(Panel(spawn, rest), c) <==> Child(spawn) == c && ResultFirst(rest, c)
  {
    PanelKeepsKey(spawn, rest);
    hide Panel, ResultFirst;
  }

  /** Once worker `c` was spawned, a fold leaves a result of it where a spawn had one. */
  lemma {:induction false} FoldedAny(items: seq<Item>, spawned: set<string>, c: string)
    requires c in spawned
    ensures AnyResult(Folded(items, spawned), c) <==> SpawnThenResult(items, c)
    decreases |items|
  {
    if items != [] {
      var first, rest := items[0], items[1..];
      AnyAfterFirst(rest, c);
      if IsSpawn(first) {
        PanelReads(first, rest, c);
        FoldedAny(rest, spawned + {Child(first)}, c);
        AnyCons(Panel(first, rest), Folded(rest, spawned + {Child(first)}), c);
      } else {
        FoldedAny(rest, spawned, c);
        AnyCons(first, Folded(rest, spawned), c);
      }
    }
  }

  lemma AnyCons(item: Item, rest: seq<Item>, c: string)
    ensures AnyResult([item] + rest, c) <==> Reports(item, c) || AnyResult(rest, c)
    ensures SpawnThenResult([item] + rest, c) <==> (Spawns(item, c) && AnyResult(rest, c)) || SpawnThenResult(rest, c)
  {
    assert ([item] + rest)[1..] == rest;
  }

  /** A fold leaves a spawn with a result behind it exactly where a worker was respawned. */
  lemma {:induction false} FoldedSpawnThenResult(items: seq<Item>, spawned: set<string>, c: string)
    ensures SpawnThenResult(Folded(items, spawned), c) <==> Respawned(items, c)
    decreases |items|
  {
    if items != [] {
      var first, rest := items[0], items[1..];
      if IsSpawn(first) {
        var after := Folded(rest, spawned + {Child(first)});
        PanelReads(first, rest, c);
        FoldedSpawnThenResult(rest, spawned + {Child(first)}, c);
        AnyCons(Panel(first, rest), after, c);
        if Child(first) == c {
          FoldedAny(rest, spawned + {c}, c);
          FewerRespawned(rest, c);
        }
      } else {
        FoldedSpawnThenResult(rest, spawned, c);
        AnyCons(first, Folded(rest, spawned), c);
      }
    }
  }

  lemma {:induction false} FewerRespawned(items: seq<Item>, c: string)
    ensures Respawned(items, c) ==> SpawnThenResult(items, c)
  {
    if items != [] {
      FewerRespawned(items[1..], c);
    }
  }

  // ----- What a second fold does -------------------------------------------

  /** Nothing joins: the fold is the list. */
  lemma {:induction false} NothingJoins(items: seq<Item>, spawned: set<string>)
    requires forall c :: !SpawnThenResult(items, c)
    requires forall c :: c in spawned ==> !AnyResult(items, c)
    ensures Folded(items, spawned) == items
    decreases |items|
  {
    if items != [] {
      var first, rest := items[0], items[1..];
      assert items == [first] + rest;
      forall c
        ensures !SpawnThenResult(rest, c) && (c in spawned ==> !AnyResult(rest, c) && !Reports(first, c))
        ensures Spawns(first, c) ==> !AnyResult(rest, c)
      {
        AnyCons(first, rest, c);
      }
      if IsSpawn(first) {
        var c := Child(first);
        assert Spawns(first, c);
        AnyAfterFirst(rest, c);
        PanelKeepsKey(first, rest);
        NothingJoins(rest, spawned + {c});
      } else {
        assert IsResult(first) ==> Reports(first, Child(first));
        NothingJoins(rest, spawned);
      }
    }
  }

  /** A fold is never longer, and shorter when a result joins. */
  lemma {:induction false} FoldedSize(items: seq<Item>, spawned: set<string>, c: string)
    ensures |Folded(items, spawned)| <= |items|
    ensures SpawnThenResult(items, c) || (c in spawned && AnyResult(items, c)) ==> |Folded(items, spawned)| < |items|
    decreases |items|
  {
    if items != [] {
      var first, rest := items[0], items[1..];
      FoldedSize(rest, spawned, c);
      if IsSpawn(first) {
        SpawnIsNoResult(first);
        FoldedSize(rest, spawned + {Child(first)}, c);
      }
    }
  }

  /** Folding what was folded changes nothing if and only if no worker was respawned before it was heard of. */
  lemma FoldingTwice(items: seq<Item>)
    ensures Folded(Folded(items, {}), {}) != Folded(items, {}) <==> exists c :: Respawned(items, c)
  {
    var folded := Folded(items, {});
    hide Folded, Respawned, SpawnThenResult;
    if c :| Respawned(items, c) {
      FoldedSpawnThenResult(items, {}, c);
      FoldedSize(folded, {}, c);
      assert Folded(folded, {}) != folded;
    } else {
      forall c
        ensures !SpawnThenResult(folded, c)
      {
        FoldedSpawnThenResult(items, {}, c);
      }
      NothingJoins(folded, {});
    }
  }

  // ----- The condition by position -----------------------------------------

  /** A spawn with a result behind it and none in front. */
  ghost predicate FreshAt(items: seq<Item>, c: string, b: nat, r: nat) {
    && b < r < |items| && Spawns(items[b], c) && Reports(items[r], c)
    && forall i :: 0 <= i < b ==> !Reports(items[i], c)
  }

  lemma {:induction false} ResultFinds(items: seq<Item>, c: string) returns (r: nat)
    requires AnyResult(items, c)
    ensures r < |items| && Reports(items[r], c)
  {
    if Reports(items[0], c) {
      r := 0;
    } else {
      r := ResultFinds(items[1..], c);
      r := r + 1;
    }
  }

  lemma {:induction false} ResultShows(items: seq<Item>, c: string, r: nat)
    requires r < |items| && Reports(items[r], c)
    ensures AnyResult(items, c)
  {
    if r > 0 {
      ResultShows(items[1..], c, r - 1);
    }
  }

  lemma {:induction false} FreshFinds(items: seq<Item>, c: string) returns (b: nat, r: nat)
    requires !ResultFirst(items, c) && SpawnThenResult(items, c)
    ensures FreshAt(items, c, b, r)
  {
    var rest := items[1..];
    if Spawns(items[0], c) {
      AnyAfterFirst(rest, c);
      r := ResultFinds(rest, c);
      b, r := 0, r + 1;
    } else {
      b, r := FreshFinds(rest, c);
      assert forall i :: 0 < i <= b ==> items[i] == rest[i - 1];
      b, r := b + 1, r + 1;
    }
  }

  lemma {:induction false} FreshShows(items: seq<Item>, c: string, b: nat, r: nat)
    requires FreshAt(items, c, b, r)
    ensures !ResultFirst(items, c) && SpawnThenResult(items, c)
  {
    var rest := items[1..];
    if b == 0 {
      ResultShows(rest, c, r - 1);
    } else {
      assert forall i :: 0 <= i < b ==> rest[i] == items[i + 1];
      FreshShows(rest, c, b - 1, r - 1);
    }
  }

  lemma {:induction false} RespawnFinds(items: seq<Item>, c: string) returns (a: nat, b: nat, r: nat)
    requires Respawned(items, c)
    ensures RespawnedAt(items, c, a, b, r)
  {
    var rest := items[1..];
    if Spawns(items[0], c) && !ResultFirst(rest, c) {
      b, r := FreshFinds(rest, c);
      assert forall i :: 0 < i <= b ==> items[i] == rest[i - 1];
      a, b, r := 0, b + 1, r + 1;
    } else {
      a, b, r := RespawnFinds(rest, c);
      assert forall i :: 0 < i <= b ==> items[i] == rest[i - 1];
      a, b, r := a + 1, b + 1, r + 1;
    }
  }

  lemma {:induction false} RespawnShows(items: seq<Item>, c: string, a: nat, b: nat, r: nat)
    requires RespawnedAt(items, c, a, b, r)
    ensures Respawned(items, c)
  {
    var rest := items[1..];
    assert forall i :: 0 <= i < b ==> rest[i] == items[i + 1];
    if a == 0 {
      FreshShows(rest, c, b - 1, r - 1);
    } else {
      RespawnShows(rest, c, a - 1, b - 1, r - 1);
      FewerRespawned(rest, c);
    }
  }

  /** Folding twice changes something exactly when a worker has two spawns, no result between them, and one behind. */
  lemma FoldingTwiceByPosition(items: seq<Item>)
    ensures Folded(Folded(items, {}), {}) != Folded(items, {}) <==> exists c, a, b, r :: RespawnedAt(items, c, a, b, r)
  {
    FoldingTwice(items);
    if c :| Respawned(items, c) {
      assert exists d :: Respawned(items, d);
      var a, b, r := RespawnFinds(items, c);
      assert RespawnedAt(items, c, a, b, r);
    } else {
      forall c, a: nat, b: nat, r: nat
        ensures !RespawnedAt(items, c, a, b, r)
      {
        if RespawnedAt(items, c, a, b, r) {
          RespawnShows(items, c, a, b, r);
        }
      }
    }
  }
}
