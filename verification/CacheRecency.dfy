/**
 * When the cache is the longest recent stretch that fits, over whole runs. A
 * value that shrinks frees room, and what was evicted does not come back for it.
 */
module CacheRecency {
  import opened Wrappers
  import opened InsertionMap
  import opened ForestCache

  lemma {:induction false} WeightConcat<V>(a: Entries<V>, b: Entries<V>)
    ensures Weight(a + b) == Weight(a) + Weight(b)
  {
    if a == [] {
      assert a + b == b;
    } else {
      assert (a + b)[1..] == a[1..] + b;
      WeightConcat(a[1..], b);
    }
  }

  lemma {:induction false} FindConcat<V>(a: Entries<V>, b: Entries<V>, id: string)
    ensures Find(a + b, id) == if Find(a, id).Some? then Find(a, id) else Find(b, id)
    ensures Distinct(a + b) && Find(b, id).Some? ==> Find(a, id).None?
  {
    if a == [] {
      assert a + b == b;
    } else {
      assert (a + b)[1..] == a[1..] + b;
      FindConcat(a[1..], b, id);
    }
  }

  /** Of everything there was, the cache is the longest stretch that fits exactly when the newest evicted entry does not fit too. */
  lemma {:induction false} LongestIff<V>(limits: Limits<V>, gone: Entries<V>, cache: Entries<V>)
    requires Fits(limits, cache)
    ensures Evicted(limits, gone + cache) == cache <==> (gone == [] || !Fits(limits, [gone[|gone| - 1]] + cache))
  {
    var all := gone + cache;
    if gone == [] {
      assert all == cache;
    } else if Fits(limits, [gone[|gone| - 1]] + cache) {
      assert all[|gone| - 1..] == [gone[|gone| - 1]] + cache;
      if Evicted(limits, all) == cache {
        LongerDoesNotFit(limits, all, |gone| - 1);
      }
    } else {
      var init, last := gone[..|gone| - 1], [gone[|gone| - 1]];
      assert all == init + (last + cache) && all[1..] == gone[1..] + cache;
      WeightConcat(init, last + cache);
      LongestIff(limits, gone[1..], cache);
    }
  }

  /** The newest evicted entry would fit beside what is held. */
  predicate HasRoom<V>(limits: Limits<V>, gone: Entries<V>, cache: Entries<V>) {
    gone != [] && Fits(limits, [gone[|gone| - 1]] + cache)
  }

  /** A value only ever replaces one that is no larger, and an oversized one replaces none. */
  ghost predicate OnlyGrows<V>(limits: Limits<V>, actions: seq<Action<V>>) {
    forall n :: 0 <= n < |actions| && actions[n].Set? ==>
      var held := Find(Recency(limits, actions[..n]), actions[n].id);
      held.Some? ==> held.value.bytes <= limits.size(actions[n].value) <= limits.maxBytes
  }

  lemma {:induction false} RecencyDistinct<V>(limits: Limits<V>, actions: seq<Action<V>>)
    ensures Distinct(Recency(limits, actions))
  {
    if actions != [] {
      var n := |actions| - 1;
      var before, id := Recency(limits, actions[..n]), actions[n].id;
      RecencyDistinct(limits, actions[..n]);
      WithoutDistinct(before, id);
      hide Distinct, Without, Find;
      match actions[n]
      case Get(_) =>
        var hit := Find(Run(limits, actions[..n]), id);
        if hit.Some? {
          JoinsDistinct(before, id, hit.value);
        }
      case Set(_, value) =>
        JoinsDistinct(before, id, Held(value, limits.size(value)));
    }
  }

  lemma JoinsDistinct<V>(entries: Entries<V>, id: string, held: Held<V>)
    requires Distinct(entries)
    ensures Distinct(Without(entries, id) + [Entry(id, held)])
  {
    WithoutDistinct(entries, id);
    WithoutFinds(entries, id, id);
    AppendDistinct(Without(entries, id), id, held);
  }

  lemma FitsShrinks<V>(limits: Limits<V>, a: Entries<V>, b: Entries<V>)
    requires !Fits(limits, a) && |b| >= |a| && Weight(b) >= Weight(a)
    ensures !Fits(limits, b)
  {
  }

  function Last<V>(entries: Entries<V>): Entry<string, Held<V>>
    requires entries != []
  {
    entries[|entries| - 1]
  }

  /** The entries once a value no smaller than the one it replaces joined. */
  lemma JoinedGrows<V>(cache: Entries<V>, id: string, held: Held<V>)
    requires Distinct(cache) && (Find(cache, id).Some? ==> Find(cache, id).value.bytes <= held.bytes)
    ensures
      var full := Without(cache, id) + [Entry(id, held)];
      && |full| >= |cache| && Weight(full) >= Weight(cache)
      && (Find(cache, id).None? ==> |full| == |cache| + 1 && Weight(full) == Weight(cache) + held.bytes)
  {
    hide Find, Without, Distinct, Weight;
    WithoutWeight(cache, id);
    WithoutFinds(cache, id, id);
    WeightSnoc(Without(cache, id), Entry(id, held));
  }

  /** A value that joins a full stretch, or outgrows the one it replaces, leaves no room. */
  lemma StoredLeavesNoRoom<V>(limits: Limits<V>, gone: Entries<V>, cache: Entries<V>, id: string, held: Held<V>)
    requires Distinct(gone + cache) && !HasRoom(limits, gone, cache)
    requires Find(gone + cache, id).Some? ==> Find(gone + cache, id).value.bytes <= held.bytes
    ensures !HasRoom(limits, Without(gone, id), Without(cache, id) + [Entry(id, held)])
  {
    var full := Without(cache, id) + [Entry(id, held)];
    var rest := Without(gone, id);
    if rest != [] {
      assert gone != [] && !Fits(limits, [Last(gone)] + cache);
      assert Fits(limits, [Last(rest)] + full) <==> HasRoom(limits, rest, full);
      hide *;
      FindConcat(gone, cache, id);
      ConcatDistinct(gone, cache);
      JoinedGrows(cache, id, held);
      LastStays(gone, cache, id);
      Weighs(Last(gone), cache);
      Weighs(Last(rest), full);
      FitsShrinks(limits, [Last(gone)] + cache, [Last(rest)] + full);
    }
  }

  lemma Weighs<V>(x: Entry<string, Held<V>>, entries: Entries<V>)
    ensures Weight([x] + entries) == x.value.bytes + Weight(entries)
  {
    assert ([x] + entries)[1..] == entries;
  }

  lemma {:induction false} ConcatDistinct<V>(a: Entries<V>, b: Entries<V>)
    requires Distinct(a + b)
    ensures Distinct(a) && Distinct(b)
  {
    if a == [] {
      assert a + b == b;
    } else {
      assert (a + b)[1..] == a[1..] + b;
      ConcatDistinct(a[1..], b);
      FindConcat(a[1..], b, a[0].key);
    }
  }

  /** The last entry stays the last, unless it is the one taken out; then it is the entry that was found. */
  lemma LastStays<V>(gone: Entries<V>, cache: Entries<V>, id: string)
    requires Distinct(gone + cache) && gone != [] && Without(gone, id) != []
    ensures Last(Without(gone, id)) == Last(gone) ||
      (Find(gone + cache, id) == Some(Last(gone).value) && Find(cache, id).None?)
  {
    var init, last := gone[..|gone| - 1], Last(gone);
    assert gone == init + [last];
    WithoutConcat(init, [last], id);
    FindConcat(gone, cache, id);
    FindConcat(init, [last], id);
    ConcatDistinct(gone, cache);
    if last.key == id {
      assert Find([last], id) == Some(last.value);
    } else {
      assert Without([last], id) == [last];
    }
    hide Find, Without, Distinct;
  }

  lemma {:induction false} EvictedPast<V>(limits: Limits<V>, gone: Entries<V>, entries: Entries<V>)
    requires !HasRoom(limits, gone, entries)
    ensures Evicted(limits, gone + entries) == Evicted(limits, entries)
  {
    var all := gone + entries;
    if gone == [] {
      assert all == entries;
    } else {
      var init, last := gone[..|gone| - 1], [gone[|gone| - 1]];
      assert all == init + (last + entries) && all[1..] == gone[1..] + entries;
      WeightConcat(init, last + entries);
      EvictedPast(limits, gone[1..], entries);
    }
  }

  lemma GetIsLongest<V>(limits: Limits<V>, gone: Entries<V>, cache: Entries<V>, id: string)
    requires Distinct(gone + cache) && Fits(limits, cache) && !HasRoom(limits, gone, cache)
    requires Find(cache, id).Some?
    ensures Touched(cache, id) == Evicted(limits, Without(gone + cache, id) + [Entry(id, Find(cache, id).value)])
  {
    FindConcat(gone, cache, id);
    WithoutFinds(gone, id, id);
    WithoutConcat(gone, cache, id);
    ConcatDistinct(gone, cache);
    TouchedKeeps(limits, cache, id);
    WithoutFinds(cache, id, id);
    WithoutWeight(cache, id);
    hide Find, Without, Distinct;
    assert Without(gone + cache, id) + [Entry(id, Find(cache, id).value)] == gone + Touched(cache, id);
    if gone != [] {
      var last := [gone[|gone| - 1]];
      WeightConcat(last, cache);
      WeightConcat(last, Touched(cache, id));
      FitsShrinks(limits, last + cache, last + Touched(cache, id));
    }
    LongestIff(limits, gone, Touched(cache, id));
  }

  lemma SetIsLongest<V>(limits: Limits<V>, gone: Entries<V>, cache: Entries<V>, id: string, held: Held<V>)
    requires Distinct(gone + cache) && !HasRoom(limits, gone, cache)
    requires Find(gone + cache, id).Some? ==> Find(gone + cache, id).value.bytes <= held.bytes
    ensures Evicted(limits, Without(cache, id) + [Entry(id, held)]) ==
      Evicted(limits, Without(gone + cache, id) + [Entry(id, held)])
  {
    hide Find, Without, Distinct, Evicted;
    StoredLeavesNoRoom(limits, gone, cache, id, held);
    WithoutConcat(gone, cache, id);
    var full := Without(cache, id) + [Entry(id, held)];
    assert Without(gone + cache, id) + [Entry(id, held)] == Without(gone, id) + full;
    EvictedPast(limits, Without(gone, id), full);
  }

  lemma OnlyGrowsPrefix<V>(limits: Limits<V>, actions: seq<Action<V>>, n: nat)
    requires OnlyGrows(limits, actions) && n <= |actions|
    ensures OnlyGrows(limits, actions[..n])
  {
    hide Find, Recency;
    forall i | 0 <= i < n
      ensures actions[..n][..i] == actions[..i]
    {
    }
  }

  /** While values only grow, the cache is at all times the longest recent stretch that fits. */
  lemma {:induction false} RunIsLongest<V>(limits: Limits<V>, actions: seq<Action<V>>)
    requires OnlyGrows(limits, actions)
    ensures Run(limits, actions) == Evicted(limits, Recency(limits, actions))
  {
    if actions == [] {
      assert Weight<V>([]) == 0;
    } else {
      var n := |actions| - 1;
      OnlyGrowsPrefix(limits, actions, n);
      RunIsLongest(limits, actions[..n]);
      var gone := RunKeepsNewest(limits, actions[..n]);
      var cache := Run(limits, actions[..n]);
      RecencyDistinct(limits, actions[..n]);
      LongestIff(limits, gone, cache);
      StepIsLongest(limits, actions, gone, cache);
    }
  }

  lemma StepIsLongest<V>(limits: Limits<V>, actions: seq<Action<V>>, gone: Entries<V>, cache: Entries<V>)
    requires actions != [] && OnlyGrows(limits, actions)
    requires cache == Run(limits, actions[..|actions| - 1]) == Evicted(limits, gone + cache)
    requires gone + cache == Recency(limits, actions[..|actions| - 1])
    requires Distinct(gone + cache) && Fits(limits, cache) && !HasRoom(limits, gone, cache)
    ensures Run(limits, actions) == Evicted(limits, Recency(limits, actions))
  {
    hide Find, Without, Distinct, Evicted, Fits, HasRoom;
    match actions[|actions| - 1]
    case Get(id) =>
      if Find(cache, id).Some? {
        GetIsLongest(limits, gone, cache, id);
      }
    case Set(id, value) =>
      if limits.size(value) > limits.maxBytes {
        WithoutFinds(gone + cache, id, id);
        WithoutFinds(cache, id, id);
        FindConcat(gone, cache, id);
      } else {
        SetIsLongest(limits, gone, cache, id, Held(value, limits.size(value)));
      }
  }

  function EntryOf<V>(limits: Limits<V>, id: string, value: V): Entry<string, Held<V>> {
    Entry(id, Held(value, limits.size(value)))
  }

  /**
   * A replacement that shrinks leaves room for what was evicted before, and the
   * room stays empty: of `a` and `b` only one fits until `b` shrinks to `small`.
   */
  lemma ShrinkingLeavesRoom<V>(limits: Limits<V>, a: string, b: string, first: V, second: V, small: V)
    requires a != b && limits.maxEntries >= 2
    requires limits.size(first) <= limits.maxBytes && limits.size(second) <= limits.maxBytes
    requires limits.size(first) + limits.size(second) > limits.maxBytes >= limits.size(first) + limits.size(small)
    ensures
      var actions := [Set(a, first), Set(b, second)] + [Set(b, small)];
      && Run(limits, actions) == [EntryOf(limits, b, small)]
      && Recency(limits, actions) == [EntryOf(limits, a, first), EntryOf(limits, b, small)]
      && Fits(limits, Recency(limits, actions))
  {
    var x, y, z := EntryOf(limits, a, first), EntryOf(limits, b, second), EntryOf(limits, b, small);
    hide Run, Recency, Stored, Without, Evicted, Weight;
    SecondEvictsFirst(limits, a, b, first, second);
    RunSnoc(limits, [Set(a, first), Set(b, second)], b, small);
    StoredAlone(limits, [y], z);
    WithoutPair(x, y);
    TwoWeigh(x, z);
  }

  lemma SecondEvictsFirst<V>(limits: Limits<V>, a: string, b: string, first: V, second: V)
    requires a != b && limits.maxEntries >= 2
    requires limits.size(first) <= limits.maxBytes && limits.size(second) <= limits.maxBytes
    requires limits.size(first) + limits.size(second) > limits.maxBytes
    ensures Run(limits, [Set(a, first), Set(b, second)]) == [EntryOf(limits, b, second)]
    ensures Recency(limits, [Set(a, first), Set(b, second)]) == [EntryOf(limits, a, first)] + [EntryOf(limits, b, second)]
  {
    var x, y := EntryOf(limits, a, first), EntryOf(limits, b, second);
    hide Run, Recency, Stored, Without, Evicted, Weight;
    assert [] + [Set(a, first)] == [Set(a, first)] && [Set(a, first)] + [Set(b, second)] == [Set(a, first), Set(b, second)];
    NothingRun(limits);
    RunSnoc(limits, [], a, first);
    StoredAlone(limits, [], x);
    WithoutPair(x, y);
    assert Recency(limits, [Set(a, first)]) == [x];
    RunSnoc(limits, [Set(a, first)], b, second);
    StoredAlone(limits, [x], y);
  }

  lemma WithoutPair<V>(x: Entry<string, Held<V>>, y: Entry<string, Held<V>>)
    requires x.key != y.key
    ensures Without<string, Held<V>>([], x.key) == [] && Without([x], y.key) == [x] && Without([x] + [y], y.key) == [x]
  {
    WithoutConcat([x], [y], y.key);
    assert [y][1..] == [] && [x][1..] == [];
  }

  lemma NothingRun<V>(limits: Limits<V>)
    ensures Run(limits, []) == Recency(limits, []) == []
  {
  }

  lemma RunSnoc<V>(limits: Limits<V>, actions: seq<Action<V>>, id: string, value: V)
    requires limits.size(value) <= limits.maxBytes
    ensures Run(limits, actions + [Set(id, value)]) == Stored(limits, Run(limits, actions), id, value)
    ensures Recency(limits, actions + [Set(id, value)]) ==
      Without(Recency(limits, actions), id) + [Entry(id, Held(value, limits.size(value)))]
  {
    assert (actions + [Set(id, value)])[..|actions|] == actions;
    hide Stored, Without;
  }

  lemma TwoWeigh<V>(x: Entry<string, Held<V>>, y: Entry<string, Held<V>>)
    ensures Weight([x]) == x.value.bytes && Weight([x, y]) == x.value.bytes + y.value.bytes
  {
    assert [x, y] == [x] + [y];
    WeightConcat([x], [y]);
  }

  /** An entry that does not fit beside the one held leaves it behind. */
  lemma StoredAlone<V>(limits: Limits<V>, entries: Entries<V>, x: Entry<string, Held<V>>)
    requires |entries| <= 1 && limits.maxEntries >= 1
    requires limits.size(x.value.value) == x.value.bytes <= limits.maxBytes
    requires entries != [] ==> entries[0].key == x.key || entries[0].value.bytes + x.value.bytes > limits.maxBytes
    ensures Stored(limits, entries, x.key, x.value.value) == [x]
  {
    var others := Without(entries, x.key);
    if entries != [] {
      assert entries == [entries[0]] && Without(entries[1..], x.key) == [];
    }
    assert others == [] || (others == entries && entries[0].key != x.key);
    hide Without;
    TwoWeigh(x, x);
    if others == [] {
      assert others + [x] == [x];
    } else {
      var y := entries[0];
      assert others + [x] == [y, x] && [y, x][1..] == [x];
      TwoWeigh(y, x);
      hide Weight;
      assert Evicted(limits, [x]) == [x];
    }
  }
}
