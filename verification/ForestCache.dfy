/** The least-recently-used cache of session forests, bounded in entries and in bytes. */
module ForestCache {
  import opened Wrappers
  import opened InsertionMap

  datatype Held<+V> = Held(value: V, bytes: nat)

  type Entries<V> = seq<Entry<string, Held<V>>>

  /** The limits, and the size a value is counted with. */
  datatype Limits<!V> = Limits(maxEntries: nat, maxBytes: nat, size: V -> nat)

  function Weight<V>(entries: Entries<V>): nat {
    if entries == [] then 0 else entries[0].value.bytes + Weight(entries[1..])
  }

  predicate Fits<V>(limits: Limits<V>, entries: Entries<V>) {
    |entries| <= limits.maxEntries && Weight(entries) <= limits.maxBytes
  }

  /** The longest tail that fits. */
  function Evicted<V>(limits: Limits<V>, entries: Entries<V>): (kept: Entries<V>)
    ensures |kept| <= |entries| && kept == entries[|entries| - |kept|..]
    ensures Fits(limits, kept)
  {
    if Fits(limits, entries) then entries
    else
      var kept := Evicted(limits, entries[1..]);
      assert entries[1..][|entries| - 1 - |kept|..] == entries[|entries| - |kept|..];
      kept
  }

  function Touched<V>(entries: Entries<V>, id: string): Entries<V> {
    if Find(entries, id).None? then entries
    else Without(entries, id) + [Entry(id, Find(entries, id).value)]
  }

  function Stored<V>(limits: Limits<V>, entries: Entries<V>, id: string, value: V): Entries<V> {
    var bytes := limits.size(value);
    var others := Without(entries, id);
    if bytes > limits.maxBytes then others
    else Evicted(limits, others + [Entry(id, Held(value, bytes))])
  }

  class Cache<V> {
    const limits: Limits<V>
    var entries: Entries<V>
    var bytes: nat

    /** `bytes` is the sum of what is held, and both limits hold. */
    ghost predicate Valid()
      reads this
    {
      Distinct(entries) && Fits(limits, entries) && bytes == Weight(entries)
    }

    constructor (limits: Limits<V>)
      ensures Valid() && this.limits == limits && entries == []
    {
      this.limits := limits;
      entries, bytes := [], 0;
    }

    method Get(id: string) returns (value: Option<V>)
      requires Valid()
      modifies this
      ensures Valid() && entries == Touched(old(entries), id)
      ensures value == if Find(old(entries), id).Some? then Some(Find(old(entries), id).value.value) else None
    {
      var entry := Find(entries, id);
      if entry.None? {
        return None;
      }
      TouchedKeeps(limits, entries, id);
      entries := Without(entries, id);
      entries := entries + [Entry(id, entry.value)];
      value := Some(entry.value.value);
    }

    method Set(id: string, value: V)
      requires Valid()
      modifies this
      ensures Valid() && entries == Stored(limits, old(entries), id, value)
    {
      StoredKeeps(limits, entries, id, value);
      WithoutWeight(entries, id);
      var previous := Find(entries, id);
      if previous.Some? {
        bytes := bytes - previous.value.bytes;
      }
      entries := Without(entries, id);
      var size := limits.size(value);
      if size > limits.maxBytes {
        return;
      }
      WeightSnoc(entries, Entry(id, Held(value, size)));
      entries := entries + [Entry(id, Held(value, size))];
      bytes := bytes + size;
      ghost var full := entries;
      while |entries| > limits.maxEntries || bytes > limits.maxBytes
        invariant bytes == Weight(entries)
        invariant Evicted(limits, entries) == Evicted(limits, full)
        decreases |entries|
      {
        bytes := bytes - entries[0].value.bytes;
        entries := entries[1..];
      }
    }
  }

  lemma {:induction false} WeightSnoc<V>(entries: Entries<V>, entry: Entry<string, Held<V>>)
    ensures Weight(entries + [entry]) == Weight(entries) + entry.value.bytes
  {
    if entries != [] {
      assert (entries + [entry])[1..] == entries[1..] + [entry];
      WeightSnoc(entries[1..], entry);
    }
  }

  lemma {:induction false} WithoutWeight<V>(entries: Entries<V>, id: string)
    requires Distinct(entries)
    ensures Weight(entries) == Weight(Without(entries, id)) + if Find(entries, id).Some? then Find(entries, id).value.bytes else 0
    ensures |entries| == |Without(entries, id)| + if Find(entries, id).Some? then 1 else 0
  {
    if entries != [] {
      WithoutWeight(entries[1..], id);
      WithoutFinds(entries[1..], id, id);
    }
  }

  lemma {:induction false} AppendDistinct<V>(entries: Entries<V>, id: string, held: Held<V>)
    requires Distinct(entries) && Find(entries, id).None?
    ensures Distinct(entries + [Entry(id, held)])
    ensures forall other: string :: Find(entries + [Entry(id, held)], other) == if other == id then Some(held) else Find(entries, other)
  {
    if entries != [] {
      assert (entries + [Entry(id, held)])[1..] == entries[1..] + [Entry(id, held)];
      AppendDistinct(entries[1..], id, held);
    }
  }

  lemma TouchedKeeps<V>(limits: Limits<V>, entries: Entries<V>, id: string)
    requires Distinct(entries) && Fits(limits, entries)
    ensures Distinct(Touched(entries, id)) && Fits(limits, Touched(entries, id))
    ensures Weight(Touched(entries, id)) == Weight(entries)
    ensures forall other: string :: Find(Touched(entries, id), other) == Find(entries, other)
  {
    if Find(entries, id).Some? {
      var held := Find(entries, id).value;
      WithoutDistinct(entries, id);
      WithoutWeight(entries, id);
      forall other: string {
        WithoutFinds(entries, id, other);
      }
      AppendDistinct(Without(entries, id), id, held);
      WeightSnoc(Without(entries, id), Entry(id, held));
    }
  }

  lemma {:induction false} EvictedKeeps<V>(limits: Limits<V>, entries: Entries<V>)
    requires Distinct(entries)
    ensures Distinct(Evicted(limits, entries))
    ensures forall id: string :: Find(Evicted(limits, entries), id).Some? ==> Find(Evicted(limits, entries), id) == Find(entries, id)
  {
    if !Fits(limits, entries) {
      EvictedKeeps(limits, entries[1..]);
      forall id: string | Find(Evicted(limits, entries), id).Some?
        ensures Find(entries[1..], id) == Find(entries, id)
      {
      }
    }
  }

  /** `after` holds `id` as `held` or not at all, and of the others at most what was there. */
  ghost predicate Replaces<V>(before: Entries<V>, after: Entries<V>, id: string, held: Held<V>) {
    && (Find(after, id).Some? ==> Find(after, id) == Some(held))
    && forall other: string :: other != id && Find(after, other).Some? ==> Find(after, other) == Find(before, other)
  }

  lemma EvictedReplaces<V>(limits: Limits<V>, before: Entries<V>, others: Entries<V>, id: string, held: Held<V>)
    requires Distinct(others) && Find(others, id).None? && Replaces(before, others, id, held)
    ensures Distinct(Evicted(limits, others + [Entry(id, held)]))
    ensures Replaces(before, Evicted(limits, others + [Entry(id, held)]), id, held)
  {
    hide Find, Distinct, Evicted;
    AppendDistinct(others, id, held);
    EvictedKeeps(limits, others + [Entry(id, held)]);
  }

  lemma StoredFits<V>(limits: Limits<V>, entries: Entries<V>, id: string, value: V)
    requires Distinct(entries) && Fits(limits, entries)
    ensures Fits(limits, Stored(limits, entries, id, value))
  {
    WithoutWeight(entries, id);
  }

  lemma WithoutReplaces<V>(entries: Entries<V>, id: string, held: Held<V>)
    ensures Find(Without(entries, id), id).None? && Replaces(entries, Without(entries, id), id, held)
  {
    hide Find, Without;
    forall other: string {
      WithoutFinds(entries, id, other);
    }
  }

  lemma StoredKeeps<V>(limits: Limits<V>, entries: Entries<V>, id: string, value: V)
    requires Distinct(entries) && Fits(limits, entries)
    ensures Distinct(Stored(limits, entries, id, value)) && Fits(limits, Stored(limits, entries, id, value))
    ensures Replaces(entries, Stored(limits, entries, id, value), id, Held(value, limits.size(value)))
  {
    hide Without, Find, Distinct, Evicted, Fits, Replaces;
    StoredFits(limits, entries, id, value);
    WithoutDistinct(entries, id);
    WithoutReplaces(entries, id, Held(value, limits.size(value)));
    EvictedReplaces(limits, entries, Without(entries, id), id, Held(value, limits.size(value)));
  }

  // ----- What eviction keeps -----------------------------------------------

  lemma {:induction false} LongerDoesNotFit<V>(limits: Limits<V>, entries: Entries<V>, i: nat)
    requires i < |entries| - |Evicted(limits, entries)|
    ensures !Fits(limits, entries[i..])
  {
    if i == 0 {
      assert entries[0..] == entries;
    } else {
      LongerDoesNotFit(limits, entries[1..], i - 1);
      assert entries[1..][i - 1..] == entries[i..];
    }
  }

  lemma {:induction false} NewestStays<V>(limits: Limits<V>, entries: Entries<V>)
    requires entries != [] && limits.maxEntries > 0 && entries[|entries| - 1].value.bytes <= limits.maxBytes
    ensures Evicted(limits, entries) != []
    ensures Evicted(limits, entries)[|Evicted(limits, entries)| - 1] == entries[|entries| - 1]
  {
    if |entries| == 1 {
      assert Weight(entries) == entries[0].value.bytes + Weight(entries[1..]);
    } else if !Fits(limits, entries) {
      NewestStays(limits, entries[1..]);
    }
  }

  /** A value is kept the moment it is set exactly when it fits on its own. */
  lemma SetThenGet<V>(limits: Limits<V>, entries: Entries<V>, id: string, value: V)
    requires Distinct(entries) && Fits(limits, entries) && limits.maxEntries > 0
    ensures Find(Stored(limits, entries, id, value), id) ==
      if limits.size(value) <= limits.maxBytes then Some(Held(value, limits.size(value))) else None
  {
    var held := Held(value, limits.size(value));
    var others := Without(entries, id);
    WithoutFinds(entries, id, id);
    WithoutDistinct(entries, id);
    if held.bytes <= limits.maxBytes {
      AppendDistinct(others, id, held);
      NewestStays(limits, others + [Entry(id, held)]);
      var kept := Evicted(limits, others + [Entry(id, held)]);
      EvictedKeeps(limits, others + [Entry(id, held)]);
      FindsLast(kept);
    }
  }

  lemma {:induction false} FindsLast<V>(entries: Entries<V>)
    requires entries != []
    ensures Find(entries, entries[|entries| - 1].key).Some?
  {
    if |entries| > 1 {
      FindsLast(entries[1..]);
    }
  }

  // ----- Whole runs --------------------------------------------------------

  datatype Action<+V> = Get(id: string) | Set(id: string, value: V)

  function Run<V>(limits: Limits<V>, actions: seq<Action<V>>): Entries<V> {
    if actions == [] then []
    else
      var n := |actions| - 1;
      var before := Run(limits, actions[..n]);
      match actions[n]
      case Get(id) => Touched(before, id)
      case Set(id, value) => Stored(limits, before, id, value)
  }

  /** The same run with nothing evicted: every value still wanted, least recently used first. */
  function Recency<V>(limits: Limits<V>, actions: seq<Action<V>>): Entries<V> {
    if actions == [] then []
    else
      var n := |actions| - 1;
      var before := Recency(limits, actions[..n]);
      match actions[n]
      case Get(id) =>
        var hit := Find(Run(limits, actions[..n]), id);
        if hit.None? then before else Without(before, id) + [Entry(id, hit.value)]
      case Set(id, value) =>
        if limits.size(value) > limits.maxBytes then Without(before, id)
        else Without(before, id) + [Entry(id, Held(value, limits.size(value)))]
  }

  /** The value `id` was last set to. */
  function LastSet<V>(actions: seq<Action<V>>, id: string): Option<V> {
    if actions == [] then None
    else
      var n := |actions| - 1;
      if actions[n].Set? && actions[n].id == id then Some(actions[n].value) else LastSet(actions[..n], id)
  }

  lemma {:induction false} WithoutConcat<V>(a: Entries<V>, b: Entries<V>, id: string)
    ensures Without(a + b, id) == Without(a, id) + Without(b, id)
  {
    if a == [] {
      assert a + b == b;
    } else {
      assert (a + b)[1..] == a[1..] + b;
      WithoutConcat(a[1..], b, id);
    }
  }

  lemma TouchKeepsEnd<V>(limits: Limits<V>, gone: Entries<V>, cache: Entries<V>, id: string)
    requires Find(cache, id).Some?
    ensures Without(gone + cache, id) + [Entry(id, Find(cache, id).value)] == Without(gone, id) + Touched(cache, id)
  {
    WithoutConcat(gone, cache, id);
  }

  /** What is evicted is the old end of what was there, with the new entry behind it. */
  lemma StoreKeepsEnd<V>(limits: Limits<V>, gone: Entries<V>, cache: Entries<V>, id: string, value: V) returns (gone': Entries<V>)
    ensures
      var size := limits.size(value);
      var others := Without(gone + cache, id);
      (if size > limits.maxBytes then others else others + [Entry(id, Held(value, size))]) ==
        gone' + Stored(limits, cache, id, value)
  {
    hide Without, Evicted;
    var size := limits.size(value);
    WithoutConcat(gone, cache, id);
    if size > limits.maxBytes {
      gone' := Without(gone, id);
    } else {
      var full := Without(cache, id) + [Entry(id, Held(value, size))];
      var kept := Evicted(limits, full);
      assert full == full[..|full| - |kept|] + kept;
      gone' := Without(gone, id) + full[..|full| - |kept|];
    }
  }

  /** Over every run the cache is within its limits and is the recent end of the recency list. */
  lemma {:induction false} RunKeepsNewest<V>(limits: Limits<V>, actions: seq<Action<V>>) returns (gone: Entries<V>)
    ensures Distinct(Run(limits, actions)) && Fits(limits, Run(limits, actions))
    ensures Recency(limits, actions) == gone + Run(limits, actions)
  {
    if actions == [] {
      gone := [];
    } else {
      var n := |actions| - 1;
      gone := RunKeepsNewest(limits, actions[..n]);
      var cache := Run(limits, actions[..n]);
      match actions[n]
      case Get(id) =>
        TouchedKeeps(limits, cache, id);
        if Find(cache, id).Some? {
          TouchKeepsEnd(limits, gone, cache, id);
          gone := Without(gone, id);
        }
        hide Touched, Find, Without, Distinct, Fits;
      case Set(id, value) =>
        StoredKeeps(limits, cache, id, value);
        gone := StoreKeepsEnd(limits, gone, cache, id, value);
        hide Stored, Find, Without, Distinct, Fits;
    }
  }

  /** What a cache hit returns is what was last set. */
  lemma {:induction false} HitIsLastSet<V>(limits: Limits<V>, actions: seq<Action<V>>, id: string)
    requires Find(Run(limits, actions), id).Some?
    ensures LastSet(actions, id) == Some(Find(Run(limits, actions), id).value.value)
  {
    var n := |actions| - 1;
    var gone := RunKeepsNewest(limits, actions[..n]);
    var cache := Run(limits, actions[..n]);
    match actions[n]
    case Get(other) =>
      TouchedKeeps(limits, cache, other);
      HitIsLastSet(limits, actions[..n], id);
    case Set(other, value) =>
      StoredKeeps(limits, cache, other, value);
      if other != id {
        HitIsLastSet(limits, actions[..n], id);
      }
  }
}
