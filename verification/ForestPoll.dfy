/** Digest-gated polling of a session forest that only ever grows. */
module ForestPoll {
  import opened Wrappers

  datatype ForestEntry = ForestEntry(id: string, sequence: int, payload: string)

  datatype Snapshot = Snapshot(entries: seq<ForestEntry>, runtime: string)

  predicate EntriesUnchanged(current: Snapshot, next: Snapshot) {
    && |current.entries| == |next.entries|
    && (current.entries != [] ==>
          var a, b := current.entries[|current.entries| - 1], next.entries[|next.entries| - 1];
          a.id == b.id && a.sequence == b.sequence)
  }

  function MergeForestSnapshot(current: Option<Snapshot>, next: Snapshot): Snapshot {
    if current.Some? && EntriesUnchanged(current.value, next) then next.(entries := current.value.entries) else next
  }

  /** The last entries have the same id and sequence. */
  predicate EndAlike(a: seq<ForestEntry>, b: seq<ForestEntry>) {
    a == [] || b == [] || (a[|a| - 1].id == b[|b| - 1].id && a[|a| - 1].sequence == b[|b| - 1].sequence)
  }

  /** The entries on screen are kept when as many came and the last one is the same; all else is what came. */
  lemma MergeKeepsEntries(current: Snapshot, next: Snapshot)
    ensures
      var merged := MergeForestSnapshot(Some(current), next);
      && merged.runtime == next.runtime && MergeForestSnapshot(None, next) == next
      && merged.entries ==
        if |current.entries| == |next.entries| && EndAlike(current.entries, next.entries) then current.entries else next.entries
  {
  }

  /** An entry as the backend stores it. It is never changed again. */
  datatype StoredEntry = StoredEntry(id: string, parent: Option<string>, sequence: int, payload: string)

  /** `rows` run down one branch, each the parent of the next. */
  predicate IsBranch(rows: seq<StoredEntry>, log: seq<StoredEntry>) {
    && (forall i :: 0 <= i < |rows| ==> rows[i] in log)
    && (forall i :: 0 <= i < |rows| - 1 ==> rows[i + 1].parent == Some(rows[i].id))
  }

  predicate UniqueIds(log: seq<StoredEntry>) {
    forall i, j :: 0 <= i < j < |log| ==> log[i].id != log[j].id
  }

  /**
   * What a snapshot sends of a branch. Long texts are shortened to a cap, which
   * depends on all else that has to fit into the frame.
   */
  function Sent(shorten: (nat, string) -> string, cap: nat, rows: seq<StoredEntry>): (entries: seq<ForestEntry>)
    ensures |entries| == |rows|
  {
    seq(|rows|, i requires 0 <= i < |rows| => ForestEntry(rows[i].id, rows[i].sequence, shorten(cap, rows[i].payload)))
  }

  /** On an append-only log a branch is known by its last entry and its length. */
  lemma {:induction false} SameBranch(a: seq<StoredEntry>, b: seq<StoredEntry>, log: seq<StoredEntry>)
    requires IsBranch(a, log) && IsBranch(b, log) && UniqueIds(log)
    requires |a| == |b| && (a != [] ==> a[|a| - 1].id == b[|b| - 1].id)
    ensures a == b
  {
    if a != [] {
      var n := |a| - 1;
      var i :| 0 <= i < |log| && log[i] == a[n];
      var j :| 0 <= j < |log| && log[j] == b[n];
      assert a == a[..n] + [a[n]] && b == b[..n] + [b[n]];
      SameBranch(a[..n], b[..n], log);
    }
  }

  /**
   * Keeping the old entry array shows what the new snapshot has if and only if,
   * where the two are taken for unchanged, both shorten every payload alike.
   */
  lemma MergeShowsNextIff(shorten: (nat, string) -> string, before: seq<StoredEntry>, log: seq<StoredEntry>,
                          rows: seq<StoredEntry>, cap: nat, rows': seq<StoredEntry>, cap': nat,
                          runtime: string, runtime': string)
    requires before <= log && UniqueIds(log) && IsBranch(rows, before) && IsBranch(rows', log)
    ensures
      var current, next := Snapshot(Sent(shorten, cap, rows), runtime), Snapshot(Sent(shorten, cap', rows'), runtime');
      MergeForestSnapshot(Some(current), next) == next <==>
        (EntriesUnchanged(current, next) ==>
           forall i :: 0 <= i < |rows| ==> shorten(cap, rows[i].payload) == shorten(cap', rows[i].payload))
  {
    var shown, given := Sent(shorten, cap, rows), Sent(shorten, cap', rows');
    var current, next := Snapshot(shown, runtime), Snapshot(given, runtime');
    if EntriesUnchanged(current, next) {
      assert IsBranch(rows, log);
      SameBranch(rows, rows', log);
      if shown == given {
        forall i | 0 <= i < |rows|
          ensures shorten(cap, rows[i].payload) == shorten(cap', rows[i].payload)
        {
          assert shown[i] == given[i];
        }
      }
    }
  }

  /** With one cap for both, the old array never shows anything else. */
  lemma MergeShowsNext(shorten: (nat, string) -> string, cap: nat, before: seq<StoredEntry>, log: seq<StoredEntry>,
                       rows: seq<StoredEntry>, rows': seq<StoredEntry>, runtime: string, runtime': string)
    requires before <= log && UniqueIds(log) && IsBranch(rows, before) && IsBranch(rows', log)
    ensures
      var next := Snapshot(Sent(shorten, cap, rows'), runtime');
      MergeForestSnapshot(Some(Snapshot(Sent(shorten, cap, rows), runtime)), next) == next
  {
    MergeShowsNextIff(shorten, before, log, rows, cap, rows', cap, runtime, runtime');
  }

  // ----- When a poll may skip its fetch ------------------------------------

  datatype Phase = Idle | Fetching(digest: Option<string>, readAt: nat)

  /** The hook's refs, and the backend's version; what is shown is the version it was read at. */
  datatype State = State(version: nat, shown: Option<nat>, digestRef: string, pollsSinceFullFetch: nat, phase: Phase, skips: nat)

  const Mounted := State(0, None, "", 0, Idle, 0)

  /** `at` is the version a fetch read, some time between the digest and now. */
  datatype Action = BackendGrows | DigestRead(ok: bool) | FetchReturns(ok: bool, at: nat)

  predicate Skips(digest: nat -> string, s: State, a: Action) {
    && a.DigestRead? && s.phase.Idle? && a.ok && s.pollsSinceFullFetch < 9
    && digest(s.version) == s.digestRef
  }

  function Step(digest: nat -> string, s: State, a: Action): State {
    match a
    case BackendGrows => s.(version := s.version + 1)
    case DigestRead(ok) =>
      if !s.phase.Idle? then s
      else if Skips(digest, s, a) then s.(pollsSinceFullFetch := s.pollsSinceFullFetch + 1, skips := s.skips + 1)
      else s.(phase := Fetching(if ok then Some(digest(s.version)) else None, s.version))
    case FetchReturns(ok, at) =>
      if s.phase.Idle? || !(s.phase.readAt <= at <= s.version) then s
      else
        var done := s.(pollsSinceFullFetch := 0, phase := Idle, skips := 0);
        if ok then done.(digestRef := s.phase.digest.Or(""), shown := Some(at)) else done
  }

  function Run(digest: nat -> string, actions: seq<Action>): State {
    if actions == [] then Mounted
    else Step(digest, Run(digest, actions[..|actions| - 1]), actions[|actions| - 1])
  }

  /** The remembered digest is of a version no newer than the shown one. */
  ghost predicate Valid(digest: nat -> string, s: State) {
    && (s.digestRef != "" ==> s.shown.Some? && exists v: nat :: v <= s.shown.value && digest(v) == s.digestRef)
    && (s.shown.Some? ==> s.shown.value <= s.version)
    && s.skips == s.pollsSinceFullFetch <= 9
    && (s.phase.Fetching? ==> s.phase.readAt <= s.version && s.phase.digest in {None, Some(digest(s.phase.readAt))})
  }

  lemma StepValid(digest: nat -> string, s: State, a: Action)
    requires Valid(digest, s)
    ensures Valid(digest, Step(digest, s, a))
  {
  }

  /** Different versions have different digests, none of them empty. */
  ghost predicate IsDigest(digest: nat -> string) {
    (forall v: nat, w: nat :: digest(v) == digest(w) ==> v == w) && forall v: nat :: digest(v) != ""
  }

  /** A skipped poll would have fetched what is already shown, and at most nine are skipped in a row. */
  lemma {:induction false} SkipIsSafe(digest: nat -> string, actions: seq<Action>, a: Action)
    requires IsDigest(digest)
    ensures Valid(digest, Run(digest, actions)) && Run(digest, actions).skips <= 9
    ensures Skips(digest, Run(digest, actions), a) ==> Run(digest, actions).shown == Some(Run(digest, actions).version)
    decreases |actions|
  {
    if actions != [] {
      var n := |actions| - 1;
      SkipIsSafe(digest, actions[..n], a);
      StepValid(digest, Run(digest, actions[..n]), actions[n]);
    }
    var s := Run(digest, actions);
    if Skips(digest, s, a) {
      var v: nat :| v <= s.shown.value && digest(v) == s.digestRef;
    }
  }

  /** The hook's refs as it updates them. */
  class PolledForest {
    const digest: nat -> string
    var version: nat
    var shown: Option<nat>
    var digestRef: string
    var pollsSinceFullFetch: nat
    var phase: Phase
    var skips: nat

    ghost function View(): State
      reads this
    {
      State(version, shown, digestRef, pollsSinceFullFetch, phase, skips)
    }

    /** `refresh` up to the second await. */
    method OnDigest(ok: bool)
      requires phase.Idle?
      modifies this
      ensures View() == Step(digest, old(View()), DigestRead(ok))
    {
      var read := if ok then Some(digest(version)) else None;
      var force := pollsSinceFullFetch >= 9 || read.None?;
      if !force && read.value == digestRef {
        pollsSinceFullFetch := pollsSinceFullFetch + 1;
        skips := skips + 1;
        return;
      }
      phase := Fetching(read, version);
    }

    /** `refresh` after the snapshot came back, or did not. */
    method OnSnapshot(ok: bool, at: nat)
      requires phase.Fetching? && phase.readAt <= at <= version
      modifies this
      ensures View() == Step(digest, old(View()), FetchReturns(ok, at))
    {
      pollsSinceFullFetch := 0;
      skips := 0;
      if ok {
        digestRef := phase.digest.Or("");
        shown := Some(at);
      }
      phase := Idle;
    }
  }

  // ----- When a poll does skip ---------------------------------------------

  /** The digest read before the last fetch that brought a snapshot; empty if there was none, or it could not be read. */
  function LastDigest(digest: nat -> string, actions: seq<Action>): string {
    if actions == [] then ""
    else
      var n := |actions| - 1;
      var s := Run(digest, actions[..n]);
      if actions[n].FetchReturns? && actions[n].ok && s.phase.Fetching? && s.phase.readAt <= actions[n].at <= s.version
      then s.phase.digest.Or("")
      else LastDigest(digest, actions[..n])
  }

  /** The polls since the last fetch ended, none of which fetched. */
  function PollsSince(digest: nat -> string, actions: seq<Action>): nat {
    if actions == [] then 0
    else
      var n := |actions| - 1;
      var s, before := Run(digest, actions[..n]), PollsSince(digest, actions[..n]);
      match actions[n]
      case FetchReturns(_, at) => if s.phase.Fetching? && s.phase.readAt <= at <= s.version then 0 else before
      case DigestRead(_) => if s.phase.Idle? && Run(digest, actions).phase.Idle? then before + 1 else before
      case BackendGrows => before
  }

  lemma {:induction false} RefsAre(digest: nat -> string, actions: seq<Action>)
    ensures Run(digest, actions).digestRef == LastDigest(digest, actions)
    ensures Run(digest, actions).pollsSinceFullFetch == PollsSince(digest, actions)
  {
    if actions != [] {
      RefsAre(digest, actions[..|actions| - 1]);
    }
  }

  /**
   * A poll ends without a fetch if and only if its digest could be read, is the
   * one of the last snapshot, and fewer than nine polls went without one since.
   */
  lemma PollSkipsIff(digest: nat -> string, actions: seq<Action>, ok: bool)
    requires Run(digest, actions).phase.Idle?
    ensures
      var s, t := Run(digest, actions), Run(digest, actions + [DigestRead(ok)]);
      && (t.phase.Idle? <==> ok && digest(s.version) == LastDigest(digest, actions) && PollsSince(digest, actions) < 9)
      && (t.phase.Fetching? ==> t.phase == Fetching(if ok then Some(digest(s.version)) else None, s.version))
  {
    RefsAre(digest, actions);
    assert (actions + [DigestRead(ok)])[..|actions|] == actions;
    hide LastDigest, PollsSince;
  }
}
