/** What the display scheduler keeps over every run, and what its window shows. */
module SchedulerLaws {
  import opened Wrappers
  import opened InsertionMap
  import opened AgentEvents
  import opened BatchLaws
  import opened DisplayScheduler
  import opened QueueMeetings

  // ----- What every action keeps -------------------------------------------

  /** Frame and timer are armed together, and the clock holds exactly what is armed. */
  predicate ClockAgrees(s: State) {
    && (s.frame.Some? <==> s.timeout.Some?)
    && s.frames == IdSet(s.frame) && s.timers == IdSet(s.timeout)
  }

  predicate SessionsBounded(s: State) {
    |s.firstContent| <= MAX_SESSIONS && Distinct(s.firstContent)
  }

  /** The queue is bounded, and something will always come to drain it. */
  predicate Sound(s: State) {
    && ClockAgrees(s)
    && SessionsBounded(s)
    && |s.queue| < MAX_PENDING_AGENT_EVENTS
    && (s.queue != [] ==> s.frame.Some?)
    && (s.disposed ==> s.queue == [] && s.frame.None?)
  }

  lemma {:induction false} TrimmedKeeps(m: seq<Entry<string, bool>>, k: string, v: bool)
    requires Distinct(m)
    ensures Distinct(Trimmed(m)) && |Trimmed(m)| <= MAX_SESSIONS
    ensures Find(Trimmed(m), k).Some? ==> Find(Trimmed(m), k) == Find(m, k)
    ensures |m| <= MAX_SESSIONS ==> Trimmed(m) == m
  {
    if |m| > MAX_SESSIONS {
      TrimmedKeeps(m[1..], k, v);
    }
  }

  lemma AnnouncedKeeps(s: State, e: Event)
    requires Distinct(s.firstContent) && |s.firstContent| <= MAX_SESSIONS
    ensures Distinct(Announced(s, e)) && |Announced(s, e)| <= MAX_SESSIONS
    ensures Find(Announced(s, e), e.session).Some?
    ensures Find(s.firstContent, e.session).None? || e.kind.TurnStarted? ==> Find(Announced(s, e), e.session) == Some(true)
    ensures forall k :: k != e.session && Find(Announced(s, e), k).Some? ==> Find(Announced(s, e), k) == Find(s.firstContent, k)
    ensures Find(s.firstContent, e.session).Some? && !e.kind.TurnStarted? ==> Announced(s, e) == s.firstContent
  {
    var m := s.firstContent;
    TrimmedKeeps(m, e.session, true);
    PutDistinct(m, e.session, true);
    var put := Put(m, e.session, true);
    forall k: string
      ensures k != e.session && Find(Trimmed(put), k).Some? ==> Find(Trimmed(put), k) == Find(m, k)
    {
      PutFinds(m, e.session, true, k);
      TrimmedKeeps(put, k, true);
    }
    PutFinds(m, e.session, true, e.session);
    TrimmedKeeps(put, e.session, true);
    if |put| > MAX_SESSIONS {
      assert put == m + [Entry(e.session, true)];
      assert |put| == MAX_SESSIONS + 1;
      assert Trimmed(put) == put[1..];
      assert put[1..] == m[1..] + [Entry(e.session, true)];
      PutFinds(m[1..], e.session, true, e.session);
      assert Find(m[1..], e.session).None?;
    }
  }

  /** At most one event joins, so a queue with room left never loses one to the count. */
  lemma MergedGrowsByOne(queue: seq<Event>, e: Event)
    ensures |Merged(queue, [e])| <= |queue| + 1
  {
    assert [e][..0] == [];
    assert AbsorbAll(Batch(queue, queue), []) == Batch(queue, queue);
    if KeyOf(e).Some? {
      OpenAtItem(queue, KeyOf(e).value);
    }
  }

  lemma QueuedSound(size: Event -> nat, s: State, e: Event)
    requires Sound(s) && !s.disposed
    ensures
      var q := Queued(size, s, e);
      && ClockAgrees(q) && !q.disposed
      && |q.queue| < MAX_PENDING_AGENT_EVENTS
      && q.queue == LongestWithin(size, Merged(Ready(s, e).queue, [e]))
  {
    MergedGrowsByOne(Ready(s, e).queue, e);
  }

  lemma QueuedSessions(size: Event -> nat, s: State, e: Event)
    requires SessionsBounded(s)
    ensures SessionsBounded(Queued(size, s, e))
  {
    AnnouncedKeeps(s, e);
    PutDistinct(Announced(s, e), e.session, false);
    PutFinds(Announced(s, e), e.session, false, e.session);
    assert Ready(s, e).firstContent == Announced(s, e);
  }

  lemma PushSound(size: Event -> nat, s: State, e: Event)
    requires Sound(s)
    ensures Sound(Pushed(size, s, e))
  {
    if !s.disposed {
      QueuedSound(size, s, e);
      QueuedSessions(size, s, e);
      var q := Queued(size, s, e);
      assert Pushed(size, s, e) == if IsImmediate(s, e) then Flushed(q) else Armed(q);
      FlushSound(q);
      ArmSound(q);
    }
  }

  lemma FlushSound(s: State)
    requires SessionsBounded(s)
    requires s.frames <= IdSet(s.frame) && s.timers <= IdSet(s.timeout)
    requires s.disposed ==> s.queue == []
    ensures Sound(Flushed(s)) && Flushed(s).queue == []
  {
  }

  lemma ArmSound(s: State)
    requires ClockAgrees(s) && SessionsBounded(s) && |s.queue| < MAX_PENDING_AGENT_EVENTS && !s.disposed
    ensures Sound(Armed(s))
  {
  }

  /** Over every run the queue stays under the cap and is never left without both wake-ups. */
  lemma {:induction false} RunSound(size: Event -> nat, actions: seq<Action>)
    ensures Sound(Run(size, Initial, actions))
  {
    if actions != [] {
      var n := |actions| - 1;
      RunSound(size, actions[..n]);
      var s := Run(size, Initial, actions[..n]);
      match actions[n]
      case Push(e) => PushSound(size, s, e);
      case FrameFires(id) => FlushSound(s.(frames := s.frames - {id}));
      case TimerFires(id) => FlushSound(s.(timers := s.timers - {id}));
      case Flush => FlushSound(s);
      case Dispose =>
    }
  }

  // ----- Batching is invisible ---------------------------------------------

  /** The events pushed, in order. */
  function Events(actions: seq<Action>): seq<Event> {
    if actions == [] then []
    else
      var n := |actions| - 1;
      Events(actions[..n]) + if actions[n].Push? then [actions[n].event] else []
  }

  /** The session window after the delivered batches landed on it. */
  function Window(size: Event -> nat, window: seq<Event>, batches: seq<seq<Event>>): seq<Event> {
    if batches == [] then window
    else
      var n := |batches| - 1;
      Appended(size, Window(size, window, batches[..n]), batches[n], WINDOW_LIMIT)
  }

  /** The window had every event landed on it alone. */
  function OneByOne(size: Event -> nat, window: seq<Event>, events: seq<Event>): seq<Event> {
    if events == [] then window
    else
      var n := |events| - 1;
      Appended(size, OneByOne(size, window, events[..n]), [events[n]], WINDOW_LIMIT)
  }

  predicate Fits(size: Event -> nat, list: seq<Event>) {
    |list| <= WINDOW_LIMIT && WithinBudget(size, list)
  }

  /** Nothing is ever evicted: not from the window, and not from a queue of consecutive events. */
  ghost predicate Roomy(size: Event -> nat, window: seq<Event>, events: seq<Event>) {
    && (forall i :: 0 <= i <= |events| ==> Fits(size, Merged(window, events[..i])))
    && (forall i, j :: 0 <= i <= j <= |events| ==> WithinBudget(size, Merged([], events[i..j])))
  }

  /** Deltas are transient, and no two progress frames of an item can meet in the queue without a text between them. */
  ghost predicate WellFormed(events: seq<Event>) {
    AllTransient(events) && NeverMeet(events)
  }

  lemma WellFormedPrefix(events: seq<Event>, m: nat)
    requires WellFormed(events) && m <= |events|
    ensures WellFormed(events[..m]) && AllTransient(events[m..])
  {
    NeverMeetPrefix(events, m);
    hide NeverMeet;
  }

  lemma RoomyPrefix(size: Event -> nat, window: seq<Event>, events: seq<Event>, n: nat)
    requires Roomy(size, window, events) && n <= |events|
    ensures Roomy(size, window, events[..n])
  {
    hide Fits, WithinBudget, AbsorbAll, Merged;
    forall i | 0 <= i <= n
      ensures Fits(size, Merged(window, events[..n][..i]))
    {
      assert events[..n][..i] == events[..i];
    }
    forall i, j | 0 <= i <= j <= n
      ensures WithinBudget(size, Merged([], events[..n][i..j]))
    {
      assert events[..n][i..j] == events[i..j];
    }
  }

  lemma AppendedFits(size: Event -> nat, list: seq<Event>, incoming: seq<Event>)
    requires Fits(size, Merged(list, incoming))
    ensures Appended(size, list, incoming, WINDOW_LIMIT) == Merged(list, incoming)
  {
  }

  lemma OneByOneSnoc(size: Event -> nat, window: seq<Event>, events: seq<Event>, e: Event)
    ensures OneByOne(size, window, events + [e]) == Appended(size, OneByOne(size, window, events), [e], WINDOW_LIMIT)
  {
    assert (events + [e])[..|events|] == events;
  }

  lemma WindowSnoc(size: Event -> nat, window: seq<Event>, batches: seq<seq<Event>>, batch: seq<Event>)
    ensures Window(size, window, batches + [batch]) == Appended(size, Window(size, window, batches), batch, WINDOW_LIMIT)
  {
    assert (batches + [batch])[..|batches|] == batches;
  }

  lemma RunSnoc(size: Event -> nat, actions: seq<Action>, a: Action)
    ensures Run(size, Initial, actions + [a]) == Step(size, Run(size, Initial, actions), a)
  {
    assert (actions + [a])[..|actions|] == actions;
  }

  lemma EventsSnoc(actions: seq<Action>, a: Action)
    ensures Events(actions + [a]) == Events(actions) + if a.Push? then [a.event] else []
  {
    assert (actions + [a])[..|actions|] == actions;
  }

  lemma RoomyWhole(size: Event -> nat, window: seq<Event>, events: seq<Event>)
    requires Roomy(size, window, events)
    ensures Fits(size, Merged(window, events))
  {
    assert events[..|events|] == events;
  }

  /** With room for everything, appending alone is merging. */
  lemma {:induction false} OneByOneMerges(size: Event -> nat, window: seq<Event>, events: seq<Event>)
    requires AllTransient(window) && AllTransient(events) && Roomy(size, window, events)
    ensures OneByOne(size, window, events) == Merged(window, events)
  {
    if events == [] {
      hide Roomy, AllTransient;
    } else {
      var n := |events| - 1;
      var init, last := events[..n], events[n];
      assert AllTransient(init) && AllTransient([last]);
      hide *;
      assert events == init + [last];
      RoomyPrefix(size, window, events, n);
      OneByOneMerges(size, window, init);
      RoomyWhole(size, window, events);
      OneMoreMerges(size, window, init, last);
    }
  }

  lemma OneMoreMerges(size: Event -> nat, window: seq<Event>, init: seq<Event>, last: Event)
    requires AllTransient(window) && AllTransient(init) && AllTransient([last])
    requires OneByOne(size, window, init) == Merged(window, init) && Fits(size, Merged(window, init + [last]))
    ensures OneByOne(size, window, init + [last]) == Merged(window, init + [last])
  {
    hide *;
    OneByOneSnoc(size, window, init, last);
    BatchSplits(window, init, [last]);
    AppendedFits(size, Merged(window, init), [last]);
  }

  /** The first `m` events were delivered; the rest wait in the queue, merged. */
  ghost predicate Accounts(size: Event -> nat, window: seq<Event>, s: State, events: seq<Event>, m: nat) {
    && m <= |events|
    && Window(size, window, s.delivered) == Merged(window, events[..m])
    && AllDeferred(events[m..])
    && s.queue == Merged([], events[m..])
    && Waits(events, m)
  }

  /** From event `m` on none ended its batch, and there was room for each. */
  ghost predicate Waits(events: seq<Event>, m: nat)
    requires m <= |events|
  {
    WaitTogether(events, m) && forall x :: m <= x < |events| ==> !Ends(events, x)
  }

  /** One more event finds the others still waiting. */
  lemma WaitsNext(events: seq<Event>, m: nat, e: Event)
    requires m <= |events| && Waits(events, m) && Slots(events[m..]) < MAX_PENDING_AGENT_EVENTS - 1
    ensures WaitTogether(events + [e], m)
    ensures !Ends(events + [e], |events|) ==> Waits(events + [e], m)
  {
    var all := events + [e];
    assert all[m..|events|] == events[m..] && all[..|events|] == events;
    hide Ends, Slots;
    forall x | m <= x < |events|
      ensures !Ends(all, x)
    {
      EndsAlike(all, |events|, x);
    }
  }

  /** Whether an event may wait is decided by the events before it alone. */
  lemma EndsIfImmediate(s: State, events: seq<Event>, e: Event)
    requires s.firstContent == Content(events)
    ensures Ends(events + [e], |events|) == IsImmediate(s, e)
  {
    assert (events + [e])[..|events|] == events;
    hide Content, Find, Put, Trimmed;
  }

  lemma {:induction false} RunContent(size: Event -> nat, actions: seq<Action>)
    requires NoDispose(actions)
    ensures Run(size, Initial, actions).firstContent == Content(Events(actions))
  {
    if actions != [] {
      var n := |actions| - 1;
      assert actions == actions[..n] + [actions[n]] && NoDispose(actions[..n]);
      hide Step, NoDispose;
      RunContent(size, actions[..n]);
      NotDisposed(size, actions[..n]);
      StepContent(size, Run(size, Initial, actions[..n]), Events(actions[..n]), actions[n]);
      assert Events(actions[..n]) + [] == Events(actions[..n]);
      hide Content;
    }
  }

  lemma StepContent(size: Event -> nat, s: State, events: seq<Event>, a: Action)
    requires s.firstContent == Content(events) && !s.disposed && a != Dispose
    ensures Step(size, s, a).firstContent == Content(events + if a.Push? then [a.event] else [])
  {
    assert events + [] == events;
    if a.Push? {
      assert (events + [a.event])[..|events|] == events;
      PushFirstContent(size, s, a.event);
      hide Pushed, Find, Put, Trimmed;
    }
  }

  lemma {:induction false} DeliverLands(size: Event -> nat, window: seq<Event>, s: State, events: seq<Event>, m: nat)
    requires m <= |events| && Fits(size, Merged(window, events))
    requires Window(size, window, s.delivered) == Merged(window, events[..m])
    requires Merged(Merged(window, events[..m]), s.queue) == Merged(window, events)
    requires !s.disposed
    ensures Accounts(size, window, Flushed(s), events, |events|)
  {
    assert events[..|events|] == events && events[|events|..] == [];
    if s.queue != [] {
      WindowSnoc(size, window, s.delivered, s.queue);
      AppendedFits(size, Merged(window, events[..m]), s.queue);
    }
  }

  lemma {:induction false} FlushAccounts(size: Event -> nat, window: seq<Event>, s: State, events: seq<Event>, m: nat)
    requires AllTransient(window) && WellFormed(events) && Fits(size, Merged(window, events))
    requires Accounts(size, window, s, events, m) && !s.disposed
    ensures Accounts(size, window, Flushed(s), events, |events|)
  {
    QueueLands(window, events, m);
    hide *;
    DeliverLands(size, window, s, events, m);
  }

  /** The delivered events and then the queue land as all the events would. */
  lemma QueueLands(window: seq<Event>, events: seq<Event>, m: nat)
    requires AllTransient(window) && WellFormed(events) && m <= |events|
    requires AllDeferred(events[m..]) && WaitTogether(events, m)
    ensures Merged(Merged(window, events[..m]), Merged([], events[m..])) == Merged(window, events)
  {
    assert events == events[..m] + events[m..];
    WellFormedPrefix(events, m);
    assert AllTransient(events[..m]) && AllTransient(events[m..]);
    hide *;
    TogetherSpeaksUp(events, m);
    MergedTransient(window, events[..m]);
    QueueIsInvisible(Merged(window, events[..m]), events[m..]);
    BatchSplits(window, events[..m], events[m..]);
  }

  lemma QueuedMerges(size: Event -> nat, s: State, e: Event, frames: seq<Event>)
    requires Sound(s) && !s.disposed && AllDeferred(frames) && IsTransient(e)
    requires Ready(s, e).queue == Merged([], frames)
    requires WithinBudget(size, Merged([], frames + [e]))
    ensures Queued(size, s, e).queue == Merged([], frames + [e])
  {
    assert AllTransient([]) && AllTransient(frames) && AllTransient([e]);
    hide *;
    QueuedSound(size, s, e);
    BatchSplits([], frames, [e]);
    WholeFits(size, Merged(Merged([], frames), [e]));
  }

  lemma WholeFits(size: Event -> nat, list: seq<Event>)
    requires WithinBudget(size, list)
    ensures LongestWithin(size, list) == list
  {
  }

  /** A full queue goes out before `e` joins. */
  lemma {:induction false} ReadyAccounts(size: Event -> nat, window: seq<Event>, s: State, events: seq<Event>, m: nat, e: Event) returns (n: nat)
    requires AllTransient(window) && WellFormed(events) && Fits(size, Merged(window, events))
    requires !s.disposed && Accounts(size, window, s, events, m)
    ensures Accounts(size, window, Ready(s, e), events, n) && |Ready(s, e).queue| < MAX_PENDING_AGENT_EVENTS - 1
  {
    if |s.queue| >= MAX_PENDING_AGENT_EVENTS - 1 {
      FlushAccounts(size, window, s.(firstContent := Announced(s, e)), events, m);
      n := |events|;
    } else {
      n := m;
    }
  }

  /** A queue that ends with an event that is not held back lands as its events would. */
  lemma LastLands(window: seq<Event>, frames: seq<Event>, e: Event)
    requires AllTransient(window) && AllDeferred(frames) && IsTransient(e) && SpeaksUp(frames + [e])
    ensures Merged(window, Merged([], frames + [e])) == Merged(window, frames + [e])
  {
    assert (frames + [e])[|frames|] == e && (frames + [e])[0..|frames|] == frames;
    hide SpeaksUp, AbsorbAll;
    SpeaksUpSlice(frames + [e], 0, |frames|);
    if IsMergeable(e.kind) {
      QueueIsInvisible(window, frames + [e]);
    } else {
      QueueWithLastIsInvisible(window, frames, e);
    }
  }

  lemma TailSnoc(events: seq<Event>, e: Event, n: nat)
    requires n <= |events|
    ensures (events + [e])[n..] == events[n..] + [e] && (events + [e])[..n] == events[..n]
  {
  }

  /** The delivered events and then a queue that `e` ends land as all the events would. */
  lemma JoinLands(window: seq<Event>, events: seq<Event>, n: nat, e: Event)
    requires AllTransient(window) && WellFormed(events + [e])
    requires n <= |events| && AllDeferred(events[n..]) && WaitTogether(events + [e], n)
    ensures Merged(Merged(window, events[..n]), Merged([], events[n..] + [e])) == Merged(window, events + [e])
  {
    var all := events + [e];
    WellFormedPrefix(all, n);
    assert all[|events|] == e && AllTransient(all[..n]) && AllTransient(all[n..]) && IsTransient(e) && NeverMeet(all);
    hide *;
    TailSnoc(events, e, n);
    assert all == all[..n] + all[n..];
    TogetherSpeaksUp(all, n);
    MergedTransient(window, events[..n]);
    LastLands(Merged(window, events[..n]), events[n..], e);
    BatchSplits(window, all[..n], all[n..]);
  }

  lemma JoinAccounts(size: Event -> nat, window: seq<Event>, q: State, events: seq<Event>, n: nat, e: Event)
    requires AllTransient(window) && WellFormed(events + [e])
    requires n <= |events| && AllDeferred(events[n..]) && !q.disposed && WaitTogether(events + [e], n)
    requires Window(size, window, q.delivered) == Merged(window, events[..n])
    requires q.queue == Merged([], events[n..] + [e])
    requires Fits(size, Merged(window, events + [e]))
    ensures Accounts(size, window, Flushed(q), events + [e], |events| + 1)
  {
    hide *;
    TailSnoc(events, e, n);
    JoinLands(window, events, n, e);
    DeliverLands(size, window, q, events + [e], n);
  }

  lemma WaitAccounts(size: Event -> nat, window: seq<Event>, q: State, events: seq<Event>, n: nat, e: Event)
    requires n <= |events| && AllDeferred(events[n..]) && IsDeferred(e) && Waits(events + [e], n)
    requires Window(size, window, q.delivered) == Merged(window, events[..n])
    requires q.queue == Merged([], events[n..] + [e])
    ensures Accounts(size, window, Armed(q), events + [e], n)
  {
    TailSnoc(events, e, n);
    hide Waits;
  }

  lemma {:induction false} PushAccounts(size: Event -> nat, window: seq<Event>, s: State, events: seq<Event>, m: nat, e: Event) returns (m': nat)
    requires AllTransient(window) && WellFormed(events + [e]) && Roomy(size, window, events + [e])
    requires Sound(s) && !s.disposed && s.firstContent == Content(events) && Accounts(size, window, s, events, m)
    ensures Accounts(size, window, Pushed(size, s, e), events + [e], m')
  {
    hide AbsorbAll, WithinBudget, Merged, Window, Put, Find, Trimmed, Appended, NeverMeet, Sound, Waits, WaitTogether, Ends, Slots, Content;
    var all := events + [e];
    assert all[|events|] == e;
    WellFormedPrefix(all, |events|);
    RoomyPrefix(size, window, all, |events|);
    assert all[..|events|] == events;
    RoomyWhole(size, window, events);
    RoomyWhole(size, window, all);
    var n := ReadyAccounts(size, window, s, events, m, e);
    SlotsAreEntries(events[n..]);
    WaitsNext(events, n, e);
    EndsIfImmediate(s, events, e);
    assert all[n..|all|] == events[n..] + [e];
    QueuedMerges(size, s, e, events[n..]);
    var q := Queued(size, s, e);
    if IsImmediate(s, e) {
      JoinAccounts(size, window, q, events, n, e);
      m' := |all|;
    } else {
      WaitAccounts(size, window, q, events, n, e);
      m' := n;
    }
    assert Pushed(size, s, e) == if IsImmediate(s, e) then Flushed(q) else Armed(q);
  }

  predicate NoDispose(actions: seq<Action>) {
    forall i :: 0 <= i < |actions| ==> !actions[i].Dispose?
  }

  lemma {:induction false} StepAccounts(size: Event -> nat, window: seq<Event>, s: State, events: seq<Event>, m: nat, a: Action) returns (m': nat)
    requires AllTransient(window) && WellFormed(events) && !a.Dispose?
    requires a.Push? ==> WellFormed(events + [a.event]) && Roomy(size, window, events + [a.event])
    requires Fits(size, Merged(window, events))
    requires Sound(s) && !s.disposed && s.firstContent == Content(events) && Accounts(size, window, s, events, m)
    ensures Accounts(size, window, Step(size, s, a), events + if a.Push? then [a.event] else [], m')
  {
    assert events + [] == events;
    match a
    case Push(e) =>
      m' := PushAccounts(size, window, s, events, m, e);
    case FrameFires(id) =>
      FlushAccounts(size, window, s.(frames := s.frames - {id}), events, m);
      m' := |events|;
    case TimerFires(id) =>
      FlushAccounts(size, window, s.(timers := s.timers - {id}), events, m);
      m' := |events|;
    case Flush =>
      FlushAccounts(size, window, s, events, m);
      m' := |events|;
  }

  lemma {:induction false} RunAccounts(size: Event -> nat, window: seq<Event>, actions: seq<Action>) returns (m: nat)
    requires AllTransient(window) && WellFormed(Events(actions)) && Roomy(size, window, Events(actions))
    requires NoDispose(actions)
    ensures Accounts(size, window, Run(size, Initial, actions), Events(actions), m)
  {
    if actions == [] {
      m := 0;
    } else {
      var n := |actions| - 1;
      var before, events := Events(actions[..n]), Events(actions);
      assert actions == actions[..n] + [actions[n]];
      EventsSnoc(actions[..n], actions[n]);
      RunSnoc(size, actions[..n], actions[n]);
      assert events[..|before|] == before;
      WellFormedPrefix(events, |before|);
      hide Events, Step, WellFormed, Roomy, Sound, Accounts, Content;
      RoomyPrefix(size, window, events, |before|);
      RoomyWhole(size, window, before);
      m := RunAccounts(size, window, actions[..n]);
      RunSound(size, actions[..n]);
      NotDisposed(size, actions[..n]);
      RunContent(size, actions[..n]);
      m := StepAccounts(size, window, Run(size, Initial, actions[..n]), before, m, actions[n]);
    }
  }

  /**
   * Whatever the interleaving of pushes, frames, timers and flushes: the window
   * after every delivery and then the pending queue is the window that landing
   * each event alone would give.
   */
  lemma {:induction false} BatchingIsInvisible(size: Event -> nat, window: seq<Event>, actions: seq<Action>)
    requires AllTransient(window) && WellFormed(Events(actions)) && Roomy(size, window, Events(actions))
    requires NoDispose(actions)
    ensures
      var s := Run(size, Initial, actions);
      Appended(size, Window(size, window, s.delivered), s.queue, WINDOW_LIMIT) ==
        OneByOne(size, window, Events(actions))
  {
    hide AbsorbAll, WithinBudget, Run, Events;
    var m := RunAccounts(size, window, actions);
    var s, events := Run(size, Initial, actions), Events(actions);
    OneByOneMerges(size, window, events);
    RoomyWhole(size, window, events);
    assert AllDeferred(events[m..]) && WaitTogether(events, m);
    hide WellFormed, Roomy;
    QueueLands(window, events, m);
    AppendedFits(size, Merged(window, events[..m]), s.queue);
  }

  // ----- After disposal ----------------------------------------------------

  /** Nothing waits, no session is remembered, and no wake-up is armed. */
  predicate IsStilled(s: State) {
    s.disposed && s.queue == [] && s.firstContent == [] && s.frame.None? && s.timeout.None?
  }

  lemma DisposedStep(size: Event -> nat, s: State, a: Action)
    requires IsStilled(s)
    ensures IsStilled(Step(size, s, a)) && Step(size, s, a).delivered == s.delivered
  {
  }

  /** A disposed scheduler delivers nothing more and holds nothing. */
  lemma {:induction false} DisposedIsSilent(size: Event -> nat, before: seq<Action>, after: seq<Action>)
    ensures
      var s := Run(size, Initial, before);
      var end := Run(size, Initial, before + [Dispose] + after);
      end.delivered == s.delivered && IsStilled(end)
    decreases |after|
  {
    if after == [] {
      assert before + [Dispose] + after == before + [Dispose];
      RunSnoc(size, before, Dispose);
      hide Run;
    } else {
      hide Run, Step;
      var n := |after| - 1;
      assert before + [Dispose] + after == before + [Dispose] + after[..n] + [after[n]];
      DisposedIsSilent(size, before, after[..n]);
      RunSnoc(size, before + [Dispose] + after[..n], after[n]);
      DisposedStep(size, Run(size, Initial, before + [Dispose] + after[..n]), after[n]);
    }
  }

  // ----- First content -----------------------------------------------------

  /** The session's next visible text will go out at once. */
  predicate AwaitsContent(s: State, session: string) {
    Find(s.firstContent, session) in {None, Some(true)}
  }

  lemma {:induction false} PushFirstContent(size: Event -> nat, s: State, e: Event)
    ensures Pushed(size, s, e).disposed == s.disposed
    ensures !s.disposed ==>
      Pushed(size, s, e).firstContent ==
        if IsVisible(e) then Put(Announced(s, e), e.session, false) else Announced(s, e)
  {
    hide Find, Put, Trimmed, Appended, Announced, IsImmediate;
  }

  lemma StepAwaits(size: Event -> nat, s: State, a: Action, session: string)
    requires Sound(s) && a != Dispose && !s.disposed
    requires AwaitsContent(s, session) || (a.Push? && a.event.session == session && a.event.kind.TurnStarted?)
    requires a.Push? ==> !(a.event.session == session && IsVisible(a.event))
    ensures AwaitsContent(Step(size, s, a), session)
    ensures !Step(size, s, a).disposed
  {
    if a.Push? {
      hide Find, Put, Trimmed, Announced, Distinct, Pushed;
      PushFirstContent(size, s, a.event);
      AnnouncedKeeps(s, a.event);
      PutFinds(Announced(s, a.event), a.event.session, false, session);
    }
  }

  lemma {:induction false} RunAwaits(size: Event -> nat, before: seq<Action>, turn: Event, between: seq<Action>)
    requires NoDispose(before) && NoDispose(between) && turn.kind.TurnStarted?
    requires forall e :: Push(e) in between ==> !(e.session == turn.session && IsVisible(e))
    ensures
      var s := Run(size, Initial, before + [Push(turn)] + between);
      AwaitsContent(s, turn.session) && !s.disposed
    decreases |between|
  {
    hide Run, Step, Sound, AwaitsContent;
    if between == [] {
      assert before + [Push(turn)] + between == before + [Push(turn)];
      RunSound(size, before);
      NotDisposed(size, before);
      RunSnoc(size, before, Push(turn));
      StepAwaits(size, Run(size, Initial, before), Push(turn), turn.session);
    } else {
      var n := |between| - 1;
      var earlier := before + [Push(turn)] + between[..n];
      assert before + [Push(turn)] + between == earlier + [between[n]];
      RunAwaits(size, before, turn, between[..n]);
      RunSound(size, earlier);
      RunSnoc(size, earlier, between[n]);
      StepAwaits(size, Run(size, Initial, earlier), between[n], turn.session);
    }
  }

  lemma {:induction false} NotDisposed(size: Event -> nat, actions: seq<Action>)
    requires NoDispose(actions)
    ensures !Run(size, Initial, actions).disposed
  {
    if actions != [] {
      NotDisposed(size, actions[..|actions| - 1]);
    }
  }

  /** The newest frame survives the budgets exactly when it fits them alone. */
  lemma NewestSurvives(size: Event -> nat, list: seq<Event>)
    requires list != []
    ensures LongestWithin(size, list) != [] <==> WithinBudget(size, [list[|list| - 1]])
    ensures LongestWithin(size, list) != [] ==> LongestWithin(size, list)[|LongestWithin(size, list)| - 1] == list[|list| - 1]
  {
    var n := |list| - 1;
    var kept := LongestWithin(size, list);
    assert list[n..] == [list[n]];
    if kept == [] {
      LongerIsOver(size, list, n);
    } else {
      AgentEventBatch.BudgetShrinks(size, list, |list| - |kept|, n);
    }
  }

  /**
   * The first visible text of a session after its turn started has been delivered
   * by the time `push` returns, however many sessions spoke in between. The one
   * exception is a frame too large for the budgets on its own, which is not kept.
   */
  lemma {:induction false} FirstContentIsImmediate(size: Event -> nat, before: seq<Action>, turn: Event, between: seq<Action>, e: Event)
    requires NoDispose(before) && NoDispose(between) && turn.kind.TurnStarted?
    requires forall x :: Push(x) in between ==> !(x.session == turn.session && IsVisible(x))
    requires e.session == turn.session && IsVisible(e) && IsTransient(e)
    ensures
      var s := Run(size, Initial, before + [Push(turn)] + between);
      var after := Run(size, Initial, before + [Push(turn)] + between + [Push(e)]);
      after.queue == [] && DeliversNewest(size, s.delivered, after.delivered, Merged(Ready(s, e).queue, [e]), e)
  {
    var actions := before + [Push(turn)] + between;
    var s := Run(size, Initial, actions);
    RunAwaits(size, before, turn, between);
    RunSound(size, actions);
    RunSnoc(size, actions, Push(e));
    PushDelivers(size, s, e);
  }

  /** The last batch delivered ends with the frame `e` joined, which ends with the text of `e`. */
  ghost predicate DeliversNewest(size: Event -> nat, before: seq<seq<Event>>, after: seq<seq<Event>>, queue: seq<Event>, e: Event) {
    && queue != []
    && EndsWith(queue[|queue| - 1], e)
    && (WithinBudget(size, [queue[|queue| - 1]]) ==>
          && |after| > |before|
          && after[|after| - 1] != []
          && after[|after| - 1][|after[|after| - 1]| - 1] == queue[|queue| - 1])
  }

  lemma {:induction false} PushDelivers(size: Event -> nat, s: State, e: Event)
    requires Sound(s) && !s.disposed && AwaitsContent(s, e.session) && IsVisible(e) && IsTransient(e)
    ensures Pushed(size, s, e).queue == []
    ensures DeliversNewest(size, s.delivered, Pushed(size, s, e).delivered, Merged(Ready(s, e).queue, [e]), e)
  {
    PushFlushes(size, s, e);
    hide *;
    QueuedSound(size, s, e);
    LastMerged(Ready(s, e).queue, e);
    FlushDelivers(size, s.delivered, Queued(size, s, e), Merged(Ready(s, e).queue, [e]), e);
  }

  lemma PushFlushes(size: Event -> nat, s: State, e: Event)
    requires Sound(s) && !s.disposed && AwaitsContent(s, e.session) && IsVisible(e)
    ensures Pushed(size, s, e) == Flushed(Queued(size, s, e)) && Pushed(size, s, e).queue == []
    ensures |s.delivered| <= |Queued(size, s, e).delivered|
  {
    hide LongestWithin, AbsorbAll, Trimmed;
    AnnouncedKeeps(s, e);
  }

  lemma {:induction false} FlushDelivers(size: Event -> nat, before: seq<seq<Event>>, q: State, queue: seq<Event>, e: Event)
    requires !q.disposed && queue != [] && EndsWith(queue[|queue| - 1], e)
    requires q.queue == LongestWithin(size, queue) && |before| <= |q.delivered|
    ensures DeliversNewest(size, before, Flushed(q).delivered, queue, e)
  {
    NewestSurvives(size, queue);
  }

  /** A frame without an item keeps its own text; any other frame adds to what was there. */
  ghost predicate EndsWith(frame: Event, e: Event) {
    if KeyOf(e).None? then frame == e else exists said :: TextOf(frame) == Tail(said + TextOf(e))
  }

  lemma LastMerged(queue: seq<Event>, e: Event)
    requires IsVisible(e) && IsTransient(e)
    ensures
      var list := Merged(queue, [e]);
      list != [] && EndsWith(list[|list| - 1], e)
  {
    assert [e][..0] == [];
    assert AbsorbAll(Batch(queue, queue), []) == Batch(queue, queue);
    var newest := NewestDurable(queue + [e], e.session);
    assert Merged(queue, [e]) == Place(queue, newest, e);
    if KeyOf(e).Some? {
      var previous := Item(queue, KeyOf(e).value);
      var said := if previous.Some? then TextOf(previous.value) else "";
      assert "" + TextOf(e) == TextOf(e);
      assert TextOf(Landed(previous, newest, e)) == Tail(said + TextOf(e));
    }
  }
}
