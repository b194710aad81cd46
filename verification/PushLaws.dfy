/** Which events are delivered before `push` returns and which wait, told by the events pushed so far. */
module PushLaws {
  import opened Wrappers
  import opened InsertionMap
  import opened AgentEvents
  import opened BatchLaws
  import opened BatchMemory
  import opened StreamLaws
  import opened DisplayScheduler
  import opened QueueMeetings
  import opened SchedulerLaws

  function Newest256(names: seq<string>): seq<string> {
    if |names| > 256 then names[|names| - 256..] else names
  }

  /** The sessions that spoke, in the order they were first heard of; the 256 newest are remembered. */
  function Remembered(events: seq<Event>): seq<string> {
    if events == [] then []
    else
      var n := |events| - 1;
      var before := Remembered(events[..n]);
      if events[n].session in before then before else Newest256(before + [events[n].session])
  }

  predicate ShowsText(e: Event) {
    TextOf(e) != "" && e.kind in {MessageDelta, ReasoningDelta}
  }

  /** No text of the session was shown since its last turn started or it was first heard of. */
  predicate AwaitsText(events: seq<Event>, session: string) {
    events != [] &&
    var n := |events| - 1;
    if events[n].session != session then AwaitsText(events[..n], session)
    else !ShowsText(events[n]) &&
         (events[n].kind == TurnStarted || session !in Remembered(events[..n]) || AwaitsText(events[..n], session))
  }

  /** The event may not wait: it is no delta, its session is not remembered, or its text is awaited. */
  predicate GoesOut(events: seq<Event>, e: Event) {
    !IsDelta(e.kind) || e.session !in Remembered(events) || (ShowsText(e) && AwaitsText(events, e.session))
  }

  // ----- The first-content map ---------------------------------------------

  function Names(m: seq<Entry<string, bool>>): (names: seq<string>)
    ensures |names| == |m|
  {
    seq(|m|, i requires 0 <= i < |m| => m[i].key)
  }

  lemma {:induction false} FindInNames(m: seq<Entry<string, bool>>, k: string)
    ensures Find(m, k).Some? <==> k in Names(m)
  {
    if m != [] {
      FindInNames(m[1..], k);
      assert Names(m) == [m[0].key] + Names(m[1..]);
    }
  }

  lemma {:induction false} PutNames(m: seq<Entry<string, bool>>, k: string, v: bool)
    ensures Names(Put(m, k, v)) == if k in Names(m) then Names(m) else Names(m) + [k]
  {
    if m != [] {
      assert Names(m) == [m[0].key] + Names(m[1..]);
      if m[0].key != k {
        PutNames(m[1..], k, v);
        assert Names([m[0]] + Put(m[1..], k, v)) == [m[0].key] + Names(Put(m[1..], k, v));
      } else {
        assert Names([Entry(k, v)] + m[1..]) == [k] + Names(m[1..]);
      }
    } else {
      assert Names([Entry(k, v)]) == [k];
    }
  }

  lemma TrimmedNames(m: seq<Entry<string, bool>>)
    requires |m| <= 257
    ensures Names(Trimmed(m)) == Newest256(Names(m)) && |Trimmed(m)| <= 256
  {
    if |m| == 257 {
      assert Trimmed(m) == m[1..];
      assert Names(m[1..]) == Names(m)[1..];
    }
  }

  /** The map has the remembered sessions, each with whether its text is awaited. */
  ghost predicate Holds(content: seq<Entry<string, bool>>, events: seq<Event>) {
    && Names(content) == Remembered(events) && Distinct(content) && |content| <= 256
    && forall k :: k in Remembered(events) ==> Find(content, k) == Some(AwaitsText(events, k))
  }

  lemma AnnouncedHolds(content: seq<Entry<string, bool>>, events: seq<Event>, e: Event)
    requires Holds(content, events)
    ensures
      var announced := Announced(Initial.(firstContent := content), e);
      && Names(announced) == Remembered(events + [e]) && Distinct(announced) && |announced| <= 256
      && e.session in Names(announced)
      && Find(announced, e.session) ==
           Some(e.kind.TurnStarted? || e.session !in Remembered(events) || AwaitsText(events, e.session))
      && forall k :: k in Remembered(events + [e]) && k != e.session ==> Find(announced, k) == Some(AwaitsText(events, k))
  {
    var s := Initial.(firstContent := content);
    assert (events + [e])[..|events|] == events;
    FindInNames(content, e.session);
    PutNames(content, e.session, true);
    PutFinds(content, e.session, true, e.session);
    TrimmedNames(Put(content, e.session, true));
    TrimmedNames(content);
    AnnouncedKeeps(s, e);
    FindInNames(Announced(s, e), e.session);
    forall k | k in Remembered(events + [e]) && k != e.session
      ensures Find(Announced(s, e), k) == Some(AwaitsText(events, k))
    {
      FindInNames(Announced(s, e), k);
      FindInNames(content, k);
    }
    hide Find, Put, Trimmed, Distinct, AwaitsText;
  }

  lemma NextHolds(content: seq<Entry<string, bool>>, events: seq<Event>, e: Event)
    requires Holds(content, events)
    ensures Holds(ContentNext(content, e), events + [e])
  {
    var announced := Announced(Initial.(firstContent := content), e);
    assert (events + [e])[..|events|] == events;
    AnnouncedHolds(content, events, e);
    PutNames(announced, e.session, false);
    PutDistinct(announced, e.session, false);
    forall k | k in Remembered(events + [e])
      ensures Find(ContentNext(content, e), k) == Some(AwaitsText(events + [e], k))
    {
      PutFinds(announced, e.session, false, k);
    }
    PutFinds(announced, e.session, false, e.session);
    FindInNames(announced, e.session);
    hide Find, Put, Announced, Distinct, AwaitsText, Remembered;
  }

  lemma {:induction false} ContentHolds(events: seq<Event>)
    ensures Holds(Content(events), events)
  {
    if events != [] {
      var n := |events| - 1;
      ContentHolds(events[..n]);
      NextHolds(Content(events[..n]), events[..n], events[n]);
      assert events == events[..n] + [events[n]];
      hide Holds, ContentNext;
    }
  }

  lemma ImmediateIffGoesOut(s: State, events: seq<Event>, e: Event)
    requires s.firstContent == Content(events)
    ensures IsImmediate(s, e) <==> GoesOut(events, e)
  {
    ContentHolds(events);
    AnnouncedHolds(s.firstContent, events, e);
    assert Announced(s, e) == Announced(Initial.(firstContent := s.firstContent), e);
    FindInNames(s.firstContent, e.session);
    hide Find, Content, Announced, Remembered, AwaitsText, Distinct;
  }

  // ----- What a push does --------------------------------------------------

  /** The frame is of the event: everything but what merging adds to. */
  ghost predicate IsOf(frame: Event, e: Event) {
    && frame == e.(text := frame.text, data := frame.data, causalAnchor := frame.causalAnchor)
    && (InStream(e) ==> exists said :: TextOf(frame) == Tail(said + TextOf(e)))
    && (!InStream(e) ==> frame == e)
  }

  lemma LandedIsOf(previous: Option<Event>, newest: Option<int>, e: Event)
    requires InStream(e)
    ensures IsOf(Landed(previous, newest, e), e)
  {
    var said := if previous.Some? then TextOf(previous.value) else "";
    assert "" + TextOf(e) == TextOf(e) && said + "" == said;
    if previous.Some? && e.kind == ToolProgress && e.text.Some? {
      assert TextOf(Landed(previous, newest, e)) == Tail("" + TextOf(e));
    } else {
      assert TextOf(Landed(previous, newest, e)) == Tail(said + TextOf(e));
    }
  }

  lemma LastIsOf(queue: seq<Event>, e: Event)
    requires IsNew(queue, e)
    ensures
      var after := Merged(queue, [e]);
      after != [] && IsOf(after[|after| - 1], e)
  {
    StreamLaws.MergedOne(queue, e);
    KeyIsStream(e);
    if InStream(e) {
      LandedIsOf(Item(queue, KeyOf(e).value), NewestDurable(queue + [e], e.session), e);
    }
    hide Item, Drop, KeyOf, IsNew, IsOf, InStream, Landed;
  }

  /** What `e` finds waiting: a queue of 255 has gone out first. */
  function Waiting(s: State): seq<Event> {
    if |s.queue| >= 255 then [] else s.queue
  }

  /** What was delivered when `e` joins. */
  function Before(s: State): seq<seq<Event>> {
    if |s.queue| >= 255 then s.delivered + [s.queue] else s.delivered
  }

  lemma ReadyIs(s: State, e: Event)
    requires !s.disposed
    ensures Ready(s, e).queue == Waiting(s) && Ready(s, e).delivered == Before(s) && !Ready(s, e).disposed
  {
    hide Announced;
  }

  lemma QueuedIs(size: Event -> nat, s: State, e: Event)
    requires Sound(s) && !s.disposed
    ensures
      var q := Queued(size, s, e);
      q.queue == LongestWithin(size, Merged(Waiting(s), [e])) && q.delivered == Before(s) && !q.disposed
  {
    ReadyIs(s, e);
    QueuedSound(size, s, e);
    hide Ready, Appended, LongestWithin, Find, Put, Sound;
  }

  /** The newest frame is kept when it fits the budgets alone. */
  lemma KeptLast(size: Event -> nat, list: seq<Event>)
    requires list != [] && WithinBudget(size, [list[|list| - 1]])
    ensures
      var kept := LongestWithin(size, list);
      kept != [] && kept[|kept| - 1] == list[|list| - 1]
  {
    NewestSurvives(size, list);
  }

  /**
   * When `push` returns, `e` was delivered with all that waited, or it waits with
   * both wake-ups armed and at most a full queue went out before it. Which of the
   * two, the events pushed before decide.
   */
  lemma PushGoesOutIff(size: Event -> nat, actions: seq<Action>, e: Event)
    requires NoDispose(actions)
    ensures
      var s, t := Run(size, Initial, actions), Run(size, Initial, actions + [Push(e)]);
      var merged := Merged(Waiting(s), [e]);
      var fits := merged != [] && WithinBudget(size, [merged[|merged| - 1]]);
      && (IsNew(Waiting(s), e) ==> merged != [] && IsOf(merged[|merged| - 1], e))
      && (GoesOut(Events(actions), e) ==>
            && t.queue == [] && t.frame.None? && t.timeout.None?
            && Before(s) <= t.delivered && |t.delivered| <= |Before(s)| + 1
            && (fits ==> |t.delivered| > |Before(s)| && EndsWithFrame(t.delivered[|Before(s)|], merged[|merged| - 1])))
      && (!GoesOut(Events(actions), e) ==>
            && t.delivered == Before(s) && t.frame.Some? && t.timeout.Some?
            && (fits ==> EndsWithFrame(t.queue, merged[|merged| - 1])))
  {
    var s := Run(size, Initial, actions);
    var merged := Merged(Waiting(s), [e]);
    RunSound(size, actions);
    NotDisposed(size, actions);
    RunContent(size, actions);
    RunSnoc(size, actions, Push(e));
    ImmediateIffGoesOut(s, Events(actions), e);
    if IsNew(Waiting(s), e) {
      LastIsOf(Waiting(s), e);
    }
    if merged != [] && WithinBudget(size, [merged[|merged| - 1]]) {
      KeptLast(size, merged);
    }
    hide Run, Events, GoesOut, WithinBudget, LongestWithin, Merged, IsNew, IsOf, Content, IsImmediate, Waiting, Before;
    PushIs(size, s, e);
  }

  predicate EndsWithFrame(list: seq<Event>, frame: Event) {
    list != [] && list[|list| - 1] == frame
  }

  lemma PushIs(size: Event -> nat, s: State, e: Event)
    requires Sound(s) && !s.disposed
    ensures
      var t, kept := Pushed(size, s, e), LongestWithin(size, Merged(Waiting(s), [e]));
      if IsImmediate(s, e) then
        && t.queue == [] && t.frame.None? && t.timeout.None?
        && t.delivered == if kept == [] then Before(s) else Before(s) + [kept]
      else
        t.queue == kept && t.delivered == Before(s) && t.frame.Some? && t.timeout.Some?
  {
    QueuedIs(size, s, e);
    QueuedSound(size, s, e);
    hide Queued, IsImmediate, LongestWithin, Merged, Waiting, Before, Sound;
    var q := Queued(size, s, e);
    assert Pushed(size, s, e) == if IsImmediate(s, e) then Flushed(q) else Armed(q);
    hide Pushed;
    FlushIs(q);
    ArmIs(q);
  }

  lemma FlushIs(q: State)
    requires !q.disposed
    ensures Flushed(q).queue == [] && Flushed(q).frame.None? && Flushed(q).timeout.None?
    ensures Flushed(q).delivered == if q.queue == [] then q.delivered else q.delivered + [q.queue]
  {
  }

  lemma ArmIs(q: State)
    requires ClockAgrees(q)
    ensures Armed(q).queue == q.queue && Armed(q).delivered == q.delivered
    ensures Armed(q).frame.Some? && Armed(q).timeout.Some?
  {
  }
}
