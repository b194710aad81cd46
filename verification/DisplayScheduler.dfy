/**
 * The display scheduler: deltas wait in a merged queue for the next frame or
 * timer, everything else is delivered at once.
 */
module DisplayScheduler {
  import opened Wrappers
  import opened InsertionMap
  import opened AgentEvents
  import opened AgentEventBatch

  const MAX_SESSIONS: nat := 256

  /**
   * The scheduler's own variables, the clock's armed callbacks, and every batch
   * handed to `deliver` so far.
   */
  datatype State = State(
    queue: seq<Event>,
    frame: Option<nat>,
    timeout: Option<nat>,
    disposed: bool,
    firstContent: seq<Entry<string, bool>>,
    frames: set<nat>,
    timers: set<nat>,
    nextId: nat,
    delivered: seq<seq<Event>>)

  const Initial := State([], None, None, false, [], {}, {}, 0, [])

  /** A callback may run late, or after it was cancelled; it only ever flushes. */
  datatype Action = Push(event: Event) | FrameFires(id: nat) | TimerFires(id: nat) | Flush | Dispose

  predicate IsVisible(e: Event) {
    TextOf(e) != "" && (e.kind.MessageDelta? || e.kind.ReasoningDelta?)
  }

  function IdSet(id: Option<nat>): set<nat> {
    if id.Some? then {id.value} else {}
  }

  function Cancelled(s: State): State {
    s.(frames := s.frames - IdSet(s.frame), timers := s.timers - IdSet(s.timeout), frame := None, timeout := None)
  }

  function Flushed(s: State): State {
    var c := Cancelled(s);
    if c.disposed || c.queue == [] then c else c.(queue := [], delivered := c.delivered + [c.queue])
  }

  /** Forgets the oldest sessions beyond the cap. */
  function Trimmed(m: seq<Entry<string, bool>>): seq<Entry<string, bool>> {
    if |m| > MAX_SESSIONS then Trimmed(m[1..]) else m
  }

  /** The first-content map once `e` announced its session. */
  function Announced(s: State, e: Event): seq<Entry<string, bool>> {
    Trimmed(if Find(s.firstContent, e.session).None? || e.kind.TurnStarted? then Put(s.firstContent, e.session, true)
            else s.firstContent)
  }

  predicate IsImmediate(s: State, e: Event) {
    || !IsMergeable(e.kind)
    || Find(s.firstContent, e.session).None?
    || (IsVisible(e) && Find(Announced(s, e), e.session) == Some(true))
  }

  /** The state when `e` is about to join the queue: a full queue went out first. */
  function Ready(s: State, e: Event): State {
    var s1 := s.(firstContent := Announced(s, e));
    if |s1.queue| >= MAX_PENDING_AGENT_EVENTS - 1 then Flushed(s1) else s1
  }

  function Queued(size: Event -> nat, s: State, e: Event): State {
    var r := Ready(s, e);
    r.(queue := Appended(size, r.queue, [e], MAX_PENDING_AGENT_EVENTS),
       firstContent := if IsVisible(e) then Put(r.firstContent, e.session, false) else r.firstContent)
  }

  function Armed(s: State): State {
    if s.frame.Some? then s
    else s.(frame := Some(s.nextId), timeout := Some(s.nextId + 1), nextId := s.nextId + 2,
            frames := s.frames + {s.nextId}, timers := s.timers + {s.nextId + 1})
  }

  function Pushed(size: Event -> nat, s: State, e: Event): State {
    if s.disposed then s
    else if IsImmediate(s, e) then Flushed(Queued(size, s, e))
    else Armed(Queued(size, s, e))
  }

  function Disposed(s: State): State {
    Cancelled(s).(disposed := true, queue := [], firstContent := [])
  }

  function Step(size: Event -> nat, s: State, a: Action): State {
    match a
    case Push(e) => Pushed(size, s, e)
    case FrameFires(id) => Flushed(s.(frames := s.frames - {id}))
    case TimerFires(id) => Flushed(s.(timers := s.timers - {id}))
    case Flush => Flushed(s)
    case Dispose => Disposed(s)
  }

  function Run(size: Event -> nat, s: State, actions: seq<Action>): State {
    if actions == [] then s
    else Step(size, Run(size, s, actions[..|actions| - 1]), actions[|actions| - 1])
  }

  /** The closure `createDisplayScheduler` returns, with the clock it was given. */
  class Scheduler {
    const size: Event -> nat
    var queue: seq<Event>
    var frame: Option<nat>
    var timeout: Option<nat>
    var disposed: bool
    var firstContent: seq<Entry<string, bool>>
    var frames: set<nat>
    var timers: set<nat>
    var nextId: nat
    var delivered: seq<seq<Event>>

    ghost function View(): State
      reads this
    {
      State(queue, frame, timeout, disposed, firstContent, frames, timers, nextId, delivered)
    }

    constructor (size: Event -> nat)
      ensures this.size == size && View() == Initial
    {
      this.size := size;
      queue, frame, timeout, disposed, firstContent := [], None, None, false, [];
      frames, timers, nextId, delivered := {}, {}, 0, [];
    }

    method Cancel()
      modifies this
      ensures View() == Cancelled(old(View()))
    {
      if frame.Some? {
        frames := frames - {frame.value};
      }
      if timeout.Some? {
        timers := timers - {timeout.value};
      }
      frame, timeout := None, None;
    }

    method FlushQueue()
      modifies this
      ensures View() == Flushed(old(View()))
    {
      Cancel();
      if disposed || queue == [] {
        return;
      }
      var batch := queue;
      queue := [];
      delivered := delivered + [batch];
    }

    method TrimSessions()
      modifies this
      ensures View() == old(View()).(firstContent := Trimmed(old(firstContent)))
    {
      while |firstContent| > MAX_SESSIONS
        invariant View() == old(View()).(firstContent := firstContent)
        invariant Trimmed(firstContent) == Trimmed(old(firstContent))
      {
        firstContent := firstContent[1..];
      }
    }

    method PushEvent(e: Event)
      modifies this
      ensures View() == Pushed(size, old(View()), e)
    {
      if disposed {
        return;
      }
      var immediate := Join(e);
      if immediate {
        FlushQueue();
      } else {
        Arm();
      }
    }

    /** `e` joins the queue; a full queue goes out first. */
    method Join(e: Event) returns (immediate: bool)
      requires !disposed
      modifies this
      ensures View() == Queued(size, old(View()), e)
      ensures immediate == IsImmediate(old(View()), e)
    {
      hide Ready, Announced, Appended, Find, Put;
      var newSession, isFirst := MakeReady(e);
      queue := Append(size, queue, [e], MAX_PENDING_AGENT_EVENTS);
      var visible := IsVisible(e);
      if visible {
        firstContent := Put(firstContent, e.session, false);
      }
      immediate := !IsMergeable(e.kind) || newSession || (visible && isFirst);
    }

    method MakeReady(e: Event) returns (newSession: bool, isFirst: bool)
      modifies this
      ensures View() == Ready(old(View()), e)
      ensures newSession == Find(old(firstContent), e.session).None?
      ensures isFirst == (Find(Announced(old(View()), e), e.session) == Some(true))
    {
      newSession := Announce(e);
      isFirst := Find(firstContent, e.session) == Some(true);
      if |queue| >= MAX_PENDING_AGENT_EVENTS - 1 {
        FlushQueue();
      }
    }

    method Announce(e: Event) returns (newSession: bool)
      modifies this
      ensures View() == old(View()).(firstContent := Announced(old(View()), e))
      ensures newSession == Find(old(firstContent), e.session).None?
    {
      newSession := Find(firstContent, e.session).None?;
      if newSession || e.kind.TurnStarted? {
        firstContent := Put(firstContent, e.session, true);
      }
      TrimSessions();
    }

    method Arm()
      modifies this
      ensures View() == Armed(old(View()))
    {
      if frame.Some? {
        return;
      }
      frame, frames := Some(nextId), frames + {nextId};
      timeout, timers := Some(nextId + 1), timers + {nextId + 1};
      nextId := nextId + 2;
    }

    method OnFrame(id: nat)
      modifies this
      ensures View() == Step(size, old(View()), FrameFires(id))
    {
      frames := frames - {id};
      FlushQueue();
    }

    method OnTimeout(id: nat)
      modifies this
      ensures View() == Step(size, old(View()), TimerFires(id))
    {
      timers := timers - {id};
      FlushQueue();
    }

    method DisposeAll()
      modifies this
      ensures View() == Disposed(old(View()))
    {
      disposed := true;
      Cancel();
      queue, firstContent := [], [];
    }
  }
}
