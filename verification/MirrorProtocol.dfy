/**
 * The browser mirror: the background worker invalidates, snapshots and
 * acknowledges a page, the offscreen document paints live frames, and messages
 * cross between them while the page may change at any moment. Every stretch of
 * code between two awaits is one atomic step.
 */
module MirrorProtocol {
  import opened Wrappers
  import opened MirrorPage

  // ----- Messages ----------------------------------------------------------

  /** A frame message on its way from the offscreen document. */
  datatype LiveFrame = LiveFrame(epoch: nat, painted: set<Bounds>, redactedRegions: nat, sequence: nat)

  /** A frame on its way to the host. */
  datatype HostFrame = HostFrame(lease: Option<string>, generation: int, frame: LiveFrame)

  datatype Phase = AwaitingPage | AwaitingUpdate

  /** A `sendSnapshot` between two awaits, with what it read when it began. */
  datatype Call = Call(id: nat, tab: int, lease: Option<string>, generation: nat, delta: bool, phase: Phase)

  /**
   * A redaction list sent to the offscreen document. The rest is history: the
   * answer it was built from, what the page showed then, and whether the answers
   * up to that one were unbroken.
   */
  datatype Update = Update(
    call: nat,
    generation: nat,
    regions: set<Bounds>,
    count: nat,
    answer: Response,
    shown: map<string, Bounds>,
    unbroken: bool)

  // ----- The background worker ---------------------------------------------

  datatype Background = Background(
    attached: Option<int>,
    lease: Option<string>,
    ready: bool,
    generation: nat,
    acknowledged: int,
    sensitive: map<string, Bounds>,
    port: bool,
    frameInFlight: bool,
    pendingFrame: Option<HostFrame>,
    posted: seq<HostFrame>)

  function Invalidated(b: Background): Background {
    b.(ready := false, generation := b.generation + 1, acknowledged := -1)
  }

  function Navigated(b: Background, tab: int): Background {
    if b.attached == Some(tab) then Invalidated(b).(sensitive := map[]) else b
  }

  function AttachedTo(b: Background, tab: int, lease: string): Background {
    Invalidated(b).(attached := Some(tab), lease := Some(lease), sensitive := map[])
  }

  function DetachedFrom(b: Background): Background {
    b.(attached := None, lease := None, frameInFlight := false, pendingFrame := None, acknowledged := -1)
  }

  /** Nothing the call read when it began has changed since. */
  predicate StillCurrent(b: Background, c: Call) {
    b.attached == Some(c.tab) && b.lease == c.lease && b.generation == c.generation
  }

  function PageRead(b: Background, c: Call, r: Response): Background {
    if StillCurrent(b, c) && r.ok then b.(sensitive := Absorbed(b.sensitive, c.delta, r)) else b
  }

  function UpdateAcknowledged(b: Background, c: Call, ok: bool): Background {
    if StillCurrent(b, c) && ok then b.(acknowledged := c.generation, ready := true) else b
  }

  function FrameQueued(b: Background, f: HostFrame): Background {
    if b.frameInFlight then b.(pendingFrame := Some(f))
    else b.(frameInFlight := true, posted := if b.port then b.posted + [f] else b.posted)
  }

  predicate Accepts(b: Background, f: LiveFrame) {
    b.attached.Some? && b.ready && f.epoch == b.acknowledged
  }

  function FrameReceived(b: Background, f: LiveFrame): Background {
    if Accepts(b, f) then FrameQueued(b, HostFrame(b.lease, b.acknowledged, f)) else b
  }

  function HostAcknowledged(b: Background): Background {
    var idle := b.(frameInFlight := false, pendingFrame := None);
    if b.pendingFrame.Some? then FrameQueued(idle, b.pendingFrame.value) else idle
  }

  function PortLost(b: Background): Background {
    b.(port := false, frameInFlight := false, pendingFrame := None)
  }

  /** The background worker's own variables and handlers. */
  class BackgroundWorker {
    var attachedTabId: Option<int>
    var leaseId: Option<string>
    var snapshotReady: bool
    var snapshotGeneration: nat
    var acknowledgedRedactionEpoch: int
    var sensitiveElements: map<string, Bounds>
    var connected: bool
    var frameInFlight: bool
    var pendingFrame: Option<HostFrame>
    var posted: seq<HostFrame>

    ghost function View(): Background
      reads this
    {
      Background(attachedTabId, leaseId, snapshotReady, snapshotGeneration, acknowledgedRedactionEpoch,
                 sensitiveElements, connected, frameInFlight, pendingFrame, posted)
    }

    method OnDomDirty()
      modifies this
      ensures View() == Invalidated(old(View()))
    {
      snapshotReady := false;
      snapshotGeneration := snapshotGeneration + 1;
      acknowledgedRedactionEpoch := -1;
    }

    method OnNavigation(tab: int)
      modifies this
      ensures View() == Navigated(old(View()), tab)
    {
      if attachedTabId != Some(tab) {
        return;
      }
      OnDomDirty();
      sensitiveElements := map[];
    }

    method CommitAttach(tab: int, requestedLease: string)
      modifies this
      ensures View() == AttachedTo(old(View()), tab, requestedLease)
    {
      attachedTabId, leaseId := Some(tab), Some(requestedLease);
      OnDomDirty();
      sensitiveElements := map[];
    }

    method CommitDetach()
      modifies this
      ensures View() == DetachedFrom(old(View()))
    {
      attachedTabId, leaseId := None, None;
      frameInFlight, pendingFrame, acknowledgedRedactionEpoch := false, None, -1;
    }

    /** The stretch of `sendSnapshot` after the page answered; the values of `sent` are the list it sends on. */
    method ReadPage(c: Call, r: Response) returns (sent: Option<map<string, Bounds>>)
      modifies this
      ensures View() == PageRead(old(View()), c, r)
      ensures sent == if StillCurrent(old(View()), c) && r.ok then Some(sensitiveElements) else None
    {
      if attachedTabId != Some(c.tab) || leaseId != c.lease || snapshotGeneration != c.generation || !r.ok {
        return None;
      }
      var sensitive := if c.delta then sensitiveElements else map[];
      ghost var start := sensitive;
      for i := 0 to |r.removedIds|
        invariant sensitive == start - ToSet(r.removedIds[..i])
      {
        assert ToSet(r.removedIds[..i + 1]) == ToSet(r.removedIds[..i]) + {r.removedIds[i]};
        sensitive := sensitive - {r.removedIds[i]};
      }
      assert r.removedIds[..|r.removedIds|] == r.removedIds;
      var all := Mentions(r);
      ghost var kept := sensitive;
      for i := 0 to |all|
        invariant sensitive == NotedAll(kept, all[..i])
      {
        assert all[..i + 1][..i] == all[..i];
        if all[i].sensitive {
          sensitive := sensitive[all[i].id := all[i].bounds];
        } else {
          sensitive := sensitive - {all[i].id};
        }
      }
      assert all[..|all|] == all;
      sensitiveElements := sensitive;
      sent := Some(sensitiveElements);
    }

    /** The last stretch of `sendSnapshot`, after the offscreen document answered. */
    method OnUpdateAnswered(c: Call, ok: bool)
      modifies this
      ensures View() == UpdateAcknowledged(old(View()), c, ok)
    {
      if attachedTabId != Some(c.tab) || leaseId != c.lease || snapshotGeneration != c.generation || !ok {
        return;
      }
      acknowledgedRedactionEpoch := c.generation;
      snapshotReady := true;
    }

    method QueueFrame(f: HostFrame)
      modifies this
      ensures View() == FrameQueued(old(View()), f)
    {
      if frameInFlight {
        pendingFrame := Some(f);
        return;
      }
      frameInFlight := true;
      if connected {
        posted := posted + [f];
      }
    }

    method OnLiveFrame(f: LiveFrame)
      modifies this
      ensures View() == FrameReceived(old(View()), f)
    {
      if attachedTabId.Some? && snapshotReady && f.epoch == acknowledgedRedactionEpoch {
        QueueFrame(HostFrame(leaseId, acknowledgedRedactionEpoch, f));
      }
    }

    method OnFrameAck()
      modifies this
      ensures View() == HostAcknowledged(old(View()))
    {
      frameInFlight := false;
      if pendingFrame.Some? {
        var f := pendingFrame.value;
        pendingFrame := None;
        QueueFrame(f);
      }
    }

    method OnDisconnect()
      modifies this
      ensures View() == PortLost(old(View()))
    {
      connected := false;
      frameInFlight, pendingFrame := false, None;
    }
  }

  // ----- The offscreen document --------------------------------------------

  /** The regions painted over, and how many entries the list has: two of them may have the same bounds. */
  datatype Offscreen = Offscreen(redactions: set<Bounds>, count: nat, epoch: nat, sequence: nat)

  /** A frame painted and not yet encoded: the list and the epoch it was painted with. */
  datatype Painting = Painting(id: nat, epoch: nat, painted: set<Bounds>)

  function Redacted(o: Offscreen, u: Update): Offscreen {
    o.(redactions := u.regions, count := u.count, epoch := u.generation)
  }

  /** A frame painted now: the list and the epoch are read together. */
  function PaintedFrom(o: Offscreen, id: nat): Painting {
    Painting(id, o.epoch, o.redactions)
  }

  /** The message for a finished painting. The count is read now, not when it was painted. */
  function FrameFor(o: Offscreen, p: Painting): LiveFrame {
    LiveFrame(p.epoch, p.painted, o.count, o.sequence + 1)
  }

  class OffscreenDocument {
    var redactions: set<Bounds>
    var count: nat
    var redactionEpoch: nat
    var sequence: nat

    ghost function View(): Offscreen
      reads this
    {
      Offscreen(redactions, count, redactionEpoch, sequence)
    }

    method OnUpdateRedactions(u: Update)
      modifies this
      ensures View() == Redacted(old(View()), u)
    {
      redactions, count := u.regions, u.count;
      redactionEpoch := u.generation;
    }

    /** The stretch of `capture` up to the first await. */
    method Paint(id: nat) returns (p: Painting)
      ensures p == PaintedFrom(View(), id)
    {
      var frameEpoch := redactionEpoch;
      p := Painting(id, frameEpoch, redactions);
    }

    /** The stretch of `capture` that sends the encoded frame. */
    method Send(p: Painting) returns (f: LiveFrame)
      modifies this
      ensures f == FrameFor(old(View()), p)
      ensures View() == old(View()).(sequence := old(sequence) + 1)
    {
      sequence := sequence + 1;
      f := LiveFrame(p.epoch, p.painted, count, sequence);
    }
  }

  // ----- The whole system --------------------------------------------------

  datatype Acceptance = Acceptance(frame: LiveFrame, generation: nat)

  /**
   * The page and both sides, everything in flight between them (in no particular
   * order), and three histories: the lists ever sent, the frames ever accepted,
   * and whether the answers read since a full one are unbroken.
   */
  datatype System = System(
    background: Background,
    offscreen: Offscreen,
    calls: set<Call>,
    updates: set<Update>,
    answers: set<Call>,
    paintings: set<Painting>,
    frames: set<LiveFrame>,
    nextId: nat,
    published: set<Update>,
    accepted: seq<Acceptance>,
    page: Page,
    unbroken: bool)

  const Start := System(
    Background(None, None, false, 0, -1, map[], true, false, None, []),
    Offscreen({}, 0, 0, 0), {}, {}, {}, {}, {}, 0, {}, [], Page(map[], {}), false)

  /** A change is `noticed` when the page's observer records its element; a mere shift of place is not. */
  datatype Action =
    | PageChanges(change: Change, noticed: bool)
    | DomDirty
    | Navigation(tab: int)
    | Attach(tab: int, lease: string)
    | Detach
    | BeginSnapshot(delta: bool)
    | PageAnswers(call: Call, response: Response)
    | UpdateArrives(call: Call, update: Update)
    | UpdateAnswers(call: Call, ok: bool)
    | CallFails(call: Call)
    | PaintFrame
    | SendFrame(painting: Painting)
    | FrameArrives(frame: LiveFrame)
    | FrameAck
    | Disconnect
    | Reconnect

  function Step(s: System, a: Action): System {
    var b := s.background;
    match a
    case PageChanges(change, noticed) =>
      if noticed then s.(page := Mutated(s.page, change))
      else s.(page := s.page.(shown := Shown(s.page.shown, change)), unbroken := false)
    case DomDirty => s.(background := Invalidated(b))
    case Navigation(tab) => s.(background := Navigated(b, tab), unbroken := s.unbroken && b.attached != Some(tab))
    case Attach(tab, lease) => s.(background := AttachedTo(b, tab, lease), unbroken := false)
    case Detach => s.(background := DetachedFrom(b))
    case BeginSnapshot(delta) =>
      if b.attached.None? then s
      else s.(calls := s.calls + {Call(s.nextId, b.attached.value, b.lease, b.generation, delta, AwaitingPage)},
              nextId := s.nextId + 1)
    case PageAnswers(c, r) =>
      if c !in s.calls || c.phase != AwaitingPage then s
      else if !StillCurrent(b, c) || !r.ok then
        s.(calls := s.calls - {c}, page := Answered(s.page), unbroken := false)
      else
        var read := PageRead(b, c, r);
        var unbroken := Honest(s.page, c.delta, r) && Lasting(r) && (!c.delta || s.unbroken);
        var u := Update(c.id, c.generation, read.sensitive.Values, |read.sensitive|, r, s.page.shown, unbroken);
        s.(background := read, calls := s.calls - {c} + {c.(phase := AwaitingUpdate)},
           updates := s.updates + {u}, published := s.published + {u},
           page := Answered(s.page), unbroken := unbroken)
    case UpdateArrives(c, u) =>
      if u !in s.updates || c.id != u.call then s
      else s.(offscreen := Redacted(s.offscreen, u), updates := s.updates - {u}, answers := s.answers + {c})
    case UpdateAnswers(c, ok) =>
      if c !in s.calls || c.phase != AwaitingUpdate || (ok && c !in s.answers) then s
      else s.(background := UpdateAcknowledged(b, c, ok), calls := s.calls - {c}, answers := s.answers - {c})
    case CallFails(c) => s.(calls := s.calls - {c})
    case PaintFrame =>
      s.(paintings := s.paintings + {PaintedFrom(s.offscreen, s.nextId)}, nextId := s.nextId + 1)
    case SendFrame(p) =>
      if p !in s.paintings then s
      else s.(offscreen := s.offscreen.(sequence := s.offscreen.sequence + 1), paintings := s.paintings - {p},
              frames := s.frames + {FrameFor(s.offscreen, p)})
    case FrameArrives(f) =>
      if f !in s.frames then s
      else s.(background := FrameReceived(b, f), frames := s.frames - {f},
              accepted := if Accepts(b, f) then s.accepted + [Acceptance(f, b.generation)] else s.accepted)
    case FrameAck => s.(background := HostAcknowledged(b))
    case Disconnect => s.(background := PortLost(b))
    case Reconnect => s.(background := b.(port := true))
  }

  function Run(s: System, actions: seq<Action>): System {
    if actions == [] then s
    else Step(Run(s, actions[..|actions| - 1]), actions[|actions| - 1])
  }
}
