/** What the mirror protocol keeps in every interleaving. */
module MirrorSafety {
  import opened Wrappers
  import opened MirrorPage
  import opened MirrorProtocol

  /**
   * The list covers every region its answer reported as sensitive, if the answer
   * is steady, and everything the page showed then, if the answers are unbroken.
   */
  predicate Protects(u: Update) {
    && (Steady(u.answer) ==> Reported(u.answer) <= u.regions)
    && (u.unbroken ==> u.shown.Values <= u.regions)
  }

  predicate IsListFor(u: Update, generation: int, regions: set<Bounds>) {
    u.generation == generation && u.regions == regions && Protects(u)
  }

  /** Some list with exactly these regions was sent for `generation`. */
  ghost predicate WasPublished(s: System, generation: int, regions: set<Bounds>) {
    exists u :: u in s.published && IsListFor(u, generation, regions)
  }

  /** Painted before any list was sent, or with a list sent for the epoch it carries. */
  ghost predicate PaintedFor(s: System, epoch: nat, painted: set<Bounds>) {
    epoch > 0 ==> WasPublished(s, epoch, painted)
  }

  ghost predicate TaggedRight(s: System, f: HostFrame) {
    f.generation == f.frame.epoch > 0 && f.generation <= s.background.generation
    && WasPublished(s, f.generation, f.frame.painted)
  }

  ghost predicate BackgroundOk(b: Background) {
    && (b.attached.Some? ==> b.generation > 0)
    && (b.attached.Some? && b.ready ==> b.acknowledged == b.generation)
    && (b.pendingFrame.Some? ==> b.frameInFlight)
  }

  ghost predicate CallsOk(s: System) {
    forall c :: c in s.calls ==> c.generation > 0
  }

  ghost predicate ListsOk(s: System) {
    && s.updates <= s.published
    && (forall u :: u in s.published ==> Protects(u) && 0 < u.generation <= s.background.generation)
  }

  ghost predicate PaintedOk(s: System) {
    && PaintedFor(s, s.offscreen.epoch, s.offscreen.redactions)
    && (forall p :: p in s.paintings ==> PaintedFor(s, p.epoch, p.painted))
    && (forall f :: f in s.frames ==> PaintedFor(s, f.epoch, f.painted))
  }

  ghost predicate MessagesOk(s: System) {
    CallsOk(s) && ListsOk(s) && PaintedOk(s)
  }

  ghost predicate HistoryOk(s: System) {
    && (forall i :: 0 <= i < |s.accepted| ==> TaggedRight(s, HostFrame(None, s.accepted[i].generation, s.accepted[i].frame)))
    && (forall i :: 0 <= i < |s.background.posted| ==> TaggedRight(s, s.background.posted[i]))
    && (s.background.pendingFrame.Some? ==> TaggedRight(s, s.background.pendingFrame.value))
  }

  /** While the answers are unbroken, the worker holds all that a delta answer will not repeat. */
  predicate PageTracked(s: System) {
    s.unbroken ==> HoldsUnchanged(s.background.sensitive, s.page)
  }

  ghost predicate Safe(s: System) {
    BackgroundOk(s.background) && MessagesOk(s) && HistoryOk(s) && PageTracked(s)
  }

  /** Histories only grow, and the generation only rises. */
  predicate Extends(s: System, t: System) {
    s.published <= t.published && s.background.generation <= t.background.generation
  }

  lemma StepExtends(s: System, a: Action)
    ensures Extends(s, Step(s, a))
    ensures s.accepted <= Step(s, a).accepted && s.background.posted <= Step(s, a).background.posted
  {
  }

  lemma PublishedStays(s: System, t: System, generation: int, regions: set<Bounds>)
    requires Extends(s, t) && WasPublished(s, generation, regions)
    ensures WasPublished(t, generation, regions)
  {
  }

  lemma StepBackground(s: System, a: Action)
    requires Safe(s)
    ensures BackgroundOk(Step(s, a).background)
  {
  }

  lemma StepCalls(s: System, a: Action)
    requires CallsOk(s) && BackgroundOk(s.background)
    ensures CallsOk(Step(s, a))
  {
    hide Absorbed, Honest, Lasting;
  }

  /** A list is sent when an answer is read, and for the generation of its call. */
  lemma StepPublishes(s: System, a: Action)
    requires s.updates <= s.published
    ensures
      var t := Step(s, a);
      && t.updates <= t.published
      && (t.published == s.published
          || (a.PageAnswers? && a.call in s.calls && t.background.generation == a.call.generation
              && t.published == s.published + {ListFrom(s, a.call, a.response)}))
  {
    hide Absorbed, Honest, Lasting;
  }

  lemma StepLists(s: System, a: Action)
    requires Safe(s)
    ensures ListsOk(Step(s, a))
  {
    StepExtends(s, a);
    StepPublishes(s, a);
    if a.PageAnswers? {
      NewListProtects(s, a.call, a.response);
    }
    hide Step, ListFrom, Absorbed, Protects, Honest, Lasting, PaintedOk, HistoryOk, PageTracked;
  }

  lemma PublishedGrows(s: System, t: System)
    requires Extends(s, t)
    ensures forall generation, regions :: WasPublished(s, generation, regions) ==> WasPublished(t, generation, regions)
  {
  }

  /** What is painted comes from the offscreen document, and its list from an update in flight. */
  lemma StepPaints(s: System, a: Action)
    ensures
      var t := Step(s, a);
      && ((t.offscreen.epoch == s.offscreen.epoch && t.offscreen.redactions == s.offscreen.redactions)
          || (a.UpdateArrives? && a.update in s.updates && t.offscreen == Redacted(s.offscreen, a.update)))
      && (forall p :: p in t.paintings ==>
            p in s.paintings || (p.epoch == s.offscreen.epoch && p.painted == s.offscreen.redactions))
      && (forall f :: f in t.frames ==>
            f in s.frames || (a.SendFrame? && a.painting in s.paintings && f.epoch == a.painting.epoch && f.painted == a.painting.painted))
  {
    hide Absorbed, Honest, Lasting;
  }

  lemma StepPainted(s: System, a: Action)
    requires Safe(s)
    ensures PaintedOk(Step(s, a))
  {
    StepExtends(s, a);
    StepPaints(s, a);
    hide Step, BackgroundOk, HistoryOk, PageTracked, Protects;
    PublishedGrows(s, Step(s, a));
    if a.UpdateArrives? && a.update in s.updates {
      assert IsListFor(a.update, a.update.generation, a.update.regions);
      assert WasPublished(s, a.update.generation, a.update.regions);
    }
    hide WasPublished;
  }

  lemma {:induction false} StepMessages(s: System, a: Action)
    requires Safe(s)
    ensures MessagesOk(Step(s, a))
  {
    hide Step, CallsOk, ListsOk, PaintedOk;
    StepCalls(s, a);
    StepLists(s, a);
    StepPainted(s, a);
  }

  /** The list built from an answer that is read. */
  function ListFrom(s: System, c: Call, r: Response): Update {
    var held := Absorbed(s.background.sensitive, c.delta, r);
    Update(c.id, c.generation, held.Values, |held|, r, s.page.shown,
           Honest(s.page, c.delta, r) && Lasting(r) && (!c.delta || s.unbroken))
  }

  lemma NewListProtects(s: System, c: Call, r: Response)
    requires PageTracked(s)
    ensures Protects(ListFrom(s, c, r))
  {
    var after := Absorbed(s.background.sensitive, c.delta, r);
    ReportedIsCovered(s.background.sensitive, c.delta, r);
    if Honest(s.page, c.delta, r) && Lasting(r) && (!c.delta || s.unbroken) {
      HonestAnswerCovers(s.background.sensitive, s.page, c.delta, r);
      forall bounds | bounds in s.page.shown.Values
        ensures bounds in after.Values
      {
        var id :| id in s.page.shown && s.page.shown[id] == bounds;
        assert Holds(after, id, bounds);
      }
    }
  }

  lemma StepPage(s: System, a: Action)
    requires Safe(s)
    ensures PageTracked(Step(s, a))
  {
    hide Absorbed, Honest, Lasting, MessagesOk, HistoryOk, NotedAll;
    if a.PageAnswers? && Step(s, a).unbroken && a.call in s.calls {
      if Honest(s.page, a.call.delta, a.response) && Lasting(a.response) && (!a.call.delta || s.unbroken) {
        HonestAnswerCovers(s.background.sensitive, s.page, a.call.delta, a.response);
      }
    }
  }

  lemma StepHistory(s: System, a: Action)
    requires Safe(s)
    ensures HistoryOk(Step(s, a))
  {
    var t := Step(s, a);
    StepExtends(s, a);
    StepDelivers(s, a);
    hide Step, ListsOk, CallsOk, PageTracked;
    forall f | TaggedRight(s, f)
      ensures TaggedRight(t, f)
    {
      PublishedStays(s, t, f.generation, f.frame.painted);
    }
    if t.accepted != s.accepted {
      assert PaintedFor(s, a.frame.epoch, a.frame.painted);
      hide WasPublished;
      assert TaggedRight(s, HostFrame(s.background.lease, s.background.acknowledged, a.frame));
      assert TaggedRight(s, HostFrame(None, s.background.generation, a.frame));
    }
    hide WasPublished, TaggedRight;
  }

  /** Every interleaving keeps all of it. */
  lemma {:induction false} RunSafe(actions: seq<Action>)
    ensures Safe(Run(Start, actions))
  {
    if actions != [] {
      var n := |actions| - 1;
      RunSafe(actions[..n]);
      var s := Run(Start, actions[..n]);
      StepBackground(s, actions[n]);
      StepMessages(s, actions[n]);
      StepHistory(s, actions[n]);
      StepPage(s, actions[n]);
    }
  }

  /**
   * Every frame ever accepted was painted with a list sent for the generation it
   * was accepted under. That list covers what its answer reported, if the answer
   * is steady, and all that the page showed then, if the answers are unbroken.
   */
  lemma AcceptedFramesAreRedacted(actions: seq<Action>, i: nat)
    requires i < |Run(Start, actions).accepted|
    ensures
      var s := Run(Start, actions);
      var a := s.accepted[i];
      a.frame.epoch == a.generation && WasPublished(s, a.generation, a.frame.painted)
  {
    RunSafe(actions);
    var a := Run(Start, actions).accepted[i];
    assert TaggedRight(Run(Start, actions), HostFrame(None, a.generation, a.frame));
  }

  // ----- After an invalidation ---------------------------------------------

  /** A step that tells the worker its picture of the page is out of date. */
  predicate Invalidates(s: System, a: Action) {
    a.DomDirty? || a.Attach? || (a.Navigation? && s.background.attached == Some(a.tab))
  }

  lemma RunSnoc(s: System, actions: seq<Action>, a: Action)
    ensures Run(s, actions + [a]) == Step(Run(s, actions), a)
  {
    assert (actions + [a])[..|actions|] == actions;
  }

  lemma StepQuiet(s: System, a: Action)
    requires !s.background.ready && !(a.UpdateAnswers? && a.ok)
    ensures !Step(s, a).background.ready && Step(s, a).accepted == s.accepted
  {
  }

  /** Without an acknowledgement nothing becomes ready again, so nothing is accepted. */
  lemma {:induction false} NothingAcceptedUnacknowledged(before: seq<Action>, a: Action, after: seq<Action>)
    requires Invalidates(Run(Start, before), a)
    requires forall x :: x in after ==> !(x.UpdateAnswers? && x.ok)
    ensures
      var s := Run(Start, before + [a] + after);
      !s.background.ready && s.accepted == Run(Start, before).accepted
    decreases |after|
  {
    hide Run;
    if after == [] {
      assert before + [a] + after == before + [a];
      RunSnoc(Start, before, a);
    } else {
      hide Step, Invalidates;
      var n := |after| - 1;
      assert before + [a] + after == before + [a] + after[..n] + [after[n]];
      NothingAcceptedUnacknowledged(before, a, after[..n]);
      RunSnoc(Start, before + [a] + after[..n], after[n]);
      StepQuiet(Run(Start, before + [a] + after[..n]), after[n]);
    }
  }

  lemma InvalidationAcceptsNothing(s: System, a: Action)
    requires Invalidates(s, a)
    ensures Step(s, a).accepted == s.accepted
  {
  }

  /** A step accepts one frame at most, under the current generation. */
  lemma NewlyAccepted(s: System, a: Action)
    ensures |Step(s, a).accepted| <= |s.accepted| + 1
    ensures |Step(s, a).accepted| > |s.accepted| ==> Step(s, a).accepted[|s.accepted|].generation == s.background.generation
  {
  }

  /** What is accepted after an invalidation is of a strictly newer generation. */
  lemma {:induction false} AcceptedIsNewer(before: seq<Action>, a: Action, after: seq<Action>, i: nat)
    requires Invalidates(Run(Start, before), a)
    requires |Run(Start, before).accepted| <= i < |Run(Start, before + [a] + after).accepted|
    ensures Run(Start, before + [a] + after).accepted[i].generation > Run(Start, before).background.generation
    ensures Run(Start, before + [a] + after).accepted[i].frame.epoch > Run(Start, before).background.generation
    decreases |after|
  {
    hide Step, Run;
    GenerationRises(before, a, after);
    RunSafe(before + [a] + after);
    var s := Run(Start, before + [a] + after);
    assert TaggedRight(s, HostFrame(None, s.accepted[i].generation, s.accepted[i].frame));
    if after == [] {
      assert before + [a] + after == before + [a];
      RunSnoc(Start, before, a);
      InvalidationAcceptsNothing(Run(Start, before), a);
    } else {
      var n := |after| - 1;
      var earlier := before + [a] + after[..n];
      assert before + [a] + after == earlier + [after[n]];
      RunSnoc(Start, earlier, after[n]);
      StepExtends(Run(Start, earlier), after[n]);
      GenerationRises(before, a, after[..n]);
      NewlyAccepted(Run(Start, earlier), after[n]);
      if i < |Run(Start, earlier).accepted| {
        AcceptedIsNewer(before, a, after[..n], i);
      }
    }
  }

  lemma {:induction false} GenerationRises(before: seq<Action>, a: Action, after: seq<Action>)
    requires Invalidates(Run(Start, before), a)
    ensures Run(Start, before + [a] + after).background.generation > Run(Start, before).background.generation
    decreases |after|
  {
    if after == [] {
      assert before + [a] + after == before + [a];
      RunSnoc(Start, before, a);
    } else {
      var n := |after| - 1;
      assert before + [a] + after == before + [a] + after[..n] + [after[n]];
      GenerationRises(before, a, after[..n]);
      RunSnoc(Start, before + [a] + after[..n], after[n]);
      StepExtends(Run(Start, before + [a] + after[..n]), after[n]);
    }
  }

  // ----- What still reaches the host ---------------------------------------

  /** How many of the frames are of generation `g` or older. */
  function Stale(frames: seq<HostFrame>, g: int): nat {
    if frames == [] then 0
    else Stale(frames[..|frames| - 1], g) + if frames[|frames| - 1].generation <= g then 1 else 0
  }

  function Waiting(b: Background, g: int): nat {
    if b.pendingFrame.Some? && b.pendingFrame.value.generation <= g then 1 else 0
  }

  lemma StaleSnoc(frames: seq<HostFrame>, f: HostFrame, g: int)
    ensures Stale(frames + [f], g) == Stale(frames, g) + if f.generation <= g then 1 else 0
  {
    assert (frames + [f])[..|frames|] == frames;
  }

  lemma StepStale(s: System, a: Action, g: int)
    requires Safe(s) && s.background.generation > g
    ensures
      var t := Step(s, a);
      Stale(t.background.posted, g) + Waiting(t.background, g) <= Stale(s.background.posted, g) + Waiting(s.background, g)
  {
    var b := s.background;
    StepDelivers(s, a);
    hide Step, MessagesOk, HistoryOk, PageTracked, Stale;
    if Step(s, a).accepted != s.accepted {
      StaleSnoc(b.posted, HostFrame(b.lease, b.acknowledged, a.frame), g);
    } else if b.pendingFrame.Some? {
      StaleSnoc(b.posted, b.pendingFrame.value, g);
    }
  }

  /** After an invalidation at most one older frame still reaches the host: the one that was waiting. */
  lemma {:induction false} AtMostOneStaleFrame(before: seq<Action>, a: Action, after: seq<Action>)
    requires Invalidates(Run(Start, before), a)
    ensures
      var s, t := Run(Start, before), Run(Start, before + [a] + after);
      var g := s.background.generation;
      Stale(t.background.posted, g) + Waiting(t.background, g) <= Stale(s.background.posted, g) + Waiting(s.background, g)
    decreases |after|
  {
    var g := Run(Start, before).background.generation;
    if after == [] {
      assert before + [a] + after == before + [a];
      RunSnoc(Start, before, a);
    } else {
      var n := |after| - 1;
      var earlier := before + [a] + after[..n];
      assert before + [a] + after == earlier + [after[n]];
      AtMostOneStaleFrame(before, a, after[..n]);
      RunSnoc(Start, earlier, after[n]);
      RunSafe(earlier);
      GenerationRises(before, a, after[..n]);
      StepStale(Run(Start, earlier), after[n], g);
    }
  }

  // ----- The order the host sees -------------------------------------------

  /** `part` is `whole` with some frames left out. */
  predicate InOrder(part: seq<LiveFrame>, whole: seq<LiveFrame>) {
    if part == [] then true
    else if whole == [] then false
    else
      var p, w := |part| - 1, |whole| - 1;
      (part[p] == whole[w] && InOrder(part[..p], whole[..w])) || InOrder(part, whole[..w])
  }

  function Frames(sent: seq<HostFrame>): seq<LiveFrame> {
    if sent == [] then [] else Frames(sent[..|sent| - 1]) + [sent[|sent| - 1].frame]
  }

  function AcceptedFrames(accepted: seq<Acceptance>): seq<LiveFrame> {
    if accepted == [] then [] else AcceptedFrames(accepted[..|accepted| - 1]) + [accepted[|accepted| - 1].frame]
  }

  /** What the host got, and the frame that is waiting for its turn. */
  function Going(b: Background): seq<LiveFrame> {
    Frames(b.posted) + if b.pendingFrame.Some? then [b.pendingFrame.value.frame] else []
  }

  lemma InOrderSnoc(part: seq<LiveFrame>, whole: seq<LiveFrame>, f: LiveFrame)
    requires InOrder(part, whole)
    ensures InOrder(part, whole + [f]) && InOrder(part + [f], whole + [f])
  {
    assert (part + [f])[..|part|] == part && (whole + [f])[..|whole|] == whole;
  }

  lemma {:induction false} InOrderInit(part: seq<LiveFrame>, f: LiveFrame, whole: seq<LiveFrame>)
    requires InOrder(part + [f], whole)
    ensures InOrder(part, whole)
  {
    var init := whole[..|whole| - 1];
    assert whole == init + [whole[|whole| - 1]];
    assert (part + [f])[..|part|] == part;
    if !InOrder(part, init) {
      InOrderInit(part, f, init);
    }
    InOrderSnoc(part, init, whole[|whole| - 1]);
  }

  lemma FramesSnoc(sent: seq<HostFrame>, f: HostFrame)
    ensures Frames(sent + [f]) == Frames(sent) + [f.frame]
  {
    assert (sent + [f])[..|sent|] == sent;
  }

  lemma AcceptedSnoc(accepted: seq<Acceptance>, a: Acceptance)
    ensures AcceptedFrames(accepted + [a]) == AcceptedFrames(accepted) + [a.frame]
  {
    assert (accepted + [a])[..|accepted|] == accepted;
  }

  /** What one step does to the two histories and the waiting frame. */
  lemma StepDelivers(s: System, a: Action)
    requires BackgroundOk(s.background)
    ensures
      var b, t := s.background, Step(s, a).background;
      if Step(s, a).accepted == s.accepted then
        || (t.posted == b.posted && (t.pendingFrame == b.pendingFrame || t.pendingFrame == None))
        || (b.pendingFrame.Some? && t.posted == b.posted + [b.pendingFrame.value] && t.pendingFrame == None)
      else
        && a.FrameArrives? && a.frame in s.frames && Accepts(b, a.frame)
        && Step(s, a).accepted == s.accepted + [Acceptance(a.frame, b.generation)]
        && var f := HostFrame(b.lease, b.acknowledged, a.frame);
           || (t.posted == b.posted && t.pendingFrame in {Some(f), None})
           || (t.posted == b.posted + [f] && t.pendingFrame == None)
  {
  }

  lemma GoingPosted(b: Background, whole: seq<LiveFrame>)
    requires InOrder(Going(b), whole)
    ensures InOrder(Frames(b.posted), whole)
    ensures b.pendingFrame == None ==> Going(b) == Frames(b.posted)
    ensures b.pendingFrame.Some? ==> Going(b) == Frames(b.posted + [b.pendingFrame.value])
  {
    hide InOrder, Frames;
    if b.pendingFrame.Some? {
      FramesSnoc(b.posted, b.pendingFrame.value);
      InOrderInit(Frames(b.posted), b.pendingFrame.value.frame, whole);
    } else {
      assert Going(b) == Frames(b.posted);
    }
  }

  lemma GoingIs(b: Background)
    ensures b.pendingFrame == None ==> Going(b) == Frames(b.posted)
    ensures b.pendingFrame.Some? ==> Going(b) == Frames(b.posted) + [b.pendingFrame.value.frame]
  {
    hide Frames;
  }

  lemma StepInOrder(s: System, a: Action)
    requires BackgroundOk(s.background) && InOrder(Going(s.background), AcceptedFrames(s.accepted))
    ensures InOrder(Going(Step(s, a).background), AcceptedFrames(Step(s, a).accepted))
  {
    hide *;
    StepDelivers(s, a);
    var b, t := s.background, Step(s, a);
    GoingPosted(b, AcceptedFrames(s.accepted));
    GoingIs(b);
    GoingIs(t.background);
    if t.accepted != s.accepted {
      InOrderSnoc(Frames(b.posted), AcceptedFrames(s.accepted), a.frame);
      AcceptedSnoc(s.accepted, Acceptance(a.frame, b.generation));
      FramesSnoc(b.posted, HostFrame(b.lease, b.acknowledged, a.frame));
    }
  }

  /** Over every run the host gets accepted frames only, each at most as often as it was accepted, and in that order. */
  lemma {:induction false} HostSeesInOrder(actions: seq<Action>)
    ensures InOrder(Going(Run(Start, actions).background), AcceptedFrames(Run(Start, actions).accepted))
  {
    if actions != [] {
      var n := |actions| - 1;
      HostSeesInOrder(actions[..n]);
      RunSafe(actions[..n]);
      hide InOrder, Going, Safe, Step;
      SafeBackground(Run(Start, actions[..n]));
      StepInOrder(Run(Start, actions[..n]), actions[n]);
    }
  }

  lemma SafeBackground(s: System)
    requires Safe(s)
    ensures BackgroundOk(s.background)
  {
  }

  // ----- Painting and sending ----------------------------------------------

  lemma {:induction false} PaintingWaits(before: seq<Action>, between: seq<Action>)
    requires SendFrame(PaintedFrom(Run(Start, before).offscreen, Run(Start, before).nextId)) !in between
    ensures PaintedFrom(Run(Start, before).offscreen, Run(Start, before).nextId) in
      Run(Start, before + [PaintFrame] + between).paintings
    decreases |between|
  {
    var p := PaintedFrom(Run(Start, before).offscreen, Run(Start, before).nextId);
    hide Run;
    if between == [] {
      assert before + [PaintFrame] + between == before + [PaintFrame];
      RunSnoc(Start, before, PaintFrame);
    } else {
      var n := |between| - 1;
      assert before + [PaintFrame] + between == before + [PaintFrame] + between[..n] + [between[n]];
      PaintingWaits(before, between[..n]);
      RunSnoc(Start, before + [PaintFrame] + between[..n], between[n]);
      OnlySendingRemoves(Run(Start, before + [PaintFrame] + between[..n]), between[n], p);
    }
  }

  lemma OnlySendingRemoves(s: System, a: Action, p: Painting)
    requires p in s.paintings && a != SendFrame(p)
    ensures p in Step(s, a).paintings
  {
  }

  /** However long the encoding takes and whatever lists arrive meanwhile, a frame is sent as it was painted. */
  lemma SentAsPainted(before: seq<Action>, between: seq<Action>)
    requires SendFrame(PaintedFrom(Run(Start, before).offscreen, Run(Start, before).nextId)) !in between
    ensures
      var s := Run(Start, before);
      var p := PaintedFrom(s.offscreen, s.nextId);
      exists f :: f in Run(Start, before + [PaintFrame] + between + [SendFrame(p)]).frames &&
                  f.epoch == s.offscreen.epoch && f.painted == s.offscreen.redactions
  {
    var s := Run(Start, before);
    var p := PaintedFrom(s.offscreen, s.nextId);
    var earlier := before + [PaintFrame] + between;
    PaintingWaits(before, between);
    RunSnoc(Start, earlier, SendFrame(p));
    hide Run;
    assert FrameFor(Run(Start, earlier).offscreen, p) in Run(Start, earlier + [SendFrame(p)]).frames;
  }

  // ----- Where the promise stops -------------------------------------------

  const NOTHING := Response(true, [], [], [])

  function CallOf(delta: bool, id: nat, generation: nat, phase: Phase): Call {
    Call(id, 1, Some("lease"), generation, delta, phase)
  }

  /** The page shows one region, and its full answer comes after a change: it is discarded. */
  function TooLate(id: string, bounds: Bounds): seq<Action> {
    [Attach(1, "lease"), PageChanges(Change(id, Some(bounds)), true), BeginSnapshot(false), DomDirty,
     PageAnswers(CallOf(false, 0, 1, AwaitingPage), Response(true, [], [Region(id, bounds, true)], []))]
  }

  /** A delta answer then has nothing to repeat, and a frame is painted with its empty list. */
  function ThenDelta(shown: map<string, Bounds>): seq<Action> {
    var c := CallOf(true, 1, 2, AwaitingUpdate);
    [BeginSnapshot(true), PageAnswers(c.(phase := AwaitingPage), NOTHING),
     UpdateArrives(c, Update(1, 2, {}, 0, NOTHING, shown, false)), UpdateAnswers(c, true),
     PaintFrame, SendFrame(Painting(2, 2, {})), FrameArrives(LiveFrame(2, {}, 0, 1))]
  }

  /** After the discarded answer nothing is held and nothing is left to report. */
  function Late(shown: map<string, Bounds>): System {
    Start.(background := Start.background.(attached := Some(1), lease := Some("lease"), generation := 2),
           page := Page(shown, {}), nextId := 1)
  }

  lemma {:induction false} RunConcat(s: System, first: seq<Action>, second: seq<Action>)
    ensures Run(s, first + second) == Run(Run(s, first), second)
    decreases |second|
  {
    if second == [] {
      assert first + second == first;
    } else {
      var n := |second| - 1;
      assert first + second == first + second[..n] + [second[n]];
      RunConcat(s, first, second[..n]);
      RunSnoc(s, first + second[..n], second[n]);
    }
  }

  lemma RunOne(s: System, a: Action)
    ensures Run(s, [a]) == Step(s, a)
  {
    assert [] + [a] == [a];
    RunSnoc(s, [], a);
  }

  lemma TooLateIsLate(id: string, bounds: Bounds)
    ensures Run(Start, TooLate(id, bounds)) == Late(map[id := bounds])
  {
    var a := TooLate(id, bounds);
    var s1, s2, s3 := Step(Start, a[0]), Step(Step(Start, a[0]), a[1]), Step(Step(Step(Start, a[0]), a[1]), a[2]);
    assert s2.page == Page(map[id := bounds], {id}) && s2.background.generation == 1;
    assert s3.calls == {CallOf(false, 0, 1, AwaitingPage)};
    var s4 := Step(s3, a[3]);
    assert Step(s4, a[4]).calls == {};
    assert Step(s4, a[4]) == Late(map[id := bounds]);
    hide Step, Late, TooLate;
    RunFive(Start, a);
  }

  lemma RunFive(s: System, a: seq<Action>)
    requires |a| == 5
    ensures Run(s, a) == Step(Step(Step(Step(Step(s, a[0]), a[1]), a[2]), a[3]), a[4])
  {
    hide Step, Run;
    assert a == [] + [a[0]] + [a[1]] + [a[2]] + [a[3]] + [a[4]];
    RunOne(s, a[0]);
    assert [a[0]] == [] + [a[0]];
    RunSnoc(s, [a[0]], a[1]);
    RunSnoc(s, [a[0]] + [a[1]], a[2]);
    RunSnoc(s, [a[0]] + [a[1]] + [a[2]], a[3]);
    RunSnoc(s, [a[0]] + [a[1]] + [a[2]] + [a[3]], a[4]);
  }

  function EmptyList(shown: map<string, Bounds>): Update {
    Update(1, 2, {}, 0, NOTHING, shown, false)
  }

  /** A delta answer is asked for and read. */
  lemma DeltaIsRead(shown: map<string, Bounds>)
    ensures
      var a, s := ThenDelta(shown), Late(shown);
      var read := Step(Step(s, a[0]), a[1]);
      read == s.(calls := {CallOf(true, 1, 2, AwaitingUpdate)}, updates := {EmptyList(shown)},
                 nextId := 2, published := {EmptyList(shown)})
  {
    var a, s := ThenDelta(shown), Late(shown);
    var s1 := Step(s, a[0]);
    assert s1.calls == {CallOf(true, 1, 2, AwaitingPage)} && !s1.unbroken;
    assert Absorbed(s1.background.sensitive, true, NOTHING) == map[];
    assert Absorbed(s1.background.sensitive, true, NOTHING).Values == {};
    hide Absorbed, Honest, Lasting;
    var s2 := Step(s1, a[1]);
    assert s2.calls == {CallOf(true, 1, 2, AwaitingUpdate)} && s2.updates == {EmptyList(shown)} == s2.published;
  }

  /** Its list arrives and is acknowledged. */
  lemma DeltaIsReady(shown: map<string, Bounds>)
    ensures
      var a, s := ThenDelta(shown), Late(shown);
      var ready := Step(Step(Step(Step(s, a[0]), a[1]), a[2]), a[3]);
      ready == s.(background := s.background.(ready := true, acknowledged := 2), offscreen := Offscreen({}, 0, 2, 0),
                  nextId := 2, published := {EmptyList(shown)})
  {
    var a, s := ThenDelta(shown), Late(shown);
    var asked := CallOf(true, 1, 2, AwaitingUpdate);
    assert a[2] == UpdateArrives(asked, EmptyList(shown)) && a[3] == UpdateAnswers(asked, true);
    assert s.updates == {} && s.answers == {} && s.calls == {};
    DeltaIsRead(shown);
    hide ThenDelta, Absorbed, Honest, Lasting;
    var s2 := Step(Step(s, a[0]), a[1]);
    var s3 := Step(s2, a[2]);
    assert s3.updates == {} && s3.answers == {asked};
    var s4 := Step(s3, a[3]);
    assert s4.calls == {} && s4.answers == {};
  }

  /** The next frame is painted with that list and accepted. */
  lemma {:induction false} FrameIsAccepted(shown: map<string, Bounds>, published: set<Update>)
    ensures
      var a, s := ThenDelta(shown), Late(shown);
      var ready := s.(background := s.background.(ready := true, acknowledged := 2), offscreen := Offscreen({}, 0, 2, 0),
                      nextId := 2, published := published);
      var end := Step(Step(Step(ready, a[4]), a[5]), a[6]);
      end.page.shown == shown && end.accepted == [Acceptance(LiveFrame(2, {}, 0, 1), 2)]
  {
    var a, s := ThenDelta(shown), Late(shown);
    var ready := s.(background := s.background.(ready := true, acknowledged := 2), offscreen := Offscreen({}, 0, 2, 0),
                    nextId := 2, published := published);
    assert a[4] == PaintFrame && a[5] == SendFrame(Painting(2, 2, {})) && a[6] == FrameArrives(LiveFrame(2, {}, 0, 1));
    assert ready.accepted == [] && ready.page.shown == shown && ready.background.attached.Some?;
    hide Late, ThenDelta;
    var s5 := Step(ready, a[4]);
    assert Painting(2, 2, {}) in s5.paintings;
    var s6 := Step(s5, a[5]);
    assert LiveFrame(2, {}, 0, 1) in s6.frames;
    assert Accepts(s6.background, LiveFrame(2, {}, 0, 1));
  }

  /** A full answer that is discarded and a delta answer after it: a frame is accepted that covers nothing of the page. */
  lemma DiscardedAnswerUncovers(id: string, bounds: Bounds)
    ensures
      var shown := map[id := bounds];
      var end := Run(Start, TooLate(id, bounds) + ThenDelta(shown));
      end.page.shown == shown && |end.accepted| == 1 && end.accepted[0].frame.painted == {}
  {
    var shown := map[id := bounds];
    var a := ThenDelta(shown);
    assert |a| == 7;
    assert a == a[..4] + a[4..];
    TooLateIsLate(id, bounds);
    DeltaIsReady(shown);
    RunConcat(Start, TooLate(id, bounds), a);
    var ready := Step(Step(Step(Step(Late(shown), a[0]), a[1]), a[2]), a[3]);
    FrameIsAccepted(shown, ready.published);
    hide *;
    RunSeven(Late(shown), a);
  }

  lemma RunSeven(s: System, a: seq<Action>)
    requires |a| == 7
    ensures Run(s, a) == Step(Step(Step(Step(Step(Step(Step(s, a[0]), a[1]), a[2]), a[3]), a[4]), a[5]), a[6])
  {
    hide Step, Run;
    var five := a[..5];
    assert a == five + [a[5]] + [a[6]];
    RunFive(s, five);
    RunSnoc(s, five, a[5]);
    RunSnoc(s, five + [a[5]], a[6]);
  }
}
