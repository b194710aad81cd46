/** What becomes of a frame the background worker accepts. */
module MirrorDelivery {
  import opened Wrappers
  import opened MirrorPage
  import opened MirrorProtocol
  import opened MirrorSafety

  /** The worker takes the frame: a tab is attached, its snapshot is ready, and the frame was painted for it. */
  predicate Takes(s: System, f: LiveFrame) {
    f in s.frames && s.background.attached.Some? && s.background.ready && f.epoch == s.background.acknowledged
  }

  /** The frame as the host gets it. */
  function Tagged(s: System, f: LiveFrame): HostFrame {
    HostFrame(s.background.lease, s.background.acknowledged, f)
  }

  /** The newest frame taken while connected, unless the tab was detached or the port lost since. */
  function Newest(actions: seq<Action>): Option<HostFrame> {
    if actions == [] then None
    else
      var n := |actions| - 1;
      var s := Run(Start, actions[..n]);
      match actions[n]
      case FrameArrives(f) =>
        if !Takes(s, f) then Newest(actions[..n]) else if s.background.port then Some(Tagged(s, f)) else None
      case Detach => None
      case Disconnect => None
      case _ => Newest(actions[..n])
  }

  /** It waits for its turn, or it was the last one posted. */
  predicate IsOnItsWay(b: Background, f: HostFrame) {
    b.port && (b.pendingFrame == Some(f) || (b.pendingFrame == None && b.posted != [] && b.posted[|b.posted| - 1] == f))
  }

  lemma StepOnItsWay(s: System, a: Action, f: HostFrame)
    requires BackgroundOk(s.background) && IsOnItsWay(s.background, f)
    requires !a.Detach? && !a.Disconnect? && !(a.FrameArrives? && Takes(s, a.frame))
    ensures IsOnItsWay(Step(s, a).background, f)
  {
    hide Absorbed, Honest, Lasting;
  }

  lemma TakenIsOnItsWay(s: System, f: LiveFrame)
    requires BackgroundOk(s.background) && Takes(s, f) && s.background.port
    ensures IsOnItsWay(Step(s, FrameArrives(f)).background, Tagged(s, f))
  {
  }

  /** Over every run the newest frame taken waits for its turn or was the last one posted. */
  lemma {:induction false} NewestIsOnItsWay(actions: seq<Action>)
    ensures Newest(actions).Some? ==> IsOnItsWay(Run(Start, actions).background, Newest(actions).value)
  {
    if actions != [] {
      var n := |actions| - 1;
      var s, a := Run(Start, actions[..n]), actions[n];
      NewestIsOnItsWay(actions[..n]);
      RunSafe(actions[..n]);
      assert BackgroundOk(s.background);
      hide Step, Safe, IsOnItsWay, Takes;
      if a.FrameArrives? && Takes(s, a.frame) {
        if s.background.port {
          TakenIsOnItsWay(s, a.frame);
        }
      } else if !a.Detach? && !a.Disconnect? && Newest(actions[..n]).Some? {
        StepOnItsWay(s, a, Newest(actions[..n]).value);
      }
    }
  }

  /** An acknowledgement posts the newest frame taken, if it was not posted yet, and nothing else. */
  lemma AckPostsNewest(actions: seq<Action>)
    requires Newest(actions).Some?
    ensures
      var f := Newest(actions).value;
      var b, after := Run(Start, actions).background, Run(Start, actions + [FrameAck]).background;
      && after.posted == (if b.pendingFrame == Some(f) then b.posted + [f] else b.posted)
      && after.posted != [] && after.posted[|after.posted| - 1] == f && after.pendingFrame == None
  {
    NewestIsOnItsWay(actions);
    RunSnoc(Start, actions, FrameAck);
    hide Run;
  }

  /** An acknowledgement with nothing waiting posts nothing. */
  lemma AckPostsNothing(actions: seq<Action>)
    requires Run(Start, actions).background.pendingFrame == None
    ensures Run(Start, actions + [FrameAck]).background ==
      Run(Start, actions).background.(frameInFlight := false)
  {
    RunSnoc(Start, actions, FrameAck);
    hide Run;
  }

  /** A frame that is taken is posted at once if none is in flight, and waits in place of an older one otherwise. */
  lemma TakenIsPostedWhenIdle(actions: seq<Action>, f: LiveFrame)
    requires Takes(Run(Start, actions), f)
    ensures
      var s := Run(Start, actions);
      var b, after := s.background, Run(Start, actions + [FrameArrives(f)]).background;
      if b.frameInFlight then after == b.(pendingFrame := Some(Tagged(s, f)))
      else after == b.(frameInFlight := true, posted := if b.port then b.posted + [Tagged(s, f)] else b.posted)
  {
    RunSnoc(Start, actions, FrameArrives(f));
    hide Run;
  }

  /** A frame that is not taken changes nothing but that it has arrived. */
  lemma OthersAreRefused(s: System, f: LiveFrame)
    requires !Takes(s, f)
    ensures Step(s, FrameArrives(f)).background == s.background && Step(s, FrameArrives(f)).accepted == s.accepted
  {
  }

  // ----- Becoming ready, and not --------------------------------------------

  /** The answer that makes the worker ready: for the tab, the lease and the generation it has now. */
  predicate Settles(s: System, a: Action) {
    && a.UpdateAnswers? && a.ok && a.call in s.calls && a.call in s.answers && a.call.phase == AwaitingUpdate
    && s.background.attached == Some(a.call.tab) && s.background.lease == a.call.lease
    && s.background.generation == a.call.generation
  }

  /** The worker is ready exactly after such an answer, and until the next invalidation. */
  lemma ReadyIff(s: System, a: Action)
    ensures Step(s, a).background.ready <==> Settles(s, a) || (s.background.ready && !Invalidates(s, a))
    ensures Settles(s, a) ==> Step(s, a).background.acknowledged == s.background.generation
  {
    hide Absorbed, Honest, Lasting;
  }

  /** No tab, no lease, and no frame waiting. */
  predicate IsLetGo(b: Background) {
    b.attached.None? && b.lease.None? && b.pendingFrame.None?
  }

  lemma StepStaysDetached(s: System, a: Action)
    requires IsLetGo(s.background) && !a.Attach?
    ensures IsLetGo(Step(s, a).background) && Step(s, a).accepted == s.accepted
  {
    hide Absorbed, Honest, Lasting;
  }

  /** After a detach nothing is accepted until a tab is attached again. */
  lemma {:induction false} NothingAcceptedDetached(before: seq<Action>, after: seq<Action>)
    requires forall a :: a in after ==> !a.Attach?
    ensures
      var s := Run(Start, before + [Detach] + after);
      IsLetGo(s.background) && s.accepted == Run(Start, before).accepted
    decreases |after|
  {
    hide Run;
    if after == [] {
      assert before + [Detach] + after == before + [Detach];
      RunSnoc(Start, before, Detach);
    } else {
      hide Step;
      var n := |after| - 1;
      assert before + [Detach] + after == before + [Detach] + after[..n] + [after[n]];
      NothingAcceptedDetached(before, after[..n]);
      RunSnoc(Start, before + [Detach] + after[..n], after[n]);
      StepStaysDetached(Run(Start, before + [Detach] + after[..n]), after[n]);
    }
  }

  // ----- Leaving a page ----------------------------------------------------

  /** What the answers read since the last attach, or navigation of the attached tab, reported as sensitive. */
  function ReportedHere(actions: seq<Action>): set<Bounds> {
    if actions == [] then {}
    else
      var n := |actions| - 1;
      match actions[n]
      case Attach(_, _) => {}
      case Navigation(tab) =>
        if Run(Start, actions[..n]).background.attached == Some(tab) then {} else ReportedHere(actions[..n])
      case PageAnswers(_, r) => ReportedHere(actions[..n]) + Reported(r)
      case _ => ReportedHere(actions[..n])
  }

  lemma AbsorbedIsReported(held: map<string, Bounds>, delta: bool, r: Response)
    ensures Absorbed(held, delta, r).Values <= held.Values + Reported(r)
  {
    var after := Absorbed(held, delta, r);
    forall bounds | bounds in after.Values
      ensures bounds in held.Values + Reported(r)
    {
      var id :| id in after && after[id] == bounds;
      NotedLast((if delta then held else map[]) - ToSet(r.removedIds), Mentions(r), id);
      hide NotedAll, LastMention, Mentions;
    }
  }

  lemma StepHolds(s: System, a: Action)
    ensures
      var before, after := s.background.sensitive, Step(s, a).background.sensitive;
      match a
      case Attach(_, _) => after == map[]
      case Navigation(tab) => after == if s.background.attached == Some(tab) then map[] else before
      case PageAnswers(_, r) => after.Values <= before.Values + Reported(r)
      case _ => after == before
  {
    hide Absorbed, Reported, Honest, Lasting;
    if a.PageAnswers? {
      AbsorbedIsReported(s.background.sensitive, a.call.delta, a.response);
    }
  }

  /** Over every run the regions held were reported for the page attached now, none for a page that was left. */
  lemma {:induction false} HeldIsOfThisPage(actions: seq<Action>)
    ensures Run(Start, actions).background.sensitive.Values <= ReportedHere(actions)
  {
    if actions != [] {
      var n := |actions| - 1;
      HeldIsOfThisPage(actions[..n]);
      StepHolds(Run(Start, actions[..n]), actions[n]);
      hide Step, Reported;
    }
  }

  /** And so is every list sent to the offscreen document. */
  lemma SentListIsOfThisPage(actions: seq<Action>, a: Action, u: Update)
    requires u in Run(Start, actions + [a]).published && u !in Run(Start, actions).published
    ensures u.regions == Run(Start, actions + [a]).background.sensitive.Values
    ensures u.regions <= ReportedHere(actions + [a])
  {
    RunSnoc(Start, actions, a);
    HeldIsOfThisPage(actions + [a]);
    hide Run, ReportedHere, Absorbed, Honest, Lasting;
  }

  // ----- Numbers -----------------------------------------------------------

  predicate NumberedBelow(s: System) {
    && (forall f :: f in s.frames ==> f.sequence <= s.offscreen.sequence)
    && (forall i :: 0 <= i < |s.accepted| ==> s.accepted[i].frame.sequence <= s.offscreen.sequence)
  }

  lemma StepNumbers(s: System, a: Action)
    requires NumberedBelow(s)
    ensures NumberedBelow(Step(s, a)) && s.offscreen.sequence <= Step(s, a).offscreen.sequence
    ensures forall f :: f in Step(s, a).frames && f !in s.frames ==> f.sequence == s.offscreen.sequence + 1
  {
    hide Absorbed, Honest, Lasting;
  }

  /** Over every run a frame that is sent has a number no frame had before. */
  lemma {:induction false} SentFramesAreNumbered(actions: seq<Action>, a: Action)
    ensures NumberedBelow(Run(Start, actions))
    ensures
      var s, t := Run(Start, actions), Run(Start, actions + [a]);
      forall f, g :: f in t.frames && f !in s.frames && g in s.frames ==> g.sequence < f.sequence
    decreases |actions|
  {
    if actions != [] {
      var n := |actions| - 1;
      SentFramesAreNumbered(actions[..n], actions[n]);
      StepNumbers(Run(Start, actions[..n]), actions[n]);
    }
    RunSnoc(Start, actions, a);
    hide Step, Run;
    StepNumbers(Run(Start, actions), a);
  }

  // ----- Where the promise stops -------------------------------------------

  predicate Stalls(a: Action) {
    !a.FrameAck? && !a.Detach? && !a.Disconnect?
  }

  lemma StepStalls(s: System, a: Action)
    requires s.background.frameInFlight && Stalls(a)
    ensures Step(s, a).background.frameInFlight && Step(s, a).background.posted == s.background.posted
  {
    hide Absorbed, Honest, Lasting;
  }

  /**
   * A frame taken while no port is connected counts as in flight, though it was
   * posted nowhere. Nothing is posted any more, connected again or not, until the
   * host acknowledges a frame it never got, the tab is detached or the port lost.
   */
  lemma {:induction false} LostFrameStalls(before: seq<Action>, f: LiveFrame, after: seq<Action>)
    requires Takes(Run(Start, before), f) && !Run(Start, before).background.port
    requires forall a :: a in after ==> Stalls(a)
    ensures
      var s := Run(Start, before + [FrameArrives(f)] + after);
      s.background.frameInFlight && s.background.posted == Run(Start, before).background.posted
    decreases |after|
  {
    var first := before + [FrameArrives(f)];
    if after == [] {
      assert first + after == first;
      TakenIsPostedWhenIdle(before, f);
      hide Run, Takes;
    } else {
      hide Run, Step, Takes, Stalls;
      var n := |after| - 1;
      assert first + after == first + after[..n] + [after[n]];
      LostFrameStalls(before, f, after[..n]);
      RunSnoc(Start, first + after[..n], after[n]);
      StepStalls(Run(Start, first + after[..n]), after[n]);
    }
  }

  /** A run that gets there: ready, a frame painted and sent, and the port lost before it arrives. */
  lemma LostFrameExample(id: string, bounds: Bounds) returns (before: seq<Action>, f: LiveFrame)
    ensures Takes(Run(Start, before), f) && !Run(Start, before).background.port
  {
    var shown := map[id := bounds];
    var steps := ThenDelta(shown);
    f := LiveFrame(2, {}, 0, 1);
    before := TooLate(id, bounds) + (steps[..6] + [Disconnect]);
    assert |steps| == 7;
    TooLateIsLate(id, bounds);
    DeltaIsReady(shown);
    var ready := Step(Step(Step(Step(Late(shown), steps[0]), steps[1]), steps[2]), steps[3]);
    SentIsThere(ready, shown);
    RunConcat(Start, TooLate(id, bounds), steps[..6] + [Disconnect]);
    hide ThenDelta, TooLate, Late, Step, Run, Takes;
    RunSeven(Late(shown), steps[..6] + [Disconnect]);
  }

  lemma SentIsThere(ready: System, shown: map<string, Bounds>)
    requires ready == Late(shown).(background := Late(shown).background.(ready := true, acknowledged := 2),
                                   offscreen := Offscreen({}, 0, 2, 0), nextId := 2, published := ready.published)
    ensures
      var a := ThenDelta(shown);
      var end := Step(Step(Step(ready, a[4]), a[5]), Disconnect);
      Takes(end, LiveFrame(2, {}, 0, 1)) && !end.background.port
  {
    var a := ThenDelta(shown);
    assert a[4] == PaintFrame && a[5] == SendFrame(Painting(2, 2, {}));
    assert ready.background.attached.Some? && ready.background.acknowledged == 2 && ready.paintings == {};
    hide Late, ThenDelta;
    var painted := Step(ready, a[4]);
    assert Painting(2, 2, {}) in painted.paintings;
    var sent := Step(painted, a[5]);
    assert LiveFrame(2, {}, 0, 1) in sent.frames;
  }
}
