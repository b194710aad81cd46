/**
 * One chat over time: sends are made, turns arrive, and each reconciliation drops
 * the answered sends and forgets which turns answered them.
 */
module SendRuns {
  import opened Wrappers
  import opened PendingSends

  /**
   * The pending sends and the turns. The rest is history: how many turns there
   * were at the last reconciliation, how many sends it left, and which turns had
   * answered a send by then.
   */
  datatype Talk = Talk(pending: seq<Send>, turns: seq<Row>, settled: nat, carried: nat, used: set<nat>)

  datatype Action = Submit(words: string) | Arrive(rows: seq<Row>) | Reconcile

  /** The newest readable stamp of a turn that already says `words`. */
  function Watermark(words: string, turns: seq<Row>): Option<int> {
    if turns == [] then None
    else
      var last, before := turns[|turns| - 1], Watermark(words, turns[..|turns| - 1]);
      if last.words == words && last.stamp.Some? && (before.None? || last.stamp.value > before.value) then last.stamp
      else before
  }

  function Unanswered(pending: seq<Send>, choices: seq<Option<nat>>): seq<Send>
    requires |pending| == |choices|
  {
    if pending == [] then []
    else
      var n := |pending| - 1;
      Unanswered(pending[..n], choices[..n]) + if choices[n].None? then [pending[n]] else []
  }

  function Reconciled(t: Talk): Talk {
    var choices := Assign(t.pending, t.turns);
    var left := Unanswered(t.pending, choices);
    Talk(left, t.turns, |t.turns|, |left|, t.used + Claimed(choices))
  }

  function Step(t: Talk, a: Action): Talk {
    match a
    case Submit(words) => t.(pending := t.pending + [Send(words, Watermark(words, t.turns))])
    case Arrive(rows) => t.(turns := t.turns + rows)
    case Reconcile => Reconciled(t)
  }

  function Run(actions: seq<Action>): Talk {
    if actions == [] then Talk([], [], 0, 0, {})
    else Step(Run(actions[..|actions| - 1]), actions[|actions| - 1])
  }

  /** Every settled turn that answers the send has answered another one. */
  ghost predicate OnlyUsed(t: Talk, send: Send) {
    forall r: nat :: r < t.settled && r < |t.turns| && Answers(send, t.turns[r]) ==> r in t.used
  }

  /** No settled turn with a readable stamp answers the send. */
  ghost predicate OnlyUnreadable(t: Talk, send: Send) {
    forall r: nat :: r < t.settled && r < |t.turns| && Answers(send, t.turns[r]) ==> t.turns[r].stamp.None?
  }

  ghost predicate Valid(t: Talk) {
    && t.settled <= |t.turns| && t.carried <= |t.pending| && (forall r :: r in t.used ==> r < t.settled)
    && (forall i :: 0 <= i < t.carried ==> OnlyUsed(t, t.pending[i]))
    && (forall i :: t.carried <= i < |t.pending| ==> OnlyUnreadable(t, t.pending[i]))
  }

  lemma {:induction false} WatermarkBounds(words: string, turns: seq<Row>, r: nat)
    requires r < |turns| && turns[r].words == words && turns[r].stamp.Some?
    ensures Watermark(words, turns).Some? && Watermark(words, turns).value >= turns[r].stamp.value
  {
    if r < |turns| - 1 {
      WatermarkBounds(words, turns[..|turns| - 1], r);
    }
  }

  lemma {:induction false} LeftIsUnanswered(pending: seq<Send>, choices: seq<Option<nat>>, k: nat) returns (i: nat)
    requires |pending| == |choices| && k < |Unanswered(pending, choices)|
    ensures i < |pending| && Unanswered(pending, choices)[k] == pending[i] && choices[i].None?
  {
    var n := |pending| - 1;
    if k < |Unanswered(pending[..n], choices[..n])| {
      i := LeftIsUnanswered(pending[..n], choices[..n], k);
    } else {
      i := n;
    }
  }

  lemma ClaimedPrefix(choices: seq<Option<nat>>, i: nat)
    requires i <= |choices|
    ensures Claimed(choices[..i]) <= Claimed(choices)
  {
  }

  lemma LeftOnlyUsed(t: Talk, k: nat)
    requires k < |Reconciled(t).pending|
    ensures OnlyUsed(Reconciled(t), Reconciled(t).pending[k])
  {
    var choices := Assign(t.pending, t.turns);
    var i := LeftIsUnanswered(t.pending, choices, k);
    AssignIsStable(t.pending, t.turns);
    ClaimedPrefix(choices, i);
  }

  lemma ClaimedAreTurns(pending: seq<Send>, turns: seq<Row>, r: nat)
    requires r in Claimed(Assign(pending, turns))
    ensures r < |turns|
  {
    AssignIsStable(pending, turns);
    var choices := Assign(pending, turns);
    var row :| row in choices && row == Some(r);
    var i :| 0 <= i < |choices| && choices[i] == row;
  }

  lemma StepValid(t: Talk, a: Action)
    requires Valid(t)
    ensures Valid(Step(t, a))
  {
    match a
    case Submit(words) =>
      var send := Send(words, Watermark(words, t.turns));
      forall r: nat | r < |t.turns| && Answers(send, t.turns[r])
        ensures t.turns[r].stamp.None?
      {
        if t.turns[r].stamp.Some? {
          WatermarkBounds(words, t.turns, r);
        }
      }
    case Arrive(rows) =>
      var u := Step(t, a);
      assert forall r: nat :: r < |t.turns| ==> u.turns[r] == t.turns[r];
    case Reconcile =>
      var u := Reconciled(t);
      forall k | 0 <= k < |u.pending|
        ensures OnlyUsed(u, u.pending[k])
      {
        LeftOnlyUsed(t, k);
      }
      forall r | r in Claimed(Assign(t.pending, t.turns))
        ensures r < |t.turns|
      {
        ClaimedAreTurns(t.pending, t.turns, r);
      }
      hide Reconciled, Assign, Claimed, OnlyUsed;
      ReconciledKeeps(t);
  }

  lemma ReconciledKeeps(t: Talk)
    ensures
      var u := Reconciled(t);
      && u.settled == |u.turns| && u.carried == |u.pending|
      && u.used == t.used + Claimed(Assign(t.pending, t.turns)) && u.turns == t.turns
  {
  }

  lemma {:induction false} RunValid(actions: seq<Action>)
    ensures Valid(Run(actions))
  {
    if actions != [] {
      RunValid(actions[..|actions| - 1]);
      hide Valid, Step;
      StepValid(Run(actions[..|actions| - 1]), actions[|actions| - 1]);
    }
  }

  /**
   * Over every run, which sends the next reconciliation drops for a turn that
   * already answered another one. One that an earlier reconciliation left: if and
   * only if some settled turn answers it that no earlier pending send takes. One
   * made since: only for a turn without a readable stamp.
   */
  lemma ReuseIffSettled(actions: seq<Action>, i: nat)
    requires i < |Run(actions).pending|
    ensures
      var t := Run(actions);
      var choices := Assign(t.pending, t.turns);
      var reuses := choices[i].Some? && choices[i].value in t.used;
      && (i < t.carried ==>
            (reuses <==> exists r: nat :: r < t.settled && r < |t.turns| &&
                           Answers(t.pending[i], t.turns[r]) && r !in Claimed(choices[..i])))
      && (i >= t.carried && reuses ==> choices[i].value < |t.turns| && t.turns[choices[i].value].stamp.None?)
  {
    var t := Run(actions);
    var choices := Assign(t.pending, t.turns);
    RunValid(actions);
    GreedyChoice(t.pending, t.turns, i);
    hide Run, Assign, Claimed;
    if i < t.carried {
      assert OnlyUsed(t, t.pending[i]);
    } else {
      assert OnlyUnreadable(t, t.pending[i]);
    }
  }

  /** No turn answers any of the sends. */
  ghost predicate NoneAnswers(pending: seq<Send>, turns: seq<Row>) {
    forall k, r: nat :: 0 <= k < |pending| && r < |turns| ==> !Answers(pending[k], turns[r])
  }

  predicate AllNone(choices: seq<Option<nat>>) {
    forall i :: 0 <= i < |choices| ==> choices[i].None?
  }

  /** Reconciling twice drops more unless no turn at all answers a send that was left. */
  lemma ReconcilesAgainIff(t: Talk)
    ensures Reconciled(Reconciled(t)).pending == Reconciled(t).pending <==> NoneAnswers(Reconciled(t).pending, t.turns)
  {
    var u := Reconciled(t);
    var choices := Assign(u.pending, u.turns);
    assert u.turns == t.turns && Reconciled(u).pending == Unanswered(u.pending, choices);
    hide *;
    UnansweredSize(u.pending, choices);
    NobodyAnsweredIff(u.pending, u.turns);
  }

  lemma NobodyAnsweredIff(pending: seq<Send>, turns: seq<Row>)
    ensures AllNone(Assign(pending, turns)) <==> NoneAnswers(pending, turns)
  {
    var choices := Assign(pending, turns);
    AssignIsStable(pending, turns);
    hide Assign, Answers;
    if k, r: nat :| 0 <= k < |pending| && r < |turns| && Answers(pending[k], turns[r]) {
      if choices[k].None? {
        var row :| row in choices[..k] && row == Some(r);
        assert row in choices;
      }
    }
  }

  lemma {:induction false} UnansweredSize(pending: seq<Send>, choices: seq<Option<nat>>)
    requires |pending| == |choices|
    ensures |Unanswered(pending, choices)| <= |pending|
    ensures Unanswered(pending, choices) == pending <==> AllNone(choices)
    ensures |Unanswered(pending, choices)| == |pending| ==> Unanswered(pending, choices) == pending
  {
    if pending != [] {
      var n := |pending| - 1;
      UnansweredSize(pending[..n], choices[..n]);
      assert pending == pending[..n] + [pending[n]];
      assert choices == choices[..n] + [choices[n]];
    }
  }
}
