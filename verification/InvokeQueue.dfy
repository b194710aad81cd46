/** Bounded concurrency for native calls: jobs start in arrival order and run once. */
module InvokeQueue {

  /**
   * The closure's counter and waiting list; the jobs that arrived, the jobs that
   * started, and how each start settled, by its place among the starts.
   */
  datatype State = State(
    active: nat,
    waiting: seq<nat>,
    started: seq<nat>,
    outcomes: map<nat, bool>,
    arrived: seq<nat>)

  const Empty := State(0, [], [], map[], [])

  /** `start` is the place of the settling job among the starts. */
  datatype Action = Enqueue(job: nat) | Settle(start: nat, ok: bool)

  function Started(s: State, job: nat): State {
    s.(active := s.active + 1, started := s.started + [job])
  }

  function Enqueued(concurrency: nat, s: State, job: nat): State {
    var s1 := s.(arrived := s.arrived + [job]);
    if s.active < concurrency then Started(s1, job) else s1.(waiting := s.waiting + [job])
  }

  function Finished(s: State, start: nat, ok: bool): State
    requires s.active > 0
  {
    var s1 := s.(active := s.active - 1, outcomes := s.outcomes[start := ok]);
    if s1.waiting == [] then s1 else Started(s1.(waiting := s1.waiting[1..]), s1.waiting[0])
  }

  class Queue {
    const concurrency: nat
    var active: nat
    var waiting: seq<nat>
    var started: seq<nat>
    var outcomes: map<nat, bool>
    var arrived: seq<nat>

    ghost function View(): State
      reads this
    {
      State(active, waiting, started, outcomes, arrived)
    }

    constructor (concurrency: nat)
      ensures this.concurrency == concurrency && View() == Empty
    {
      this.concurrency := concurrency;
      active, waiting, started, outcomes, arrived := 0, [], [], map[], [];
    }

    method Start(job: nat)
      modifies this
      ensures View() == Started(old(View()), job)
    {
      active := active + 1;
      started := started + [job];
    }

    method EnqueueJob(job: nat)
      modifies this
      ensures View() == Enqueued(concurrency, old(View()), job)
    {
      arrived := arrived + [job];
      if active < concurrency {
        Start(job);
      } else {
        waiting := waiting + [job];
      }
    }

    /** The end of `start`, whether the job resolved or rejected. */
    method Finish(start: nat, ok: bool)
      requires active > 0
      modifies this
      ensures View() == Finished(old(View()), start, ok)
    {
      outcomes := outcomes[start := ok];
      active := active - 1;
      if waiting != [] {
        var next := waiting[0];
        waiting := waiting[1..];
        Start(next);
      }
    }
  }

  // ----- Every run ---------------------------------------------------------

  /** Only a running job settles. */
  predicate IsEnabled(s: State, a: Action) {
    a.Settle? ==> s.active > 0 && a.start < |s.started| && a.start !in s.outcomes
  }

  function Step(concurrency: nat, s: State, a: Action): State
    requires IsEnabled(s, a)
  {
    match a
    case Enqueue(job) => Enqueued(concurrency, s, job)
    case Settle(start, ok) => Finished(s, start, ok)
  }

  /**
   * Slots are never overrun and never idle while a job waits; jobs start in
   * arrival order, and the active ones are exactly those that have not settled.
   */
  predicate Valid(concurrency: nat, s: State) {
    && s.active <= concurrency
    && (s.waiting != [] ==> s.active == concurrency)
    && s.arrived == s.started + s.waiting
    && (forall start :: start in s.outcomes ==> start < |s.started|)
    && |s.outcomes| + s.active == |s.started|
  }

  /** A start that settled keeps its outcome, and its place. */
  predicate Settles(s: State, t: State) {
    && s.started <= t.started && s.arrived <= t.arrived
    && forall start :: start in s.outcomes ==> start in t.outcomes && t.outcomes[start] == s.outcomes[start]
  }

  lemma StepValid(concurrency: nat, s: State, a: Action)
    requires Valid(concurrency, s) && IsEnabled(s, a)
    ensures Valid(concurrency, Step(concurrency, s, a)) && Settles(s, Step(concurrency, s, a))
  {
    if a.Settle? {
      assert s.outcomes[a.start := a.ok].Keys == s.outcomes.Keys + {a.start};
    }
  }

  /** Every state of every run is valid. */
  lemma RunValid(concurrency: nat, states: seq<State>, actions: seq<Action>)
    requires |states| == |actions| + 1 && states[0] == Empty
    requires forall i :: 0 <= i < |actions| ==>
      IsEnabled(states[i], actions[i]) && states[i + 1] == Step(concurrency, states[i], actions[i])
    ensures forall i :: 0 <= i < |states| ==> Valid(concurrency, states[i])
  {
    hide Step, IsEnabled;
    var n := 0;
    while n < |actions|
      invariant n <= |actions|
      invariant forall i :: 0 <= i <= n ==> Valid(concurrency, states[i])
    {
      StepValid(concurrency, states[n], actions[n]);
      n := n + 1;
    }
  }

  /** Fewer outcomes than starts: some start has none. */
  lemma {:induction false} Unsettled(settled: set<nat>, n: nat)
    requires forall start :: start in settled ==> start < n
    ensures |settled| <= n
    ensures |settled| < n ==> exists start: nat :: start < n && start !in settled
  {
    if n > 0 {
      var last: nat := n - 1;
      if last in settled {
        var rest := settled - {last};
        assert settled == rest + {last};
        Unsettled(rest, last);
        if start: nat :| start < last && start !in rest {
          assert start !in settled;
        }
      } else {
        Unsettled(settled, last);
        assert last !in settled;
      }
    }
  }

  /** While work is left some job is running, and each one that settles leaves one job less. */
  lemma Drains(concurrency: nat, s: State)
    requires Valid(concurrency, s) && concurrency > 0 && |s.outcomes| < |s.arrived|
    ensures exists start: nat :: IsEnabled(s, Settle(start, true))
    ensures forall start: nat, ok :: IsEnabled(s, Settle(start, ok)) ==>
      var t := Step(concurrency, s, Settle(start, ok));
      |t.arrived| - |t.outcomes| == |s.arrived| - |s.outcomes| - 1
  {
    Unsettled(s.outcomes.Keys, |s.started|);
    assert |s.outcomes.Keys| == |s.outcomes|;
    var start: nat :| start < |s.started| && start !in s.outcomes;
    assert IsEnabled(s, Settle(start, true));
    forall start: nat, ok | IsEnabled(s, Settle(start, ok))
      ensures |s.outcomes[start := ok]| == |s.outcomes| + 1
    {
      assert s.outcomes[start := ok].Keys == s.outcomes.Keys + {start};
    }
  }

  function Jobs(actions: seq<Action>): seq<nat> {
    if actions == [] then []
    else
      var n := |actions| - 1;
      Jobs(actions[..n]) + if actions[n].Enqueue? then [actions[n].job] else []
  }

  /** Over every run every job asked for arrived, in order, and every start has the outcome it settled with. */
  lemma {:induction false} OutcomesAreRecorded(concurrency: nat, states: seq<State>, actions: seq<Action>)
    requires |states| == |actions| + 1 && states[0] == Empty
    requires forall i :: 0 <= i < |actions| ==>
      IsEnabled(states[i], actions[i]) && states[i + 1] == Step(concurrency, states[i], actions[i])
    ensures
      var end := states[|actions|];
      && end.arrived == Jobs(actions)
      && (forall i :: 0 <= i < |actions| && actions[i].Settle? ==>
            actions[i].start in end.outcomes && end.outcomes[actions[i].start] == actions[i].ok)
    decreases |actions|
  {
    if actions != [] {
      var n := |actions| - 1;
      var init, earlier := actions[..n], states[..n + 1];
      assert forall i :: 0 <= i < n ==> init[i] == actions[i];
      assert forall i :: 0 <= i <= n ==> earlier[i] == states[i];
      OutcomesAreRecorded(concurrency, earlier, init);
      RecordsOne(concurrency, states[n], actions[n]);
      hide Step, IsEnabled;
    }
  }

  lemma RecordsOne(concurrency: nat, s: State, a: Action)
    requires IsEnabled(s, a)
    ensures
      var t := Step(concurrency, s, a);
      && t.arrived == s.arrived + (if a.Enqueue? then [a.job] else [])
      && (a.Settle? ==> a.start !in s.outcomes && t.outcomes == s.outcomes[a.start := a.ok])
      && (a.Enqueue? ==> t.outcomes == s.outcomes)
  {
    assert s.arrived + [] == s.arrived;
  }
}
