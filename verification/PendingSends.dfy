/** Which optimistic sends the transcript has answered. */
module PendingSends {
  import opened Wrappers

  /** A transcript row: its trimmed text, and its creation time when that can be read. */
  datatype Row = Row(isUserTurn: bool, words: string, stamp: Option<int>)

  /** A send: its trimmed text, and the newest identical turn the chat had when it was sent. */
  datatype Send = Send(words: string, after: Option<int>)

  /** `row` answers `send`: the same words, newer than what was there or without a readable stamp. */
  predicate Answers(send: Send, row: Row) {
    row.words == send.words && (send.after.None? || row.stamp.None? || row.stamp.value > send.after.value)
  }

  function UserTurns(rows: seq<Row>): (turns: seq<Row>)
    ensures forall i :: 0 <= i < |turns| ==> turns[i].isUserTurn && turns[i] in rows
  {
    if rows == [] then []
    else UserTurns(rows[..|rows| - 1]) + if rows[|rows| - 1].isUserTurn then [rows[|rows| - 1]] else []
  }

  /** The first unclaimed row that answers `send`. */
  ghost predicate IsFirst(send: Send, turns: seq<Row>, claimed: set<nat>, row: Option<nat>) {
    match row
    case Some(r) =>
      && r < |turns| && r !in claimed && Answers(send, turns[r])
      && forall i: nat :: i < r && i !in claimed ==> !Answers(send, turns[i])
    case None => forall i: nat :: i < |turns| && i !in claimed ==> !Answers(send, turns[i])
  }

  function FirstFree(send: Send, turns: seq<Row>, claimed: set<nat>, from: nat): (row: Option<nat>)
    requires from <= |turns|
    requires forall i: nat :: i < from && i !in claimed ==> !Answers(send, turns[i])
    ensures IsFirst(send, turns, claimed, row)
    decreases |turns| - from
  {
    if from == |turns| then None
    else if from !in claimed && Answers(send, turns[from]) then Some(from)
    else FirstFree(send, turns, claimed, from + 1)
  }

  function Claimed(choices: seq<Option<nat>>): set<nat> {
    set row | row in choices && row.Some? :: row.value
  }

  /** The row each send claims, in the order they were sent. */
  function Assign(pending: seq<Send>, turns: seq<Row>): (choices: seq<Option<nat>>)
    ensures |choices| == |pending|
  {
    if pending == [] then []
    else
      var n := |pending| - 1;
      var earlier := Assign(pending[..n], turns);
      earlier + [FirstFree(pending[n], turns, Claimed(earlier), 0)]
  }

  function AnsweredBy(choices: seq<Option<nat>>): set<nat> {
    set i: nat | i < |choices| && choices[i].Some?
  }

  method AnsweredPending(pending: seq<Send>, rows: seq<Row>) returns (answered: set<nat>)
    ensures answered == AnsweredBy(Assign(pending, UserTurns(rows)))
  {
    answered := {};
    if pending == [] {
      return;
    }
    var turns := UserTurns(rows);
    var claimed: set<nat> := {};
    ghost var choices: seq<Option<nat>> := [];
    for index := 0 to |pending|
      invariant choices == Assign(pending[..index], turns)
      invariant claimed == Claimed(choices) && answered == AnsweredBy(choices)
    {
      var send := pending[index];
      var row: Option<nat> := None;
      var at: nat := 0;
      while at < |turns|
        invariant at <= |turns|
        invariant forall i: nat :: i < at && i !in claimed ==> !Answers(send, turns[i])
      {
        if at !in claimed && Answers(send, turns[at]) {
          row := Some(at);
          break;
        }
        at := at + 1;
      }
      FirstIsUnique(send, turns, claimed, row, FirstFree(send, turns, claimed, 0));
      assert pending[..index + 1][..index] == pending[..index];
      ClaimedSnoc(choices, row);
      choices := choices + [row];
      if row.Some? {
        claimed := claimed + {row.value};
        answered := answered + {index};
      }
    }
    assert pending[..|pending|] == pending;
  }

  lemma FirstIsUnique(send: Send, turns: seq<Row>, claimed: set<nat>, a: Option<nat>, b: Option<nat>)
    requires IsFirst(send, turns, claimed, a) && IsFirst(send, turns, claimed, b)
    ensures a == b
  {
  }

  lemma ClaimedSnoc(choices: seq<Option<nat>>, row: Option<nat>)
    ensures Claimed(choices + [row]) == Claimed(choices) + if row.Some? then {row.value} else {}
    ensures AnsweredBy(choices + [row]) == AnsweredBy(choices) + if row.Some? then {|choices|} else {}
  {
    assert row in choices + [row];
  }

  // ----- What greedy matching is -------------------------------------------

  /** A chosen row is one that may answer the send. */
  ghost predicate Eligible(pending: seq<Send>, turns: seq<Row>, choices: seq<Option<nat>>)
    requires |choices| == |pending|
  {
    forall i :: 0 <= i < |pending| && choices[i].Some? ==>
      choices[i].value < |turns| && Answers(pending[i], turns[choices[i].value])
  }

  ghost predicate OneEach(choices: seq<Option<nat>>) {
    forall i, j :: 0 <= i < j < |choices| && choices[i].Some? && choices[j].Some? ==> choices[i].value != choices[j].value
  }

  /** A send goes without only if earlier ones claimed every row that may answer it. */
  ghost predicate NobodyPassed(pending: seq<Send>, turns: seq<Row>, choices: seq<Option<nat>>)
    requires |choices| == |pending|
  {
    forall i, r: nat :: 0 <= i < |pending| && choices[i].None? && r < |turns| && Answers(pending[i], turns[r]) ==>
      r in Claimed(choices[..i])
  }

  /** Each row answers one send at most, and only a send it may answer; nobody is passed over. */
  lemma {:induction false} AssignIsStable(pending: seq<Send>, turns: seq<Row>)
    ensures
      var choices := Assign(pending, turns);
      Eligible(pending, turns, choices) && OneEach(choices) && NobodyPassed(pending, turns, choices)
  {
    if pending != [] {
      var n := |pending| - 1;
      var earlier := Assign(pending[..n], turns);
      var row := FirstFree(pending[n], turns, Claimed(earlier), 0);
      AssignIsStable(pending[..n], turns);
      assert pending == pending[..n] + [pending[n]];
      assert Assign(pending, turns) == earlier + [row];
      hide Assign, Answers, FirstFree, Claimed, Eligible, OneEach, NobodyPassed;
      ChoiceIsStable(pending[..n], pending[n], turns, earlier, row);
    }
  }

  lemma ChoiceIsStable(pending: seq<Send>, send: Send, turns: seq<Row>, choices: seq<Option<nat>>, row: Option<nat>)
    requires |choices| == |pending| && IsFirst(send, turns, Claimed(choices), row)
    requires Eligible(pending, turns, choices) && OneEach(choices) && NobodyPassed(pending, turns, choices)
    ensures
      var all, sends := choices + [row], pending + [send];
      Eligible(sends, turns, all) && OneEach(all) && NobodyPassed(sends, turns, all)
  {
    hide Answers;
    var all := choices + [row];
    assert forall i :: 0 <= i <= |choices| ==> all[..i] == choices[..i];
    assert choices[..|choices|] == choices;
    assert forall i :: 0 <= i < |choices| && choices[i].Some? ==> choices[i].value in Claimed(choices);
  }

  /** Appending rows never takes an answer back, nor moves one. */
  lemma {:induction false} MoreRowsAnswerMore(pending: seq<Send>, turns: seq<Row>, more: seq<Row>)
    ensures forall i :: 0 <= i < |pending| && Assign(pending, turns)[i].Some? ==>
      Assign(pending, turns + more)[i] == Assign(pending, turns)[i]
    ensures forall i :: 0 <= i < |pending| && Assign(pending, turns)[i].None? && Assign(pending, turns + more)[i].Some? ==>
      Assign(pending, turns + more)[i].value >= |turns|
  {
    if pending != [] {
      var n := |pending| - 1;
      MoreRowsAnswerMore(pending[..n], turns, more);
      var few, many := Assign(pending[..n], turns), Assign(pending[..n], turns + more);
      AssignIsStable(pending[..n], turns);
      forall r: nat | r < |turns|
        ensures r in Claimed(few) <==> r in Claimed(many)
      {
        ClaimedAt(few, r);
        ClaimedAt(many, r);
      }
      assert forall r: nat :: r < |turns| ==> (turns + more)[r] == turns[r];
    }
  }

  lemma ClaimedAt(choices: seq<Option<nat>>, r: nat)
    ensures r in Claimed(choices) <==> Some(r) in choices
  {
  }

  // ----- Maximum matching --------------------------------------------------

  predicate MayAnswer(pending: seq<Send>, turns: seq<Row>, i: nat, r: nat) {
    i < |pending| && r < |turns| && Answers(pending[i], turns[r])
  }

  ghost predicate Injective(m: map<nat, nat>) {
    forall i, j :: i in m && j in m && i != j ==> m[i] != m[j]
  }

  /** Any way of answering sends: one row a send, one send a row. */
  ghost predicate IsMatching(m: map<nat, nat>, pending: seq<Send>, turns: seq<Row>) {
    Injective(m) && forall i :: i in m ==> MayAnswer(pending, turns, i, m[i])
  }

  /** Rows of the same text come oldest first, those without a readable stamp last. */
  ghost predicate RowsOrdered(turns: seq<Row>) {
    forall i, j :: 0 <= i < j < |turns| && turns[i].words == turns[j].words ==>
      turns[j].stamp.None? || (turns[i].stamp.Some? && turns[i].stamp.value <= turns[j].stamp.value)
  }

  ghost predicate AgreesBelow(m: map<nat, nat>, choices: seq<Option<nat>>, k: nat) {
    forall i: nat :: i < k && i < |choices| ==>
      if choices[i].Some? then i in m && m[i] == choices[i].value else i !in m
  }

  /** `m'` gives row `r` to send `k` and leaves the other sends, but for the one that had `r`, alone. */
  ghost predicate Gives(m: map<nat, nat>, m': map<nat, nat>, k: nat, r: nat) {
    && k in m' && m'[k] == r && m'.Keys <= m.Keys + {k}
    && forall i :: i in m && i != k && m[i] != r ==> i in m' && m'[i] == m[i]
  }

  lemma GiveFree(m: map<nat, nat>, k: nat, r: nat)
    requires Injective(m) && forall i :: i in m ==> m[i] != r
    ensures Injective(m[k := r]) && |m[k := r]| >= |m| && Gives(m, m[k := r], k, r)
  {
    assert m[k := r].Keys == m.Keys + {k};
  }

  lemma GiveTaken(m: map<nat, nat>, k: nat, t: nat)
    requires Injective(m) && t in m && k !in m
    ensures
      var m' := (m - {t})[k := m[t]];
      Injective(m') && |m'| == |m| && Gives(m, m', k, m[t])
  {
    var m' := (m - {t})[k := m[t]];
    assert m'.Keys == m.Keys - {t} + {k};
    assert |m.Keys - {t}| == |m.Keys| - 1;
  }

  lemma GiveSwapped(m: map<nat, nat>, k: nat, t: nat)
    requires Injective(m) && t in m && k in m && t != k
    ensures
      var m' := m[k := m[t]][t := m[k]];
      Injective(m') && |m'| == |m| && Gives(m, m', k, m[t])
  {
    var m' := m[k := m[t]][t := m[k]];
    assert m'.Keys == m.Keys;
  }

  lemma MatchesStill(m: map<nat, nat>, m': map<nat, nat>, pending: seq<Send>, turns: seq<Row>)
    requires IsMatching(m, pending, turns) && Injective(m')
    requires forall i :: i in m' ==> (i in m && m'[i] == m[i]) || MayAnswer(pending, turns, i, m'[i])
    ensures IsMatching(m', pending, turns)
  {
    hide Injective, MayAnswer;
  }

  /** Gives row `r` to send `k`; the send that had it takes the row of `k`, or goes without. */
  lemma Reassign(m: map<nat, nat>, pending: seq<Send>, turns: seq<Row>, k: nat, r: nat) returns (m': map<nat, nat>)
    requires IsMatching(m, pending, turns) && MayAnswer(pending, turns, k, r)
    requires forall t :: t in m && m[t] == r && k in m ==> MayAnswer(pending, turns, t, m[k])
    ensures IsMatching(m', pending, turns) && |m'| >= |m| && Gives(m, m', k, r)
  {
    assert Injective(m);
    if exists t :: t in m && m[t] == r {
      var t :| t in m && m[t] == r;
      if t == k {
        m' := m;
      } else if k in m {
        m' := m[k := r][t := m[k]];
        GiveSwapped(m, k, t);
        hide *;
        MatchesStill(m, m', pending, turns);
      } else {
        m' := (m - {t})[k := r];
        GiveTaken(m, k, t);
        hide *;
        MatchesStill(m, m', pending, turns);
      }
    } else {
      m' := m[k := r];
      GiveFree(m, k, r);
      hide *;
      MatchesStill(m, m', pending, turns);
    }
  }

  /** A later row of the same words answers whatever an earlier one answers. */
  lemma LaterAnswers(send: Send, turns: seq<Row>, r: nat, later: nat)
    requires RowsOrdered(turns) && r <= later < |turns| && turns[r].words == turns[later].words
    ensures Answers(send, turns[r]) ==> Answers(send, turns[later])
  {
  }

  /** Any matching can be bent to agree with one more greedy choice without losing a send. */
  lemma {:induction false} Exchange(m: map<nat, nat>, pending: seq<Send>, turns: seq<Row>, k: nat) returns (m': map<nat, nat>)
    requires RowsOrdered(turns) && IsMatching(m, pending, turns) && k < |pending|
    requires AgreesBelow(m, Assign(pending, turns), k)
    ensures IsMatching(m', pending, turns) && |m'| >= |m|
    ensures AgreesBelow(m', Assign(pending, turns), k + 1)
  {
    var choices := Assign(pending, turns);
    GreedyChoice(pending, turns, k);
    hide Assign;
    if k in m {
      Unclaimed(m, pending, turns, choices, k);
    }
    if choices[k].None? {
      m' := m;
    } else {
      var r := choices[k].value;
      forall t | t in m && m[t] == r && k in m
        ensures MayAnswer(pending, turns, t, m[k])
      {
        LaterAnswers(pending[t], turns, r, m[k]);
      }
      m' := Reassign(m, pending, turns, k, r);
      forall i: nat | i < k
        ensures if choices[i].Some? then i in m' && m'[i] == choices[i].value else i !in m'
      {
        ClaimedAt(choices[..k], r);
        if choices[i].Some? {
          assert choices[..k][i] == choices[i];
        }
      }
    }
  }

  /** A row the matching gives to `k` was not claimed by an earlier send. */
  lemma Unclaimed(m: map<nat, nat>, pending: seq<Send>, turns: seq<Row>, choices: seq<Option<nat>>, k: nat)
    requires IsMatching(m, pending, turns) && k in m && k < |choices| && AgreesBelow(m, choices, k)
    ensures m[k] !in Claimed(choices[..k])
  {
    ClaimedAt(choices[..k], m[k]);
  }

  /** The greedy choice of send `k` is the first row the earlier sends left. */
  lemma {:induction false} GreedyChoice(pending: seq<Send>, turns: seq<Row>, k: nat)
    requires k < |pending|
    ensures IsFirst(pending[k], turns, Claimed(Assign(pending, turns)[..k]), Assign(pending, turns)[k])
    decreases |pending|
  {
    var n := |pending| - 1;
    var choices := Assign(pending, turns);
    assert choices[..n] == Assign(pending[..n], turns);
    if k < n {
      GreedyChoice(pending[..n], turns, k);
      assert choices[..k] == Assign(pending[..n], turns)[..k];
    }
  }

  lemma {:induction false} ExchangeFrom(m: map<nat, nat>, pending: seq<Send>, turns: seq<Row>, k: nat)
    requires RowsOrdered(turns) && IsMatching(m, pending, turns) && k <= |pending|
    requires AgreesBelow(m, Assign(pending, turns), k)
    ensures |m| <= |AnsweredBy(Assign(pending, turns))|
    decreases |pending| - k
  {
    if k == |pending| {
      assert m.Keys == AnsweredBy(Assign(pending, turns));
    } else {
      var m' := Exchange(m, pending, turns, k);
      ExchangeFrom(m', pending, turns, k + 1);
    }
  }

  /** With rows in order, no matching answers more sends, whatever the order of the sends. */
  lemma GreedyIsMaximum(m: map<nat, nat>, pending: seq<Send>, turns: seq<Row>)
    requires RowsOrdered(turns) && IsMatching(m, pending, turns)
    ensures |m| <= |AnsweredBy(Assign(pending, turns))|
  {
    ExchangeFrom(m, pending, turns, 0);
  }

  // ----- Rows out of order -------------------------------------------------

  lemma {:induction false} Enumerate(rows: set<nat>) returns (list: seq<nat>)
    ensures |list| == |rows| && (forall r :: r in list <==> r in rows)
    ensures forall i, j :: 0 <= i < j < |list| ==> list[i] != list[j]
  {
    if rows == {} {
      list := [];
    } else {
      var r :| r in rows;
      var rest := Enumerate(rows - {r});
      list := rest + [r];
    }
  }

  /** Distinct claims, one a send, are as many as the sends. */
  lemma {:induction false} ClaimedSize(choices: seq<Option<nat>>)
    requires forall i :: 0 <= i < |choices| ==> choices[i].Some?
    requires forall i, j :: 0 <= i < j < |choices| ==> choices[i] != choices[j]
    ensures |Claimed(choices)| == |choices|
  {
    if choices != [] {
      var n := |choices| - 1;
      ClaimedSize(choices[..n]);
      assert choices == choices[..n] + [choices[n]];
      ClaimedSnoc(choices[..n], choices[n]);
      ClaimedAt(choices[..n], choices[n].value);
    }
  }

  function Upto(n: nat): (all: set<nat>)
    ensures |all| == n && forall k: nat :: k in all <==> k < n
  {
    if n == 0 then {} else Upto(n - 1) + {n - 1}
  }

  /** Rows of `words` that a send stamped `a` is answered by. */
  predicate IsHigh(row: Row, words: string, a: int) {
    row.words == words && (row.stamp.None? || row.stamp.value > a)
  }

  function HighRows(turns: seq<Row>, words: string, a: int): set<nat> {
    set r: nat | r < |turns| && IsHigh(turns[r], words, a)
  }

  function RowsBefore(turns: seq<Row>, words: string, i: nat): set<nat> {
    set r: nat | r < |turns| && r < i && turns[r].words == words
  }

  /** One send without a stamp for each row up to `i`, then a stamped send for each high row. */
  function Demand(turns: seq<Row>, words: string, a: int, i: nat): seq<Send> {
    seq(|RowsBefore(turns, words, i)| + 1, _ => Send(words, None)) +
    seq(|HighRows(turns, words, a)|, _ => Send(words, Some(a)))
  }

  /** Every send of `Demand` can be answered at once when `j` is a low row behind the high row `i`. */
  lemma DemandCanBeMet(turns: seq<Row>, words: string, a: int, i: nat, j: nat) returns (m: map<nat, nat>)
    requires i < j < |turns| && turns[j].words == words && !IsHigh(turns[j], words, a)
    requires forall r: nat :: r < i ==> !IsHigh(turns[r], words, a)
    ensures IsMatching(m, Demand(turns, words, a, i), turns) && |m| == |Demand(turns, words, a, i)|
  {
    var low := Enumerate(RowsBefore(turns, words, i));
    var high := Enumerate(HighRows(turns, words, a));
    var rows := low + [j] + high;
    var pending := Demand(turns, words, a, i);
    m := map k: nat | k < |rows| :: rows[k];
    assert m.Keys == Upto(|rows|);
    forall k | k in m
      ensures MayAnswer(pending, turns, k, m[k])
    {
      if k < |low| {
        assert rows[k] == low[k] && low[k] in low;
      } else if k > |low| {
        assert rows[k] == high[k - |low| - 1] && high[k - |low| - 1] in high;
      }
    }
    DistinctRows(low, j, high);
  }

  lemma DistinctRows(low: seq<nat>, j: nat, high: seq<nat>)
    requires forall x, y :: 0 <= x < y < |low| ==> low[x] != low[y]
    requires forall x, y :: 0 <= x < y < |high| ==> high[x] != high[y]
    requires forall x :: x in low ==> x != j && x !in high
    requires j !in high
    ensures
      var rows := low + [j] + high;
      Injective(map k: nat | k < |rows| :: rows[k])
  {
    var rows := low + [j] + high;
    forall x, y | 0 <= x < y < |rows|
      ensures rows[x] != rows[y]
    {
      if x < |low| {
        assert rows[x] in low;
      }
      if y > |low| {
        assert rows[y] in high;
      }
    }
  }

  /** Greedy cannot: the sends without a stamp use up the rows to `i`, and `i` itself was needed later. */
  lemma DemandIsNotMet(turns: seq<Row>, words: string, a: int, i: nat)
    requires i < |turns| && IsHigh(turns[i], words, a)
    requires forall r: nat :: r < i ==> !IsHigh(turns[r], words, a)
    ensures
      var pending := Demand(turns, words, a, i);
      exists k :: 0 <= k < |pending| && Assign(pending, turns)[k].None?
  {
    var pending := Demand(turns, words, a, i);
    var choices := Assign(pending, turns);
    if forall k :: 0 <= k < |pending| ==> choices[k].Some? {
      AssignIsStable(pending, turns);
      EarlySendsTake(turns, words, a, i);
      LateSendsLack(turns, words, a, i);
      var p := |RowsBefore(turns, words, i)|;
      ClaimedSize(choices[p + 1..]);
      SubsetSize(Claimed(choices[p + 1..]), HighRows(turns, words, a) - {i});
      assert false;
    }
  }

  /** The sends without a stamp claim every row up to `i`. */
  lemma EarlySendsTake(turns: seq<Row>, words: string, a: int, i: nat)
    requires i < |turns| && IsHigh(turns[i], words, a)
    requires forall k :: 0 <= k < |Demand(turns, words, a, i)| ==> Assign(Demand(turns, words, a, i), turns)[k].Some?
    ensures Some(i) in Assign(Demand(turns, words, a, i), turns)[..|RowsBefore(turns, words, i)| + 1]
  {
    var before := RowsBefore(turns, words, i);
    var pending := Demand(turns, words, a, i);
    var choices := Assign(pending, turns);
    var early := choices[..|before| + 1];
    AssignIsStable(pending, turns);
    ClaimedSize(early);
    forall r | r in Claimed(early)
      ensures r in before + {i}
    {
      ClaimedAt(early, r);
      var k: nat :| k < |early| && early[k] == Some(r);
      FirstSendsStayBefore(turns, words, a, i, k);
    }
    SubsetOfSameSize(Claimed(early), before + {i});
    ClaimedAt(early, i);
  }

  /** The stamped sends claim high rows, and not `i`, which is gone. */
  lemma LateSendsLack(turns: seq<Row>, words: string, a: int, i: nat)
    requires i < |turns| && IsHigh(turns[i], words, a)
    requires forall k :: 0 <= k < |Demand(turns, words, a, i)| ==> Assign(Demand(turns, words, a, i), turns)[k].Some?
    requires Some(i) in Assign(Demand(turns, words, a, i), turns)[..|RowsBefore(turns, words, i)| + 1]
    ensures Claimed(Assign(Demand(turns, words, a, i), turns)[|RowsBefore(turns, words, i)| + 1..]) <=
      HighRows(turns, words, a) - {i}
  {
    var p := |RowsBefore(turns, words, i)|;
    var pending := Demand(turns, words, a, i);
    var choices := Assign(pending, turns);
    AssignIsStable(pending, turns);
    var e: nat :| e < p + 1 && choices[..p + 1][e] == Some(i);
    assert choices[e] == Some(i);
    var late := choices[p + 1..];
    forall r | r in Claimed(late)
      ensures r in HighRows(turns, words, a) - {i}
    {
      ClaimedAt(late, r);
      var k: nat :| k < |late| && late[k] == Some(r);
      assert choices[p + 1 + k] == Some(r) && pending[p + 1 + k] == Send(words, Some(a));
    }
  }

  /** While a row up to `i` is free, a send without a stamp claims no later one. */
  lemma FirstIsEarly(turns: seq<Row>, words: string, i: nat, claimed: set<nat>, r: nat)
    requires i < |turns| && turns[i].words == words && |claimed| <= |RowsBefore(turns, words, i)|
    requires IsFirst(Send(words, None), turns, claimed, Some(r))
    ensures r in RowsBefore(turns, words, i) + {i}
  {
    var early := RowsBefore(turns, words, i) + {i};
    if early <= claimed {
      SubsetSize(early, claimed);
      assert false;
    }
    var free: nat :| free in early && free !in claimed;
    assert Answers(Send(words, None), turns[free]);
  }

  lemma {:induction false} FirstSendsStayBefore(turns: seq<Row>, words: string, a: int, i: nat, k: nat)
    requires i < |turns| && IsHigh(turns[i], words, a) && k <= |RowsBefore(turns, words, i)|
    requires Assign(Demand(turns, words, a, i), turns)[k].Some?
    ensures Assign(Demand(turns, words, a, i), turns)[k].value in RowsBefore(turns, words, i) + {i}
  {
    var pending := Demand(turns, words, a, i);
    var choices := Assign(pending, turns);
    assert pending[k] == Send(words, None);
    hide Assign, IsFirst, Answers, Demand;
    GreedyChoice(pending, turns, k);
    ClaimedAtMost(choices[..k]);
    FirstIsEarly(turns, words, i, Claimed(choices[..k]), choices[k].value);
  }

  lemma {:induction false} ClaimedAtMost(choices: seq<Option<nat>>)
    ensures |Claimed(choices)| <= |choices|
  {
    if choices != [] {
      var n := |choices| - 1;
      ClaimedAtMost(choices[..n]);
      assert choices == choices[..n] + [choices[n]];
      ClaimedSnoc(choices[..n], choices[n]);
    }
  }

  lemma SubsetSize(a: set<nat>, b: set<nat>)
    requires a <= b
    ensures |a| <= |b|
  {
    assert b == a + (b - a);
  }

  lemma SubsetOfSameSize(a: set<nat>, b: set<nat>)
    requires a <= b && |a| == |b|
    ensures a == b
  {
    assert b == a + (b - a);
  }

  /** The first high row of `words`, in front of the low row `j`. */
  lemma FirstHigh(turns: seq<Row>, words: string, a: int, i: nat) returns (first: nat)
    requires i < |turns| && IsHigh(turns[i], words, a)
    ensures first <= i && IsHigh(turns[first], words, a)
    ensures forall r: nat :: r < first ==> !IsHigh(turns[r], words, a)
  {
    first := 0;
    while !IsHigh(turns[first], words, a)
      invariant first <= i
      invariant forall r: nat :: r < first ==> !IsHigh(turns[r], words, a)
      decreases i - first
    {
      first := first + 1;
    }
  }

  lemma {:induction false} DisorderCosts(turns: seq<Row>) returns (pending: seq<Send>, m: map<nat, nat>)
    requires !RowsOrdered(turns)
    ensures IsMatching(m, pending, turns) && |m| > |AnsweredBy(Assign(pending, turns))|
  {
    var i0, j :| 0 <= i0 < j < |turns| && turns[i0].words == turns[j].words &&
      !(turns[j].stamp.None? || (turns[i0].stamp.Some? && turns[i0].stamp.value <= turns[j].stamp.value));
    var words, a := turns[j].words, turns[j].stamp.value;
    var i := FirstHigh(turns, words, a, i0);
    pending := Demand(turns, words, a, i);
    m := DemandCanBeMet(turns, words, a, i, j);
    DemandIsNotMet(turns, words, a, i);
    hide *;
    UnansweredCosts(Assign(pending, turns));
  }

  /** One send left unanswered is one less. */
  lemma UnansweredCosts(choices: seq<Option<nat>>)
    requires exists k :: 0 <= k < |choices| && choices[k].None?
    ensures |AnsweredBy(choices)| < |choices|
  {
    var k: nat :| k < |choices| && choices[k].None?;
    var all := Upto(|choices|);
    assert AnsweredBy(choices) <= all - {k};
    SubsetSize(AnsweredBy(choices), all - {k});
  }

  /** Greedy answers as many sends as can be answered, for every list of sends, exactly when the rows are in order. */
  lemma GreedyIsMaximumIffOrdered(turns: seq<Row>)
    ensures RowsOrdered(turns) <==>
      forall pending, m :: IsMatching(m, pending, turns) ==> |m| <= |AnsweredBy(Assign(pending, turns))|
  {
    if RowsOrdered(turns) {
      forall pending, m | IsMatching(m, pending, turns) {
        GreedyIsMaximum(m, pending, turns);
      }
    } else {
      var pending, m := DisorderCosts(turns);
    }
  }

  // ----- The watermark of a new send ---------------------------------------

  predicate IsTwin(row: Row, words: string) {
    row.isUserTurn && row.words == words
  }

  /** `newest` is the greatest readable stamp of the rows that already say `words`. */
  ghost predicate IsWatermark(words: string, rows: seq<Row>, newest: Option<int>) {
    && (forall row :: row in rows && IsTwin(row, words) && row.stamp.Some? ==>
          newest.Some? && row.stamp.value <= newest.value)
    && (newest.Some? ==> exists row :: row in rows && IsTwin(row, words) && row.stamp == newest)
  }

  function Flattened(projections: seq<seq<Row>>): seq<Row> {
    if projections == [] then []
    else Flattened(projections[..|projections| - 1]) + projections[|projections| - 1]
  }

  method UserTurnWatermark(words: string, projections: seq<seq<Row>>) returns (newest: Option<int>)
    ensures IsWatermark(words, Flattened(projections), newest)
  {
    newest := None;
    ghost var seen: seq<Row> := [];
    for p := 0 to |projections|
      invariant seen == Flattened(projections[..p]) && IsWatermark(words, seen, newest)
    {
      var rows := projections[p];
      assert projections[..p + 1][..p] == projections[..p];
      for r := 0 to |rows|
        invariant seen == Flattened(projections[..p]) + rows[..r] && IsWatermark(words, seen, newest)
      {
        var row := rows[r];
        if IsTwin(row, words) && row.stamp.Some? && (newest.None? || row.stamp.value > newest.value) {
          newest := row.stamp;
        }
        seen := seen + [row];
      }
    }
    assert projections[..|projections|] == projections;
  }

  lemma {:induction false} InFlattened(projections: seq<seq<Row>>, p: nat, row: Row)
    requires p < |projections| && row in projections[p]
    ensures row in Flattened(projections)
  {
    if p < |projections| - 1 {
      InFlattened(projections[..|projections| - 1], p, row);
    }
  }

  lemma {:induction false} TurnsAreRows(rows: seq<Row>, row: Row)
    ensures row in UserTurns(rows) <==> row in rows && row.isUserTurn
  {
    if rows != [] {
      TurnsAreRows(rows[..|rows| - 1], row);
      assert rows == rows[..|rows| - 1] + [rows[|rows| - 1]];
    }
  }

  lemma SoleSend(send: Send, rows: seq<Row>)
    ensures Assign([send], UserTurns(rows))[0].Some? <==> exists row :: row in rows && row.isUserTurn && Answers(send, row)
  {
    var turns := UserTurns(rows);
    assert [send][..0] == [];
    var choice := FirstFree(send, turns, {}, 0);
    assert Assign([send], turns) == [choice];
    if choice.Some? {
      TurnsAreRows(rows, turns[choice.value]);
    }
    if exists row :: row in rows && row.isUserTurn && Answers(send, row) {
      var row :| row in rows && row.isUserTurn && Answers(send, row);
      TurnsAreRows(rows, row);
      var r: nat :| r < |turns| && turns[r] == row;
    }
  }

  /**
   * A new send stays pending on the rows that were there when it was sent, unless
   * one of them says the same without a readable stamp.
   */
  lemma {:induction false} NewSendStaysPending(words: string, projections: seq<seq<Row>>, newest: Option<int>, p: nat)
    requires IsWatermark(words, Flattened(projections), newest) && p < |projections|
    ensures Assign([Send(words, newest)], UserTurns(projections[p]))[0].Some? <==>
      exists row :: row in projections[p] && IsTwin(row, words) && row.stamp.None?
  {
    var send := Send(words, newest);
    SoleSend(send, projections[p]);
    forall row | row in projections[p] && row.isUserTurn
      ensures Answers(send, row) <==> IsTwin(row, words) && row.stamp.None?
    {
      InFlattened(projections, p, row);
    }
    hide Assign, Answers, IsTwin;
  }
}
