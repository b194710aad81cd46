/** The pending sends of every session, each reconciled against its own session's rows. */
module UndeliveredSends {
  import opened Wrappers
  import opened PendingSends

  datatype Pending = Pending(send: Send, session: string)

  /** The live rows of every session, and the stored rows of the selected one. */
  datatype Sources = Sources(live: string -> seq<Row>, selected: Option<string>, stored: seq<Row>)

  /** Where the sends of `session` stand. */
  function Positions(pending: seq<Pending>, session: string): (at: seq<nat>)
    ensures forall k :: 0 <= k < |at| ==> at[k] < |pending| && pending[at[k]].session == session
  {
    if pending == [] then []
    else
      var n := |pending| - 1;
      Positions(pending[..n], session) + if pending[n].session == session then [n] else []
  }

  function SendsOf(pending: seq<Pending>, session: string): (sends: seq<Send>)
    ensures |sends| == |Positions(pending, session)|
  {
    var at := Positions(pending, session);
    seq(|at|, k requires 0 <= k < |at| => pending[at[k]].send)
  }

  /** Which of a session's sends its rows answer. */
  function AnsweredIn(sends: seq<Send>, session: string, sources: Sources): set<nat> {
    AnsweredBy(Assign(sends, UserTurns(sources.live(session)))) +
    if sources.selected == Some(session) then AnsweredBy(Assign(sends, UserTurns(sources.stored))) else {}
  }

  /** How many sends of its own session came before send `i`. */
  function Rank(pending: seq<Pending>, i: nat): nat
    requires i < |pending|
  {
    |Positions(pending[..i], pending[i].session)|
  }

  predicate IsDelivered(pending: seq<Pending>, sources: Sources, i: nat)
    requires i < |pending|
  {
    var session := pending[i].session;
    Rank(pending, i) in AnsweredIn(SendsOf(pending, session), session, sources)
  }

  function KeptUpto(pending: seq<Pending>, sources: Sources, n: nat): seq<Pending>
    requires n <= |pending|
  {
    if n == 0 then []
    else KeptUpto(pending, sources, n - 1) + if IsDelivered(pending, sources, n - 1) then [] else [pending[n - 1]]
  }

  function Kept(pending: seq<Pending>, sources: Sources): seq<Pending> {
    KeptUpto(pending, sources, |pending|)
  }

  lemma PositionsSnoc(pending: seq<Pending>, p: Pending, session: string)
    ensures Positions(pending + [p], session) ==
      Positions(pending, session) + if p.session == session then [|pending|] else []
  {
    assert (pending + [p])[..|pending|] == pending;
  }

  /** A send's rank is its place among the positions of its session. */
  lemma {:induction false} RankIsPlace(pending: seq<Pending>, session: string)
    ensures
      var at := Positions(pending, session);
      && (forall k :: 0 <= k < |at| ==> Rank(pending, at[k]) == k)
      && (forall i :: 0 <= i < |pending| && pending[i].session == session ==>
            Rank(pending, i) < |at| && at[Rank(pending, i)] == i)
  {
    if pending != [] {
      var n := |pending| - 1;
      var init := pending[..n];
      RankIsPlace(init, session);
      forall i | 0 <= i < n
        ensures Rank(pending, i) == Rank(init, i)
      {
        assert pending[..i] == init[..i];
      }
    }
  }

  function Group(groups: map<string, seq<nat>>, session: string): seq<nat> {
    if session in groups then groups[session] else []
  }

  ghost predicate IsGrouped(groups: map<string, seq<nat>>, pending: seq<Pending>) {
    forall session :: Group(groups, session) == Positions(pending, session)
  }

  lemma GroupsSnoc(groups: map<string, seq<nat>>, pending: seq<Pending>, p: Pending)
    requires IsGrouped(groups, pending)
    ensures IsGrouped(groups[p.session := Group(groups, p.session) + [|pending|]], pending + [p])
  {
    var after := groups[p.session := Group(groups, p.session) + [|pending|]];
    forall session
      ensures Group(after, session) == Positions(pending + [p], session)
    {
      PositionsSnoc(pending, p, session);
      assert Group(groups, session) == Positions(pending, session);
      hide Positions, IsGrouped;
    }
  }

  method GroupBySession(pending: seq<Pending>) returns (groups: map<string, seq<nat>>)
    ensures IsGrouped(groups, pending)
  {
    groups := map[];
    for i := 0 to |pending|
      invariant IsGrouped(groups, pending[..i])
    {
      hide IsGrouped;
      var session := pending[i].session;
      assert pending[..i + 1] == pending[..i] + [pending[i]];
      GroupsSnoc(groups, pending[..i], pending[i]);
      groups := groups[session := Group(groups, session) + [i]];
    }
    assert pending[..|pending|] == pending;
  }

  function Delivered(pending: seq<Pending>, sources: Sources, sessions: set<string>): set<nat> {
    set i: nat | i < |pending| && pending[i].session in sessions && IsDelivered(pending, sources, i)
  }

  /** The positions of the sends of `session` that its rows answer. */
  function DeliveredIn(pending: seq<Pending>, sources: Sources, session: string): set<nat> {
    var at := Positions(pending, session);
    set k | k in AnsweredIn(SendsOf(pending, session), session, sources) && k < |at| :: at[k]
  }

  lemma DeliveredGrows(pending: seq<Pending>, sources: Sources, done: set<string>, session: string)
    ensures Delivered(pending, sources, done + {session}) ==
      Delivered(pending, sources, done) + DeliveredIn(pending, sources, session)
  {
    RankIsPlace(pending, session);
    hide Positions, Rank, AnsweredIn;
  }

  method DeliverSession(pending: seq<Pending>, sources: Sources, session: string, at: seq<nat>) returns (now: set<nat>)
    requires at == Positions(pending, session)
    ensures now == DeliveredIn(pending, sources, session)
  {
    hide Positions, AnsweredBy, Assign, UserTurns;
    var sends := SendsOf(pending, session);
    var answered := AnsweredPending(sends, sources.live(session));
    if sources.selected == Some(session) {
      var stored := AnsweredPending(sends, sources.stored);
      answered := answered + stored;
    }
    now := set k | k in answered && k < |at| :: at[k];
  }

  method UndeliveredPending(pending: seq<Pending>, sources: Sources) returns (kept: seq<Pending>)
    ensures kept == Kept(pending, sources)
  {
    if pending == [] {
      return pending;
    }
    hide Positions, Rank, IsDelivered, KeptUpto, DeliveredIn;
    var groups := GroupBySession(pending);
    var delivered: set<nat> := {};
    var todo := groups.Keys;
    while todo != {}
      invariant todo <= groups.Keys
      invariant delivered == Delivered(pending, sources, groups.Keys - todo)
      decreases |todo|
    {
      var session :| session in todo;
      assert Group(groups, session) == Positions(pending, session);
      hide Delivered, IsGrouped;
      var now := DeliverSession(pending, sources, session, groups[session]);
      DeliveredGrows(pending, sources, groups.Keys - todo, session);
      assert groups.Keys - (todo - {session}) == groups.Keys - todo + {session};
      delivered := delivered + now;
      todo := todo - {session};
    }
    hide *;
    AllSessions(pending, sources, groups);
    assert groups.Keys - todo == groups.Keys;
    kept := Filter(pending, sources, delivered);
  }

  /** A session without a group has no sends. */
  lemma AllSessions(pending: seq<Pending>, sources: Sources, groups: map<string, seq<nat>>)
    requires IsGrouped(groups, pending)
    ensures Delivered(pending, sources, groups.Keys) == set i: nat | i < |pending| && IsDelivered(pending, sources, i)
  {
    forall i | 0 <= i < |pending|
      ensures pending[i].session in groups
    {
      RankIsPlace(pending, pending[i].session);
      assert Group(groups, pending[i].session) == Positions(pending, pending[i].session);
    }
  }

  method Filter(pending: seq<Pending>, sources: Sources, delivered: set<nat>) returns (kept: seq<Pending>)
    requires delivered == set i: nat | i < |pending| && IsDelivered(pending, sources, i)
    ensures kept == Kept(pending, sources)
  {
    hide IsDelivered;
    kept := [];
    for i := 0 to |pending|
      invariant kept == KeptUpto(pending, sources, i)
    {
      if i !in delivered {
        kept := kept + [pending[i]];
      }
    }
  }

  // ----- Sessions do not meet ----------------------------------------------

  function Only(pending: seq<Pending>, session: string): seq<Pending> {
    if pending == [] then []
    else
      var n := |pending| - 1;
      Only(pending[..n], session) + if pending[n].session == session then [pending[n]] else []
  }

  lemma OnlySnoc(pending: seq<Pending>, p: Pending, session: string)
    ensures Only(pending + [p], session) == Only(pending, session) + if p.session == session then [p] else []
  {
    assert (pending + [p])[..|pending|] == pending;
  }

  ghost predicate RanksAlone(pending: seq<Pending>, session: string) {
    var mine := Only(pending, session);
    && |mine| == |Positions(pending, session)| == |Positions(mine, session)|
    && (forall k :: 0 <= k < |mine| ==> mine[k].session == session && Positions(mine, session)[k] == k)
    && SendsOf(mine, session) == SendsOf(pending, session)
  }

  lemma RanksAloneSnoc(pending: seq<Pending>, p: Pending, session: string)
    requires RanksAlone(pending, session)
    ensures RanksAlone(pending + [p], session)
  {
    var mine := Only(pending, session);
    OnlySnoc(pending, p, session);
    hide Positions, Only, SendsOf;
    PositionsSnoc(pending, p, session);
    SendsSnoc(pending, p, session);
    if p.session == session {
      PositionsSnoc(mine, p, session);
      SendsSnoc(mine, p, session);
    } else {
      assert Only(pending + [p], session) == mine && SendsOf(pending + [p], session) == SendsOf(pending, session);
      assert Positions(pending + [p], session) == Positions(pending, session);
    }
  }

  /** Alone, the sends of a session keep their number, their order and their ranks. */
  lemma {:induction false} OnlyRanks(pending: seq<Pending>, session: string)
    ensures RanksAlone(pending, session)
  {
    if pending != [] {
      var init := pending[..|pending| - 1];
      assert pending == init + [pending[|pending| - 1]];
      hide *;
      OnlyRanks(init, session);
      RanksAloneSnoc(init, pending[|pending| - 1], session);
    }
  }

  lemma SendsSnoc(pending: seq<Pending>, p: Pending, session: string)
    ensures SendsOf(pending + [p], session) == SendsOf(pending, session) + if p.session == session then [p.send] else []
  {
    PositionsSnoc(pending, p, session);
    hide Positions;
  }

  lemma {:induction false} OnlyPrefix(pending: seq<Pending>, session: string, n: nat)
    requires n <= |pending|
    ensures Only(pending[..n], session) <= Only(pending, session)
    decreases |pending|
  {
    if n < |pending| {
      var init := pending[..|pending| - 1];
      OnlyPrefix(init, session, n);
      assert init[..n] == pending[..n];
      assert pending == init + [pending[|pending| - 1]];
      OnlySnoc(init, pending[|pending| - 1], session);
    } else {
      assert pending[..n] == pending;
    }
  }

  lemma OnlyRank(pending: seq<Pending>, session: string, i: nat)
    requires i < |pending| && pending[i].session == session
    ensures
      var mine, r := Only(pending, session), |Only(pending[..i], session)|;
      && r < |mine| && mine[r] == pending[i]
      && |Only(pending[..i + 1], session)| == r + 1
      && Rank(mine, r) == r == Rank(pending, i)
  {
    var mine, r := Only(pending, session), |Only(pending[..i], session)|;
    assert pending[..i + 1] == pending[..i] + [pending[i]];
    OnlySnoc(pending[..i], pending[i], session);
    OnlyPrefix(pending, session, i + 1);
    OnlyRanks(pending[..i], session);
    hide Only, Positions;
    assert mine[..r] == Only(pending[..i], session);
    assert mine[r] == Only(pending[..i + 1], session)[r];
    OnlyRanks(mine[..r], session);
    OnlyRanks(pending, session);
  }

  lemma SameFate(pending: seq<Pending>, sources: Sources, session: string, i: nat)
    requires i < |pending| && pending[i].session == session
    ensures
      var mine, r := Only(pending, session), |Only(pending[..i], session)|;
      && r < |mine| && mine[r] == pending[i]
      && |Only(pending[..i + 1], session)| == r + 1 <= |mine|
      && (IsDelivered(mine, sources, r) <==> IsDelivered(pending, sources, i))
  {
    hide Only, Positions, Rank, SendsOf;
    OnlyRank(pending, session, i);
    OnlyRanks(pending, session);
  }

  lemma {:induction false} AloneUpto(pending: seq<Pending>, sources: Sources, session: string, n: nat)
    requires n <= |pending|
    ensures |Only(pending[..n], session)| <= |Only(pending, session)|
    ensures Only(KeptUpto(pending, sources, n), session) ==
      KeptUpto(Only(pending, session), sources, |Only(pending[..n], session)|)
  {
    OnlyPrefix(pending, session, n);
    if n > 0 {
      AloneUpto(pending, sources, session, n - 1);
      hide *;
      AloneNext(pending, sources, session, n - 1);
    }
  }

  /** Send `i`, if it is of this session and stays. */
  function Staying(pending: seq<Pending>, sources: Sources, session: string, i: nat): seq<Pending>
    requires i < |pending|
  {
    if pending[i].session == session && !IsDelivered(pending, sources, i) then [pending[i]] else []
  }

  lemma AloneNext(pending: seq<Pending>, sources: Sources, session: string, i: nat)
    requires i < |pending|
    ensures
      var r, after := |Only(pending[..i], session)|, |Only(pending[..i + 1], session)|;
      var mine, stays := Only(pending, session), Staying(pending, sources, session, i);
      && r <= after <= |mine|
      && Only(KeptUpto(pending, sources, i + 1), session) == Only(KeptUpto(pending, sources, i), session) + stays
      && KeptUpto(mine, sources, after) == KeptUpto(mine, sources, r) + stays
  {
    hide IsDelivered, Only;
    var kept := KeptUpto(pending, sources, i);
    assert pending[..i + 1] == pending[..i] + [pending[i]] && kept + [] == kept;
    OnlySnoc(pending[..i], pending[i], session);
    OnlySnoc(kept, pending[i], session);
    if pending[i].session == session {
      SameFate(pending, sources, session, i);
    } else {
      OnlyPrefix(pending, session, i);
      assert Only(kept + [pending[i]], session) == Only(kept, session);
    }
  }

  /** A session's bubbles are what its own sends and rows make them, whatever the other sessions do. */
  lemma EachSessionAlone(pending: seq<Pending>, sources: Sources, session: string)
    ensures Only(Kept(pending, sources), session) == Kept(Only(pending, session), sources)
  {
    AloneUpto(pending, sources, session, |pending|);
    assert pending[..|pending|] == pending;
  }

  // ----- Rows only add answers ---------------------------------------------

  lemma {:induction false} UserTurnsConcat(rows: seq<Row>, more: seq<Row>)
    ensures UserTurns(rows + more) == UserTurns(rows) + UserTurns(more)
    decreases |more|
  {
    if more == [] {
      assert rows + more == rows;
    } else {
      var n := |more| - 1;
      assert (rows + more)[..|rows + more| - 1] == rows + more[..n];
      UserTurnsConcat(rows, more[..n]);
    }
  }

  lemma MoreAnswered(sends: seq<Send>, rows: seq<Row>, more: seq<Row>)
    requires rows <= more
    ensures AnsweredBy(Assign(sends, UserTurns(rows))) <= AnsweredBy(Assign(sends, UserTurns(more)))
  {
    assert more == rows + more[|rows|..];
    UserTurnsConcat(rows, more[|rows|..]);
    MoreRowsAnswerMore(sends, UserTurns(rows), UserTurns(more[|rows|..]));
  }

  /** A bubble that went away stays away while rows are only appended. */
  lemma DeliveredStaysDelivered(pending: seq<Pending>, before: Sources, after: Sources, i: nat)
    requires i < |pending| && IsDelivered(pending, before, i)
    requires before.selected == after.selected && before.stored <= after.stored
    requires before.live(pending[i].session) <= after.live(pending[i].session)
    ensures IsDelivered(pending, after, i)
  {
    var session := pending[i].session;
    var sends := SendsOf(pending, session);
    MoreAnswered(sends, before.live(session), after.live(session));
    MoreAnswered(sends, before.stored, after.stored);
  }

  // ----- Which rows answer -------------------------------------------------

  /** A user turn with the same words, newer than what the send knew of, or of unknown age. */
  predicate IsReply(send: Send, row: Row) {
    && row.isUserTurn && row.words == send.words
    && (send.after.Some? && row.stamp.Some? ==> row.stamp.value > send.after.value)
  }

  /**
   * The only send of a chat goes away if and only if a live row of that chat
   * answers it, or the chat is the selected one and a stored row does.
   */
  lemma LoneSendLeavesIff(p: Pending, sources: Sources)
    ensures Kept([p], sources) == [] <==>
      || (exists row :: row in sources.live(p.session) && IsReply(p.send, row))
      || (sources.selected == Some(p.session) && exists row :: row in sources.stored && IsReply(p.send, row))
  {
    assert [p][..0] == [];
    assert Positions([p], p.session) == [0];
    assert SendsOf([p], p.session) == [p.send];
    SoleSend(p.send, sources.live(p.session));
    SoleSend(p.send, sources.stored);
    assert Rank([p], 0) == 0;
    assert forall row: Row :: row.isUserTurn && Answers(p.send, row) <==> IsReply(p.send, row);
    assert IsDelivered([p], sources, 0) <==> 0 in AnsweredIn([p.send], p.session, sources);
    assert KeptUpto([p], sources, 0) == [];
    assert Kept([p], sources) == [] + if IsDelivered([p], sources, 0) then [] else [[p][0]];
    hide Positions, Rank, SendsOf, Kept, KeptUpto, IsDelivered, Assign, UserTurns, Answers, IsReply;
  }
}
