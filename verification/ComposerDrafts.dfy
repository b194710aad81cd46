/** One composer shared by every chat, and the drafts of the chats not on screen. */
module ComposerDrafts {
  import opened Wrappers
  import opened Text

  /** Chats are told apart by id alone. */
  type ChatId = nat

  datatype Attachment = Attachment(id: string, body: string)

  datatype Draft = Draft(text: string, attachments: seq<Attachment>)

  const EMPTY_DRAFT := Draft("", [])
  const RESTORE_SEPARATOR := "\n\n"

  predicate IsEmpty(draft: Draft) {
    IsBlank(draft.text) && draft.attachments == []
  }

  function MergeFailedText(current: string, failed: string): string {
    if IsBlank(current) then failed
    else if IsBlank(failed) then current
    else Trim(failed) + RESTORE_SEPARATOR + current
  }

  predicate HasAttachment(list: seq<Attachment>, id: string) {
    exists i :: 0 <= i < |list| && list[i].id == id
  }

  /** The attachments of `current` that `taken` does not name. */
  function Others(current: seq<Attachment>, taken: seq<Attachment>): seq<Attachment> {
    if current == [] then []
    else
      var n := |current| - 1;
      Others(current[..n], taken) + if HasAttachment(taken, current[n].id) then [] else [current[n]]
  }

  function MergeFailedSend(current: Draft, failed: Draft): Draft {
    Draft(MergeFailedText(current.text, failed.text), failed.attachments + Others(current.attachments, failed.attachments))
  }

  function WithoutSentText(current: string, sent: string): string {
    var words, typed := Trim(sent), TrimStart(current);
    if words == "" then current
    else if !(words <= typed) then current
    else
      var rest := typed[|words|..];
      if rest != "" && !IsSpace(rest[0]) then current else TrimStart(rest)
  }

  function WithoutSent(current: Draft, sent: Draft): Draft {
    Draft(WithoutSentText(current.text, sent.text), Others(current.attachments, sent.attachments))
  }

  // ----- A failed send, restored and then taken out again -------------------

  lemma {:induction false} TrimIsTrimStart(s: string)
    ensures TrimStart(Trim(s)) == Trim(s)
    ensures Trim(s) != "" ==> !IsSpace(Trim(s)[0]) && Trim(s) <= TrimStart(s) && AllSpace(TrimStart(s)[|Trim(s)|..])
  {
    var t := TrimStart(s);
    if t != "" {
      TrimEndKeepsStart(t);
      TrimEndCutsSpace(t);
    }
  }

  lemma {:induction false} TrimEndCutsSpace(s: string)
    ensures AllSpace(s[|TrimEnd(s)|..])
  {
    if s != "" && IsSpace(s[|s| - 1]) {
      var init := s[..|s| - 1];
      TrimEndCutsSpace(init);
      forall i | |TrimEnd(s)| <= i < |s|
        ensures IsSpace(s[i])
      {
        assert i < |init| ==> s[i] == init[|TrimEnd(init)|..][i - |TrimEnd(init)|];
      }
    }
  }

  lemma TrimStartFromText(words: string, rest: string)
    requires words != "" && !IsSpace(words[0])
    ensures TrimStart(words + rest) == words + rest
  {
  }

  lemma SeparatorTrims(current: string)
    ensures TrimStart(RESTORE_SEPARATOR + current) == TrimStart(current)
  {
    assert (RESTORE_SEPARATOR + current)[1..] == "\n" + current;
    assert ("\n" + current)[1..] == current;
  }

  /** The sent words in front, white space behind them: the words go, and the space with them. */
  lemma WordsGo(words: string, rest: string, sent: string)
    requires words == Trim(sent) != "" && rest != "" && IsSpace(rest[0])
    ensures WithoutSentText(words + rest, sent) == TrimStart(rest)
  {
    TrimIsTrimStart(sent);
    TrimStartFromText(words, rest);
    hide TrimStart, Trim, IsSpace;
    assert (words + rest)[|words|..] == rest;
  }

  lemma {:induction false} TypingComesBack(current: string, failed: string)
    requires Trim(failed) != ""
    ensures WithoutSentText(Trim(failed) + RESTORE_SEPARATOR + current, failed) == TrimStart(current)
  {
    var rest := RESTORE_SEPARATOR + current;
    assert Trim(failed) + RESTORE_SEPARATOR + current == Trim(failed) + rest;
    assert rest[0] == '\n' && IsSpace('\n');
    hide TrimStart, Trim, IsSpace, WithoutSentText;
    WordsGo(Trim(failed), rest, failed);
    SeparatorTrims(current);
  }

  lemma {:induction false} NothingComesBack(failed: string)
    requires Trim(failed) != ""
    ensures WithoutSentText(failed, failed) == ""
  {
    TrimIsTrimStart(failed);
    SpaceTrimsAway(TrimStart(failed)[|Trim(failed)|..]);
    hide TrimStart, Trim;
  }

  lemma {:induction false} TextComesBack(current: string, failed: string)
    ensures
      WithoutSentText(MergeFailedText(current, failed), failed) ==
        if IsBlank(failed) then (if IsBlank(current) then failed else current) else TrimStart(current)
  {
    if !IsBlank(failed) {
      if IsBlank(current) {
        NothingComesBack(failed);
        SpaceTrimsAway(current);
      } else {
        TypingComesBack(current, failed);
      }
    }
  }

  lemma {:induction false} OthersOfAll(current: seq<Attachment>, taken: seq<Attachment>)
    requires forall i :: 0 <= i < |current| ==> HasAttachment(taken, current[i].id)
    ensures Others(current, taken) == []
  {
    if current != [] {
      OthersOfAll(current[..|current| - 1], taken);
    }
  }

  lemma {:induction false} OthersConcat(a: seq<Attachment>, b: seq<Attachment>, taken: seq<Attachment>)
    ensures Others(a + b, taken) == Others(a, taken) + Others(b, taken)
    decreases |b|
  {
    if b == [] {
      assert a + b == a;
    } else {
      var n := |b| - 1;
      assert (a + b)[..|a + b| - 1] == a + b[..n];
      OthersConcat(a, b[..n], taken);
    }
  }

  lemma {:induction false} OthersTwice(current: seq<Attachment>, taken: seq<Attachment>)
    ensures Others(Others(current, taken), taken) == Others(current, taken)
  {
    if current != [] {
      var n := |current| - 1;
      OthersTwice(current[..n], taken);
      OthersConcat(Others(current[..n], taken), if HasAttachment(taken, current[n].id) then [] else [current[n]], taken);
      assert [current[n]][..0] == [];
      assert Others([current[n]], taken) == Others([], taken) + if HasAttachment(taken, current[n].id) then [] else [current[n]];
    }
  }

  /** Taking a restored send out again leaves the later typing, up to leading white space, and the other images. */
  lemma {:induction false} RestoreThenTake(current: Draft, failed: Draft)
    ensures
      var after := WithoutSent(MergeFailedSend(current, failed), failed);
      && TrimStart(after.text) == TrimStart(current.text)
      && after.attachments == Others(current.attachments, failed.attachments)
  {
    TextComesBack(current.text, failed.text);
    if IsBlank(failed.text) && IsBlank(current.text) {
      SpaceTrimsAway(failed.text);
      SpaceTrimsAway(current.text);
    }
    TrimStartTwice(current.text);
    OthersConcat(failed.attachments, Others(current.attachments, failed.attachments), failed.attachments);
    OthersOfAll(failed.attachments, failed.attachments);
    OthersTwice(current.attachments, failed.attachments);
  }

  lemma TrimStartTwice(s: string)
    ensures TrimStart(TrimStart(s)) == TrimStart(s)
  {
  }

  // ----- One composer, many drafts -----------------------------------------

  function Peek(drafts: map<ChatId, Draft>, id: ChatId): Draft {
    if id in drafts then drafts[id] else EMPTY_DRAFT
  }

  function Put(drafts: map<ChatId, Draft>, id: ChatId, draft: Draft): map<ChatId, Draft> {
    if IsEmpty(draft) then drafts - {id} else drafts[id := draft]
  }

  /** The drafts of the chats not on screen. */
  class DraftStore {
    var drafts: map<ChatId, Draft>

    constructor ()
      ensures drafts == map[]
    {
      drafts := map[];
    }

    method PutDraft(id: ChatId, draft: Draft)
      modifies this
      ensures drafts == Put(old(drafts), id, draft)
    {
      if IsEmpty(draft) {
        drafts := drafts - {id};
      } else {
        drafts := drafts[id := draft];
      }
    }

    method Take(id: ChatId) returns (draft: Draft)
      modifies this
      ensures draft == Peek(old(drafts), id) && drafts == old(drafts) - {id}
    {
      draft := Peek(drafts, id);
      drafts := drafts - {id};
    }

    method Retain(ids: set<ChatId>)
      modifies this
      ensures drafts == map id | id in old(drafts) && id in ids :: old(drafts)[id]
    {
      var todo := drafts.Keys;
      while todo != {}
        invariant todo <= old(drafts).Keys
        invariant drafts == map id | id in old(drafts) && (id in todo || id in ids) :: old(drafts)[id]
        decreases |todo|
      {
        var id :| id in todo;
        if id !in ids {
          drafts := drafts - {id};
        }
        todo := todo - {id};
      }
    }
  }

  /** The composer on screen, the chat it belongs to, and the store behind it. */
  datatype Desk = Desk(owner: Option<ChatId>, live: Draft, drafts: map<ChatId, Draft>)

  datatype Action =
    | Type(draft: Draft)
    | Switch(to: Option<ChatId>)
    | Seed(chat: ChatId, text: string)
    | Consume(from: Option<ChatId>, sent: Draft)
    | Restore(from: Option<ChatId>, failed: Draft)
    | Retain(chats: set<ChatId>)

  function Switched(d: Desk, to: Option<ChatId>): Desk {
    if d.owner == to then d
    else
      var put := if d.owner.Some? then Put(d.drafts, d.owner.value, d.live) else d.drafts;
      if to.Some? then Desk(to, Peek(put, to.value), put - {to.value}) else Desk(to, EMPTY_DRAFT, put)
  }

  function Step(d: Desk, a: Action): Desk {
    match a
    case Type(draft) => d.(live := draft)
    case Switch(to) => Switched(d, to)
    case Seed(chat, text) =>
      if d.owner == Some(chat) then d.(live := Draft(text, [])) else d.(drafts := Put(d.drafts, chat, Draft(text, [])))
    case Consume(from, sent) =>
      if d.owner == from then d.(live := WithoutSent(d.live, sent))
      else if from.Some? then d.(drafts := Put(d.drafts, from.value, WithoutSent(Peek(d.drafts, from.value), sent)))
      else d
    case Restore(from, failed) =>
      if d.owner == from then d.(live := MergeFailedSend(d.live, failed))
      else if from.Some? then d.(drafts := Put(d.drafts, from.value, MergeFailedSend(Peek(d.drafts, from.value), failed)))
      else d
    case Retain(chats) => d.(drafts := map id | id in d.drafts && id in chats :: d.drafts[id])
  }

  class Composer {
    const store: DraftStore
    var owner: Option<ChatId>
    var live: Draft

    ghost function View(): Desk
      reads this, store
    {
      Desk(owner, live, store.drafts)
    }

    constructor (owner: Option<ChatId>)
      ensures View() == Desk(owner, EMPTY_DRAFT, map[]) && fresh(store)
    {
      this.owner, live := owner, EMPTY_DRAFT;
      store := new DraftStore();
    }

    /** The layout effect that runs when another chat is selected. */
    method SelectChat(to: Option<ChatId>)
      modifies this, store
      ensures View() == Step(old(View()), Switch(to))
    {
      var previous := owner;
      if previous == to {
        return;
      }
      owner := to;
      if previous.Some? {
        store.PutDraft(previous.value, live);
      }
      if to.Some? {
        live := store.Take(to.value);
      } else {
        live := EMPTY_DRAFT;
      }
    }

    method SeedDraft(chat: ChatId, text: string)
      modifies this, store
      ensures View() == Step(old(View()), Seed(chat, text))
    {
      if owner == Some(chat) {
        live := Draft(text, []);
      } else {
        store.PutDraft(chat, Draft(text, []));
      }
    }

    method ConsumeDraft(from: Option<ChatId>, sent: Draft)
      modifies this, store
      ensures View() == Step(old(View()), Consume(from, sent))
    {
      hide WithoutSent, IsEmpty;
      if owner == from {
        live := WithoutSent(live, sent);
      } else if from.Some? {
        store.PutDraft(from.value, WithoutSent(Peek(store.drafts, from.value), sent));
      }
    }

    method RestoreFailedSend(from: Option<ChatId>, failed: Draft)
      modifies this, store
      ensures View() == Step(old(View()), Restore(from, failed))
    {
      hide MergeFailedSend, IsEmpty;
      if owner == from {
        live := MergeFailedSend(live, failed);
      } else if from.Some? {
        store.PutDraft(from.value, MergeFailedSend(Peek(store.drafts, from.value), failed));
      }
    }
  }

  // ----- Each chat has a draft of its own ----------------------------------

  /** A chat's draft, wherever it is right now. */
  function DraftOf(d: Desk, chat: ChatId): Draft {
    if d.owner == Some(chat) then d.live else Peek(d.drafts, chat)
  }

  /** Equal, or both holding nothing. */
  predicate Same(a: Draft, b: Draft) {
    a == b || (IsEmpty(a) && IsEmpty(b))
  }

  function OwnerAfter(owner: Option<ChatId>, actions: seq<Action>): Option<ChatId> {
    if actions == [] then owner
    else if actions[|actions| - 1].Switch? then actions[|actions| - 1].to
    else OwnerAfter(owner, actions[..|actions| - 1])
  }

  /** What one action does to one chat's own draft. */
  function Own(draft: Draft, chat: ChatId, owner: Option<ChatId>, a: Action): Draft {
    match a
    case Type(typed) => if owner == Some(chat) then typed else draft
    case Switch(_) => draft
    case Seed(c, text) => if c == chat then Draft(text, []) else draft
    case Consume(from, sent) => if from == Some(chat) then WithoutSent(draft, sent) else draft
    case Restore(from, failed) => if from == Some(chat) then MergeFailedSend(draft, failed) else draft
    case Retain(chats) => if chat in chats || owner == Some(chat) then draft else EMPTY_DRAFT
  }

  /** The draft a chat would have if every chat had a composer to itself. */
  function OwnAfter(chat: ChatId, owner: Option<ChatId>, actions: seq<Action>): Draft {
    if actions == [] then EMPTY_DRAFT
    else
      var n := |actions| - 1;
      Own(OwnAfter(chat, owner, actions[..n]), chat, OwnerAfter(owner, actions[..n]), actions[n])
  }

  function Run(owner: Option<ChatId>, actions: seq<Action>): Desk {
    if actions == [] then Desk(owner, EMPTY_DRAFT, map[])
    else Step(Run(owner, actions[..|actions| - 1]), actions[|actions| - 1])
  }

  /** The chat on screen has nothing waiting in the store. */
  predicate Owned(d: Desk) {
    d.owner.Some? ==> d.owner.value !in d.drafts
  }

  lemma {:induction false} StepOwned(d: Desk, a: Action)
    requires Owned(d)
    ensures Owned(Step(d, a))
    ensures Step(d, a).owner == if a.Switch? then a.to else d.owner
  {
    hide WithoutSent, MergeFailedSend, IsEmpty;
  }

  lemma {:induction false} BlankConsumed(draft: Draft, sent: Draft)
    requires IsEmpty(draft)
    ensures IsEmpty(WithoutSent(draft, sent))
  {
    SpaceTrimsAway(draft.text);
  }

  lemma BlankRestored(draft: Draft, failed: Draft)
    requires IsEmpty(draft)
    ensures MergeFailedSend(draft, failed) == failed
  {
  }

  /** What an action does to a draft does not depend on which blank it was. */
  lemma {:induction false} OwnKeepsSame(a: Draft, b: Draft, chat: ChatId, owner: Option<ChatId>, action: Action)
    requires Same(a, b)
    ensures Same(Own(a, chat, owner, action), Own(b, chat, owner, action))
  {
    hide WithoutSent, MergeFailedSend, IsEmpty;
    if a != b && action.Consume? {
      BlankConsumed(a, action.sent);
      BlankConsumed(b, action.sent);
    }
    if a != b && action.Restore? {
      BlankRestored(a, action.failed);
      BlankRestored(b, action.failed);
    }
  }

  lemma SameRefl(a: Draft)
    ensures Same(a, a) && IsEmpty(EMPTY_DRAFT)
    ensures IsEmpty(a) ==> Same(EMPTY_DRAFT, a) && Same(a, EMPTY_DRAFT)
  {
  }

  lemma PutActsOn(drafts: map<ChatId, Draft>, id: ChatId, draft: Draft, chat: ChatId)
    ensures Same(Peek(Put(drafts, id, draft), chat), if chat == id then draft else Peek(drafts, chat))
  {
    SameRefl(draft);
    SameRefl(Peek(drafts, chat));
    hide IsEmpty, Same;
  }

  lemma SwitchShows(d: Desk, to: Option<ChatId>, chat: ChatId)
    requires d.owner != to
    ensures DraftOf(Switched(d, to), chat) ==
      Peek(if d.owner.Some? then Put(d.drafts, d.owner.value, d.live) else d.drafts, chat)
  {
    hide Put;
  }

  lemma SwitchKeepsDrafts(d: Desk, to: Option<ChatId>, chat: ChatId)
    requires Owned(d)
    ensures Same(DraftOf(Switched(d, to), chat), DraftOf(d, chat))
  {
    SameRefl(DraftOf(d, chat));
    hide IsEmpty, Same, Put;
    if d.owner != to {
      SwitchShows(d, to, chat);
      if d.owner.Some? {
        PutActsOn(d.drafts, d.owner.value, d.live, chat);
      }
      hide Switched;
    }
  }

  lemma {:induction false} StepActsOnItsChat(d: Desk, a: Action, chat: ChatId)
    requires Owned(d)
    ensures Same(DraftOf(Step(d, a), chat), Own(DraftOf(d, chat), chat, d.owner, a))
  {
    SameRefl(DraftOf(d, chat));
    SameRefl(DraftOf(Step(d, a), chat));
    hide WithoutSent, MergeFailedSend, IsEmpty, Same, Switched, Put;
    match a
    case Switch(to) => SwitchKeepsDrafts(d, to, chat);
    case Seed(c, text) => PutActsOn(d.drafts, c, Draft(text, []), chat);
    case Consume(from, sent) =>
      if from.Some? {
        PutActsOn(d.drafts, from.value, WithoutSent(Peek(d.drafts, from.value), sent), chat);
      }
    case Restore(from, failed) =>
      if from.Some? {
        PutActsOn(d.drafts, from.value, MergeFailedSend(Peek(d.drafts, from.value), failed), chat);
      }
    case _ =>
  }

  /** Over every run the one composer and its store hold, for every chat, the draft it would have had alone. */
  lemma {:induction false} EachChatKeepsItsDraft(owner: Option<ChatId>, actions: seq<Action>, chat: ChatId)
    ensures Owned(Run(owner, actions)) && Run(owner, actions).owner == OwnerAfter(owner, actions)
    ensures Same(DraftOf(Run(owner, actions), chat), OwnAfter(chat, owner, actions))
  {
    if actions != [] {
      var n := |actions| - 1;
      EachChatKeepsItsDraft(owner, actions[..n], chat);
      var d := Run(owner, actions[..n]);
      StepOwned(d, actions[n]);
      StepActsOnItsChat(d, actions[n], chat);
      OwnKeepsSame(DraftOf(d, chat), OwnAfter(chat, owner, actions[..n]), chat, d.owner, actions[n]);
      hide Step, Own, IsEmpty, DraftOf;
    }
  }

  /** There are words or images in it. */
  predicate HasSomething(draft: Draft) {
    !AllSpace(draft.text) || draft.attachments != []
  }

  predicate NoneEmpty(drafts: map<ChatId, Draft>) {
    forall id :: id in drafts ==> HasSomething(drafts[id])
  }

  lemma PutKeepsSomething(drafts: map<ChatId, Draft>, id: ChatId, draft: Draft)
    requires NoneEmpty(drafts)
    ensures NoneEmpty(Put(drafts, id, draft))
  {
    SpaceTrimsAway(draft.text);
    hide Trim, AllSpace;
  }

  /** Over every run the store holds no draft without words and images. */
  lemma {:induction false} StoreHoldsNoEmpty(owner: Option<ChatId>, actions: seq<Action>)
    ensures NoneEmpty(Run(owner, actions).drafts)
  {
    if actions != [] {
      var n := |actions| - 1;
      StoreHoldsNoEmpty(owner, actions[..n]);
      var d := Run(owner, actions[..n]);
      hide WithoutSent, MergeFailedSend, Put, HasSomething;
      match actions[n]
      case Switch(_) =>
        if d.owner.Some? {
          PutKeepsSomething(d.drafts, d.owner.value, d.live);
        }
      case Seed(chat, text) => PutKeepsSomething(d.drafts, chat, Draft(text, []));
      case Consume(from, sent) =>
        if from.Some? {
          PutKeepsSomething(d.drafts, from.value, WithoutSent(Peek(d.drafts, from.value), sent));
        }
      case Restore(from, failed) =>
        if from.Some? {
          PutKeepsSomething(d.drafts, from.value, MergeFailedSend(Peek(d.drafts, from.value), failed));
        }
      case _ =>
    }
  }

  // ----- What a restore and a take do --------------------------------------

  /** Whatever either side wrote is in the restored draft, the failed words and images first. */
  lemma RestoreHoldsBoth(current: Draft, failed: Draft)
    ensures
      var after := MergeFailedSend(current, failed);
      && (!IsBlank(current.text) && !IsBlank(failed.text) ==> after.text == Trim(failed.text) + "\n\n" + current.text)
      && (IsBlank(current.text) ==> after.text == failed.text)
      && (IsBlank(failed.text) && !IsBlank(current.text) ==> after.text == current.text)
      && failed.attachments <= after.attachments
      && (forall a :: a in current.attachments ==>
            if HasAttachment(failed.attachments, a.id) then a in after.attachments ==> a in failed.attachments
            else a in after.attachments)
  {
    forall a
      ensures a in Others(current.attachments, failed.attachments) <==>
        a in current.attachments && !HasAttachment(failed.attachments, a.id)
    {
      OthersAre(current.attachments, failed.attachments, a);
    }
    hide Others, HasAttachment, IsBlank, Trim;
  }

  lemma {:induction false} OthersAre(current: seq<Attachment>, taken: seq<Attachment>, a: Attachment)
    ensures a in Others(current, taken) <==> a in current && !HasAttachment(taken, a.id)
  {
    hide HasAttachment;
    if current != [] {
      OthersAre(current[..|current| - 1], taken, a);
      assert current == current[..|current| - 1] + [current[|current| - 1]];
    }
  }

  /** Only whole words in front go: with what follows them at once nothing goes, with white space behind them that goes too. */
  lemma OnlyWholeWordsGo(sent: string, rest: string)
    requires Trim(sent) != ""
    ensures
      var current := Trim(sent) + rest;
      WithoutSentText(current, sent) == if rest != "" && !IsSpace(rest[0]) then current else TrimStart(rest)
  {
    TrimIsTrimStart(sent);
    hide *;
    WordsBefore(Trim(sent), rest, sent);
  }

  lemma WordsBefore(words: string, rest: string, sent: string)
    requires words == Trim(sent) && words != "" && !IsSpace(words[0])
    ensures WithoutSentText(words + rest, sent) == if rest != "" && !IsSpace(rest[0]) then words + rest else TrimStart(rest)
  {
    hide Trim, TrimStart, IsSpace;
    TrimStartFromText(words, rest);
    assert words <= words + rest && (words + rest)[|words|..] == rest;
    if rest == "" {
      assert TrimStart("") == "";
    }
  }

  /** A draft that does not begin with the sent words stays, and so does any when nothing was sent. */
  lemma OtherWordsStay(current: string, sent: string)
    requires Trim(sent) == "" || !(Trim(sent) <= TrimStart(current))
    ensures WithoutSentText(current, sent) == current
  {
  }
}
