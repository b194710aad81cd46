/** What each action shows, told by the tabs there were. */
module WorkspaceLaws {
  import opened Wrappers
  import opened BrowserWorkspace

  /** The tab named `id`, at position `i`. */
  predicate IsAt(tabs: seq<Tab>, id: string, i: nat) {
    i < |tabs| && tabs[i].id == id
  }

  predicate IsNowhere(tabs: seq<Tab>, id: string) {
    forall i :: 0 <= i < |tabs| ==> tabs[i].id != id
  }

  /** The tabs without the one at `i`. */
  function Others(tabs: seq<Tab>, i: nat): seq<Tab>
    requires i < |tabs|
  {
    tabs[..i] + tabs[i + 1..]
  }

  lemma {:induction false} WithoutNowhere(tabs: seq<Tab>, id: string)
    requires IsNowhere(tabs, id)
    ensures WithoutId(tabs, id) == tabs
  {
    if tabs != [] {
      WithoutNowhere(tabs[..|tabs| - 1], id);
      assert tabs == tabs[..|tabs| - 1] + [tabs[|tabs| - 1]];
    }
  }

  lemma {:induction false} WithoutAt(tabs: seq<Tab>, id: string, i: nat)
    requires UniqueIds(tabs) && IsAt(tabs, id, i)
    ensures WithoutId(tabs, id) == Others(tabs, i)
  {
    var n := |tabs| - 1;
    assert tabs == tabs[..n] + [tabs[n]];
    if i == n {
      WithoutNowhere(tabs[..n], id);
    } else {
      WithoutAt(tabs[..n], id, i);
    }
  }

  lemma IndexIsAt(tabs: seq<Tab>, id: string, i: nat)
    requires UniqueIds(tabs) && IsAt(tabs, id, i)
    ensures HasId(tabs, id) && IndexOf(tabs, id) == i
  {
    assert HasId(tabs, id);
    hide HasId;
  }

  lemma NowhereIsNoId(tabs: seq<Tab>, id: string)
    ensures IsNowhere(tabs, id) <==> !HasId(tabs, id)
  {
  }

  /** Closing a tab shows its right neighbour, or the left one of the last, or a blank one; the others keep their order. */
  lemma CloseShowsNeighbour(urls: Urls, w: Workspace, id: string, i: nat, newId: string)
    requires Valid(w) && IsAt(w.tabs, id, i)
    ensures
      var after := Reduce(urls, w, Close(id, newId));
      && (|w.tabs| == 1 ==> after.tabs == [Tab(newId, "", "", [], -1)] && after.activeTabId == newId)
      && (|w.tabs| > 1 ==>
            && after.tabs == Others(w.tabs, i)
            && after.activeTabId ==
                 if w.activeTabId != id then w.activeTabId
                 else if i + 1 < |w.tabs| then w.tabs[i + 1].id
                 else w.tabs[i - 1].id)
  {
    IndexIsAt(w.tabs, id, i);
    WithoutAt(w.tabs, id, i);
    if |w.tabs| == 1 {
      assert w.activeTabId == w.tabs[0].id;
    }
    hide WithoutId, HasId, IndexOf, Latest, UniqueIds, TabOk;
  }

  /** The closed tab is the newest closed one, once, and of eleven the oldest is forgotten. */
  lemma ClosedIsRemembered(urls: Urls, w: Workspace, id: string, i: nat, newId: string)
    requires Valid(w) && IsAt(w.tabs, id, i)
    ensures
      var closed, after := w.recentlyClosed, Reduce(urls, w, Close(id, newId)).recentlyClosed;
      && (IsNowhere(closed, id) ==> after == (if |closed| < 10 then closed else closed[1..]) + [w.tabs[i]])
      && (forall c: nat :: IsAt(closed, id, c) ==> after == Others(closed, c) + [w.tabs[i]])
  {
    IndexIsAt(w.tabs, id, i);
    var closed := w.recentlyClosed;
    if IsNowhere(closed, id) {
      WithoutNowhere(closed, id);
    }
    forall c: nat | IsAt(closed, id, c)
      ensures WithoutId(closed, id) == Others(closed, c)
    {
      WithoutAt(closed, id, c);
    }
    hide WithoutId, HasId, IndexOf, UniqueIds, TabOk;
  }

  /** A name no tab has closes and selects nothing, and a tab's own name selects it and changes nothing else. */
  lemma SelectShowsNamed(urls: Urls, w: Workspace, id: string, newId: string)
    requires Valid(w)
    ensures IsNowhere(w.tabs, id) ==> Reduce(urls, w, Close(id, newId)) == w && Reduce(urls, w, Select(id)) == w
    ensures !IsNowhere(w.tabs, id) ==>
      Reduce(urls, w, Select(id)) == Workspace(w.tabs, id, w.recentlyClosed)
  {
    NowhereIsNoId(w.tabs, id);
    hide HasId, IsNowhere;
  }

  /** A new tab comes last and is shown: under the name asked for or a new one, blank or with the address alone in its history. */
  lemma CreateShowsNew(urls: Urls, w: Workspace, id: Option<string>, address: string, newId: string)
    requires Valid(w)
    ensures
      var after := Reduce(urls, w, Create(id, address, newId));
      var url := urls.normalize(address).Or("");
      var name := id.Or(newId);
      if |w.tabs| >= 20 || (id.Some? && id.value != "" && !IsNowhere(w.tabs, id.value)) then after == w
      else after == Workspace(
        w.tabs + [if url == "" then Tab(name, "", "", [], -1) else Tab(name, url, "", [url], 0)], name, w.recentlyClosed)
  {
    if id.Some? {
      NowhereIsNoId(w.tabs, id.value);
    }
    var blank := BlankTab(id.Or(newId));
    assert Branched(blank.history, -1, urls.normalize(address).Or(""), false) == [urls.normalize(address).Or("")];
    hide HasId, IsNowhere, Branched;
  }

  /** The newest closed tab comes back at the end and is shown, under a new name if another tab has its own. */
  lemma ReopenShowsNewest(urls: Urls, w: Workspace, newId: string)
    requires Valid(w)
    ensures
      var n, after := |w.recentlyClosed|, Reduce(urls, w, Reopen(newId));
      if |w.tabs| >= 20 || n == 0 then after == w
      else
        var tab := w.recentlyClosed[n - 1];
        var name := if IsNowhere(w.tabs, tab.id) then tab.id else newId;
        after == Workspace(w.tabs + [Tab(name, tab.url, tab.title, tab.history, tab.historyIndex)], name, w.recentlyClosed[..n - 1])
  {
    if w.recentlyClosed != [] {
      NowhereIsNoId(w.tabs, w.recentlyClosed[|w.recentlyClosed| - 1].id);
    }
    hide HasId, IsNowhere;
  }

  // ----- Actions on one tab ------------------------------------------------

  predicate IsOnTab(a: Action) {
    a.Navigate? || a.Committed? || a.Back? || a.Forward? || a.Traverse? || a.UpdateTitle?
  }

  function Cut(title: string): string {
    if |title| > 160 then title[..160] else title
  }

  /** The page address a page event carries, if it is one that is followed. */
  function Followed(urls: Urls, address: string): string {
    if |address| > 2048 || urls.parse(address).None? then "" else urls.parse(address).value.href
  }

  /** `after` is `tab` gone to `url`: what was ahead is forgotten, and of more than 50 entries the oldest. */
  predicate WentTo(tab: Tab, after: Tab, url: string, replace: bool, title: Option<string>)
    requires -1 <= tab.historyIndex < |tab.history|
  {
    var kept := tab.history[..if replace && tab.historyIndex >= 0 then tab.historyIndex else tab.historyIndex + 1] + [url];
    && after == Tab(tab.id, url, if title.None? then "" else Cut(title.value), after.history, |after.history| - 1)
    && after.history == if |kept| > 50 then kept[1..] else kept
  }

  /** What the action makes of the tab it names. */
  predicate Becomes(urls: Urls, tab: Tab, a: Action, after: Tab)
    requires -1 <= tab.historyIndex < |tab.history| && IsOnTab(a)
  {
    match a
    case UpdateTitle(_, title) => after == Tab(tab.id, tab.url, Cut(title), tab.history, tab.historyIndex)
    case Back(_) => if tab.historyIndex <= 0 then after == tab else Turned(tab, after, tab.historyIndex - 1)
    case Forward(_) => if tab.historyIndex + 1 == |tab.history| then after == tab else Turned(tab, after, tab.historyIndex + 1)
    case Navigate(_, address) => Goes(tab, after, urls.normalize(address).Or(""), false, None)
    case Committed(_, address, replace, title) => Goes(tab, after, Followed(urls, address), replace, title)
    case Traverse(_, address) =>
      var url := Followed(urls, address);
      if url == "" || url !in tab.history then Goes(tab, after, url, false, None)
      else
        && after == Tab(tab.id, url, if url == tab.url then tab.title else "", tab.history, after.historyIndex)
        && IsNearest(tab.history, url, tab.historyIndex, after.historyIndex)
  }

  predicate Turned(tab: Tab, after: Tab, at: int)
    requires 0 <= at < |tab.history|
  {
    after == Tab(tab.id, tab.history[at], "", tab.history, at)
  }

  /** An empty address changes nothing, the shown one only the title. */
  predicate Goes(tab: Tab, after: Tab, url: string, replace: bool, title: Option<string>)
    requires -1 <= tab.historyIndex < |tab.history|
  {
    if url == "" then after == tab
    else if url == tab.url then
      after == Tab(tab.id, tab.url, if title.None? then tab.title else Cut(title.value), tab.history, tab.historyIndex)
    else WentTo(tab, after, url, replace, title)
  }

  /** Entry `i` is `url`, and no entry that is `url` is nearer to `at`, nor as near and earlier. */
  predicate IsNearest(history: seq<string>, url: string, at: int, i: int) {
    && 0 <= i < |history| && history[i] == url
    && forall j :: 0 <= j < |history| && history[j] == url ==>
         var near, far := (if i < at then at - i else i - at), (if j < at then at - j else j - at);
         near < far || (near == far && i <= j)
  }

  lemma NavigatedGoes(tab: Tab, url: string, replace: bool, title: Option<string>)
    requires TabOk(tab) && url != ""
    ensures Goes(tab, NavigateTab(tab, url, replace, title), url, replace, title)
  {
    if url != tab.url {
      assert |tab.history[..tab.historyIndex + 1]| <= 50;
    }
  }

  lemma UpdateBecomes(urls: Urls, tab: Tab, a: Action)
    requires TabOk(tab) && IsOnTab(a)
    ensures Becomes(urls, tab, a, UpdateTab(urls, tab, a))
  {
    match a
    case Navigate(_, address) =>
      if Truthy(urls.normalize(address)).Some? {
        NavigatedGoes(tab, urls.normalize(address).value, false, None);
      }
      hide NavigateTab, Goes, Nearest, TabOk;
    case Committed(_, address, replace, title) =>
      if Truthy(HttpUrl(urls, address)).Some? {
        NavigatedGoes(tab, HttpUrl(urls, address).value, replace, title);
      }
      hide NavigateTab, Nearest, TabOk, WentTo;
    case Traverse(_, address) =>
      TraverseBecomes(urls, tab, address, a);
    case _ =>
      hide NavigateTab, Nearest, HttpUrl;
  }

  lemma TraverseBecomes(urls: Urls, tab: Tab, address: string, a: Action)
    requires TabOk(tab) && a.Traverse? && a.url == address
    ensures Becomes(urls, tab, a, UpdateTab(urls, tab, a))
  {
    var url := Followed(urls, address);
    assert Truthy(HttpUrl(urls, address)) == if url == "" then None else Some(url);
    hide HttpUrl, Followed, NavigateTab;
    if url != "" {
      if url in tab.history {
        NearestIs(tab.history, url, tab.historyIndex);
      } else {
        NavigatedGoes(tab, url, false, None);
      }
    }
    hide Nearest, TabOk, WentTo, IsNearest;
  }

  lemma NearestIs(history: seq<string>, url: string, at: int)
    requires url in history
    ensures IsNearest(history, url, at, Nearest(history, url, at))
  {
    hide Nearest;
  }

  /** An action on a tab changes the tab it names, in its place, and nothing else. */
  lemma ActsOnItsTab(urls: Urls, w: Workspace, a: Action)
    requires Valid(w) && IsOnTab(a)
    ensures
      var after := Reduce(urls, w, a);
      && after == Workspace(after.tabs, w.activeTabId, w.recentlyClosed) && |after.tabs| == |w.tabs|
      && forall i :: 0 <= i < |w.tabs| ==>
           if w.tabs[i].id == a.tabId then Becomes(urls, w.tabs[i], a, after.tabs[i]) else after.tabs[i] == w.tabs[i]
  {
    forall i | 0 <= i < |w.tabs|
      ensures w.tabs[i].id == a.tabId ==> Becomes(urls, w.tabs[i], a, UpdateTab(urls, w.tabs[i], a))
    {
      UpdateBecomes(urls, w.tabs[i], a);
    }
    hide UpdateTab, Becomes;
  }

  /** A fresh workspace has one tab, on the address it was opened with, if that is one. */
  lemma DefaultShowsAddress(urls: Urls, address: string, newId: string)
    ensures
      var url := urls.normalize(address).Or("");
      DefaultWorkspace(urls, address, newId) ==
        Workspace([if url == "" then Tab(newId, "", "", [], -1) else Tab(newId, url, "", [url], 0)], newId, [])
  {
  }
}
