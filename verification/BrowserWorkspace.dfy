/** The browser tabs of one task: the reducer every action goes through. */
module BrowserWorkspace {
  import opened Wrappers

  const MAX_BROWSER_TABS := 20
  const MAX_BROWSER_CLOSED_TABS := 10
  const MAX_BROWSER_HISTORY := 50
  const MAX_BROWSER_URL_LENGTH := 2048
  const MAX_BROWSER_TITLE_LENGTH := 160

  datatype Tab = Tab(id: string, url: string, title: string, history: seq<string>, historyIndex: int)

  datatype Workspace = Workspace(tabs: seq<Tab>, activeTabId: string, recentlyClosed: seq<Tab>)

  /** An HTTP(S) address: its canonical form, and whether it holds credentials or names a secret. */
  datatype Address = Address(href: string, isPrivate: bool)

  /** The platform's URL parser, and what the omnibox makes of its input. */
  datatype Urls = Urls(normalize: string -> Option<string>, parse: string -> Option<Address>)

  /** A long input is refused before it is parsed; the canonical form may be longer. */
  function Parsed(urls: Urls, value: string): Option<Address> {
    if |value| > MAX_BROWSER_URL_LENGTH then None else urls.parse(value)
  }

  function HttpUrl(urls: Urls, value: string): Option<string> {
    var address := Parsed(urls, value);
    if address.Some? then Some(address.value.href) else None
  }

  /** `newId` is the id the platform would generate, if the action needs one. */
  datatype Action =
    | Create(id: Option<string>, url: string, newId: string)
    | Select(tabId: string)
    | Close(tabId: string, newId: string)
    | Reopen(newId: string)
    | Navigate(tabId: string, url: string)
    | Committed(tabId: string, url: string, replace: bool, pageTitle: Option<string>)
    | Back(tabId: string)
    | Forward(tabId: string)
    | Traverse(tabId: string, url: string)
    | UpdateTitle(tabId: string, title: string)

  /** An empty string counts as no value. */
  function Truthy(value: Option<string>): Option<string> {
    if value == Some("") then None else value
  }

  function First(s: string, n: nat): string {
    if |s| > n then s[..n] else s
  }

  /** The last `n` elements. */
  function Latest<T>(s: seq<T>, n: nat): seq<T> {
    if |s| > n then s[|s| - n..] else s
  }

  function BlankTab(id: string): Tab {
    Tab(id, "", "", [], -1)
  }

  /** The history up to the shown entry, with `url` behind it or in its place. */
  function Branched(history: seq<string>, at: int, url: string, replace: bool): seq<string>
    requires -1 <= at < |history|
  {
    if replace && at >= 0 then history[..at] + [url] else history[..at + 1] + [url]
  }

  function NavigateTab(tab: Tab, url: string, replace: bool, title: Option<string>): Tab
    requires -1 <= tab.historyIndex < |tab.history|
  {
    var nextTitle :=
      if title.None? then (if url == tab.url then tab.title else "") else First(title.value, MAX_BROWSER_TITLE_LENGTH);
    if url == tab.url then tab.(title := nextTitle)
    else
      var history := Latest(Branched(tab.history, tab.historyIndex, url, replace), MAX_BROWSER_HISTORY);
      tab.(url := url, title := nextTitle, history := history, historyIndex := |history| - 1)
  }

  function Distance(a: int, b: int): nat {
    if a <= b then b - a else a - b
  }

  /** The entry equal to `url` nearest to `at`, the earlier of two as near. */
  function Nearest(history: seq<string>, url: string, at: int): (index: int)
    ensures -1 <= index < |history|
    ensures index >= 0 ==> history[index] == url
    ensures index < 0 ==> url !in history
    ensures forall i :: 0 <= i < |history| && history[i] == url ==>
      index >= 0 && (Distance(index, at) < Distance(i, at) || (Distance(index, at) == Distance(i, at) && index <= i))
  {
    if history == [] then -1
    else
      var n := |history| - 1;
      var before := Nearest(history[..n], url, at);
      assert history == history[..n] + [history[n]];
      if history[n] == url && (before < 0 || Distance(n, at) < Distance(before, at)) then n else before
  }

  method NearestEntry(history: seq<string>, url: string, at: int) returns (index: int)
    ensures index == Nearest(history, url, at)
  {
    index := -1;
    for i := 0 to |history|
      invariant index == Nearest(history[..i], url, at)
    {
      assert history[..i + 1][..i] == history[..i];
      if history[i] == url && (index < 0 || Distance(i, at) < Distance(index, at)) {
        index := i;
      }
    }
    assert history[..|history|] == history;
  }

  /** What an action that names a tab does to that tab. */
  function UpdateTab(urls: Urls, tab: Tab, a: Action): Tab
    requires -1 <= tab.historyIndex < |tab.history|
  {
    match a
    case Back(_) =>
      if tab.historyIndex - 1 >= 0 then
        tab.(historyIndex := tab.historyIndex - 1, url := tab.history[tab.historyIndex - 1], title := "")
      else tab
    case Forward(_) =>
      if tab.historyIndex + 1 < |tab.history| then
        tab.(historyIndex := tab.historyIndex + 1, url := tab.history[tab.historyIndex + 1], title := "")
      else tab
    case Traverse(_, address) =>
      var url := Truthy(HttpUrl(urls, address));
      if url.None? then tab
      else
        var index := Nearest(tab.history, url.value, tab.historyIndex);
        if index < 0 then NavigateTab(tab, url.value, false, None)
        else tab.(url := url.value, historyIndex := index, title := if url.value == tab.url then tab.title else "")
    case UpdateTitle(_, title) => tab.(title := First(title, MAX_BROWSER_TITLE_LENGTH))
    case Navigate(_, address) =>
      var url := Truthy(urls.normalize(address));
      if url.None? then tab else NavigateTab(tab, url.value, false, None)
    case Committed(_, address, replace, title) =>
      var url := Truthy(HttpUrl(urls, address));
      if url.None? then tab else NavigateTab(tab, url.value, replace, title)
    case _ => tab
  }

  predicate HasId(tabs: seq<Tab>, id: string) {
    exists i :: 0 <= i < |tabs| && tabs[i].id == id
  }

  function IndexOf(tabs: seq<Tab>, id: string): (index: nat)
    requires HasId(tabs, id)
    ensures index < |tabs| && tabs[index].id == id
  {
    if tabs[0].id == id then 0
    else
      assert HasId(tabs[1..], id) by {
        var i :| 0 <= i < |tabs| && tabs[i].id == id;
        assert tabs[1..][i - 1].id == id;
      }
      1 + IndexOf(tabs[1..], id)
  }

  function WithoutId(tabs: seq<Tab>, id: string): seq<Tab> {
    if tabs == [] then []
    else WithoutId(tabs[..|tabs| - 1], id) + if tabs[|tabs| - 1].id == id then [] else [tabs[|tabs| - 1]]
  }

  /** A tab is blank, or shows the entry its history points at. */
  predicate TabOk(tab: Tab) {
    && (tab.url == "" ==> tab.history == [] && tab.historyIndex == -1)
    && (tab.url != "" ==> 0 <= tab.historyIndex < |tab.history| && tab.history[tab.historyIndex] == tab.url)
    && |tab.history| <= MAX_BROWSER_HISTORY
    && "" !in tab.history
  }

  predicate UniqueIds(tabs: seq<Tab>) {
    forall i, j :: 0 <= i < j < |tabs| ==> tabs[i].id != tabs[j].id
  }

  predicate AllOk(tabs: seq<Tab>) {
    forall i :: 0 <= i < |tabs| ==> TabOk(tabs[i])
  }

  predicate Valid(w: Workspace) {
    && 1 <= |w.tabs| <= MAX_BROWSER_TABS && |w.recentlyClosed| <= MAX_BROWSER_CLOSED_TABS
    && UniqueIds(w.tabs) && UniqueIds(w.recentlyClosed)
    && AllOk(w.tabs) && AllOk(w.recentlyClosed)
    && HasId(w.tabs, w.activeTabId)
  }

  function Created(urls: Urls, w: Workspace, a: Action): Workspace
    requires a.Create?
  {
    if |w.tabs| >= MAX_BROWSER_TABS || (Truthy(a.id).Some? && HasId(w.tabs, a.id.value)) then w
    else
      var blank := BlankTab(a.id.Or(a.newId));
      var url := Truthy(urls.normalize(a.url));
      var tab := if url.Some? then NavigateTab(blank, url.value, false, None) else blank;
      w.(tabs := w.tabs + [tab], activeTabId := tab.id)
  }

  function Closed(w: Workspace, id: string, newId: string): Workspace {
    if !HasId(w.tabs, id) then w
    else
      var index := IndexOf(w.tabs, id);
      var closed := w.tabs[index];
      var rest := WithoutId(w.tabs, id);
      var tabs := if rest == [] then [BlankTab(newId)] else rest;
      Workspace(tabs,
                if w.activeTabId == id then tabs[if index < |tabs| then index else |tabs| - 1].id else w.activeTabId,
                Latest(WithoutId(w.recentlyClosed, closed.id) + [closed], MAX_BROWSER_CLOSED_TABS))
  }

  function Reopened(w: Workspace, newId: string): Workspace {
    if |w.tabs| >= MAX_BROWSER_TABS || w.recentlyClosed == [] then w
    else
      var n := |w.recentlyClosed| - 1;
      var previous := w.recentlyClosed[n];
      var tab := if HasId(w.tabs, previous.id) then previous.(id := newId) else previous;
      Workspace(w.tabs + [tab], tab.id, w.recentlyClosed[..n])
  }

  function Updated(urls: Urls, tabs: seq<Tab>, a: Action): seq<Tab>
    requires AllOk(tabs) && !a.Create? && !a.Reopen?
  {
    seq(|tabs|, i requires 0 <= i < |tabs| => if tabs[i].id == a.tabId then UpdateTab(urls, tabs[i], a) else tabs[i])
  }

  function Reduce(urls: Urls, w: Workspace, a: Action): Workspace
    requires AllOk(w.tabs)
  {
    match a
    case Create(_, _, _) => Created(urls, w, a)
    case Select(id) => if HasId(w.tabs, id) then w.(activeTabId := id) else w
    case Close(id, newId) => Closed(w, id, newId)
    case Reopen(newId) => Reopened(w, newId)
    case _ => w.(tabs := Updated(urls, w.tabs, a))
  }

  // ----- What every action keeps -------------------------------------------

  /** The one request that gives two tabs the same name: an empty id is never checked. */
  predicate Clashes(w: Workspace, a: Action) {
    a.Create? && a.id == Some("") && |w.tabs| < MAX_BROWSER_TABS && HasId(w.tabs, "")
  }

  /** A generated id is new. */
  predicate IsFresh(w: Workspace, a: Action) {
    (a.Create? || a.Close? || a.Reopen?) ==> !HasId(w.tabs, a.newId)
  }

  lemma NavigateOk(tab: Tab, url: string, replace: bool, title: Option<string>)
    requires TabOk(tab) && url != ""
    ensures TabOk(NavigateTab(tab, url, replace, title))
    ensures NavigateTab(tab, url, replace, title).url == url && NavigateTab(tab, url, replace, title).id == tab.id
  {
    if url != tab.url {
      var branched := Branched(tab.history, tab.historyIndex, url, replace);
      assert forall i :: 0 <= i < |branched| ==> branched[i] in tab.history + [url];
      assert branched[|branched| - 1] == url;
    }
  }

  lemma UpdateOk(urls: Urls, tab: Tab, a: Action)
    requires TabOk(tab)
    ensures TabOk(UpdateTab(urls, tab, a)) && UpdateTab(urls, tab, a).id == tab.id
  {
    match a
    case Traverse(_, address) =>
      var url := Truthy(HttpUrl(urls, address));
      if url.Some? && Nearest(tab.history, url.value, tab.historyIndex) < 0 {
        NavigateOk(tab, url.value, false, None);
      }
    case Navigate(_, address) =>
      var url := Truthy(urls.normalize(address));
      if url.Some? {
        NavigateOk(tab, url.value, false, None);
      }
    case Committed(_, address, replace, title) =>
      var url := Truthy(HttpUrl(urls, address));
      if url.Some? {
        NavigateOk(tab, url.value, replace, title);
      }
    case _ =>
  }

  lemma UpdatedValid(urls: Urls, w: Workspace, a: Action)
    requires Valid(w) && !a.Create? && !a.Reopen?
    ensures Valid(w.(tabs := Updated(urls, w.tabs, a)))
  {
    var tabs := Updated(urls, w.tabs, a);
    forall i | 0 <= i < |tabs|
      ensures TabOk(tabs[i]) && tabs[i].id == w.tabs[i].id
    {
      UpdateOk(urls, w.tabs[i], a);
    }
    var i :| 0 <= i < |w.tabs| && w.tabs[i].id == w.activeTabId;
    assert tabs[i].id == w.activeTabId;
  }

  lemma {:induction false} WithoutIn(tabs: seq<Tab>, id: string)
    ensures forall tab :: tab in WithoutId(tabs, id) <==> tab in tabs && tab.id != id
    ensures |WithoutId(tabs, id)| <= |tabs|
    ensures HasId(tabs, id) ==> |WithoutId(tabs, id)| < |tabs|
  {
    if tabs != [] {
      var n := |tabs| - 1;
      WithoutIn(tabs[..n], id);
      assert tabs == tabs[..n] + [tabs[n]];
      if HasId(tabs, id) && tabs[n].id != id {
        var i :| 0 <= i < |tabs| && tabs[i].id == id;
        assert tabs[..n][i].id == id;
      }
    }
  }

  lemma {:induction false} WithoutUnique(tabs: seq<Tab>, id: string)
    requires UniqueIds(tabs)
    ensures UniqueIds(WithoutId(tabs, id))
  {
    if tabs != [] {
      var n := |tabs| - 1;
      var rest := WithoutId(tabs[..n], id);
      WithoutUnique(tabs[..n], id);
      WithoutIn(tabs[..n], id);
      forall i | 0 <= i < |rest|
        ensures rest[i].id != tabs[n].id
      {
        assert rest[i] in tabs[..n];
      }
    }
  }

  lemma WithoutKeeps(tabs: seq<Tab>, id: string)
    ensures forall tab :: tab in WithoutId(tabs, id) <==> tab in tabs && tab.id != id
    ensures |WithoutId(tabs, id)| <= |tabs|
    ensures HasId(tabs, id) ==> |WithoutId(tabs, id)| < |tabs|
    ensures UniqueIds(tabs) ==> UniqueIds(WithoutId(tabs, id))
  {
    hide *;
    WithoutIn(tabs, id);
    if UniqueIds(tabs) {
      WithoutUnique(tabs, id);
    }
  }

  lemma OkIn(tabs: seq<Tab>)
    ensures AllOk(tabs) <==> forall tab :: tab in tabs ==> TabOk(tab)
  {
  }

  lemma ClosedTabsValid(w: Workspace, id: string, newId: string)
    requires Valid(w) && HasId(w.tabs, id)
    ensures
      var tabs := Closed(w, id, newId).tabs;
      1 <= |tabs| <= MAX_BROWSER_TABS && UniqueIds(tabs) && AllOk(tabs) && HasId(tabs, Closed(w, id, newId).activeTabId)
  {
    WithoutKeeps(w.tabs, id);
    OkIn(w.tabs);
    OkIn(WithoutId(w.tabs, id));
    assert TabOk(BlankTab(newId));
    hide WithoutId, TabOk, Latest;
    var after := Closed(w, id, newId);
    if w.activeTabId != id {
      var i :| 0 <= i < |w.tabs| && w.tabs[i].id == w.activeTabId;
      assert w.tabs[i] in WithoutId(w.tabs, id);
      assert w.tabs[i] in after.tabs;
    } else {
      var index := IndexOf(w.tabs, id);
      assert after.tabs[if index < |after.tabs| then index else |after.tabs| - 1].id == after.activeTabId;
    }
  }

  lemma ClosedValid(w: Workspace, id: string, newId: string)
    requires Valid(w)
    ensures Valid(Closed(w, id, newId))
  {
    if HasId(w.tabs, id) {
      var closed := w.tabs[IndexOf(w.tabs, id)];
      ClosedTabsValid(w, id, newId);
      WithoutKeeps(w.recentlyClosed, closed.id);
      OkIn(w.recentlyClosed);
      OkIn(WithoutId(w.recentlyClosed, closed.id));
      hide WithoutId, UniqueIds, TabOk, Latest, IndexOf, HasId;
      ClosedListValid(WithoutId(w.recentlyClosed, closed.id), closed);
    }
  }

  lemma ClosedListValid(rest: seq<Tab>, closed: Tab)
    requires UniqueIds(rest) && AllOk(rest) && TabOk(closed)
    requires forall tab :: tab in rest ==> tab.id != closed.id
    ensures
      var list := Latest(rest + [closed], MAX_BROWSER_CLOSED_TABS);
      UniqueIds(list) && AllOk(list) && |list| <= MAX_BROWSER_CLOSED_TABS
  {
    assert forall i :: 0 <= i < |rest| ==> rest[i] in rest;
  }

  lemma AddedValid(w: Workspace, tab: Tab, recentlyClosed: seq<Tab>)
    requires Valid(w) && |w.tabs| < MAX_BROWSER_TABS && TabOk(tab)
    requires recentlyClosed <= w.recentlyClosed
    ensures Valid(Workspace(w.tabs + [tab], tab.id, recentlyClosed)) <==> !HasId(w.tabs, tab.id)
  {
    var tabs := w.tabs + [tab];
    assert tabs[|w.tabs|] == tab;
    if HasId(w.tabs, tab.id) {
      var i :| 0 <= i < |w.tabs| && w.tabs[i].id == tab.id;
      assert tabs[i].id == tabs[|w.tabs|].id;
    }
  }

  /** Every action keeps the workspace valid, but for a second tab with an empty name. */
  lemma ReduceValid(urls: Urls, w: Workspace, a: Action)
    requires Valid(w) && IsFresh(w, a)
    ensures Valid(Reduce(urls, w, a)) <==> !Clashes(w, a)
  {
    match a
    case Create(id, address, newId) =>
      var url := Truthy(urls.normalize(address));
      var blank := BlankTab(id.Or(newId));
      if url.Some? {
        NavigateOk(blank, url.value, false, None);
      }
      if |w.tabs| < MAX_BROWSER_TABS {
        AddedValid(w, if url.Some? then NavigateTab(blank, url.value, false, None) else blank, w.recentlyClosed);
      }
    case Select(id) =>
    case Close(id, newId) => ClosedValid(w, id, newId);
    case Reopen(newId) =>
      if |w.tabs| < MAX_BROWSER_TABS && w.recentlyClosed != [] {
        var previous := w.recentlyClosed[|w.recentlyClosed| - 1];
        AddedValid(w, if HasId(w.tabs, previous.id) then previous.(id := newId) else previous,
                   w.recentlyClosed[..|w.recentlyClosed| - 1]);
      }
    case _ => UpdatedValid(urls, w, a);
  }

  function DefaultWorkspace(urls: Urls, initialUrl: string, newId: string): Workspace {
    var url := Truthy(urls.normalize(initialUrl));
    Workspace([if url.Some? then Tab(newId, url.value, "", [url.value], 0) else BlankTab(newId)], newId, [])
  }

  /** Every workspace reached from the default one is valid. */
  lemma ReachedValid(urls: Urls, initialUrl: string, newId: string, states: seq<Workspace>, actions: seq<Action>)
    requires |states| == |actions| + 1 && states[0] == DefaultWorkspace(urls, initialUrl, newId)
    requires forall i :: 0 <= i < |actions| ==>
      && IsFresh(states[i], actions[i]) && !Clashes(states[i], actions[i])
      && AllOk(states[i].tabs) && states[i + 1] == Reduce(urls, states[i], actions[i])
    ensures forall i :: 0 <= i < |states| ==> Valid(states[i])
  {
    hide Reduce, Clashes, IsFresh;
    assert states[0].tabs[0].id == newId;
    var n := 0;
    while n < |actions|
      invariant n <= |actions|
      invariant forall i :: 0 <= i <= n ==> Valid(states[i])
    {
      ReduceValid(urls, states[n], actions[n]);
      n := n + 1;
    }
  }

  /** Reopening right after closing brings the tab back, at the end, with its history. */
  lemma ReopenUndoesClose(w: Workspace, id: string, newId: string, again: string)
    requires Valid(w) && HasId(w.tabs, id) && newId != id
    ensures
      var tab := w.tabs[IndexOf(w.tabs, id)];
      var closed := Closed(w, id, newId);
      Reopened(closed, again) ==
        Workspace(closed.tabs + [tab], id, closed.recentlyClosed[..|closed.recentlyClosed| - 1])
  {
    WithoutKeeps(w.tabs, id);
    var closed := Closed(w, id, newId);
    assert !HasId(closed.tabs, id) by {
      forall i | 0 <= i < |closed.tabs|
        ensures closed.tabs[i].id != id
      {
        assert closed.tabs[i] in closed.tabs;
      }
    }
  }

  // ----- The bounded history against an unbounded one ----------------------

  /** A back/forward list that never forgets. */
  datatype Trail = Trail(entries: seq<string>, at: int)

  predicate TrailOk(t: Trail) {
    -1 <= t.at < |t.entries| && (t.at < 0 <==> t.entries == [])
  }

  function Visit(t: Trail, url: string, replace: bool): Trail
    requires TrailOk(t)
  {
    if t.at >= 0 && t.entries[t.at] == url then t
    else
      var entries := Branched(t.entries, t.at, url, replace);
      Trail(entries, |entries| - 1)
  }

  function Walk(urls: Urls, t: Trail, a: Action): Trail
    requires TrailOk(t)
  {
    match a
    case Back(_) => if t.at > 0 then t.(at := t.at - 1) else t
    case Forward(_) => if t.at + 1 < |t.entries| then t.(at := t.at + 1) else t
    case Navigate(_, address) =>
      var url := Truthy(urls.normalize(address));
      if url.None? then t else Visit(t, url.value, false)
    case Committed(_, address, replace, _) =>
      var url := Truthy(HttpUrl(urls, address));
      if url.None? then t else Visit(t, url.value, replace)
    case _ => t
  }

  /** The tab shows the same page as the trail, and remembers the newest part of it. */
  predicate Follows(tab: Tab, t: Trail) {
    && TabOk(tab) && TrailOk(t)
    && (tab.history == [] <==> t.entries == [])
    && |tab.history| <= |t.entries|
    && tab.history == t.entries[|t.entries| - |tab.history|..]
    && |t.entries| - t.at == |tab.history| - tab.historyIndex
  }

  /** Back at the oldest entry the tab still has, where the trail goes further. */
  predicate Forgot(tab: Tab, t: Trail, a: Action) {
    a.Back? && tab.historyIndex == 0 && t.at > 0
  }

  lemma BranchedSuffix(short: seq<string>, long: seq<string>, at: int, d: nat, url: string, replace: bool)
    requires d <= |long| && short == long[d..] && -1 <= at < |short| && (at >= 0 || long == [])
    ensures Branched(short, at, url, replace) == Branched(long, at + d, url, replace)[d..]
    ensures |Branched(short, at, url, replace)| + d == |Branched(long, at + d, url, replace)|
    ensures Branched(short, at, url, replace) != []
  {
    if at >= 0 {
      assert short[..at] == long[d..at + d] == long[..at + d][d..];
      assert short[..at + 1] == long[d..at + d + 1] == long[..at + d + 1][d..];
    }
  }

  lemma LatestSuffix(short: seq<string>, long: seq<string>, d: nat, n: nat)
    requires d <= |long| && short == long[d..] && short != [] && n > 0
    ensures Latest(short, n) != [] && |Latest(short, n)| <= |long|
    ensures Latest(short, n) == long[|long| - |Latest(short, n)|..]
  {
  }

  lemma ShownEntry(tab: Tab, t: Trail)
    requires Follows(tab, t)
    ensures t.at >= 0 <==> tab.url != ""
    ensures t.at >= 0 ==> t.entries[t.at] == tab.url
  {
    if tab.url != "" {
      assert tab.history[tab.historyIndex] == t.entries[t.at];
    }
  }

  lemma BranchedFollows(short: seq<string>, long: seq<string>, at: int, d: nat, url: string, replace: bool)
    requires d <= |long| && short == long[d..] && -1 <= at < |short| && (at >= 0 || long == [])
    ensures
      var after, all := Latest(Branched(short, at, url, replace), MAX_BROWSER_HISTORY), Branched(long, at + d, url, replace);
      after != [] && |after| <= |all| && after == all[|all| - |after|..]
  {
    hide Branched, Latest;
    BranchedSuffix(short, long, at, d, url, replace);
    LatestSuffix(Branched(short, at, url, replace), Branched(long, at + d, url, replace), d, MAX_BROWSER_HISTORY);
  }

  lemma NavigateNew(tab: Tab, url: string, replace: bool, title: Option<string>)
    requires -1 <= tab.historyIndex < |tab.history| && url != tab.url
    ensures
      var history := Latest(Branched(tab.history, tab.historyIndex, url, replace), MAX_BROWSER_HISTORY);
      var after := NavigateTab(tab, url, replace, title);
      after.history == history && after.historyIndex == |history| - 1
  {
    hide Branched, Latest, First;
  }

  lemma VisitNew(t: Trail, url: string, replace: bool)
    requires TrailOk(t) && (t.at >= 0 ==> t.entries[t.at] != url)
    ensures
      var entries := Branched(t.entries, t.at, url, replace);
      Visit(t, url, replace) == Trail(entries, |entries| - 1)
  {
    hide Branched;
  }

  lemma VisitFollows(tab: Tab, t: Trail, url: string, replace: bool, title: Option<string>)
    requires Follows(tab, t) && url != ""
    ensures Follows(NavigateTab(tab, url, replace, title), Visit(t, url, replace))
  {
    hide Branched, Latest;
    ShownEntry(tab, t);
    if url != tab.url {
      NavigateOk(tab, url, replace, title);
      NavigateNew(tab, url, replace, title);
      VisitNew(t, url, replace);
      BranchedFollows(tab.history, t.entries, tab.historyIndex, |t.entries| - |tab.history|, url, replace);
      hide TabOk, Follows, NavigateTab, Visit;
      EndFollows(NavigateTab(tab, url, replace, title), Visit(t, url, replace));
    }
  }

  lemma EndFollows(tab: Tab, t: Trail)
    requires TabOk(tab) && tab.history != [] && tab.historyIndex == |tab.history| - 1 && t.at == |t.entries| - 1
    requires |tab.history| <= |t.entries| && tab.history == t.entries[|t.entries| - |tab.history|..]
    ensures Follows(tab, t)
  {
  }

  lemma MoveFollows(urls: Urls, tab: Tab, t: Trail, a: Action)
    requires Follows(tab, t) && (a.Back? || a.Forward?)
    ensures Follows(UpdateTab(urls, tab, a), Walk(urls, t, a)) <==> !Forgot(tab, t, a)
  {
    UpdateOk(urls, tab, a);
    ShownEntry(tab, t);
  }

  lemma AddressFollows(urls: Urls, tab: Tab, t: Trail, a: Action)
    requires Follows(tab, t) && (a.Navigate? || a.Committed? || a.UpdateTitle?)
    ensures Follows(UpdateTab(urls, tab, a), Walk(urls, t, a))
  {
    match a
    case Navigate(_, address) =>
      hide Follows, NavigateTab, Visit, HttpUrl;
      var url := Truthy(urls.normalize(address));
      if url.Some? {
        VisitFollows(tab, t, url.value, false, None);
      }
    case Committed(_, address, replace, title) =>
      hide Follows, NavigateTab, Visit, HttpUrl;
      var url := Truthy(HttpUrl(urls, address));
      if url.Some? {
        VisitFollows(tab, t, url.value, replace, title);
      }
    case UpdateTitle(_, title) =>
      hide NavigateTab, Visit, First;
  }

  /** The bounded history is the newest part of the unbounded one, until Back asks for what was forgotten. */
  lemma {:induction false} HistoryFollows(urls: Urls, tab: Tab, t: Trail, a: Action)
    requires Follows(tab, t) && MovesHistory(a)
    ensures Follows(UpdateTab(urls, tab, a), Walk(urls, t, a)) <==> !Forgot(tab, t, a)
  {
    hide Follows, UpdateTab, Walk;
    if a.Back? || a.Forward? {
      MoveFollows(urls, tab, t, a);
    } else {
      AddressFollows(urls, tab, t, a);
    }
  }

  function UpdateRun(urls: Urls, tab: Tab, actions: seq<Action>): (after: Tab)
    requires TabOk(tab)
    ensures TabOk(after)
  {
    if actions == [] then tab
    else
      var before := UpdateRun(urls, tab, actions[..|actions| - 1]);
      UpdateOk(urls, before, actions[|actions| - 1]);
      UpdateTab(urls, before, actions[|actions| - 1])
  }

  function WalkRun(urls: Urls, t: Trail, actions: seq<Action>): (after: Trail)
    requires TrailOk(t)
    ensures TrailOk(after)
  {
    if actions == [] then t
    else Walk(urls, WalkRun(urls, t, actions[..|actions| - 1]), actions[|actions| - 1])
  }

  predicate MovesHistory(a: Action) {
    a.Back? || a.Forward? || a.Navigate? || a.Committed? || a.UpdateTitle?
  }

  /** At no point of the run Back asks for what the tab forgot. */
  ghost predicate NeverForgot(urls: Urls, id: string, actions: seq<Action>) {
    forall n :: 0 <= n < |actions| ==>
      !Forgot(UpdateRun(urls, BlankTab(id), actions[..n]), WalkRun(urls, Trail([], -1), actions[..n]), actions[n])
  }

  /** The tab after `n` actions follows the trail after them. */
  ghost predicate FollowsAt(urls: Urls, id: string, actions: seq<Action>, n: nat)
    requires n <= |actions|
  {
    Follows(UpdateRun(urls, BlankTab(id), actions[..n]), WalkRun(urls, Trail([], -1), actions[..n]))
  }

  lemma NextFollows(urls: Urls, id: string, actions: seq<Action>, n: nat)
    requires n < |actions| && MovesHistory(actions[n]) && FollowsAt(urls, id, actions, n)
    ensures FollowsAt(urls, id, actions, n + 1) <==>
      !Forgot(UpdateRun(urls, BlankTab(id), actions[..n]), WalkRun(urls, Trail([], -1), actions[..n]), actions[n])
  {
    assert TabOk(BlankTab(id)) && TrailOk(Trail([], -1));
    assert actions[..n + 1][..n] == actions[..n];
    hide Follows, Forgot, TabOk, TrailOk, UpdateTab, Walk, BlankTab;
    HistoryFollows(urls, UpdateRun(urls, BlankTab(id), actions[..n]), WalkRun(urls, Trail([], -1), actions[..n]), actions[n]);
  }

  lemma {:induction false} NeverForgotFollows(urls: Urls, id: string, actions: seq<Action>, n: nat)
    requires n <= |actions| && (forall a :: a in actions ==> MovesHistory(a)) && NeverForgot(urls, id, actions)
    ensures FollowsAt(urls, id, actions, n)
  {
    if n == 0 {
      assert actions[..0] == [];
    } else {
      NeverForgotFollows(urls, id, actions, n - 1);
      hide Forgot, FollowsAt, MovesHistory;
      NextFollows(urls, id, actions, n - 1);
    }
  }

  /**
   * Over whole runs from a blank tab: at every moment the history shown is the
   * end of the one never trimmed, if and only if Back never asks for what was forgotten.
   */
  lemma RunFollows(urls: Urls, id: string, actions: seq<Action>)
    requires forall a :: a in actions ==> MovesHistory(a)
    ensures NeverForgot(urls, id, actions) <==> forall n :: 0 <= n <= |actions| ==> FollowsAt(urls, id, actions, n)
  {
    if NeverForgot(urls, id, actions) {
      forall n | 0 <= n <= |actions|
        ensures FollowsAt(urls, id, actions, n)
      {
        NeverForgotFollows(urls, id, actions, n);
      }
    } else {
      hide FollowsAt, MovesHistory, Forgot, UpdateRun, WalkRun;
      var n :| 0 <= n < |actions| &&
        Forgot(UpdateRun(urls, BlankTab(id), actions[..n]), WalkRun(urls, Trail([], -1), actions[..n]), actions[n]);
      if FollowsAt(urls, id, actions, n) {
        NextFollows(urls, id, actions, n);
        assert !FollowsAt(urls, id, actions, n + 1);
      }
    }
  }
}
