/** Reading a workspace back from storage: whatever was stored is repaired or refused. */
module BrowserRestore {
  import opened Wrappers
  import opened BrowserWorkspace

  /** The property names that are read; any other is ignored. */
  datatype Name = Id | Url | PageTitle | History | HistoryIndex | Version | Tabs | ActiveTabId | RecentlyClosed | Other(name: string)

  /** A parsed JSON value; numbers are integers or not. */
  datatype Json =
    | JNull
    | JBool(flag: bool)
    | JInt(n: int)
    | JFraction
    | JString(text: string)
    | JArray(items: seq<Json>)
    | JObject(fields: map<Name, Json>)

  function Field(fields: map<Name, Json>, name: Name): Json {
    if name in fields then fields[name] else JNull
  }

  predicate IsWord(c: char) {
    'a' <= c <= 'z' || 'A' <= c <= 'Z' || '0' <= c <= '9' || c == '_' || c == '-'
  }

  predicate IsTabId(id: string) {
    1 <= |id| <= 100 && forall i :: 0 <= i < |id| ==> IsWord(id[i])
  }

  /** The address as it may be kept: canonical, and without credentials. */
  function PersistableUrl(urls: Urls, value: string): Option<string> {
    var address := Parsed(urls, value);
    if address.None? || address.value.isPrivate then None else Truthy(Some(address.value.href))
  }

  function Persistable(urls: Urls, value: Json): Option<string> {
    if value.JString? then PersistableUrl(urls, value.text) else None
  }

  /** The entries that may be kept, in order. */
  function Kept(urls: Urls, entries: seq<Json>): (kept: seq<string>)
    ensures |kept| <= |entries| && "" !in kept
  {
    if entries == [] then []
    else
      var n := |entries| - 1;
      var entry := Persistable(urls, entries[n]);
      Kept(urls, entries[..n]) + if entry.Some? then [entry.value] else []
  }

  function Slice<T>(s: seq<T>, from: nat, to: nat): seq<T> {
    var end := if to < |s| then to else |s|;
    if from < end then s[from..end] else []
  }

  function Title(value: Json): string {
    if value.JString? then First(value.text, MAX_BROWSER_TITLE_LENGTH) else ""
  }

  /** The stored entries around `index`, if that entry is `url`; otherwise `url` alone. */
  function RestoreTrail(urls: Urls, url: string, entries: seq<Json>, index: int): Trail {
    if 0 <= index < |entries| && Persistable(urls, entries[index]) == Some(url) then
      var start := if index - MAX_BROWSER_HISTORY + 1 > 0 then index - MAX_BROWSER_HISTORY + 1 else 0;
      var slice := Slice(entries, start, start + MAX_BROWSER_HISTORY);
      Trail(Kept(urls, slice), |Kept(urls, Slice(slice, 0, index - start))|)
    else Trail([url], 0)
  }

  function RestoreTab(urls: Urls, value: Json): Option<Tab> {
    if !value.JObject? then None
    else
      var id, address := Field(value.fields, Id), Field(value.fields, Url);
      if !id.JString? || !IsTabId(id.text) || !address.JString? then None
      else
        var url := Persistable(urls, address);
        if url.None? then Some(BlankTab(id.text))
        else
          var stored := Field(value.fields, History);
          var entries := if stored.JArray? then stored.items else [];
          var at := Field(value.fields, HistoryIndex);
          var index := if at.JInt? then at.n else -1;
          var trail := RestoreTrail(urls, url.value, entries, index);
          Some(Tab(id.text, url.value, Title(Field(value.fields, PageTitle)), trail.entries, trail.at))
  }

  /** The tabs that can be restored, each name once; `ids` are the names already taken. */
  function RestoreTabs(urls: Urls, values: seq<Json>, ids: set<string>): seq<Tab> {
    if values == [] then []
    else
      var n := |values| - 1;
      var before := RestoreTabs(urls, values[..n], ids);
      var tab := RestoreTab(urls, values[n]);
      before + if tab.Some? && tab.value.id !in ids + Names(before) then [tab.value] else []
  }

  function Names(tabs: seq<Tab>): set<string> {
    set tab | tab in tabs :: tab.id
  }

  function RestoreWorkspace(urls: Urls, value: Json): Option<Workspace> {
    if !value.JObject? || Field(value.fields, Version) != JInt(1) || !Field(value.fields, Tabs).JArray? then None
    else
      var tabs := RestoreTabs(urls, Slice(Field(value.fields, Tabs).items, 0, MAX_BROWSER_TABS), {});
      if tabs == [] then None
      else
        var stored := Field(value.fields, RecentlyClosed);
        var closed := RestoreTabs(urls, if stored.JArray? then Latest(stored.items, MAX_BROWSER_CLOSED_TABS) else [], Names(tabs));
        var active := Field(value.fields, ActiveTabId);
        Some(Workspace(tabs, if active.JString? && HasId(tabs, active.text) then active.text else tabs[0].id, closed))
  }

  lemma NamesSnoc(tabs: seq<Tab>, tab: Tab)
    ensures Names(tabs + [tab]) == Names(tabs) + {tab.id}
  {
    assert tab in tabs + [tab];
  }

  /** `parseTabs`: restores up to `max` tabs and adds their names to the shared set. */
  method ParseTabs(urls: Urls, values: seq<Json>, max: nat, ids: set<string>) returns (tabs: seq<Tab>, ids': set<string>)
    ensures tabs == RestoreTabs(urls, Slice(values, 0, max), ids)
    ensures ids' == ids + Names(tabs)
  {
    var slice := Slice(values, 0, max);
    tabs, ids' := [], ids;
    for i := 0 to |slice|
      invariant tabs == RestoreTabs(urls, slice[..i], ids)
      invariant ids' == ids + Names(tabs)
    {
      assert slice[..i + 1][..i] == slice[..i];
      var tab := RestoreTab(urls, slice[i]);
      if tab.Some? && tab.value.id !in ids' {
        NamesSnoc(tabs, tab.value);
        ids' := ids' + {tab.value.id};
        tabs := tabs + [tab.value];
      }
    }
    assert slice[..|slice|] == slice;
  }

  method Restore(urls: Urls, value: Json) returns (w: Option<Workspace>)
    ensures w == RestoreWorkspace(urls, value)
  {
    hide RestoreTabs, HasId;
    if !value.JObject? || Field(value.fields, Version) != JInt(1) || !Field(value.fields, Tabs).JArray? {
      return None;
    }
    var tabs, ids := ParseTabs(urls, Field(value.fields, Tabs).items, MAX_BROWSER_TABS, {});
    if tabs == [] {
      return None;
    }
    var stored := Field(value.fields, RecentlyClosed);
    var latest := if stored.JArray? then Latest(stored.items, MAX_BROWSER_CLOSED_TABS) else [];
    var closed;
    closed, ids := ParseTabs(urls, latest, MAX_BROWSER_CLOSED_TABS, ids);
    assert Slice(latest, 0, MAX_BROWSER_CLOSED_TABS) == latest && {} + Names(tabs) == Names(tabs);
    var active := Field(value.fields, ActiveTabId);
    w := Some(Workspace(tabs, if active.JString? && HasId(tabs, active.text) then active.text else tabs[0].id, closed));
  }

  // ----- What is restored is valid -----------------------------------------

  /** Dropping entries keeps the chosen one under the number of kept ones before it. */
  lemma {:induction false} KeptIndex(urls: Urls, entries: seq<Json>, i: nat)
    requires i < |entries| && Persistable(urls, entries[i]).Some?
    ensures
      var at := |Kept(urls, entries[..i])|;
      at < |Kept(urls, entries)| && Kept(urls, entries)[at] == Persistable(urls, entries[i]).value
  {
    hide Persistable;
    var n := |entries| - 1;
    if i < n {
      KeptIndex(urls, entries[..n], i);
      assert entries[..n][..i] == entries[..i];
      assert entries[..n][i] == entries[i];
    }
  }

  lemma SliceAround(entries: seq<Json>, index: nat, start: nat)
    requires start <= index < |entries| && index - start < MAX_BROWSER_HISTORY
    ensures
      var slice := Slice(entries, start, start + MAX_BROWSER_HISTORY);
      && index - start < |slice| <= MAX_BROWSER_HISTORY && slice[index - start] == entries[index]
      && Slice(slice, 0, index - start) == slice[..index - start]
  {
  }

  lemma RestoredTrailOk(urls: Urls, url: string, entries: seq<Json>, index: int)
    requires url != ""
    ensures
      var trail := RestoreTrail(urls, url, entries, index);
      && 0 <= trail.at < |trail.entries| <= MAX_BROWSER_HISTORY
      && trail.entries[trail.at] == url && "" !in trail.entries
  {
    hide Kept, Slice, Persistable;
    if 0 <= index < |entries| && Persistable(urls, entries[index]) == Some(url) {
      var start := if index - MAX_BROWSER_HISTORY + 1 > 0 then index - MAX_BROWSER_HISTORY + 1 else 0;
      SliceAround(entries, index, start);
      KeptIndex(urls, Slice(entries, start, start + MAX_BROWSER_HISTORY), index - start);
    }
  }

  lemma RestoredTabOk(urls: Urls, value: Json)
    ensures
      var tab := RestoreTab(urls, value);
      tab.Some? ==> TabOk(tab.value) && IsTabId(tab.value.id)
  {
    if value.JObject? {
      var stored := Field(value.fields, History);
      var at := Field(value.fields, HistoryIndex);
      var url := Persistable(urls, Field(value.fields, Url));
      if url.Some? {
        RestoredTrailOk(urls, url.value, if stored.JArray? then stored.items else [], if at.JInt? then at.n else -1);
      }
      hide RestoreTrail, IsTabId;
    }
  }

  lemma AddedTab(before: seq<Tab>, tab: Tab, ids: set<string>)
    requires UniqueIds(before) && AllOk(before) && Names(before) !! ids
    requires TabOk(tab) && tab.id !in ids + Names(before)
    ensures UniqueIds(before + [tab]) && AllOk(before + [tab]) && Names(before + [tab]) !! ids
  {
    hide TabOk;
    NamesSnoc(before, tab);
    assert forall i :: 0 <= i < |before| ==> before[i] in before;
  }

  lemma {:induction false} RestoredTabsOk(urls: Urls, values: seq<Json>, ids: set<string>)
    ensures
      var tabs := RestoreTabs(urls, values, ids);
      |tabs| <= |values| && UniqueIds(tabs) && AllOk(tabs) && Names(tabs) !! ids
  {
    if values != [] {
      hide RestoreTab, TabOk, UniqueIds, AllOk, Names;
      var n := |values| - 1;
      RestoredTabsOk(urls, values[..n], ids);
      RestoredTabOk(urls, values[n]);
      var before := RestoreTabs(urls, values[..n], ids);
      var tab := RestoreTab(urls, values[n]);
      if tab.Some? && tab.value.id !in ids + Names(before) {
        AddedTab(before, tab.value, ids);
      }
    }
  }

  /** From any stored value: nothing, or a valid workspace. */
  lemma RestoredIsValid(urls: Urls, value: Json)
    ensures
      var w := RestoreWorkspace(urls, value);
      w.Some? ==> Valid(w.value) && Names(w.value.tabs) !! Names(w.value.recentlyClosed)
  {
    var w := RestoreWorkspace(urls, value);
    if w.Some? {
      RestoredTabsOk(urls, Slice(Field(value.fields, Tabs).items, 0, MAX_BROWSER_TABS), {});
      var stored := Field(value.fields, RecentlyClosed);
      RestoredTabsOk(urls, if stored.JArray? then Latest(stored.items, MAX_BROWSER_CLOSED_TABS) else [], Names(w.value.tabs));
      hide RestoreTabs, TabOk, UniqueIds;
      assert w.value.tabs[0].id == w.value.tabs[0].id;
    }
  }

  // ----- Restoring what was restored ---------------------------------------

  function TabToJson(tab: Tab): Json {
    JObject(map[
      Id := JString(tab.id), Url := JString(tab.url), PageTitle := JString(tab.title),
      History := JArray(HistoryToJson(tab.history)),
      HistoryIndex := JInt(tab.historyIndex)])
  }

  function TabsToJson(tabs: seq<Tab>): seq<Json> {
    seq(|tabs|, i requires 0 <= i < |tabs| => TabToJson(tabs[i]))
  }

  function ToJson(w: Workspace): Json {
    JObject(map[
      Version := JInt(1), Tabs := JArray(TabsToJson(w.tabs)), ActiveTabId := JString(w.activeTabId),
      RecentlyClosed := JArray(TabsToJson(w.recentlyClosed))])
  }

  /** The address is kept as it is. */
  predicate IsKept(urls: Urls, address: string) {
    PersistableUrl(urls, address) == Some(address)
  }

  /** Everything in the tab survives storage. */
  predicate IsStorable(urls: Urls, tab: Tab) {
    && TabOk(tab) && IsTabId(tab.id) && |tab.title| <= MAX_BROWSER_TITLE_LENGTH
    && (tab.url == "" ==> tab.title == "")
    && (forall i :: 0 <= i < |tab.history| ==> IsKept(urls, tab.history[i]))
  }

  predicate AllStorable(urls: Urls, tabs: seq<Tab>) {
    forall i :: 0 <= i < |tabs| ==> IsStorable(urls, tabs[i])
  }

  function HistoryToJson(history: seq<string>): (entries: seq<Json>)
    ensures |entries| == |history| && forall i :: 0 <= i < |history| ==> entries[i] == JString(history[i])
  {
    seq(|history|, i requires 0 <= i < |history| => JString(history[i]))
  }

  lemma {:induction false} KeptAll(urls: Urls, history: seq<string>, n: nat)
    requires n <= |history| && forall i :: 0 <= i < |history| ==> IsKept(urls, history[i])
    ensures Kept(urls, HistoryToJson(history)[..n]) == history[..n]
  {
    if n > 0 {
      KeptAll(urls, history, n - 1);
      assert HistoryToJson(history)[..n][..n - 1] == HistoryToJson(history)[..n - 1];
      assert history[..n] == history[..n - 1] + [history[n - 1]];
    }
  }

  lemma SliceFromStart<T>(s: seq<T>, to: nat)
    ensures Slice(s, 0, to) == if to < |s| then s[..to] else s
  {
  }

  /** The restored trail of at most the kept number of entries, when its current entry is the address. */
  lemma WholeTrail(urls: Urls, url: string, entries: seq<Json>, index: nat)
    requires index < |entries| <= MAX_BROWSER_HISTORY && Persistable(urls, entries[index]) == Some(url)
    ensures RestoreTrail(urls, url, entries, index) == Trail(Kept(urls, entries), |Kept(urls, entries[..index])|)
  {
    hide Kept, Persistable;
    SliceFromStart(entries, MAX_BROWSER_HISTORY);
    SliceFromStart(entries, index);
    hide Slice;
  }

  lemma {:induction false} TrailRoundTrip(urls: Urls, tab: Tab)
    requires IsStorable(urls, tab) && tab.url != ""
    ensures RestoreTrail(urls, tab.url, HistoryToJson(tab.history), tab.historyIndex) == Trail(tab.history, tab.historyIndex)
  {
    var entries := HistoryToJson(tab.history);
    assert IsKept(urls, tab.history[tab.historyIndex]) && 0 <= tab.historyIndex < |entries| <= MAX_BROWSER_HISTORY;
    assert Persistable(urls, entries[tab.historyIndex]) == Some(tab.url);
    assert forall i :: 0 <= i < |tab.history| ==> IsKept(urls, tab.history[i]);
    hide *;
    KeptAll(urls, tab.history, |tab.history|);
    KeptAll(urls, tab.history, tab.historyIndex);
    assert entries[..|entries|] == entries && tab.history[..|tab.history|] == tab.history;
    WholeTrail(urls, tab.url, entries, tab.historyIndex);
  }

  lemma TabFields(tab: Tab)
    ensures
      var fields := TabToJson(tab).fields;
      && Field(fields, Id) == JString(tab.id) && Field(fields, Url) == JString(tab.url)
      && Field(fields, PageTitle) == JString(tab.title)
      && Field(fields, History) == JArray(HistoryToJson(tab.history))
      && Field(fields, HistoryIndex) == JInt(tab.historyIndex)
  {
    hide HistoryToJson;
  }

  /** A storable tab comes back from storage as it went in. */
  lemma TabRoundTrip(urls: Urls, tab: Tab)
    requires PersistableUrl(urls, "").None? && IsStorable(urls, tab)
    ensures RestoreTab(urls, TabToJson(tab)) == Some(tab)
  {
    TabFields(tab);
    if tab.url != "" {
      TrailRoundTrip(urls, tab);
      assert IsKept(urls, tab.history[tab.historyIndex]);
    }
    assert TabToJson(tab).JObject?;
    assert IsTabId(tab.id) && |tab.title| <= MAX_BROWSER_TITLE_LENGTH;
    hide TabToJson, HistoryToJson, RestoreTrail, Field, IsTabId, PersistableUrl;
  }

  /** When nothing is dropped, every entry was kept. */
  lemma {:induction false} KeptWhole(urls: Urls, entries: seq<Json>)
    requires |Kept(urls, entries)| == |entries|
    ensures forall i :: 0 <= i < |entries| ==> Persistable(urls, entries[i]) == Some(Kept(urls, entries)[i])
  {
    if entries != [] {
      KeptWhole(urls, entries[..|entries| - 1]);
    }
  }

  lemma TrailIsKept(urls: Urls, tab: Tab)
    requires TabOk(tab) && tab.url != ""
    requires RestoreTrail(urls, tab.url, HistoryToJson(tab.history), tab.historyIndex) == Trail(tab.history, tab.historyIndex)
    requires IsKept(urls, tab.url)
    ensures forall i :: 0 <= i < |tab.history| ==> IsKept(urls, tab.history[i])
  {
    var entries := HistoryToJson(tab.history);
    assert Persistable(urls, entries[tab.historyIndex]) == Some(tab.url);
    assert Slice(entries, 0, MAX_BROWSER_HISTORY) == entries;
    assert Kept(urls, entries) == tab.history;
    hide Kept, RestoreTrail, Slice, HistoryToJson;
    KeptWhole(urls, entries);
    forall i | 0 <= i < |tab.history|
      ensures IsKept(urls, tab.history[i])
    {
      assert Persistable(urls, entries[i]) == Some(tab.history[i]);
    }
  }

  /** Only a storable tab comes back as it went in. */
  lemma ReturnedIsStorable(urls: Urls, tab: Tab)
    requires TabOk(tab) && RestoreTab(urls, TabToJson(tab)) == Some(tab)
    ensures IsStorable(urls, tab)
  {
    TabFields(tab);
    RestoredTabOk(urls, TabToJson(tab));
    assert TabToJson(tab).JObject?;
    assert |Title(Field(TabToJson(tab).fields, PageTitle))| <= MAX_BROWSER_TITLE_LENGTH;
    hide TabToJson, HistoryToJson, RestoreTrail, Field, IsTabId, PersistableUrl, Title;
    if tab.url != "" {
      TrailIsKept(urls, tab);
    }
  }

  lemma TabsToJsonSnoc(tabs: seq<Tab>, tab: Tab)
    ensures TabsToJson(tabs + [tab]) == TabsToJson(tabs) + [TabToJson(tab)]
  {
    hide TabToJson;
  }

  lemma RestoreTabsSnoc(urls: Urls, values: seq<Json>, value: Json, ids: set<string>)
    ensures RestoreTabs(urls, values + [value], ids) ==
      var before := RestoreTabs(urls, values, ids);
      var tab := RestoreTab(urls, value);
      before + if tab.Some? && tab.value.id !in ids + Names(before) then [tab.value] else []
  {
    assert (values + [value])[..|values|] == values;
    hide RestoreTab;
  }

  lemma {:induction false} NextTabRoundTrip(urls: Urls, tabs: seq<Tab>, tab: Tab, ids: set<string>)
    requires PersistableUrl(urls, "").None? && IsStorable(urls, tab)
    ensures RestoreTabs(urls, TabsToJson(tabs + [tab]), ids) ==
      var before := RestoreTabs(urls, TabsToJson(tabs), ids);
      before + if tab.id !in ids + Names(before) then [tab] else []
  {
    hide *;
    TabRoundTrip(urls, tab);
    TabsToJsonSnoc(tabs, tab);
    RestoreTabsSnoc(urls, TabsToJson(tabs), TabToJson(tab), ids);
  }

  lemma {:induction false} TabsRoundTrip(urls: Urls, tabs: seq<Tab>, ids: set<string>)
    requires PersistableUrl(urls, "").None? && UniqueIds(tabs) && Names(tabs) !! ids && AllStorable(urls, tabs)
    ensures RestoreTabs(urls, TabsToJson(tabs), ids) == tabs
  {
    if tabs != [] {
      hide RestoreTabs, TabsToJson, IsStorable, PersistableUrl;
      var n := |tabs| - 1;
      assert tabs == tabs[..n] + [tabs[n]];
      NamesSnoc(tabs[..n], tabs[n]);
      assert tabs[n].id !in Names(tabs[..n]);
      TabsRoundTrip(urls, tabs[..n], ids);
      NextTabRoundTrip(urls, tabs[..n], tabs[n], ids);
    }
  }

  lemma {:induction false} NoMoreTabs(urls: Urls, values: seq<Json>, ids: set<string>)
    ensures |RestoreTabs(urls, values, ids)| <= |values|
  {
    if values != [] {
      hide RestoreTab;
      NoMoreTabs(urls, values[..|values| - 1], ids);
    }
  }

  /** When every tab comes back, each one came back by itself. */
  lemma {:induction false} ReturnedAreStorable(urls: Urls, tabs: seq<Tab>, ids: set<string>)
    requires AllOk(tabs) && RestoreTabs(urls, TabsToJson(tabs), ids) == tabs
    ensures AllStorable(urls, tabs)
  {
    if tabs != [] {
      var n := |tabs| - 1;
      var init, last := tabs[..n], tabs[n];
      assert tabs == init + [last];
      TabsToJsonSnoc(init, last);
      RestoreTabsSnoc(urls, TabsToJson(init), TabToJson(last), ids);
      NoMoreTabs(urls, TabsToJson(init), ids);
      assert |TabsToJson(init)| == n && AllOk(init) && TabOk(last);
      hide RestoreTabs, TabsToJson, TabToJson, IsStorable, RestoreTab, Names, TabOk;
      var before := RestoreTabs(urls, TabsToJson(init), ids);
      assert |before| == n;
      assert before == init && RestoreTab(urls, TabToJson(last)) == Some(last);
      ReturnedAreStorable(urls, init, ids);
      ReturnedIsStorable(urls, last);
    }
  }

  lemma WorkspaceFields(w: Workspace)
    ensures
      var fields := ToJson(w).fields;
      && Field(fields, Version) == JInt(1) && Field(fields, Tabs) == JArray(TabsToJson(w.tabs))
      && Field(fields, ActiveTabId) == JString(w.activeTabId)
      && Field(fields, RecentlyClosed) == JArray(TabsToJson(w.recentlyClosed))
  {
    hide TabsToJson;
  }

  /** Of a valid workspace nothing is cut off before its tabs are restored. */
  lemma RestoredTabs(urls: Urls, w: Workspace)
    requires Valid(w)
    ensures
      var tabs := RestoreTabs(urls, TabsToJson(w.tabs), {});
      RestoreWorkspace(urls, ToJson(w)) ==
        if tabs == [] then None
        else Some(Workspace(tabs, if HasId(tabs, w.activeTabId) then w.activeTabId else tabs[0].id,
                            RestoreTabs(urls, TabsToJson(w.recentlyClosed), Names(tabs))))
  {
    var tabs, closed := TabsToJson(w.tabs), TabsToJson(w.recentlyClosed);
    WorkspaceFields(w);
    assert Slice(tabs, 0, MAX_BROWSER_TABS) == tabs;
    assert Latest(closed, MAX_BROWSER_CLOSED_TABS) == closed;
    assert ToJson(w).JObject?;
    hide RestoreTabs, TabsToJson, Names, ToJson, Field, Valid, HasId, Slice, Latest;
  }

  lemma WorkspaceRoundTrip(urls: Urls, w: Workspace)
    requires PersistableUrl(urls, "").None? && Valid(w) && Names(w.tabs) !! Names(w.recentlyClosed)
    requires AllStorable(urls, w.tabs) && AllStorable(urls, w.recentlyClosed)
    ensures RestoreWorkspace(urls, ToJson(w)) == Some(w)
  {
    RestoredTabs(urls, w);
    TabsRoundTrip(urls, w.tabs, {});
    TabsRoundTrip(urls, w.recentlyClosed, Names(w.tabs));
    assert HasId(w.tabs, w.activeTabId) && w.tabs != [];
    hide *;
  }

  /** Storage gives back exactly the workspaces that hold only what storage may hold. */
  lemma {:induction false} WriteThenRead(urls: Urls, w: Workspace)
    requires PersistableUrl(urls, "").None? && Valid(w)
    ensures RestoreWorkspace(urls, ToJson(w)) == Some(w) <==>
      Names(w.tabs) !! Names(w.recentlyClosed) && AllStorable(urls, w.tabs) && AllStorable(urls, w.recentlyClosed)
  {
    assert AllOk(w.tabs) && AllOk(w.recentlyClosed);
    hide *;
    RestoredTabs(urls, w);
    if RestoreWorkspace(urls, ToJson(w)) == Some(w) {
      RestoredIsValid(urls, ToJson(w));
      ReturnedAreStorable(urls, w.tabs, {});
      ReturnedAreStorable(urls, w.recentlyClosed, Names(w.tabs));
    } else if Names(w.tabs) !! Names(w.recentlyClosed) && AllStorable(urls, w.tabs) && AllStorable(urls, w.recentlyClosed) {
      WorkspaceRoundTrip(urls, w);
    }
  }

  // ----- Restoring what was restored ---------------------------------------

  /** Parsing the canonical form of an address gives that address again, and the empty string is none. */
  ghost predicate Canonical(urls: Urls) {
    urls.parse("").None? && forall x: string :: urls.parse(x).Some? ==> urls.parse(urls.parse(x).value.href) == urls.parse(x)
  }

  predicate AllShort(addresses: seq<string>) {
    forall i :: 0 <= i < |addresses| ==> |addresses[i]| <= MAX_BROWSER_URL_LENGTH
  }

  /** Every address the tabs keep may be read again. */
  predicate ShortTabs(tabs: seq<Tab>) {
    forall i :: 0 <= i < |tabs| ==> AllShort(tabs[i].history)
  }

  /** What was kept once is kept again if and only if it is short enough to be read. */
  lemma KeptAgain(urls: Urls, value: string)
    requires Canonical(urls) && PersistableUrl(urls, value).Some?
    ensures
      var address := PersistableUrl(urls, value).value;
      IsKept(urls, address) <==> |address| <= MAX_BROWSER_URL_LENGTH
  {
  }

  /** Addresses that storage gave out. */
  ghost predicate AllRead(urls: Urls, addresses: seq<string>) {
    forall i :: 0 <= i < |addresses| ==> exists x: string :: PersistableUrl(urls, x) == Some(addresses[i])
  }

  lemma OneMoreIsRead(urls: Urls, addresses: seq<string>, x: string)
    requires AllRead(urls, addresses) && PersistableUrl(urls, x).Some?
    ensures AllRead(urls, addresses + [PersistableUrl(urls, x).value])
  {
    hide PersistableUrl;
  }

  lemma {:induction false} KeptAreRead(urls: Urls, entries: seq<Json>)
    ensures AllRead(urls, Kept(urls, entries))
  {
    if entries != [] {
      var n := |entries| - 1;
      KeptAreRead(urls, entries[..n]);
      if Persistable(urls, entries[n]).Some? {
        OneMoreIsRead(urls, Kept(urls, entries[..n]), entries[n].text);
      } else {
        assert Kept(urls, entries) == Kept(urls, entries[..n]);
      }
    }
  }

  lemma TrailIsRead(urls: Urls, url: string, entries: seq<Json>, index: int)
    requires AllRead(urls, [url])
    ensures AllRead(urls, RestoreTrail(urls, url, entries, index).entries)
  {
    hide Kept, Slice;
    var start := if index - MAX_BROWSER_HISTORY + 1 > 0 then index - MAX_BROWSER_HISTORY + 1 else 0;
    KeptAreRead(urls, Slice(entries, start, start + MAX_BROWSER_HISTORY));
  }

  lemma RestoredTabIsRead(urls: Urls, value: Json)
    ensures
      var tab := RestoreTab(urls, value);
      tab.Some? ==>
        && TabOk(tab.value) && IsTabId(tab.value.id) && |tab.value.title| <= MAX_BROWSER_TITLE_LENGTH
        && (tab.value.url == "" ==> tab.value.title == "") && AllRead(urls, tab.value.history)
  {
    hide RestoreTrail, TabOk, IsTabId, PersistableUrl, AllRead;
    RestoredTabOk(urls, value);
    if value.JObject? {
      var address := Field(value.fields, Url);
      var stored := Field(value.fields, History);
      var at := Field(value.fields, HistoryIndex);
      var url := Persistable(urls, address);
      if url.Some? {
        OneIsRead(urls, address.text);
        TrailIsRead(urls, url.value, if stored.JArray? then stored.items else [], if at.JInt? then at.n else -1);
      } else {
        NoneIsRead(urls);
      }
    }
  }

  lemma OneIsRead(urls: Urls, x: string)
    requires PersistableUrl(urls, x).Some?
    ensures AllRead(urls, [PersistableUrl(urls, x).value]) && PersistableUrl(urls, x).value != ""
  {
  }

  lemma NoneIsRead(urls: Urls)
    ensures AllRead(urls, [])
  {
  }

  lemma ReadIsStorable(urls: Urls, addresses: seq<string>)
    requires Canonical(urls) && AllRead(urls, addresses)
    ensures AllShort(addresses) <==> forall i :: 0 <= i < |addresses| ==> IsKept(urls, addresses[i])
  {
    hide Canonical, PersistableUrl;
    forall i | 0 <= i < |addresses|
      ensures IsKept(urls, addresses[i]) <==> |addresses[i]| <= MAX_BROWSER_URL_LENGTH
    {
      var x: string :| PersistableUrl(urls, x) == Some(addresses[i]);
      KeptAgain(urls, x);
    }
  }

  lemma {:induction false} RestoredAreStorable(urls: Urls, values: seq<Json>, ids: set<string>)
    requires Canonical(urls)
    ensures AllStorable(urls, RestoreTabs(urls, values, ids)) <==> ShortTabs(RestoreTabs(urls, values, ids))
  {
    if values != [] {
      var n := |values| - 1;
      assert values == values[..n] + [values[n]];
      hide *;
      var before, tab := RestoreTabs(urls, values[..n], ids), RestoreTab(urls, values[n]);
      RestoredAreStorable(urls, values[..n], ids);
      RestoreTabsSnoc(urls, values[..n], values[n], ids);
      assert before + [] == before;
      if tab.Some? {
        RestoredIsStorable(urls, values[n]);
        StorableSnoc(urls, before, tab.value);
      }
    }
  }

  lemma RestoredIsStorable(urls: Urls, value: Json)
    requires Canonical(urls) && RestoreTab(urls, value).Some?
    ensures IsStorable(urls, RestoreTab(urls, value).value) <==> AllShort(RestoreTab(urls, value).value.history)
  {
    hide RestoreTab, TabOk, IsTabId, IsKept, AllShort, AllRead, Canonical;
    RestoredTabIsRead(urls, value);
    ReadIsStorable(urls, RestoreTab(urls, value).value.history);
  }

  lemma StorableSnoc(urls: Urls, tabs: seq<Tab>, tab: Tab)
    ensures AllStorable(urls, tabs + [tab]) <==> AllStorable(urls, tabs) && IsStorable(urls, tab)
    ensures ShortTabs(tabs + [tab]) <==> ShortTabs(tabs) && AllShort(tab.history)
  {
    hide IsStorable, AllShort;
    var all := tabs + [tab];
    assert all[|tabs|] == tab && forall i :: 0 <= i < |tabs| ==> all[i] == tabs[i];
  }

  /** Restoring what was restored changes nothing if and only if every address it keeps is short enough to be read again. */
  lemma RestoreIsIdempotent(urls: Urls, value: Json)
    requires Canonical(urls) && RestoreWorkspace(urls, value).Some?
    ensures
      var w := RestoreWorkspace(urls, value).value;
      RestoreWorkspace(urls, ToJson(w)) == Some(w) <==> ShortTabs(w.tabs) && ShortTabs(w.recentlyClosed)
  {
    var w := RestoreWorkspace(urls, value).value;
    RestoredIsValid(urls, value);
    RestoredAreStorable(urls, Slice(Field(value.fields, Tabs).items, 0, MAX_BROWSER_TABS), {});
    var stored := Field(value.fields, RecentlyClosed);
    RestoredAreStorable(urls, if stored.JArray? then Latest(stored.items, MAX_BROWSER_CLOSED_TABS) else [], Names(w.tabs));
    assert PersistableUrl(urls, "").None?;
    hide RestoreTabs, AllStorable, ShortTabs, Names, ToJson, Valid;
    WriteThenRead(urls, w);
  }

  // ----- Where the promise stops -------------------------------------------

  /** A short address with a long canonical form is restored once, and lost the next time. */
  lemma LongAddressIsLost(urls: Urls, id: string, address: string)
    requires IsTabId(id) && PersistableUrl(urls, address).Some?
    requires |PersistableUrl(urls, address).value| > MAX_BROWSER_URL_LENGTH
    ensures
      var href := PersistableUrl(urls, address).value;
      var once := RestoreTab(urls, JObject(map[Id := JString(id), Url := JString(address)]));
      && once == Some(Tab(id, href, "", [href], 0))
      && RestoreTab(urls, TabToJson(once.value)) == Some(BlankTab(id))
  {
    var href := PersistableUrl(urls, address).value;
    TabFields(Tab(id, href, "", [href], 0));
    hide IsTabId;
  }

  // An address that grows: every accented letter takes six characters in canonical form.

  const SITE := "https://e.com/"

  function Escaped(s: string): string {
    if s == "" then "" else (if s[0] == '\U{00E9}' then "%C3%A9" else [s[0]]) + Escaped(s[1..])
  }

  const SAMPLE := Urls(_ => None, (x: string) => if SITE <= x then Some(Address(Escaped(x), false)) else None)

  function Accents(n: nat): string {
    if n == 0 then "" else "\U{00E9}" + Accents(n - 1)
  }

  lemma {:induction false} EscapedConcat(a: string, b: string)
    ensures Escaped(a + b) == Escaped(a) + Escaped(b)
  {
    if a == "" {
      assert a + b == b;
    } else {
      assert (a + b)[1..] == a[1..] + b;
      EscapedConcat(a[1..], b);
    }
  }

  lemma {:induction false} EscapedIsPlain(s: string)
    ensures '\U{00E9}' !in Escaped(s)
  {
    if s != "" {
      EscapedIsPlain(s[1..]);
    }
  }

  lemma {:induction false} PlainStays(s: string)
    requires '\U{00E9}' !in s
    ensures Escaped(s) == s
  {
    if s != "" {
      PlainStays(s[1..]);
      assert s == [s[0]] + s[1..];
    }
  }

  lemma {:induction false} AccentsGrow(n: nat)
    ensures |Accents(n)| == n && |Escaped(Accents(n))| == 6 * n
  {
    if n > 0 {
      AccentsGrow(n - 1);
      assert Accents(n)[1..] == Accents(n - 1);
    }
  }

  lemma SampleIsCanonical()
    ensures Canonical(SAMPLE)
  {
    forall x: string | SITE <= x
      ensures SITE <= Escaped(x) && Escaped(Escaped(x)) == Escaped(x)
    {
      var rest := x[|SITE|..];
      assert x == SITE + rest;
      hide Escaped;
      SiteIsPlain();
      EscapedConcat(SITE, rest);
      EscapedIsPlain(x);
      PlainStays(Escaped(x));
    }
  }

  lemma SampleReads(address: string)
    requires SITE <= address && |address| <= MAX_BROWSER_URL_LENGTH && Escaped(address) != ""
    ensures PersistableUrl(SAMPLE, address) == Some(Escaped(address))
  {
    hide Escaped;
  }

  lemma LongSample(n: nat)
    requires |SITE| + n <= MAX_BROWSER_URL_LENGTH < |SITE| + 6 * n
    ensures
      var address := SITE + Accents(n);
      && |address| <= MAX_BROWSER_URL_LENGTH && PersistableUrl(SAMPLE, address).Some?
      && |PersistableUrl(SAMPLE, address).value| > MAX_BROWSER_URL_LENGTH
  {
    hide *;
    var site, rest := SITE, Accents(n);
    SiteIsPlain();
    AccentsGrow(n);
    EscapedConcat(site, rest);
    assert Escaped(site + rest) == site + Escaped(rest);
    assert site <= site + rest;
    SampleReads(site + rest);
  }

  lemma SiteIsPlain()
    ensures |SITE| == 14 && '\U{00E9}' !in SITE && Escaped(SITE) == SITE
  {
    assert '\U{00E9}' !in SITE;
    PlainStays(SITE);
    hide Escaped;
  }

  /** A parser that is canonical, and an address of 1,014 characters that is restored once and then lost. */
  lemma LongAddressExample(id: string)
    requires IsTabId(id)
    ensures
      var address := SITE + Accents(1000);
      var once := RestoreTab(SAMPLE, JObject(map[Id := JString(id), Url := JString(address)]));
      && Canonical(SAMPLE) && |address| <= MAX_BROWSER_URL_LENGTH
      && once.Some? && |once.value.url| > MAX_BROWSER_URL_LENGTH
      && RestoreTab(SAMPLE, TabToJson(once.value)) == Some(BlankTab(id))
  {
    assert 14 + 1000 <= MAX_BROWSER_URL_LENGTH < 14 + 6000;
    hide *;
    SiteIsPlain();
    SampleIsCanonical();
    LongSample(1000);
    LongAddressIsLost(SAMPLE, id, SITE + Accents(1000));
  }

  // ----- What restoring gives ----------------------------------------------

  /** Some value gives a tab of that name. */
  ghost predicate GivesName(urls: Urls, values: seq<Json>, name: string) {
    exists v: nat :: v < |values| && GivesNameAt(urls, values[v], name)
  }

  predicate GivesNameAt(urls: Urls, value: Json, name: string) {
    RestoreTab(urls, value).Some? && RestoreTab(urls, value).value.id == name
  }

  lemma GivesNameSnoc(urls: Urls, values: seq<Json>, last: Json, name: string)
    ensures GivesName(urls, values + [last], name) <==> GivesName(urls, values, name) || GivesNameAt(urls, last, name)
  {
    hide GivesNameAt;
    var all := values + [last];
    assert all[|values|] == last;
    if v: nat :| v < |values| && GivesNameAt(urls, values[v], name) {
      assert all[v] == values[v];
    }
  }

  /** The names restored are the names given, but for those that are taken. */
  lemma {:induction false} NamesAreGiven(urls: Urls, values: seq<Json>, ids: set<string>, name: string)
    ensures name in Names(RestoreTabs(urls, values, ids)) <==> name !in ids && GivesName(urls, values, name)
  {
    if values != [] {
      var n := |values| - 1;
      var init, last := values[..n], values[n];
      assert values == init + [last];
      hide RestoreTab, RestoreTabs, GivesName, Names;
      NamesAreGiven(urls, init, ids, name);
      GivesNameSnoc(urls, init, last, name);
      RestoreTabsSnoc(urls, init, last, ids);
      var before := RestoreTabs(urls, init, ids);
      assert before + [] == before;
      if RestoreTab(urls, last).Some? {
        NamesSnoc(before, RestoreTab(urls, last).value);
      }
    }
  }

  /** The value at `v` gives the tab, under a name that is not taken and that no value before it gives. */
  ghost predicate GivesTab(urls: Urls, values: seq<Json>, ids: set<string>, v: nat, tab: Tab) {
    v < |values| && RestoreTab(urls, values[v]) == Some(tab) && tab.id !in ids && !GivesName(urls, values[..v], tab.id)
  }

  /** Every name is restored once, from the first value that gives it. */
  lemma {:induction false} RestoredAreFirst(urls: Urls, values: seq<Json>, ids: set<string>, tab: Tab)
    ensures tab in RestoreTabs(urls, values, ids) <==> exists v: nat :: GivesTab(urls, values, ids, v, tab)
  {
    hide RestoreTab, GivesName, Names;
    if values != [] {
      var n := |values| - 1;
      var init, last := values[..n], values[n];
      assert values == init + [last];
      RestoredAreFirst(urls, init, ids, tab);
      NamesAreGiven(urls, init, ids, tab.id);
      RestoreTabsSnoc(urls, init, last, ids);
      hide RestoreTabs;
      assert GivesTab(urls, values, ids, n, tab) <==>
        RestoreTab(urls, last) == Some(tab) && tab.id !in ids + Names(RestoreTabs(urls, init, ids));
      forall v: nat | v < n
        ensures GivesTab(urls, values, ids, v, tab) <==> GivesTab(urls, init, ids, v, tab)
      {
        assert values[..v] == init[..v];
      }
    }
  }

  /** The stored active tab is shown if it was restored, and the first tab otherwise. */
  lemma RestoredShows(urls: Urls, value: Json)
    requires RestoreWorkspace(urls, value).Some?
    ensures
      var w := RestoreWorkspace(urls, value).value;
      w.tabs != [] && w.activeTabId ==
        if exists i :: 0 <= i < |w.tabs| && Field(value.fields, ActiveTabId) == JString(w.tabs[i].id)
        then Field(value.fields, ActiveTabId).text else w.tabs[0].id
  {
    hide RestoreTabs, Slice, Latest;
  }

  /** Addresses of which none is the canonical form of a private one. */
  ghost predicate NonePrivate(urls: Urls, addresses: seq<string>) {
    forall i, x: string :: 0 <= i < |addresses| && urls.parse(x).Some? && urls.parse(x).value.isPrivate ==>
      urls.parse(x).value.href != addresses[i]
  }

  lemma ReadIsPublic(urls: Urls, addresses: seq<string>)
    requires Canonical(urls) && AllRead(urls, addresses)
    ensures NonePrivate(urls, addresses)
  {
    forall i, x: string | 0 <= i < |addresses| && urls.parse(x).Some? && urls.parse(x).value.isPrivate
      ensures urls.parse(x).value.href != addresses[i]
    {
      var y: string :| PersistableUrl(urls, y) == Some(addresses[i]);
      assert urls.parse(y).value.href == addresses[i] && !urls.parse(y).value.isPrivate;
      assert urls.parse(urls.parse(y).value.href) == urls.parse(y);
      assert urls.parse(urls.parse(x).value.href) == urls.parse(x);
    }
  }

  /** Nothing a restored workspace keeps, open or closed, is the address of a page with credentials or a secret in it. */
  lemma RestoredIsPublic(urls: Urls, value: Json, tab: Tab)
    requires Canonical(urls) && RestoreWorkspace(urls, value).Some?
    requires tab in RestoreWorkspace(urls, value).value.tabs + RestoreWorkspace(urls, value).value.recentlyClosed
    ensures NonePrivate(urls, tab.history) && (tab.url != "" ==> tab.url in tab.history)
  {
    var w := RestoreWorkspace(urls, value).value;
    var stored := Field(value.fields, RecentlyClosed);
    var open, closed := Slice(Field(value.fields, Tabs).items, 0, MAX_BROWSER_TABS),
      if stored.JArray? then Latest(stored.items, MAX_BROWSER_CLOSED_TABS) else [];
    assert w.tabs == RestoreTabs(urls, open, {}) && w.recentlyClosed == RestoreTabs(urls, closed, Names(w.tabs));
    hide RestoreTabs, RestoreTab, Names, Slice, Latest, RestoreWorkspace, Canonical, NonePrivate, GivesName;
    RestoredAreFirst(urls, open, {}, tab);
    RestoredAreFirst(urls, closed, Names(w.tabs), tab);
    var given: Json;
    if tab in w.tabs {
      var v: nat :| GivesTab(urls, open, {}, v, tab);
      given := open[v];
    } else {
      var v: nat :| GivesTab(urls, closed, Names(w.tabs), v, tab);
      given := closed[v];
    }
    RestoredTabIsRead(urls, given);
    ReadIsPublic(urls, tab.history);
  }

  /** The list a field holds, if it holds one. */
  function Listed(fields: map<Name, Json>, name: Name): seq<Json> {
    if name in fields && fields[name].JArray? then fields[name].items else []
  }

  /**
   * The first 20 stored tabs are read for open ones, and the last 10 stored as
   * closed for closed ones under other names. Nothing is restored unless the
   * version is 1 and some open tab is.
   */
  lemma RestoredWorkspaceIs(urls: Urls, value: Json, tab: Tab)
    ensures RestoreWorkspace(urls, value).Some? ==>
      && value.JObject? && Version in value.fields && value.fields[Version] == JInt(1)
      && var stored, all := Listed(value.fields, Tabs), Listed(value.fields, RecentlyClosed);
         var open := if |stored| > 20 then stored[..20] else stored;
         var closed := if |all| > 10 then all[|all| - 10..] else all;
         var w := RestoreWorkspace(urls, value).value;
         && (tab in w.tabs <==> exists v: nat :: GivesTab(urls, open, {}, v, tab))
         && (tab in w.recentlyClosed <==> exists v: nat :: GivesTab(urls, closed, Names(w.tabs), v, tab))
    ensures value.JObject? && Version in value.fields && value.fields[Version] == JInt(1) && RestoreWorkspace(urls, value).None? ==>
      var stored := Listed(value.fields, Tabs);
      var open := if |stored| > 20 then stored[..20] else stored;
      forall v: nat :: !GivesTab(urls, open, {}, v, tab)
  {
    if value.JObject? {
      var stored, all := Listed(value.fields, Tabs), Listed(value.fields, RecentlyClosed);
      var open := if |stored| > 20 then stored[..20] else stored;
      var closed := if |all| > 10 then all[|all| - 10..] else all;
      assert Slice(stored, 0, MAX_BROWSER_TABS) == open && Latest(all, MAX_BROWSER_CLOSED_TABS) == closed;
      var tabs := RestoreTabs(urls, open, {});
      RestoredAreFirst(urls, open, {}, tab);
      RestoredAreFirst(urls, closed, Names(tabs), tab);
      hide RestoreTabs, RestoreTab, Names, Slice, Latest, GivesName, HasId;
    }
  }

  predicate NamesTab(value: Json) {
    && value.JObject? && Field(value.fields, Id).JString? && Field(value.fields, Url).JString?
    && var id := Field(value.fields, Id).text;
      0 < |id| <= 100 && forall c :: c in id ==> IsLetterOrDigit(c) || c in "_-"
  }

  predicate IsLetterOrDigit(c: char) {
    0x30 <= c as int <= 0x39 || 0x41 <= c as int <= 0x5A || 0x61 <= c as int <= 0x7A
  }

  /** A value gives a tab if and only if it is a record with an address and a name of 1 to 100 word characters; the tab has that name. */
  lemma TabIsReadIff(urls: Urls, value: Json)
    ensures RestoreTab(urls, value).Some? <==> NamesTab(value)
    ensures NamesTab(value) ==> RestoreTab(urls, value).value.id == Field(value.fields, Id).text
  {
    hide RestoreTrail;
    if value.JObject? && Field(value.fields, Id).JString? {
      var id := Field(value.fields, Id).text;
      assert forall i :: 0 <= i < |id| ==> id[i] in id;
    }
  }

  /** A page keeps its title, cut to 160 characters, and a blank tab has none. */
  lemma RestoredTitle(urls: Urls, value: Json)
    requires RestoreTab(urls, value).Some?
    ensures
      var tab, stored := RestoreTab(urls, value).value, Field(value.fields, PageTitle);
      tab.title ==
        if tab.url == "" || !stored.JString? then "" else if |stored.text| > 160 then stored.text[..160] else stored.text
  {
    hide RestoreTrail, IsTabId;
  }
}
