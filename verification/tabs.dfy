/** The "sort by use" tab tracking of the background script: the `tabs.onUpdated` and
    `tabs.onRemoved` handlers and the map from tab ids to the first URL each tab
    loaded (`tabInitialUrls`).

    A completed page is looked up by its first URL (before redirects) and then by its
    final URL; the bookmark found is the one handed to `moveBookmarkToTop`. */
module Tabs {
  import opened Common
  import opened Bookmarks
  import opened Lookup
  import opened FolderSort

  /** The pages the handler never tracks or looks up. */
  predicate IsInternal(url: string) {
    StartsWith(url, "chrome://") || StartsWith(url, "chrome-extension://")
  }

  /** `tabInitialUrls`. */
  type InitialUrls = map<int, string>

  /** Every URL recorded is a real, non-internal page address. */
  predicate WellFormed(m: InitialUrls) {
    forall t :: t in m ==> m[t] != "" && !IsInternal(m[t])
  }

  /** `m2` agrees with `m1` on every tab other than `tab`. */
  predicate OthersUnchanged(m1: InitialUrls, m2: InitialUrls, tab: int) {
    && (forall t :: t in m1 && t != tab ==> t in m2 && m2[t] == m1[t])
    && (forall t :: t in m2 && t != tab ==> t in m1)
  }

  /** The tab events the handlers receive, with the fields they read: the status of
      the change and the tab's current URL for an update. */
  datatype TabEvent =
    | Updated(tabId: int, status: Option<string>, url: Option<string>)
    | Removed(tabId: int)

  /** The map after an event, and the bookmark handed to `moveBookmarkToTop`. */
  datatype Handled = Handled(initialUrls: InitialUrls, used: Option<Node>)

  /** The "loading" half of `onUpdated`: the first non-internal URL of a tab is kept,
      later ones are ignored. */
  function Track(m: InitialUrls, tab: int, status: Option<string>, url: Option<string>): (r: InitialUrls)
    ensures WellFormed(m) ==> WellFormed(r)
    ensures OthersUnchanged(m, r, tab)
    ensures tab in m ==> tab in r && r[tab] == m[tab]
    ensures tab in r <==>
      tab in m || (status == Some("loading") && Truthy(url) && !IsInternal(url.value))
    ensures tab !in m && tab in r ==> r[tab] == url.value
  {
    if status == Some("loading") && Truthy(url) && !IsInternal(url.value) && tab !in m then
      m[tab := url.value]
    else m
  }

  /** Whether the "complete" half of `onUpdated` searches for a bookmark. */
  predicate LooksUp(settings: Settings, status: Option<string>, url: Option<string>) {
    status == Some("complete") && Truthy(url) && settings.sortByUse && !IsInternal(url.value)
  }

  /** `onUpdated(tabId, changeInfo, tab)` with `status` = `changeInfo.status` and
      `url` = `tab.url`; `settings` are the stored settings when the page completes. */
  function OnUpdated(settings: Settings, env: Env, m: InitialUrls, tab: int, status: Option<string>, url: Option<string>): (r: Handled)
    requires ContinueShrinks(env.parse, env.decode)
    ensures WellFormed(m) ==> WellFormed(r.initialUrls)
    ensures OthersUnchanged(m, r.initialUrls, tab)
    ensures LooksUp(settings, status, url) ==> tab !in r.initialUrls
    ensures !LooksUp(settings, status, url) ==> r.used.None? && r.initialUrls == Track(m, tab, status, url)
    ensures r.used.Some? ==> r.used.value in AllUrlBookmarks(env.tree) && HasUrl(r.used.value)
    ensures LooksUp(settings, status, url) ==>
      var initial := if tab in m then m[tab] else "";
      var viaInitial := if initial != "" && initial != url.value then FindBookmarkByUrl(env, initial) else None;
      r.used == (if viaInitial.Some? then viaInitial else FindBookmarkByUrl(env, url.value))
  {
    var tracked := Track(m, tab, status, url);
    if LooksUp(settings, status, url) then
      var initial := if tab in tracked then Some(tracked[tab]) else None;
      var viaInitial := if Truthy(initial) && initial.value != url.value then FindBookmarkByUrl(env, initial.value) else None;
      var used := if viaInitial.Some? then viaInitial else FindBookmarkByUrl(env, url.value);
      Handled(tracked - {tab}, used)
    else
      Handled(tracked, None)
  }

  /** `onRemoved(tabId)`. */
  function OnRemoved(m: InitialUrls, tab: int): (r: InitialUrls)
    ensures tab !in r
    ensures OthersUnchanged(m, r, tab)
    ensures WellFormed(m) ==> WellFormed(r)
  {
    m - {tab}
  }

  function Step(settings: Settings, env: Env, m: InitialUrls, e: TabEvent): Handled
    requires ContinueShrinks(env.parse, env.decode)
  {
    match e
    case Updated(tab, status, url) => OnUpdated(settings, env, m, tab, status, url)
    case Removed(tab) => Handled(OnRemoved(m, tab), None)
  }

  /** The map after a sequence of events. */
  function Run(settings: Settings, env: Env, m: InitialUrls, events: seq<TabEvent>): InitialUrls
    requires ContinueShrinks(env.parse, env.decode)
    decreases |events|
  {
    if |events| == 0 then m
    else Run(settings, env, Step(settings, env, m, events[0]).initialUrls, events[1..])
  }

  /** Starting from the empty map, only real page addresses are ever recorded. */
  lemma {:induction false} RunWellFormed(settings: Settings, env: Env, m: InitialUrls, events: seq<TabEvent>)
    requires ContinueShrinks(env.parse, env.decode)
    requires WellFormed(m)
    ensures WellFormed(Run(settings, env, m, events))
    decreases |events|
  {
    if |events| > 0 {
      RunWellFormed(settings, env, Step(settings, env, m, events[0]).initialUrls, events[1..]);
    }
  }

  /** The events that end the tracking of `tab`: its removal, and a completed page
      that the handler looks up. */
  predicate Ends(settings: Settings, e: TabEvent, tab: int) {
    e.tabId == tab && (e.Removed? || LooksUp(settings, e.status, e.url))
  }

  /** Until an event ends it, a tab's recorded URL is the first one it loaded: later
      loads, events of other tabs, and completions that are not looked up leave it
      alone. */
  lemma {:induction false} FirstUrlKept(settings: Settings, env: Env, m: InitialUrls, events: seq<TabEvent>, tab: int)
    requires ContinueShrinks(env.parse, env.decode)
    requires tab in m
    requires forall k :: 0 <= k < |events| ==> !Ends(settings, events[k], tab)
    ensures tab in Run(settings, env, m, events) && Run(settings, env, m, events)[tab] == m[tab]
    decreases |events|
  {
    if |events| > 0 {
      var next := Step(settings, env, m, events[0]).initialUrls;
      assert !Ends(settings, events[0], tab);
      assert tab in next && next[tab] == m[tab];
      assert forall k :: 0 <= k < |events[1..]| ==> events[1..][k] == events[k + 1];
      FirstUrlKept(settings, env, next, events[1..], tab);
    }
  }

  /** Once an event ends the tracking of a tab, the tab is no longer in the map. */
  lemma EndForgets(settings: Settings, env: Env, m: InitialUrls, e: TabEvent)
    requires ContinueShrinks(env.parse, env.decode)
    requires Ends(settings, e, e.tabId)
    ensures e.tabId !in Step(settings, env, m, e).initialUrls
  {
  }

  /** With "sort by use" off, a completed page does not end the tracking of its tab:
      the entry stays until the tab is closed. */
  lemma CompletionKeepsEntryWhenOff(settings: Settings, env: Env, m: InitialUrls, tab: int, url: string)
    requires ContinueShrinks(env.parse, env.decode)
    requires !settings.sortByUse && tab in m
    ensures var r := OnUpdated(settings, env, m, tab, Some("complete"), Some(url));
      tab in r.initialUrls && r.initialUrls[tab] == m[tab] && r.used.None?
  {
  }

  /** When the first URL of the tab finds a bookmark, that bookmark is used, even if
      the final URL is itself bookmarked. */
  lemma InitialUrlTakesPrecedence(settings: Settings, env: Env, m: InitialUrls, tab: int, url: string)
    requires ContinueShrinks(env.parse, env.decode)
    requires LooksUp(settings, Some("complete"), Some(url))
    requires tab in m && m[tab] != "" && m[tab] != url
    requires FindBookmarkByUrl(env, m[tab]).Some?
    ensures OnUpdated(settings, env, m, tab, Some("complete"), Some(url)).used == FindBookmarkByUrl(env, m[tab])
  {
  }
}
