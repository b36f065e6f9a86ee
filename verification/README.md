# BookmarkTidy in Dafny

A model of the logic of BookmarkTidy, a Chrome extension that tidies the user's bookmarks.

**Options page (`src/options.js`):**
- It finds duplicate bookmarks, with case-insensitive URL equality.
- It chooses which duplicates "Remove All Duplicates" deletes.
- It scans bookmarks for dead links, in batches of 20 that the user can stop.
- It classifies each probe's outcome.
- It groups the dead links by host.
- It rebuilds a bookmark's folder path for display.

**Background script (`src/background.js`):**
- It keeps every folder sorted: sub-folders first, by title, then links.
- It moves a bookmark the user has just visited to the top of its folder, right after the folders ("sort by use").
- To recognise the bookmark, it follows a tab from its first URL to its final one.
- It looks the URL up through a chain of rewrites:
  - normalisation;
  - www / no-www;
  - http / https;
  - login-redirect parameters;
  - a domain fallback.

Everything that touches the browser becomes data or a parameter:
- **The bookmark tree** is a value (`Bookmarks.Node`).
- **The URL parser** is a function `string -> Option<UrlRecord>` (`UrlRecords.Parser`). `None` stands for the `TypeError` of `new URL`.
- **`decodeURIComponent`** is a function `string -> Option<string>`.
- **`localeCompare`** is a comparison parameter (`FolderSort.Collation`). Its ordering laws are assumed only in the lemmas that need them.
- **A `fetch`** is represented by the outcome it settled to (`DeadLinks.FetchOutcome`).
- **The stop button** is a function from batch number to flag.
- **`chrome.bookmarks.move`** is given a meaning (`FolderSort.ApplyMove`). This lets the effect of the moves an operation issues be stated and proved.

Modules, one per file:

| module | file | models |
|---|---|---|
| `Common` | common.dfy | JavaScript truthiness, string predicates, `toLowerCase` on ASCII, number formatting, `filter` |
| `Bookmarks` | bookmarks.dfy | the bookmark tree, `getAllBookmarks`, `getBookmarkPath` |
| `Duplicates` | duplicates.dfy | `identifyDuplicates`, the id selection of `removeAllDuplicates` |
| `UrlRecords` | urlrecord.dfy | the parsed URL, `searchParams.get`, serialisation |
| `HostFilter` | hostfilter.dfy | the local/private-network filter of `checkLinks` |
| `DeadLinks` | deadlinks.dfy | `checkSingleLink`, `checkLinks`, `checkDeadLinks`, `groupDeadLinksByDomain` |
| `UrlHelpers` | urlhelpers.dfy | `normalizeUrl`, `extractDomain`, `extractContinueUrl`, the `replace` rewrites |
| `Lookup` | lookup.dfy | `findBookmarkByUrl` |
| `FolderSort` | foldersort.dfy | settings, `isBookmarksBarOrChild`, `sortFolderContents`, `moveBookmarkToTop`, the bookmark-event handlers |
| `Tabs` | tabs.dfy | `tabInitialUrls` and the `tabs.onUpdated` / `tabs.onRemoved` handlers |

## Model

| member | source | states |
|---|---|---|
| Bookmarks.Traverse | src/options.js:164-185 | The recursive traversal collects exactly the URL-bearing nodes of the forest in pre-order (parent before subtree, siblings in order). It also records an entry for every folder it passes, from the accumulator it was given. |
| Bookmarks.RecordFoldersKeys | src/options.js:167-173 | The folder map's keys are the ids it already had plus the ids of the URL-less nodes visited. |
| Bookmarks.RecordFoldersLookup | src/options.js:167-173 | With unique ids, every folder visited is found in the map under its id, with its own title and parent id. |
| Bookmarks.GetAllBookmarks | src/options.js:158-191 | The bookmark list is the URL nodes of the whole tree in pre-order. The folder map holds exactly the folders. With unique ids, it maps each folder id to that folder's title and parent. |
| Bookmarks.ShownAncestorsAreShown | src/options.js:530-536 | Every title on a path is non-empty and none is "Bookmarks bar", "Other bookmarks" or "Mobile bookmarks". |
| Bookmarks.ShownAncestorsFuel | src/options.js:530-537 | The path does not depend on the step bound once the parent chain has ended within it. This is why the unbounded loop can be modelled with a bound. |
| Bookmarks.GetBookmarkPath | src/options.js:520-540 | Without a folder map or a truthy parent id the path is "Root". Otherwise it is the shown titles of the parent chain, outermost first, joined by " → ", or "Root" when there are none. |
| Bookmarks.ExamplePath | src/options.js:520-540 | On a concrete tree (root, bar, "Work", "Projects", a bookmark), the flattening keeps the one bookmark, and its path is "Work", "Projects" with the bar's title left out. |
| Duplicates.FindGroup | src/options.js:211 | `duplicates.find` gives the first group whose lower-cased URL equals the key, or nothing when no group has it. |
| Duplicates.StepInv | src/options.js:197-219 | One iteration keeps the loop invariant. `urlMap` holds the first bookmark of every key seen. Each group holds exactly the occurrences of its key, in order. Groups have distinct keys and are ordered by when their second occurrence appeared. |
| Duplicates.IdentifyDuplicates | src/options.js:193-222 | There is a group for a lower-cased URL exactly when at least two URL bookmarks carry it. A group lists all of them in list order, and its `url` is the second one's original URL. Keys are distinct. Groups are ordered by the position of their second occurrence. |
| Duplicates.NoBookmarkInTwoGroups | src/options.js:201-218 | No bookmark belongs to two groups. |
| Duplicates.ExampleDuplicates | src/options.js:193-222 | On a concrete list, two bookmarks with the same URL form one group holding both in order, and a URL that appears once gives no group. |
| Duplicates.TailIds | src/options.js:567-569 | The ids removed from a group are those of its second to last members, in order. |
| Duplicates.IdsToRemove | src/options.js:563-570 | The list holds one id for every group member except each group's first. |
| Duplicates.IdsToRemoveMeaning | src/options.js:565-570 | An id is selected exactly when it belongs to a group member at a position other than the first. |
| Duplicates.LaterIdsMeaning | src/options.js:566 | The reference set `LaterIds` holds exactly the ids of bookmarks preceded by one with the same lower-cased URL. |
| Duplicates.RemovesExactlyLaterOccurrences | src/options.js:562-576 | "Remove All Duplicates" deletes a bookmark exactly when an earlier bookmark has the same URL up to case, so the first occurrence of every URL is the one kept. |
| Duplicates.FirstAndLaterDisjoint | src/options.js:566 | With unique ids, no first occurrence is among the removed ones. |
| Duplicates.KeepsFirstOccurrence | src/options.js:566 | With unique ids, the first bookmark of each group is never removed. |
| DeadLinks.ClassifyAsWritten | src/options.js:299-333 | A response is dead exactly for 404, and for statuses of 400 and up other than 401, 403, 405, 429 and 503. A 404 is reported "HTTP 404: Not Found", others "HTTP Status n". A rejection is dead exactly for an AbortError (the slow-response message) or a TypeError whose message contains "fetch" ("Network Error: TypeError"). |
| DeadLinks.Classify | src/options.js:292-333 | The same verdicts and reasons, except that the rejection of the 10-second timeout ("TimeoutError") also gets the slow-response message, as that branch intends (see Findings). |
| DeadLinks.TimeoutCountedAlive | src/options.js:295-325 | As written, a probe rejected by the timeout counts as alive; corrected, it is reported as a slow response. |
| DeadLinks.ClassifyDiffersOnlyOnTimeout | src/options.js:320-333 | The correction changes the verdict exactly for the "TimeoutError" rejection and for no other outcome. |
| DeadLinks.CheckSingleLink | src/options.js:289-336 | A bookmark is reported exactly when its outcome is classified dead, with the corrected classification (see Findings), and the report carries the bookmark and that reason. |
| DeadLinks.ReasonIdentifiesOutcome | src/options.js:299-333 | The reason text tells the kind of failure, in both directions: an aborted or timed-out probe, a network error, 404, or another status. The status can be read back from it. |
| DeadLinks.StatusReasonRoundTrip | src/options.js:315 | Reading the number back from "HTTP Status n" gives n. |
| DeadLinks.ProbedInListOrder | src/options.js:231-264 | The two filters together keep exactly the bookmarks with a truthy URL not starting "javascript:" that pass `ShouldProbe`, in list order and as often as they occur, so the batches are slices of that one list. |
| DeadLinks.CollectMeaning | src/options.js:270-275 | A dead link is collected exactly when its bookmark is among the items and its probe classifies it dead with that reason, with the corrected classification (see Findings). |
| DeadLinks.CollectAppend | src/options.js:263-284 | Collecting over consecutive batches is collecting over their concatenation: batching keeps item order. |
| DeadLinks.BatchesRun | src/options.js:263 | The loop runs batch after batch while the next batch starts inside the list and the flag is clear. It stops at the first batch where either fails. |
| DeadLinks.CheckLinks | src/options.js:224-287 | The dead links are those of the items processed (the first min(20·batches, n)), in order, with the corrected classification (see Findings). `stopped` is the flag as read when the loop ends. |
| DeadLinks.StopBeforeStart | src/options.js:263 | A flag set before the first test processes nothing. |
| DeadLinks.NeverStopped | src/options.js:263-284 | Without a stop, every item is processed. |
| DeadLinks.StopAfterBatch | src/options.js:280-283 | A stop seen after batch k processes exactly the first 20·k items, or all of them if fewer. |
| DeadLinks.CheckDeadLinks | src/options.js:129-146 | The report is "no URL bookmarks" exactly when no candidate survives the first filter. It is "stopped" exactly when the scan was stopped. Otherwise it is "all working" when nothing probed is dead, or the dead links of all probed bookmarks in order, with the corrected classification (see Findings). |
| DeadLinks.FirstSeenMeaning | src/options.js:487-489 | A host has a group exactly when some dead link carries it. |
| DeadLinks.FirstSeenDistinct | src/options.js:487-489 | No host gets two groups. |
| DeadLinks.GroupByMatches | src/options.js:482-499 | The grouping loop yields one group per key in first-seen order, holding that key's links in list order. |
| DeadLinks.GroupDeadLinksByDomain | src/options.js:479-502 | One group per host (or "Invalid URLs" when the URL does not parse), in first-seen order. Each group holds exactly the links of that host, in order. |
| DeadLinks.EveryLinkGrouped | src/options.js:482-499 | Every dead link lands in the group of its own host. |
| DeadLinks.GroupDeadLinksByDomainAsWritten | src/options.js:487-490 | As the source behaves, no group is ever named after a property of `Object.prototype`. |
| DeadLinks.ConstructorHostMisfiled | src/options.js:487-497 | A dead link on the host "constructor" is filed under "Invalid URLs" as written, and under "constructor" by the corrected grouping. |
| HostFilter.PrivateAddressesNotProbed | src/options.js:242-249 | Every dotted-quad host in 10.0.0.0/8, 172.16.0.0/12 or 192.168.0.0/16 (octets of one to three digits) matches the private-network pattern, so a bookmark on such a host is never probed. |
| HostFilter.TenPrefixSuffices | src/options.js:246 | Because `^` binds only the first alternative, any host that starts with a 10.x.x.x address counts as private, whatever follows. |
| HostFilter.Infix172Suffices | src/options.js:246 | A 172.16–31.x.x address anywhere in the host makes it private. |
| HostFilter.Suffix192Suffices | src/options.js:246 | Because `$` binds only the last alternative, any host that ends with a 192.168.x.x address counts as private. |
| HostFilter.TenPrefixedHostIsPrivate | src/options.js:246 | "10.0.0.1.example.com" is treated as private and never probed. |
| HostFilter.Embedded172IsPrivate | src/options.js:246 | "host.172.16.0.1.example.com" is treated as private. |
| HostFilter.NoOneNotPrivate | src/options.js:246 | A host without the digit 1 never matches the pattern. |
| HostFilter.PublicHostProbed | src/options.js:231-256 | Any http or https URL whose host is not local and contains no digit '1' (8.8.8.8, say) is probed. |
| UrlRecords.Get | src/background.js:183 | `searchParams.get` finds a value exactly when some pair has the name, and it is the first such pair's. |
| UrlHelpers.RemoveTracking | src/background.js:157-161 | Exactly the pairs named utm_source, utm_medium, utm_campaign, fbclid and gclid are deleted. Every other pair is kept. |
| UrlHelpers.RemoveTrackingIdempotent | src/background.js:157-161 | Deleting the tracking pairs twice is deleting them once. |
| UrlHelpers.StripTrailingSlash | src/background.js:164 | One trailing "/" is removed when there is one, and nothing else changes. |
| UrlHelpers.NormalizeUrl | src/background.js:153-168 | An unparseable URL comes back unchanged. Otherwise the result is the serialisation without tracking pairs, less exactly one "/" when the serialisation ends in "/". |
| UrlHelpers.NormalizeStripsOneSlash | src/background.js:164 | A path ending "//" still ends in "/" after normalising. |
| UrlHelpers.FirstTruthy | src/background.js:183-196 | The first non-empty value among the listed parameters, or nothing exactly when none has one. |
| UrlHelpers.ContinuePriority | src/background.js:180-201 | The decoded first non-empty value of `continue`, `redirect_uri`, `return_to`, `returnUrl`, in that priority. Nothing when there is none or the URL does not parse. |
| UrlHelpers.RedirectChain | src/background.js:190-192 | The `\|\|` chain of the three redirect parameters picks the first non-empty one. |
| UrlHelpers.ReplaceFirstEffect | src/background.js:249-250 | `replace` with a string pattern leaves a string without it unchanged. Otherwise it replaces the first occurrence, one with no occurrence before it, and keeps the text before and after it. |
| UrlHelpers.ReplaceFirstChanges | src/background.js:249-261 | The http/https variant differs from the URL exactly when the URL contains the scheme being swapped. |
| UrlHelpers.ReplaceAllEffect | src/background.js:227 | The global "//www." replacement shortens the URL exactly when it occurs, and is the identity otherwise. |
| UrlHelpers.WithoutWwwChanges | src/background.js:227-228 | The without-www form differs from the URL exactly when the URL contains "//www.". |
| UrlHelpers.AddWwwIdentity | src/background.js:238 | The with-www rewrite leaves a string without "//" unchanged. |
| UrlHelpers.AddWwwOnAddress | src/background.js:238 | On an address scheme "//" host.rest, the rewrite inserts "www." before the first host label and changes nothing else. |
| Lookup.Search | src/background.js:209-213 | The search finds nothing exactly when no bookmark has that URL. Otherwise it answers the first bookmark in tree order with exactly that URL. |
| Lookup.Candidates | src/background.js:208-268 | The URL itself comes first. The rest are the rewrites tried in order (normalised, without www, with www unless the URL contains "www.", http, https), minus those equal to the URL. |
| Lookup.RewritesSearched | src/background.js:215-268 | Each rewrite the source tries is among the candidates. |
| Lookup.FirstHit | src/background.js:208-268 | Nothing exactly when every candidate misses. Otherwise it answers the search result of the first candidate that hits. |
| Lookup.Yad2DomainTest | src/background.js:283 | The domain test holds exactly when the host contains "yad2.co.il". The "auth.yad2.co.il" alternative adds nothing. |
| Lookup.Yad2Fallback | src/background.js:281-315 | It answers the first bookmark in tree order whose host contains "yad2.co.il". It answers nothing exactly when the visited host is not a yad2 host or no such bookmark exists. |
| Lookup.FindBookmarkByUrl | src/background.js:204-324 | It answers only URL bookmarks of the tree. An exact match wins, and otherwise the first candidate hit. Nothing means every candidate missed and the yad2 fallback found nothing. |
| Lookup.RedirectTargetFound | src/background.js:270-279 | On a login page whose own candidates are not bookmarked, the redirect target is looked up with its own whole candidate chain, and its first hit is the answer. A target bookmarked as it is wins. |
| Lookup.ExampleRedirect | src/background.js:270-279 | On a concrete login page whose "continue" parameter names the one bookmarked URL, no candidate hits and the lookup answers that bookmark through the redirect step. |
| Lookup.Yad2AnswersWhenAllMiss | src/background.js:281-315 | When the candidates and the redirect target both miss, a yad2.co.il page gets the first yad2.co.il bookmark in tree order and any other page gets nothing. |
| Lookup.HttpsFindsHttpBookmark | src/background.js:249-258 | Visiting https://x finds a bookmark saved as http://x. |
| Lookup.HttpFindsHttpsBookmark | src/background.js:250-267 | Visiting http://x finds a bookmark saved as https://x. |
| Lookup.FindsWwwBookmark | src/background.js:237-246 | Visiting scheme//host.rest finds a bookmark saved as scheme//www.host.rest. |
| Lookup.FoundWhenCandidateCarried | src/background.js:208-268 | If any candidate URL is bookmarked, the lookup finds a bookmark. |
| FolderSort.PartitionMultiset | src/background.js:70-71 | The folder and link filters split the children: together they are a permutation of them. |
| FolderSort.SortByTitle | src/background.js:74 | The folder sort returns a permutation of the folders. |
| FolderSort.SortByTitleSorted | src/background.js:74 | For a total preorder, the result is ordered by title. |
| FolderSort.IndexOfId | src/background.js:134 | `findIndex` gives the first position with the id, or nothing exactly when none has it. |
| FolderSort.ApplyMove | src/background.js:78-88 | A move fails exactly for an unknown id or an index past the end. Otherwise the node lands at the index (one less when it came from before it), and the other children keep their order. |
| FolderSort.ApplyMovePermutes | src/background.js:77-90 | A move permutes the folder's children. |
| FolderSort.SortFolderContents | src/background.js:55-96 | No move when sorting is off, the folder is the Bookmarks Bar, or it has at most one child. Otherwise one move per child into the same folder, the k-th to index k. |
| FolderSort.SortMovesTargetArrangement | src/background.js:77-90 | The moves place the sorted folders and then the links at consecutive indices from 0. |
| FolderSort.SortFolderContentsArranges | src/background.js:55-96 | With unique ids, applying the moves in order succeeds and leaves the folder as sorted sub-folders followed by the links in their original order. |
| FolderSort.ArrangementShape | src/background.js:69-90 | That arrangement is a permutation of the children: all folders first, folders ordered by title, links in their original order. |
| FolderSort.MoveToTop | src/background.js:99-150 | A move is planned exactly when sort by use is on, the bookmark exists with a truthy parent other than the Bookmarks Bar, and it is not already at index (number of folders). The move keeps the parent and targets that index. |
| FolderSort.MoveToTopPlacesAfterFolders | src/background.js:140-144 | In a folders-first folder, the move puts the bookmark right after the folders and keeps the order of everything else. |
| FolderSort.MoveToTopSettles | src/background.js:133-144 | After the move the folder is still folders-first with the same folders, and a second call plans nothing. |
| FolderSort.FoldersToSort | src/background.js:329-349 | Creation sorts the truthy parent. A move sorts the old parent and then the new one if it differs, never the same folder twice. A reorder sorts the folder itself. |
| Tabs.Track | src/background.js:364-372 | On "loading", a tab's first non-internal URL is recorded and later ones are ignored. Other tabs are untouched, and only real page addresses are recorded. |
| Tabs.OnUpdated | src/background.js:355-431 | A completed, non-internal page with sort by use on is looked up by the recorded first URL when it differs from the final one, then by the final URL. Its entry is deleted. Any other update only tracks. Other tabs are untouched. |
| Tabs.OnRemoved | src/background.js:434-436 | Closing a tab forgets exactly that tab. |
| Tabs.RunWellFormed | src/background.js:363-372 | Over any sequence of events, the map only ever holds non-empty, non-internal URLs. |
| Tabs.FirstUrlKept | src/background.js:363-372 | Until the tab is closed or one of its pages is looked up, the recorded URL stays the first one. |
| Tabs.EndForgets | src/background.js:428-436 | Closing the tab, or a lookup on it, removes its entry. |
| Tabs.CompletionKeepsEntryWhenOff | src/background.js:381-384 | With sort by use off, a completed page keeps its entry until the tab is closed. |
| Tabs.InitialUrlTakesPrecedence | src/background.js:400-416 | A bookmark found by the first URL is used even when the final URL is bookmarked too. |

## Left out

- The `chrome.*` calls themselves are not modelled:
  - storage;
  - `bookmarks.get`, `getChildren`, `getTree`, `search`, `move`, `remove`;
  - the event registration.
  The tree, the children and the settings are inputs, and a planned move is an output.
- Asynchrony is not modelled:
  - `await`;
  - `Promise.all` in a batch;
  - the 1.5 s pause;
  - handlers interleaving with one another or with the user's own edits.
  Each handler is modelled as running alone on a settled tree.
- The default settings (both features on) are not a separate constant: settings are an input. Settings are modelled as one value per event. The source reads them afresh at several `await` points.
- DeadLinks.CheckSingleLink: classifies with the corrected `Classify`, so a probe rejected by the 10-second timeout ("TimeoutError") is reported as a slow response. The source counts it as alive; `ClassifyAsWritten` keeps that behaviour (see Findings). The same holds for `Collect`, `CheckLinks` and `CheckDeadLinks`, which use it.
- `fetch`, its 10-second timeout and the network are a parameter (`FetchOutcome`). Which errors a real failure raises is the host's business, except that the timeout's rejection is named "TimeoutError" (see Findings).
- `new URL`, `URL.toString`, `decodeURIComponent` and `localeCompare` are parameters or simplified stand-ins. `Href` is a simplified serialisation without percent-encoding.
- `toLowerCase` is modelled on ASCII letters only. Other characters are left as they are.
- `chrome.bookmarks.search({url})` is modelled as exact string equality over the tree's URL bookmarks, in tree order. The host normalises the URL it is given and may order matches differently.
- `FolderSort.ApplyMove` is the host's behaviour for a move within one folder, assumed here. That includes the no-op when the target index is the node's own position or the one after it, and the shift by one when the node moves towards the end. Moves between folders are not modelled.
- Lookup.FindBookmarkByUrl: requires that a redirect target is shorter than the URL it came from. A query value is part of the URL and decoding only shortens it, so this holds of the host. The model needs it to show the recursion ends.
- Bookmarks.GetBookmarkPath: requires that the parent chain leaves the folder map within as many steps as the map has entries. This holds of any tree. A cyclic map, which the source would loop on, is not modelled.
- The `path` string that `getAllBookmarks` stores in each folder entry is never read, so it is not modelled. The same goes for the `_folderMap` back-reference, which is an explicit argument here.
- The `status: 'dead'` field of a dead link is constant and is not modelled.
- The exception handler of `checkDeadLinks` is not modelled. No exception reaches it from the modelled code; the one `groupDeadLinksByDomain` can raise is caught inside it (see Findings).
- Progress bars, progress text, the "Stopping..." label and all other DOM output are not modelled. The same goes for `confirm` dialogs, the selected-duplicates path, and dead-link removal.
- The popup, the heartbeat, `getFolderPath`, `onInstalled` and the console debug helpers (`testBookmarkSort`, `listAllBookmarks`, `testBasic`) are not modelled.
- `groupDeadLinksByDomain` returns an object. The model returns a sequence of groups in first-seen order, which is the order an object iterates non-index string keys in. Integer-like host names would be iterated first by the host; this is not modelled.
- FolderSort.SortByTitle: the model states sortedness and permutation, not the stability of `Array.prototype.sort`. Nothing in the source depends on how equal titles are ordered.

## Findings

| source | as written | input that shows it | evidently intended | confidence | as-written member | corrected member |
|---|---|---|---|---|---|---|
| src/options.js:487-490 | `grouped` is a plain object, so `grouped[domain]` for a host named after an `Object.prototype` property (e.g. "constructor") is an inherited function. The `if (!grouped[domain])` test is skipped, `push` throws, and the `catch` files the link under "Invalid URLs". | a dead link to `http://constructor/` | every dead link is grouped under its own host | not executed | DeadLinks.ConstructorHostMisfiled | DeadLinks.GroupDeadLinksByDomain |
| src/options.js:322 | Only `error.name === 'AbortError'` gets the "Slow response (10s+ timeout)" reason. The signal is `AbortSignal.timeout(10000)`, whose expiry makes `fetch` reject with a "TimeoutError" DOMException. That rejection is neither an AbortError nor a TypeError, so it reaches `resolve(null)` and the link counts as alive. | a bookmark whose server does not answer within 10 seconds | a probe that times out is reported with the slow-response reason | not executed | DeadLinks.TimeoutCountedAlive | DeadLinks.Classify |
