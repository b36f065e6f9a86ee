/** The dead-link scan of the options page: which bookmarks are probed, how one probe's
    outcome is classified (`checkSingleLink`), the batch loop with its stop flag
    (`checkLinks`), the report `checkDeadLinks` shows, and `groupDeadLinksByDomain`.
    The scan classifies with `Classify`, which corrects the source in one case: a probe
    that runs into the 10-second timeout is reported as a slow response, where the
    source counts it as alive (`ClassifyAsWritten`).

    The network is a parameter: `outcome(b)` is what `fetch` on `b`'s URL settled to.
    The stop button is a parameter too: `stopAt(0)` is the flag as the loop first tests
    it and `stopAt(k)` its value right after the k-th batch has been processed. */
module DeadLinks {
  import opened Common
  import opened UrlRecords
  import opened Bookmarks
  import opened HostFilter

  /** How a `fetch` settled: a response with its status, or a rejection with the error's
      `name` and `message`. */
  datatype FetchOutcome = Response(status: nat) | Thrown(name: string, message: string)

  /** `{ bookmark, error, status: 'dead' }`; the status field is always 'dead'. */
  datatype DeadLink = DeadLink(bookmark: Node, error: string)

  /** Error statuses that still show the server is alive. */
  const AliveStatuses: set<nat> := {401, 403, 405, 429, 503}

  const NotFoundReason := "HTTP 404: Not Found"
  const TimeoutReason := "Slow response (10s+ timeout) - might be temporarily unavailable"
  const NetworkReason := "Network Error: TypeError"
  const StatusPrefix := "HTTP Status "

  function StatusReason(status: nat): string {
    StatusPrefix + NatToString(status)
  }

  /** The rejections that mean the probe was cut short: "AbortError" for an abort, and
      "TimeoutError", the name the expiry of `AbortSignal.timeout` rejects with. */
  predicate IsAbortName(name: string) {
    name == "AbortError" || name == "TimeoutError"
  }

  /** `checkSingleLink` as written: the reason a probe outcome makes the bookmark dead,
      or `None` when the link counts as alive. Only "AbortError" gets the slow-response
      reason, so the 10-second timeout, which rejects with "TimeoutError", falls through
      to the alive case. */
  function ClassifyAsWritten(outcome: FetchOutcome): (r: Option<string>)
    ensures outcome.Response? ==>
      (r.Some? <==> outcome.status == 404 || (outcome.status >= 400 && outcome.status !in AliveStatuses))
    ensures outcome.Response? && outcome.status < 400 ==> r.None?
    ensures outcome == Response(404) ==> r == Some(NotFoundReason)
    ensures outcome.Response? && outcome.status != 404 && r.Some? ==> r == Some(StatusReason(outcome.status))
    ensures outcome.Thrown? ==>
      (r.Some? <==> outcome.name == "AbortError" || (outcome.name == "TypeError" && Contains(outcome.message, "fetch")))
    ensures outcome.Thrown? && outcome.name == "AbortError" ==> r == Some(TimeoutReason)
    ensures outcome.Thrown? && outcome.name != "AbortError" && r.Some? ==> r == Some(NetworkReason)
  {
    match outcome
    case Response(status) =>
      if status == 404 then Some(NotFoundReason)
      else if status == 403 then None
      else if status in {401, 405, 429, 503} then None
      else if status >= 400 then Some(StatusReason(status))
      else None
    case Thrown(name, message) =>
      if name == "AbortError" then Some(TimeoutReason)
      else if name == "TypeError" && Contains(message, "fetch") then Some(NetworkReason)
      else None
  }

  /** `checkSingleLink` as its slow-response branch means it: a probe that times out gets
      the slow-response reason too. Every outcome is classified. */
  function Classify(outcome: FetchOutcome): (r: Option<string>)
    ensures outcome.Response? ==>
      (r.Some? <==> outcome.status == 404 || (outcome.status >= 400 && outcome.status !in AliveStatuses))
    ensures outcome.Response? && outcome.status < 400 ==> r.None?
    ensures outcome == Response(404) ==> r == Some(NotFoundReason)
    ensures outcome.Response? && outcome.status != 404 && r.Some? ==> r == Some(StatusReason(outcome.status))
    ensures outcome.Thrown? ==>
      (r.Some? <==> IsAbortName(outcome.name) || (outcome.name == "TypeError" && Contains(outcome.message, "fetch")))
    ensures outcome.Thrown? && IsAbortName(outcome.name) ==> r == Some(TimeoutReason)
    ensures outcome.Thrown? && !IsAbortName(outcome.name) && r.Some? ==> r == Some(NetworkReason)
  {
    if outcome.Thrown? && outcome.name == "TimeoutError" then Some(TimeoutReason)
    else ClassifyAsWritten(outcome)
  }

  /** As written, a probe that runs into the 10-second timeout counts as alive; the
      corrected classification reports it as a slow response. */
  lemma TimeoutCountedAlive(message: string)
    ensures ClassifyAsWritten(Thrown("TimeoutError", message)).None?
    ensures Classify(Thrown("TimeoutError", message)) == Some(TimeoutReason)
  {
  }

  /** The correction changes the verdict on the timeout rejection and on nothing else. */
  lemma ClassifyDiffersOnlyOnTimeout(outcome: FetchOutcome)
    ensures Classify(outcome) != ClassifyAsWritten(outcome) <==> outcome.Thrown? && outcome.name == "TimeoutError"
  {
  }

  function CheckSingleLink(b: Node, outcome: FetchOutcome): (r: Option<DeadLink>)
    ensures r.Some? <==> Classify(outcome).Some?
    ensures r.Some? ==> r.value == DeadLink(b, Classify(outcome).value)
  {
    match Classify(outcome)
    case None => None
    case Some(reason) => Some(DeadLink(b, reason))
  }

  /** Reads the status back out of a "HTTP Status <code>" reason. */
  function StatusOfReason(reason: string): Option<nat> {
    if StatusPrefix <= reason then ParseDecimal(reason[|StatusPrefix|..]) else None
  }

  /** The generic HTTP reason names the status that caused it. */
  lemma StatusReasonRoundTrip(status: nat)
    ensures StatusOfReason(StatusReason(status)) == Some(status)
  {
    ParseNatToString(status);
    assert StatusReason(status)[|StatusPrefix|..] == NatToString(status);
  }

  /** A dead link's reason tells aborted or timed-out probes, network failures and HTTP
      errors apart, and for an HTTP error other than 404 it names the status. */
  lemma ReasonIdentifiesOutcome(outcome: FetchOutcome)
    requires Classify(outcome).Some?
    ensures Classify(outcome).value == TimeoutReason <==> outcome.Thrown? && IsAbortName(outcome.name)
    ensures Classify(outcome).value == NetworkReason <==> outcome.Thrown? && !IsAbortName(outcome.name)
    ensures Classify(outcome).value == NotFoundReason <==> outcome == Response(404)
    ensures outcome.Response? && outcome.status != 404 ==> StatusOfReason(Classify(outcome).value) == Some(outcome.status)
  {
    var reason := Classify(outcome).value;
    if outcome.Response? && outcome.status != 404 {
      StatusReasonRoundTrip(outcome.status);
      assert reason[0] == 'H' && reason[5] == 'S';
      assert reason != TimeoutReason by { assert StatusOfReason(TimeoutReason).None?; }
      assert reason != NetworkReason by { assert NetworkReason[0] == 'N'; }
      assert reason != NotFoundReason by { assert NotFoundReason[5] == '4'; }
    }
  }

  // ---------------------------------------------------------------------------
  // Which bookmarks are probed.

  /** The first filter of `checkDeadLinks`: a truthy URL not starting with
      "javascript:" (compared case-sensitively). */
  predicate IsScanCandidate(b: Node) {
    HasUrl(b) && !StartsWith(b.url.value, "javascript:")
  }

  /** The second filter, in `checkLinks` (see `ShouldProbe`). */
  predicate IsProbed(parse: Parser, b: Node) {
    b.url.Some? && ShouldProbe(parse, b.url.value)
  }

  function ProbeFilter(parse: Parser): Node -> bool {
    b => IsProbed(parse, b)
  }

  /** The two filters of the scan keep, in list order and with their multiplicity,
      exactly the bookmarks that pass both tests, so the batches cover those and nothing
      else. */
  lemma ProbedInListOrder(parse: Parser, bs: seq<Node>)
    ensures Filter(Filter(bs, IsScanCandidate), ProbeFilter(parse)) == Filter(bs, Both(IsScanCandidate, ProbeFilter(parse)))
    ensures forall b :: b in Filter(Filter(bs, IsScanCandidate), ProbeFilter(parse)) <==>
      b in bs && HasUrl(b) && !StartsWith(b.url.value, "javascript:") && ShouldProbe(parse, b.url.value)
  {
    FilterTwice(bs, IsScanCandidate, ProbeFilter(parse));
  }

  // ---------------------------------------------------------------------------
  // The batch loop.

  const BatchSize: nat := 20

  /** The probe results of `items`, in order, with the alive ones dropped. */
  function Collect(items: seq<Node>, outcome: Node -> FetchOutcome): (r: seq<DeadLink>)
    ensures |r| <= |items|
  {
    if |items| == 0 then []
    else
      var head := match CheckSingleLink(items[0], outcome(items[0])) case None => [] case Some(d) => [d];
      head + Collect(items[1..], outcome)
  }

  /** Every collected dead link is the classification of one of the items, and every
      item classified dead is collected. */
  lemma {:induction false} CollectMeaning(items: seq<Node>, outcome: Node -> FetchOutcome, d: DeadLink)
    ensures d in Collect(items, outcome) <==> d.bookmark in items && CheckSingleLink(d.bookmark, outcome(d.bookmark)) == Some(d)
    decreases |items|
  {
    if |items| > 0 {
      CollectMeaning(items[1..], outcome, d);
      assert d.bookmark in items <==> d.bookmark == items[0] || d.bookmark in items[1..];
    }
  }

  lemma {:induction false} CollectAppend(a: seq<Node>, b: seq<Node>, outcome: Node -> FetchOutcome)
    ensures Collect(a + b, outcome) == Collect(a, outcome) + Collect(b, outcome)
    decreases |a|
  {
    if |a| > 0 {
      assert (a + b)[0] == a[0];
      assert (a + b)[1..] == a[1..] + b;
      CollectAppend(a[1..], b, outcome);
    } else {
      assert a + b == b;
    }
  }

  /** The number of batches the loop runs, counting from batch `k`: it stops at the
      first batch that would start past the end or before which the flag is seen set. */
  function BatchesRun(n: nat, stopAt: nat -> bool, k: nat): (m: nat)
    ensures k <= m
    ensures m * BatchSize >= n || stopAt(m)
    ensures forall j :: k <= j < m ==> j * BatchSize < n && !stopAt(j)
    decreases n - k * BatchSize
  {
    if k * BatchSize >= n || stopAt(k) then k else BatchesRun(n, stopAt, k + 1)
  }

  /** How many items the batches processed: whole batches of 20, the last one cut short
      by the end of the list. */
  function Processed(n: nat, stopAt: nat -> bool): nat {
    Min(BatchSize * BatchesRun(n, stopAt, 0), n)
  }

  /** `checkLinks` after its filter: batches of 20 consecutive items in order, each
      batch's dead links appended in item order, until the items run out or the stop
      flag is seen. `stopped` is the flag as the caller then reads it. */
  method CheckLinks(items: seq<Node>, outcome: Node -> FetchOutcome, stopAt: nat -> bool)
    returns (dead: seq<DeadLink>, stopped: bool)
    ensures dead == Collect(items[..Processed(|items|, stopAt)], outcome)
    ensures stopped == stopAt(BatchesRun(|items|, stopAt, 0))
  {
    dead := [];
    var i := 0;
    var k := 0;
    stopped := stopAt(0);
    while i < |items| && !stopped
      invariant i == k * BatchSize
      invariant BatchesRun(|items|, stopAt, k) == BatchesRun(|items|, stopAt, 0)
      invariant stopped == stopAt(k)
      invariant dead == Collect(items[..Min(i, |items|)], outcome)
      decreases |items| - i
    {
      var end := Min(i + BatchSize, |items|);
      var batch := items[i..end];
      CollectBatch(items, i, end, outcome);
      BatchesRunStep(|items|, stopAt, k);
      dead := dead + Collect(batch, outcome);
      i := i + BatchSize;
      k := k + 1;
      stopped := stopAt(k);
    }
  }

  /** The dead links of a prefix grow by those of the next batch. */
  lemma CollectBatch(items: seq<Node>, i: nat, end: nat, outcome: Node -> FetchOutcome)
    requires i <= end <= |items|
    ensures Collect(items[..end], outcome) == Collect(items[..i], outcome) + Collect(items[i..end], outcome)
  {
    CollectAppend(items[..i], items[i..end], outcome);
    assert items[..i] + items[i..end] == items[..end];
  }

  /** A batch that runs does not change the count of batches that will run. */
  lemma BatchesRunStep(n: nat, stopAt: nat -> bool, k: nat)
    requires k * BatchSize < n && !stopAt(k)
    ensures BatchesRun(n, stopAt, k) == BatchesRun(n, stopAt, k + 1)
  {
  }

  /** With the flag already set when the loop starts, nothing is probed. */
  lemma StopBeforeStart(n: nat, stopAt: nat -> bool)
    requires stopAt(0)
    ensures Processed(n, stopAt) == 0
  {
  }

  /** When the flag is never seen set, every item is probed. */
  lemma NeverStopped(n: nat, stopAt: nat -> bool)
    requires forall k :: !stopAt(k)
    ensures Processed(n, stopAt) == n
  {
  }

  /** A stop seen after batch `k` keeps exactly the first `k` batches. */
  lemma StopAfterBatch(n: nat, stopAt: nat -> bool, k: nat)
    requires forall j: nat :: j < k ==> !stopAt(j)
    requires stopAt(k)
    ensures Processed(n, stopAt) == Min(BatchSize * k, n)
  {
  }

  // ---------------------------------------------------------------------------
  // The whole scan.

  /** The four messages `checkDeadLinks` can end with (the thrown-error case is not
      modelled). */
  datatype ScanReport = NoUrlBookmarks | Stopped | AllWorking | Found(deadLinks: seq<DeadLink>)

  /** `checkDeadLinks`: flatten the tree, drop URL-less and `javascript:` bookmarks,
      filter, probe in batches, and report. */
  method CheckDeadLinks(tree: seq<Node>, parse: Parser, outcome: Node -> FetchOutcome, stopAt: nat -> bool)
    returns (report: ScanReport)
    ensures var candidates := Filter(UrlNodes(PreOrder(tree)), IsScanCandidate);
      var probed := Filter(candidates, ProbeFilter(parse));
      && (report == NoUrlBookmarks <==> |candidates| == 0)
      && (|candidates| > 0 ==>
            (report == Stopped <==> stopAt(BatchesRun(|probed|, stopAt, 0))))
      && (report == AllWorking ==> |Collect(probed, outcome)| == 0)
      && (report.Found? ==> report.deadLinks == Collect(probed, outcome) && |report.deadLinks| > 0)
      && (|candidates| > 0 && !stopAt(BatchesRun(|probed|, stopAt, 0)) ==>
            report == (if |Collect(probed, outcome)| == 0 then AllWorking else Found(Collect(probed, outcome))))
  {
    var bookmarks := GetAllBookmarks(tree).bookmarks;
    var candidates := Filter(bookmarks, IsScanCandidate);
    if |candidates| == 0 {
      return NoUrlBookmarks;
    }
    var probed := Filter(candidates, ProbeFilter(parse));
    var dead, stopped := CheckLinks(probed, outcome, stopAt);
    if !stopped {
      assert Processed(|probed|, stopAt) == |probed|;
      assert probed[..|probed|] == probed;
    }
    if stopped {
      report := Stopped;
    } else if |dead| == 0 {
      report := AllWorking;
    } else {
      report := Found(dead);
    }
  }

  // ---------------------------------------------------------------------------
  // Grouping dead links by host for display.

  /** A domain and its dead links in scan order. */
  datatype DomainGroup = DomainGroup(domain: string, links: seq<DeadLink>)

  const InvalidUrls := "Invalid URLs"

  /** The group a dead link belongs in: its URL's host name, or "Invalid URLs" when the
      URL does not parse. */
  function DomainOf(parse: Parser, d: DeadLink): string {
    match (if d.bookmark.url.Some? then parse(d.bookmark.url.value) else None)
    case None => InvalidUrls
    case Some(u) => u.hostname
  }

  function DomainKey(parse: Parser): DeadLink -> string {
    d => DomainOf(parse, d)
  }

  /** Reference: the distinct keys of `links` in order of first appearance. */
  function FirstSeen(links: seq<DeadLink>, key: DeadLink -> string): seq<string>
    decreases |links|
  {
    if |links| == 0 then []
    else
      var before := FirstSeen(links[..|links| - 1], key);
      var k := key(links[|links| - 1]);
      if k in before then before else before + [k]
  }

  /** Reference: the links whose key is `k`, in order. */
  function WithKey(links: seq<DeadLink>, key: DeadLink -> string, k: string): seq<DeadLink>
    decreases |links|
  {
    if |links| == 0 then []
    else WithKey(links[..|links| - 1], key, k) + (if key(links[|links| - 1]) == k then [links[|links| - 1]] else [])
  }

  /** A key is seen exactly when some link carries it. */
  lemma {:induction false} FirstSeenMeaning(links: seq<DeadLink>, key: DeadLink -> string, k: string)
    ensures k in FirstSeen(links, key) <==> |WithKey(links, key, k)| > 0
    decreases |links|
  {
    if |links| > 0 {
      FirstSeenMeaning(links[..|links| - 1], key, k);
    }
  }

  predicate DistinctKeys(ks: seq<string>) {
    forall i, j :: 0 <= i < j < |ks| ==> ks[i] != ks[j]
  }

  lemma {:induction false} FirstSeenDistinct(links: seq<DeadLink>, key: DeadLink -> string)
    ensures DistinctKeys(FirstSeen(links, key))
    decreases |links|
  {
    if |links| > 0 {
      FirstSeenDistinct(links[..|links| - 1], key);
    }
  }

  /** Adds one link to the group of `k`, opening the group at the end when `k` is new
      (the `if (!grouped[domain])` / `push` pair). */
  function AddToGroup(gs: seq<DomainGroup>, k: string, d: DeadLink): (r: seq<DomainGroup>)
    ensures |r| == |gs| || |r| == |gs| + 1
  {
    if |gs| == 0 then [DomainGroup(k, [d])]
    else if gs[0].domain == k then [gs[0].(links := gs[0].links + [d])] + gs[1..]
    else [gs[0]] + AddToGroup(gs[1..], k, d)
  }

  /** The loop of `groupDeadLinksByDomain` for a given key function. */
  function GroupBy(links: seq<DeadLink>, key: DeadLink -> string): seq<DomainGroup>
    decreases |links|
  {
    if |links| == 0 then []
    else AddToGroup(GroupBy(links[..|links| - 1], key), key(links[|links| - 1]), links[|links| - 1])
  }

  /** The groups are the keys in order of first appearance, each holding its links. */
  ghost predicate GroupsMatch(links: seq<DeadLink>, key: DeadLink -> string, gs: seq<DomainGroup>) {
    var ks := FirstSeen(links, key);
    && |gs| == |ks|
    && (forall i :: 0 <= i < |gs| ==> gs[i].domain == ks[i] && gs[i].links == WithKey(links, key, ks[i]))
  }

  /** Adding to an existing group at index `i`. */
  lemma {:induction false} AddToGroupExisting(gs: seq<DomainGroup>, k: string, d: DeadLink, i: nat)
    requires i < |gs| && gs[i].domain == k
    requires forall j :: 0 <= j < i ==> gs[j].domain != k
    ensures AddToGroup(gs, k, d) == gs[i := gs[i].(links := gs[i].links + [d])]
    decreases i
  {
    if i > 0 {
      AddToGroupExisting(gs[1..], k, d, i - 1);
      assert [gs[0]] + gs[1..][i - 1 := gs[i].(links := gs[i].links + [d])] == gs[i := gs[i].(links := gs[i].links + [d])];
    }
  }

  /** Adding a new key appends a group. */
  lemma {:induction false} AddToGroupNew(gs: seq<DomainGroup>, k: string, d: DeadLink)
    requires forall j :: 0 <= j < |gs| ==> gs[j].domain != k
    ensures AddToGroup(gs, k, d) == gs + [DomainGroup(k, [d])]
    decreases |gs|
  {
    if |gs| > 0 {
      AddToGroupNew(gs[1..], k, d);
      assert [gs[0]] + (gs[1..] + [DomainGroup(k, [d])]) == gs + [DomainGroup(k, [d])];
    }
  }

  lemma GroupByStep(p: seq<DeadLink>, d: DeadLink, key: DeadLink -> string, gs: seq<DomainGroup>)
    requires GroupsMatch(p, key, gs)
    ensures GroupsMatch(p + [d], key, AddToGroup(gs, key(d), d))
  {
    var p' := p + [d];
    assert p'[..|p'| - 1] == p;
    var k := key(d);
    var ks := FirstSeen(p, key);
    FirstSeenDistinct(p, key);
    if k in ks {
      var i :| 0 <= i < |ks| && ks[i] == k;
      forall j | 0 <= j < i ensures gs[j].domain != k {
        assert ks[j] != ks[i];
      }
      AddToGroupExisting(gs, k, d, i);
    } else {
      AddToGroupNew(gs, k, d);
      FirstSeenMeaning(p, key, k);
    }
  }

  lemma {:induction false} GroupByMatches(links: seq<DeadLink>, key: DeadLink -> string)
    ensures GroupsMatch(links, key, GroupBy(links, key))
    decreases |links|
  {
    if |links| > 0 {
      var p := links[..|links| - 1];
      GroupByMatches(p, key);
      GroupByStep(p, links[|links| - 1], key, GroupBy(p, key));
      assert p + [links[|links| - 1]] == links;
    }
  }

  /** `groupDeadLinksByDomain` with the grouping it evidently intends: one group per
      host name (or "Invalid URLs"), in order of first appearance, holding exactly that
      key's links in scan order. */
  function GroupDeadLinksByDomain(parse: Parser, links: seq<DeadLink>): (r: seq<DomainGroup>)
    ensures |r| == |FirstSeen(links, DomainKey(parse))|
    ensures forall i :: 0 <= i < |r| ==>
      r[i].domain == FirstSeen(links, DomainKey(parse))[i] &&
      r[i].links == WithKey(links, DomainKey(parse), r[i].domain)
  {
    GroupByMatches(links, DomainKey(parse));
    GroupBy(links, DomainKey(parse))
  }

  /** Every dead link lands in exactly one group, the one of its own domain. */
  lemma EveryLinkGrouped(parse: Parser, links: seq<DeadLink>, d: DeadLink)
    requires d in links
    ensures exists i :: (0 <= i < |GroupDeadLinksByDomain(parse, links)| &&
                         GroupDeadLinksByDomain(parse, links)[i].domain == DomainOf(parse, d) &&
                         d in GroupDeadLinksByDomain(parse, links)[i].links)
  {
    var key := DomainKey(parse);
    var r := GroupDeadLinksByDomain(parse, links);
    WithKeyContains(links, key, d);
    FirstSeenMeaning(links, key, key(d));
    var ks := FirstSeen(links, key);
    var i :| 0 <= i < |ks| && ks[i] == key(d);
    assert r[i].domain == key(d);
  }

  lemma {:induction false} WithKeyContains(links: seq<DeadLink>, key: DeadLink -> string, d: DeadLink)
    requires d in links
    ensures d in WithKey(links, key, key(d))
    decreases |links|
  {
    var p := links[..|links| - 1];
    if d != links[|links| - 1] {
      assert links == p + [links[|links| - 1]];
      WithKeyContains(p, key, d);
    }
  }

  // ---------------------------------------------------------------------------
  // The grouping as written. `grouped` is a plain object, so a host name that is also
  // a property of `Object.prototype` finds a truthy non-array value there; `push` on
  // it throws, the `catch` takes over and files the link under "Invalid URLs".

  /** The property names every plain object inherits. */
  const ObjectPrototypeKeys: set<string> := {
    "constructor", "__proto__", "hasOwnProperty", "isPrototypeOf", "propertyIsEnumerable",
    "toLocaleString", "toString", "valueOf",
    "__defineGetter__", "__defineSetter__", "__lookupGetter__", "__lookupSetter__"}

  function DomainOfAsWritten(parse: Parser, d: DeadLink): string {
    var domain := DomainOf(parse, d);
    if domain in ObjectPrototypeKeys then InvalidUrls else domain
  }

  function AsWrittenKey(parse: Parser): DeadLink -> string {
    d => DomainOfAsWritten(parse, d)
  }

  function GroupDeadLinksByDomainAsWritten(parse: Parser, links: seq<DeadLink>): (r: seq<DomainGroup>)
    ensures |r| == |FirstSeen(links, AsWrittenKey(parse))|
    ensures forall i :: 0 <= i < |r| ==> r[i].domain !in ObjectPrototypeKeys
  {
    var key := AsWrittenKey(parse);
    GroupByMatches(links, key);
    forall i | 0 <= i < |FirstSeen(links, key)|
      ensures FirstSeen(links, key)[i] !in ObjectPrototypeKeys
    {
      FirstSeenKeys(links, key, FirstSeen(links, key)[i]);
    }
    GroupBy(links, key)
  }

  /** Every seen key is some link's key. */
  lemma {:induction false} FirstSeenKeys(links: seq<DeadLink>, key: DeadLink -> string, k: string)
    requires k in FirstSeen(links, key)
    ensures exists d :: d in links && key(d) == k
    decreases |links|
  {
    var p := links[..|links| - 1];
    if k in FirstSeen(p, key) {
      FirstSeenKeys(p, key, k);
      var d :| d in p && key(d) == k;
      assert d in links;
    } else {
      assert links[|links| - 1] in links;
    }
  }

  /** A dead link on the host "constructor" is filed under "Invalid URLs" as written,
      and under its own host by the intended grouping. */
  lemma ConstructorHostMisfiled(parse: Parser, d: DeadLink, u: UrlRecord)
    requires d.bookmark.url.Some? && parse(d.bookmark.url.value) == Some(u)
    requires u.hostname == "constructor"
    ensures GroupDeadLinksByDomainAsWritten(parse, [d]) == [DomainGroup(InvalidUrls, [d])]
    ensures GroupDeadLinksByDomain(parse, [d]) == [DomainGroup("constructor", [d])]
  {
    GroupBySingle(d, AsWrittenKey(parse));
    GroupBySingle(d, DomainKey(parse));
  }

  lemma GroupBySingle(d: DeadLink, key: DeadLink -> string)
    ensures GroupBy([d], key) == [DomainGroup(key(d), [d])]
  {
    assert [d][..0] == [];
    assert GroupBy([d], key) == AddToGroup(GroupBy([], key), key(d), d);
  }
}
