/** The URL helpers of the background script: `normalizeUrl`, `extractDomain`,
    `extractContinueUrl`, and the string rewrites `findBookmarkByUrl` builds its
    candidates with. */
module UrlHelpers {
  import opened Common
  import opened UrlRecords

  /** The query parameters `normalizeUrl` deletes. */
  const TrackingParams: set<string> := {"utm_source", "utm_medium", "utm_campaign", "fbclid", "gclid"}

  predicate IsKeptParam(p: Param) {
    p.name !in TrackingParams
  }

  /** The five `searchParams.delete` calls: every pair with one of the tracking names
      goes, every other pair stays, in order. */
  function RemoveTracking(query: seq<Param>): (r: seq<Param>)
    ensures forall p :: p in r <==> p in query && p.name !in TrackingParams
    ensures |r| <= |query|
  {
    Filter(query, IsKeptParam)
  }

  /** Removing tracking pairs works pair by pair, so the kept pairs keep their order. */
  lemma RemoveTrackingAppend(a: seq<Param>, b: seq<Param>)
    ensures RemoveTracking(a + b) == RemoveTracking(a) + RemoveTracking(b)
  {
    FilterAppend(a, b, IsKeptParam);
  }

  /** A second removal finds nothing left to remove. */
  lemma {:induction false} RemoveTrackingIdempotent(query: seq<Param>)
    ensures RemoveTracking(RemoveTracking(query)) == RemoveTracking(query)
    decreases |query|
  {
    if |query| > 0 {
      var head := if IsKeptParam(query[0]) then [query[0]] else [];
      assert RemoveTracking(query) == head + RemoveTracking(query[1..]);
      RemoveTrackingAppend(head, RemoveTracking(query[1..]));
      RemoveTrackingIdempotent(query[1..]);
      assert RemoveTracking(head) == head by {
        if IsKeptParam(query[0]) {
          assert head[1..] == [];
        }
      }
    }
  }

  /** `.replace(/\/$/, '')`: drops one trailing slash, if there is one. */
  function StripTrailingSlash(s: string): (r: string)
    ensures EndsWith(s, "/") ==> r + "/" == s
    ensures !EndsWith(s, "/") ==> r == s
  {
    if |s| > 0 && s[|s| - 1] == '/' then s[..|s| - 1] else s
  }

  /** The record `normalizeUrl` serialises: the parsed URL without tracking pairs. */
  function WithoutTracking(u: UrlRecord): UrlRecord {
    u.(query := RemoveTracking(u.query))
  }

  /** `normalizeUrl`: an unparseable URL is returned as it is; otherwise the URL
      without tracking pairs, serialised, with at most one trailing "/" dropped. */
  function NormalizeUrl(parse: Parser, url: string): (r: string)
    ensures parse(url).None? ==> r == url
    ensures parse(url).Some? ==>
      var h := Href(WithoutTracking(parse(url).value));
      (r == h || r + "/" == h) && (EndsWith(h, "/") <==> r != h)
  {
    match parse(url)
    case None => url
    case Some(u) => StripTrailingSlash(Href(WithoutTracking(u)))
  }

  /** Only one slash goes: a URL whose serialisation ends in "//" still ends in "/"
      after normalising, so normalising is not idempotent. */
  lemma NormalizeStripsOneSlash(parse: Parser, url: string, u: UrlRecord)
    requires parse(url) == Some(u)
    requires u.query == [] && u.fragment == "" && EndsWith(u.path, "//")
    ensures EndsWith(NormalizeUrl(parse, url), "/")
  {
    var h := Href(WithoutTracking(u));
    HrefEndsWithPath(WithoutTracking(u));
    EndsWithTransitive(h, u.path, "//");
    EndsWithTransitive(h, "//", "/");
    DropOneOfTwo(h, NormalizeUrl(parse, url));
  }

  /** Dropping one of two trailing slashes leaves one. */
  lemma DropOneOfTwo(h: string, r: string)
    requires EndsWith(h, "//") && r + "/" == h
    ensures EndsWith(r, "/")
  {
    assert h[|h| - 2..][0] == h[|h| - 2] == '/';
    assert r[|r| - 1] == h[|h| - 2];
    assert r[|r| - 1..] == [r[|r| - 1]];
  }

  /** Without query and fragment, the serialisation ends with the path. */
  lemma HrefEndsWithPath(u: UrlRecord)
    requires u.query == [] && u.fragment == "" && |u.path| >= 2
    ensures EndsWith(Href(u), u.path)
  {
    assert QueryText([]) == "";
    var head := u.protocol + "//" + u.hostname + (if u.port == "" then "" else ":" + u.port);
    assert Href(u) == head + u.path;
  }

  /** `extractDomain`: the host name, or `None` for an unparseable URL. */
  function ExtractDomain(parse: Parser, url: string): (r: Option<string>)
    ensures r.Some? <==> parse(url).Some?
    ensures r.Some? ==> r.value == parse(url).value.hostname
  {
    match parse(url)
    case None => None
    case Some(u) => Some(u.hostname)
  }

  /** The redirect parameters `extractContinueUrl` consults, in priority order. */
  const ContinueKeys: seq<string> := ["continue", "redirect_uri", "return_to", "returnUrl"]

  /** Reference: the first truthy value among the `keys`, in their order. */
  function FirstTruthy(query: seq<Param>, keys: seq<string>): (r: Option<string>)
    ensures r.Some? ==> r.value != ""
    ensures r.None? <==> forall i :: 0 <= i < |keys| ==> !Truthy(Get(query, keys[i]))
    ensures r.Some? ==>
      exists i :: 0 <= i < |keys| && r == Get(query, keys[i]) && (forall j :: 0 <= j < i ==> !Truthy(Get(query, keys[j])))
  {
    if |keys| == 0 then None
    else if Truthy(Get(query, keys[0])) then Get(query, keys[0])
    else
      var r := FirstTruthy(query, keys[1..]);
      assert forall i :: 1 <= i < |keys| ==> keys[i] == keys[1..][i - 1];
      if r.Some? then
        var i :| 0 <= i < |keys[1..]| && r == Get(query, keys[1..][i]) &&
          (forall j :: 0 <= j < i ==> !Truthy(Get(query, keys[1..][j])));
        assert r == Get(query, keys[i + 1]);
        r
      else r
  }

  /** `a || b`: the first operand when truthy, the second otherwise. */
  function Or(a: Option<string>, b: Option<string>): Option<string> {
    if Truthy(a) then a else b
  }

  /** `extractContinueUrl`: `decode` is `decodeURIComponent`, `None` when it throws (a
      malformed escape), which the surrounding `catch` turns into `null`. */
  function ExtractContinueUrl(parse: Parser, decode: string -> Option<string>, url: string): Option<string> {
    match parse(url)
    case None => None
    case Some(u) =>
      var continueParam := Get(u.query, "continue");
      if Truthy(continueParam) then decode(continueParam.value)
      else
        var redirectParam := Or(Get(u.query, "redirect_uri"), Or(Get(u.query, "return_to"), Get(u.query, "returnUrl")));
        if Truthy(redirectParam) then decode(redirectParam.value)
        else None
  }

  /** `extractContinueUrl` decodes the first non-empty value of `continue`,
      `redirect_uri`, `return_to` and `returnUrl`, in that priority, and gives `None`
      when there is none or the URL does not parse. */
  lemma ContinuePriority(parse: Parser, decode: string -> Option<string>, url: string)
    ensures ExtractContinueUrl(parse, decode, url) ==
      match parse(url)
      case None => None
      case Some(u) =>
        match FirstTruthy(u.query, ContinueKeys)
        case None => None
        case Some(v) => decode(v)
  {
    if parse(url).Some? {
      var q := parse(url).value.query;
      assert ContinueKeys[0] == "continue";
      assert ContinueKeys[1..] == ["redirect_uri", "return_to", "returnUrl"];
      RedirectChain(q);
    }
  }

  /** The `||` chain of the three redirect parameters picks the first truthy one. */
  lemma RedirectChain(q: seq<Param>)
    ensures var r := Or(Get(q, "redirect_uri"), Or(Get(q, "return_to"), Get(q, "returnUrl")));
      var f := FirstTruthy(q, ["redirect_uri", "return_to", "returnUrl"]);
      (Truthy(r) ==> f == r) && (!Truthy(r) ==> f == None)
  {
    var a, b, c := Get(q, "redirect_uri"), Get(q, "return_to"), Get(q, "returnUrl");
    assert ["returnUrl"][1..] == [];
    assert FirstTruthy(q, ["returnUrl"]) == if Truthy(c) then c else None;
    assert ["return_to", "returnUrl"][1..] == ["returnUrl"];
    assert FirstTruthy(q, ["return_to", "returnUrl"]) == if Truthy(b) then b else FirstTruthy(q, ["returnUrl"]);
    assert ["redirect_uri", "return_to", "returnUrl"][1..] == ["return_to", "returnUrl"];
    assert FirstTruthy(q, ["redirect_uri", "return_to", "returnUrl"]) ==
      if Truthy(a) then a else FirstTruthy(q, ["return_to", "returnUrl"]);
  }

  // ---------------------------------------------------------------------------
  // String rewrites.

  /** `s.replace(pat, rep)` with a string pattern: the first occurrence only. */
  function ReplaceFirst(s: string, pat: string, rep: string): (r: string)
    requires |pat| > 0
    decreases |s|
  {
    if |s| == 0 then s
    else if pat <= s then rep + s[|pat|..]
    else [s[0]] + ReplaceFirst(s[1..], pat, rep)
  }

  /** `pat` occurs at `i` and nowhere before. */
  predicate FirstOccurrence(s: string, pat: string, i: nat) {
    OccursAt(s, pat, i) && forall j: nat :: j < i ==> !OccursAt(s, pat, j)
  }

  /** Without an occurrence nothing changes; with one, exactly the first occurrence is
      replaced and everything around it is kept. */
  lemma {:induction false} ReplaceFirstEffect(s: string, pat: string, rep: string)
    requires |pat| > 0
    ensures !Contains(s, pat) ==> ReplaceFirst(s, pat, rep) == s
    ensures Contains(s, pat) ==> exists i: nat ::
      i + |pat| <= |s| && FirstOccurrence(s, pat, i) &&
      ReplaceFirst(s, pat, rep) == s[..i] + rep + s[i + |pat|..]
    ensures Contains(s, pat) ==> |ReplaceFirst(s, pat, rep)| == |s| - |pat| + |rep|
    decreases |s|
  {
    if Contains(s, pat) {
      var i := ReplaceFirstPosition(s, pat, rep);
    } else if |s| > 0 {
      ReplaceFirstEffect(s[1..], pat, rep);
      assert [s[0]] + s[1..] == s;
    }
  }

  /** Where the replacement happens: at the first occurrence. */
  lemma {:induction false} ReplaceFirstPosition(s: string, pat: string, rep: string) returns (i: nat)
    requires |pat| > 0 && Contains(s, pat)
    ensures i + |pat| <= |s| && FirstOccurrence(s, pat, i)
    ensures ReplaceFirst(s, pat, rep) == s[..i] + rep + s[i + |pat|..]
    decreases |s|
  {
    if pat <= s {
      i := 0;
      assert s[0..|pat|] == s[..|pat|];
      assert s[..0] + rep + s[|pat|..] == rep + s[|pat|..];
    } else {
      var t := s[1..];
      var k := ReplaceFirstPosition(t, pat, rep);
      i := k + 1;
      ShiftFirstOccurrence(s, pat, k);
      assert [s[0]] + t[..k] == s[..i];
      assert t[k + |pat|..] == s[i + |pat|..];
    }
  }

  /** Past the first character, occurrences in `s` are the occurrences in its tail. */
  lemma OccursShift(s: string, pat: string, j: nat)
    requires |s| > 0 && j > 0
    ensures OccursAt(s, pat, j) <==> OccursAt(s[1..], pat, j - 1)
  {
    if j + |pat| <= |s| {
      assert s[j..j + |pat|] == s[1..][j - 1..j - 1 + |pat|];
    }
  }

  /** A first occurrence in the tail, where the string does not start with `pat`, is the
      first occurrence in the whole string, one place further on. */
  lemma ShiftFirstOccurrence(s: string, pat: string, i: nat)
    requires |s| > 0 && !(pat <= s)
    requires FirstOccurrence(s[1..], pat, i)
    ensures FirstOccurrence(s, pat, i + 1)
  {
    OccursShift(s, pat, i + 1);
    forall j: nat | j < i + 1 ensures !OccursAt(s, pat, j) {
      if j == 0 {
        assert |pat| <= |s| ==> s[0..|pat|] == s[..|pat|];
      } else {
        OccursShift(s, pat, j);
      }
    }
  }

  /** `s.replace(pat, rep)` with a string pattern changes `s` exactly when `s` contains
      `pat`, as long as the two have different lengths ("https://" and "http://"). */
  lemma ReplaceFirstChanges(s: string, pat: string, rep: string)
    requires |pat| > 0 && |pat| != |rep|
    ensures ReplaceFirst(s, pat, rep) != s <==> Contains(s, pat)
  {
    ReplaceFirstEffect(s, pat, rep);
  }

  /** `s.replace(/pat/g, rep)` for a literal pattern: every occurrence, left to right,
      without overlaps. */
  function ReplaceAll(s: string, pat: string, rep: string): string
    requires |pat| > 0
    decreases |s|
  {
    if |s| == 0 then s
    else if pat <= s then rep + ReplaceAll(s[|pat|..], pat, rep)
    else [s[0]] + ReplaceAll(s[1..], pat, rep)
  }

  /** Without an occurrence nothing changes; a shorter replacement makes every
      occurrence shorten the string. */
  lemma {:induction false} ReplaceAllEffect(s: string, pat: string, rep: string)
    requires |pat| > 0 && |rep| < |pat|
    ensures !Contains(s, pat) ==> ReplaceAll(s, pat, rep) == s
    ensures Contains(s, pat) ==> |ReplaceAll(s, pat, rep)| < |s|
    ensures |ReplaceAll(s, pat, rep)| <= |s|
    decreases |s|
  {
    if |s| > 0 {
      if pat <= s {
        ReplaceAllEffect(s[|pat|..], pat, rep);
      } else {
        ReplaceAllEffect(s[1..], pat, rep);
        assert [s[0]] + s[1..] == s;
      }
    }
  }

  /** `url.replace(/\/\/www\./g, '//')` changes the URL exactly when it contains
      "//www.". */
  lemma WithoutWwwChanges(url: string)
    ensures ReplaceAll(url, "//www.", "//") != url <==> Contains(url, "//www.")
  {
    ReplaceAllEffect(url, "//www.", "//");
  }

  /** Length of the leading run of characters other than '.' (`[^.]+`, greedy). */
  function NonDotRun(s: string): (n: nat)
    ensures n <= |s|
    ensures forall i :: 0 <= i < n ==> s[i] != '.'
    ensures n < |s| ==> s[n] == '.'
  {
    if |s| == 0 || s[0] == '.' then 0 else 1 + NonDotRun(s[1..])
  }

  /** `url.replace(/\/\/([^.]+)/g, '//www.$1')`: every "//" followed by at least one
      character other than '.' gets "www." inserted after it; the match swallows the
      whole run of non-dot characters. */
  function AddWww(s: string): string
    decreases |s|
  {
    if |s| < 3 then s
    else if s[..2] == "//" && s[2] != '.' then
      var n := NonDotRun(s[2..]);
      "//www." + s[2..2 + n] + AddWww(s[2 + n..])
    else [s[0]] + AddWww(s[1..])
  }

  /** A string without "//" has nothing to rewrite. */
  lemma {:induction false} AddWwwIdentity(s: string)
    requires !Contains(s, "//")
    ensures AddWww(s) == s
    decreases |s|
  {
    if |s| >= 3 {
      assert !("//" <= s);
      assert s[..2] != "//";
      assert !Contains(s[1..], "//");
      AddWwwIdentity(s[1..]);
      assert [s[0]] + s[1..] == s;
    }
  }

  /** A first character other than '/' cannot start a match. */
  lemma AddWwwCons(c: char, t: string)
    requires c != '/'
    ensures AddWww([c] + t) == [c] + AddWww(t)
  {
    var s := [c] + t;
    if |s| >= 3 {
      assert s[..2][0] == c;
      assert s[1..] == t;
    } else if |t| >= 0 {
      assert AddWww(t) == t;
    }
  }

  /** A prefix without '/' is copied unchanged. */
  lemma {:induction false} AddWwwSkip(p: string, t: string)
    requires forall i :: 0 <= i < |p| ==> p[i] != '/'
    ensures AddWww(p + t) == p + AddWww(t)
    decreases |p|
  {
    if |p| > 0 {
      var c, rest := p[0], p[1..];
      assert p + t == [c] + (rest + t);
      AddWwwCons(c, rest + t);
      AddWwwSkip(rest, t);
      assert [c] + (rest + AddWww(t)) == p + AddWww(t);
    } else {
      assert p + t == t;
      assert p + AddWww(t) == AddWww(t);
    }
  }

  /** The run of non-dot characters ends at the first '.'. */
  lemma {:induction false} NonDotRunUpTo(p: string, t: string)
    requires forall i :: 0 <= i < |p| ==> p[i] != '.'
    requires |t| > 0 && t[0] == '.'
    ensures NonDotRun(p + t) == |p|
    decreases |p|
  {
    if |p| > 0 {
      assert (p + t)[1..] == p[1..] + t;
      NonDotRunUpTo(p[1..], t);
    } else {
      assert p + t == t;
    }
  }

  /** "//" followed by a dot-free host name and then a '.' gets "www." inserted. */
  lemma AddWwwAtHost(h: string, rest: string)
    requires |h| > 0 && forall i :: 0 <= i < |h| ==> h[i] != '.'
    requires |rest| > 0 && rest[0] == '.'
    ensures AddWww("//" + h + rest) == "//www." + h + AddWww(rest)
  {
    var s := "//" + h + rest;
    assert s[2..] == h + rest;
    NonDotRunUpTo(h, rest);
    assert s[..2] == "//" && s[2] == h[0];
    assert s[2..2 + |h|] == h;
    assert s[2 + |h|..] == rest;
  }

  /** On an address "scheme//host.rest" whose host label has no dot and whose rest has
      no further "//", the rewrite inserts "www." in front of the host and nothing
      else. */
  lemma AddWwwOnAddress(scheme: string, h: string, rest: string)
    requires forall i :: 0 <= i < |scheme| ==> scheme[i] != '/'
    requires |h| > 0 && forall i :: 0 <= i < |h| ==> h[i] != '.'
    requires |rest| > 0 && rest[0] == '.' && !Contains(rest, "//")
    ensures AddWww(scheme + ("//" + h + rest)) == scheme + ("//www." + h + rest)
  {
    AddWwwAtHost(h, rest);
    AddWwwIdentity(rest);
    AddWwwSkip(scheme, "//" + h + rest);
  }


}
