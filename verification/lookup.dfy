/** `findBookmarkByUrl` of the background script: which bookmark a visited URL is
    taken to belong to.

    The lookup tries, in order, the URL itself, its normalised form, the form
    without "//www.", the form with "www." added, and the http/https swaps; then it
    follows the redirect parameter of a login page recursively; and for yad2.co.il
    hosts it finally falls back to any bookmark on that domain.

    `chrome.bookmarks.search({url})` is modelled as an exact comparison of URL
    strings over the URL bookmarks of the tree, answering the first in tree order. */
module Lookup {
  import opened Common
  import opened UrlRecords
  import opened Bookmarks
  import opened UrlHelpers

  /** What the lookup depends on besides the URL: the host's URL parser, the host's
      `decodeURIComponent` (`None` when it throws), and the bookmark tree. */
  datatype Env = Env(parse: Parser, decode: string -> Option<string>, tree: seq<Node>)

  /** The bookmarks that `chrome.bookmarks.search` can answer, in tree order. */
  function AllUrlBookmarks(tree: seq<Node>): seq<Node> {
    UrlNodes(PreOrder(tree))
  }

  /** `chrome.bookmarks.search({url})[0]`: the first bookmark carrying exactly `url`. */
  function Search(bs: seq<Node>, url: string): (r: Option<Node>)
    ensures r.None? <==> forall i :: 0 <= i < |bs| ==> bs[i].url != Some(url)
    ensures r.Some? ==> r.value.url == Some(url) && r.value in bs
    ensures r.Some? ==> exists i :: 0 <= i < |bs| && bs[i] == r.value && (forall j :: 0 <= j < i ==> bs[j].url != Some(url))
  {
    if |bs| == 0 then None
    else if bs[0].url == Some(url) then Some(bs[0])
    else
      var r := Search(bs[1..], url);
      assert forall i :: 1 <= i < |bs| ==> bs[i] == bs[1..][i - 1];
      if r.Some? then
        var i :| 0 <= i < |bs[1..]| && bs[1..][i] == r.value && (forall j :: 0 <= j < i ==> bs[1..][j].url != Some(url));
        assert bs[i + 1] == r.value;
        r
      else r
  }

  /** The rewrites of the URL, as `findBookmarkByUrl` computes them. */
  function WithoutWww(url: string): string {
    ReplaceAll(url, "//www.", "//")
  }

  function HttpVariant(url: string): string {
    ReplaceFirst(url, "https://", "http://")
  }

  function HttpsVariant(url: string): string {
    ReplaceFirst(url, "http://", "https://")
  }

  /** The rewrites in the order they are tried, including those that leave the URL
      unchanged. The "www." rewrite counts only when the URL does not already contain
      "www.". */
  function Rewrites(parse: Parser, url: string): seq<string> {
    [NormalizeUrl(parse, url), WithoutWww(url)]
    + (if !Contains(url, "www.") then [AddWww(url)] else [])
    + [HttpVariant(url), HttpsVariant(url)]
  }

  function Differs(url: string): string -> bool {
    v => v != url
  }

  /** The URLs searched before the redirect and domain fallbacks, in order: the URL
      itself, then every rewrite that changes it. */
  function Candidates(parse: Parser, url: string): (cs: seq<string>)
    ensures |cs| >= 1 && cs[0] == url
    ensures forall i :: 1 <= i < |cs| ==> cs[i] != url
    ensures forall v :: v in cs <==> v == url || v in Rewrites(parse, url)
  {
    var tail := Filter(Rewrites(parse, url), Differs(url));
    var cs := [url] + tail;
    forall i | 1 <= i < |cs| ensures cs[i] != url {
      assert cs[i] == tail[i - 1] && tail[i - 1] in tail;
    }
    cs
  }

  /** Each rewrite `findBookmarkByUrl` computes is searched. */
  lemma RewritesSearched(parse: Parser, url: string)
    ensures NormalizeUrl(parse, url) in Candidates(parse, url)
    ensures WithoutWww(url) in Candidates(parse, url)
    ensures HttpVariant(url) in Candidates(parse, url)
    ensures HttpsVariant(url) in Candidates(parse, url)
    ensures !Contains(url, "www.") ==> AddWww(url) in Candidates(parse, url)
  {
    var rw := Rewrites(parse, url);
    assert NormalizeUrl(parse, url) == rw[0] && WithoutWww(url) == rw[1];
    assert HttpVariant(url) == rw[|rw| - 2] && HttpsVariant(url) == rw[|rw| - 1];
    if !Contains(url, "www.") {
      assert AddWww(url) == rw[2];
    }
  }

  /** The answer to the first search, in the order of `cs`, that finds something. */
  function FirstHit(bs: seq<Node>, cs: seq<string>): (r: Option<Node>)
    ensures r.None? <==> forall i :: 0 <= i < |cs| ==> Search(bs, cs[i]).None?
    ensures r.Some? ==> exists i :: 0 <= i < |cs| && r == Search(bs, cs[i]) &&
                          (forall j :: 0 <= j < i ==> Search(bs, cs[j]).None?)
  {
    if |cs| == 0 then None
    else if Search(bs, cs[0]).Some? then Search(bs, cs[0])
    else
      var r := FirstHit(bs, cs[1..]);
      assert forall i :: 1 <= i < |cs| ==> cs[i] == cs[1..][i - 1];
      if r.Some? then
        var i :| 0 <= i < |cs[1..]| && r == Search(bs, cs[1..][i]) &&
                 (forall j :: 0 <= j < i ==> Search(bs, cs[1..][j]).None?);
        assert r == Search(bs, cs[i + 1]);
        r
      else r
  }

  /** The domain test of the last resort. */
  predicate IsYad2Domain(d: Option<string>) {
    Truthy(d) && (Contains(d.value, "yad2.co.il") || Contains(d.value, "auth.yad2.co.il"))
  }

  /** The second alternative of the domain test adds nothing: every host containing
      "auth.yad2.co.il" contains "yad2.co.il". */
  lemma Yad2DomainTest(d: Option<string>)
    ensures IsYad2Domain(d) <==> Truthy(d) && Contains(d.value, "yad2.co.il")
  {
    if Truthy(d) && Contains(d.value, "auth.yad2.co.il") {
      assert "auth." + "yad2.co.il" + "" == "auth.yad2.co.il";
      ContainsInfix("auth.", "yad2.co.il", "");
      ContainsTransitive(d.value, "auth.yad2.co.il", "yad2.co.il");
    }
  }

  /** A bookmark the last resort may answer: its host contains "yad2.co.il". */
  predicate IsYad2Bookmark(parse: Parser, b: Node) {
    b.url.Some? && var d := ExtractDomain(parse, b.url.value); Truthy(d) && Contains(d.value, "yad2.co.il")
  }

  function Yad2Filter(parse: Parser): Node -> bool {
    b => IsYad2Bookmark(parse, b)
  }

  /** The domain-based last resort: for a yad2.co.il URL, the first bookmark in tree
      order whose host contains "yad2.co.il". */
  function Yad2Fallback(env: Env, url: string): (r: Option<Node>)
    ensures r.Some? ==> r.value in AllUrlBookmarks(env.tree) && IsYad2Bookmark(env.parse, r.value)
    ensures r.Some? ==>
      var m := Filter(AllUrlBookmarks(env.tree), Yad2Filter(env.parse)); |m| > 0 && r.value == m[0]
    ensures r.None? <==>
      !IsYad2Domain(ExtractDomain(env.parse, url)) ||
      forall b :: b in AllUrlBookmarks(env.tree) ==> !IsYad2Bookmark(env.parse, b)
  {
    if IsYad2Domain(ExtractDomain(env.parse, url)) then
      var m := Filter(AllUrlBookmarks(env.tree), Yad2Filter(env.parse));
      if |m| > 0 then
        assert m[0] in m;
        Some(m[0])
      else
        assert forall b :: b in AllUrlBookmarks(env.tree) ==> !IsYad2Bookmark(env.parse, b) by {
          forall b | b in AllUrlBookmarks(env.tree) ensures !IsYad2Bookmark(env.parse, b) {
            assert b !in m;
          }
        }
        None
    else None
  }

  /** The recursion through redirect parameters ends: the host's parser and decoder
      never produce a redirect target at least as long as the URL it came from (a
      query value is part of the URL, and percent-decoding only shortens). */
  ghost predicate ContinueShrinks(parse: Parser, decode: string -> Option<string>) {
    forall u :: ExtractContinueUrl(parse, decode, u).Some? ==> |ExtractContinueUrl(parse, decode, u).value| < |u|
  }

  /** `findBookmarkByUrl`. */
  function FindBookmarkByUrl(env: Env, url: string): (r: Option<Node>)
    requires ContinueShrinks(env.parse, env.decode)
    ensures r.Some? ==> r.value in AllUrlBookmarks(env.tree) && HasUrl(r.value)
    ensures Search(AllUrlBookmarks(env.tree), url).Some? ==> r == Search(AllUrlBookmarks(env.tree), url)
    ensures FirstHit(AllUrlBookmarks(env.tree), Candidates(env.parse, url)).Some? ==>
      r == FirstHit(AllUrlBookmarks(env.tree), Candidates(env.parse, url))
    ensures r.None? ==> forall c :: c in Candidates(env.parse, url) ==> Search(AllUrlBookmarks(env.tree), c).None?
    ensures r.None? ==> Yad2Fallback(env, url).None?
    decreases |url|
  {
    var bs := AllUrlBookmarks(env.tree);
    var hit := FirstHit(bs, Candidates(env.parse, url));
    if hit.Some? then
      UrlNodesHaveUrls(PreOrder(env.tree), hit.value);
      hit
    else
      var continueUrl := ExtractContinueUrl(env.parse, env.decode, url);
      var viaContinue := if Truthy(continueUrl) then FindBookmarkByUrl(env, continueUrl.value) else None;
      if viaContinue.Some? then viaContinue
      else
        var r := Yad2Fallback(env, url);
        if r.Some? then UrlNodesHaveUrls(PreOrder(env.tree), r.value); r
        else r
  }

  /** The login-redirect step: when no candidate of the visited URL is bookmarked but
      one of the redirect target's own candidates is, the target's first hit is the
      answer; a target bookmarked as it is wins. */
  lemma RedirectTargetFound(env: Env, url: string)
    requires ContinueShrinks(env.parse, env.decode)
    requires FirstHit(AllUrlBookmarks(env.tree), Candidates(env.parse, url)).None?
    requires Truthy(ExtractContinueUrl(env.parse, env.decode, url))
    requires FirstHit(AllUrlBookmarks(env.tree), Candidates(env.parse, ExtractContinueUrl(env.parse, env.decode, url).value)).Some?
    ensures FindBookmarkByUrl(env, url) ==
      FirstHit(AllUrlBookmarks(env.tree), Candidates(env.parse, ExtractContinueUrl(env.parse, env.decode, url).value))
    ensures var c := ExtractContinueUrl(env.parse, env.decode, url).value;
      Search(AllUrlBookmarks(env.tree), c).Some? ==> FindBookmarkByUrl(env, url) == Search(AllUrlBookmarks(env.tree), c)
  {
  }

  /** The last resort: when neither the candidates nor the redirect target find
      anything, a yad2.co.il page gets the first yad2.co.il bookmark in tree order, and
      any other page gets nothing. */
  lemma Yad2AnswersWhenAllMiss(env: Env, url: string)
    requires ContinueShrinks(env.parse, env.decode)
    requires FirstHit(AllUrlBookmarks(env.tree), Candidates(env.parse, url)).None?
    requires var c := ExtractContinueUrl(env.parse, env.decode, url);
      !Truthy(c) || FindBookmarkByUrl(env, c.value).None?
    ensures var m := Filter(AllUrlBookmarks(env.tree), Yad2Filter(env.parse));
      FindBookmarkByUrl(env, url) ==
        if IsYad2Domain(ExtractDomain(env.parse, url)) && |m| > 0 then Some(m[0]) else None
  {
    var m := Filter(AllUrlBookmarks(env.tree), Yad2Filter(env.parse));
    if IsYad2Domain(ExtractDomain(env.parse, url)) && |m| > 0 {
      assert m[0] in m;
    }
  }

  /** Every node `UrlNodes` keeps has a URL. */
  lemma {:induction false} UrlNodesHaveUrls(s: seq<Node>, n: Node)
    requires n in UrlNodes(s)
    ensures HasUrl(n)
  {
    if |s| > 0 {
      if n != s[0] || !HasUrl(s[0]) {
        assert n in UrlNodes(s[1..]);
        UrlNodesHaveUrls(s[1..], n);
      }
    }
  }

  /** A bookmark carrying the http form of an https URL is found. */
  lemma HttpsFindsHttpBookmark(env: Env, url: string, b: Node)
    requires ContinueShrinks(env.parse, env.decode)
    requires StartsWith(url, "https://")
    requires b in AllUrlBookmarks(env.tree) && b.url == Some("http://" + url[8..])
    ensures FindBookmarkByUrl(env, url).Some?
  {
    var v := HttpVariant(url);
    assert v == "http://" + url[8..];
    RewritesSearched(env.parse, url);
    FoundWhenCandidateCarried(env, url, v, b);
  }

  /** A bookmark carrying the https form of an http URL is found. */
  lemma HttpFindsHttpsBookmark(env: Env, url: string, b: Node)
    requires ContinueShrinks(env.parse, env.decode)
    requires StartsWith(url, "http://")
    requires b in AllUrlBookmarks(env.tree) && b.url == Some("https://" + url[7..])
    ensures FindBookmarkByUrl(env, url).Some?
  {
    var v := HttpsVariant(url);
    assert v == "https://" + url[7..];
    RewritesSearched(env.parse, url);
    FoundWhenCandidateCarried(env, url, v, b);
  }

  /** A bookmark carrying "www." in front of the host of a URL without "www." is
      found. */
  lemma FindsWwwBookmark(env: Env, scheme: string, host: string, rest: string, b: Node)
    requires ContinueShrinks(env.parse, env.decode)
    requires forall i :: 0 <= i < |scheme| ==> scheme[i] != '/'
    requires |host| > 0 && forall i :: 0 <= i < |host| ==> host[i] != '.'
    requires |rest| > 0 && rest[0] == '.' && !Contains(rest, "//")
    requires !Contains(scheme + ("//" + host + rest), "www.")
    requires b in AllUrlBookmarks(env.tree) && b.url == Some(scheme + ("//www." + host + rest))
    ensures FindBookmarkByUrl(env, scheme + ("//" + host + rest)).Some?
  {
    AddWwwOnAddress(scheme, host, rest);
    RewritesSearched(env.parse, scheme + ("//" + host + rest));
    FoundWhenCandidateCarried(env, scheme + ("//" + host + rest), scheme + ("//www." + host + rest), b);
  }

  /** A bookmark carrying any of the searched candidates is found. */
  lemma FoundWhenCandidateCarried(env: Env, url: string, v: string, b: Node)
    requires ContinueShrinks(env.parse, env.decode)
    requires v in Candidates(env.parse, url)
    requires b in AllUrlBookmarks(env.tree) && b.url == Some(v)
    ensures FindBookmarkByUrl(env, url).Some?
  {
    var bs := AllUrlBookmarks(env.tree);
    var i :| 0 <= i < |bs| && bs[i] == b;
    assert Search(bs, v).Some?;
  }

  // ---------------------------------------------------------------------------
  // A concrete login redirect: every URL of two or more characters parses as a login
  // page whose `continue` parameter is "x", and the only bookmark is "x".

  const ExampleLogin := UrlRecord("https:", "login", "", "/", [Param("continue", "x")], "")
  const ExampleTarget := Node("1", "X", Some("x"), None, NoChildren)
  const ExampleEnv := Env(u => if |u| >= 2 then Some(ExampleLogin) else None, s => Some(s), [ExampleTarget])

  /** Visiting the login page "zz" finds the bookmark of its redirect target. */
  lemma ExampleRedirect()
    ensures ContinueShrinks(ExampleEnv.parse, ExampleEnv.decode)
    ensures FindBookmarkByUrl(ExampleEnv, "zz") == Some(ExampleTarget)
  {
    ExampleShrinks();
    ExampleBookmarks();
    ExampleNoCandidateHits();
    assert ExtractContinueUrl(ExampleEnv.parse, ExampleEnv.decode, "zz") == Some("x") by {
      assert Get(ExampleLogin.query, "continue") == Some("x");
    }
    var cs := Candidates(ExampleEnv.parse, "x");
    assert cs[0] == "x" && Search([ExampleTarget], "x").Some?;
    RedirectTargetFound(ExampleEnv, "zz");
  }

  lemma ExampleShrinks()
    ensures ContinueShrinks(ExampleEnv.parse, ExampleEnv.decode)
  {
    var env := ExampleEnv;
    assert Get(ExampleLogin.query, "continue") == Some("x");
    forall u | ExtractContinueUrl(env.parse, env.decode, u).Some?
      ensures |ExtractContinueUrl(env.parse, env.decode, u).value| < |u|
    {
      assert env.parse(u).Some?;
    }
  }

  lemma ExampleBookmarks()
    ensures AllUrlBookmarks(ExampleEnv.tree) == [ExampleTarget]
  {
    assert PreOrder([ExampleTarget]) == [ExampleTarget];
    assert HasUrl(ExampleTarget) && [ExampleTarget][1..] == [];
    assert UrlNodes([ExampleTarget]) == [ExampleTarget];
  }

  /** None of the URLs searched for "zz" is "x": the rewrites leave "zz" as it is, and
      the normalised form is the login page's serialisation. */
  lemma ExampleNoCandidateHits()
    ensures FirstHit(AllUrlBookmarks(ExampleEnv.tree), Candidates(ExampleEnv.parse, "zz")).None?
  {
    ExampleBookmarks();
    ExampleRewrites();
    var cs := Candidates(ExampleEnv.parse, "zz");
    assert forall v :: v in cs ==> v != "x";
    MissesAll([ExampleTarget], cs, "x");
  }

  /** A candidate list without the only bookmarked URL hits nothing. */
  lemma MissesAll(bs: seq<Node>, cs: seq<string>, x: string)
    requires forall i :: 0 <= i < |bs| ==> bs[i].url == Some(x)
    requires forall v :: v in cs ==> v != x
    ensures FirstHit(bs, cs).None?
  {
    forall i | 0 <= i < |cs| ensures Search(bs, cs[i]).None? {
      assert cs[i] in cs;
    }
  }

  lemma ExampleRewrites()
    ensures forall v :: v in Rewrites(ExampleEnv.parse, "zz") ==> v != "x"
  {
    ExampleNormalized();
    ExampleRewritesKeep();
  }

  lemma ExampleNormalized()
    ensures NormalizeUrl(ExampleEnv.parse, "zz") != "x"
  {
    assert ExampleEnv.parse("zz") == Some(ExampleLogin);
    assert |Href(WithoutTracking(ExampleLogin))| >= 13;
  }

  /** The replace rewrites leave a two-letter string without "/" as it is. */
  lemma ExampleRewritesKeep()
    ensures WithoutWww("zz") == "zz" && AddWww("zz") == "zz"
    ensures HttpVariant("zz") == "zz" && HttpsVariant("zz") == "zz"
  {
    assert ReplaceAll("z", "//www.", "//") == "z";
    assert ReplaceFirst("z", "https://", "http://") == "z";
    assert ReplaceFirst("z", "http://", "https://") == "z";
  }
}
