/** The bookmark tree as the options page reads it, its flattening into a list of
    URL-bearing bookmarks plus a folder map, and the human-readable folder path
    rebuilt from that map. */
module Bookmarks {
  import opened Common

  /** A node of the host's bookmark tree. A leaf bookmark has a URL; a folder has
      children. The two fields are tested independently, as the scripts do. */
  datatype Node = Node(
    id: string,
    title: string,
    url: Option<string>,
    parentId: Option<string>,
    children: Children)

  /** The `children` property: absent on a leaf, an array (possibly empty) on a folder. */
  datatype Children = NoChildren | Children(nodes: seq<Node>)

  /** `node.url` is truthy: the node counts as a bookmark rather than a folder. */
  predicate HasUrl(n: Node) {
    Truthy(n.url)
  }

  /** What the folder map stores about a folder. */
  datatype FolderEntry = FolderEntry(title: string, parentId: Option<string>)

  type FolderMap = map<string, FolderEntry>

  function EntryOf(n: Node): FolderEntry {
    FolderEntry(n.title, n.parentId)
  }

  /** The two outputs of one traversal: bookmarks in visiting order, and the folder map. */
  datatype Flattened = Flattened(bookmarks: seq<Node>, folders: FolderMap)

  /** Reference order: every node of a forest, parent before its subtree, siblings in order. */
  function PreOrder(nodes: seq<Node>): seq<Node>
    decreases nodes
  {
    if |nodes| == 0 then []
    else
      var n := nodes[0];
      [n] + (match n.children case Children(cs) => PreOrder(cs) case NoChildren => [])
      + PreOrder(nodes[1..])
  }

  /** The URL-bearing nodes of a list, in order. */
  function UrlNodes(s: seq<Node>): seq<Node>
  {
    if |s| == 0 then [] else (if HasUrl(s[0]) then [s[0]] else []) + UrlNodes(s[1..])
  }

  lemma {:induction false} UrlNodesAppend(a: seq<Node>, b: seq<Node>)
    ensures UrlNodes(a + b) == UrlNodes(a) + UrlNodes(b)
  {
    if |a| > 0 {
      assert (a + b)[0] == a[0];
      assert (a + b)[1..] == a[1..] + b;
      UrlNodesAppend(a[1..], b);
    } else {
      assert a + b == b;
    }
  }

  /** Records every URL-less node of `s` in `m`, a later node overwriting an earlier one
      with the same id (`Map.prototype.set`). */
  function RecordFolders(m: FolderMap, s: seq<Node>): FolderMap
    decreases |s|
  {
    if |s| == 0 then m
    else RecordFolders(if HasUrl(s[0]) then m else m[s[0].id := EntryOf(s[0])], s[1..])
  }

  lemma {:induction false} RecordFoldersAppend(m: FolderMap, a: seq<Node>, b: seq<Node>)
    ensures RecordFolders(m, a + b) == RecordFolders(RecordFolders(m, a), b)
    decreases |a|
  {
    if |a| > 0 {
      assert (a + b)[0] == a[0];
      assert (a + b)[1..] == a[1..] + b;
      RecordFoldersAppend(if HasUrl(a[0]) then m else m[a[0].id := EntryOf(a[0])], a[1..], b);
    } else {
      assert a + b == b;
    }
  }

  /** The ids of the URL-less nodes of a list. */
  function FolderIds(s: seq<Node>): set<string> {
    set n | n in s && !HasUrl(n) :: n.id
  }

  /** The folder map holds exactly the earlier keys and the ids of the folders recorded. */
  lemma {:induction false} RecordFoldersKeys(m: FolderMap, s: seq<Node>)
    ensures RecordFolders(m, s).Keys == m.Keys + FolderIds(s)
    decreases |s|
  {
    if |s| > 0 {
      var m' := if HasUrl(s[0]) then m else m[s[0].id := EntryOf(s[0])];
      RecordFoldersKeys(m', s[1..]);
      assert s == [s[0]] + s[1..];
      assert FolderIds(s) == FolderIds(s[1..]) + (if HasUrl(s[0]) then {} else {s[0].id});
    }
  }

  /** No two distinct positions carry the same id. */
  predicate UniqueIds(s: seq<Node>) {
    forall i, j :: 0 <= i < j < |s| ==> s[i].id != s[j].id
  }

  /** When ids are unique, every folder of the list is found in the map under its id
      with its own title and parent. */
  lemma {:induction false} RecordFoldersLookup(m: FolderMap, s: seq<Node>, n: Node)
    requires UniqueIds(s)
    requires n in s && !HasUrl(n)
    ensures n.id in RecordFolders(m, s)
    ensures RecordFolders(m, s)[n.id] == EntryOf(n)
    decreases |s|
  {
    var m' := if HasUrl(s[0]) then m else m[s[0].id := EntryOf(s[0])];
    assert UniqueIds(s[1..]) by {
      forall i, j | 0 <= i < j < |s[1..]| ensures s[1..][i].id != s[1..][j].id {
        assert s[1..][i] == s[i + 1] && s[1..][j] == s[j + 1];
      }
    }
    if n == s[0] {
      RecordFoldersKeepsAbsent(m', s[1..], n.id);
    } else {
      RecordFoldersLookup(m', s[1..], n);
    }
  }

  /** Recording nodes whose ids differ from `id` leaves the entry for `id` alone. */
  lemma {:induction false} RecordFoldersKeepsAbsent(m: FolderMap, s: seq<Node>, id: string)
    requires forall k :: 0 <= k < |s| ==> s[k].id != id
    requires id in m
    ensures id in RecordFolders(m, s) && RecordFolders(m, s)[id] == m[id]
    decreases |s|
  {
    if |s| > 0 {
      var m' := if HasUrl(s[0]) then m else m[s[0].id := EntryOf(s[0])];
      RecordFoldersKeepsAbsent(m', s[1..], id);
    }
  }

  /** The recursive `traverse` of `getAllBookmarks`, with the two shared accumulators
      passed along: each node is recorded as a folder when it has no URL, pushed as a
      bookmark when it has one, and its children are visited before its next sibling. */
  function Traverse(nodes: seq<Node>, acc: Flattened): (r: Flattened)
    ensures r.bookmarks == acc.bookmarks + UrlNodes(PreOrder(nodes))
    ensures r.folders == RecordFolders(acc.folders, PreOrder(nodes))
    decreases nodes
  {
    if |nodes| == 0 then acc
    else
      var n := nodes[0];
      var recorded := if !HasUrl(n) then acc.(folders := acc.folders[n.id := EntryOf(n)]) else acc;
      var pushed := if HasUrl(n) then recorded.(bookmarks := recorded.bookmarks + [n]) else recorded;
      var kids := match n.children case Children(cs) => PreOrder(cs) case NoChildren => [];
      var below := match n.children case Children(cs) => Traverse(cs, pushed) case NoChildren => pushed;
      var r := Traverse(nodes[1..], below);
      TraverseStep(n, kids, PreOrder(nodes[1..]), acc, pushed, below, r);
      r
  }

  /** One step of `Traverse`: visiting a node, then its subtree, then its siblings,
      accumulates exactly what the concatenated pre-order lists hold. */
  lemma TraverseStep(n: Node, kids: seq<Node>, rest: seq<Node>, acc: Flattened, pushed: Flattened, below: Flattened, r: Flattened)
    requires pushed.bookmarks == acc.bookmarks + UrlNodes([n])
    requires pushed.folders == RecordFolders(acc.folders, [n])
    requires below.bookmarks == pushed.bookmarks + UrlNodes(kids)
    requires below.folders == RecordFolders(pushed.folders, kids)
    requires r.bookmarks == below.bookmarks + UrlNodes(rest)
    requires r.folders == RecordFolders(below.folders, rest)
    ensures r.bookmarks == acc.bookmarks + UrlNodes([n] + kids + rest)
    ensures r.folders == RecordFolders(acc.folders, [n] + kids + rest)
  {
    Regroup([n], kids, rest);
    UrlNodesAppend([n], kids + rest);
    UrlNodesAppend(kids, rest);
    Regroup(acc.bookmarks + UrlNodes([n]), UrlNodes(kids), UrlNodes(rest));
    Regroup(acc.bookmarks, UrlNodes([n]), UrlNodes(kids) + UrlNodes(rest));
    RecordFoldersAppend(acc.folders, [n], kids + rest);
    RecordFoldersAppend(pushed.folders, kids, rest);
  }

  /** `getAllBookmarks`: the URL-bearing nodes of the whole tree in pre-order, and a map
      from every URL-less node's id to its title and parent. */
  function GetAllBookmarks(tree: seq<Node>): (r: Flattened)
    ensures r.bookmarks == UrlNodes(PreOrder(tree))
    ensures r.folders.Keys == FolderIds(PreOrder(tree))
    ensures UniqueIds(PreOrder(tree)) ==>
      forall n :: n in PreOrder(tree) && !HasUrl(n) ==> n.id in r.folders && r.folders[n.id] == EntryOf(n)
  {
    RecordFoldersKeys(map[], PreOrder(tree));
    RecordFoldersLookupAll(PreOrder(tree));
    Traverse(tree, Flattened([], map[]))
  }

  lemma RecordFoldersLookupAll(s: seq<Node>)
    ensures UniqueIds(s) ==>
      forall n :: n in s && !HasUrl(n) ==> n.id in RecordFolders(map[], s) && RecordFolders(map[], s)[n.id] == EntryOf(n)
  {
    if UniqueIds(s) {
      forall n | n in s && !HasUrl(n)
        ensures n.id in RecordFolders(map[], s) && RecordFolders(map[], s)[n.id] == EntryOf(n)
      {
        RecordFoldersLookup(map[], s, n);
      }
    }
  }

  // ---------------------------------------------------------------------------
  // Folder path of a bookmark (`getBookmarkPath`)

  /** Titles of the host's fixed root folders, which a path leaves out. */
  const RootTitles: set<string> := {"Bookmarks bar", "Other bookmarks", "Mobile bookmarks"}

  /** The separator between path segments: space, RIGHTWARDS ARROW, space. */
  const PathSeparator: string := " \U{2192} "

  /** A folder title that appears in a path: non-empty and not a root folder's. */
  predicate Shown(title: string) {
    title != "" && title !in RootTitles
  }

  /** Following parent links from `id` leaves the map (or reaches a falsy id) within
      `fuel` steps. The source walks the chain without a bound; this is what makes
      the walk finish. */
  predicate ChainEnds(m: FolderMap, id: Option<string>, fuel: nat)
    decreases fuel
  {
    !Truthy(id) || id.value !in m || (fuel > 0 && ChainEnds(m, m[id.value].parentId, fuel - 1))
  }

  /** Reference definition of a path: the shown titles of the folders met while walking
      up from `id`, outermost first. */
  function ShownAncestors(m: FolderMap, id: Option<string>, fuel: nat): seq<string>
    requires ChainEnds(m, id, fuel)
    decreases fuel
  {
    if !Truthy(id) || id.value !in m then []
    else
      var folder := m[id.value];
      ShownAncestors(m, folder.parentId, fuel - 1) + (if Shown(folder.title) then [folder.title] else [])
  }

  /** No root-folder title and no empty title ever becomes a path segment. */
  lemma {:induction false} ShownAncestorsAreShown(m: FolderMap, id: Option<string>, fuel: nat)
    requires ChainEnds(m, id, fuel)
    ensures forall t :: t in ShownAncestors(m, id, fuel) ==> t != "" && t !in RootTitles
    decreases fuel
  {
    if Truthy(id) && id.value in m {
      ShownAncestorsAreShown(m, m[id.value].parentId, fuel - 1);
    }
  }

  /** Extra fuel changes nothing: the path depends only on the map and the start id. */
  lemma {:induction false} ShownAncestorsFuel(m: FolderMap, id: Option<string>, fuel: nat, more: nat)
    requires ChainEnds(m, id, fuel) && fuel <= more
    ensures ChainEnds(m, id, more)
    ensures ShownAncestors(m, id, more) == ShownAncestors(m, id, fuel)
    decreases fuel
  {
    if Truthy(id) && id.value in m {
      ShownAncestorsFuel(m, m[id.value].parentId, fuel - 1, more - 1);
    }
  }

  /** `getBookmarkPath`: "Root" without a folder map or a parent id, otherwise the shown
      ancestor titles, outermost first, joined by the arrow separator, or "Root" when
      every ancestor was left out. The map must not send the walk round a cycle. */
  method GetBookmarkPath(b: Node, folderMap: Option<FolderMap>) returns (path: string)
    requires folderMap.Some? ==> ChainEnds(folderMap.value, b.parentId, |folderMap.value|)
    ensures folderMap.None? || !Truthy(b.parentId) ==> path == "Root"
    ensures folderMap.Some? && Truthy(b.parentId) ==>
      var titles := ShownAncestors(folderMap.value, b.parentId, |folderMap.value|);
      path == if |titles| > 0 then Join(titles, PathSeparator) else "Root"
  {
    if folderMap.None? || !Truthy(b.parentId) {
      return "Root";
    }
    var m := folderMap.value;
    var titles: seq<string> := [];
    var current := b.parentId;
    ghost var fuel: nat := |m|;
    while Truthy(current) && current.value in m
      invariant ChainEnds(m, current, fuel)
      invariant ShownAncestors(m, b.parentId, |m|) == ShownAncestors(m, current, fuel) + titles
      decreases fuel
    {
      var folder := m[current.value];
      if Shown(folder.title) {
        titles := [folder.title] + titles;
      }
      current := folder.parentId;
      fuel := fuel - 1;
    }
    assert ShownAncestors(m, current, fuel) == [];
    assert ShownAncestors(m, b.parentId, |m|) == [] + titles == titles;
    path := if |titles| > 0 then Join(titles, PathSeparator) else "Root";
  }

  /** A small tree in the host's shape: the unnamed root "0", the bookmarks bar "1",
      and a bookmark two folders below it. */
  const ExampleBookmark: Node := Node("12", "Docs", Some("https://example.com/docs"), Some("11"), NoChildren)
  const ExampleProjects: Node := Node("11", "Projects", None, Some("10"), Children([ExampleBookmark]))
  const ExampleWork: Node := Node("10", "Work", None, Some("1"), Children([ExampleProjects]))
  const ExampleBar: Node := Node("1", "Bookmarks bar", None, Some("0"), Children([ExampleWork]))
  const ExampleRoot: Node := Node("0", "", None, None, Children([ExampleBar]))

  const ExampleFolders: FolderMap :=
    map["0" := FolderEntry("", None), "1" := FolderEntry("Bookmarks bar", Some("0")),
        "10" := FolderEntry("Work", Some("1")), "11" := FolderEntry("Projects", Some("10"))]

  lemma ExamplePreOrder()
    ensures PreOrder([ExampleRoot]) == [ExampleRoot, ExampleBar, ExampleWork, ExampleProjects, ExampleBookmark]
  {
    assert PreOrder([ExampleBookmark]) == [ExampleBookmark];
    assert PreOrder([ExampleProjects]) == [ExampleProjects, ExampleBookmark];
    assert PreOrder([ExampleWork]) == [ExampleWork, ExampleProjects, ExampleBookmark];
    assert PreOrder([ExampleBar]) == [ExampleBar, ExampleWork, ExampleProjects, ExampleBookmark];
  }

  lemma ExampleFlattened()
    ensures GetAllBookmarks([ExampleRoot]) == Flattened([ExampleBookmark], ExampleFolders)
  {
    ExamplePreOrder();
    var pre := [ExampleRoot, ExampleBar, ExampleWork, ExampleProjects, ExampleBookmark];
    assert UrlNodes(pre[4..]) == [ExampleBookmark];
    assert UrlNodes(pre[3..]) == [ExampleBookmark];
    assert UrlNodes(pre[2..]) == [ExampleBookmark];
    assert UrlNodes(pre[1..]) == [ExampleBookmark];
    var m1 := map["0" := FolderEntry("", None)];
    var m2 := m1["1" := FolderEntry("Bookmarks bar", Some("0"))];
    var m3 := m2["10" := FolderEntry("Work", Some("1"))];
    var m := m3["11" := FolderEntry("Projects", Some("10"))];
    assert RecordFolders(m, pre[4..]) == m;
    assert RecordFolders(m3, pre[3..]) == m;
    assert RecordFolders(m2, pre[2..]) == m;
    assert RecordFolders(m1, pre[1..]) == m;
    assert m == ExampleFolders;
  }

  lemma ExampleFoldersWalk()
    ensures |ExampleFolders| == 4
    ensures ChainEnds(ExampleFolders, Some("11"), 4)
    ensures ShownAncestors(ExampleFolders, Some("11"), 4) == ["Work", "Projects"]
  {
    var m := ExampleFolders;
    assert m.Keys == {"0", "1", "10", "11"};
    assert ShownAncestors(m, Some("0"), 1) == [];
    assert ShownAncestors(m, Some("1"), 2) == [];
    assert ShownAncestors(m, Some("10"), 3) == ["Work"];
  }

  /** In that tree the bookmark is the only one found, and its path is "Work", "Projects":
      the unnamed root and the bookmarks bar are left out. */
  lemma ExamplePath()
    ensures var flat := GetAllBookmarks([ExampleRoot]);
      && flat.bookmarks == [ExampleBookmark]
      && ChainEnds(flat.folders, ExampleBookmark.parentId, |flat.folders|)
      && ShownAncestors(flat.folders, ExampleBookmark.parentId, |flat.folders|) == ["Work", "Projects"]
  {
    ExampleFlattened();
    ExampleFoldersWalk();
  }
}
