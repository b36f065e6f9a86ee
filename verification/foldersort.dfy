/** Automatic folder sorting and "sort by use" of the background script:
    `sortFolderContents`, `moveBookmarkToTop`, and the choice of folders the bookmark
    events re-sort.

    The scripts do not rearrange lists themselves; they issue `chrome.bookmarks.move`
    calls. A plan of moves is therefore the result of each operation here, and
    `ApplyMove` gives the host's meaning of one move within a folder, so that the
    effect of a whole plan can be stated and proved. */
module FolderSort {
  import opened Common
  import opened Bookmarks

  /** The two switches of the options page. */
  datatype Settings = Settings(autoFolderSorting: bool, sortByUse: bool)

  /** The id of the Bookmarks Bar. */
  const BookmarksBarId: string := "1"

  /** `isBookmarksBarOrChild`: despite its name, true only for the Bookmarks Bar's own
      id. Called with a folder id it spares the bar itself; called with a bookmark's
      parent id it spares the bar's direct children. */
  predicate IsBookmarksBarOrChild(parentId: string) {
    parentId == BookmarksBarId
  }

  /** One `chrome.bookmarks.move(id, {parentId, index})` call. */
  datatype Move = Move(id: string, parentId: string, index: nat)

  /** A child without a truthy URL is a folder (`!child.url`). */
  predicate IsFolder(n: Node) {
    !HasUrl(n)
  }

  function Folders(children: seq<Node>): seq<Node> {
    Filter(children, IsFolder)
  }

  function Links(children: seq<Node>): seq<Node> {
    Filter(children, HasUrl)
  }

  /** Splitting into folders and links loses and invents nothing. */
  lemma {:induction false} PartitionMultiset(s: seq<Node>)
    ensures multiset(Folders(s)) + multiset(Links(s)) == multiset(s)
    ensures |Folders(s)| + |Links(s)| == |s|
    decreases |s|
  {
    if |s| > 0 {
      PartitionMultiset(s[1..]);
      PartitionHead(s);
    }
    assert |multiset(Folders(s))| + |multiset(Links(s))| == |multiset(s)|;
  }

  /** The first child goes to exactly one side. */
  lemma PartitionHead(s: seq<Node>)
    requires |s| > 0
    ensures multiset(Folders(s)) + multiset(Links(s))
      == multiset{s[0]} + multiset(Folders(s[1..])) + multiset(Links(s[1..]))
    ensures multiset(s) == multiset{s[0]} + multiset(s[1..])
  {
    assert s == [s[0]] + s[1..];
    if IsFolder(s[0]) {
      assert Folders(s) == [s[0]] + Folders(s[1..]);
      assert Links(s) == Links(s[1..]);
    } else {
      assert Folders(s) == Folders(s[1..]);
      assert Links(s) == [s[0]] + Links(s[1..]);
    }
  }

  // ---------------------------------------------------------------------------
  // Sorting by title.

  /** `le(a, b)` stands for "the sort's comparator, `localeCompare` of the two titles
      (an absent title read as ""), is at most 0", that is "a may come before b". The
      host's collation is a parameter; the proofs assume it is a total preorder, as a
      locale collation is. */
  type Collation = (string, string) -> bool

  ghost predicate TotalPreorder(le: Collation) {
    && (forall a, b :: le(a, b) || le(b, a))
    && (forall a, b, c :: le(a, b) && le(b, c) ==> le(a, c))
  }

  predicate Sorted(s: seq<Node>, le: Collation) {
    forall i, j :: 0 <= i < j < |s| ==> le(s[i].title, s[j].title)
  }

  /** Inserts `x` after every element that may precede it, before the first one that
      must follow it (so equal titles keep their order). */
  function Insert(x: Node, s: seq<Node>, le: Collation): (r: seq<Node>)
    ensures multiset(r) == multiset(s) + multiset{x}
    ensures |r| == |s| + 1
  {
    if |s| == 0 then [x]
    else if !le(s[0].title, x.title) then [x] + s
    else
      var r := [s[0]] + Insert(x, s[1..], le);
      assert s == [s[0]] + s[1..];
      r
  }

  /** `folders.sort(...)`: an insertion sort by title under `le`. */
  function SortByTitle(s: seq<Node>, le: Collation): (r: seq<Node>)
    ensures multiset(r) == multiset(s)
    ensures |r| == |s|
  {
    if |s| == 0 then []
    else
      var r := Insert(s[|s| - 1], SortByTitle(s[..|s| - 1], le), le);
      assert s == s[..|s| - 1] + [s[|s| - 1]];
      r
  }

  lemma {:induction false} InsertSorted(x: Node, s: seq<Node>, le: Collation)
    requires TotalPreorder(le)
    requires Sorted(s, le)
    ensures Sorted(Insert(x, s, le), le)
    decreases |s|
  {
    if |s| > 0 {
      if !le(s[0].title, x.title) {
        assert le(x.title, s[0].title);
        ConsSorted(x, s, le);
      } else {
        SortedTail(s, le);
        InsertSorted(x, s[1..], le);
        InsertAbove(x, s, le);
        ConsSorted(s[0], Insert(x, s[1..], le), le);
      }
    }
  }

  lemma SortedTail(s: seq<Node>, le: Collation)
    requires |s| > 0 && Sorted(s, le)
    ensures Sorted(s[1..], le)
  {
    forall i, j | 0 <= i < j < |s[1..]| ensures le(s[1..][i].title, s[1..][j].title) {
      assert s[1..][i] == s[i + 1] && s[1..][j] == s[j + 1];
    }
  }

  /** A node that may precede every element of a sorted list (and, by transitivity,
      one that may precede its head) can be put in front of it. */
  lemma ConsSorted(y: Node, t: seq<Node>, le: Collation)
    requires TotalPreorder(le)
    requires Sorted(t, le)
    requires |t| > 0 ==> le(y.title, t[0].title)
    ensures Sorted([y] + t, le)
  {
    var r := [y] + t;
    forall i, j | 0 <= i < j < |r| ensures le(r[i].title, r[j].title) {
      if i > 0 {
        assert r[i] == t[i - 1] && r[j] == t[j - 1];
      } else {
        assert r[j] == t[j - 1];
        if j > 1 {
          assert le(t[0].title, t[j - 1].title);
        }
      }
    }
  }

  /** Inserting `x` behind the head keeps the head first. */
  lemma InsertAbove(x: Node, s: seq<Node>, le: Collation)
    requires |s| > 0 && le(s[0].title, x.title)
    requires TotalPreorder(le)
    requires Sorted(s, le)
    ensures var t := Insert(x, s[1..], le); le(s[0].title, t[0].title)
  {
    var t := Insert(x, s[1..], le);
    assert t[0] in multiset(t);
    if t[0] != x {
      assert t[0] in multiset(s[1..]);
      var k :| 0 <= k < |s[1..]| && s[1..][k] == t[0];
      assert s[k + 1] == t[0];
    }
  }

  lemma {:induction false} SortByTitleSorted(s: seq<Node>, le: Collation)
    requires TotalPreorder(le)
    ensures Sorted(SortByTitle(s, le), le)
    decreases |s|
  {
    if |s| > 0 {
      SortByTitleSorted(s[..|s| - 1], le);
      InsertSorted(s[|s| - 1], SortByTitle(s[..|s| - 1], le), le);
    }
  }

  // ---------------------------------------------------------------------------
  // The host's move within one folder.

  /** The position of the child with this id (ids are unique within a folder). */
  function IndexOfId(list: seq<Node>, id: string): (r: Option<nat>)
    ensures r.Some? ==> r.value < |list| && list[r.value].id == id
    ensures r.Some? ==> forall k :: 0 <= k < r.value ==> list[k].id != id
    ensures r.None? <==> forall k :: 0 <= k < |list| ==> list[k].id != id
  {
    if |list| == 0 then None
    else if list[0].id == id then Some(0)
    else
      var r := IndexOfId(list[1..], id);
      assert forall k :: 1 <= k < |list| ==> list[k] == list[1..][k - 1];
      if r.Some? then Some(r.value + 1) else None
  }

  /** `s` without its element at position `k`. */
  function Without(s: seq<Node>, k: nat): seq<Node>
    requires k < |s|
  {
    s[..k] + s[k + 1..]
  }

  /** `chrome.bookmarks.move` within the folder `list`. The host refuses an unknown id
      and an index beyond the end. Otherwise it takes the node out and puts it back in
      front of the child that was at `index`: a move to the node's own position or
      to the one just after it changes nothing, and a move to a later position ends
      one place earlier. */
  function ApplyMove(list: seq<Node>, m: Move): (r: Option<seq<Node>>)
    ensures r.None? <==> IndexOfId(list, m.id).None? || m.index > |list|
    ensures r.Some? ==>
      var i := IndexOfId(list, m.id).value;
      var p := if m.index <= i then m.index else m.index - 1;
      && |r.value| == |list|
      && p < |list|
      && r.value[p] == list[i]
      && Without(r.value, p) == Without(list, i)
  {
    match IndexOfId(list, m.id)
    case None => None
    case Some(i) =>
      if m.index > |list| then None
      else if m.index == i || m.index == i + 1 then
        Some(list)
      else
        var p := if m.index > i then m.index - 1 else m.index;
        var rest := Without(list, i);
        InsertAt(rest, p, list[i]);
        Some(rest[..p] + [list[i]] + rest[p..])
  }

  /** Putting `x` in at position `p`. */
  lemma InsertAt(rest: seq<Node>, p: nat, x: Node)
    requires p <= |rest|
    ensures var r := rest[..p] + [x] + rest[p..];
      |r| == |rest| + 1 && r[p] == x && Without(r, p) == rest
  {
    var r := rest[..p] + [x] + rest[p..];
    assert r[..p] == rest[..p] && r[p + 1..] == rest[p..];
  }

  /** The element at position `j` once the one at `k` is gone. */
  lemma WithoutAt(s: seq<Node>, k: nat, j: nat)
    requires k < |s| && j < |s| - 1
    ensures Without(s, k)[j] == if j < k then s[j] else s[j + 1]
  {
  }

  /** Taking an element out and putting it back elsewhere keeps the multiset. */
  lemma WithoutMultiset(s: seq<Node>, k: nat)
    requires k < |s|
    ensures multiset(s) == multiset(Without(s, k)) + multiset{s[k]}
  {
    assert s == s[..k] + [s[k]] + s[k + 1..];
  }

  lemma ApplyMovePermutes(list: seq<Node>, m: Move)
    requires ApplyMove(list, m).Some?
    ensures multiset(ApplyMove(list, m).value) == multiset(list)
  {
    var r := ApplyMove(list, m).value;
    var i := IndexOfId(list, m.id).value;
    var p := if m.index <= i then m.index else m.index - 1;
    WithoutMultiset(r, p);
    WithoutMultiset(list, i);
  }

  /** The moves of a plan, one after the other; `None` once one of them fails. */
  function ApplyAll(list: seq<Node>, moves: seq<Move>): Option<seq<Node>>
    decreases |moves|
  {
    if |moves| == 0 then Some(list)
    else
      match ApplyMove(list, moves[0])
      case None => None
      case Some(next) => ApplyAll(next, moves[1..])
  }

  // ---------------------------------------------------------------------------
  // sortFolderContents.

  /** The order `sortFolderContents` aims at: the folders sorted by title, then the
      links in their current order. */
  function Arrangement(children: seq<Node>, le: Collation): seq<Node> {
    SortByTitle(Folders(children), le) + Links(children)
  }

  /** Whether `sortFolderContents` rearranges the folder at all. */
  predicate SortsFolder(settings: Settings, folderId: string, children: seq<Node>) {
    settings.autoFolderSorting && !IsBookmarksBarOrChild(folderId) && |children| > 1
  }

  /** One loop of `sortFolderContents`: the i-th node of `nodes` moves to index
      `offset + i`. */
  function PlaceMoves(nodes: seq<Node>, folderId: string, offset: nat): (r: seq<Move>)
    ensures |r| == |nodes|
    ensures forall k :: 0 <= k < |r| ==> r[k] == Move(nodes[k].id, folderId, offset + k)
  {
    seq(|nodes|, i requires 0 <= i < |nodes| => Move(nodes[i].id, folderId, offset + i))
  }

  /** The two loops together move the nodes of `a + b` to the indices 0, 1, ... */
  lemma PlaceMovesConcat(a: seq<Node>, b: seq<Node>, folderId: string)
    ensures PlaceMoves(a, folderId, 0) + PlaceMoves(b, folderId, |a|) == MovesFrom(a + b, 0, folderId)
  {
    var l, r := PlaceMoves(a, folderId, 0) + PlaceMoves(b, folderId, |a|), MovesFrom(a + b, 0, folderId);
    forall k | 0 <= k < |l| ensures l[k] == r[k] {
      if k < |a| {
        assert (a + b)[k] == a[k];
      } else {
        assert (a + b)[k] == b[k - |a|];
      }
    }
  }

  /** `sortFolderContents(folderId)` with `children` the folder's current children:
      the folders' moves to indices 0, 1, ..., then the links' moves to the indices
      after them. */
  function SortFolderContents(settings: Settings, folderId: string, children: seq<Node>, le: Collation): (moves: seq<Move>)
    ensures !SortsFolder(settings, folderId, children) ==> moves == []
    ensures SortsFolder(settings, folderId, children) ==>
      && |moves| == |children|
      && forall k :: 0 <= k < |moves| ==> moves[k].parentId == folderId && moves[k].index == k
  {
    if !SortsFolder(settings, folderId, children) then []
    else
      var folders := SortByTitle(Folders(children), le);
      var links := Links(children);
      PartitionMultiset(children);
      PlaceMovesConcat(folders, links, folderId);
      PlaceMoves(folders, folderId, 0) + PlaceMoves(links, folderId, |folders|)
  }

  /** Moves that bring the children, from position `j` on, into the order `target`. */
  function MovesFrom(target: seq<Node>, j: nat, folderId: string): (r: seq<Move>)
    requires j <= |target|
    ensures |r| == |target| - j
    ensures forall k :: 0 <= k < |r| ==> r[k] == Move(target[j + k].id, folderId, j + k)
    decreases |target| - j
  {
    if j == |target| then []
    else [Move(target[j].id, folderId, j)] + MovesFrom(target, j + 1, folderId)
  }

  lemma SortMovesTargetArrangement(settings: Settings, folderId: string, children: seq<Node>, le: Collation)
    requires SortsFolder(settings, folderId, children)
    ensures |Arrangement(children, le)| == |children|
    ensures SortFolderContents(settings, folderId, children, le) == MovesFrom(Arrangement(children, le), 0, folderId)
  {
    PartitionMultiset(children);
    PlaceMovesConcat(SortByTitle(Folders(children), le), Links(children), folderId);
  }

  /** A multiset-equal list of nodes with unique ids has unique ids. */
  lemma PermutationKeepsUniqueIds(a: seq<Node>, b: seq<Node>)
    requires multiset(a) == multiset(b)
    requires UniqueIds(a)
    ensures UniqueIds(b)
  {
    CountAtMostOne(a);
    forall i, j | 0 <= i < j < |b| ensures b[i].id != b[j].id {
      TwoPositionsCount(b, i, j);
      assert b[i] != b[j];
      assert b[i] in multiset(a) && b[j] in multiset(a);
      var p :| 0 <= p < |a| && a[p] == b[i];
      var q :| 0 <= q < |a| && a[q] == b[j];
      assert p != q;
    }
  }

  lemma {:induction false} CountAtMostOne(a: seq<Node>)
    requires UniqueIds(a)
    ensures forall x :: multiset(a)[x] <= 1
    decreases |a|
  {
    if |a| > 0 {
      assert UniqueIds(a[1..]) by {
        forall i, j | 0 <= i < j < |a[1..]| ensures a[1..][i].id != a[1..][j].id {
          assert a[1..][i] == a[i + 1] && a[1..][j] == a[j + 1];
        }
      }
      CountAtMostOne(a[1..]);
      assert a == [a[0]] + a[1..];
      forall k | 0 <= k < |a[1..]| ensures a[1..][k] != a[0] {
        assert a[1..][k] == a[k + 1];
      }
      assert a[0] !in a[1..];
    }
  }

  lemma TwoPositionsCount(b: seq<Node>, i: nat, j: nat)
    requires i < j < |b|
    ensures b[i] == b[j] ==> multiset(b)[b[i]] >= 2
  {
    assert b == b[..j] + [b[j]] + b[j + 1..];
    assert b[i] == b[..j][i];
  }

  /** The state after the first `j` moves of the plan: the first `j` children are in
      their final places and the rest are the remaining ones in some order. */
  predicate Stage(target: seq<Node>, j: nat, list: seq<Node>) {
    && j <= |target|
    && |list| == |target|
    && list[..j] == target[..j]
    && multiset(list[j..]) == multiset(target[j..])
  }

  /** At a stage, the next child to place is found at or after position `j`. */
  lemma LocateNext(target: seq<Node>, j: nat, list: seq<Node>) returns (i: nat)
    requires UniqueIds(target)
    requires Stage(target, j, list) && j < |target|
    ensures IndexOfId(list, target[j].id) == Some(i)
    ensures j <= i < |list| && list[i] == target[j]
  {
    assert target[j..][0] == target[j];
    assert target[j] in multiset(list[j..]);
    var k :| 0 <= k < |list[j..]| && list[j..][k] == target[j];
    assert list[j + k] == target[j];
    assert IndexOfId(list, target[j].id).Some?;
    i := IndexOfId(list, target[j].id).value;
    forall k' | 0 <= k' < j ensures list[k'].id != target[j].id {
      assert list[k'] == list[..j][k'] == target[k'];
    }
    assert list[i] == list[j..][i - j];
    assert list[i] in multiset(target[j..]);
    var m :| 0 <= m < |target[j..]| && target[j..][m] == list[i];
    assert target[j + m] == list[i];
  }

  /** One move of the plan advances the stage by one. */
  lemma StageStep(target: seq<Node>, j: nat, list: seq<Node>, folderId: string) returns (next: seq<Node>)
    requires UniqueIds(target)
    requires Stage(target, j, list) && j < |target|
    ensures ApplyMove(list, Move(target[j].id, folderId, j)) == Some(next)
    ensures Stage(target, j + 1, next)
  {
    var i := LocateNext(target, j, list);
    next := ApplyMove(list, Move(target[j].id, folderId, j)).value;
    StagePrefix(target, j, list, next, i);
    StageSuffix(target, j, list, next, i);
  }

  /** After the move, the first `j + 1` places hold their final children. */
  lemma StagePrefix(target: seq<Node>, j: nat, list: seq<Node>, next: seq<Node>, i: nat)
    requires j <= i < |list| == |next| && j < |target|
    requires list[..j] == target[..j] && list[i] == target[j]
    requires next[j] == list[i] && Without(next, j) == Without(list, i)
    ensures next[..j + 1] == target[..j + 1]
  {
    forall k | 0 <= k < j + 1 ensures next[k] == target[k] {
      if k < j {
        assert next[k] == Without(next, j)[k];
        assert Without(list, i)[k] == list[k] == list[..j][k];
      }
    }
  }

  /** After the move, the places from `j + 1` on hold the children still to place. */
  lemma StageSuffix(target: seq<Node>, j: nat, list: seq<Node>, next: seq<Node>, i: nat)
    requires j <= i < |list| == |next| && j < |target|
    requires multiset(list[j..]) == multiset(target[j..]) && list[i] == target[j]
    requires Without(next, j) == Without(list, i)
    ensures multiset(next[j + 1..]) == multiset(target[j + 1..])
  {
    assert next[j + 1..] == Without(next, j)[j..];
    WithoutSuffix(list, j, i);
    assert multiset(next[j + 1..]) + multiset{target[j]} == multiset(target[j..]);
    assert target[j..] == [target[j]] + target[j + 1..];
    assert multiset(target[j..]) == multiset{target[j]} + multiset(target[j + 1..]);
    var a, b := multiset(next[j + 1..]), multiset(target[j + 1..]);
    assert forall y :: a[y] == b[y] by {
      forall y ensures a[y] == (a + multiset{target[j]})[y] - multiset{target[j]}[y] {}
    }
  }

  /** Removing position `i >= j` from the suffix starting at `j`. */
  lemma WithoutSuffix(list: seq<Node>, j: nat, i: nat)
    requires j <= i < |list|
    ensures multiset(Without(list, i)[j..]) + multiset{list[i]} == multiset(list[j..])
  {
    assert Without(list, i)[j..] == list[j..i] + list[i + 1..];
    assert list[j..] == list[j..i] + [list[i]] + list[i + 1..];
  }

  lemma {:induction false} ApplyStages(target: seq<Node>, j: nat, list: seq<Node>, folderId: string)
    requires UniqueIds(target)
    requires Stage(target, j, list)
    ensures ApplyAll(list, MovesFrom(target, j, folderId)) == Some(target)
    decreases |target| - j
  {
    if j == |target| {
      assert list == list[..j] && target == target[..j];
    } else {
      var next := StageStep(target, j, list, folderId);
      var moves := MovesFrom(target, j, folderId);
      assert moves[1..] == MovesFrom(target, j + 1, folderId);
      ApplyStages(target, j + 1, next, folderId);
    }
  }

  /** Applying the plan of `sortFolderContents` to a folder with unique ids leaves it
      arranged as `Arrangement`: every move succeeds, and the host's index adjustment
      never comes into play because each child is fetched from a later position. */
  lemma SortFolderContentsArranges(settings: Settings, folderId: string, children: seq<Node>, le: Collation)
    requires UniqueIds(children)
    requires SortsFolder(settings, folderId, children)
    ensures ApplyAll(children, SortFolderContents(settings, folderId, children, le)) == Some(Arrangement(children, le))
  {
    var t := Arrangement(children, le);
    PartitionMultiset(children);
    assert multiset(t) == multiset(children);
    PermutationKeepsUniqueIds(children, t);
    SortMovesTargetArrangement(settings, folderId, children, le);
    assert Stage(t, 0, children);
    ApplyStages(t, 0, children, folderId);
  }

  /** Folders first, then links. */
  predicate FoldersFirst(s: seq<Node>) {
    forall i, j :: 0 <= i < j < |s| && HasUrl(s[i]) ==> HasUrl(s[j])
  }

  /** The arrangement is a permutation of the children, with the folders first and
      sorted by title, and the links after them in their original order. */
  lemma ArrangementShape(children: seq<Node>, le: Collation)
    requires TotalPreorder(le)
    ensures var a := Arrangement(children, le); var n := |Folders(children)|;
      && multiset(a) == multiset(children)
      && FoldersFirst(a)
      && Sorted(a[..n], le)
      && a[n..] == Links(children)
  {
    var folders := SortByTitle(Folders(children), le);
    var a := Arrangement(children, le);
    PartitionMultiset(children);
    SortByTitleSorted(Folders(children), le);
    assert a[..|folders|] == folders;
    ArrangementSplit(children, le);
    SplitGivesFoldersFirst(a, |folders|);
  }

  /** In the arrangement, the folders are exactly the first `|Folders(children)|`
      places. */
  lemma ArrangementSplit(children: seq<Node>, le: Collation)
    ensures var a := Arrangement(children, le);
      forall k :: 0 <= k < |a| ==> (IsFolder(a[k]) <==> k < |Folders(children)|)
  {
    var folders := SortByTitle(Folders(children), le);
    var links := Links(children);
    var a := Arrangement(children, le);
    forall k | 0 <= k < |a| ensures IsFolder(a[k]) <==> k < |folders| {
      if k < |folders| {
        assert a[k] == folders[k] && folders[k] in multiset(Folders(children));
      } else {
        assert a[k] == links[k - |folders|] && links[k - |folders|] in links;
      }
    }
  }

  /** A list whose folders are exactly its first `n` places is folders-first. */
  lemma SplitGivesFoldersFirst(s: seq<Node>, n: nat)
    requires forall k :: 0 <= k < |s| ==> (IsFolder(s[k]) <==> k < n)
    ensures FoldersFirst(s)
  {
  }

  // ---------------------------------------------------------------------------
  // moveBookmarkToTop.

  function FolderCount(siblings: seq<Node>): nat {
    |Folders(siblings)|
  }

  /** `moveBookmarkToTop(bookmark.id)` with `bookmark` the answer of
      `chrome.bookmarks.get` (`None` when there is none) and `siblings` the children
      of its parent: a move to the index just after the folders, unless the feature is
      off, the bookmark or its parent is missing, the parent is the Bookmarks Bar, or
      the bookmark is already there. */
  function MoveToTop(settings: Settings, bookmark: Option<Node>, siblings: seq<Node>): (r: Option<Move>)
    ensures r.Some? ==> bookmark.Some? && r.value.id == bookmark.value.id
    ensures r.Some? ==> Truthy(bookmark.value.parentId) && r.value.parentId == bookmark.value.parentId.value
    ensures r.Some? ==> r.value.index == FolderCount(siblings) && !IsBookmarksBarOrChild(r.value.parentId)
    ensures !settings.sortByUse || bookmark.None? ==> r.None?
    ensures r.Some? <==>
      && settings.sortByUse && bookmark.Some? && Truthy(bookmark.value.parentId)
      && !IsBookmarksBarOrChild(bookmark.value.parentId.value)
      && IndexOfId(siblings, bookmark.value.id) != Some(FolderCount(siblings))
  {
    if !settings.sortByUse then None
    else match bookmark
      case None => None
      case Some(b) =>
        if !Truthy(b.parentId) || IsBookmarksBarOrChild(b.parentId.value) then None
        else if IndexOfId(siblings, b.id) == Some(FolderCount(siblings)) then None
        else Some(Move(b.id, b.parentId.value, FolderCount(siblings)))
  }

  /** In a folder laid out folders-first, the used bookmark ends up right after the
      folders, everything else keeps its relative order, the layout stays
      folders-first, and asking again moves nothing. */
  lemma MoveToTopPlacesAfterFolders(settings: Settings, b: Node, siblings: seq<Node>, i: nat)
    requires FoldersFirst(siblings)
    requires i < |siblings| && siblings[i] == b && HasUrl(b)
    requires IndexOfId(siblings, b.id) == Some(i)
    requires MoveToTop(settings, Some(b), siblings).Some?
    ensures var m := MoveToTop(settings, Some(b), siblings).value;
      var n := FolderCount(siblings);
      && ApplyMove(siblings, m).Some?
      && n < |siblings|
      && ApplyMove(siblings, m).value[n] == b
      && Without(ApplyMove(siblings, m).value, n) == Without(siblings, i)
  {
    var n := FolderCount(siblings);
    FoldersFirstCount(siblings, i);
  }

  /** Once moved, the bookmark is where `moveBookmarkToTop` wants it: the folder stays
      folders-first with the same number of folders, and a second call plans no
      move. */
  lemma MoveToTopSettles(settings: Settings, b: Node, siblings: seq<Node>, i: nat)
    requires FoldersFirst(siblings)
    requires i < |siblings| && siblings[i] == b && HasUrl(b)
    requires IndexOfId(siblings, b.id) == Some(i)
    requires MoveToTop(settings, Some(b), siblings).Some?
    ensures ApplyMove(siblings, MoveToTop(settings, Some(b), siblings).value).Some?
    ensures var after := ApplyMove(siblings, MoveToTop(settings, Some(b), siblings).value).value;
      && FoldersFirst(after)
      && FolderCount(after) == FolderCount(siblings)
      && MoveToTop(settings, Some(b), after).None?
  {
    MoveToTopPlacesAfterFolders(settings, b, siblings, i);
    FoldersFirstCount(siblings, i);
    var after := ApplyMove(siblings, MoveToTop(settings, Some(b), siblings).value).value;
    SettledLayout(siblings, after, i, b);
  }

  /** The list after the bookmark at `i` was taken out and put back just after the
      folders. */
  lemma SettledLayout(siblings: seq<Node>, after: seq<Node>, i: nat, b: Node)
    requires FoldersFirst(siblings)
    requires FolderCount(siblings) <= i < |siblings| == |after|
    requires siblings[i] == b && HasUrl(b)
    requires forall k :: 0 <= k < i ==> siblings[k].id != b.id
    requires after[FolderCount(siblings)] == b
    requires Without(after, FolderCount(siblings)) == Without(siblings, i)
    ensures FoldersFirst(after)
    ensures FolderCount(after) == FolderCount(siblings)
    ensures IndexOfId(after, b.id) == Some(FolderCount(siblings))
  {
    var n := FolderCount(siblings);
    FolderCountWithout(siblings, i);
    FolderCountWithout(after, n);
    FoldersFirstSplit(siblings);
    SettledSplit(siblings, after, i, n);
    SplitGivesFoldersFirst(after, n);
    SettledIndex(siblings, after, i, n, b.id);
  }

  /** The folders of the moved list are still exactly its first `n` places. */
  lemma SettledSplit(siblings: seq<Node>, after: seq<Node>, i: nat, n: nat)
    requires forall k :: 0 <= k < |siblings| ==> (IsFolder(siblings[k]) <==> k < n)
    requires n <= i < |siblings| == |after|
    requires HasUrl(after[n])
    requires Without(after, n) == Without(siblings, i)
    ensures forall k :: 0 <= k < |after| ==> (IsFolder(after[k]) <==> k < n)
  {
    forall k | 0 <= k < |after| ensures IsFolder(after[k]) <==> k < n {
      if k < n {
        WithoutAt(after, n, k);
        WithoutAt(siblings, i, k);
      } else if k > n {
        WithoutAt(after, n, k - 1);
        WithoutAt(siblings, i, k - 1);
      }
    }
  }

  /** Nothing before place `n` of the moved list carries the moved bookmark's id. */
  lemma SettledIndex(siblings: seq<Node>, after: seq<Node>, i: nat, n: nat, id: string)
    requires n <= i < |siblings| == |after|
    requires forall k :: 0 <= k < i ==> siblings[k].id != id
    requires after[n].id == id
    requires Without(after, n) == Without(siblings, i)
    ensures IndexOfId(after, id) == Some(n)
  {
    forall k | 0 <= k < n ensures after[k].id != id {
      WithoutAt(after, n, k);
      WithoutAt(siblings, i, k);
    }
  }

  /** Removing one element lowers the folder count by one exactly when it is a
      folder. */
  lemma FolderCountWithout(s: seq<Node>, k: nat)
    requires k < |s|
    ensures FolderCount(s) == FolderCount(Without(s, k)) + (if IsFolder(s[k]) then 1 else 0)
  {
    assert s == s[..k] + ([s[k]] + s[k + 1..]);
    FilterAppend(s[..k], [s[k]] + s[k + 1..], IsFolder);
    FilterAppend([s[k]], s[k + 1..], IsFolder);
    FilterAppend(s[..k], s[k + 1..], IsFolder);
    assert [s[k]][1..] == [];
  }

  /** In a folders-first list the folders are exactly the first `FolderCount` places. */
  lemma {:induction false} FoldersFirstSplit(s: seq<Node>)
    requires FoldersFirst(s)
    ensures forall k :: 0 <= k < |s| ==> (IsFolder(s[k]) <==> k < FolderCount(s))
    decreases |s|
  {
    if |s| > 0 {
      if IsFolder(s[0]) {
        assert FoldersFirst(s[1..]) by {
          forall i, j | 0 <= i < j < |s[1..]| && HasUrl(s[1..][i]) ensures HasUrl(s[1..][j]) {
            assert s[1..][i] == s[i + 1] && s[1..][j] == s[j + 1];
          }
        }
        FoldersFirstSplit(s[1..]);
        assert FolderCount(s) == FolderCount(s[1..]) + 1;
        forall k | 1 <= k < |s| ensures IsFolder(s[k]) <==> k < FolderCount(s) {
          assert s[k] == s[1..][k - 1];
        }
      } else {
        FilterPrefix(s, 0);
      }
    }
  }

  /** In a folders-first list, a link sits at or after the folder count. */
  lemma FoldersFirstCount(s: seq<Node>, i: nat)
    requires FoldersFirst(s)
    requires i < |s| && HasUrl(s[i])
    ensures i >= FolderCount(s)
  {
    PrefixFolders(s, i);
    FilterPrefix(s, i);
  }

  lemma PrefixFolders(s: seq<Node>, i: nat)
    requires FoldersFirst(s)
    requires i < |s| && HasUrl(s[i])
    ensures forall k :: i <= k < |s| ==> HasUrl(s[k])
  {
  }

  /** Folders counted in a list whose elements from `i` on are all links. */
  lemma {:induction false} FilterPrefix(s: seq<Node>, i: nat)
    requires i <= |s|
    requires forall k :: i <= k < |s| ==> HasUrl(s[k])
    ensures |Folders(s)| <= i
    decreases |s|
  {
    if |s| > 0 {
      assert forall k :: i <= k < |s| ==> HasUrl(s[k]);
      if i == 0 {
        FilterPrefix(s[1..], 0) by {
          forall k | 0 <= k < |s[1..]| ensures HasUrl(s[1..][k]) {
            assert s[1..][k] == s[k + 1];
          }
        }
      } else {
        FilterPrefix(s[1..], i - 1) by {
          forall k | i - 1 <= k < |s[1..]| ensures HasUrl(s[1..][k]) {
            assert s[1..][k] == s[k + 1];
          }
        }
      }
    }
  }

  // ---------------------------------------------------------------------------
  // The bookmark events.

  /** The bookmark events that trigger sorting, with the fields the handlers read. */
  datatype BookmarkEvent =
    | Created(parentId: Option<string>)
    | Moved(parentId: Option<string>, oldParentId: Option<string>)
    | ChildrenReordered(id: string)

  /** The folders an event's handler passes to `sortFolderContents`, in order: the
      parent of a new node; the old parent of a moved node, then its new parent if that
      is a different folder; the reordered folder itself. Absent or empty ids are
      skipped. */
  function FoldersToSort(e: BookmarkEvent): (r: seq<string>)
    ensures e.Created? ==> (r == [] <==> !Truthy(e.parentId))
    ensures e.Created? && Truthy(e.parentId) ==> r == [e.parentId.value]
    ensures e.Moved? ==> forall f :: f in r <==>
      (Truthy(e.oldParentId) && f == e.oldParentId.value) || (Truthy(e.parentId) && f == e.parentId.value)
    ensures e.Moved? ==> |r| <= 2 && (|r| == 2 ==> r[0] != r[1])
    ensures e.Moved? && Truthy(e.oldParentId) ==> |r| >= 1 && r[0] == e.oldParentId.value
    ensures e.Moved? && Truthy(e.parentId) && e.parentId != e.oldParentId ==> |r| >= 1 && r[|r| - 1] == e.parentId.value
    ensures e.ChildrenReordered? ==> r == [e.id]
  {
    match e
    case Created(p) => if Truthy(p) then [p.value] else []
    case Moved(p, was) =>
      (if Truthy(was) then [was.value] else [])
      + (if Truthy(p) && p != was then [p.value] else [])
    case ChildrenReordered(id) => [id]
  }
}
