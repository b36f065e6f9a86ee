/** Duplicate detection on the flattened bookmark list (`identifyDuplicates`) and the
    choice of bookmarks that "Remove All Duplicates" deletes. */
module Duplicates {
  import opened Common
  import opened Bookmarks

  /** The grouping key: the bookmark's URL, lower-cased. */
  function Key(b: Node): string
    requires HasUrl(b)
  {
    ToLower(b.url.value)
  }

  /** `b` is a URL-bearing bookmark whose key is `k`. */
  predicate Carries(b: Node, k: string) {
    HasUrl(b) && Key(b) == k
  }

  /** Reference definition: the URL-bearing bookmarks of `bs` with key `k`, in list order. */
  function Occurrences(bs: seq<Node>, k: string): seq<Node>
    decreases |bs|
  {
    if |bs| == 0 then []
    else Occurrences(bs[..|bs| - 1], k) + (if Carries(bs[|bs| - 1], k) then [bs[|bs| - 1]] else [])
  }

  lemma OccurrencesSnoc(p: seq<Node>, b: Node, k: string)
    ensures Occurrences(p + [b], k) == Occurrences(p, k) + (if Carries(b, k) then [b] else [])
  {
    assert (p + [b])[..|p|] == p;
  }

  /** Every occurrence of `k` carries `k`, so all members of a group share one lower-cased URL. */
  lemma {:induction false} OccurrencesCarry(bs: seq<Node>, k: string)
    ensures forall b :: b in Occurrences(bs, k) ==> Carries(b, k)
    decreases |bs|
  {
    if |bs| > 0 {
      OccurrencesCarry(bs[..|bs| - 1], k);
    }
  }

  /** Position in `bs` of the second occurrence of `k` (0 when there is none). */
  function SecondIndex(bs: seq<Node>, k: string): nat
    decreases |bs|
  {
    if |bs| == 0 then 0
    else if |Occurrences(bs[..|bs| - 1], k)| == 1 && Carries(bs[|bs| - 1], k) then |bs| - 1
    else SecondIndex(bs[..|bs| - 1], k)
  }

  lemma SecondIndexSnoc(p: seq<Node>, b: Node, k: string)
    ensures SecondIndex(p + [b], k) ==
      if |Occurrences(p, k)| == 1 && Carries(b, k) then |p| else SecondIndex(p, k)
  {
    assert (p + [b])[..|p|] == p;
  }

  /** `SecondIndex` names what it says: when `k` occurs twice or more, the bookmark at
      that position carries `k` and exactly one occurrence comes before it. */
  lemma {:induction false} SecondIndexSpec(bs: seq<Node>, k: string)
    requires |Occurrences(bs, k)| >= 2
    ensures SecondIndex(bs, k) < |bs|
    ensures Carries(bs[SecondIndex(bs, k)], k)
    ensures |Occurrences(bs[..SecondIndex(bs, k)], k)| == 1
    decreases |bs|
  {
    var p := bs[..|bs| - 1];
    var b := bs[|bs| - 1];
    assert bs == p + [b];
    OccurrencesSnoc(p, b, k);
    if |Occurrences(p, k)| == 1 && Carries(b, k) {
      assert bs[..|bs| - 1] == p;
    } else {
      SecondIndexSpec(p, k);
      assert bs[..SecondIndex(p, k)] == p[..SecondIndex(p, k)];
    }
  }

  /** A duplicate group as the options page builds it: the URL as written on the
      bookmark that opened the group (the second occurrence), and the bookmarks. */
  datatype Group = Group(url: string, bookmarks: seq<Node>)

  function GroupKey(g: Group): string {
    ToLower(g.url)
  }

  function GroupKeys(gs: seq<Group>): (ks: seq<string>)
    ensures |ks| == |gs|
    ensures forall i :: 0 <= i < |gs| ==> ks[i] == GroupKey(gs[i])
  {
    seq(|gs|, i requires 0 <= i < |gs| => GroupKey(gs[i]))
  }

  /** `duplicates.find(d => d.url.toLowerCase() === url)`, as an index. */
  function FindGroup(gs: seq<Group>, k: string): (r: Option<nat>)
    ensures r.Some? ==> r.value < |gs| && GroupKey(gs[r.value]) == k
    ensures r.Some? ==> forall i :: 0 <= i < r.value ==> GroupKey(gs[i]) != k
    ensures r.None? ==> forall i :: 0 <= i < |gs| ==> GroupKey(gs[i]) != k
  {
    if |gs| == 0 then None
    else if GroupKey(gs[0]) == k then Some(0)
    else match FindGroup(gs[1..], k)
      case None => None
      case Some(i) => Some(i + 1)
  }

  /** The state of the single pass: the first bookmark seen per key (`urlMap`), the keys
      whose first bookmark has been marked `isDuplicate`, and the groups so far. */
  datatype Pass = Pass(urlMap: map<string, Node>, grouped: set<string>, groups: seq<Group>)

  /** One iteration of the `forEach` in `identifyDuplicates`. */
  function Step(s: Pass, b: Node): Pass {
    if !HasUrl(b) then s
    else
      var k := Key(b);
      if k in s.urlMap then
        if k !in s.grouped then
          Pass(s.urlMap, s.grouped + {k}, s.groups + [Group(b.url.value, [s.urlMap[k], b])])
        else match FindGroup(s.groups, k)
          case Some(i) => s.(groups := s.groups[i := s.groups[i].(bookmarks := s.groups[i].bookmarks + [b])])
          case None => s
      else s.(urlMap := s.urlMap[k := b])
  }

  /** The pass over a whole list, one bookmark after the other. */
  function Run(bs: seq<Node>): Pass
    decreases |bs|
  {
    if |bs| == 0 then Pass(map[], {}, []) else Step(Run(bs[..|bs| - 1]), bs[|bs| - 1])
  }

  /** `p` and `q` agree about key `k`: same occurrences, same second position. */
  ghost predicate Agree(p: seq<Node>, q: seq<Node>, k: string) {
    Occurrences(p, k) == Occurrences(q, k) && SecondIndex(p, k) == SecondIndex(q, k)
  }

  /** Appending a bookmark that does not carry `k` changes nothing about `k`. */
  lemma SnocAgree(p: seq<Node>, b: Node, k: string)
    requires !Carries(b, k)
    ensures Agree(p, p + [b], k)
  {
    OccurrencesSnoc(p, b, k);
    SecondIndexSnoc(p, b, k);
  }

  /** A group describes all occurrences of its key in `p`: at least two, in order, with
      the URL spelled as on the second one. */
  ghost predicate GroupOk(p: seq<Node>, g: Group) {
    var occ := Occurrences(p, GroupKey(g));
    |occ| >= 2 && g.bookmarks == occ && occ[1].url == Some(g.url)
  }

  ghost predicate AllOk(p: seq<Node>, gs: seq<Group>) {
    forall i :: 0 <= i < |gs| ==> GroupOk(p, gs[i])
  }

  ghost predicate Distinct(ks: seq<string>) {
    forall i, j :: 0 <= i < j < |ks| ==> ks[i] != ks[j]
  }

  /** Keys listed in the order of their second occurrence in `p`. */
  ghost predicate Ordered(p: seq<Node>, ks: seq<string>) {
    forall i, j :: 0 <= i < j < |ks| ==> SecondIndex(p, ks[i]) < SecondIndex(p, ks[j])
  }

  /** `urlMap` holds exactly the keys seen so far, each with its first bookmark. */
  ghost predicate MapOk(p: seq<Node>, m: map<string, Node>) {
    && (forall k :: k in m <==> |Occurrences(p, k)| >= 1)
    && (forall k :: k in m ==> |Occurrences(p, k)| >= 1 && m[k] == Occurrences(p, k)[0])
  }

  /** The marked keys are exactly those seen twice or more. */
  ghost predicate GroupedOk(p: seq<Node>, grouped: set<string>) {
    forall k :: k in grouped <==> |Occurrences(p, k)| >= 2
  }

  /** What the pass state means after the prefix `p`. */
  ghost predicate Inv(p: seq<Node>, s: Pass) {
    && MapOk(p, s.urlMap)
    && GroupedOk(p, s.grouped)
    && (forall k :: k in s.grouped <==> k in GroupKeys(s.groups))
    && AllOk(p, s.groups)
    && Distinct(GroupKeys(s.groups))
    && Ordered(p, GroupKeys(s.groups))
  }

  lemma MapStep(p: seq<Node>, s: Pass, b: Node)
    requires MapOk(p, s.urlMap)
    ensures MapOk(p + [b], Step(s, b).urlMap)
  {
    var m' := Step(s, b).urlMap;
    StepUrlMap(s, b);
    forall k ensures (k in m' <==> |Occurrences(p + [b], k)| >= 1)
      && (k in m' ==> |Occurrences(p + [b], k)| >= 1 && m'[k] == Occurrences(p + [b], k)[0])
    {
      OccurrencesSnoc(p, b, k);
      var o := Occurrences(p, k);
      if Carries(b, k) {
        assert (o + [b])[0] == if |o| == 0 then b else o[0];
      }
    }
  }

  /** A step records a key in `urlMap` only when it is new, with its bookmark. */
  lemma StepUrlMap(s: Pass, b: Node)
    ensures Step(s, b).urlMap == if HasUrl(b) && Key(b) !in s.urlMap then s.urlMap[Key(b) := b] else s.urlMap
  {
  }

  lemma GroupedStep(p: seq<Node>, s: Pass, b: Node)
    requires MapOk(p, s.urlMap) && GroupedOk(p, s.grouped)
    ensures GroupedOk(p + [b], Step(s, b).grouped)
  {
    var g' := Step(s, b).grouped;
    forall k ensures k in g' <==> |Occurrences(p + [b], k)| >= 2 {
      OccurrencesSnoc(p, b, k);
    }
  }

  /** Groups whose keys `b` does not carry stay valid when `b` is appended. */
  lemma GroupsFrame(p: seq<Node>, b: Node, gs: seq<Group>)
    requires AllOk(p, gs) && Ordered(p, GroupKeys(gs))
    requires forall i :: 0 <= i < |gs| ==> !Carries(b, GroupKeys(gs)[i])
    ensures AllOk(p + [b], gs) && Ordered(p + [b], GroupKeys(gs))
  {
    var ks := GroupKeys(gs);
    forall i | 0 <= i < |gs| ensures GroupOk(p + [b], gs[i]) && SecondIndex(p + [b], ks[i]) == SecondIndex(p, ks[i]) {
      SnocAgree(p, b, ks[i]);
    }
  }

  /** A new group whose second occurrence comes last extends a valid group list. */
  lemma AppendGroup(p: seq<Node>, gs: seq<Group>, g: Group)
    requires AllOk(p, gs) && Distinct(GroupKeys(gs)) && Ordered(p, GroupKeys(gs)) && GroupOk(p, g)
    requires GroupKey(g) !in GroupKeys(gs)
    requires forall i :: 0 <= i < |gs| ==> SecondIndex(p, GroupKeys(gs)[i]) < SecondIndex(p, GroupKey(g))
    ensures GroupKeys(gs + [g]) == GroupKeys(gs) + [GroupKey(g)]
    ensures AllOk(p, gs + [g]) && Distinct(GroupKeys(gs + [g])) && Ordered(p, GroupKeys(gs + [g]))
  {
    assert GroupKeys(gs + [g]) == GroupKeys(gs) + [GroupKey(g)];
  }

  /** A bookmark with no URL, or with a key not seen before, leaves the groups alone. */
  lemma GroupsStepUnchanged(p: seq<Node>, s: Pass, b: Node)
    requires Inv(p, s)
    requires !HasUrl(b) || Key(b) !in s.urlMap
    ensures Step(s, b).groups == s.groups && Step(s, b).grouped == s.grouped
    ensures AllOk(p + [b], s.groups) && Ordered(p + [b], GroupKeys(s.groups))
  {
    var ks := GroupKeys(s.groups);
    forall i | 0 <= i < |s.groups| ensures !Carries(b, ks[i]) {
      assert ks[i] in ks;
    }
    GroupsFrame(p, b, s.groups);
  }

  /** A second occurrence opens a new group at the end of the list. */
  lemma GroupsStepSecond(p: seq<Node>, s: Pass, b: Node)
    requires Inv(p, s) && HasUrl(b) && Key(b) in s.urlMap && Key(b) !in s.grouped
    ensures AllOk(p + [b], Step(s, b).groups)
    ensures Distinct(GroupKeys(Step(s, b).groups)) && Ordered(p + [b], GroupKeys(Step(s, b).groups))
    ensures forall k :: k in Step(s, b).grouped <==> k in GroupKeys(Step(s, b).groups)
  {
    var k0 := Key(b);
    var p' := p + [b];
    var gs := s.groups;
    var ks := GroupKeys(gs);
    var g := Group(b.url.value, [s.urlMap[k0], b]);
    assert Step(s, b).groups == gs + [g];
    forall i | 0 <= i < |gs| ensures !Carries(b, ks[i]) {
      assert ks[i] in ks;
    }
    GroupsFrame(p, b, gs);
    OccurrencesSnoc(p, b, k0);
    SecondIndexSnoc(p, b, k0);
    assert GroupKey(g) == k0;
    assert GroupOk(p', g);
    forall i | 0 <= i < |gs| ensures SecondIndex(p', ks[i]) < SecondIndex(p', k0) {
      assert ks[i] in ks;
      SecondIndexSpec(p, ks[i]);
      SnocAgree(p, b, ks[i]);
    }
    AppendGroup(p', gs, g);
  }

  /** Replacing one group by a valid group for the same key keeps the list valid. */
  lemma ReplaceGroup(p: seq<Node>, q: seq<Node>, gs: seq<Group>, i: nat, g: Group)
    requires i < |gs| && GroupKey(g) == GroupKey(gs[i]) && GroupOk(q, g)
    requires AllOk(p, gs) && Ordered(p, GroupKeys(gs))
    requires forall j :: 0 <= j < |gs| && j != i ==> Agree(p, q, GroupKeys(gs)[j])
    requires SecondIndex(q, GroupKey(g)) == SecondIndex(p, GroupKey(g))
    ensures GroupKeys(gs[i := g]) == GroupKeys(gs)
    ensures AllOk(q, gs[i := g]) && Ordered(q, GroupKeys(gs[i := g]))
  {
    var ks := GroupKeys(gs);
    assert GroupKeys(gs[i := g]) == ks;
    forall j | 0 <= j < |gs| ensures SecondIndex(q, ks[j]) == SecondIndex(p, ks[j]) {
      if j != i {
        assert Agree(p, q, ks[j]);
      }
    }
    var gs' := gs[i := g];
    forall j | 0 <= j < |gs'| ensures GroupOk(q, gs'[j]) {
      if j != i {
        assert Agree(p, q, ks[j]);
      }
    }
  }

  /** A later occurrence is appended to its key's group. */
  lemma GroupsStepLater(p: seq<Node>, s: Pass, b: Node)
    requires Inv(p, s) && HasUrl(b) && Key(b) in s.grouped
    ensures AllOk(p + [b], Step(s, b).groups)
    ensures Distinct(GroupKeys(Step(s, b).groups)) && Ordered(p + [b], GroupKeys(Step(s, b).groups))
    ensures forall k :: k in Step(s, b).grouped <==> k in GroupKeys(Step(s, b).groups)
  {
    var k0 := Key(b);
    var p' := p + [b];
    var gs := s.groups;
    var ks := GroupKeys(gs);
    assert k0 in s.urlMap;
    assert k0 in ks;
    var i :| 0 <= i < |gs| && ks[i] == k0;
    var found := FindGroup(gs, k0);
    assert found.Some? && found.value <= i;
    assert ks[found.value] == k0;
    assert found == Some(i);
    var g' := gs[i].(bookmarks := gs[i].bookmarks + [b]);
    assert Step(s, b).groups == gs[i := g'];
    OccurrencesSnoc(p, b, k0);
    SecondIndexSnoc(p, b, k0);
    assert GroupKey(g') == k0;
    assert GroupOk(p', g');
    forall j | 0 <= j < |gs| && j != i ensures Agree(p, p', ks[j]) {
      assert ks[i] != ks[j] by {
        if i < j { } else { assert ks[j] != ks[i]; }
      }
      SnocAgree(p, b, ks[j]);
    }
    ReplaceGroup(p, p', gs, i, g');
  }

  lemma StepInv(p: seq<Node>, s: Pass, b: Node)
    requires Inv(p, s)
    ensures Inv(p + [b], Step(s, b))
  {
    MapStep(p, s, b);
    GroupedStep(p, s, b);
    if !HasUrl(b) || Key(b) !in s.urlMap {
      GroupsStepUnchanged(p, s, b);
    } else if Key(b) !in s.grouped {
      GroupsStepSecond(p, s, b);
    } else {
      GroupsStepLater(p, s, b);
    }
  }

  lemma {:induction false} RunInv(bs: seq<Node>)
    ensures Inv(bs, Run(bs))
    decreases |bs|
  {
    if |bs| > 0 {
      var p := bs[..|bs| - 1];
      RunInv(p);
      StepInv(p, Run(p), bs[|bs| - 1]);
      assert p + [bs[|bs| - 1]] == bs;
    }
  }

  /** `identifyDuplicates`: one group per lower-cased URL that two or more URL-bearing
      bookmarks carry, holding every such bookmark in list order (so the first
      occurrence is at index 0) and the URL as spelled on the second; no key twice;
      groups ordered by the position of their second occurrence. */
  function IdentifyDuplicates(bs: seq<Node>): (r: seq<Group>)
    ensures forall i :: 0 <= i < |r| ==>
      var occ := Occurrences(bs, GroupKey(r[i]));
      |occ| >= 2 && r[i].bookmarks == occ && occ[1].url == Some(r[i].url)
    ensures forall k :: k in GroupKeys(r) <==> |Occurrences(bs, k)| >= 2
    ensures forall i, j :: 0 <= i < j < |r| ==> GroupKey(r[i]) != GroupKey(r[j])
    ensures forall i, j :: 0 <= i < j < |r| ==>
      SecondIndex(bs, GroupKey(r[i])) < SecondIndex(bs, GroupKey(r[j]))
  {
    RunInv(bs);
    Run(bs).groups
  }

  /** No bookmark position lands in two groups: members of different groups carry
      different keys. */
  lemma NoBookmarkInTwoGroups(bs: seq<Node>, i: nat, j: nat, b: Node)
    requires i < j < |IdentifyDuplicates(bs)|
    ensures b in IdentifyDuplicates(bs)[i].bookmarks ==> b !in IdentifyDuplicates(bs)[j].bookmarks
  {
    var r := IdentifyDuplicates(bs);
    OccurrencesCarry(bs, GroupKey(r[i]));
    OccurrencesCarry(bs, GroupKey(r[j]));
  }

  /** The scenario of three bookmarks, two of them for the same URL: one group of two,
      nothing for the URL that appears once. */
  lemma ExampleDuplicates()
    ensures var a1 := Node("a1", "A", Some("https://a.com"), Some("2"), NoChildren);
      var a2 := Node("a2", "A again", Some("https://a.com"), Some("2"), NoChildren);
      var b := Node("b", "B", Some("https://b.com"), Some("2"), NoChildren);
      IdentifyDuplicates([a1, a2, b]) == [Group("https://a.com", [a1, a2])]
  {
    var a1 := Node("a1", "A", Some("https://a.com"), Some("2"), NoChildren);
    var a2 := Node("a2", "A again", Some("https://a.com"), Some("2"), NoChildren);
    var b := Node("b", "B", Some("https://b.com"), Some("2"), NoChildren);
    assert [a1, a2, b][..2] == [a1, a2];
    assert [a1, a2][..1] == [a1];
    assert Key(a1) == "https://a.com";
    assert Key(b) == "https://b.com";
    assert Run([a1]) == Pass(map["https://a.com" := a1], {}, []);
    assert Run([a1, a2]) == Pass(map["https://a.com" := a1], {"https://a.com"}, [Group("https://a.com", [a1, a2])]);
  }

  // ---------------------------------------------------------------------------
  // "Remove All Duplicates": keep the first bookmark of each group, remove the rest.

  /** Number of bookmarks a group gives up: all but its first. */
  function Surplus(g: Group): nat {
    if |g.bookmarks| == 0 then 0 else |g.bookmarks| - 1
  }

  function TotalSurplus(gs: seq<Group>): nat {
    if |gs| == 0 then 0 else Surplus(gs[0]) + TotalSurplus(gs[1..])
  }

  /** The ids a group gives up: those of every member after the first. */
  function TailIds(g: Group): (ids: seq<string>)
    ensures |ids| == Surplus(g)
    ensures forall j :: 1 <= j < |g.bookmarks| ==> ids[j - 1] == g.bookmarks[j].id
  {
    seq(Surplus(g), j requires 0 <= j < Surplus(g) => g.bookmarks[j + 1].id)
  }

  /** `removeAllDuplicates`: the ids of every group member except the one at index 0,
      group after group. */
  function IdsToRemove(gs: seq<Group>): (ids: seq<string>)
    ensures |ids| == TotalSurplus(gs)
  {
    if |gs| == 0 then [] else TailIds(gs[0]) + IdsToRemove(gs[1..])
  }

  /** `id` belongs to a member after the first of some group. */
  ghost predicate IsSurplusId(gs: seq<Group>, id: string) {
    exists i, j :: 0 <= i < |gs| && 1 <= j < |gs[i].bookmarks| && gs[i].bookmarks[j].id == id
  }

  /** The removal list holds exactly the ids of the members after the first. */
  lemma {:induction false} IdsToRemoveMeaning(gs: seq<Group>, id: string)
    ensures id in IdsToRemove(gs) <==> IsSurplusId(gs, id)
    decreases |gs|
  {
    if |gs| > 0 {
      var head := TailIds(gs[0]);
      IdsToRemoveMeaning(gs[1..], id);
      if id in head {
        var j :| 0 <= j < |head| && head[j] == id;
        assert gs[0].bookmarks[j + 1].id == id;
      } else if id in IdsToRemove(gs[1..]) {
        var i, j :| 0 <= i < |gs[1..]| && 1 <= j < |gs[1..][i].bookmarks| && gs[1..][i].bookmarks[j].id == id;
        assert gs[i + 1] == gs[1..][i];
      }
      if IsSurplusId(gs, id) {
        var i, j :| 0 <= i < |gs| && 1 <= j < |gs[i].bookmarks| && gs[i].bookmarks[j].id == id;
        if i == 0 {
          assert head[j - 1] == id;
        } else {
          assert gs[1..][i - 1] == gs[i];
        }
      }
    }
  }

  /** Ids of the bookmarks that are the first of their key (kept). */
  function FirstIds(bs: seq<Node>): set<string>
    decreases |bs|
  {
    if |bs| == 0 then {}
    else
      var p, b := bs[..|bs| - 1], bs[|bs| - 1];
      FirstIds(p) + (if HasUrl(b) && |Occurrences(p, Key(b))| == 0 then {b.id} else {})
  }

  /** Ids of the URL-bearing bookmarks whose key occurred earlier in the list. */
  function LaterIds(bs: seq<Node>): set<string>
    decreases |bs|
  {
    if |bs| == 0 then {}
    else
      var p, b := bs[..|bs| - 1], bs[|bs| - 1];
      LaterIds(p) + (if HasUrl(b) && |Occurrences(p, Key(b))| >= 1 then {b.id} else {})
  }

  /** The id of a non-first occurrence of some key. */
  ghost predicate IsLaterId(bs: seq<Node>, id: string) {
    exists k, j :: 1 <= j < |Occurrences(bs, k)| && Occurrences(bs, k)[j].id == id
  }

  lemma {:induction false} LaterIdsMeaning(bs: seq<Node>, id: string)
    ensures id in LaterIds(bs) <==> IsLaterId(bs, id)
    decreases |bs|
  {
    if |bs| > 0 {
      var p, b := bs[..|bs| - 1], bs[|bs| - 1];
      assert bs == p + [b];
      LaterIdsMeaning(p, id);
      if id in LaterIds(bs) {
        if id in LaterIds(p) {
          var k, j :| 1 <= j < |Occurrences(p, k)| && Occurrences(p, k)[j].id == id;
          OccurrencesSnoc(p, b, k);
          assert Occurrences(bs, k)[j] == Occurrences(p, k)[j];
        } else {
          var k := Key(b);
          OccurrencesSnoc(p, b, k);
          assert Occurrences(bs, k)[|Occurrences(p, k)|] == b;
        }
      }
      if IsLaterId(bs, id) {
        var k, j :| 1 <= j < |Occurrences(bs, k)| && Occurrences(bs, k)[j].id == id;
        OccurrencesSnoc(p, b, k);
        if j < |Occurrences(p, k)| {
          assert Occurrences(bs, k)[j] == Occurrences(p, k)[j];
        } else {
          assert Occurrences(bs, k)[j] == b;
        }
      }
    }
  }

  /** Members after the first of a detected group are later occurrences. */
  lemma SurplusIsLater(bs: seq<Node>, id: string)
    requires IsSurplusId(IdentifyDuplicates(bs), id)
    ensures IsLaterId(bs, id)
  {
    var r := IdentifyDuplicates(bs);
    var i, j :| 0 <= i < |r| && 1 <= j < |r[i].bookmarks| && r[i].bookmarks[j].id == id;
    var k := GroupKey(r[i]);
    assert Occurrences(bs, k)[j].id == id;
  }

  /** Every later occurrence sits after the first member of a detected group. */
  lemma LaterIsSurplus(bs: seq<Node>, id: string)
    requires IsLaterId(bs, id)
    ensures IsSurplusId(IdentifyDuplicates(bs), id)
  {
    var r := IdentifyDuplicates(bs);
    var k, j :| 1 <= j < |Occurrences(bs, k)| && Occurrences(bs, k)[j].id == id;
    assert k in GroupKeys(r);
    var i :| 0 <= i < |r| && GroupKeys(r)[i] == k;
    assert r[i].bookmarks[j].id == id;
  }

  /** "Remove All Duplicates" removes exactly the bookmarks whose lower-cased URL already
      occurred earlier in the list. */
  lemma RemovesExactlyLaterOccurrences(bs: seq<Node>, id: string)
    ensures id in IdsToRemove(IdentifyDuplicates(bs)) <==> id in LaterIds(bs)
  {
    IdsToRemoveMeaning(IdentifyDuplicates(bs), id);
    LaterIdsMeaning(bs, id);
    if IsSurplusId(IdentifyDuplicates(bs), id) {
      SurplusIsLater(bs, id);
    }
    if IsLaterId(bs, id) {
      LaterIsSurplus(bs, id);
    }
  }

  /** The first occurrence of a key is recorded among the kept ids. */
  lemma {:induction false} FirstOccurrenceIsFirst(bs: seq<Node>, k: string)
    requires |Occurrences(bs, k)| >= 1
    ensures Occurrences(bs, k)[0].id in FirstIds(bs)
    decreases |bs|
  {
    var p, b := bs[..|bs| - 1], bs[|bs| - 1];
    assert bs == p + [b];
    OccurrencesSnoc(p, b, k);
    if |Occurrences(p, k)| >= 1 {
      FirstOccurrenceIsFirst(p, k);
    }
  }

  function IdsOf(bs: seq<Node>): set<string> {
    set b | b in bs :: b.id
  }

  lemma IdsOfSnoc(p: seq<Node>, b: Node)
    ensures IdsOf(p + [b]) == IdsOf(p) + {b.id}
  {
    assert forall c :: c in p + [b] <==> c in p || c == b;
  }

  /** With unique ids, the last bookmark's id is not used earlier. */
  lemma LastIdFresh(bs: seq<Node>)
    requires |bs| > 0 && UniqueIds(bs)
    ensures UniqueIds(bs[..|bs| - 1])
    ensures bs[|bs| - 1].id !in IdsOf(bs[..|bs| - 1])
  {
    var p := bs[..|bs| - 1];
    forall i | 0 <= i < |p| ensures p[i].id != bs[|bs| - 1].id {
      assert p[i] == bs[i];
    }
  }

  lemma {:induction false} FirstAndLaterDisjoint(bs: seq<Node>)
    requires UniqueIds(bs)
    ensures FirstIds(bs) !! LaterIds(bs)
    ensures FirstIds(bs) <= IdsOf(bs) && LaterIds(bs) <= IdsOf(bs)
    decreases |bs|
  {
    if |bs| > 0 {
      var p, b := bs[..|bs| - 1], bs[|bs| - 1];
      LastIdFresh(bs);
      FirstAndLaterDisjoint(p);
      IdsOfSnoc(p, b);
      assert p + [b] == bs;
      var first := if HasUrl(b) && |Occurrences(p, Key(b))| == 0 then {b.id} else {};
      var later := if HasUrl(b) && |Occurrences(p, Key(b))| >= 1 then {b.id} else {};
      assert FirstIds(bs) == FirstIds(p) + first;
      assert LaterIds(bs) == LaterIds(p) + later;
      assert first !! later;
      assert b.id !in FirstIds(p) && b.id !in LaterIds(p);
    }
  }

  /** With unique bookmark ids (as the host guarantees), the first bookmark of every
      group survives "Remove All Duplicates". */
  lemma KeepsFirstOccurrence(bs: seq<Node>, i: nat)
    requires UniqueIds(bs)
    requires i < |IdentifyDuplicates(bs)|
    ensures IdentifyDuplicates(bs)[i].bookmarks[0].id !in IdsToRemove(IdentifyDuplicates(bs))
  {
    var r := IdentifyDuplicates(bs);
    var k := GroupKey(r[i]);
    FirstOccurrenceIsFirst(bs, k);
    FirstAndLaterDisjoint(bs);
    RemovesExactlyLaterOccurrences(bs, r[i].bookmarks[0].id);
  }
}
