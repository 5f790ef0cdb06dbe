/** The order in which nested segments are laid out: every segment after those that strictly
    contain its sections. */
module ElfOrder {

  ghost predicate Sorted(s: seq<nat>) {
    forall i, j :: 0 <= i < j < |s| ==> s[i] <= s[j]
  }

  /** std::includes: whether every element of sub, counted, is found walking through sup. */
  function Includes(sup: seq<nat>, sub: seq<nat>): bool {
    if sub == [] then true
    else if sup == [] || sub[0] < sup[0] then false
    else if sup[0] < sub[0] then Includes(sup[1..], sub)
    else Includes(sup[1..], sub[1..])
  }

  lemma MissingFirst(sup: seq<nat>, sub: seq<nat>)
    requires Sorted(sup) && sub != [] && (sup == [] || sub[0] < sup[0])
    ensures !(multiset(sub) <= multiset(sup))
  {
    assert sub[0] in multiset(sub);
    assert sub[0] !in sup;
  }

  lemma SmallerFirst(sup: seq<nat>, sub: seq<nat>)
    requires Sorted(sub) && sup != [] && sub != [] && sup[0] < sub[0]
    ensures multiset(sub) <= multiset(sup) <==> multiset(sub) <= multiset(sup[1..])
  {
    assert sup == [sup[0]] + sup[1..];
    assert sup[0] !in sub;
  }

  lemma EqualFirst(sup: seq<nat>, sub: seq<nat>)
    requires sup != [] && sub != [] && sup[0] == sub[0]
    ensures multiset(sub) <= multiset(sup) <==> multiset(sub[1..]) <= multiset(sup[1..])
  {
    assert sup == [sup[0]] + sup[1..] && sub == [sub[0]] + sub[1..];
    assert multiset(sup) == multiset{sup[0]} + multiset(sup[1..]);
    assert multiset(sub) == multiset{sub[0]} + multiset(sub[1..]);
    CancelOne(sub[0], multiset(sub[1..]), multiset(sup[1..]));
  }

  lemma CancelOne(a: nat, s: multiset<nat>, t: multiset<nat>)
    ensures multiset{a} + s <= multiset{a} + t <==> s <= t
  {
    if multiset{a} + s <= multiset{a} + t {
      forall x ensures s[x] <= t[x] {
        assert (multiset{a} + s)[x] <= (multiset{a} + t)[x];
      }
    }
  }

  /** On sorted lists that is multiset inclusion. */
  lemma {:induction false} IncludesIsInclusion(sup: seq<nat>, sub: seq<nat>)
    requires Sorted(sup) && Sorted(sub)
    ensures Includes(sup, sub) <==> multiset(sub) <= multiset(sup)
    decreases |sup|
  {
    if sub == [] {
    } else if sup == [] || sub[0] < sup[0] {
      MissingFirst(sup, sub);
    } else if sup[0] < sub[0] {
      SmallerFirst(sup, sub);
      IncludesIsInclusion(sup[1..], sub);
    } else {
      EqualFirst(sup, sub);
      IncludesIsInclusion(sup[1..], sub[1..]);
    }
  }

  /** is_subsequence_of, on the section lists */
  function IsSubsequenceOf(sections1: seq<nat>, sections2: seq<nat>): bool {
    |sections1| < |sections2| && Includes(sections2, sections1)
  }

  /** On sorted lists: strict containment. */
  lemma SubsequenceIsStrictContainment(s1: seq<nat>, s2: seq<nat>)
    requires Sorted(s1) && Sorted(s2)
    ensures IsSubsequenceOf(s1, s2) <==> multiset(s1) < multiset(s2)
  {
    IncludesIsInclusion(s2, s1);
    if multiset(s1) <= multiset(s2) {
      assert multiset(s2) == multiset(s1) + (multiset(s2) - multiset(s1));
      assert |multiset(s2)| == |multiset(s1)| + |multiset(s2) - multiset(s1)|;
    }
  }

  /** What the ordering looks at: the section list, and whether the segment was loaded with
      file offset 0. */
  datatype Item = Item(id: nat, sections: seq<nat>, offsetInitialized: bool, offset: nat)

  ghost predicate Outermost(work: seq<Item>, i: nat) {
    i < |work| && forall j :: 0 <= j < |work| ==> |work[j].sections| <= |work[i].sections|
  }

  lemma {:induction false} SomeOutermost(work: seq<Item>) returns (i: nat)
    requires work != []
    ensures Outermost(work, i)
  {
    if |work| == 1 {
      i := 0;
    } else {
      var k := SomeOutermost(work[1..]);
      i := if |work[0].sections| < |work[1 + k].sections| then 1 + k else 0;
      forall j | 0 <= j < |work| ensures |work[j].sections| <= |work[i].sections| {
        if j > 0 { assert work[j] == work[1..][j - 1]; }
      }
    }
  }

  lemma OutermostExists(work: seq<Item>)
    requires work != []
    ensures exists i: nat :: Outermost(work, i)
  {
    var i := SomeOutermost(work);
  }

  ghost function FirstOutermost(work: seq<Item>): (i: nat)
    requires work != []
    ensures Outermost(work, i) && forall j :: 0 <= j < i ==> !Outermost(work, j)
  {
    OutermostExists(work);
    var w: nat :| Outermost(work, w);
    LeastOutermost(work, w)
  }

  ghost function LeastOutermost(work: seq<Item>, w: nat): (i: nat)
    requires Outermost(work, w)
    ensures Outermost(work, i) && i <= w && forall j :: 0 <= j < i ==> !Outermost(work, j)
    decreases w
  {
    if exists j :: 0 <= j < w && Outermost(work, j) then
      var j :| 0 <= j < w && Outermost(work, j);
      LeastOutermost(work, j)
    else w
  }

  /** Rotating a segment that is not outermost brings the first outermost one a step nearer. */
  lemma RotationApproaches(work: seq<Item>, i: nat)
    requires work != [] && 0 < i < |work| && IsSubsequenceOf(work[0].sections, work[i].sections)
    ensures FirstOutermost(work[1..] + [work[0]]) < FirstOutermost(work)
  {
    var k := FirstOutermost(work);
    var turned := work[1..] + [work[0]];
    assert k > 0;
    assert turned[k - 1] == work[k];
    forall j | 0 <= j < |turned| ensures |turned[j].sections| <= |work[k].sections| {
      assert turned[j] == if j < |work| - 1 then work[j + 1] else work[0];
    }
    assert Outermost(turned, k - 1);
  }

  ghost predicate LoadedAtZero(item: Item) { item.offsetInitialized && item.offset == 0 }

  /** Before position n only items with offset 0, and those loaded there no later than position n. */
  ghost predicate ZerosUpTo(work: seq<Item>, n: nat, seen: nat) {
    && n <= seen <= |work|
    && (forall k :: 0 <= k < n ==> work[k].offset == 0)
    && (forall k :: n < k < seen ==> !LoadedAtZero(work[k]))
  }

  lemma ZerosSkip(work: seq<Item>, n: nat, i: nat)
    requires ZerosUpTo(work, n, i) && i < |work| && (i == n || !LoadedAtZero(work[i]))
    ensures n <= i && ZerosUpTo(work, n, i + 1)
  {
  }

  lemma ZerosSwap(work: seq<Item>, n: nat, i: nat)
    requires ZerosUpTo(work, n, i) && n < i < |work| && LoadedAtZero(work[i])
    ensures var m := if work[n].offset == 0 then n + 1 else n;
            ZerosUpTo(work[i := work[m]][m := work[i]], m + 1, i + 1)
  {
  }

  lemma SwapKeepsMultiset(work: seq<Item>, i: nat, m: nat)
    requires i < |work| && m < |work|
    ensures multiset(work[i := work[m]][m := work[i]]) == multiset(work)
  {
  }

  /** Bringing segments with offset 0 to the front: nothing is lost, and before a segment that was
      loaded at offset 0 there are only segments with that offset. */
  method ZeroOffsetsFirst(segments: seq<Item>) returns (work: seq<Item>)
    ensures multiset(work) == multiset(segments)
    ensures forall j, k :: 0 <= j < k < |work| && LoadedAtZero(work[k]) ==> work[j].offset == 0
  {
    work := segments;
    var nextSlot := 0;
    assert ZerosUpTo(work, 0, 0);
    for i := 0 to |work|
      invariant |work| == |segments| && multiset(work) == multiset(segments)
      invariant nextSlot <= i && ZerosUpTo(work, nextSlot, i)
    {
      hide ZerosUpTo;
      if i != nextSlot && work[i].offsetInitialized && work[i].offset == 0 {
        ZerosSwap(work, nextSlot, i);
        if work[nextSlot].offset == 0 {
          nextSlot := nextSlot + 1;
        }
        SwapKeepsMultiset(work, i, nextSlot);
        work := work[i := work[nextSlot]][nextSlot := work[i]];
        nextSlot := nextSlot + 1;
      } else {
        ZerosSkip(work, nextSlot, i);
      }
    }
    ZerosAreFirst(work, nextSlot);
  }

  lemma ZerosAreFirst(work: seq<Item>, n: nat)
    requires ZerosUpTo(work, n, |work|)
    ensures forall j, k :: 0 <= j < k < |work| && LoadedAtZero(work[k]) ==> work[j].offset == 0
  {
  }

  /** No later segment strictly contains an earlier one. */
  ghost predicate ContainersFirst(s: seq<Item>) {
    forall i, j :: 0 <= i < j < |s| ==> !IsSubsequenceOf(s[i].sections, s[j].sections)
  }

  /** What is already in the result is contained in nothing that still waits. */
  ghost predicate Settled(res: seq<Item>, work: seq<Item>) {
    ContainersFirst(res) && forall r, w :: r in res && w in work ==> !IsSubsequenceOf(r.sections, w.sections)
  }

  lemma Settle(res: seq<Item>, seg: Item, rest: seq<Item>)
    requires Settled(res, [seg] + rest)
    requires forall w :: w in rest ==> !IsSubsequenceOf(seg.sections, w.sections)
    ensures Settled(res + [seg], rest)
  {
    hide IsSubsequenceOf;
    assert seg in [seg] + rest;
    forall w | w in rest ensures w in [seg] + rest {}
  }

  lemma Requeue(res: seq<Item>, seg: Item, rest: seq<Item>)
    requires Settled(res, [seg] + rest)
    ensures Settled(res, rest + [seg])
  {
    forall w | w in rest + [seg] ensures w in [seg] + rest {}
  }

  ghost predicate Uncontained(item: Item, all: seq<Item>) {
    forall x :: x in all ==> !IsSubsequenceOf(item.sections, x.sections)
  }

  /** Before a segment loaded at offset 0 that nothing strictly contains, only offset 0. */
  ghost predicate HeadersFirst(s: seq<Item>, all: seq<Item>) {
    forall j, k :: 0 <= j < k < |s| && LoadedAtZero(s[k]) && Uncontained(s[k], all) ==> s[j].offset == 0
  }

  lemma RequeueKeepsHeaders(res: seq<Item>, seg: Item, rest: seq<Item>, all: seq<Item>)
    requires HeadersFirst(res + ([seg] + rest), all) && !Uncontained(seg, all)
    ensures HeadersFirst(res + (rest + [seg]), all)
  {
    hide Uncontained, LoadedAtZero;
    var s, s' := res + ([seg] + rest), res + (rest + [seg]);
    forall j, k | 0 <= j < k < |s'| && LoadedAtZero(s'[k]) && Uncontained(s'[k], all) ensures s'[j].offset == 0 {
      var n := |res|;
      assert s'[j] == s[if j < n then j else j + 1] && s'[k] == s[if k < n then k else k + 1];
    }
  }

  lemma ContainedIn(seg: Item, x: Item, res: seq<Item>, work: seq<Item>, all: seq<Item>)
    requires multiset(res) + multiset(work) == multiset(all) && x in work
    requires IsSubsequenceOf(seg.sections, x.sections)
    ensures !Uncontained(seg, all)
  {
    hide IsSubsequenceOf;
    assert x in multiset(res) + multiset(work);
    assert x in multiset(all);
  }

  /** What the re-queuing keeps. */
  ghost predicate Sorting(res: seq<Item>, work: seq<Item>, all: seq<Item>) {
    multiset(res) + multiset(work) == multiset(all) && Settled(res, work) && HeadersFirst(res + work, all)
  }

  lemma SortingStarts(work: seq<Item>, all: seq<Item>)
    requires multiset(work) == multiset(all)
    requires forall j, k :: 0 <= j < k < |work| && LoadedAtZero(work[k]) ==> work[j].offset == 0
    ensures Sorting([], work, all)
  {
    assert [] + work == work;
  }

  lemma SortingRequeues(res: seq<Item>, work: seq<Item>, all: seq<Item>, i: nat)
    requires Sorting(res, work, all) && 0 < i < |work| && IsSubsequenceOf(work[0].sections, work[i].sections)
    ensures Sorting(res, work[1..] + [work[0]], all)
  {
    hide IsSubsequenceOf, HeadersFirst, Settled;
    var seg, rest := work[0], work[1..];
    assert work == [seg] + rest;
    Requeue(res, seg, rest);
    ContainedIn(seg, work[i], res, work, all);
    RequeueKeepsHeaders(res, seg, rest, all);
  }

  lemma SortingTakes(res: seq<Item>, work: seq<Item>, all: seq<Item>)
    requires Sorting(res, work, all) && work != []
    requires forall w :: w in work[1..] ==> !IsSubsequenceOf(work[0].sections, w.sections)
    ensures Sorting(res + [work[0]], work[1..], all)
  {
    hide IsSubsequenceOf, HeadersFirst, Settled;
    var seg, rest := work[0], work[1..];
    assert work == [seg] + rest;
    Settle(res, seg, rest);
    assert (res + [seg]) + rest == res + work;
  }

  lemma SortingEnds(res: seq<Item>, all: seq<Item>)
    requires Sorting(res, [], all)
    ensures multiset(res) == multiset(all) && ContainersFirst(res) && HeadersFirst(res, all)
  {
    hide HeadersFirst, ContainersFirst;
    assert res + [] == res;
  }

  /** get_ordered_segments: a permutation, containers first and otherwise the segments loaded at
      offset 0, and the re-queuing ends. */
  method GetOrderedSegments(segments: seq<Item>) returns (res: seq<Item>)
    ensures multiset(res) == multiset(segments)
    ensures ContainersFirst(res)
    ensures HeadersFirst(res, segments)
  {
    var worklist := ZeroOffsetsFirst(segments);
    SortingStarts(worklist, segments);
    hide *;
    res := [];
    while worklist != []
      invariant Sorting(res, worklist, segments)
      decreases |worklist|, if worklist == [] then 0 else FirstOutermost(worklist)
    {
      var seg, rest := worklist[0], worklist[1..];
      var i := FindContainer(seg, rest);
      if i < |rest| {
        assert rest[i] == worklist[i + 1];
        RotationApproaches(worklist, i + 1);
        SortingRequeues(res, worklist, segments, i + 1);
        worklist := rest + [seg];
      } else {
        SortingTakes(res, worklist, segments);
        res, worklist := res + [seg], rest;
      }
    }
    SortingEnds(res, segments);
  }

  method FindContainer(seg: Item, rest: seq<Item>) returns (i: nat)
    ensures i <= |rest|
    ensures if i < |rest| then IsSubsequenceOf(seg.sections, rest[i].sections)
            else forall w :: w in rest ==> !IsSubsequenceOf(seg.sections, w.sections)
  {
    i := 0;
    while i < |rest| && !IsSubsequenceOf(seg.sections, rest[i].sections)
      invariant i <= |rest| && forall j :: 0 <= j < i ==> !IsSubsequenceOf(seg.sections, rest[j].sections)
    {
      i := i + 1;
    }
  }

  /** Read for sorted lists: a segment comes after every segment that strictly contains it. */
  lemma StrictContainersComeFirst(s: seq<Item>, i: nat, j: nat)
    requires ContainersFirst(s) && i < |s| && j < |s|
    requires forall x :: x in s ==> Sorted(x.sections)
    requires multiset(s[i].sections) < multiset(s[j].sections)
    ensures j < i
  {
    SubsequenceIsStrictContainment(s[i].sections, s[j].sections);
  }
}
