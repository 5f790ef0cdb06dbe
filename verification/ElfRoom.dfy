/** For which inputs no file position of a layout passes 2^64. */
module ElfRoom {
  import opened Basics
  import opened PowersOfTwo
  import opened ElfFile
  import opened ElfPlan

  // ----- what the layout touches

  ghost predicate Untouched(c: Cursor, initial: seq<Section>) {
    && |c.sections| == |c.generated| == |initial|
    && forall i :: 0 <= i < |initial| && !c.generated[i] ==> c.sections[i] == initial[i]
  }

  /** Half way through the order: the segments not done are as they were, and whatever is
      generated is listed by one that is done. */
  ghost predicate Underway(p: Plan, initial: seq<Section>, segments: seq<Segment>, done: seq<bool>) {
    && |p.segments| == |segments| == |done| && Untouched(p.cursor, initial)
    && (forall g :: 0 <= g < |segments| ==> p.segments[g].sections == segments[g].sections)
    && (forall g :: 0 <= g < |segments| && !done[g] ==> p.segments[g] == segments[g])
    && (forall i :: 0 <= i < |initial| && p.cursor.generated[i] ==> ListedBy(segments, done, i))
  }

  ghost predicate ListedBy(segments: seq<Segment>, done: seq<bool>, i: nat)
    requires |done| == |segments|
  {
    exists h :: 0 <= h < |segments| && done[h] && i in segments[h].sections
  }

  ghost predicate Grows(c: Cursor, c': Cursor, ids: seq<nat>) {
    && |c.sections| == |c.generated| == |c'.sections| == |c'.generated|
    && forall i :: 0 <= i < |c.sections| ==>
         && (!c'.generated[i] ==> !c.generated[i] && c'.sections[i] == c.sections[i])
         && (c'.generated[i] ==> c.generated[i] || i in ids)
  }

  lemma OneGrows(c: Cursor, seg: Segment, index: nat, start: nat)
    requires index < |c.sections| == |c.generated| && PlacedOne(c, seg, index, start).Some?
    ensures Grows(c, PlacedOne(c, seg, index, start).value, [index])
  {
    hide Sub64, Add64, SectionAlign;
  }

  lemma {:induction false} AllGrow(c: Cursor, seg: Segment, ids: seq<nat>, start: nat)
    requires c.Lists(ids) && PlacedAll(c, seg, ids, start).Some?
    ensures Grows(c, PlacedAll(c, seg, ids, start).value, ids)
    decreases |ids|
  {
    hide PlacedOne;
    if ids != [] {
      OneGrows(c, seg, ids[0], start);
      AllGrow(PlacedOne(c, seg, ids[0], start).value, seg, ids[1..], start);
    }
  }

  lemma SegmentUnderway(p: Plan, g: nat, tableOffset: nat, tableSize: nat, initial: seq<Section>,
                        segments: seq<Segment>, done: seq<bool>)
    requires Sound(p) && g < |p.segments| && Underway(p, initial, segments, done)
    requires SegmentDone(p, g, tableOffset, tableSize).Some?
    ensures Underway(SegmentDone(p, g, tableOffset, tableSize).value, initial, segments, done[g := true])
  {
    hide PlacedOne, PlacedAll;
    var b := StartAt(p.cursor, p.segments[g], tableOffset, tableSize);
    hide StartAt;
    AllGrow(b.cursor, p.segments[g], p.segments[g].sections, b.start);
    var q, done' := SegmentDone(p, g, tableOffset, tableSize).value, done[g := true];
    forall i | 0 <= i < |initial| && q.cursor.generated[i] ensures ListedBy(segments, done', i) {
      if p.cursor.generated[i] {
        var h :| 0 <= h < |segments| && done[h] && i in segments[h].sections;
        assert done'[h];
      } else {
        assert done'[g] && i in segments[g].sections;
      }
    }
  }

  // ----- how far each section and segment may move the file position

  function Bytes(sec: Section): nat {
    if sec.Backed() then sec.size else 0
  }

  function Slack(sec: Section): nat {
    if sec.addrAlign > 1 then sec.addrAlign - 1 else 0
  }

  /** Before a section of a segment at vaddr: up to its address, or to its alignment. */
  function Span(sec: Section, vaddr: nat): nat {
    if !sec.addressInitialized then Slack(sec)
    else if sec.Addressed() && sec.address >= vaddr then sec.address - vaddr
    else 0
  }

  /** The widest span among the segments that list section i. */
  function WidestSpan(sec: Section, segments: seq<Segment>, i: nat): nat {
    if segments == [] then 0
    else
      var rest := WidestSpan(sec, segments[1..], i);
      if i in segments[0].sections && Span(sec, segments[0].vaddr) > rest then Span(sec, segments[0].vaddr) else rest
  }

  ghost function Budget(sec: Section, segments: seq<Segment>, i: nat): nat {
    (if InNoSegment(segments, i) then Slack(sec) else WidestSpan(sec, segments, i)) + Bytes(sec)
  }

  ghost function Budgets(sections: seq<Section>, segments: seq<Segment>): (b: seq<nat>)
    ensures |b| == |sections| && forall i :: 0 <= i < |b| ==> b[i] == Budget(sections[i], segments, i)
  {
    seq(|sections|, i requires 0 <= i < |sections| => Budget(sections[i], segments, i))
  }

  function PageBudget(seg: Segment): nat {
    if seg.sections == [] then 0 else seg.Alignment() - 1
  }

  function PageBudgets(segments: seq<Segment>): (b: seq<nat>)
    ensures |b| == |segments| && forall g :: 0 <= g < |b| ==> b[g] == PageBudget(segments[g])
  {
    seq(|segments|, g requires 0 <= g < |segments| => PageBudget(segments[g]))
  }

  /** The budgets not yet spent. */
  function Left(budgets: seq<nat>, spent: seq<bool>): nat
    requires |budgets| == |spent|
  {
    if budgets == [] then 0 else (if spent[0] then 0 else budgets[0]) + Left(budgets[1..], spent[1..])
  }

  lemma {:induction false} LeftAfter(budgets: seq<nat>, spent: seq<bool>, i: nat)
    requires |budgets| == |spent| && i < |spent|
    ensures Left(budgets, spent) == Left(budgets, spent[i := true]) + (if spent[i] then 0 else budgets[i])
  {
    if i == 0 {
      assert spent[0 := true][1..] == spent[1..];
    } else {
      LeftAfter(budgets[1..], spent[1..], i - 1);
      assert spent[i := true][1..] == spent[1..][i - 1 := true];
    }
  }

  function Total(budgets: seq<nat>): nat {
    Left(budgets, seq(|budgets|, _ => false))
  }

  /** Headers, bytes, spans and alignments together stay below 2^64. */
  ghost predicate Roomy(input: Input)
    requires InRange(input.sections, input.segments)
  {
    var segments := AlignAll(input.sections, input.segments);
    input.Headers() + Total(Budgets(input.sections, segments)) + Total(PageBudgets(segments)) + 3 < TWO64
  }

  ghost predicate NoneBelow(sections: seq<Section>, segments: seq<Segment>) {
    forall g, i :: 0 <= g < |segments| && i in segments[g].sections && i < |sections| && sections[i].Addressed() ==>
      sections[i].address >= segments[g].vaddr
  }

  lemma {:induction false} SpanWithinWidest(sec: Section, segments: seq<Segment>, i: nat, g: nat)
    requires g < |segments| && i in segments[g].sections
    ensures Span(sec, segments[g].vaddr) <= WidestSpan(sec, segments, i)
  {
    if g > 0 { SpanWithinWidest(sec, segments[1..], i, g - 1); }
  }

  // ----- enough room

  /** The position, with everything that may still be spent, stays below 2^64. */
  ghost predicate Room(c: Cursor, budgets: seq<nat>, rest: nat) {
    |c.generated| == |budgets| && c.fits && c.pos + Left(budgets, c.generated) + rest < TWO64
  }

  lemma StepWithinSpan(sec: Section, vaddr: nat, pos: nat, start: nat)
    requires sec.Words() && vaddr < TWO64 && sec.typ != SHT_NULL && (sec.Addressed() ==> sec.address >= vaddr)
    requires SectionAlign(sec, vaddr, false, pos, start, 0).Some?
    ensures SectionAlign(sec, vaddr, false, pos, start, 0).value <= Span(sec, vaddr)
  {
    if sec.Addressed() {
      Sub64Value(sec.address, vaddr);
      hide Sub64;
    } else if !sec.addressInitialized && sec.addrAlign <= 1 {
      assert (1 - pos % 1) % 1 == 0;
    }
  }

  lemma OneKeepsRoom(c: Cursor, seg: Segment, index: nat, start: nat, budgets: seq<nat>, rest: nat)
    requires index < |c.sections| == |c.generated| && Room(c, budgets, rest) && PlacedOne(c, seg, index, start).Some?
    requires var sec := c.sections[index];
      !c.generated[index] ==>
        && sec.Words() && seg.vaddr < TWO64 && (sec.Addressed() ==> sec.address >= seg.vaddr)
        && Span(sec, seg.vaddr) + Bytes(sec) <= budgets[index]
    ensures Room(PlacedOne(c, seg, index, start).value, budgets, rest)
  {
    hide Sub64, SectionAlign, Left, Span, Section.Words;
    var sec := c.sections[index];
    LeftAfter(budgets, c.generated, index);
    if !c.generated[index] && sec.typ != SHT_NULL {
      AlignIgnoresSize(sec, seg.vaddr, c.pos, start, c.filesize);
      StepWithinSpan(sec, seg.vaddr, c.pos, start);
    }
  }

  lemma AlignIgnoresSize(sec: Section, vaddr: nat, pos: nat, start: nat, filesize: nat)
    ensures SectionAlign(sec, vaddr, false, pos, start, filesize) == SectionAlign(sec, vaddr, false, pos, start, 0)
  {
  }

  /** What the budgets are computed from: sections as words, none below a segment that lists it. */
  ghost predicate Planned(initial: seq<Section>, segments: seq<Segment>) {
    && NoneBelow(initial, segments)
    && (forall i :: 0 <= i < |initial| ==> initial[i].Words())
    && (forall g :: 0 <= g < |segments| ==> segments[g].Words())
  }

  lemma ListedWithinBudget(initial: seq<Section>, segments: seq<Segment>, g: nat, i: nat)
    requires Planned(initial, segments) && g < |segments| && i in segments[g].sections && i < |initial|
    ensures Span(initial[i], segments[g].vaddr) + Bytes(initial[i]) <= Budgets(initial, segments)[i]
    ensures initial[i].Addressed() ==> initial[i].address >= segments[g].vaddr
  {
    hide Span, Bytes;
    SpanWithinWidest(initial[i], segments, i, g);
  }

  lemma {:induction false} AllKeepRoom(c: Cursor, seg: Segment, ids: seq<nat>, start: nat, initial: seq<Section>,
                                       segments: seq<Segment>, g: nat, rest: nat)
    requires c.Lists(ids) && Untouched(c, initial) && Planned(initial, segments)
    requires g < |segments| && seg.vaddr == segments[g].vaddr && forall i :: i in ids ==> i in segments[g].sections
    requires Room(c, Budgets(initial, segments), rest) && PlacedAll(c, seg, ids, start).Some?
    ensures Room(PlacedAll(c, seg, ids, start).value, Budgets(initial, segments), rest)
    decreases |ids|
  {
    hide PlacedOne, Room, Budgets, Span, Bytes;
    if ids != [] {
      assert ids[0] in ids;
      var next := PlacedOne(c, seg, ids[0], start).value;
      ListedWithinBudget(initial, segments, g, ids[0]);
      OneKeepsRoom(c, seg, ids[0], start, Budgets(initial, segments), rest);
      OneGrows(c, seg, ids[0], start);
      AllKeepRoom(next, seg, ids[1..], start, initial, segments, g, rest);
    }
  }

  lemma PageStepBelow(seg: Segment, pos: nat)
    ensures PageStep(seg, pos) < seg.Alignment()
  {
    hide Add64, Sub64;
  }

  lemma StartKeepsRoom(c: Cursor, seg: Segment, tableOffset: nat, tableSize: nat, budgets: seq<nat>, rest: nat)
    requires c.Lists(seg.sections) && Room(c, budgets, rest + PageBudget(seg))
    ensures Room(StartAt(c, seg, tableOffset, tableSize).cursor, budgets, rest)
  {
    hide PageStep, Left;
    PageStepBelow(seg, c.pos);
  }

  lemma SegmentKeepsRoom(p: Plan, g: nat, tableOffset: nat, tableSize: nat, initial: seq<Section>,
                         segments: seq<Segment>, done: seq<bool>, rest: nat)
    requires Sound(p) && g < |p.segments| && Underway(p, initial, segments, done) && !done[g]
    requires Planned(initial, segments)
    requires Room(p.cursor, Budgets(initial, segments), rest + PageBudget(segments[g]))
    requires SegmentDone(p, g, tableOffset, tableSize).Some?
    ensures Room(SegmentDone(p, g, tableOffset, tableSize).value.cursor, Budgets(initial, segments), rest)
  {
    hide PlacedAll, StartAt, Planned, Budgets, Left, PageBudget, ListedBy;
    var seg := p.segments[g];
    StartKeepsRoom(p.cursor, seg, tableOffset, tableSize, Budgets(initial, segments), rest);
    var b := StartAt(p.cursor, seg, tableOffset, tableSize);
    AllKeepRoom(b.cursor, seg, seg.sections, b.start, initial, segments, g, rest);
  }

  /** Each segment at most once, and none that is done. */
  ghost predicate ToDo(order: seq<nat>, done: seq<bool>) {
    && Within(order, |done|)
    && (forall j, k :: 0 <= j < k < |order| ==> order[j] != order[k])
    && (forall k :: 0 <= k < |order| ==> !done[order[k]])
  }

  lemma ToDoNext(order: seq<nat>, done: seq<bool>)
    requires ToDo(order, done) && order != []
    ensures ToDo(order[1..], done[order[0] := true])
  {
  }

  lemma {:induction false} SegmentsKeepRoom(p: Plan, order: seq<nat>, tableOffset: nat, tableSize: nat,
                                            initial: seq<Section>, segments: seq<Segment>, done: seq<bool>, rest: nat)
    requires Sound(p) && Within(order, |p.segments|) && Underway(p, initial, segments, done)
    requires Planned(initial, segments)
    requires ToDo(order, done) && SegmentsDone(p, order, tableOffset, tableSize).Some?
    requires Room(p.cursor, Budgets(initial, segments), Left(PageBudgets(segments), done) + rest)
    ensures var q := SegmentsDone(p, order, tableOffset, tableSize).value;
            && Room(q.cursor, Budgets(initial, segments), rest)
            && exists done' :: Underway(q, initial, segments, done')
    decreases |order|
  {
    hide SegmentDone, Underway, Planned, Budgets, PageBudget;
    if order == [] {
      hide Left;
    } else {
      var g := order[0];
      UnderwayShape(p, initial, segments, done);
      ToDoNext(order, done);
      LeftAfter(PageBudgets(segments), done, g);
      hide ToDo, Left;
      SegmentKeepsRoom(p, g, tableOffset, tableSize, initial, segments, done,
                       Left(PageBudgets(segments), done[g := true]) + rest);
      SegmentUnderway(p, g, tableOffset, tableSize, initial, segments, done);
      SegmentsKeepRoom(SegmentDone(p, g, tableOffset, tableSize).value, order[1..], tableOffset, tableSize, initial,
                       segments, done[g := true], rest);
    }
  }

  lemma UnderwayShape(p: Plan, initial: seq<Section>, segments: seq<Segment>, done: seq<bool>)
    requires Underway(p, initial, segments, done)
    ensures |p.segments| == |segments| == |done| && |p.cursor.sections| == |p.cursor.generated| == |initial|
  {
  }

  // ----- the sections outside segments

  lemma AlignedUpMoves(c: Cursor, align: nat)
    requires c.fits && c.pos + (if align > 1 then align - 1 else 0) < TWO64
    ensures var m := AlignedUp(c, align);
            m.fits && m.sections == c.sections && c.pos <= m.pos <= c.pos + (if align > 1 then align - 1 else 0)
  {
    if align > 1 && c.pos % align != 0 {
      var n := align - c.pos % align;
      assert n <= align - 1;
      hide *;
      MovedWithin(c, n);
    }
  }

  lemma MovedWithin(c: Cursor, n: nat)
    requires c.fits && c.pos + n < TWO64
    ensures Moved(c, n) == c.(pos := c.pos + n)
  {
  }

  lemma LooseOneMoves(c: Cursor, i: nat)
    requires i < |c.sections| && c.fits && c.pos + Slack(c.sections[i]) + Bytes(c.sections[i]) < TWO64
    ensures LooseOne(c, i).fits && c.pos <= LooseOne(c, i).pos <= c.pos + Slack(c.sections[i]) + Bytes(c.sections[i])
  {
    hide AlignedUp, Add64;
    AlignedUpMoves(c, c.sections[i].addrAlign);
    var m := AlignedUp(c, c.sections[i].addrAlign);
    MovedWithin(m, Bytes(c.sections[i]));
  }

  lemma {:induction false} LooseKeepsRoom(c: Cursor, segments: seq<Segment>, i: nat, initial: seq<Section>,
                                          budgets: seq<nat>, rest: nat)
    requires i <= |c.sections| == |c.generated| == |initial| == |budgets|
    requires forall j :: i <= j < |initial| && InNoSegment(segments, j) ==>
      !c.generated[j] && c.sections[j] == initial[j] && budgets[j] == Slack(initial[j]) + Bytes(initial[j])
    requires c.fits && c.pos + Left(budgets[i..], c.generated[i..]) + rest < TWO64
    ensures var r := LooseFrom(c, segments, i); r.fits && r.pos + rest < TWO64
    decreases |c.sections| - i
  {
    if i < |c.sections| {
      assert budgets[i..][1..] == budgets[i + 1..] && c.generated[i..][1..] == c.generated[i + 1..];
      if InNoSegment(segments, i) { LooseOneMoves(c, i); }
      hide Slack, Bytes, InNoSegment;
      LooseKeepsRoom(if InNoSegment(segments, i) then LooseOne(c, i) else c, segments, i + 1, initial, budgets, rest);
    }
  }

  lemma LooseRoom(p: Plan, initial: seq<Section>, segments: seq<Segment>, done: seq<bool>, rest: nat)
    requires Underway(p, initial, segments, done) && Room(p.cursor, Budgets(initial, segments), rest)
    ensures var r := LooseFrom(p.cursor, p.segments, 0); r.fits && r.pos + rest < TWO64
  {
    hide Slack, Bytes, WidestSpan, Left, LooseFrom;
    var c, budgets := p.cursor, Budgets(initial, segments);
    assert budgets[0..] == budgets && c.generated[0..] == c.generated;
    forall i | 0 <= i < |initial| && InNoSegment(p.segments, i)
      ensures !c.generated[i] && budgets[i] == Slack(initial[i]) + Bytes(initial[i])
    {
      assert InNoSegment(segments, i);
    }
    LooseKeepsRoom(c, p.segments, 0, initial, budgets, rest);
  }

  /** An order that names every segment once. */
  ghost predicate Complete(order: seq<nat>, n: nat) {
    && Within(order, n) && (forall j, k :: 0 <= j < k < |order| ==> order[j] != order[k])
    && forall g: nat :: g < n ==> g in order
  }

  lemma BeginsUnderway(input: Input)
    requires input.Valid()
    ensures Underway(input.Begins(), input.sections, input.Begins().segments, seq(|input.segments|, _ => false))
  {
    hide AlignAll, Section.Words, Segment.Words;
  }

  lemma {:induction false} MaxAlignWords(sections: seq<Section>, ids: seq<nat>, a: nat)
    requires forall j :: 0 <= j < |ids| ==> ids[j] < |sections|
    requires a <= TWO64 / 2 && forall i :: 0 <= i < |sections| ==> sections[i].Words()
    ensures MaxAlign(sections, ids, a) <= TWO64 / 2
  {
    if ids != [] {
      MaxAlignWords(sections, ids[1..], if sections[ids[0]].addrAlign > a then sections[ids[0]].addrAlign else a);
    }
  }

  lemma BeginsPlanned(input: Input)
    requires input.Valid() && NoneBelow(input.sections, input.segments)
    ensures Planned(input.sections, input.Begins().segments)
  {
    hide MaxAlign;
    forall g | 0 <= g < |input.segments| ensures input.Begins().segments[g].Words() {
      MaxAlignWords(input.sections, input.segments[g].sections, input.segments[g].align);
    }
  }

  lemma BeginsWithRoom(input: Input, order: seq<nat>)
    requires input.Valid() && Roomy(input) && Complete(order, |input.segments|)
    ensures var p, done := input.Begins(), seq(|input.segments|, _ => false);
            && ToDo(order, done)
            && Room(p.cursor, Budgets(input.sections, p.segments), Left(PageBudgets(p.segments), done) + 3)
  {
    hide AlignAll, Budget, PageBudget, Left, Section.Words, Segment.Words;
    var p := input.Begins();
    assert p.cursor.generated == seq(|Budgets(input.sections, p.segments)|, _ => false);
  }

  /** No section has an address below that of a segment listing it, and there is room for everything. */
  ghost predicate InputsFit(input: Input) {
    InRange(input.sections, input.segments) && NoneBelow(input.sections, input.segments) && Roomy(input)
  }

  /** Such inputs are laid out without a file position passing 2^64, in any order. */
  lemma FitsWhenInputsFit(input: Input, order: seq<nat>)
    requires input.Valid() && Complete(order, |input.segments|) && input.Laid(order).Some?
    requires InputsFit(input)
    ensures input.Laid(order).value.cursor.fits
  {
    hide AlignAll, Budgets, PageBudgets, Left, SegmentsDone, LooseFrom, Planned, NoneBelow, Underway, Room, Roomy, ToDo;
    var p, done := input.Begins(), seq(|input.segments|, _ => false);
    BeginsUnderway(input);
    BeginsPlanned(input);
    BeginsWithRoom(input, order);
    SegmentsKeepRoom(p, order, input.TableOffset(), input.TableSize(), input.sections, p.segments, done, 3);
    var q := SegmentsDone(p, order, input.TableOffset(), input.TableSize()).value;
    var done' :| Underway(q, input.sections, p.segments, done');
    LooseRoom(q, input.sections, p.segments, done', 3);
  }

  // ----- and only then

  lemma OneGoesOn(c: Cursor, seg: Segment, index: nat, start: nat)
    requires index < |c.sections| == |c.generated| && PlacedOne(c, seg, index, start).Some?
    requires PlacedOne(c, seg, index, start).value.fits
    ensures c.fits && c.pos <= PlacedOne(c, seg, index, start).value.pos
  {
    hide Sub64, SectionAlign;
  }

  lemma {:induction false} AllGoOn(c: Cursor, seg: Segment, ids: seq<nat>, start: nat)
    requires c.Lists(ids) && PlacedAll(c, seg, ids, start).Some? && PlacedAll(c, seg, ids, start).value.fits
    ensures c.fits && c.pos <= PlacedAll(c, seg, ids, start).value.pos
    decreases |ids|
  {
    hide PlacedOne;
    if ids != [] {
      AllGoOn(PlacedOne(c, seg, ids[0], start).value, seg, ids[1..], start);
      OneGoesOn(c, seg, ids[0], start);
    }
  }

  lemma StartGoesOn(c: Cursor, seg: Segment, tableOffset: nat, tableSize: nat)
    requires c.Lists(seg.sections) && StartAt(c, seg, tableOffset, tableSize).cursor.fits
    ensures c.fits && c.pos <= StartAt(c, seg, tableOffset, tableSize).cursor.pos
  {
    hide PageStep;
  }

  lemma {:induction false} LooseGoesOn(c: Cursor, segments: seq<Segment>, i: nat)
    requires i <= |c.sections| && LooseFrom(c, segments, i).fits
    ensures c.fits
    decreases |c.sections| - i
  {
    hide InNoSegment, Add64;
    if i < |c.sections| {
      LooseGoesOn(if InNoSegment(segments, i) then LooseOne(c, i) else c, segments, i + 1);
    }
  }

  /** The addressed sections a segment places have a file offset: its start and their distance
      from its address, modulo 2^64, do not add up to 2^64. */
  lemma {:induction false} AllReach(c: Cursor, seg: Segment, ids: seq<nat>, start: nat, initial: seq<Section>, i: nat)
    requires c.Lists(ids) && PlacedAll(c, seg, ids, start).Some? && PlacedAll(c, seg, ids, start).value.fits
    requires Untouched(c, initial) && start <= c.pos < TWO64 && seg.vaddr < TWO64
    requires i in ids && !c.generated[i] && initial[i].Words() && initial[i].Addressed()
    ensures start + Sub64(initial[i].address, seg.vaddr) < TWO64
    decreases |ids|
  {
    hide PlacedOne, Sub64;
    var next := PlacedOne(c, seg, ids[0], start).value;
    AllGoOn(next, seg, ids[1..], start);
    OneGoesOn(c, seg, ids[0], start);
    OneGrows(c, seg, ids[0], start);
    if ids[0] == i {
      OneReaches(c, seg, i, start);
    } else {
      PosIsWord(c, seg, ids[0], start);
      AllReach(next, seg, ids[1..], start, initial, i);
    }
  }

  lemma PosIsWord(c: Cursor, seg: Segment, index: nat, start: nat)
    requires index < |c.sections| == |c.generated| && PlacedOne(c, seg, index, start).Some? && c.pos < TWO64
    ensures PlacedOne(c, seg, index, start).value.pos < TWO64
  {
    hide Sub64, SectionAlign;
  }

  lemma OneReaches(c: Cursor, seg: Segment, index: nat, start: nat)
    requires index < |c.sections| == |c.generated| && PlacedOne(c, seg, index, start).Some?
    requires PlacedOne(c, seg, index, start).value.fits && !c.generated[index] && start <= c.pos < TWO64
    requires seg.vaddr < TWO64
    requires c.sections[index].Words() && c.sections[index].Addressed()
    ensures start + Sub64(c.sections[index].address, seg.vaddr) < TWO64
  {
    hide Sub64, SectionAlign;
    AlignIgnoresSize(c.sections[index], seg.vaddr, c.pos, start, c.filesize);
    AddressedStepFits(c.sections[index], seg.vaddr, c.pos, start);
  }

  /** No section is listed twice by different segments, and none by a segment loaded at offset 0. */
  ghost predicate Separate(segments: seq<Segment>) {
    && (forall g, h, i :: 0 <= g < |segments| && 0 <= h < |segments| && g != h && i in segments[g].sections ==>
          i !in segments[h].sections)
    && (forall g :: 0 <= g < |segments| && segments[g].offsetInitialized && segments[g].offset == 0 ==>
          segments[g].sections == [])
  }

  ghost predicate Reaches(initial: seq<Section>, segments: seq<Segment>, g: nat, base: nat)
    requires g < |segments|
  {
    forall i :: i in segments[g].sections && i < |initial| && initial[i].Addressed() ==>
      base + Sub64(initial[i].address, segments[g].vaddr) < TWO64
  }

  lemma SegmentReaches(p: Plan, g: nat, tableOffset: nat, tableSize: nat, initial: seq<Section>, segments: seq<Segment>,
                       done: seq<bool>, base: nat)
    requires Sound(p) && g < |p.segments| && Underway(p, initial, segments, done) && !done[g] && Separate(segments)
    requires forall i :: 0 <= i < |initial| ==> initial[i].Words()
    requires segments[g].vaddr < TWO64 && base <= p.cursor.pos < TWO64
    requires SegmentDone(p, g, tableOffset, tableSize).Some?
    requires SegmentDone(p, g, tableOffset, tableSize).value.cursor.fits
    ensures Reaches(initial, segments, g, base) && p.cursor.fits
    ensures p.cursor.pos <= SegmentDone(p, g, tableOffset, tableSize).value.cursor.pos
  {
    hide PlacedAll, Sub64, PageStep, Section.Words;
    var seg := p.segments[g];
    var b := StartAt(p.cursor, seg, tableOffset, tableSize);
    AllGoOn(b.cursor, seg, seg.sections, b.start);
    StartGoesOn(p.cursor, seg, tableOffset, tableSize);
    forall i | i in seg.sections && i < |initial| && initial[i].Addressed()
      ensures base + Sub64(initial[i].address, seg.vaddr) < TWO64
    {
      assert seg.sections[0] in seg.sections;
      assert !p.cursor.generated[i] && !p.cursor.generated[seg.sections[0]];
      assert base <= b.start == b.cursor.pos;
      AllReach(b.cursor, seg, seg.sections, b.start, initial, i);
    }
  }

  lemma {:induction false} AllPosIsWord(c: Cursor, seg: Segment, ids: seq<nat>, start: nat)
    requires c.Lists(ids) && PlacedAll(c, seg, ids, start).Some? && c.pos < TWO64
    ensures PlacedAll(c, seg, ids, start).value.pos < TWO64
    decreases |ids|
  {
    hide PlacedOne;
    if ids != [] {
      PosIsWord(c, seg, ids[0], start);
      AllPosIsWord(PlacedOne(c, seg, ids[0], start).value, seg, ids[1..], start);
    }
  }

  lemma SegmentPosIsWord(p: Plan, g: nat, tableOffset: nat, tableSize: nat)
    requires Sound(p) && g < |p.segments| && SegmentDone(p, g, tableOffset, tableSize).Some? && p.cursor.pos < TWO64
    ensures SegmentDone(p, g, tableOffset, tableSize).value.cursor.pos < TWO64
  {
    hide PlacedAll, PageStep;
    var b := StartAt(p.cursor, p.segments[g], tableOffset, tableSize);
    AllPosIsWord(b.cursor, p.segments[g], p.segments[g].sections, b.start);
  }

  lemma {:induction false} SegmentsFit(p: Plan, order: seq<nat>, tableOffset: nat, tableSize: nat)
    requires Sound(p) && Within(order, |p.segments|) && SegmentsDone(p, order, tableOffset, tableSize).Some?
    requires SegmentsDone(p, order, tableOffset, tableSize).value.cursor.fits
    ensures p.cursor.fits
    decreases |order|
  {
    hide PlacedAll, StartAt;
    if order != [] {
      var seg := p.segments[order[0]];
      var b := StartAt(p.cursor, seg, tableOffset, tableSize);
      SegmentsFit(SegmentDone(p, order[0], tableOffset, tableSize).value, order[1..], tableOffset, tableSize);
      AllGoOn(b.cursor, seg, seg.sections, b.start);
      StartGoesOn(p.cursor, seg, tableOffset, tableSize);
    }
  }

  lemma {:induction false} SegmentsReach(p: Plan, order: seq<nat>, tableOffset: nat, tableSize: nat,
                                         initial: seq<Section>, segments: seq<Segment>, done: seq<bool>, base: nat)
    requires Sound(p) && Within(order, |p.segments|) && Underway(p, initial, segments, done) && Separate(segments)
    requires ToDo(order, done) && SegmentsDone(p, order, tableOffset, tableSize).Some?
    requires forall i :: 0 <= i < |initial| ==> initial[i].Words()
    requires forall g :: 0 <= g < |segments| ==> segments[g].Words()
    requires base <= p.cursor.pos < TWO64 && SegmentsDone(p, order, tableOffset, tableSize).value.cursor.fits
    ensures p.cursor.fits && forall k :: 0 <= k < |order| ==> Reaches(initial, segments, order[k], base)
    decreases |order|
  {
    hide SegmentDone, Underway, Separate, Reaches, Section.Words;
    if order != [] {
      var g := order[0];
      UnderwayShape(p, initial, segments, done);
      ToDoNext(order, done);
      var next := SegmentDone(p, g, tableOffset, tableSize).value;
      SegmentUnderway(p, g, tableOffset, tableSize, initial, segments, done);
      SegmentPosIsWord(p, g, tableOffset, tableSize);
      SegmentsFit(next, order[1..], tableOffset, tableSize);
      SegmentReaches(p, g, tableOffset, tableSize, initial, segments, done, base);
      SegmentsReach(next, order[1..], tableOffset, tableSize, initial, segments, done[g := true], base);
      forall k | 0 <= k < |order| ensures Reaches(initial, segments, order[k], base) {
        if k > 0 { assert order[k] == order[1..][k - 1]; }
      }
    }
  }

  /** When segments share no section, every addressed section of a layout whose positions stayed
      below 2^64 has its target there too, even counted from the end of the program header table. */
  lemma FitsReaches(input: Input, order: seq<nat>)
    requires input.Valid() && Complete(order, |input.segments|) && Separate(input.segments)
    requires input.Laid(order).Some? && input.Laid(order).value.cursor.fits
    ensures input.Headers() < TWO64
    ensures forall g :: 0 <= g < |input.segments| ==> Reaches(input.sections, input.segments, g, input.Headers())
  {
    hide MaxAlign, SegmentsDone, LooseFrom, Underway, Add64, Section.Words;
    var p, done := input.Begins(), seq(|input.segments|, _ => false);
    var q := SegmentsDone(p, order, input.TableOffset(), input.TableSize()).value;
    LooseGoesOn(q.cursor, q.segments, 0);
    SegmentsFit(p, order, input.TableOffset(), input.TableSize());
    BeginsUnderway(input);
    AlignedWords(input);
    SegmentsReach(p, order, input.TableOffset(), input.TableSize(), input.sections, p.segments, done, input.Headers());
    forall g | 0 <= g < |input.segments| ensures Reaches(input.sections, input.segments, g, input.Headers()) {
      assert g in order;
      assert Reaches(input.sections, p.segments, g, input.Headers());
    }
  }

  lemma AlignedWords(input: Input)
    requires input.Valid()
    ensures forall g :: 0 <= g < |input.segments| ==> input.Begins().segments[g].Words()
  {
    hide MaxAlign;
    forall g | 0 <= g < |input.segments| ensures input.Begins().segments[g].Words() {
      MaxAlignWords(input.sections, input.segments[g].sections, input.segments[g].align);
    }
  }

  /** No section lies further below a segment that lists it than the headers are long. */
  ghost predicate NearlyAbove(input: Input) {
    forall g, i :: 0 <= g < |input.segments| && i in input.segments[g].sections && i < |input.sections| ==>
      (input.sections[i].Addressed() ==> input.segments[g].vaddr - input.sections[i].address <= input.Headers())
  }

  /** Room for everything, segments that share nothing, and no section further below its segment
      than the headers are long. */
  ghost predicate Decided(input: Input) {
    InRange(input.sections, input.segments) && Roomy(input) && Separate(input.segments) && NearlyAbove(input)
  }

  /** Of such inputs, a layout that succeeds keeps its file positions below 2^64 exactly when no
      section has an address below its segment's. */
  lemma FitsExactlyWhenInputsFit(input: Input, order: seq<nat>)
    requires input.Valid() && Complete(order, |input.segments|) && input.Laid(order).Some? && Decided(input)
    ensures input.Laid(order).value.cursor.fits <==> NoneBelow(input.sections, input.segments)
    ensures input.Laid(order).value.cursor.fits <==> InputsFit(input)
  {
    hide Roomy, Separate, Sub64, Input.Laid;
    if NoneBelow(input.sections, input.segments) {
      FitsWhenInputsFit(input, order);
    }
    if input.Laid(order).value.cursor.fits {
      FitsReaches(input, order);
      forall g, i | 0 <= g < |input.segments| && i in input.segments[g].sections && i < |input.sections|
          && input.sections[i].Addressed()
        ensures input.sections[i].address >= input.segments[g].vaddr
      {
        assert Reaches(input.sections, input.segments, g, input.Headers());
        Sub64Value(input.sections[i].address, input.segments[g].vaddr);
      }
    }
  }

  // ----- an input that is laid out over itself

  /** A segment at address 64 with a section that has no address and one at address 32. */
  function BelowItsSegment(): Input {
    Input([Section(SHT_NULL, false, false, 0, false, 0, 0, 0),
           Section(1, true, false, 0, false, 64, 1, 0),
           Section(1, true, false, 32, true, 64, 1, 0)],
          [Segment(1, 0, false, 64, 1, 0, 0, [1, 2])], 64, 56)
  }

  /** The file after one, and after both of its sections are placed. */
  function OnePlaced(): Cursor {
    var sections := BelowItsSegment().sections;
    Cursor([sections[0], sections[1].(address := 64, addressInitialized := true, offset := 120), sections[2]],
           [false, true, false], 184, true, 64, 64)
  }

  function BothPlaced(): Cursor {
    var sections := OnePlaced().sections;
    Cursor([sections[0], sections[1], sections[2].(offset := 88)], [false, true, true], 152, false, 32, 32)
  }

  lemma BelowItsSegmentBegins()
    ensures var input := BelowItsSegment();
            && InRange(input.sections, input.segments)
            && input.Begins() == Plan(Cursor(input.sections, [false, false, false], 120, true, 0, 0), input.segments)
  {
    var input := BelowItsSegment();
    var ids := input.segments[0].sections;
    assert ids[1..] == [2] && ids[1..][1..] == [];
    assert MaxAlign(input.sections, [], 1) == 1 && MaxAlign(input.sections, [2], 1) == 1;
    assert MaxAlign(input.sections, ids, 1) == 1;
    assert seq(3, _ => false) == [false, false, false];
    var aligned := AlignAll(input.sections, input.segments);
    hide AlignAll, MaxAlign;
    assert aligned[0] == input.segments[0];
    assert aligned == input.segments;
  }

  lemma PlacesTheFirst(c: Cursor, seg: Segment)
    requires c == Cursor(BelowItsSegment().sections, [false, false, false], 120, true, 0, 0)
    requires seg == BelowItsSegment().segments[0]
    ensures StartAt(c, seg, 64, 56) == Begun(c, 120)
    ensures PlacedOne(c, seg, 1, 120) == Some(OnePlaced())
  {
    assert PageStep(seg, 120) == 0;
    hide PageStep;
    assert SectionAlign(c.sections[1], 64, false, 120, 120, 0) == Some(0);
    hide SectionAlign;
    assert Sub64(Add64(64, 120), 120) == 64;
    assert Add64(120, 0) == 120 && Add64(120, 64) == 184 && Add64(0, Add64(64, 0)) == 64;
    hide Sub64, Add64;
    var r := Stored(Measured(c, c.sections[1], 1, 0), 64, 1, 120, 0);
    assert r.sections == OnePlaced().sections;
    assert r.generated == OnePlaced().generated;
  }

  lemma PlacesTheSecond(seg: Segment)
    requires seg == BelowItsSegment().segments[0]
    ensures PlacedOne(OnePlaced(), seg, 2, 120) == Some(BothPlaced())
  {
    var c := OnePlaced();
    assert Sub64(32, 64) == TWO64 - 32 && Sub64(184, 120) == 64;
    assert SectionAlign(c.sections[2], 64, false, 184, 120, 64) == Some(TWO64 - 96);
    hide SectionAlign, Sub64;
    assert Add64(184, TWO64 - 96) == 88 && Add64(88, 64) == 152;
    assert Add64(64, Add64(64, TWO64 - 96)) == 32;
    hide Add64;
    var r := Stored(Measured(c, c.sections[2], 1, TWO64 - 96), 64, 2, 120, TWO64 - 96);
    assert r.sections == BothPlaced().sections;
    assert r.generated == BothPlaced().generated;
  }

  lemma NothingIsLoose(c: Cursor, segments: seq<Segment>)
    requires c.sections == BothPlaced().sections && |segments| == 1 && segments[0].sections == [1, 2]
    ensures LooseFrom(c, segments, 0) == c
  {
    assert !InNoSegment(segments, 1) by { assert 1 in segments[0].sections; }
    assert !InNoSegment(segments, 2) by { assert 2 in segments[0].sections; }
    assert LooseFrom(c, segments, 3) == c && LooseFrom(c, segments, 2) == c && LooseFrom(c, segments, 1) == c;
    assert LooseOne(c, 0) == c by { assert c.sections[0 := c.sections[0]] == c.sections; }
  }

  lemma BothArePlaced(c: Cursor, seg: Segment)
    requires c == Cursor(BelowItsSegment().sections, [false, false, false], 120, true, 0, 0)
    requires seg == BelowItsSegment().segments[0]
    ensures PlacedAll(c, seg, [1, 2], 120) == Some(BothPlaced())
  {
    PlacesTheFirst(c, seg);
    PlacesTheSecond(seg);
    hide PlacedOne, BelowItsSegment, OnePlaced, BothPlaced;
    assert [1, 2][1..] == [2] && [2][1..] == [];
  }

  lemma PositionsDiffer(order: seq<nat>, n: nat, j: nat, k: nat)
    requires Complete(order, n) && j < k < |order|
    ensures order[j] < n && order[k] < n && order[j] != order[k]
  {
  }

  lemma OneForEach(order: seq<nat>, n: nat)
    requires Complete(order, n) && n > 0
    ensures |order| > 0 && order[0] < n
  {
    assert 0 in order;
  }

  lemma OnlyOrder(order: seq<nat>)
    requires Complete(order, 1)
    ensures order == [0]
  {
    hide Complete;
    OneForEach(order, 1);
    if |order| > 1 { PositionsDiffer(order, 1, 0, 1); }
  }

  lemma BelowItsSegmentIsDone(p: Plan)
    requires p == Plan(Cursor(BelowItsSegment().sections, [false, false, false], 120, true, 0, 0),
                       BelowItsSegment().segments)
    ensures SegmentsDone(p, [0], 64, 56).Some?
    ensures var q := SegmentsDone(p, [0], 64, 56).value;
            && q.cursor == BothPlaced().Sized(0)
            && |q.segments| == 1 && q.segments[0].sections == [1, 2]
  {
    var seg := p.segments[0];
    PlacesTheFirst(p.cursor, seg);
    BothArePlaced(p.cursor, seg);
    hide PlacedAll, StartAt, BothPlaced;
    assert [0][1..] == [];
    assert SegmentsDone(p, [0], 64, 56) == SegmentDone(p, 0, 64, 56);
  }

  lemma BelowItsSegmentIsValid()
    ensures var input := BelowItsSegment();
            input.Valid() && input.Headers() == 120 && !NoneBelow(input.sections, input.segments)
  {
    var input := BelowItsSegment();
    var sections, segments := input.sections, input.segments;
    assert 2 in segments[0].sections && sections[2].Addressed() && sections[2].address < segments[0].vaddr;
    assert !NoneBelow(sections, segments);
  }

  /** The layout succeeds and puts them at [120, 184) and [88, 152): over each other, and the
      second over the program header table, which ends at 120. */
  lemma SectionBelowSegmentOverlaps(order: seq<nat>)
    requires Complete(order, |BelowItsSegment().segments|)
    ensures var input := BelowItsSegment();
            && input.Valid() && !NoneBelow(input.sections, input.segments)
            && input.Headers() == 120 && input.Laid(order).Some?
            && var done := input.Laid(order).value.cursor.sections;
            && done[1].Backed() && done[1].offset == 120 && done[1].size == 64
            && done[2].Backed() && done[2].offset == 88 && done[2].size == 64
  {
    hide AlignAll, SegmentsDone, LooseFrom, NoneBelow, Input.Headers, Input.Begins, Section.Words, Segment.Words;
    var input := BelowItsSegment();
    OnlyOrder(order);
    BelowItsSegmentIsValid();
    BelowItsSegmentBegins();
    BelowItsSegmentIsDone(input.Begins());
    var q := SegmentsDone(input.Begins(), [0], 64, 56).value;
    NothingIsLoose(q.cursor, q.segments);
  }
}
