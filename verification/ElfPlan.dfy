/** The layout as a function of what is laid out: where every section and segment ends up, and
    for which inputs no file position passes 2^64. */
module ElfPlan {
  import opened Basics
  import opened PowersOfTwo
  import opened ElfFile

  /** The state between two steps; filesize and memory belong to the segment under way. */
  datatype Cursor = Cursor(
    sections: seq<Section>, generated: seq<bool>, pos: nat, fits: bool, filesize: nat, memory: nat)
  {
    predicate Lists(ids: seq<nat>) {
      |generated| == |sections| && forall j :: 0 <= j < |ids| ==> ids[j] < |sections|
    }

    function Sized(size: nat): Cursor { this.(filesize := size, memory := size) }
  }

  datatype Begun = Begun(cursor: Cursor, start: nat)

  datatype Plan = Plan(cursor: Cursor, segments: seq<Segment>)

  function Moved(c: Cursor, n: nat): Cursor {
    c.(pos := Add64(c.pos, n), fits := c.fits && c.pos + n < TWO64)
  }

  /** A section put `step` bytes on, given an address if it has none. */
  function Stored(c: Cursor, vaddr: nat, index: nat, start: nat, step: nat): Cursor
    requires index < |c.sections| == |c.generated|
  {
    var m, sec := Moved(c, step), c.sections[index];
    var addressed := if sec.addressInitialized then sec
                     else sec.(address := Sub64(Add64(vaddr, m.pos), start), addressInitialized := true);
    var stored := if index != 0 then addressed.(offset := m.pos) else addressed;
    (if sec.typ != SHT_NOBITS then Moved(m, sec.size) else m)
      .(sections := c.sections[index := stored], generated := c.generated[index := true])
  }

  function Measured(c: Cursor, sec: Section, segmentType: nat, step: nat): Cursor {
    c.(memory := if sec.InMemory(segmentType) then Add64(c.memory, Add64(sec.size, step)) else c.memory,
       filesize := if sec.typ == SHT_NOBITS then c.filesize else Add64(c.filesize, Add64(sec.size, step)))
  }

  /** One section of a segment; None is the abort. */
  function PlacedOne(c: Cursor, seg: Segment, index: nat, start: nat): (r: Option<Cursor>)
    requires index < |c.sections| == |c.generated|
    ensures r.Some? ==> |r.value.sections| == |r.value.generated| == |c.sections|
  {
    var sec := c.sections[index];
    if sec.typ == SHT_NULL then Some(c.(generated := c.generated[index := true]))
    else
      match SectionAlign(sec, seg.vaddr, c.generated[index], c.pos, start, c.filesize)
      case None => None
      case Some(step) =>
        var m := Measured(c, sec, seg.typ, step);
        Some(if c.generated[index] then m else Stored(m, seg.vaddr, index, start, step))
  }

  function PlacedAll(c: Cursor, seg: Segment, ids: seq<nat>, start: nat): (r: Option<Cursor>)
    requires c.Lists(ids)
    ensures r.Some? ==> |r.value.sections| == |r.value.generated| == |c.sections|
    decreases |ids|
  {
    if ids == [] then Some(c)
    else
      match PlacedOne(c, seg, ids[0], start)
      case None => None
      case Some(next) => PlacedAll(next, seg, ids[1..], start)
  }

  function PageStep(seg: Segment, pos: nat): nat {
    var a := seg.Alignment();
    Add64(seg.align, Sub64(seg.vaddr % a, pos % a)) % a
  }

  function StartAt(c: Cursor, seg: Segment, tableOffset: nat, tableSize: nat): (b: Begun)
    requires c.Lists(seg.sections)
    ensures b.cursor.sections == c.sections && b.cursor.generated == c.generated
  {
    if seg.typ == PT_PHDR && seg.sections == [] then Begun(c.Sized(tableSize), tableOffset)
    else if seg.offsetInitialized && seg.offset == 0 then Begun(c.Sized(if seg.sections == [] then 0 else c.pos), 0)
    else if seg.sections == [] then Begun(c.Sized(0), c.pos)
    else if !c.generated[seg.sections[0]] then
      var m := Moved(c, PageStep(seg, c.pos));
      Begun(m.Sized(0), m.pos)
    else Begun(c.Sized(0), c.sections[seg.sections[0]].offset)
  }

  function Finished(seg: Segment, start: nat, filesize: nat, memory: nat): Segment {
    seg.(filesz := filesize, memsz := if seg.memsz < memory then memory else seg.memsz, offset := start,
         offsetInitialized := true)
  }

  predicate Sound(p: Plan) {
    forall g :: 0 <= g < |p.segments| ==> p.cursor.Lists(p.segments[g].sections)
  }

  function SegmentDone(p: Plan, g: nat, tableOffset: nat, tableSize: nat): (r: Option<Plan>)
    requires Sound(p) && g < |p.segments|
    ensures r.Some? ==> Sound(r.value) && |r.value.segments| == |p.segments|
    ensures r.Some? ==> |r.value.cursor.sections| == |p.cursor.sections|
  {
    var seg := p.segments[g];
    var b := StartAt(p.cursor, seg, tableOffset, tableSize);
    match PlacedAll(b.cursor, seg, seg.sections, b.start)
    case None => None
    case Some(c) => Some(Plan(c.Sized(0), p.segments[g := Finished(seg, b.start, c.filesize, c.memory)]))
  }

  ghost predicate Within(order: seq<nat>, n: nat) {
    forall k :: 0 <= k < |order| ==> order[k] < n
  }

  ghost function SegmentsDone(p: Plan, order: seq<nat>, tableOffset: nat, tableSize: nat): (r: Option<Plan>)
    requires Sound(p) && Within(order, |p.segments|)
    ensures r.Some? ==> Sound(r.value) && |r.value.segments| == |p.segments|
    ensures r.Some? ==> |r.value.cursor.sections| == |p.cursor.sections|
    decreases |order|
  {
    if order == [] then Some(p)
    else
      match SegmentDone(p, order[0], tableOffset, tableSize)
      case None => None
      case Some(q) => SegmentsDone(q, order[1..], tableOffset, tableSize)
  }

  ghost predicate InNoSegment(segments: seq<Segment>, i: nat) {
    forall g :: 0 <= g < |segments| ==> i !in segments[g].sections
  }

  function AlignedUp(c: Cursor, align: nat): Cursor {
    if align > 1 && c.pos % align != 0 then Moved(c, align - c.pos % align) else c
  }

  function LooseOne(c: Cursor, i: nat): Cursor
    requires i < |c.sections|
  {
    var sec := c.sections[i];
    var m := AlignedUp(c, sec.addrAlign);
    (if sec.Backed() then Moved(m, sec.size) else m)
      .(sections := c.sections[i := if i != 0 then sec.(offset := m.pos) else sec])
  }

  ghost function LooseFrom(c: Cursor, segments: seq<Segment>, i: nat): (r: Cursor)
    requires i <= |c.sections|
    ensures |r.sections| == |c.sections| && r.generated == c.generated
    decreases |c.sections| - i
  {
    if i == |c.sections| then c
    else LooseFrom(if InNoSegment(segments, i) then LooseOne(c, i) else c, segments, i + 1)
  }

  function TableDone(c: Cursor): Cursor {
    Moved(c, (4 - c.pos % 4) % 4)
  }

  function MaxAlign(sections: seq<Section>, ids: seq<nat>, a: nat): (m: nat)
    requires forall j :: 0 <= j < |ids| ==> ids[j] < |sections|
    ensures m >= a
  {
    if ids == [] then a
    else MaxAlign(sections, ids[1..], if sections[ids[0]].addrAlign > a then sections[ids[0]].addrAlign else a)
  }

  ghost predicate InRange(sections: seq<Section>, segments: seq<Segment>) {
    forall g, j :: 0 <= g < |segments| && 0 <= j < |segments[g].sections| ==> segments[g].sections[j] < |sections|
  }

  ghost function AlignAll(sections: seq<Section>, segments: seq<Segment>): (r: seq<Segment>)
    requires InRange(sections, segments)
    ensures |r| == |segments|
    ensures forall g :: 0 <= g < |segments| ==>
              r[g] == segments[g].(align := MaxAlign(sections, segments[g].sections, segments[g].align))
  {
    seq(|segments|, g requires 0 <= g < |segments| =>
      segments[g].(align := MaxAlign(sections, segments[g].sections, segments[g].align)))
  }

  /** What is to be laid out. */
  datatype Input = Input(sections: seq<Section>, segments: seq<Segment>, headerSize: nat, segmentEntrySize: nat)
  {
    function Headers(): nat { headerSize + segmentEntrySize * |segments| }
    function TableOffset(): nat { if |segments| > 0 then headerSize else 0 }
    function TableSize(): nat { segmentEntrySize * |segments| % TWO64 }

    ghost predicate Valid() {
      && InRange(sections, segments) && headerSize < TWO64 && segmentEntrySize < TWO64
      && (forall i :: 0 <= i < |sections| ==> sections[i].Words())
      && (forall g :: 0 <= g < |segments| ==> segments[g].Words())
    }

    ghost function Begins(): (p: Plan)
      requires InRange(sections, segments)
      ensures Sound(p) && |p.segments| == |segments|
    {
      Plan(Cursor(sections, seq(|sections|, _ => false), Headers() % TWO64, Headers() < TWO64, 0, 0),
           AlignAll(sections, segments))
    }

    /** The whole layout, with the segments taken in the given order. */
    ghost function Laid(order: seq<nat>): (r: Option<Plan>)
      requires InRange(sections, segments) && Within(order, |segments|)
      ensures r.Some? ==> |r.value.segments| == |segments| && |r.value.cursor.sections| == |sections|
    {
      match SegmentsDone(Begins(), order, TableOffset(), TableSize())
      case None => None
      case Some(p) => Some(p.(cursor := TableDone(LooseFrom(p.cursor, p.segments, 0))))
    }
  }
}
