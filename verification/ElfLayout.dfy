/** The layout steps of save(): file offsets for the sections of each segment, for the sections
    outside segments, and for the section table. The ghost flag `fits` records that no addition
    to the file position has wrapped. */
module ElfLayout {
  import opened Basics
  import opened PowersOfTwo
  import opened Division
  import opened ElfFile
  import opened ElfPlan
  import Order = ElfOrder
  import Room = ElfRoom
  import Sizes = ElfSizes

  /** Backed sections that have a place lie within [base, pos) and do not overlap. Section 0 is
      the null section; its offset is never set. */
  ghost predicate Apart(sections: seq<Section>, placed: seq<bool>, base: nat, pos: nat)
    requires |placed| == |sections|
  {
    && (forall i :: 0 < i < |sections| && placed[i] && sections[i].Backed() ==>
          base <= sections[i].offset && sections[i].offset + sections[i].size <= pos)
    && (forall i, j ::
        0 < i < j < |sections| && placed[i] && placed[j] && sections[i].Backed() && sections[j].Backed() ==>
          sections[i].offset + sections[i].size <= sections[j].offset
              || sections[j].offset + sections[j].size <= sections[i].offset)
  }

  /** A section put at or after the file position overlaps nothing that was placed before. */
  lemma PlaceApart(sections: seq<Section>, placed: seq<bool>, base: nat, pos: nat, i: nat, s: Section, pos': nat)
    requires |placed| == |sections| && i < |sections| && Apart(sections, placed, base, pos) && base <= pos
    requires s.size == sections[i].size && s.typ == sections[i].typ && pos <= pos'
    requires i > 0 && s.Backed() ==> pos <= s.offset && s.offset + s.size <= pos'
    ensures Apart(sections[i := s], placed[i := true], base, pos')
  {
  }

  // ----- save()'s layout

  /** Layout changes only offsets and missing addresses. */
  ghost predicate Frame(before: seq<Section>, after: seq<Section>) {
    |after| == |before| && forall i :: 0 <= i < |before| ==> SameBut(before[i], after[i])
  }

  ghost predicate SameBut(a: Section, b: Section) {
    && b.typ == a.typ && b.size == a.size && b.addrAlign == a.addrAlign && b.alloc == a.alloc && b.tls == a.tls
    && (a.addressInitialized ==> b.addressInitialized && b.address == a.address)
  }

  /** A section counts as generated exactly when some segment has placed it. */
  ghost predicate Tracks(generated: seq<bool>, placer: seq<int>) {
    |placer| == |generated| && forall i :: 0 <= i < |placer| ==> (generated[i] <==> placer[i] >= 0)
  }

  /** What segment g, starting at the given offset, placed is at its address. */
  ghost predicate PlacedBy(sections: seq<Section>, placer: seq<int>, g: int, offset: nat, vaddr: nat)
    requires |placer| == |sections|
  {
    forall i :: 0 < i < |sections| && placer[i] == g && sections[i].Backed() && sections[i].size != 0 ==>
      AtAddress(sections[i], offset, vaddr)
  }

  /** Segment g leaves alone what others placed. */
  ghost predicate Leaves(sections: seq<Section>, placer: seq<int>, sections': seq<Section>, placer': seq<int>, g: int) {
    && |sections'| == |placer'| == |sections| == |placer|
    && forall i :: 0 <= i < |placer| ==>
         if placer[i] >= 0 || placer'[i] == placer[i] then sections'[i] == sections[i] && placer'[i] == placer[i]
         else placer'[i] == g
  }

  lemma StoreStep(sections: seq<Section>, placer: seq<int>, g: nat, i: nat, s: Section, offset: nat, vaddr: nat)
    requires i < |sections| == |placer| && placer[i] < 0 && SameBut(sections[i], s)
    requires PlacedBy(sections, placer, g, offset, vaddr)
    requires i != 0 && s.Backed() && s.size != 0 ==> AtAddress(s, offset, vaddr)
    ensures Frame(sections, sections[i := s])
    ensures PlacedBy(sections[i := s], placer[i := g], g, offset, vaddr)
    ensures Leaves(sections, placer, sections[i := s], placer[i := g], g)
  {
    hide AtAddress;
  }

  lemma TracksStep(generated: seq<bool>, placer: seq<int>, i: nat, g: nat)
    requires Tracks(generated, placer) && i < |generated|
    ensures Tracks(generated[i := true], placer[i := g]) && (!generated[i] ==> placer[i] < 0)
  {
  }

  lemma InRangeStays(sections: seq<Section>, sections': seq<Section>, segments: seq<Segment>)
    requires InRange(sections, segments) && |sections'| == |sections|
    ensures InRange(sections', segments)
  {
  }

  function WithPlace(sec: Section, vaddr: nat, pos: nat, start: nat, index: nat): Section {
    (if sec.addressInitialized then sec
     else sec.(address := Sub64(Add64(vaddr, pos), start), addressInitialized := true))
      .(offset := if index != 0 then pos else sec.offset)
  }

  lemma StoredIs(c: Cursor, vaddr: nat, index: nat, start: nat, step: nat, sec: Section, moved: Cursor)
    requires index < |c.sections| == |c.generated|
    requires var was, m := c.sections[index], Moved(c, step);
      sec == WithPlace(was, vaddr, m.pos, start, index)
      && moved == if was.typ != SHT_NOBITS then Moved(m, was.size) else m
    ensures Stored(c, vaddr, index, start, step)
         == moved.(sections := c.sections[index := sec], generated := c.generated[index := true])
  {
    hide Moved, Sub64, Add64;
  }

  lemma PlacedOneIs(c: Cursor, seg: Segment, index: nat, start: nat, ok: bool, now: Cursor)
    requires index < |c.sections| == |c.generated|
    requires var sec := c.sections[index];
      if sec.typ == SHT_NULL then ok && now == c.(generated := c.generated[index := true])
      else
        var align := SectionAlign(sec, seg.vaddr, c.generated[index], c.pos, start, c.filesize);
        && ok == align.Some?
        && (ok ==>
             && now.filesize == Measured(c, sec, seg.typ, align.value).filesize
             && now.memory == Measured(c, sec, seg.typ, align.value).memory
             && now.Sized(0) == if c.generated[index] then c.Sized(0)
                                else Stored(c.Sized(0), seg.vaddr, index, start, align.value))
    ensures Agrees(ok, now, PlacedOne(c, seg, index, start))
  {
    hide SectionAlign, Sub64, Add64;
  }

  lemma NullStep(sections: seq<Section>, generated: seq<bool>, placer: seq<int>, g: nat, i: nat, base: nat, pos: nat,
                 offset: nat, vaddr: nat)
    requires i < |sections| == |placer| && sections[i].typ == SHT_NULL && Tracks(generated, placer)
    requires PlacedBy(sections, placer, g, offset, vaddr)
    ensures PlacedBy(sections, placer[i := g], g, offset, vaddr)
    ensures Apart(sections, generated, base, pos) ==> Apart(sections, generated[i := true], base, pos)
  {
  }

  lemma NothingLeft(sections: seq<Section>, placer: seq<int>, g: nat, ids: seq<nat>)
    requires |placer| == |sections|
    ensures Leaves(sections, placer, sections, placer, g) && Frame(sections, sections)
    ensures ChangedOnlyIn(placer, placer, ids)
  {
  }

  /** What was generated stays as it is. */
  lemma LeavesGenerated(s0: seq<Section>, p0: seq<int>, s1: seq<Section>, p1: seq<int>, g: nat, generated: seq<bool>)
    requires Leaves(s0, p0, s1, p1, g) && Tracks(generated, p0)
    ensures forall i :: 0 <= i < |s0| && generated[i] ==> s1[i] == s0[i]
  {
  }

  lemma LeavesTrans(s0: seq<Section>, p0: seq<int>, s1: seq<Section>, p1: seq<int>, s2: seq<Section>, p2: seq<int>,
                    g: nat)
    requires Leaves(s0, p0, s1, p1, g) && Leaves(s1, p1, s2, p2, g)
    requires Frame(s0, s1) && Frame(s1, s2)
    ensures Leaves(s0, p0, s2, p2, g) && Frame(s0, s2)
  {
  }

  /** A segment that shares no section, and whose sections all occupy bytes of the file. */
  ghost predicate Whole(sections: seq<Section>, segments: seq<Segment>, g: nat)
    requires g < |segments|
  {
    var ids := segments[g].sections;
    && (forall j :: 0 <= j < |ids| ==> 0 < ids[j] < |sections| && sections[ids[j]].Backed())
    && (forall j, k :: 0 <= j < k < |ids| ==> ids[j] != ids[k])
    && (forall h, i :: 0 <= h < |segments| && h != g && i in segments[h].sections ==> i !in ids)
  }

  ghost predicate Allocated(sections: seq<Section>, ids: seq<nat>) {
    forall i :: i in ids && i < |sections| ==> sections[i].alloc
  }

  /** The listed sections lie within a stretch of the file. */
  ghost predicate Covered(sections: seq<Section>, ids: seq<nat>, from: nat, to: nat) {
    forall i :: i in ids && i < |sections| ==> from <= sections[i].offset && sections[i].offset + sections[i].size <= to
  }

  ghost predicate Generated(generated: seq<bool>, ids: seq<nat>) {
    forall i :: i in ids ==> i < |generated| && generated[i]
  }

  ghost predicate Fresh(generated: seq<bool>, ids: seq<nat>) {
    forall i :: i in ids ==> i < |generated| && !generated[i]
  }

  /** Half way through the sections of a segment that shares none. */
  ghost predicate Filling(sections: seq<Section>, segments: seq<Segment>, g: nat, generated: seq<bool>, n: nat,
                          start: nat, pos: nat, filesize: nat, memory: nat, fits: bool)
    requires g < |segments| && n <= |segments[g].sections|
  {
    var ids := segments[g].sections;
    Whole(sections, segments, g) ==>
      && Fresh(generated, ids[n..])
      && (Allocated(sections, ids) ==> memory == filesize)
      && (fits && ids != [] ==> start <= pos && filesize == pos - start && Covered(sections, ids[..n], start, pos))
  }

  /** Placing one more section keeps the segment's bytes in one stretch that ends at the file position. */
  lemma FillingStep(s0: seq<Section>, s1: seq<Section>, segments: seq<Segment>, g: nat, generated: seq<bool>, n: nat,
                    start: nat, pos0: nat, pos1: nat, filesize0: nat, filesize1: nat, memory0: nat, memory1: nat,
                    fits0: bool, fits1: bool, align: nat)
    requires g < |segments| && n < |segments[g].sections| && segments[g].sections[n] < |s0| == |generated|
    requires Frame(s0, s1)
    requires Filling(s0, segments, g, generated, n, start, pos0, filesize0, memory0, fits0) && pos1 < TWO64
    requires Generated(generated, segments[g].sections[..n])
    requires forall i :: 0 <= i < |s0| && generated[i] ==> s1[i] == s0[i]
    requires var i := segments[g].sections[n]; var sec := s0[i]; i != 0 && !generated[i] && sec.Backed() ==>
               && filesize1 == Add64(filesize0, Add64(sec.size, align))
               && (sec.alloc ==> memory1 == Add64(memory0, Add64(sec.size, align)))
               && (fits1 ==> fits0 && pos1 == pos0 + align + sec.size && s1[i].offset == pos0 + align)
    ensures Filling(s1, segments, g, generated[segments[g].sections[n] := true], n + 1, start, pos1, filesize1,
                    memory1, fits1)
  {
    var ids := segments[g].sections;
    if Whole(s1, segments, g) {
      assert Whole(s0, segments, g);
      assert ids[n] in ids;
      assert ids[..n + 1] == ids[..n] + [ids[n]];
      assert ids[n..] == [ids[n]] + ids[n + 1..];
      if fits1 {
        SmallSums(filesize0, s0[ids[n]].size, align);
      }
    }
  }

  ghost predicate ChangedOnlyIn(placer: seq<int>, placer': seq<int>, ids: seq<nat>) {
    |placer'| == |placer| && forall i :: 0 <= i < |placer| && placer'[i] != placer[i] ==> i in ids
  }

  lemma ChangedStep(p0: seq<int>, p1: seq<int>, p2: seq<int>, ids: seq<nat>, j: nat)
    requires ChangedOnlyIn(p0, p1, ids) && j < |ids| && ChangedOnlyIn(p1, p2, [ids[j]])
    ensures ChangedOnlyIn(p0, p2, ids)
  {
  }

  lemma GeneratedStep(generated: seq<bool>, ids: seq<nat>, j: nat)
    requires j < |ids| && Generated(generated, ids[..j]) && ids[j] < |generated|
    ensures Generated(generated[ids[j] := true], ids[..j + 1])
  {
    assert ids[..j + 1] == ids[..j] + [ids[j]];
  }

  lemma FillingStarts(sections: seq<Section>, segments: seq<Segment>, g: nat, generated: seq<bool>,
                      start: nat, pos: nat, size: nat, fits: bool)
    requires g < |segments|
    requires Whole(sections, segments, g) ==> Fresh(generated, segments[g].sections)
    requires fits && segments[g].sections != [] && Fresh(generated, segments[g].sections) ==> size == pos - start
    ensures Filling(sections, segments, g, generated, 0, start, pos, size, size, fits)
  {
    assert segments[g].sections[..0] == [];
    assert segments[g].sections[0..] == segments[g].sections;
  }

  lemma FillingEnds(sections: seq<Section>, segments: seq<Segment>, g: nat, generated: seq<bool>,
                    start: nat, pos: nat, filesize: nat, memory: nat, fits: bool)
    requires g < |segments|
    requires Filling(sections, segments, g, generated, |segments[g].sections|, start, pos, filesize, memory, fits)
    ensures fits && Whole(sections, segments, g) ==> Covered(sections, segments[g].sections, start, start + filesize)
    ensures Whole(sections, segments, g) && Allocated(sections, segments[g].sections) ==> memory == filesize
  {
    var ids := segments[g].sections;
    assert ids[..|ids|] == ids;
  }

  lemma SmallSums(x: nat, y: nat, z: nat)
    requires x + y + z < TWO64
    ensures Add64(x, Add64(y, z)) == x + y + z
  {
  }

  /** Sections are placed only by segments that were laid out and list them. */
  ghost predicate Owned(segments: seq<Segment>, placer: seq<int>, done: set<nat>) {
    forall i :: 0 <= i < |placer| && placer[i] >= 0 ==>
      placer[i] in done && placer[i] < |segments| && i in segments[placer[i]].sections
  }

  ghost predicate Listed(segments: seq<Segment>, placer: seq<int>) {
    forall i :: 0 <= i < |placer| && placer[i] >= 0 ==> placer[i] < |segments| && i in segments[placer[i]].sections
  }

  lemma OwnedStep(segments: seq<Segment>, segments': seq<Segment>, placer: seq<int>, placer': seq<int>,
                  done: set<nat>, g: nat, s0: seq<Section>, s1: seq<Section>)
    requires Owned(segments, placer, done) && g < |segments| == |segments'|
    requires forall h :: 0 <= h < |segments| ==> segments'[h].sections == segments[h].sections
    requires Leaves(s0, placer, s1, placer', g) && ChangedOnlyIn(placer, placer', segments[g].sections)
    ensures Owned(segments', placer', done + {g})
  {
  }

  /** Nothing of a segment that shares no section is placed before its turn. */
  lemma WholeIsFresh(sections: seq<Section>, segments: seq<Segment>, placer: seq<int>, generated: seq<bool>,
                     done: set<nat>, g: nat)
    requires g < |segments| && g !in done && Owned(segments, placer, done) && Tracks(generated, placer)
    requires |placer| == |sections|
    ensures Whole(sections, segments, g) ==> Fresh(generated, segments[g].sections)
    ensures forall offset, vaddr :: PlacedBy(sections, placer, g, offset, vaddr)
  {
  }

  /** What holds of a segment once it is laid out, to the end of the layout. */
  ghost predicate LaidOut(sections: seq<Section>, segments: seq<Segment>, placer: seq<int>, generated: seq<bool>,
                          paged: set<nat>, fits: bool, g: nat)
    requires g < |segments| && |placer| == |sections|
  {
    var seg := segments[g];
    && PlacedBy(sections, placer, g, seg.offset, seg.vaddr)
    && Generated(generated, seg.sections)
    && (g in paged && fits ==> seg.offset % seg.Alignment() == seg.vaddr % seg.Alignment())
    && (g !in paged && seg.sections != [] && seg.sections[0] < |sections| ==>
          seg.offset == 0 || seg.offset == sections[seg.sections[0]].offset)
    && (Whole(sections, segments, g) && fits ==> Covered(sections, seg.sections, seg.offset, seg.offset + seg.filesz))
    && (Whole(sections, segments, g) && Allocated(sections, seg.sections) ==> seg.memsz >= seg.filesz)
  }

  lemma LaidOutKept(s0: seq<Section>, segments: seq<Segment>, p0: seq<int>, generated0: seq<bool>, paged0: set<nat>,
                    fits0: bool, s1: seq<Section>, segments': seq<Segment>, p1: seq<int>, generated1: seq<bool>,
                    paged1: set<nat>, fits1: bool, g: nat, h: nat)
    requires h != g && h < |segments| == |segments'| && g < |segments| && Leaves(s0, p0, s1, p1, g) && Frame(s0, s1)
    requires Tracks(generated0, p0) && Tracks(generated1, p1) && paged0 <= paged1 <= paged0 + {g} && (fits1 ==> fits0)
    requires forall i :: 0 <= i < |segments| ==> segments'[i].sections == segments[i].sections
    requires segments'[h] == segments[h] && LaidOut(s0, segments, p0, generated0, paged0, fits0, h)
    ensures LaidOut(s1, segments', p1, generated1, paged1, fits1, h)
  {
    hide AtAddress;
    LeavesGenerated(s0, p0, s1, p1, g, generated0);
    assert Whole(s1, segments', h) ==> Whole(s0, segments, h);
  }

  /** Laying out segment g changes its offset and sizes only. */
  ghost predicate SameSegments(before: seq<Segment>, after: seq<Segment>, g: nat) {
    && |after| == |before|
    && forall h :: 0 <= h < |before| ==>
         after[h] == if h != g then before[h] else Finished(before[h], after[h].offset, after[h].filesz, after[h].memsz)
  }

  /** Where segment seg starts and how much of the file it holds from there. */
  ghost predicate Starts(seg: Segment, aligned: bool, generated: seq<bool>, sections: seq<Section>, fits: bool,
                         pos: nat, start: nat, already: nat, tableOffset: nat, tableSize: nat) {
    if seg.typ == PT_PHDR && seg.sections == [] then !aligned && start == tableOffset && already == tableSize
    else if seg.offsetInitialized && seg.offset == 0 then
      !aligned && start == 0 && already == if seg.sections == [] then 0 else pos
    else if seg.sections == [] then !aligned && start == pos && already == 0
    else
      var first := seg.sections[0];
      && first < |generated| == |sections| && aligned == !generated[first] && already == 0
      && (if aligned then start == pos && (fits ==> pos % seg.Alignment() == seg.vaddr % seg.Alignment())
          else start == sections[first].offset)
  }

  /** The cases that do not depend on sections: the program header table, and segments loaded at
      offset 0. The memory size never shrinks. */
  ghost predicate SpecialStart(before: Segment, after: Segment, tableOffset: nat, tableSize: nat) {
    && after.memsz >= before.memsz
    && (if before.typ == PT_PHDR && before.sections == [] then
          after.offset == tableOffset && after.filesz == tableSize <= after.memsz
        else before.offsetInitialized && before.offset == 0 ==> after.offset == 0)
  }

  lemma StartsSpecial(before: Segment, after: Segment, aligned: bool, generated: seq<bool>, sections: seq<Section>,
                      fits: bool, pos: nat, start: nat, already: nat, tableOffset: nat, tableSize: nat)
    requires Starts(before, aligned, generated, sections, fits, pos, start, already, tableOffset, tableSize)
    requires after.offset == start && after.memsz >= before.memsz
    requires before.sections == [] ==> after.filesz == already <= after.memsz
    ensures SpecialStart(before, after, tableOffset, tableSize)
  {
  }

  lemma StartsFilling(seg: Segment, aligned: bool, generated: seq<bool>, sections: seq<Section>, fits: bool, pos: nat,
                      start: nat, already: nat, tableOffset: nat, tableSize: nat)
    requires Starts(seg, aligned, generated, sections, fits, pos, start, already, tableOffset, tableSize)
    ensures seg.sections != [] && Fresh(generated, seg.sections) ==> already == pos - start
  {
    assert seg.sections != [] ==> seg.sections[0] in seg.sections;
  }

  lemma ApartMore(sections: seq<Section>, placed: seq<bool>, base: nat, pos: nat, pos': nat)
    requires |placed| == |sections| && Apart(sections, placed, base, pos) && pos <= pos'
    ensures Apart(sections, placed, base, pos')
  {
  }

  lemma Concludes(s0: seq<Section>, s1: seq<Section>, p0: seq<int>, p1: seq<int>, generated0: seq<bool>,
                  generated: seq<bool>, segments0: seq<Segment>, segments: seq<Segment>, paged: set<nat>, fits0: bool,
                  fits: bool, g: nat, pos: nat, start: nat, already: nat, filesize: nat, memory: nat,
                  tableOffset: nat, tableSize: nat)
    requires g < |segments0| && SameSegments(segments0, segments, g) && Leaves(s0, p0, s1, p1, g)
    requires Tracks(generated0, p0) && (fits ==> fits0)
    requires var seg := segments[g];
      && seg.offset == start && PlacedBy(s1, p1, g, start, seg.vaddr) && Generated(generated, seg.sections)
      && Starts(segments0[g], g in paged, generated0, s0, fits0, pos, start, already, tableOffset, tableSize)
      && (fits && Whole(s1, segments0, g) ==> Covered(s1, seg.sections, start, start + filesize))
      && (Whole(s1, segments0, g) && Allocated(s1, seg.sections) ==> memory == filesize)
      && seg.filesz == filesize && seg.memsz >= memory
    ensures LaidOut(s1, segments, p1, generated, paged, fits, g)
  {
    hide AtAddress, Covered, Allocated;
    LeavesGenerated(s0, p0, s1, p1, g, generated0);
    assert Whole(s1, segments, g) ==> Whole(s1, segments0, g) by {
      forall h, i | 0 <= h < |segments0| && h != g && i in segments0[h].sections ensures i in segments[h].sections {}
    }
  }

  /** Segment g was started and its sections placed. */
  ghost predicate PlacedFrom(s0: seq<Section>, s1: seq<Section>, p0: seq<int>, p1: seq<int>, generated0: seq<bool>,
                             generated: seq<bool>, segments: seq<Segment>, paged: set<nat>, fits0: bool, fits: bool,
                             g: nat, pos: nat, start: nat, already: nat, filesize: nat, memory: nat, tableOffset: nat,
                             tableSize: nat)
  {
    && g < |segments| && Leaves(s0, p0, s1, p1, g) && Tracks(generated0, p0) && (fits ==> fits0)
    && var seg := segments[g];
    && ChangedOnlyIn(p0, p1, seg.sections)
    && PlacedBy(s1, p1, g, start, seg.vaddr) && Generated(generated, seg.sections)
    && Starts(seg, g in paged, generated0, s0, fits0, pos, start, already, tableOffset, tableSize)
    && (fits && Whole(s1, segments, g) ==> Covered(s1, seg.sections, start, start + filesize))
    && (Whole(s1, segments, g) && Allocated(s1, seg.sections) ==> memory == filesize)
    && (seg.sections == [] ==> filesize == memory == already)
  }

  lemma ConcludesPlaced(s0: seq<Section>, s1: seq<Section>, p0: seq<int>, p1: seq<int>, generated0: seq<bool>,
                        generated: seq<bool>, segments: seq<Segment>, paged: set<nat>, fits0: bool, fits: bool,
                        g: nat, pos: nat, start: nat, already: nat, filesize: nat, memory: nat, tableOffset: nat,
                        tableSize: nat, done: set<nat>)
    requires PlacedFrom(s0, s1, p0, p1, generated0, generated, segments, paged, fits0, fits, g, pos, start, already,
                        filesize, memory, tableOffset, tableSize)
    requires Owned(segments, p0, done)
    ensures var segments' := segments[g := Finished(segments[g], start, filesize, memory)];
            && LaidOut(s1, segments', p1, generated, paged, fits, g) && SameSegments(segments, segments', g)
            && Owned(segments', p1, done + {g}) && SpecialStart(segments[g], segments'[g], tableOffset, tableSize)
  {
    hide AtAddress, Leaves, Whole, Covered, PlacedBy, Generated, Allocated, Owned, LaidOut, ChangedOnlyIn, Starts,
         Tracks, SpecialStart;
    var segments' := segments[g := Finished(segments[g], start, filesize, memory)];
    OwnedStep(segments, segments', p0, p1, done, g, s0, s1);
    Concludes(s0, s1, p0, p1, generated0, generated, segments, segments', paged, fits0, fits, g, pos, start, already,
              filesize, memory, tableOffset, tableSize);
    StartsSpecial(segments[g], segments'[g], g in paged, generated0, s0, fits0, pos, start, already, tableOffset,
                  tableSize);
  }

  function ItemOf(segments: seq<Segment>, g: nat): Order.Item
    requires g < |segments|
  {
    var seg := segments[g];
    Order.Item(g, seg.sections, seg.offsetInitialized, seg.offset)
  }

  function Items(segments: seq<Segment>): seq<Order.Item> {
    seq(|segments|, g requires 0 <= g < |segments| => ItemOf(segments, g))
  }

  ghost predicate Named(order: seq<Order.Item>, g: nat) { exists k :: 0 <= k < |order| && order[k].id == g }

  /** A permutation of the segments' items names every segment exactly once. */
  ghost predicate NamesEachOnce(order: seq<Order.Item>, n: nat) {
    && (forall k :: 0 <= k < |order| ==> order[k].id < n)
    && (forall j, k :: 0 <= j < k < |order| ==> order[j].id != order[k].id)
    && (forall g :: 0 <= g < n ==> Named(order, g))
  }

  lemma {:induction false} CountInItems(segments: seq<Segment>, g: nat, n: nat)
    requires g < |segments| && n <= |segments|
    ensures multiset(Items(segments)[..n])[ItemOf(segments, g)] == if g < n then 1 else 0
  {
    if n > 0 {
      CountInItems(segments, g, n - 1);
      assert Items(segments)[..n] == Items(segments)[..n - 1] + [ItemOf(segments, n - 1)];
    }
  }

  lemma {:induction false} OnceInSequence(order: seq<Order.Item>, j: nat, k: nat)
    requires j < k < |order| && order[j] == order[k]
    ensures multiset(order)[order[j]] >= 2
  {
    assert order == order[..k] + order[k..];
    assert order[j] in order[..k] && order[k] in order[k..];
    assert multiset(order) == multiset(order[..k]) + multiset(order[k..]);
  }

  /** No segment comes after one whose sections are among its own. */
  ghost predicate ContainersFirst(order: seq<nat>, segments: seq<Segment>) {
    && Within(order, |segments|)
    && forall j, k :: 0 <= j < k < |order| ==>
         !Order.IsSubsequenceOf(segments[order[j]].sections, segments[order[k]].sections)
  }

  lemma OrderIsComplete(items: seq<Order.Item>, segments: seq<Segment>)
    requires multiset(items) == multiset(Items(segments)) && Order.ContainersFirst(items)
    ensures Room.Complete(OrderOf(items), |segments|) && ContainersFirst(OrderOf(items), segments)
  {
    PermutationNamesEachOnce(items, segments);
    var order := OrderOf(items);
    forall g: nat | g < |segments| ensures g in order {
      assert Named(items, g);
      var k :| 0 <= k < |items| && items[k].id == g;
      assert order[k] == g;
    }
  }

  lemma PermutationNamesEachOnce(order: seq<Order.Item>, segments: seq<Segment>)
    requires multiset(order) == multiset(Items(segments))
    ensures NamesEachOnce(order, |segments|)
    ensures forall k :: 0 <= k < |order| ==> order[k].id < |segments| && order[k] == ItemOf(segments, order[k].id)
  {
    var items := Items(segments);
    assert items[..|segments|] == items;
    forall k | 0 <= k < |order| ensures order[k].id < |segments| && order[k] == ItemOf(segments, order[k].id) {
      assert order[k] in multiset(order);
      assert order[k] in items;
    }
    forall j, k | 0 <= j < k < |order| ensures order[j].id != order[k].id {
      if order[j].id == order[k].id {
        OnceInSequence(order, j, k);
        CountInItems(segments, order[j].id, |segments|);
      }
    }
    forall g | 0 <= g < |segments| ensures Named(order, g) {
      CountInItems(segments, g, |segments|);
      assert ItemOf(segments, g) in multiset(order);
      var k :| 0 <= k < |order| && order[k] == ItemOf(segments, g);
    }
  }

  ghost function Ids(order: seq<Order.Item>): set<nat> { set k | 0 <= k < |order| :: order[k].id }

  /** Every segment in the list is laid out. */
  ghost predicate AllLaidOut(sections: seq<Section>, segments: seq<Segment>, placer: seq<int>, generated: seq<bool>,
                             paged: set<nat>, fits: bool, order: seq<Order.Item>)
    requires |placer| == |sections|
  {
    forall k :: 0 <= k < |order| ==>
        order[k].id < |segments| && LaidOut(sections, segments, placer, generated, paged, fits, order[k].id)
  }

  lemma AllLaidOutStep(s0: seq<Section>, segments: seq<Segment>, p0: seq<int>, generated0: seq<bool>,
                       paged0: set<nat>, fits0: bool, s1: seq<Section>, segments': seq<Segment>, p1: seq<int>,
                       generated1: seq<bool>, paged1: set<nat>, fits1: bool, order: seq<Order.Item>, k: nat)
    requires k < |order| && NamesEachOnce(order, |segments|) && SameSegments(segments, segments', order[k].id)
    requires Leaves(s0, p0, s1, p1, order[k].id) && Frame(s0, s1)
    requires Tracks(generated0, p0) && Tracks(generated1, p1) && paged0 <= paged1 <= paged0 + {order[k].id}
    requires fits1 ==> fits0
    requires |p0| == |s0| && |p1| == |s1|
    requires AllLaidOut(s0, segments, p0, generated0, paged0, fits0, order[..k])
    requires order[k].id < |segments'| && LaidOut(s1, segments', p1, generated1, paged1, fits1, order[k].id)
    ensures AllLaidOut(s1, segments', p1, generated1, paged1, fits1, order[..k + 1])
  {
    hide LaidOut, Leaves, Frame, Tracks;
    var upto := order[..k + 1];
    forall j | 0 <= j < |upto|
      ensures upto[j].id < |segments'| && LaidOut(s1, segments', p1, generated1, paged1, fits1, upto[j].id)
    {
      if j < k {
        assert order[..k][j].id == order[j].id;
        LaidOutKept(s0, segments, p0, generated0, paged0, fits0, s1, segments', p1, generated1, paged1, fits1,
                    order[k].id, order[j].id);
      }
    }
  }

  /** The layout keeps the segments' types, addresses, alignments and section lists. */
  ghost predicate SegmentsKept(before: seq<Segment>, after: seq<Segment>) {
    |after| == |before| && forall h :: 0 <= h < |before| ==>
      after[h] == before[h].(offset := after[h].offset, filesz := after[h].filesz, memsz := after[h].memsz,
                             offsetInitialized := after[h].offsetInitialized)
  }

  lemma FrameTrans(s0: seq<Section>, s1: seq<Section>, s2: seq<Section>)
    requires Frame(s0, s1) && Frame(s1, s2)
    ensures Frame(s0, s2)
  {
  }

  lemma Begins(sections: seq<Section>, segments: seq<Segment>, placer: seq<int>, generated: seq<bool>,
               paged: set<nat>, fits: bool, order: seq<Order.Item>)
    requires |placer| == |sections|
    ensures Ids(order[..0]) == {} && AllLaidOut(sections, segments, placer, generated, paged, fits, order[..0])
  {
  }

  lemma NewId(order: seq<Order.Item>, k: nat, n: nat)
    requires k < |order| && NamesEachOnce(order, n)
    ensures order[k].id < n && order[k].id !in Ids(order[..k]) && Ids(order[..k + 1]) == Ids(order[..k]) + {order[k].id}
  {
    assert order[..k + 1] == order[..k] + [order[k]];
    forall g ensures g in Ids(order[..k + 1]) <==> g in Ids(order[..k]) + {order[k].id} {
      if g in Ids(order[..k]) {
        var j :| 0 <= j < k && order[..k][j].id == g;
        assert order[..k + 1][j].id == g;
      }
      assert order[..k + 1][k].id == order[k].id;
    }
  }

  lemma SameCount(before: seq<Segment>, after: seq<Segment>, g: nat)
    requires SameSegments(before, after, g)
    ensures |after| == |before|
  {
  }

  lemma KeptStep(s0: seq<Segment>, s1: seq<Segment>, s2: seq<Segment>, g: nat)
    requires SegmentsKept(s0, s1) && SameSegments(s1, s2, g)
    ensures SegmentsKept(s0, s2)
  {
  }

  lemma Finishes(sections: seq<Section>, segments: seq<Segment>, placer: seq<int>, generated: seq<bool>,
                 paged: set<nat>, fits: bool, order: seq<Order.Item>)
    requires |placer| == |sections| && NamesEachOnce(order, |segments|)
    requires AllLaidOut(sections, segments, placer, generated, paged, fits, order[..|order|])
    requires Owned(segments, placer, Ids(order[..|order|]))
    ensures forall g :: 0 <= g < |segments| ==> LaidOut(sections, segments, placer, generated, paged, fits, g)
    ensures Listed(segments, placer)
  {
    hide LaidOut;
    assert order[..|order|] == order;
    forall g | 0 <= g < |segments| ensures LaidOut(sections, segments, placer, generated, paged, fits, g) {
      assert Named(order, g);
      var k :| 0 <= k < |order| && order[k].id == g;
    }
  }

  /** Moving a section that belongs to no segment disturbs no segment. */
  lemma LooseSectionMoves(sections: seq<Section>, segments: seq<Segment>, placer: seq<int>, generated: seq<bool>,
                          paged: set<nat>, fits: bool, fits': bool, i: nat, s: Section, g: nat)
    requires i < |sections| == |placer| && SameBut(sections[i], s) && InNoSegment(segments, i) && (fits' ==> fits)
    requires Listed(segments, placer) && Tracks(generated, placer)
    requires g < |segments| && LaidOut(sections, segments, placer, generated, paged, fits, g)
    ensures LaidOut(sections[i := s], segments, placer, generated, paged, fits', g)
  {
    hide AtAddress, Tracks;
    assert Whole(sections[i := s], segments, g) ==> Whole(sections, segments, g);
  }

  lemma RoundUp(pos: nat, a: nat)
    requires a > 0
    ensures (pos + (a - pos % a)) % a == 0 && pos % a < a
    ensures ((pos % a == 0) ==> (a - pos % a) % a == 0) && ((pos % a != 0) ==> (a - pos % a) % a == a - pos % a)
  {
    var q := pos / a;
    assert pos + (a - pos % a) == (q + 1) * a + 0 by { assert (q + 1) * a == q * a + a; }
    DivMod(a, q + 1, 0);
    if pos % a == 0 { DivMod(a, 1, 0); } else { DivMod(a, 0, a - pos % a); }
  }

  /** Sections outside segments start at a multiple of their alignment. */
  ghost predicate LooseAligned(sections: seq<Section>, segments: seq<Segment>, n: nat) {
    forall i :: 0 < i < n && i < |sections| && InNoSegment(segments, i) && sections[i].addrAlign > 1 ==>
      sections[i].offset % sections[i].addrAlign == 0
  }

  function AllTrue(n: nat): seq<bool> { seq(n, _ => true) }

  /** A segment's alignment becomes the largest among its own and its sections'. */
  ghost predicate AlignsAll(sections: seq<Section>, before: Segment, after: Segment, n: nat)
    requires n <= |before.sections|
  {
    && after == before.(align := after.align) && after.align >= before.align
    && (forall j :: 0 <= j < n && before.sections[j] < |sections| ==>
        sections[before.sections[j]].addrAlign <= after.align)
    && (after.align == before.align
        || exists j ::
            0 <= j < n && before.sections[j] < |sections| && sections[before.sections[j]].addrAlign == after.align)
  }

  lemma LooseStarts(sections: seq<Section>, segments: seq<Segment>)
    ensures LooseAligned(sections, segments, 0)
  {
  }

  lemma LooseFrame(s0: seq<Section>, s1: seq<Section>, i: nat, s: Section)
    requires Frame(s0, s1) && i < |s1| && SameBut(s1[i], s)
    ensures Frame(s0, s1[i := s])
  {
  }

  lemma LooseStep(sections: seq<Section>, segments: seq<Segment>, i: nat, s: Section)
    requires LooseAligned(sections, segments, i) && i < |sections|
    requires InNoSegment(segments, i) && i != 0 && s.addrAlign > 1 ==> s.offset % s.addrAlign == 0
    ensures LooseAligned(sections[i := s], segments, i + 1)
  {
  }

  lemma InSegmentIsGenerated(sections: seq<Section>, segments: seq<Segment>, placer: seq<int>, generated: seq<bool>,
                             paged: set<nat>, fits: bool, i: nat)
    requires |placer| == |sections| && !InNoSegment(segments, i)
    requires forall g :: 0 <= g < |segments| ==> LaidOut(sections, segments, placer, generated, paged, fits, g)
    ensures i < |generated| && generated[i]
  {
    var g :| 0 <= g < |segments| && i in segments[g].sections;
    assert LaidOut(sections, segments, placer, generated, paged, fits, g);
  }

  lemma StillLaidOut(sections: seq<Section>, segments: seq<Segment>, placer: seq<int>, generated: seq<bool>,
                     paged: set<nat>, fits: bool, fits': bool)
    requires |placer| == |sections| && (fits' ==> fits)
    requires forall g :: 0 <= g < |segments| ==> LaidOut(sections, segments, placer, generated, paged, fits, g)
    ensures forall g :: 0 <= g < |segments| ==> LaidOut(sections, segments, placer, generated, paged, fits', g)
  {
    forall g | 0 <= g < |segments| ensures LaidOut(sections, segments, placer, generated, paged, fits', g) {
      assert LaidOut(sections, segments, placer, generated, paged, fits, g);
    }
  }

  lemma MaxAlignNext(sections: seq<Section>, ids: seq<nat>, i: nat, a: nat)
    requires i < |ids| && forall j :: 0 <= j < |ids| ==> ids[j] < |sections|
    ensures var align := sections[ids[i]].addrAlign;
            MaxAlign(sections, ids[i..], a) == MaxAlign(sections, ids[i + 1..], if align > a then align else a)
  {
    assert ids[i..][0] == ids[i] && ids[i..][1..] == ids[i + 1..];
  }

  lemma MaxAlignNothing(sections: seq<Section>, ids: seq<nat>, a: nat)
    requires ids == []
    ensures MaxAlign(sections, ids, a) == a
  {
  }

  lemma {:induction false} MaxAlignBounds(sections: seq<Section>, ids: seq<nat>, a: nat)
    requires forall j :: 0 <= j < |ids| ==> ids[j] < |sections|
    ensures var m := MaxAlign(sections, ids, a);
            && (forall j :: 0 <= j < |ids| ==> sections[ids[j]].addrAlign <= m)
            && (m == a || exists j :: 0 <= j < |ids| && sections[ids[j]].addrAlign == m)
  {
    if ids != [] {
      var a' := if sections[ids[0]].addrAlign > a then sections[ids[0]].addrAlign else a;
      MaxAlignBounds(sections, ids[1..], a');
      var m := MaxAlign(sections, ids, a);
      forall j | 0 <= j < |ids| ensures sections[ids[j]].addrAlign <= m {
        if j > 0 { assert ids[j] == ids[1..][j - 1]; }
      }
      if m != a && m != a' {
        var j :| 0 <= j < |ids[1..]| && sections[ids[1..][j]].addrAlign == m;
        assert ids[j + 1] == ids[1..][j];
      }
    }
  }

  lemma MaxAlignIsLargest(sections: seq<Section>, seg: Segment)
    requires forall j :: 0 <= j < |seg.sections| ==> seg.sections[j] < |sections|
    ensures AlignsAll(sections, seg, seg.(align := MaxAlign(sections, seg.sections, seg.align)), |seg.sections|)
  {
    hide MaxAlign;
    MaxAlignBounds(sections, seg.sections, seg.align);
  }

  ghost predicate Aligned(sections: seq<Section>, before: seq<Segment>, after: seq<Segment>) {
    |after| == |before| && forall g :: 0 <= g < |before| ==>
        AlignsAll(sections, before[g], after[g], |before[g].sections|)
  }

  /** A segment keeps its type, address and sections, and is aligned to the strictest of them. */
  ghost predicate InputsKept(sections: seq<Section>, before: seq<Segment>, after: seq<Segment>) {
    |after| == |before| && forall g :: 0 <= g < |before| ==>
      && after[g].typ == before[g].typ && after[g].vaddr == before[g].vaddr && after[g].sections == before[g].sections
      && AlignsAll(sections, before[g], before[g].(align := after[g].align), |before[g].sections|)
  }

  lemma InputsStay(sections: seq<Section>, s0: seq<Segment>, s1: seq<Segment>, s2: seq<Segment>)
    requires Aligned(sections, s0, s1) && SegmentsKept(s1, s2)
    ensures InputsKept(sections, s0, s2)
  {
  }

  lemma NothingPlaced(input: Input, aligned: seq<Segment>, generated: seq<bool>, placer: seq<int>, base: nat)
    requires InRange(input.sections, input.segments) && aligned == AlignAll(input.sections, input.segments)
    requires generated == seq(|input.sections|, _ => false) && placer == seq(|input.sections|, _ => -1)
    ensures |generated| == |placer| == |input.sections| && InRange(input.sections, aligned)
    ensures Tracks(generated, placer) && Owned(aligned, placer, {}) && Apart(input.sections, generated, base, base)
    ensures input.Begins()
        == Plan(Cursor(input.sections, generated, input.Headers() % TWO64, input.Headers() < TWO64, 0, 0), aligned)
  {
  }

  lemma AlignedWords(sections: seq<Section>, before: seq<Segment>, after: seq<Segment>)
    requires forall i :: 0 <= i < |sections| ==> sections[i].Words()
    requires Aligned(sections, before, after) && forall g :: 0 <= g < |before| ==> before[g].Words()
    ensures |after| == |before| && forall g :: 0 <= g < |after| ==> after[g].Words()
  {
  }

  /** A step succeeded exactly when the plan has a next state, and that is the state now. */
  ghost predicate Agrees<T>(ok: bool, now: T, planned: Option<T>) {
    ok == planned.Some? && (ok ==> now == planned.value)
  }

  /** What is planned from c0 for a segment is what is planned from c for its sections from j on. */
  ghost predicate ContinuesAll(c0: Cursor, c: Cursor, seg: Segment, start: nat, j: nat) {
    && j <= |seg.sections| && c0.Lists(seg.sections) && c.Lists(seg.sections)
    && PlacedAll(c0, seg, seg.sections, start) == PlacedAll(c, seg, seg.sections[j..], start)
  }

  lemma ContinuesStart(c: Cursor, seg: Segment, start: nat)
    requires c.Lists(seg.sections)
    ensures ContinuesAll(c, c, seg, start, 0)
  {
    assert seg.sections[0..] == seg.sections;
  }

  lemma ContinuesStep(c0: Cursor, c: Cursor, seg: Segment, start: nat, j: nat, ok: bool, now: Cursor)
    requires ContinuesAll(c0, c, seg, start, j) && j < |seg.sections|
    requires Agrees(ok, now, PlacedOne(c, seg, seg.sections[j], start)) && now.Lists(seg.sections)
    ensures if ok then ContinuesAll(c0, now, seg, start, j + 1) else PlacedAll(c0, seg, seg.sections, start).None?
  {
    hide PlacedOne;
    assert seg.sections[j..][1..] == seg.sections[j + 1..];
  }

  function OrderOf(items: seq<Order.Item>): (order: seq<nat>)
    ensures |order| == |items| && forall k :: 0 <= k < |items| ==> order[k] == items[k].id
  {
    seq(|items|, k requires 0 <= k < |items| => items[k].id)
  }

  /** The same for the segments of an order from its position k on. */
  ghost predicate ContinuesSegments(p0: Plan, p: Plan, order: seq<nat>, k: nat, tableOffset: nat, tableSize: nat) {
    && k <= |order| && Sound(p0) && Sound(p) && Within(order, |p0.segments|) && |p.segments| == |p0.segments|
    && SegmentsDone(p0, order, tableOffset, tableSize) == SegmentsDone(p, order[k..], tableOffset, tableSize)
  }

  lemma SegmentsStart(p: Plan, order: seq<nat>, tableOffset: nat, tableSize: nat)
    requires Sound(p) && Within(order, |p.segments|)
    ensures ContinuesSegments(p, p, order, 0, tableOffset, tableSize)
  {
    assert order[0..] == order;
  }

  lemma SegmentsStep(p0: Plan, p: Plan, order: seq<nat>, k: nat, tableOffset: nat, tableSize: nat, ok: bool, now: Plan)
    requires ContinuesSegments(p0, p, order, k, tableOffset, tableSize) && k < |order|
    requires Agrees(ok, now, SegmentDone(p, order[k], tableOffset, tableSize))
    ensures if ok then ContinuesSegments(p0, now, order, k + 1, tableOffset, tableSize)
            else SegmentsDone(p0, order, tableOffset, tableSize).None?
  {
    hide SegmentDone;
    assert order[k..][1..] == order[k + 1..];
  }

  lemma SegmentsToTheEnd(p0: Plan, p: Plan, order: seq<nat>, tableOffset: nat, tableSize: nat)
    requires ContinuesSegments(p0, p, order, |order|, tableOffset, tableSize)
    ensures SegmentsDone(p0, order, tableOffset, tableSize) == Some(p)
  {
  }

  lemma LooseNext(c: Cursor, segments: seq<Segment>, i: nat)
    requires i < |c.sections|
    ensures LooseFrom(c, segments, i)
        == LooseFrom(if InNoSegment(segments, i) then LooseOne(c, i) else c, segments, i + 1)
  {
  }

  lemma LooseEnds(c: Cursor, segments: seq<Segment>)
    ensures LooseFrom(c, segments, |c.sections|) == c
  {
  }

  lemma ContinuesToTheEnd(c0: Cursor, c: Cursor, seg: Segment, start: nat)
    requires ContinuesAll(c0, c, seg, start, |seg.sections|)
    ensures PlacedAll(c0, seg, seg.sections, start) == Some(c)
  {
  }

  class Elf {
    var sections: seq<Section>
    var segments: seq<Segment>
    const headerSize: nat
    const segmentEntrySize: nat
    var segmentsOffset: nat
    var sectionsOffset: nat
    var currentFilePos: nat
    var sectionGenerated: seq<bool>
    ghost var fits: bool
    ghost var base: nat            // the end of the program header table
    ghost var placer: seq<int>     // which segment placed a section, -1 for none
    ghost var paged: set<nat>      // segments that took the alignment branch

    constructor (input: Input)
      ensures Given() == input
    {
      sections, segments := input.sections, input.segments;
      headerSize, segmentEntrySize := input.headerSize, input.segmentEntrySize;
    }

    ghost predicate Shape()
      reads this
    {
      && Tracks(sectionGenerated, placer) && |placer| == |sections| == |sectionGenerated|
      && (forall i :: 0 <= i < |sections| ==> sections[i].Words())
      && (forall g :: 0 <= g < |segments| ==> segments[g].Words())
      && InRange(sections, segments)
      && currentFilePos < TWO64 && headerSize < TWO64 && segmentEntrySize < TWO64 && segmentsOffset < TWO64
    }

    ghost function Given(): Input
      reads this
    {
      Input(sections, segments, headerSize, segmentEntrySize)
    }

    /** The state of the layout, with the sizes of the segment under way. */
    ghost function Here(filesize: nat, memory: nat): Cursor
      reads this
    {
      Cursor(sections, sectionGenerated, currentFilePos, fits, filesize, memory)
    }

    /** As long as no addition has wrapped, what is placed is apart and after the headers. */
    ghost predicate Disjoint()
      reads this
      requires |sectionGenerated| == |sections|
    {
      fits ==> base <= currentFilePos && Apart(sections, sectionGenerated, base, currentFilePos)
    }

    /** current_file_pos += n */
    method Advance(n: nat)
      requires currentFilePos < TWO64
      modifies this`currentFilePos, this`fits
      ensures currentFilePos == Add64(old(currentFilePos), n) < TWO64
      ensures fits == (old(fits) && old(currentFilePos) + n < TWO64)
      ensures fits ==> currentFilePos == old(currentFilePos) + n
      ensures Here(0, 0) == Moved(old(Here(0, 0)), n)
    {
      fits := fits && currentFilePos + n < TWO64;
      currentFilePos := Add64(currentFilePos, n);
    }

    /** Moves on to the section's place and past its bytes; sec is the section with its place. */
    method MovePast(index: nat, vaddr: nat, start: nat, sectionAlign: nat) returns (sec: Section)
      requires index < |sections| && sections[index].Words() && currentFilePos < TWO64 && vaddr < TWO64 && start < TWO64
      requires SectionAlign(sections[index], vaddr, false, currentFilePos, start, 0) == Some(sectionAlign)
      modifies this`currentFilePos, this`fits
      ensures sec == WithPlace(sections[index], vaddr, Moved(old(Here(0, 0)), sectionAlign).pos, start, index)
      ensures sec.Words() && SameBut(sections[index], sec) && currentFilePos < TWO64
      ensures index != 0 && sec.Backed() && sec.size != 0 ==> AtAddress(sec, start, vaddr)
      ensures Here(0, 0) == if sec.typ != SHT_NOBITS then Moved(Moved(old(Here(0, 0)), sectionAlign), sec.size)
                            else Moved(old(Here(0, 0)), sectionAlign)
      ensures fits ==> old(fits) && currentFilePos == old(currentFilePos) + sectionAlign
                                                        + (if sec.typ != SHT_NOBITS then sec.size else 0)
      ensures fits && index != 0 ==> sec.offset == old(currentFilePos) + sectionAlign
    {
      hide Sub64, Add64, SectionAlign, AtAddress, Section.Words;
      sec := sections[index];
      ghost var pos := currentFilePos;
      Advance(sectionAlign);
      sec := if sec.addressInitialized then sec
             else sec.(address := Sub64(Add64(vaddr, currentFilePos), start), addressInitialized := true);
      sec := if index != 0 then sec.(offset := currentFilePos) else sec;
      StoredAtAddress(sections[index], sec, vaddr, pos, start, sectionAlign, index);
      if sec.typ != SHT_NOBITS {
        Advance(sec.size);
      }
    }

    /** Puts a section at the file position, section_align bytes further on. */
    method Store(g: nat, index: nat, start: nat, sectionAlign: nat)
      requires Shape() && Disjoint() && g < |segments| && index < |sections|
      requires PlacedBy(sections, placer, g, start, segments[g].vaddr) && start < TWO64
      requires !sectionGenerated[index] && sections[index].typ != SHT_NULL
      requires SectionAlign(sections[index], segments[g].vaddr, false, currentFilePos, start, 0) == Some(sectionAlign)
      modifies this`sections, this`currentFilePos, this`sectionGenerated, this`fits, this`placer
      ensures Shape() && Disjoint() && PlacedBy(sections, placer, g, start, segments[g].vaddr)
      ensures sectionGenerated == old(sectionGenerated)[index := true] && placer == old(placer)[index := g]
      ensures Frame(old(sections), sections) && Leaves(old(sections), old(placer), sections, placer, g)
      ensures fits ==> old(fits) && currentFilePos == old(currentFilePos) + sectionAlign
                                                        + (if sections[index].typ != SHT_NOBITS
                                                           then sections[index].size else 0)
      ensures fits && index != 0 ==> sections[index].offset == old(currentFilePos) + sectionAlign
      ensures Here(0, 0) == Stored(old(Here(0, 0)), segments[g].vaddr, index, start, sectionAlign)
    {
      hide SectionAlign, AtAddress, Apart, Section.Words, PlacedBy, Leaves, Frame, Stored, Moved, Tracks, InRange,
           WithPlace;
      ghost var pos, c := currentFilePos, Here(0, 0);
      var sec := MovePast(index, segments[g].vaddr, start, sectionAlign);
      if fits {
        PlaceApart(sections, sectionGenerated, base, pos, index, sec, currentFilePos);
      }
      TracksStep(sectionGenerated, placer, index, g);
      StoreStep(sections, placer, g, index, sec, start, segments[g].vaddr);
      InRangeStays(sections, sections[index := sec], segments);
      StoredIs(c, segments[g].vaddr, index, start, sectionAlign, sec, Here(0, 0));
      sections := sections[index := sec];
      sectionGenerated := sectionGenerated[index := true];
      placer := placer[index := g];
    }

    /** One section of segment g: skipped if null, measured if already generated, else placed. */
    method PlaceSection(g: nat, index: nat, start: nat, filesize: nat, memory: nat)
      returns (ok: bool, filesize': nat, memory': nat)
      requires Shape() && Disjoint() && g < |segments| && index < |sections|
      requires PlacedBy(sections, placer, g, start, segments[g].vaddr) && start < TWO64
      modifies this`sections, this`currentFilePos, this`sectionGenerated, this`fits, this`placer
      ensures Shape() && Disjoint() && PlacedBy(sections, placer, g, start, segments[g].vaddr)
      ensures Frame(old(sections), sections) && Leaves(old(sections), old(placer), sections, placer, g)
      ensures ok ==>
          sectionGenerated == old(sectionGenerated)[index := true] && ChangedOnlyIn(old(placer), placer, [index])
      ensures var sec := old(sections[index]);
              var align := SectionAlign(sec, segments[g].vaddr, old(sectionGenerated[index]), old(currentFilePos),
                                        start, filesize);
              if sec.typ == SHT_NULL then ok && filesize' == filesize && memory' == memory
              else ok == align.Some? && (ok ==>
                && filesize' == (if sec.typ == SHT_NOBITS then filesize
                                 else Add64(filesize, Add64(sec.size, align.value)))
                && memory' == (if sec.InMemory(segments[g].typ) then Add64(memory, Add64(sec.size, align.value))
                               else memory)
                && (fits && !old(sectionGenerated[index]) && sec.typ != SHT_NOBITS ==>
                     currentFilePos == old(currentFilePos) + align.value + sec.size)
                && (fits && !old(sectionGenerated[index]) && index != 0 ==>
                     sections[index].offset == old(currentFilePos) + align.value))
      ensures fits ==> old(fits) && old(currentFilePos) <= currentFilePos
      ensures Generated(old(sectionGenerated), [index]) ==>
          sections == old(sections) && currentFilePos == old(currentFilePos)
      ensures Agrees(ok, Here(filesize', memory'), PlacedOne(old(Here(filesize, memory)), segments[g], index, start))
    {
      hide Sub64, Add64, AtAddress, Apart, Section.Words, PlacedBy, PlacedOne, Stored, Moved, Agrees;
      var sec, seg := sections[index], segments[g];
      ghost var c := Here(filesize, memory);
      ok, filesize', memory' := true, filesize, memory;
      assert sectionGenerated[index] ==> sectionGenerated[index := true] == sectionGenerated;
      if sec.typ == SHT_NULL {
        NullStep(sections, sectionGenerated, placer, g, index, base, currentFilePos, start, seg.vaddr);
        if !sectionGenerated[index] { placer := placer[index := g]; }
        sectionGenerated := sectionGenerated[index := true];
        PlacedOneIs(c, seg, index, start, true, Here(filesize, memory));
        return;
      }
      var sectionAlign := SectionAlign(sec, seg.vaddr, sectionGenerated[index], currentFilePos, start, filesize);
      if sectionAlign.None? {
        PlacedOneIs(c, seg, index, start, false, c);
        return false, filesize, memory;
      }
      if sec.InMemory(seg.typ) {
        memory' := Add64(memory, Add64(sec.size, sectionAlign.value));
      }
      if sec.typ != SHT_NOBITS {
        filesize' := Add64(filesize, Add64(sec.size, sectionAlign.value));
      }
      if sectionGenerated[index] {
        PlacedOneIs(c, seg, index, start, true, Here(filesize', memory'));
        return;
      }
      Store(g, index, start, sectionAlign.value);
      PlacedOneIs(c, seg, index, start, true, Here(filesize', memory'));
    }

    /** The sections of segment g, from the segment's start. */
    method PlaceSections(g: nat, start: nat, already: nat) returns (ok: bool, filesize: nat, memory: nat)
      requires Shape() && Disjoint() && g < |segments| && start < TWO64
      requires PlacedBy(sections, placer, g, start, segments[g].vaddr)
      requires Whole(sections, segments, g) ==> Fresh(sectionGenerated, segments[g].sections)
      requires fits && segments[g].sections != [] && Fresh(sectionGenerated, segments[g].sections) ==>
          already == currentFilePos - start
      modifies this`sections, this`currentFilePos, this`sectionGenerated, this`fits, this`placer
      ensures Shape() && Disjoint() && PlacedBy(sections, placer, g, start, segments[g].vaddr)
      ensures Frame(old(sections), sections) && Leaves(old(sections), old(placer), sections, placer, g)
      ensures fits ==> old(fits) && old(currentFilePos) <= currentFilePos
      ensures ok ==> Generated(sectionGenerated, segments[g].sections)
      ensures ok ==> ChangedOnlyIn(old(placer), placer, segments[g].sections)
      ensures ok && fits && Whole(sections, segments, g) ==>
          Covered(sections, segments[g].sections, start, start + filesize)
      ensures ok && Whole(sections, segments, g) && Allocated(sections, segments[g].sections) ==> memory == filesize
      ensures segments[g].sections == [] ==> ok && filesize == memory == already
      ensures Agrees(ok, Here(filesize, memory),
                     PlacedAll(old(Here(already, already)), segments[g], segments[g].sections, start))
    {
      hide ContinuesAll, PlacedOne, PlacedAll, Filling, Frame, Leaves, PlacedBy, Apart, Sub64, Add64, SectionAlign,
           Whole, Covered, Allocated, Section.Words, ChangedOnlyIn;
      var ids := segments[g].sections;
      ok, filesize, memory := true, already, already;
      var j := 0;
      FillingStarts(sections, segments, g, sectionGenerated, start, currentFilePos, already, fits);
      NothingLeft(sections, placer, g, ids);
      ContinuesStart(Here(already, already), segments[g], start);
      while j < |ids|
        invariant j <= |ids| && Shape() && Disjoint() && PlacedBy(sections, placer, g, start, segments[g].vaddr)
        invariant Frame(old(sections), sections) && Leaves(old(sections), old(placer), sections, placer, g)
        invariant fits ==> old(fits) && old(currentFilePos) <= currentFilePos
        invariant Generated(sectionGenerated, ids[..j]) && ChangedOnlyIn(old(placer), placer, ids)
        invariant Filling(sections, segments, g, sectionGenerated, j, start, currentFilePos, filesize, memory, fits)
        invariant j == 0 ==> filesize == memory == already
        invariant ok && ContinuesAll(old(Here(already, already)), Here(filesize, memory), segments[g], start, j)
      {
        ghost var before := Here(filesize, memory);
        ghost var sections0, placer0, generated0, pos0, filesize0, memory0, fits0 :=
          sections, placer, sectionGenerated, currentFilePos, filesize, memory, fits;
        ok, filesize, memory := PlaceSection(g, ids[j], start, filesize, memory);
        LeavesTrans(old(sections), old(placer), sections0, placer0, sections, placer, g);
        ContinuesStep(old(Here(already, already)), before, segments[g], start, j, ok, Here(filesize, memory));
        if !ok { return; }
        LeavesGenerated(sections0, placer0, sections, placer, g, generated0);
        ghost var align := SectionAlign(sections0[ids[j]], segments[g].vaddr, generated0[ids[j]], pos0, start,
                                        filesize0);
        FillingStep(sections0, sections, segments, g, generated0, j, start, pos0, currentFilePos, filesize0, filesize,
                    memory0, memory, fits0, fits, if align.Some? then align.value else 0);
        GeneratedStep(generated0, ids, j);
        ChangedStep(old(placer), placer0, placer, ids, j);
        j := j + 1;
      }
      FillingEnds(sections, segments, g, sectionGenerated, start, currentFilePos, filesize, memory, fits);
      ContinuesToTheEnd(old(Here(already, already)), Here(filesize, memory), segments[g], start);
      assert ids[..|ids|] == ids;
    }

    /** Moves the file position to the segment's address modulo its alignment. */
    method AlignToPage(vaddr: nat, align: nat)
      requires Shape() && Disjoint() && align <= TWO64 / 2
      modifies this`currentFilePos, this`fits
      ensures Shape() && Disjoint() && (fits ==> old(fits) && old(currentFilePos) <= currentFilePos)
      ensures fits ==> var a := if align > 0 then align else 1;
                       currentFilePos % a == vaddr % a && currentFilePos < old(currentFilePos) + a
      ensures var a := if align > 0 then align else 1;
              Here(0, 0) == Moved(old(Here(0, 0)), Add64(align, Sub64(vaddr % a, old(currentFilePos) % a)) % a)
    {
      AlignedToAddress(vaddr, align, currentFilePos);
      hide Add64, Sub64, Apart;
      var a := if align > 0 then align else 1;
      var curPageAlignment, reqPageAlignment := currentFilePos % a, vaddr % a;
      var error := Sub64(reqPageAlignment, curPageAlignment);
      ghost var pos := currentFilePos;
      Advance(Add64(align, error) % a);
      if fits { ApartMore(sections, sectionGenerated, base, pos, currentFilePos); }
    }

    /** Where a segment starts, and how much of the file it already holds: the program header
        table, the file so far if it was loaded at offset 0, a new aligned position, or where its
        first section is. */
    method StartSegment(g: nat) returns (start: nat, already: nat)
      requires Shape() && Disjoint() && g < |segments| && g !in paged
      modifies this`currentFilePos, this`fits, this`paged
      ensures Shape() && Disjoint() && (fits ==> old(fits) && old(currentFilePos) <= currentFilePos) && start < TWO64
      ensures old(paged) <= paged <= old(paged) + {g}
      ensures Starts(segments[g], g in paged, sectionGenerated, sections, fits, currentFilePos, start, already,
                     segmentsOffset, segmentEntrySize * |segments| % TWO64)
      ensures Begun(Here(already, already), start)
           == StartAt(old(Here(0, 0)), segments[g], segmentsOffset, segmentEntrySize * |segments| % TWO64)
    {
      hide Apart, Sub64, Add64;
      var seg := segments[g];
      start, already := currentFilePos, 0;
      if seg.typ == PT_PHDR && |seg.sections| == 0 {
        start := segmentsOffset;
        already := segmentEntrySize * |segments| % TWO64;
      } else if seg.offsetInitialized && seg.offset == 0 {
        start := 0;
        if |seg.sections| > 0 { already := currentFilePos; }
      } else if |seg.sections| > 0 && !sectionGenerated[seg.sections[0]] {
        AlignToPage(seg.vaddr, seg.align);
        start := currentFilePos;
        paged := paged + {g};
      } else if |seg.sections| > 0 {
        start := sections[seg.sections[0]].offset;
      }
    }

    /** The start of segment g and its sections, before its own record is updated. */
    method PlaceSegment(g: nat, ghost done: set<nat>)
      returns (ok: bool, start: nat, filesize: nat, memory: nat, ghost pos: nat, ghost already: nat, ghost fits0: bool)
      requires Shape() && Disjoint() && g < |segments| && g !in done && Owned(segments, placer, done) && g !in paged
      modifies this`sections, this`currentFilePos, this`sectionGenerated, this`fits, this`placer, this`paged
      ensures Shape() && Disjoint() && (fits ==> old(fits)) && start < TWO64
      ensures Frame(old(sections), sections) && Leaves(old(sections), old(placer), sections, placer, g)
      ensures old(paged) <= paged <= old(paged) + {g}
      ensures ok ==>
          PlacedFrom(old(sections), sections, old(placer), placer, old(sectionGenerated), sectionGenerated, segments,
                     paged, fits0, fits, g, pos, start, already, filesize, memory, segmentsOffset,
                         segmentEntrySize * |segments| % TWO64)
      ensures var b := StartAt(old(Here(0, 0)), segments[g], segmentsOffset, segmentEntrySize * |segments| % TWO64);
              && b.start == start
              && Agrees(ok, Here(filesize, memory), PlacedAll(b.cursor, segments[g], segments[g].sections, start))
    {
      hide AtAddress, Apart, Frame, Leaves, Whole, Covered, PlacedBy, Fresh, Generated, Allocated, Owned,
           ChangedOnlyIn, Starts, Tracks, Section.Words, StartAt, PlacedAll;
      WholeIsFresh(sections, segments, placer, sectionGenerated, done, g);
      var sizes;
      start, sizes := StartSegment(g);
      pos, fits0, already := currentFilePos, fits, sizes;
      StartsFilling(segments[g], g in paged, sectionGenerated, sections, fits, currentFilePos, start, already,
                    segmentsOffset, segmentEntrySize * |segments| % TWO64);
      ok, filesize, memory := PlaceSections(g, start, sizes);
    }

    /** One round of layout_segments_and_their_sections. */
    method LayoutSegment(g: nat, ghost done: set<nat>) returns (ok: bool)
      requires Shape() && Disjoint() && g < |segments| && g !in done && Owned(segments, placer, done) && g !in paged
      modifies this`sections, this`segments, this`currentFilePos, this`sectionGenerated, this`fits, this`placer,
               this`paged
      ensures Shape() && Disjoint() && (fits ==> old(fits))
      ensures Frame(old(sections), sections) && Leaves(old(sections), old(placer), sections, placer, g)
      ensures old(paged) <= paged <= old(paged) + {g}
      ensures if ok then SameSegments(old(segments), segments, g) && Owned(segments, placer, done + {g})
              else segments == old(segments)
      ensures ok ==> LaidOut(sections, segments, placer, sectionGenerated, paged, fits, g)
      ensures ok ==> SpecialStart(old(segments[g]), segments[g], segmentsOffset, segmentEntrySize * |segments| % TWO64)
      ensures Agrees(ok, Plan(Here(0, 0), segments),
                     SegmentDone(old(Plan(Here(0, 0), segments)), g, segmentsOffset,
                                 segmentEntrySize * |segments| % TWO64))
    {
      hide Apart, Frame, Leaves, Owned, LaidOut, SameSegments, SpecialStart, PlacedFrom, Tracks, Section.Words,
           StartAt, PlacedAll;
      ghost var sections0, placer0, generated0 := sections, placer, sectionGenerated;
      var start, filesize, memory;
      ghost var pos, already, fits0;
      ok, start, filesize, memory, pos, already, fits0 := PlaceSegment(g, done);
      if !ok { return; }
      ConcludesPlaced(sections0, sections, placer0, placer, generated0, sectionGenerated, segments, paged, fits0,
                      fits, g, pos, start, already, filesize, memory, segmentsOffset,
                          segmentEntrySize * |segments| % TWO64, done);
      segments := segments[g := Finished(segments[g], start, filesize, memory)];
    }

    /** The loop's round for the segment at position k of the order. */
    method LayoutNext(worklist: seq<Order.Item>, k: nat) returns (ok: bool)
      requires Shape() && Disjoint() && k < |worklist| && NamesEachOnce(worklist, |segments|)
      requires Owned(segments, placer, Ids(worklist[..k])) && paged <= Ids(worklist[..k])
      requires AllLaidOut(sections, segments, placer, sectionGenerated, paged, fits, worklist[..k])
      modifies this`sections, this`segments, this`currentFilePos, this`sectionGenerated, this`fits, this`placer,
               this`paged
      ensures Shape() && Disjoint() && (fits ==> old(fits)) && Frame(old(sections), sections)
      ensures |segments| == |old(segments)|
      ensures if ok then worklist[k].id < |segments| && SameSegments(old(segments), segments, worklist[k].id)
          else segments == old(segments)
      ensures ok ==> Owned(segments, placer, Ids(worklist[..k + 1])) && paged <= Ids(worklist[..k + 1])
      ensures ok ==> AllLaidOut(sections, segments, placer, sectionGenerated, paged, fits, worklist[..k + 1])
      ensures worklist[k].id < |old(segments)| && Sound(old(Plan(Here(0, 0), segments)))
      ensures Agrees(ok, Plan(Here(0, 0), segments),
                     SegmentDone(old(Plan(Here(0, 0), segments)), worklist[k].id, segmentsOffset,
                                 segmentEntrySize * |segments| % TWO64))
    {
      hide SegmentDone, Apart, Frame, Leaves, Owned, LaidOut, AllLaidOut, SameSegments, NamesEachOnce, Section.Words,
           Ids;
      NewId(worklist, k, |segments|);
      ghost var s0, p0, g0, paged0, fits0, segments0 := sections, placer, sectionGenerated, paged, fits, segments;
      ok := LayoutSegment(worklist[k].id, Ids(worklist[..k]));
      if !ok { return; }
      SameCount(segments0, segments, worklist[k].id);
      AllLaidOutStep(s0, segments0, p0, g0, paged0, fits0, sections, segments, placer, sectionGenerated, paged, fits,
                     worklist, k);
    }

    /** layout_segments_and_their_sections */
    method LayoutSegmentsAndTheirSections() returns (ok: bool, ghost order: seq<nat>)
      requires Shape() && Disjoint() && paged == {} && Owned(segments, placer, {})
      modifies this`sections, this`segments, this`currentFilePos, this`sectionGenerated, this`fits, this`placer,
               this`paged
      ensures Shape() && Disjoint() && (fits ==> old(fits)) && Frame(old(sections), sections)
      ensures SegmentsKept(old(segments), segments) && |segments| == |old(segments)|
      ensures ok ==> Listed(segments, placer)
      ensures ok ==> forall g :: 0 <= g < |segments| ==>
          LaidOut(sections, segments, placer, sectionGenerated, paged, fits, g)
      ensures Room.Complete(order, |segments|) && ContainersFirst(order, old(segments))
      ensures Sound(old(Plan(Here(0, 0), segments)))
      ensures Agrees(ok, Plan(Here(0, 0), segments),
                     SegmentsDone(old(Plan(Here(0, 0), segments)), order, segmentsOffset,
                                  segmentEntrySize * |segments| % TWO64))
    {
      hide Apart, Frame, Leaves, Owned, LaidOut, AllLaidOut, SameSegments, NamesEachOnce, Section.Words,
           ContinuesSegments, SegmentDone, SegmentsDone, ContainersFirst, Order.ContainersFirst, Items, ItemOf,
               Room.Complete, Listed;
      var worklist := Order.GetOrderedSegments(Items(segments));
      PermutationNamesEachOnce(worklist, segments);
      order := OrderOf(worklist);
      OrderIsComplete(worklist, segments);
      ghost var started := Plan(Here(0, 0), segments);
      NothingLeft(sections, placer, 0, []);
      ok := true;
      var k := 0;
      Begins(sections, segments, placer, sectionGenerated, paged, fits, worklist);
      SegmentsStart(Plan(Here(0, 0), segments), order, segmentsOffset, segmentEntrySize * |segments| % TWO64);
      while k < |worklist|
        invariant k <= |worklist| && Shape() && Disjoint() && (fits ==> old(fits)) && Frame(old(sections), sections)
        invariant SegmentsKept(old(segments), segments)
        invariant Owned(segments, placer, Ids(worklist[..k])) && paged <= Ids(worklist[..k])
        invariant |segments| == |old(segments)|
        invariant AllLaidOut(sections, segments, placer, sectionGenerated, paged, fits, worklist[..k])
        invariant ok && ContinuesSegments(started, Plan(Here(0, 0), segments), order, k, segmentsOffset,
                                          segmentEntrySize * |segments| % TWO64)
      {
        ghost var s0, segments0, before := sections, segments, Plan(Here(0, 0), segments);
        ok := LayoutNext(worklist, k);
        FrameTrans(old(sections), s0, sections);
        SegmentsStep(started, before, order, k, segmentsOffset, segmentEntrySize * |segments| % TWO64, ok,
                     Plan(Here(0, 0), segments));
        if !ok { return; }
        KeptStep(old(segments), segments0, segments, worklist[k].id);
        k := k + 1;
      }
      Finishes(sections, segments, placer, sectionGenerated, paged, fits, worklist);
      SegmentsToTheEnd(started, Plan(Here(0, 0), segments), order, segmentsOffset,
                       segmentEntrySize * |segments| % TWO64);
    }

    /** is_section_without_segment */
    method IsSectionWithoutSegment(index: nat) returns (without: bool)
      ensures without <==> InNoSegment(segments, index)
    {
      var found := false;
      var j := 0;
      while !found && j < |segments|
        invariant j <= |segments|
        invariant if found then j > 0 && index in segments[j - 1].sections
                  else forall g :: 0 <= g < j ==> index !in segments[g].sections
      {
        var k := 0;
        while !found && k < |segments[j].sections|
          invariant k <= |segments[j].sections|
          invariant if found then index in segments[j].sections else index !in segments[j].sections[..k]
        {
          found := segments[j].sections[k] == index;
          k := k + 1;
        }
        j := j + 1;
      }
      return !found;
    }

    /** Moves the file position up to a multiple of the alignment. */
    method AlignLoose(sectionAlign: nat)
      requires currentFilePos < TWO64
      modifies this`currentFilePos, this`fits
      ensures currentFilePos < TWO64 && (fits ==> old(fits) && old(currentFilePos) <= currentFilePos)
      ensures fits && sectionAlign > 1 ==> currentFilePos % sectionAlign == 0
      ensures Here(0, 0) == AlignedUp(old(Here(0, 0)), sectionAlign)
    {
      hide Add64;
      if sectionAlign > 1 {
        RoundUp(currentFilePos, sectionAlign);
        if currentFilePos % sectionAlign != 0 {
          Advance(sectionAlign - currentFilePos % sectionAlign);
        }
      }
    }

    /** One section outside all segments: aligned, and counted if it has bytes in the file. */
    method PlaceLoose(i: nat, ghost placed: seq<bool>) returns (ghost placed': seq<bool>)
      requires Shape() && i < |sections| == |placed|
      requires fits ==> base <= currentFilePos && Apart(sections, placed, base, currentFilePos)
      modifies this`sections, this`currentFilePos, this`fits
      ensures Shape() && placed' == placed[i := true] && (fits ==> old(fits))
      ensures fits ==> base <= currentFilePos && Apart(sections, placed', base, currentFilePos)
      ensures |sections| == |old(sections)| && sections == old(sections)[i := sections[i]]
      ensures SameBut(old(sections[i]), sections[i])
      ensures fits && i != 0 && sections[i].addrAlign > 1 ==> sections[i].offset % sections[i].addrAlign == 0
      ensures Here(0, 0) == LooseOne(old(Here(0, 0)), i)
    {
      hide Apart, Add64, AlignedUp;
      var sec := sections[i];
      ghost var pos := currentFilePos;
      AlignLoose(sec.addrAlign);
      if i != 0 {
        sec := sec.(offset := currentFilePos);
      }
      if sec.Backed() {
        Advance(sec.size);
      }
      if fits { PlaceApart(sections, placed, base, pos, i, sec, currentFilePos); }
      sections := sections[i := sec];
      placed' := placed[i := true];
    }

    /** layout_sections_without_segments */
    method LayoutSectionsWithoutSegments()
      requires Shape() && Disjoint() && Listed(segments, placer)
      requires forall g :: 0 <= g < |segments| ==> LaidOut(sections, segments, placer, sectionGenerated, paged, fits, g)
      modifies this`sections, this`currentFilePos, this`fits
      ensures Shape() && Frame(old(sections), sections) && (fits ==> old(fits))
      ensures forall g :: 0 <= g < |segments| ==> LaidOut(sections, segments, placer, sectionGenerated, paged, fits, g)
      ensures fits ==> base <= currentFilePos && Apart(sections, AllTrue(|sections|), base, currentFilePos)
      ensures fits ==> LooseAligned(sections, segments, |sections|)
      ensures Here(0, 0) == LooseFrom(old(Here(0, 0)), segments, 0)
    {
      hide LooseFrom, LooseOne, Apart, Frame, Listed, LaidOut, LooseAligned, InNoSegment, Section.Words;
      ghost var placed := sectionGenerated;
      NothingLeft(sections, placer, 0, []);
      assert LooseAligned(sections, segments, 0) by { LooseStarts(sections, segments); }
      for i := 0 to |sections|
        invariant Shape() && Frame(old(sections), sections) && (fits ==> old(fits)) && |placed| == |sections|
        invariant fits ==> base <= currentFilePos && Apart(sections, placed, base, currentFilePos)
        invariant forall g :: 0 <= g < |segments| ==>
            LaidOut(sections, segments, placer, sectionGenerated, paged, fits, g)
        invariant fits ==> LooseAligned(sections, segments, i)
        invariant forall j :: 0 <= j < |sections| && (j < i || sectionGenerated[j]) ==> placed[j]
        invariant LooseFrom(old(Here(0, 0)), segments, 0) == LooseFrom(Here(0, 0), segments, i)
      {
        ghost var s0, fits0 := sections, fits;
        LooseNext(Here(0, 0), segments, i);
        var without := IsSectionWithoutSegment(i);
        if without {
          placed := PlaceLoose(i, placed);
          LooseFrame(old(sections), s0, i, sections[i]);
          forall g | 0 <= g < |segments| ensures LaidOut(sections, segments, placer, sectionGenerated, paged, fits, g) {
            LooseSectionMoves(s0, segments, placer, sectionGenerated, paged, fits0, fits, i, sections[i], g);
          }
        } else {
          InSegmentIsGenerated(sections, segments, placer, sectionGenerated, paged, fits, i);
        }
        assert sections == s0[i := sections[i]];
        if fits { LooseStep(s0, segments, i, sections[i]); }
      }
      assert placed == AllTrue(|sections|);
      LooseEnds(Here(0, 0), segments);
    }

    /** layout_section_table: the section table comes last, at a multiple of 4. */
    method LayoutSectionTable()
      requires currentFilePos < TWO64
      modifies this`currentFilePos, this`fits, this`sectionsOffset
      ensures sectionsOffset == currentFilePos < TWO64 && (fits ==> old(fits)) && sectionsOffset % 4 == 0
      ensures fits ==> old(currentFilePos) <= sectionsOffset < old(currentFilePos) + 4
      ensures Here(0, 0) == TableDone(old(Here(0, 0)))
    {
      RoundUp(currentFilePos, 4);
      var alignmentError := currentFilePos % 4;
      Advance((4 - alignmentError) % 4);
      sectionsOffset := currentFilePos;
    }

    /** calc_segment_alignment */
    method CalcSegmentAlignment()
      requires InRange(sections, segments)
      modifies this`segments
      ensures segments == AlignAll(sections, old(segments))
      ensures Aligned(sections, old(segments), segments)
    {
      hide MaxAlign, AlignsAll;
      ghost var aligned := AlignAll(sections, segments);
      for g := 0 to |segments|
        invariant |segments| == |aligned|
        invariant forall h :: 0 <= h < |segments| ==> segments[h] == if h < g then aligned[h] else old(segments[h])
      {
        var seg := segments[g];
        ghost var before := segments;
        assert seg.sections[0..] == seg.sections;
        for i := 0 to |seg.sections|
          invariant segments == before && seg == old(segments[g]).(align := seg.align)
          invariant MaxAlign(sections, seg.sections[i..], seg.align) == aligned[g].align
        {
          MaxAlignNext(sections, seg.sections, i, seg.align);
          var sect := sections[seg.sections[i]];
          if sect.addrAlign > seg.align {
            seg := seg.(align := sect.addrAlign);
          }
        }
        MaxAlignNothing(sections, seg.sections[|seg.sections|..], seg.align);
        segments := segments[g := seg];
      }
      forall g | 0 <= g < |segments|
        ensures AlignsAll(sections, old(segments[g]), segments[g], |old(segments[g]).sections|)
      {
        MaxAlignIsLargest(sections, old(segments[g]));
      }
    }

    /** The header fields, the file position after the program header table, and the segments' alignments. */
    method Prepare(ghost input: Input)
      requires Given() == input && input.Valid()
      modifies this
      ensures Shape() && Disjoint() && paged == {} && Owned(segments, placer, {}) && sections == input.sections
      ensures base == currentFilePos == input.Headers() % TWO64 && (fits <==> input.Headers() < TWO64)
      ensures segmentsOffset == input.TableOffset() && segmentEntrySize * |segments| % TWO64 == input.TableSize()
      ensures sectionsOffset == 0 && |segments| == |input.segments|
      ensures Aligned(sections, input.segments, segments) && Plan(Here(0, 0), segments) == input.Begins()
    {
      hide Apart, Tracks, Owned, InRange, Aligned, AlignAll, Section.Words, Segment.Words, Input.Begins;
      segmentsOffset := if |segments| > 0 then headerSize else 0;
      sectionsOffset := 0;
      fits := headerSize + segmentEntrySize * |segments| < TWO64;
      currentFilePos := (headerSize + segmentEntrySize * |segments|) % TWO64;
      base := currentFilePos;
      CalcSegmentAlignment();
      AlignedWords(sections, input.segments, segments);
      sectionGenerated := seq(|sections|, _ => false);
      placer := seq(|sections|, _ => -1);
      paged := {};
      NothingPlaced(input, segments, sectionGenerated, placer, base);
    }

    /** What follows the segments: the loose sections and the section table. */
    method LayoutRest()
      requires Shape() && Disjoint() && Listed(segments, placer)
      requires forall g :: 0 <= g < |segments| ==> LaidOut(sections, segments, placer, sectionGenerated, paged, fits, g)
      modifies this`sections, this`currentFilePos, this`fits, this`sectionsOffset
      ensures Shape() && Frame(old(sections), sections) && (fits ==> old(fits))
      ensures sectionsOffset % 4 == 0 && sectionsOffset == currentFilePos
      ensures forall g :: 0 <= g < |segments| ==> LaidOut(sections, segments, placer, sectionGenerated, paged, fits, g)
      ensures fits ==>
          Apart(sections, AllTrue(|sections|), base, sectionsOffset) && LooseAligned(sections, segments, |sections|)
      ensures Here(0, 0) == TableDone(LooseFrom(old(Here(0, 0)), segments, 0))
    {
      hide Apart, Frame, LaidOut, LooseAligned, Listed, Section.Words, LooseFrom, TableDone;
      LayoutSectionsWithoutSegments();
      ghost var pos, fits0 := currentFilePos, fits;
      LayoutSectionTable();
      StillLaidOut(sections, segments, placer, sectionGenerated, paged, fits0, fits);
      if fits { ApartMore(sections, AllTrue(|sections|), base, pos, sectionsOffset); }
    }

    /** The layout steps of save, as planned for some order that puts containers first. When they
        succeed and no file position has wrapped, all sections with bytes in the file are
        disjoint, after the program header table and before the section table; and which inputs
        make no position wrap. */
    method Layout(ghost input: Input) returns (ok: bool, ghost order: seq<nat>)
      requires Given() == input && input.Valid()
      modifies this
      ensures Shape() && Frame(input.sections, sections)
      ensures base == input.Headers() % TWO64
      ensures Room.Complete(order, |input.segments|) && ContainersFirst(order, input.segments)
      ensures Agrees(ok, Plan(Here(0, 0), segments), input.Laid(order))
      ensures sectionsOffset % 4 == 0 && (ok ==> sectionsOffset == currentFilePos)
      ensures ok ==> forall g :: 0 <= g < |segments| ==>
          LaidOut(sections, segments, placer, sectionGenerated, paged, fits, g)
      ensures ok ==> InputsKept(input.sections, input.segments, segments)
      ensures ok && fits ==> Apart(sections, AllTrue(|sections|), input.Headers(), sectionsOffset)
      ensures ok && fits ==> LooseAligned(sections, segments, |sections|)
      ensures ok && Sizes.NullFirst(input.sections) ==>
                && AllSized(input, order, sections, segments, fits)
                && forall g :: 0 <= g < |segments| && Nested(input.segments, g) ==>
                     NestedSized(sections, input.segments[g], segments[g], fits)
      ensures ok && Room.InputsFit(input) ==> fits
      ensures ok && Room.Decided(input) ==> (fits <==> Room.InputsFit(input))
    {
      hide Apart, Frame, LaidOut, LooseAligned, Listed, Aligned, SegmentsKept, InputsKept, ContainersFirst,
           SegmentsDone, LooseFrom, TableDone, Room.InputsFit, Room.Decided, Room.Complete, Section.Words, Agrees,
               Input.Laid, Input.Begins, Input.Headers, Input.Valid, Input.TableSize, Input.TableOffset, Owned,
                   Tracks, InRange, Sound, AllSized, Nested, NestedSized, Sizes.NullFirst;
      Prepare(input);
      ghost var begun := Plan(Here(0, 0), segments);
      ok, order := LayoutSegmentsAndTheirSections();
      ghost var s0, middle := sections, Plan(Here(0, 0), segments);
      AgreesWithPlan(input, order, ok, begun, middle);
      if !ok { return; }
      LayoutRest();
      FrameTrans(input.sections, s0, sections);
      InputsStay(input.sections, input.segments, begun.segments, segments);
      FitsByRoom(input, order);
      if Sizes.NullFirst(input.sections) {
        SizesOf(input, order, sections, segments, fits, Here(0, 0), sectionsOffset);
      }
    }
  }

  /** The plan of the segments, and after it the rest. */
  lemma AgreesWithPlan(input: Input, order: seq<nat>, ok: bool, begun: Plan, middle: Plan)
    requires input.Valid() && Room.Complete(order, |input.segments|) && begun == input.Begins()
    requires Agrees(ok, middle, SegmentsDone(begun, order, input.TableOffset(), input.TableSize()))
    ensures Agrees(ok, middle.(cursor := TableDone(LooseFrom(middle.cursor, middle.segments, 0))), input.Laid(order))
    ensures if ok
        then input.Laid(order) == Some(middle.(cursor := TableDone(LooseFrom(middle.cursor, middle.segments, 0))))
            else forall now :: Agrees(ok, now, input.Laid(order))
    ensures ContainersFirst(order, begun.segments) ==> ContainersFirst(order, input.segments)
  {
    hide SegmentsDone, LooseFrom, TableDone, MaxAlign, Order.IsSubsequenceOf;
  }

  // ----- sizes

  /** The sizes of every segment are the tally over its sections, and every section stands where
      the first segment to list it put it. */
  ghost predicate AllSized(input: Input, order: seq<nat>, sections: seq<Section>, segments: seq<Segment>, fits: bool) {
    && Within(order, |input.segments|) && |segments| == |input.segments|
    && forall k :: 0 <= k < |order| ==>
         var own := Sizes.OwnIn(input.segments, order, k);
         && Sizes.SizedAs(sections, input.segments[order[k]], segments[order[k]], own)
         && Sizes.LandedAll(input.sections, sections, segments[order[k]], own, fits)
  }

  /** Some other segment has all sections of segment g and more. */
  ghost predicate Nested(segments: seq<Segment>, g: nat) {
    g < |segments| && Order.Sorted(segments[g].sections)
    && exists h :: 0 <= h < |segments| && Order.Sorted(segments[h].sections) && Contains(segments[h], segments[g])
  }

  ghost predicate Contains(outer: Segment, inner: Segment) {
    multiset(inner.sections) < multiset(outer.sections)
  }

  /** In file order, and the last one not empty. */
  ghost predicate Ascending(sections: seq<Section>, ids: seq<nat>)
    requires forall j :: 0 <= j < |ids| ==> ids[j] < |sections|
  {
    && (forall j, k :: 0 <= j < k < |ids| ==> sections[ids[j]].offset <= sections[ids[k]].offset)
    && (ids != [] ==> sections[ids[|ids| - 1]].size > 0)
  }

  /** A nested segment ends with its last section; in file order it covers all its sections; and
      allocated, it takes no less memory than that. */
  ghost predicate NestedSized(sections: seq<Section>, before: Segment, seg: Segment, fits: bool) {
    var ids := seg.sections;
    ids != [] && Sizes.AllBacked(sections, ids) ==>
      && Sizes.EndsWith(seg, sections[ids[|ids| - 1]])
      && (fits && Ascending(sections, ids) && (forall j :: 0 <= j < |ids| ==> ids[j] > 0) ==>
           Covered(sections, ids, seg.offset, seg.offset + seg.filesz))
      && ((forall j :: 0 <= j < |ids| ==> sections[ids[j]].alloc) ==>
           seg.memsz == if before.memsz < seg.filesz then seg.filesz else before.memsz)
  }

  /** Containers come first, so all sections of a nested segment are placed before its turn. */
  lemma NestedIsShared(segments: seq<Segment>, order: seq<nat>, k: nat)
    requires Room.Complete(order, |segments|) && ContainersFirst(order, segments) && k < |order|
    requires Nested(segments, order[k])
    ensures forall j :: 0 <= j < |segments[order[k]].sections| ==> !Sizes.OwnIn(segments, order, k)[j]
  {
    hide Order.IsSubsequenceOf;
    var g := order[k];
    var h :| 0 <= h < |segments| && Order.Sorted(segments[h].sections) && Contains(segments[h], segments[g]);
    Order.SubsequenceIsStrictContainment(segments[g].sections, segments[h].sections);
    assert h in order;
    var m :| 0 <= m < |order| && order[m] == h;
    assert m < k;
    var ids := segments[g].sections;
    forall j | 0 <= j < |ids| ensures Sizes.ListedEarlier(segments, order, k, ids[j]) {
      assert ids[j] in multiset(ids);
      assert ids[j] in segments[order[m]].sections;
    }
  }

  lemma NestedIsCovered(sections: seq<Section>, seg: Segment, base: nat, pos: nat)
    requires Apart(sections, AllTrue(|sections|), base, pos) && pos < TWO64 && seg.sections != []
    requires Sizes.AllBacked(sections, seg.sections) && forall j :: 0 <= j < |seg.sections| ==> seg.sections[j] > 0
    requires Ascending(sections, seg.sections) && Sizes.EndsWith(seg, sections[seg.sections[|seg.sections| - 1]])
    requires seg.offset == 0 || seg.offset == sections[seg.sections[0]].offset
    ensures Covered(sections, seg.sections, seg.offset, seg.offset + seg.filesz)
  {
    var ids := seg.sections;
    var last := sections[ids[|ids| - 1]];
    assert seg.offset <= last.offset && last.offset + last.size <= pos;
    assert seg.offset + seg.filesz == last.offset + last.size by { hide Apart, Ascending; }
    hide Sub64;
    forall i | i in ids
      ensures seg.offset <= sections[i].offset && sections[i].offset + sections[i].size <= last.offset + last.size
    {
      var j :| 0 <= j < |ids| && ids[j] == i;
      assert sections[ids[0]].offset <= sections[ids[j]].offset <= last.offset;
    }
  }

  lemma SizesOf(input: Input, order: seq<nat>, sections: seq<Section>, segments: seq<Segment>, fits: bool, c: Cursor,
                pos: nat)
    requires input.Valid() && Room.Complete(order, |input.segments|) && ContainersFirst(order, input.segments)
    requires Sizes.NullFirst(input.sections) && input.Laid(order) == Some(Plan(c, segments))
    requires c.sections == sections && c.fits == fits && (forall g :: 0 <= g < |segments| ==> segments[g].Words())
    requires forall g :: 0 <= g < |segments| ==> segments[g].sections == input.segments[g].sections
    requires fits ==> pos < TWO64 && Apart(sections, AllTrue(|sections|), input.Headers(), pos)
    ensures AllSized(input, order, sections, segments, fits)
    ensures forall g :: 0 <= g < |segments| && Nested(input.segments, g) ==>
              NestedSized(sections, input.segments[g], segments[g], fits)
  {
    hide Input.Laid, Input.Valid, Apart, Nested, NestedSized, Sizes.SizedAs, Sizes.LandedAll, Sizes.OwnIn,
         ContainersFirst;
    forall k | 0 <= k < |order|
      ensures var own := Sizes.OwnIn(input.segments, order, k);
              && Sizes.SizedAs(sections, input.segments[order[k]], segments[order[k]], own)
              && Sizes.LandedAll(input.sections, sections, segments[order[k]], own, fits)
    {
      Sizes.SegmentsAreSized(input, order, k);
    }
    forall g | 0 <= g < |segments| && Nested(input.segments, g)
      ensures NestedSized(sections, input.segments[g], segments[g], fits)
    {
      assert g in order;
      var k :| 0 <= k < |order| && order[k] == g;
      NestedIsShared(input.segments, order, k);
      NestedIsSized(sections, input.segments[g], segments[g], Sizes.OwnIn(input.segments, order, k), fits,
                    input.Headers(), pos);
    }
  }

  lemma NestedIsSized(sections: seq<Section>, before: Segment, seg: Segment, own: seq<bool>, fits: bool, base: nat,
                      pos: nat)
    requires Sizes.SizedAs(sections, before, seg, own) && |own| == |seg.sections| && seg.offset < TWO64
    requires forall j :: 0 <= j < |own| ==> !own[j]
    requires fits ==> pos < TWO64 && Apart(sections, AllTrue(|sections|), base, pos)
    ensures NestedSized(sections, before, seg, fits)
  {
    hide Sizes.TallyAll, Apart, Covered, Ascending, Sub64, Sizes.Wrap;
    var ids := seg.sections;
    if ids != [] && Sizes.AllBacked(sections, ids) {
      Sizes.SharedSegmentEnds(sections, before, seg, own, |ids| - 1);
      if forall j :: 0 <= j < |ids| ==> sections[ids[j]].alloc { Sizes.AllocatedSegment(sections, before, seg, own); }
      if fits && Ascending(sections, ids) && (forall j :: 0 <= j < |ids| ==> ids[j] > 0) {
        var at: nat :| Sizes.Accounts(sections, before, seg, own, at);
        NestedIsCovered(sections, seg, base, pos);
      }
    }
  }

  lemma FitsByRoom(input: Input, order: seq<nat>)
    requires input.Valid() && Room.Complete(order, |input.segments|) && input.Laid(order).Some?
    ensures Room.InputsFit(input) ==> input.Laid(order).value.cursor.fits
    ensures Room.Decided(input) ==> (input.Laid(order).value.cursor.fits <==> Room.InputsFit(input))
  {
    hide Room.InputsFit, Room.Decided, Input.Laid, Section.Words;
    if Room.InputsFit(input) { Room.FitsWhenInputsFit(input, order); }
    if Room.Decided(input) { Room.FitsExactlyWhenInputsFit(input, order); }
  }

  /** A whole layout that succeeds with two sections over each other. */
  method LaidOverEachOther() returns (elf: Elf)
    ensures fresh(elf) && |elf.sections| == 3 && elf.sections[1].Backed() && elf.sections[2].Backed()
    ensures elf.sections[1].offset == 120 && elf.sections[1].size == 64
    ensures elf.sections[2].offset == 88 && elf.sections[2].size == 64
  {
    elf := new Elf(Room.BelowItsSegment());
    hide Input.Laid, Room.InputsFit, Room.Decided, ContainersFirst, LaidOut, InputsKept, Apart, LooseAligned;
    Room.BelowItsSegmentIsValid();
    ghost var input := elf.Given();
    var ok;
    ghost var order;
    ok, order := elf.Layout(input);
    Room.SectionBelowSegmentOverlaps(order);
    assert ok && elf.sections == input.Laid(order).value.cursor.sections;
  }
}
