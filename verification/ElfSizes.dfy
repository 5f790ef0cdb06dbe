/** The sizes of segments, and where their sections stand, told from the finished layout alone:
    also for segments that share sections with others. */
module ElfSizes {
  import opened Basics
  import opened PowersOfTwo
  import opened Division
  import opened ElfFile
  import opened ElfPlan
  import opened ElfRoom

  // ----- sums on 64-bit words

  function Wrap(x: int): (w: nat)
    ensures w < TWO64
  {
    x % TWO64
  }

  lemma WrapEqual(a: int, b: int, k: int)
    requires a == b + k * TWO64
    ensures Wrap(a) == Wrap(b)
  {
    var q := b / TWO64;
    assert a == (q + k) * TWO64 + Wrap(b);
  }

  lemma WrapIs(x: int) returns (k: int)
    ensures Wrap(x) == x + k * TWO64
  {
    k := -(x / TWO64);
  }

  lemma WrapOfWord(x: nat)
    requires x < TWO64
    ensures Wrap(x) == x
  {
  }

  lemma AddIsWrap(x: nat, y: nat, a: int, b: int)
    requires x == Wrap(a) && y == Wrap(b)
    ensures Add64(x, y) == Wrap(a + b)
  {
    var k := WrapIs(a);
    var l := WrapIs(b);
    WrapEqual(x + y, a + b, k + l);
  }

  lemma SubIsWrap(x: nat, y: nat, a: int, b: int)
    requires x == Wrap(a) && y == Wrap(b)
    ensures Sub64(x, y) == Wrap(a - b)
  {
    var k := WrapIs(a);
    var l := WrapIs(b);
    WrapOfWord(y);
    WrapEqual(x + TWO64 - y % TWO64, a - b, k - l + 1);
  }

  // ----- the tally

  /** What a segment holds of the file and of memory so far, and the file position. */
  datatype Tally = Tally(file: int, memory: int, pos: int)

  /** Allocated, and not .tbss outside a TLS segment. */
  predicate Counts(sec: Section, segmentType: nat) {
    sec.alloc && (sec.typ != SHT_NOBITS || !sec.tls || segmentType == PT_TLS)
  }

  /** A section adds its size and the gap in front of it: from the file position for a section
      the segment places itself, from the end of what the segment holds for one it shares. */
  function TallyOne(sec: Section, own: bool, start: int, segmentType: nat, t: Tally): Tally {
    if sec.typ == SHT_NULL then t
    else
      var end := sec.offset + sec.size;
      var added := if own then end - t.pos else end - (start + t.file);
      Tally(if sec.Backed() then t.file + added else t.file,
            if Counts(sec, segmentType) then t.memory + added else t.memory,
            if !own then t.pos else if sec.Backed() then end else sec.offset)
  }

  function TallyAll(sections: seq<Section>, ids: seq<nat>, own: seq<bool>, start: int, segmentType: nat,
                    t: Tally): Tally
    requires |own| == |ids| && forall j :: 0 <= j < |ids| ==> ids[j] < |sections|
  {
    if ids == [] then t
    else
      TallyAll(sections, ids[1..], own[1..], start, segmentType,
               TallyOne(sections[ids[0]], own[0], start, segmentType, t))
  }

  ghost predicate Stands(c: Cursor, t: Tally) {
    c.filesize == Wrap(t.file) && c.memory == Wrap(t.memory) && c.pos == Wrap(t.pos)
  }

  /** What is generated stays, and no section changes its kind. */
  ghost predicate Keeps(c: Cursor, c': Cursor) {
    && |c.sections| == |c.generated| == |c'.sections| == |c'.generated|
    && forall i :: 0 <= i < |c.sections| ==>
         && SameKind(c.sections[i], c'.sections[i])
         && (c.generated[i] ==> c'.generated[i] && c'.sections[i] == c.sections[i])
  }

  ghost predicate SameKind(a: Section, b: Section) {
    b == a.(address := b.address, addressInitialized := b.addressInitialized, offset := b.offset)
  }

  lemma OneKeeps(c: Cursor, seg: Segment, index: nat, start: nat)
    requires index < |c.sections| == |c.generated| && PlacedOne(c, seg, index, start).Some?
    ensures Keeps(c, PlacedOne(c, seg, index, start).value)
    ensures PlacedOne(c, seg, index, start).value.generated == c.generated[index := true]
  {
    hide Sub64, Add64, SectionAlign;
    assert c.generated[index] ==> c.generated[index := true] == c.generated;
  }

  lemma KeepsTrans(c0: Cursor, c1: Cursor, c2: Cursor)
    requires Keeps(c0, c1) && Keeps(c1, c2)
    ensures Keeps(c0, c2)
  {
  }

  lemma {:induction false} AllKeep(c: Cursor, seg: Segment, ids: seq<nat>, start: nat)
    requires c.Lists(ids) && PlacedAll(c, seg, ids, start).Some?
    ensures Keeps(c, PlacedAll(c, seg, ids, start).value)
    ensures forall i :: i in ids ==> PlacedAll(c, seg, ids, start).value.generated[i]
    decreases |ids|
  {
    hide PlacedOne;
    if ids != [] {
      var next := PlacedOne(c, seg, ids[0], start).value;
      OneKeeps(c, seg, ids[0], start);
      AllKeep(next, seg, ids[1..], start);
      KeepsTrans(c, next, PlacedAll(c, seg, ids, start).value);
      forall i | i in ids ensures PlacedAll(c, seg, ids, start).value.generated[i] {
        if i != ids[0] { assert i in ids[1..]; }
      }
    }
  }

  // ----- one section

  /** The section fits the fields of a word, and section 0 is never placed. */
  ghost predicate Proper(c: Cursor, index: nat)
    requires index < |c.sections| == |c.generated|
  {
    c.sections[index].Words() && (index == 0 ==> c.sections[0].typ == SHT_NULL || c.generated[0])
  }

  lemma SharedCounted(c: Cursor, sec: Section, segmentType: nat, start: nat, step: nat, t: Tally)
    requires Stands(c, t) && sec.Words() && start < TWO64 && sec.typ != SHT_NULL
    requires step == Sub64(Sub64(sec.offset, start), c.filesize)
    ensures Stands(Measured(c, sec, segmentType, step), TallyOne(sec, false, start, segmentType, t))
    ensures Measured(c, sec, segmentType, step).sections == c.sections
  {
    hide Wrap, Add64, Sub64;
    WrapOfWord(sec.offset);
    WrapOfWord(sec.size);
    WrapOfWord(start);
    SubIsWrap(sec.offset, start, sec.offset, start);
    SubIsWrap(Sub64(sec.offset, start), c.filesize, sec.offset - start, t.file);
    AddIsWrap(sec.size, step, sec.size, sec.offset - start - t.file);
    AddIsWrap(c.filesize, Add64(sec.size, step), t.file, sec.size + (sec.offset - start - t.file));
    AddIsWrap(c.memory, Add64(sec.size, step), t.memory, sec.size + (sec.offset - start - t.file));
  }

  lemma OwnCounted(c: Cursor, sec: Section, seg: Segment, index: nat, start: nat, step: nat, t: Tally)
    requires index < |c.sections| == |c.generated| && sec == c.sections[index] && index != 0
    requires Stands(c, t) && sec.Words() && c.pos < TWO64 && sec.typ != SHT_NULL
    ensures var n := Stored(Measured(c, sec, seg.typ, step), seg.vaddr, index, start, step);
            Stands(n, TallyOne(n.sections[index], true, start, seg.typ, t))
  {
    var n := Stored(Measured(c, sec, seg.typ, step), seg.vaddr, index, start, step);
    var offset := Add64(c.pos, step);
    assert n.sections[index].offset == offset && SameKind(sec, n.sections[index]);
    assert n.pos == if sec.typ != SHT_NOBITS then Add64(offset, sec.size) else offset;
    assert n.filesize == Measured(c, sec, seg.typ, step).filesize && n.memory == Measured(c, sec, seg.typ, step).memory;
    WordStep(offset, t.pos, step, c.pos);
    hide Wrap, Add64, Stored;
    WrapOfWord(sec.size);
    WrapOfWord(offset);
    AddIsWrap(offset, sec.size, offset, sec.size);
    var added := offset + sec.size - t.pos;
    var k := OffsetBy(offset, t.pos, step, c.pos);
    WrapEqual(sec.size + step, added, k);
    AddIsWrap(sec.size, step % TWO64, sec.size, step);
    AddSmall(sec.size, step);
    AddIsWrap(c.filesize, Add64(sec.size, step), t.file, added);
    AddIsWrap(c.memory, Add64(sec.size, step), t.memory, added);
  }

  lemma WordStep(offset: nat, tally: int, step: nat, pos: nat)
    requires pos == Wrap(tally) && offset == Add64(pos, step)
    ensures offset == Wrap(tally + step) && offset < TWO64
  {
    var k := WrapIs(tally);
    WrapEqual(pos + step, tally + step, k);
  }

  lemma OffsetBy(offset: nat, tally: int, step: nat, pos: nat) returns (k: int)
    requires pos == Wrap(tally) && offset == Add64(pos, step)
    ensures step == offset - tally + k * TWO64
  {
    var l := WrapIs(tally);
    var m := (pos + step) / TWO64;
    assert offset == pos + step - m * TWO64;
    k := m - l;
  }

  lemma AddSmall(x: nat, y: nat)
    ensures Add64(x, y) == Wrap(x + y) == Add64(x, y % TWO64)
  {
  }

  lemma OneCounted(c: Cursor, seg: Segment, index: nat, start: nat, t: Tally)
    requires index < |c.sections| == |c.generated| && Proper(c, index) && Stands(c, t) && start < TWO64
    requires PlacedOne(c, seg, index, start).Some?
    ensures var n := PlacedOne(c, seg, index, start).value;
            Stands(n, TallyOne(n.sections[index], !c.generated[index], start, seg.typ, t))
  {
    hide Wrap, SectionAlign, Stored, Measured, Sub64, Section.Words;
    var sec := c.sections[index];
    if sec.typ != SHT_NULL {
      var step := SectionAlign(sec, seg.vaddr, c.generated[index], c.pos, start, c.filesize).value;
      if c.generated[index] {
        SharedStep(sec, seg.vaddr, c.pos, start, c.filesize);
        SharedCounted(c, sec, seg.typ, start, step, t);
      } else {
        OwnCounted(c, sec, seg, index, start, step, t);
      }
    }
  }

  lemma SharedStep(sec: Section, vaddr: nat, pos: nat, start: nat, filesize: nat)
    ensures SectionAlign(sec, vaddr, true, pos, start, filesize) == Some(Sub64(Sub64(sec.offset, start), filesize))
  {
  }

  /** Where a section stands that the segment starting at `start` placed: at its address, or, if it
      had none, at a multiple of its alignment with the address that belongs to it. */
  ghost predicate Landed(before: Section, after: Section, start: nat, vaddr: nat, fits: bool) {
    && SameKind(before, after)
    && if before.addressInitialized then
         && after.addressInitialized && after.address == before.address
         && (before.Backed() && before.size != 0 ==> Sub64(after.offset, start) == Sub64(after.address, vaddr))
       else
         && after.addressInitialized && Sub64(after.address, vaddr) == Sub64(after.offset, start)
         && (fits && before.addrAlign > 1 ==> after.offset % before.addrAlign == 0)
  }

  lemma OneLands(c: Cursor, seg: Segment, index: nat, start: nat)
    requires index < |c.sections| == |c.generated| && index != 0 && !c.generated[index]
    requires c.sections[index].Words() && c.sections[index].typ != SHT_NULL
    requires start < TWO64 && seg.vaddr < TWO64 && c.pos < TWO64 && PlacedOne(c, seg, index, start).Some?
    ensures var n := PlacedOne(c, seg, index, start).value;
            Landed(c.sections[index], n.sections[index], start, seg.vaddr, n.fits) && n.sections[index].Words()
  {
    var sec := c.sections[index];
    AlignIgnoresSize(sec, seg.vaddr, c.pos, start, c.filesize);
    var step := SectionAlign(sec, seg.vaddr, false, c.pos, start, 0).value;
    var after := PlacedOne(c, seg, index, start).value.sections[index];
    StoredAtAddress(sec, after, seg.vaddr, c.pos, start, step, index);
    if !sec.addressInitialized {
      PlacedAtAddress(seg.vaddr, Add64(c.pos, step), start);
      if sec.addrAlign > 1 { NextMultiple(c.pos, sec.addrAlign); }
    }
    hide Sub64, Add64;
    OwnFits(c, seg, index, start, step);
  }

  lemma OwnFits(c: Cursor, seg: Segment, index: nat, start: nat, step: nat)
    requires index < |c.sections| == |c.generated| && c.pos < TWO64
    ensures Stored(Measured(c, c.sections[index], seg.typ, step), seg.vaddr, index, start, step).fits ==>
              Add64(c.pos, step) == c.pos + step
  {
  }

  lemma NextMultiple(pos: nat, a: nat)
    requires a > 1
    ensures (pos + (a - pos % a) % a) % a == 0
  {
    var q := pos / a;
    assert pos == q * a + pos % a;
    if pos % a == 0 {
      DivMod(a, 1, 0);
      DivMod(a, q, 0);
    } else {
      DivMod(a, 0, a - pos % a);
      assert (q + 1) * a == q * a + a;
      DivMod(a, q + 1, 0);
    }
  }

  // ----- all sections of a segment

  ghost predicate AllProper(c: Cursor, ids: seq<nat>) {
    c.Lists(ids) && (forall i :: 0 <= i < |c.sections| ==> c.sections[i].Words())
    && (forall i :: i in ids ==> Proper(c, i))
  }

  /** Which of the listed sections the segment places itself. */
  ghost predicate OwnSections(generated: seq<bool>, ids: seq<nat>, own: seq<bool>) {
    && |own| == |ids|
    && forall j :: 0 <= j < |ids| ==> ids[j] < |generated| && (own[j] <==> !generated[ids[j]] && ids[j] !in ids[..j])
  }

  lemma OneProper(c: Cursor, seg: Segment, ids: seq<nat>, start: nat)
    requires AllProper(c, ids) && ids != [] && PlacedOne(c, seg, ids[0], start).Some?
    requires start < TWO64 && seg.vaddr < TWO64 && c.pos < TWO64
    ensures AllProper(PlacedOne(c, seg, ids[0], start).value, ids[1..])
    ensures PlacedOne(c, seg, ids[0], start).value.pos < TWO64
  {
    hide Sub64, SectionAlign, Section.Words;
    var i, n := ids[0], PlacedOne(c, seg, ids[0], start).value;
    assert i in ids;
    OneKeeps(c, seg, i, start);
    PosIsWord(c, seg, i, start);
    if c.sections[i].typ != SHT_NULL && !c.generated[i] {
      OneLands(c, seg, i, start);
    }
    OthersStay(c, seg, i, start);
    hide PlacedOne;
    assert n.sections[i].Words();
    forall k | k in ids[1..] ensures Proper(n, k) { assert k in ids; }
  }

  lemma OthersStay(c: Cursor, seg: Segment, index: nat, start: nat)
    requires index < |c.sections| == |c.generated| && PlacedOne(c, seg, index, start).Some?
    ensures var n := PlacedOne(c, seg, index, start).value;
            && (c.sections[index].typ == SHT_NULL || c.generated[index] ==> n.sections == c.sections)
            && n.sections == c.sections[index := n.sections[index]]
  {
    hide Sub64, SectionAlign, Add64;
  }

  lemma OwnOfRest(generated: seq<bool>, ids: seq<nat>, own: seq<bool>)
    requires ids != [] && OwnSections(generated, ids, own)
    ensures own[0] <==> !generated[ids[0]]
    ensures OwnSections(generated[ids[0] := true], ids[1..], own[1..])
  {
    var rest := ids[1..];
    forall j | 0 <= j < |rest|
      ensures own[1..][j] <==> !generated[ids[0] := true][rest[j]] && rest[j] !in rest[..j]
    {
      assert ids[..j + 1] == [ids[0]] + rest[..j];
      assert rest[j] == ids[j + 1];
    }
  }

  /** The sizes and the position after a segment are the tally over its sections as they then stand. */
  lemma {:induction false} AllCounted(c: Cursor, seg: Segment, ids: seq<nat>, start: nat, own: seq<bool>, t: Tally)
    requires AllProper(c, ids) && OwnSections(c.generated, ids, own) && Stands(c, t)
    requires start < TWO64 && seg.vaddr < TWO64 && c.pos < TWO64 && PlacedAll(c, seg, ids, start).Some?
    ensures var r := PlacedAll(c, seg, ids, start).value;
            Stands(r, TallyAll(r.sections, ids, own, start, seg.typ, t))
    decreases |ids|
  {
    hide PlacedOne, TallyOne, Stands, Section.Words;
    if ids != [] {
      assert ids[0] in ids;
      var n, r := PlacedOne(c, seg, ids[0], start).value, PlacedAll(c, seg, ids, start).value;
      OneCounted(c, seg, ids[0], start, t);
      OneKeeps(c, seg, ids[0], start);
      OneProper(c, seg, ids, start);
      OwnOfRest(c.generated, ids, own);
      AllKeep(n, seg, ids[1..], start);
      AllCounted(n, seg, ids[1..], start, own[1..], TallyOne(n.sections[ids[0]], own[0], start, seg.typ, t));
      assert r.sections[ids[0]] == n.sections[ids[0]];
    }
  }

  /** Every section a segment places itself has landed. */
  lemma {:induction false} AllLand(c: Cursor, seg: Segment, ids: seq<nat>, start: nat, i: nat)
    requires AllProper(c, ids) && start < TWO64 && seg.vaddr < TWO64 && c.pos < TWO64
    requires PlacedAll(c, seg, ids, start).Some? && i in ids && !c.generated[i] && c.sections[i].typ != SHT_NULL
    ensures var r := PlacedAll(c, seg, ids, start).value;
            Landed(c.sections[i], r.sections[i], start, seg.vaddr, r.fits)
    decreases |ids|
  {
    hide PlacedOne, Section.Words, Landed;
    assert ids[0] in ids;
    var n, r := PlacedOne(c, seg, ids[0], start).value, PlacedAll(c, seg, ids, start).value;
    OneKeeps(c, seg, ids[0], start);
    OneProper(c, seg, ids, start);
    OthersStay(c, seg, ids[0], start);
    if r.fits { AllGoOn(n, seg, ids[1..], start); }
    if ids[0] == i {
      OneLands(c, seg, i, start);
      AllKeep(n, seg, ids[1..], start);
      LandedWhenFewerFit(c.sections[i], n.sections[i], start, seg.vaddr, n.fits, r.fits);
    } else {
      AllLand(n, seg, ids[1..], start, i);
    }
  }

  lemma LandedWhenFewerFit(before: Section, after: Section, start: nat, vaddr: nat, fits: bool, fits': bool)
    requires Landed(before, after, start, vaddr, fits) && (fits' ==> fits)
    ensures Landed(before, after, start, vaddr, fits')
  {
  }

  // ----- whole layouts

  /** Section i is listed by one of the first k segments of the order. */
  ghost predicate ListedEarlier(segments: seq<Segment>, order: seq<nat>, k: nat, i: nat)
    requires k <= |order| && Within(order, |segments|)
  {
    exists m :: 0 <= m < k && i in segments[order[m]].sections
  }

  /** The sections that the segment in place k of the order lists first of all. */
  ghost function OwnIn(segments: seq<Segment>, order: seq<nat>, k: nat): (own: seq<bool>)
    requires k < |order| && Within(order, |segments|)
    ensures var ids := segments[order[k]].sections;
            && |own| == |ids|
            && forall j :: 0 <= j < |ids| ==>
                 (own[j] <==> !ListedEarlier(segments, order, k, ids[j]) && ids[j] !in ids[..j])
  {
    var ids := segments[order[k]].sections;
    seq(|ids|, j requires 0 <= j < |ids| => !ListedEarlier(segments, order, k, ids[j]) && ids[j] !in ids[..j])
  }

  ghost predicate SameButAlign(a: seq<Segment>, b: seq<Segment>) {
    |a| == |b| && forall g :: 0 <= g < |a| ==> b[g] == a[g].(align := b[g].align)
  }

  /** After the first k segments of the order. */
  ghost predicate Reached(input: Input, order: seq<nat>, k: nat, p: Plan)
    requires k <= |order| && Within(order, |input.segments|)
  {
    && Sound(p) && p.cursor.pos < TWO64 && |p.segments| == |input.segments|
    && |p.cursor.sections| == |p.cursor.generated| == |input.sections|
    && (forall g :: 0 <= g < |p.segments| ==> p.segments[g].sections == input.segments[g].sections)
    && (forall g :: 0 <= g < |p.segments| && g !in order[..k] ==>
          p.segments[g] == input.segments[g].(align := p.segments[g].align))
    && (forall i :: 0 <= i < |input.sections| ==>
          && (p.cursor.generated[i] <==> ListedEarlier(input.segments, order, k, i))
          && (!p.cursor.generated[i] ==> p.cursor.sections[i] == input.sections[i])
          && SameKind(input.sections[i], p.cursor.sections[i]) && p.cursor.sections[i].Words())
  }

  /** As ELF has it: section 0 is the null section. */
  ghost predicate NullFirst(sections: seq<Section>) {
    |sections| > 0 ==> sections[0].typ == SHT_NULL
  }

  lemma BeginsReached(input: Input, order: seq<nat>)
    requires input.Valid() && Within(order, |input.segments|)
    ensures Reached(input, order, 0, input.Begins())
  {
    hide MaxAlign, Section.Words, Segment.Words;
  }

  lemma {:induction false} AllWords(c: Cursor, seg: Segment, ids: seq<nat>, start: nat)
    requires AllProper(c, ids) && start < TWO64 && seg.vaddr < TWO64 && c.pos < TWO64
    requires PlacedAll(c, seg, ids, start).Some?
    ensures forall i :: 0 <= i < |c.sections| ==> PlacedAll(c, seg, ids, start).value.sections[i].Words()
    decreases |ids|
  {
    hide PlacedOne, Section.Words;
    if ids != [] {
      OneProper(c, seg, ids, start);
      AllWords(PlacedOne(c, seg, ids[0], start).value, seg, ids[1..], start);
    }
  }

  lemma StartIsWord(c: Cursor, seg: Segment, tableOffset: nat, tableSize: nat)
    requires c.Lists(seg.sections) && c.pos < TWO64 && tableOffset < TWO64
    requires forall i :: 0 <= i < |c.sections| ==> c.sections[i].Words()
    ensures var b := StartAt(c, seg, tableOffset, tableSize); b.start < TWO64 && b.cursor.pos < TWO64
  {
    hide PageStep;
    if seg.sections != [] { assert c.sections[seg.sections[0]].Words(); }
  }

  /** Before its turn, the segment's sections may be placed. */
  lemma ReadyForTurn(input: Input, order: seq<nat>, k: nat, p: Plan)
    requires input.Valid() && NullFirst(input.sections) && k < |order| && Within(order, |input.segments|)
    requires Reached(input, order, k, p)
    ensures var seg := p.segments[order[k]];
            var b := StartAt(p.cursor, seg, input.TableOffset(), input.TableSize());
            && AllProper(b.cursor, seg.sections) && b.start < TWO64 && b.cursor.pos < TWO64
            && OwnSections(b.cursor.generated, seg.sections, OwnIn(input.segments, order, k))
  {
    hide Section.Words, PageStep;
    var seg := p.segments[order[k]];
    assert p.cursor.Lists(seg.sections);
    StartIsWord(p.cursor, seg, input.TableOffset(), input.TableSize());
  }

  lemma OneMoreListed(segments: seq<Segment>, order: seq<nat>, k: nat, i: nat)
    requires k < |order| && Within(order, |segments|)
    ensures ListedEarlier(segments, order, k + 1, i)
            <==> ListedEarlier(segments, order, k, i) || i in segments[order[k]].sections
  {
    if i in segments[order[k]].sections { assert ListedEarlier(segments, order, k + 1, i); }
    if ListedEarlier(segments, order, k, i) {
      var m :| 0 <= m < k && i in segments[order[m]].sections;
    }
  }

  lemma NextReached(input: Input, order: seq<nat>, k: nat, p: Plan)
    requires input.Valid() && NullFirst(input.sections) && k < |order| && Within(order, |input.segments|)
    requires Reached(input, order, k, p) && order[k] !in order[..k]
    requires SegmentDone(p, order[k], input.TableOffset(), input.TableSize()).Some?
    ensures Reached(input, order, k + 1, SegmentDone(p, order[k], input.TableOffset(), input.TableSize()).value)
  {
    var g := order[k];
    var seg := p.segments[g];
    assert p.segments[g].vaddr == input.segments[g].vaddr && input.segments[g].Words();
    ReadyForTurn(input, order, k, p);
    hide PlacedOne, PlacedAll, StartAt, Section.Words, ListedEarlier, Input.Valid, OwnSections, OwnIn;
    var b := StartAt(p.cursor, seg, input.TableOffset(), input.TableSize());
    AllWords(b.cursor, seg, seg.sections, b.start);
    AllKeep(b.cursor, seg, seg.sections, b.start);
    AllGrow(b.cursor, seg, seg.sections, b.start);
    AllPosIsWord(b.cursor, seg, seg.sections, b.start);
    assert order[..k + 1] == order[..k] + [g];
    forall i | 0 <= i < |input.sections|
      ensures ListedEarlier(input.segments, order, k + 1, i)
              <==> ListedEarlier(input.segments, order, k, i) || i in seg.sections
    {
      OneMoreListed(input.segments, order, k, i);
    }
  }

  /** Loaded at offset 0: the segment also holds the file in front of its sections. */
  predicate FromZero(seg: Segment) { seg.offsetInitialized && seg.offset == 0 }

  /** A finished segment's sizes are the tally over its sections where they stand. */
  ghost predicate Accounts(sections: seq<Section>, before: Segment, after: Segment, own: seq<bool>, pos: nat) {
    && |own| == |after.sections| && (forall j :: 0 <= j < |own| ==> after.sections[j] < |sections|)
    && var t := TallyAll(sections, after.sections, own, after.offset, before.typ,
                         if FromZero(before) then Tally(pos, pos, pos) else Tally(0, 0, pos));
    && after.filesz == Wrap(t.file)
    && after.memsz == (if before.memsz < Wrap(t.memory) then Wrap(t.memory) else before.memsz)
    && (if FromZero(before) then after.offset == 0
        else own != [] ==> if own[0] then pos == after.offset else after.offset == sections[after.sections[0]].offset)
  }

  ghost predicate SizedAs(sections: seq<Section>, before: Segment, after: Segment, own: seq<bool>) {
    after.sections != [] ==> exists pos: nat :: Accounts(sections, before, after, own, pos)
  }

  ghost predicate LandedAll(initial: seq<Section>, sections: seq<Section>, seg: Segment, own: seq<bool>, fits: bool) {
    && |sections| == |initial| && |own| == |seg.sections|
    && forall j ::
        0 <= j < |own| && own[j] && seg.sections[j] < |initial| && initial[seg.sections[j]].typ != SHT_NULL ==>
         Landed(initial[seg.sections[j]], sections[seg.sections[j]], seg.offset, seg.vaddr, fits)
  }

  lemma StartTally(c: Cursor, seg: Segment, tableOffset: nat, tableSize: nat, own: seq<bool>)
    requires c.Lists(seg.sections) && c.pos < TWO64 && seg.sections != [] && OwnSections(c.generated, seg.sections, own)
    ensures var b := StartAt(c, seg, tableOffset, tableSize);
            && Stands(b.cursor, if FromZero(seg) then Tally(b.cursor.pos, b.cursor.pos, b.cursor.pos)
                                else Tally(0, 0, b.cursor.pos))
            && (if FromZero(seg) then b.start == 0
                else b.start == if own[0] then b.cursor.pos else c.sections[seg.sections[0]].offset)
  {
    hide PageStep;
  }

  /** The turn of the segment in place k of the order. */
  lemma TurnOf(input: Input, order: seq<nat>, k: nat, p: Plan)
    requires input.Valid() && NullFirst(input.sections) && k < |order| && Within(order, |input.segments|)
    requires Reached(input, order, k, p) && order[k] !in order[..k]
    requires SegmentDone(p, order[k], input.TableOffset(), input.TableSize()).Some?
    ensures var q := SegmentDone(p, order[k], input.TableOffset(), input.TableSize()).value;
            var own := OwnIn(input.segments, order, k);
            && SizedAs(q.cursor.sections, input.segments[order[k]], q.segments[order[k]], own)
            && LandedAll(input.sections, q.cursor.sections, q.segments[order[k]], own, q.cursor.fits)
  {
    var g := order[k];
    var seg, own := p.segments[g], OwnIn(input.segments, order, k);
    assert seg.vaddr == input.segments[g].vaddr && input.segments[g].Words();
    ReadyForTurn(input, order, k, p);
    hide PlacedOne, PlacedAll, StartAt, Section.Words, Input.Valid, TallyAll, Landed, OwnIn, Wrap;
    var b := StartAt(p.cursor, seg, input.TableOffset(), input.TableSize());
    var r := PlacedAll(b.cursor, seg, seg.sections, b.start).value;
    var q := SegmentDone(p, g, input.TableOffset(), input.TableSize()).value;
    AllKeep(b.cursor, seg, seg.sections, b.start);
    if seg.sections != [] {
      StartTally(p.cursor, seg, input.TableOffset(), input.TableSize(), own);
      var t := if FromZero(seg) then Tally(b.cursor.pos, b.cursor.pos, b.cursor.pos) else Tally(0, 0, b.cursor.pos);
      AllCounted(b.cursor, seg, seg.sections, b.start, own, t);
      assert own[0] <==> !p.cursor.generated[seg.sections[0]];
      assert Accounts(q.cursor.sections, input.segments[g], q.segments[g], own, b.cursor.pos);
    }
    forall j | 0 <= j < |own| && own[j] && input.sections[seg.sections[j]].typ != SHT_NULL
      ensures Landed(input.sections[seg.sections[j]], r.sections[seg.sections[j]], b.start, seg.vaddr, r.fits)
    {
      AllLand(b.cursor, seg, seg.sections, b.start, seg.sections[j]);
    }
  }

  // ----- nothing changes afterwards

  ghost predicate Settled(p: Plan, q: Plan, order: seq<nat>) {
    && Keeps(p.cursor, q.cursor) && |q.segments| == |p.segments|
    && forall g :: 0 <= g < |p.segments| && g !in order ==> q.segments[g] == p.segments[g]
  }

  lemma SegmentSettles(p: Plan, g: nat, tableOffset: nat, tableSize: nat)
    requires Sound(p) && g < |p.segments| && SegmentDone(p, g, tableOffset, tableSize).Some?
    ensures Settled(p, SegmentDone(p, g, tableOffset, tableSize).value, [g])
    ensures var q := SegmentDone(p, g, tableOffset, tableSize).value;
            && q.segments[g].sections == p.segments[g].sections
            && forall i :: i in p.segments[g].sections ==> q.cursor.generated[i]
  {
    hide PlacedAll, StartAt;
    var seg := p.segments[g];
    var b := StartAt(p.cursor, seg, tableOffset, tableSize);
    AllKeep(b.cursor, seg, seg.sections, b.start);
  }

  lemma {:induction false} SegmentsSettle(p: Plan, order: seq<nat>, tableOffset: nat, tableSize: nat)
    requires Sound(p) && Within(order, |p.segments|) && SegmentsDone(p, order, tableOffset, tableSize).Some?
    requires |p.cursor.sections| == |p.cursor.generated|
    ensures Settled(p, SegmentsDone(p, order, tableOffset, tableSize).value, order)
    decreases |order|
  {
    hide SegmentDone;
    if order != [] {
      var q := SegmentDone(p, order[0], tableOffset, tableSize).value;
      SegmentSettles(p, order[0], tableOffset, tableSize);
      SegmentsSettle(q, order[1..], tableOffset, tableSize);
      KeepsTrans(p.cursor, q.cursor, SegmentsDone(p, order, tableOffset, tableSize).value.cursor);
      hide Keeps;
      forall g | 0 <= g < |p.segments| && g !in order
        ensures SegmentsDone(p, order, tableOffset, tableSize).value.segments[g] == p.segments[g]
      {
        assert g !in order[1..] && g !in [order[0]];
      }
    }
  }

  lemma {:induction false} LooseSettles(c: Cursor, segments: seq<Segment>, from: nat, i: nat)
    requires from <= |c.sections| && i < |c.sections| && !InNoSegment(segments, i)
    ensures LooseFrom(c, segments, from).sections[i] == c.sections[i]
    decreases |c.sections| - from
  {
    hide InNoSegment, AlignedUp, Add64;
    if from < |c.sections| {
      LooseSettles(if InNoSegment(segments, from) then LooseOne(c, from) else c, segments, from + 1, i);
    }
  }

  lemma {:induction false} SegmentsJoin(p: Plan, a: seq<nat>, b: seq<nat>, tableOffset: nat, tableSize: nat)
    requires Sound(p) && Within(a, |p.segments|) && Within(b, |p.segments|) && Within(a + b, |p.segments|)
    ensures SegmentsDone(p, a + b, tableOffset, tableSize)
         == match SegmentsDone(p, a, tableOffset, tableSize)
            case None => None
            case Some(q) => SegmentsDone(q, b, tableOffset, tableSize)
    decreases |a|
  {
    hide SegmentDone;
    if a == [] {
      assert a + b == b;
    } else {
      assert (a + b)[1..] == a[1..] + b;
      match SegmentDone(p, a[0], tableOffset, tableSize)
      case None =>
      case Some(q) => SegmentsJoin(q, a[1..], b, tableOffset, tableSize);
    }
  }

  /** The plan after k segments, from which the rest goes on. */
  lemma {:induction false} ReachedAt(input: Input, order: seq<nat>, k: nat) returns (p: Plan)
    requires input.Valid() && NullFirst(input.sections) && Complete(order, |input.segments|) && k <= |order|
    requires SegmentsDone(input.Begins(), order, input.TableOffset(), input.TableSize()).Some?
    ensures Reached(input, order, k, p) && Within(order[k..], |p.segments|)
    ensures SegmentsDone(p, order[k..], input.TableOffset(), input.TableSize())
         == SegmentsDone(input.Begins(), order, input.TableOffset(), input.TableSize())
    ensures k < |order| ==> SegmentDone(p, order[k], input.TableOffset(), input.TableSize()).Some?
  {
    hide SegmentDone, Reached, Input.Begins, Section.Words, Segment.Words, Input.TableOffset, Input.TableSize;
    if k == 0 {
      p := input.Begins();
      BeginsReached(input, order);
      assert order[0..] == order;
    } else {
      var before := ReachedAt(input, order, k - 1);
      ReachedCounts(input, order, k - 1, before);
      OrderedOnce(order, |input.segments|, k - 1);
      NextReached(input, order, k - 1, before);
      assert order[k - 1..][1..] == order[k..];
      p := SegmentDone(before, order[k - 1], input.TableOffset(), input.TableSize()).value;
    }
    ReachedCounts(input, order, k, p);
  }

  lemma ReachedCounts(input: Input, order: seq<nat>, k: nat, p: Plan)
    requires k <= |order| && Within(order, |input.segments|) && Reached(input, order, k, p)
    ensures Sound(p) && |p.segments| == |input.segments|
    ensures |p.cursor.sections| == |p.cursor.generated| == |input.sections|
  {
  }

  lemma OrderedOnce(order: seq<nat>, n: nat, k: nat)
    requires Complete(order, n) && k < |order|
    ensures order[k] !in order[..k]
  {
  }

  lemma {:induction false} TallySame(s0: seq<Section>, s1: seq<Section>, ids: seq<nat>, own: seq<bool>, start: int,
                                     segmentType: nat, t: Tally)
    requires |own| == |ids| && forall j :: 0 <= j < |ids| ==> ids[j] < |s0| && ids[j] < |s1| && s0[ids[j]] == s1[ids[j]]
    ensures TallyAll(s0, ids, own, start, segmentType, t) == TallyAll(s1, ids, own, start, segmentType, t)
  {
    hide TallyOne;
    if ids != [] {
      TallySame(s0, s1, ids[1..], own[1..], start, segmentType, TallyOne(s0[ids[0]], own[0], start, segmentType, t));
    }
  }

  lemma SizedStays(s0: seq<Section>, s1: seq<Section>, before: Segment, after: Segment, own: seq<bool>)
    requires SizedAs(s0, before, after, own)
    requires |s1| == |s0| && forall i :: i in after.sections && i < |s0| ==> s1[i] == s0[i]
    ensures SizedAs(s1, before, after, own)
  {
    hide TallyAll, Wrap;
    if after.sections != [] {
      var pos: nat :| Accounts(s0, before, after, own, pos);
      TallySame(s0, s1, after.sections, own, after.offset, before.typ,
                if FromZero(before) then Tally(pos, pos, pos) else Tally(0, 0, pos));
      assert after.sections[0] in after.sections;
      assert Accounts(s1, before, after, own, pos);
    }
  }

  lemma LandedStays(initial: seq<Section>, s0: seq<Section>, s1: seq<Section>, seg: Segment, own: seq<bool>,
                    fits: bool, fits': bool)
    requires LandedAll(initial, s0, seg, own, fits) && (fits' ==> fits)
    requires |s1| == |s0| && forall i :: i in seg.sections && i < |s0| ==> s1[i] == s0[i]
    ensures LandedAll(initial, s1, seg, own, fits')
  {
    hide Landed;
    forall j | 0 <= j < |own| && own[j] && seg.sections[j] < |initial| && initial[seg.sections[j]].typ != SHT_NULL
      ensures Landed(initial[seg.sections[j]], s1[seg.sections[j]], seg.offset, seg.vaddr, fits')
    {
      LandedWhenFewerFit(initial[seg.sections[j]], s0[seg.sections[j]], seg.offset, seg.vaddr, fits, fits');
    }
  }

  /** In the finished layout, the sizes of every segment are the tally over its sections, and the
      sections it was the first to list stand where their addresses or alignments put them. */
  lemma SegmentsAreSized(input: Input, order: seq<nat>, k: nat)
    requires input.Valid() && NullFirst(input.sections) && Complete(order, |input.segments|) && k < |order|
    requires input.Laid(order).Some?
    ensures var r, own := input.Laid(order).value, OwnIn(input.segments, order, k);
            && SizedAs(r.cursor.sections, input.segments[order[k]], r.segments[order[k]], own)
            && LandedAll(input.sections, r.cursor.sections, r.segments[order[k]], own, r.cursor.fits)
  {
    hide SegmentsDone, SegmentDone, Reached, Input.Begins, Section.Words, Segment.Words, OwnIn, SizedAs, LandedAll,
         LooseFrom, Add64;
    var to, ts, g := input.TableOffset(), input.TableSize(), order[k];
    var p := ReachedAt(input, order, k);
    ReachedCounts(input, order, k, p);
    OrderedOnce(order, |input.segments|, k);
    TurnOf(input, order, k, p);
    var q := SegmentDone(p, g, to, ts).value;
    SegmentSettles(p, g, to, ts);
    var p' := ReachedAt(input, order, k + 1);
    RestOf(p, order, k, to, ts);
    var last := SegmentsDone(input.Begins(), order, to, ts).value;
    SegmentsSettle(q, order[k + 1..], to, ts);
    assert g !in order[k + 1..];
    var r, own := input.Laid(order).value, OwnIn(input.segments, order, k);
    ListsStay(input, order, k, p, q, last);
    forall i | i in q.segments[g].sections && i < |q.cursor.sections|
      ensures r.cursor.sections[i] == q.cursor.sections[i]
    {
      assert !InNoSegment(last.segments, i);
      LooseSettles(last.cursor, last.segments, 0, i);
    }
    if r.cursor.fits {
      LooseGoesOn(last.cursor, last.segments, 0);
      SegmentsFit(q, order[k + 1..], to, ts);
    }
    SizedStays(q.cursor.sections, r.cursor.sections, input.segments[g], r.segments[g], own);
    LandedStays(input.sections, q.cursor.sections, r.cursor.sections, r.segments[g], own, q.cursor.fits, r.cursor.fits);
  }

  lemma RestOf(p: Plan, order: seq<nat>, k: nat, tableOffset: nat, tableSize: nat)
    requires k < |order| && Sound(p) && Within(order, |p.segments|)
    requires SegmentsDone(p, order[k..], tableOffset, tableSize).Some?
    ensures var q := SegmentDone(p, order[k], tableOffset, tableSize);
            && q.Some? && Within(order[k + 1..], |p.segments|)
            && SegmentsDone(p, order[k..], tableOffset, tableSize)
               == SegmentsDone(q.value, order[k + 1..], tableOffset, tableSize)
  {
    assert order[k..][1..] == order[k + 1..];
  }

  lemma ListsStay(input: Input, order: seq<nat>, k: nat, p: Plan, q: Plan, last: Plan)
    requires k < |order| && Within(order, |input.segments|) && Reached(input, order, k, p)
    requires Settled(p, q, [order[k]]) && Settled(q, last, order[k + 1..]) && order[k] !in order[k + 1..]
    ensures |last.cursor.sections| == |q.cursor.sections| == |input.sections| && order[k] < |last.segments|
    ensures last.segments[order[k]] == q.segments[order[k]]
  {
  }

  // ----- what the tally comes to

  lemma {:induction false} TallyUnbacked(sections: seq<Section>, ids: seq<nat>, own: seq<bool>, start: int,
                                         segmentType: nat, t: Tally)
    requires |own| == |ids| && forall j :: 0 <= j < |ids| ==> ids[j] < |sections| && !sections[ids[j]].Backed()
    ensures TallyAll(sections, ids, own, start, segmentType, t).file == t.file
  {
    if ids != [] {
      TallyUnbacked(sections, ids[1..], own[1..], start, segmentType,
                    TallyOne(sections[ids[0]], own[0], start, segmentType, t));
    }
  }

  /** A shared section with bytes, and none with bytes behind it, decides where the segment ends. */
  lemma {:induction false} TallyShared(sections: seq<Section>, ids: seq<nat>, own: seq<bool>, start: int,
                                       segmentType: nat, t: Tally, j: nat)
    requires |own| == |ids| && (forall l :: 0 <= l < |ids| ==> ids[l] < |sections|) && j < |ids|
    requires sections[ids[j]].Backed() && !own[j] && forall l :: j < l < |ids| ==> !sections[ids[l]].Backed()
    ensures TallyAll(sections, ids, own, start, segmentType, t).file
         == sections[ids[j]].offset + sections[ids[j]].size - start
  {
    var next := TallyOne(sections[ids[0]], own[0], start, segmentType, t);
    if j == 0 {
      TallyUnbacked(sections, ids[1..], own[1..], start, segmentType, next);
    } else {
      TallyShared(sections, ids[1..], own[1..], start, segmentType, next, j - 1);
    }
  }

  ghost predicate AllBacked(sections: seq<Section>, ids: seq<nat>) {
    forall l :: 0 <= l < |ids| ==> ids[l] < |sections| && sections[ids[l]].Backed()
  }

  lemma {:induction false} TallyOwn(sections: seq<Section>, ids: seq<nat>, own: seq<bool>, start: int,
                                    segmentType: nat, t: Tally)
    requires |own| == |ids| && AllBacked(sections, ids) && forall l :: 0 <= l < |own| ==> own[l]
    ensures var r := TallyAll(sections, ids, own, start, segmentType, t);
            && r.file - r.pos == t.file - t.pos
            && (ids != [] ==> r.pos == sections[ids[|ids| - 1]].offset + sections[ids[|ids| - 1]].size)
  {
    if ids != [] {
      var next := TallyOne(sections[ids[0]], own[0], start, segmentType, t);
      TallyOwn(sections, ids[1..], own[1..], start, segmentType, next);
    }
  }

  lemma {:induction false} TallyMemory(sections: seq<Section>, ids: seq<nat>, own: seq<bool>, start: int,
                                       segmentType: nat, t: Tally)
    requires |own| == |ids| && AllBacked(sections, ids) && forall l :: 0 <= l < |ids| ==> sections[ids[l]].alloc
    ensures var r := TallyAll(sections, ids, own, start, segmentType, t); r.memory - r.file == t.memory - t.file
  {
    if ids != [] {
      TallyMemory(sections, ids[1..], own[1..], start, segmentType,
                  TallyOne(sections[ids[0]], own[0], start, segmentType, t));
    }
  }

  lemma {:induction false} TallyLast(sections: seq<Section>, ids: seq<nat>, own: seq<bool>, start: int,
                                     segmentType: nat, t: Tally)
    requires |own| == |ids| > 0 && forall l :: 0 <= l < |ids| ==> ids[l] < |sections|
    ensures var n := |ids| - 1;
            TallyAll(sections, ids, own, start, segmentType, t)
            == TallyOne(sections[ids[n]], own[n], start, segmentType,
                        TallyAll(sections, ids[..n], own[..n], start, segmentType, t))
  {
    hide TallyOne;
    var n := |ids| - 1;
    if n > 0 {
      assert ids[1..][..n - 1] == ids[..n][1..] && own[1..][..n - 1] == own[..n][1..];
      TallyLast(sections, ids[1..], own[1..], start, segmentType,
                TallyOne(sections[ids[0]], own[0], start, segmentType, t));
    }
  }

  // ----- the sizes of a finished segment

  /** The segment ends, in the file, with its last section. */
  ghost predicate EndsWith(seg: Segment, last: Section) {
    seg.filesz == Sub64(last.offset + last.size, seg.offset)
  }

  lemma WrapIsSub(x: nat, y: nat)
    requires y < TWO64
    ensures Wrap(x - y) == Sub64(x, y)
  {
    WrapEqual(x + TWO64 - y, x - y, 1);
  }

  /** A segment whose last section with bytes was placed by another ends with that section. */
  lemma SharedSegmentEnds(sections: seq<Section>, before: Segment, after: Segment, own: seq<bool>, j: nat)
    requires SizedAs(sections, before, after, own) && |own| == |after.sections| && j < |own| && !own[j]
    requires after.offset < TWO64 && forall l :: 0 <= l < |own| ==> after.sections[l] < |sections|
    requires sections[after.sections[j]].Backed()
    requires forall l :: j < l < |own| ==> !sections[after.sections[l]].Backed()
    ensures EndsWith(after, sections[after.sections[j]])
  {
    hide TallyAll, Wrap, Sub64;
    var pos: nat :| Accounts(sections, before, after, own, pos);
    var t := if FromZero(before) then Tally(pos, pos, pos) else Tally(0, 0, pos);
    TallyShared(sections, after.sections, own, after.offset, before.typ, t, j);
    WrapIsSub(sections[after.sections[j]].offset + sections[after.sections[j]].size, after.offset);
  }

  /** So does one that placed all its sections itself. */
  lemma OwnSegmentEnds(sections: seq<Section>, before: Segment, after: Segment, own: seq<bool>)
    requires SizedAs(sections, before, after, own) && |own| == |after.sections| > 0
    requires after.offset < TWO64 && AllBacked(sections, after.sections) && forall l :: 0 <= l < |own| ==> own[l]
    ensures EndsWith(after, sections[after.sections[|own| - 1]])
  {
    hide TallyAll, Wrap, Sub64;
    var pos: nat :| Accounts(sections, before, after, own, pos);
    var t := if FromZero(before) then Tally(pos, pos, pos) else Tally(0, 0, pos);
    TallyOwn(sections, after.sections, own, after.offset, before.typ, t);
    var last := sections[after.sections[|own| - 1]];
    WrapIsSub(last.offset + last.size, after.offset);
  }

  /** With all sections allocated and backed, it takes in memory what it takes in the file, or more
      if it was given more. */
  lemma AllocatedSegment(sections: seq<Section>, before: Segment, after: Segment, own: seq<bool>)
    requires SizedAs(sections, before, after, own) && |own| == |after.sections| > 0
    requires AllBacked(sections, after.sections)
    requires forall l :: 0 <= l < |own| ==> sections[after.sections[l]].alloc
    ensures after.memsz == if before.memsz < after.filesz then after.filesz else before.memsz
  {
    hide TallyAll, Wrap;
    var pos: nat :| Accounts(sections, before, after, own, pos);
    var t := if FromZero(before) then Tally(pos, pos, pos) else Tally(0, 0, pos);
    TallyMemory(sections, after.sections, own, after.offset, before.typ, t);
  }

  /** Backed, allocated sections of one kind and then a .bss: the file ends with the last backed one,
      memory with the .bss. */
  lemma TallyWithBss(sections: seq<Section>, ids: seq<nat>, own: seq<bool>, start: int, segmentType: nat, t: Tally)
    requires |own| == |ids| > 1 && (forall l :: 0 <= l < |own| ==> own[l] == own[0])
    requires var n := |ids| - 1;
      && AllBacked(sections, ids[..n]) && (forall l :: 0 <= l < n ==> sections[ids[l]].alloc)
      && ids[n] < |sections|
      && var bss := sections[ids[n]]; bss.typ == SHT_NOBITS && bss.alloc && (bss.tls ==> segmentType == PT_TLS)
    requires t.memory == t.file && (own[0] ==> t.pos == start + t.file)
    ensures var r, n := TallyAll(sections, ids, own, start, segmentType, t), |ids| - 1;
            && r.file == sections[ids[n - 1]].offset + sections[ids[n - 1]].size - start
            && r.memory == sections[ids[n]].offset + sections[ids[n]].size - start
  {
    var n := |ids| - 1;
    TallyLast(sections, ids, own, start, segmentType, t);
    hide TallyAll;
    TallyMemory(sections, ids[..n], own[..n], start, segmentType, t);
    if own[0] {
      TallyOwn(sections, ids[..n], own[..n], start, segmentType, t);
    } else {
      TallyShared(sections, ids[..n], own[..n], start, segmentType, t, n - 1);
    }
  }

  /** And with a .bss behind them it reaches in memory to the end of that. */
  lemma SegmentWithBss(sections: seq<Section>, before: Segment, after: Segment, own: seq<bool>)
    requires SizedAs(sections, before, after, own) && |own| == |after.sections| > 1 && after.offset < TWO64
    requires forall l :: 0 <= l < |own| ==> own[l] == own[0]
    requires var n := |own| - 1;
      && AllBacked(sections, after.sections[..n]) && (forall l :: 0 <= l < n ==> sections[after.sections[l]].alloc)
      && after.sections[n] < |sections|
      && var bss := sections[after.sections[n]];
         bss.typ == SHT_NOBITS && bss.alloc && (bss.tls ==> before.typ == PT_TLS)
    ensures var n := |own| - 1;
            var end := Sub64(sections[after.sections[n]].offset + sections[after.sections[n]].size, after.offset);
            && EndsWith(after, sections[after.sections[n - 1]])
            && after.memsz == if before.memsz < end then end else before.memsz
  {
    hide Wrap, Sub64, TallyAll, AllBacked;
    var pos: nat :| Accounts(sections, before, after, own, pos);
    var t := if FromZero(before) then Tally(pos, pos, pos) else Tally(0, 0, pos);
    TallyWithBss(sections, after.sections, own, after.offset, before.typ, t);
    var n := |own| - 1;
    var bss, last := sections[after.sections[n]], sections[after.sections[n - 1]];
    WrapIsSub(bss.offset + bss.size, after.offset);
    WrapIsSub(last.offset + last.size, after.offset);
  }
}
