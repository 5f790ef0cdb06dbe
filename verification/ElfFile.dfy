/** Section and segment records, and the arithmetic of single layout steps on 64-bit words. */
module ElfFile {
  import opened Basics
  import opened PowersOfTwo
  import opened Division

  const SHT_NULL := 0
  const SHT_NOBITS := 8
  const PT_PHDR := 6
  const PT_TLS := 7

  function Add64(x: nat, y: nat): nat { (x + y) % TWO64 }
  function Sub64(x: nat, y: nat): nat { (x + TWO64 - y % TWO64) % TWO64 }

  datatype Section = Section(
    typ: nat, alloc: bool, tls: bool, address: nat, addressInitialized: bool, size: nat, addrAlign: nat, offset: nat)
  {
    /** It occupies bytes of the file. */
    predicate Backed() { typ != SHT_NULL && typ != SHT_NOBITS }

    /** Its place in the file follows from its address. */
    predicate Addressed() { addressInitialized && Backed() && size != 0 }

    /** Alignments are powers of two, so at most 2^63. */
    ghost predicate Words() { address < TWO64 && size < TWO64 && addrAlign <= TWO64 / 2 && offset < TWO64 }

    /** It adds to a segment's memory size: allocated, and not .tbss outside a TLS segment. */
    predicate InMemory(segmentType: nat) { alloc && !(tls && segmentType != PT_TLS && typ == SHT_NOBITS) }
  }

  datatype Segment = Segment(
    typ: nat, offset: nat, offsetInitialized: bool, vaddr: nat, align: nat, filesz: nat, memsz: nat, sections: seq<nat>)
  {
    ghost predicate Words() { offset < TWO64 && vaddr < TWO64 && align <= TWO64 / 2 }

    function Alignment(): (a: nat)
      ensures a > 0
    {
      if align > 0 then align else 1
    }
  }

  /** How far the file position moves before a section of a segment; None is the abort. */
  function SectionAlign(sec: Section, vaddr: nat, generated: bool, pos: nat, start: nat, filesize: nat): Option<nat> {
    if !generated && sec.Addressed() then
      var reqOffset := Sub64(sec.address, vaddr);
      var curOffset := Sub64(pos, start);
      if reqOffset < curOffset then None else Some(reqOffset - curOffset)
    else if !generated && !sec.addressInitialized then
      var align := if sec.addrAlign == 0 then 1 else sec.addrAlign;
      Some((align - pos % align) % align)
    else if generated then Some(Sub64(Sub64(sec.offset, start), filesize))
    else Some(0)
  }

  /** The section is where its address says, relative to the segment. */
  ghost predicate AtAddress(sec: Section, segOffset: nat, vaddr: nat) {
    Sub64(sec.offset, segOffset) == Sub64(sec.address, vaddr)
  }

  lemma Sub64Congruent(x: nat, y: nat)
    ensures exists k: int :: Sub64(x, y) == x - y + k * TWO64
  {
    var a := x + TWO64 - y % TWO64;
    var k := 1 - a / TWO64 + y / TWO64;
    assert Sub64(x, y) == x - y + k * TWO64;
  }

  /** Moving from the current to the required offset lands on the address. */
  lemma MoveLandsOnAddress(address: nat, vaddr: nat, pos: nat, start: nat)
    requires pos < TWO64 && Sub64(pos, start) <= Sub64(address, vaddr)
    ensures Sub64(Add64(pos, Sub64(address, vaddr) - Sub64(pos, start)), start) == Sub64(address, vaddr)
  {
    var req, cur := Sub64(address, vaddr), Sub64(pos, start);
    var p := Add64(pos, req - cur);
    var m := (pos + (req - cur)) / TWO64;
    assert p == pos + req - cur - m * TWO64;
    Sub64Congruent(pos, start);
    var k: int :| cur == pos - start + k * TWO64;
    assert p == start + req - (k + m) * TWO64;
    Sub64Congruent(p, start);
    var n: int :| Sub64(p, start) == p - start + n * TWO64;
    SameModulo(Sub64(p, start), req, n - k - m);
  }

  lemma SameModulo(a: nat, b: nat, k: int)
    requires a < TWO64 && b < TWO64 && a == b + k * TWO64
    ensures a == b
  {
  }

  lemma Sub64Value(x: nat, y: nat)
    requires x < TWO64 && y < TWO64
    ensures Sub64(x, y) == if y <= x then x - y else x - y + TWO64
  {
  }

  lemma Add64Value(x: nat, y: nat)
    requires x < TWO64 && y < TWO64
    ensures Add64(x, y) == if x + y < TWO64 then x + y else x + y - TWO64
  {
  }

  /** The addressed branch takes the file position past 2^64 exactly when the section lies below
      its segment's address by no more than the segment's start, or so far above it that the
      target has no file offset; a position before the start never gets there. */
  lemma AddressedStepFits(sec: Section, vaddr: nat, pos: nat, start: nat)
    requires sec.Words() && vaddr < TWO64 && start < TWO64 && pos < TWO64
    requires sec.Addressed()
    requires SectionAlign(sec, vaddr, false, pos, start, 0).Some?
    ensures var step := SectionAlign(sec, vaddr, false, pos, start, 0).value;
            && step <= Sub64(sec.address, vaddr)
            && (pos + step < TWO64 <==> start > pos || start + Sub64(sec.address, vaddr) < TWO64)
            && (start + Sub64(sec.address, vaddr) < TWO64 <==>
                  if sec.address >= vaddr then start + (sec.address - vaddr) < TWO64 else start < vaddr - sec.address)
  {
    Sub64Value(sec.address, vaddr);
    Sub64Value(pos, start);
    hide Sub64;
  }

  /** Where a section that is at its address stands, seen from its segment's start: as far ahead,
      or, when its address is below the segment's, as far behind. */
  lemma OffsetFollowsAddress(sec: Section, segOffset: nat, vaddr: nat)
    requires sec.Words() && vaddr < TWO64 && segOffset < TWO64 && AtAddress(sec, segOffset, vaddr)
    requires if sec.address >= vaddr then segOffset + (sec.address - vaddr) < TWO64
        else vaddr - sec.address <= segOffset
    ensures sec.offset == segOffset + sec.address - vaddr
  {
    Sub64Value(sec.offset, segOffset);
    Sub64Value(sec.address, vaddr);
    hide Sub64;
  }

  lemma PlacedAtAddress(vaddr: nat, pos: nat, start: nat)
    requires pos < TWO64 && vaddr < TWO64 && start < TWO64
    ensures Sub64(Sub64(Add64(vaddr, pos), start), vaddr) == Sub64(pos, start)
  {
    var address := Sub64(Add64(vaddr, pos), start);
    var m := (vaddr + pos) / TWO64;
    Sub64Congruent(Add64(vaddr, pos), start);
    var k: int :| address == Add64(vaddr, pos) - start + k * TWO64;
    Sub64Congruent(address, vaddr);
    var n: int :| Sub64(address, vaddr) == address - vaddr + n * TWO64;
    Sub64Congruent(pos, start);
    var l: int :| Sub64(pos, start) == pos - start + l * TWO64;
    SameModulo(Sub64(address, vaddr), Sub64(pos, start), k - m + n - l);
  }

  /** From cur, the distance up to req modulo a. */
  function Ahead(req: nat, cur: nat, a: nat): nat
    requires req < a && cur < a
  {
    if req >= cur then req - cur else req + a - cur
  }

  lemma AheadReaches(req: nat, a: nat, pos: nat)
    requires req < a
    ensures (pos + Ahead(req, pos % a, a)) % a == req
  {
    var q, cur := pos / a, pos % a;
    assert pos == q * a + cur;
    SumReaches(a, q, cur, req);
  }

  lemma SumReaches(a: nat, q: nat, cur: nat, req: nat)
    requires cur < a && req < a
    ensures (q * a + cur + Ahead(req, cur, a)) % a == req
  {
    if req >= cur {
      DivMod(a, q, req);
    } else {
      DivMod(a, q + 1, req);
      assert q * a + a == (q + 1) * a;
    }
  }

  lemma UnsignedDifference(align: nat, req: nat, cur: nat)
    requires align <= TWO64 / 2 && req < align && cur < align
    ensures Add64(align, Sub64(req, cur)) == align + req - cur
  {
  }

  /** The code's expression for it, with its unsigned difference, for alignments up to 2^63. */
  lemma AheadAsCoded(align: nat, req: nat, cur: nat)
    requires 0 < align <= TWO64 / 2 && req < align && cur < align
    ensures Add64(align, Sub64(req, cur)) % align == Ahead(req, cur, align)
  {
    UnsignedDifference(align, req, cur);
    hide Add64, Sub64;
    if req >= cur {
      DivMod(align, 1, req - cur);
    } else {
      DivMod(align, 0, align + req - cur);
    }
  }

  /** The page-alignment step puts the position at the segment's address modulo the alignment. */
  lemma AlignedToAddress(vaddr: nat, align: nat, pos: nat)
    requires align <= TWO64 / 2
    ensures var a := if align > 0 then align else 1;
            var step := Add64(align, Sub64(vaddr % a, pos % a)) % a;
            step < a && (pos + step) % a == vaddr % a
  {
    hide Add64, Sub64, Ahead;
    if align > 0 {
      AheadAsCoded(align, vaddr % align, pos % align);
      AheadReaches(vaddr % align, align, pos);
    }
  }

  lemma StoredAtAddress(sec: Section, stored: Section, vaddr: nat, pos: nat, start: nat, sectionAlign: nat, index: nat)
    requires pos < TWO64 && vaddr < TWO64 && start < TWO64 && sec.Words()
    requires SectionAlign(sec, vaddr, false, pos, start, 0) == Some(sectionAlign)
    requires stored == (if sec.addressInitialized then sec
                        else sec.(address := Sub64(Add64(vaddr, Add64(pos, sectionAlign)), start),
                                  addressInitialized := true))
                       .(offset := if index != 0 then Add64(pos, sectionAlign) else sec.offset)
    ensures stored.Words()
    ensures index != 0 && stored.Backed() && stored.size != 0 ==> AtAddress(stored, start, vaddr)
  {
    if sec.addressInitialized {
      if sec.Backed() && sec.size != 0 { MoveLandsOnAddress(sec.address, vaddr, pos, start); }
    } else {
      PlacedAtAddress(vaddr, Add64(pos, sectionAlign), start);
    }
  }
}
