/**
 Which slots of an image are rebound, in terms of its sections: those of the lazy and non-lazy pointer
 sections, where the process has the data of the section of that name in the segment of that name.
 */
module RebindImages {
  import opened Bits
  import opened Images
  import opened Layout
  import opened LoadCommands
  import opened Memory
  import opened Pointers
  import opened Rebind
  import opened SymbolTables
  import opened Words
  import opened Wrappers

  /** `S_NON_LAZY_SYMBOL_POINTERS` and `S_LAZY_SYMBOL_POINTERS`, in the low byte of the flags. */
  predicate HoldsPointers(x: SectionInfo) {
    x.flags % 0x100 == 6 || x.flags % 0x100 == 7
  }

  /** `__auth_got`. */
  const AUTHENTICATED: Name := [0x5f, 0x5f, 0x61, 0x75, 0x74, 0x68, 0x5f, 0x67, 0x6f, 0x74]

  /** The slots of one section: the data that the process has for its segment and name, in pointers. */
  function SlotsOf(x: SectionInfo, data: SectionData): seq<SlotRange> {
    var (address, size) := data(x.segment, x.name);
    if HoldsPointers(x) && address != 0 && size != 0 && size % 8 == 0
    then [SlotRange(address, size / 8, x.name == AUTHENTICATED)] else []
  }

  function SectionSlots(sections: seq<SectionInfo>, data: SectionData): seq<SlotRange> {
    if sections == [] then []
    else SectionSlots(sections[..|sections| - 1], data) + SlotsOf(sections[|sections| - 1], data)
  }

  function PartSlots(p: Part, data: SectionData): seq<SlotRange> {
    if p.Segment? then SectionSlots(p.sections, data) else []
  }

  /** The slots of all sections, in the order of the commands. */
  function PointerSlots(parts: seq<Part>, data: SectionData): seq<SlotRange> {
    if parts == [] then []
    else PointerSlots(parts[..|parts| - 1], data) + PartSlots(parts[|parts| - 1], data)
  }

  predicate HasSection(parts: seq<Part>, x: SectionInfo) {
    exists p :: p in parts && p.Segment? && x in p.sections
  }

  // ---- reading the sections back ----

  lemma FieldName(name: Name)
    requires FitsField(name)
    ensures CopyName(Padded(name)) == name
  {
    var field := Padded(name);
    assert forall k | 0 <= k < |name| :: field[k] == name[k] && name[k] in name;
    if |name| < 16 { assert field[|name|] == 0; }
    match FindTerminator(field, 0)
    case None => assert |name| == 16;
    case Some(t) => assert t == |name|;
  }

  lemma LowByte(flags: u32)
    ensures And(flags, 0xff) == flags % 0x100
  {
    assert Pow2(8) == 0x100 by { Pow2Eight(); }
    AndLowOnes(flags, 8);
    ShrLow(flags, 8, 0x100);
  }

  lemma Pow2Eight()
    ensures Pow2(8) == 0x100
  {
    assert Pow2(4) == 16;
    assert Pow2(6) == 64;
  }

  /** What a section record says when read. */
  lemma RecordRead(x: SectionInfo, data: SectionData)
    requires FitsField(x.name) && FitsField(x.segment)
    ensures var record := SectionRecord(x);
            SlotsOf(x, data) == if IsPointerSection(record) then RangeList(record, data) else []
  {
    hide U32At, Word, Long, Padded, And, CopyName;
    var record := SectionRecord(x);
    assert record[..16] == Padded(x.name) && record[16..32] == Padded(x.segment);
    FieldName(x.name);
    FieldName(x.segment);
    assert Holds(record, 64, Word(x.flags));
    WordHeld(record, 64, x.flags);
    LowByte(x.flags);
  }

  /** Record `k` of a segment command is that of its section `k`. */
  lemma SectionIs(p: Part, k: nat)
    requires p.Segment? && WellFormed(p) && k < |p.sections|
    ensures SectionCount(Encode(p)) == |p.sections| && Section(Encode(p), k) == SectionRecord(p.sections[k])
  {
    hide U32At, U64At, SegmentHead, Flatten, SectionRecord, IsSegment, Offset, IsCommand;
    SegmentRead(p);
    var c, records := Encode(p), SectionRecords(p.sections);
    PartAt(records, k);
    OffsetFixed(records, 80, k);
    assert Holds(c, 72, Flatten(records));
    HoldsWithin(c, 72, Flatten(records), 80 * k, SectionRecord(p.sections[k]));
  }

  lemma {:induction false} SegmentRanges(p: Part, data: SectionData, n: nat)
    requires p.Segment? && WellFormed(p) && n <= |p.sections|
    ensures SectionCount(Encode(p)) == |p.sections|
    ensures CommandRanges(Encode(p), data, n) == SectionSlots(p.sections[..n], data)
  {
    hide Encode, SectionRecord, IsPointerSection, SlotsOf, RangeList, Section, SectionCount;
    CountIs(p);
    if n > 0 {
      SegmentRanges(p, data, n - 1);
      SectionIs(p, n - 1);
      assert p.sections[n - 1] in p.sections && p.sections[..n][..n - 1] == p.sections[..n - 1];
      RecordRead(p.sections[n - 1], data);
      OneMore(Encode(p), data, n);
    }
  }

  lemma CountIs(p: Part)
    requires p.Segment? && WellFormed(p)
    ensures SectionCount(Encode(p)) == |p.sections|
  {
    hide U32At, U64At, SegmentHead, Flatten, IsSegment, IsCommand, Encode;
    SegmentRead(p);
  }

  lemma OneMore(c: Command, data: SectionData, n: nat)
    requires 0 < n <= SectionCount(c)
    ensures CommandRanges(c, data, n)
            == CommandRanges(c, data, n - 1)
               + if IsPointerSection(Section(c, n - 1)) then RangeList(Section(c, n - 1), data) else []
  {
  }

  lemma PartRanges(p: Part, data: SectionData)
    requires WellFormed(p)
    ensures CommandRanges(Encode(p), data, SectionCount(Encode(p))) == PartSlots(p, data)
  {
    hide Encode, SectionSlots;
    PartRead(p);
    if p.Segment? {
      SegmentRanges(p, data, |p.sections|);
      assert p.sections[..|p.sections|] == p.sections;
    }
  }

  lemma {:induction false} PartsRanges(parts: seq<Part>, data: SectionData, n: nat)
    requires AllWellFormed(parts) && n <= |parts|
    ensures ImageRanges(Encodings(parts), data, n) == PointerSlots(parts[..n], data)
  {
    hide Encode, CommandRanges, PartSlots, SectionCount;
    if n > 0 {
      PartsRanges(parts, data, n - 1);
      assert parts[n - 1] in parts && parts[..n][..n - 1] == parts[..n - 1];
      PartRanges(parts[n - 1], data);
    }
  }

  /** What rebinding an image may touch are the slots of its pointer sections, and nothing else. */
  lemma RangesAre(file: seq<byte>, parts: seq<Part>, data: SectionData)
    requires Begins(file, parts)
    ensures RangesOf(file, data) == PointerSlots(parts, data)
  {
    hide Encode, Commands, ImageRanges, Flatten;
    CommandsAre(file, parts);
    PartsRanges(parts, data, |parts|);
    assert parts[..|parts|] == parts;
  }

  // ---- what is rebound ----

  lemma {:induction false} InSections(sections: seq<SectionInfo>, data: SectionData, r: SlotRange)
    ensures r in SectionSlots(sections, data) <==> exists x :: x in sections && r in SlotsOf(x, data)
  {
    hide SlotsOf;
    if sections != [] {
      var n := |sections| - 1;
      InSections(sections[..n], data, r);
      assert sections == sections[..n] + [sections[n]];
    }
  }

  /** A range is scanned exactly if it is that of a section. */
  lemma {:induction false} InParts(parts: seq<Part>, data: SectionData, r: SlotRange)
    ensures r in PointerSlots(parts, data) <==> exists x :: HasSection(parts, x) && r in SlotsOf(x, data)
  {
    hide SlotsOf, SectionSlots;
    if parts != [] {
      var n := |parts| - 1;
      InParts(parts[..n], data, r);
      assert parts == parts[..n] + [parts[n]];
      if parts[n].Segment? { InSections(parts[n].sections, data, r); }
      forall x ensures HasSection(parts, x) <==>
                       HasSection(parts[..n], x) || (parts[n].Segment? && x in parts[n].sections)
      {
        if HasSection(parts, x) {
          var p :| p in parts && p.Segment? && x in p.sections;
          assert p in parts[..n] || p == parts[n];
        }
      }
    }
  }

  /** Every store can succeed exactly if it can in every pointer section that the process has data for. */
  lemma CooperativeSections(m: Machine, file: seq<byte>, parts: seq<Part>, data: SectionData)
    requires Begins(file, parts)
    ensures AllCooperative(m, RangesOf(file, data)) <==>
            forall x, r | HasSection(parts, x) && r in SlotsOf(x, data) :: Cooperative(m, r)
  {
    hide PointerSlots, Begins, RangesOf, Cooperative, SlotsOf, HasSection;
    RangesAre(file, parts, data);
    forall r ensures r in PointerSlots(parts, data) <==> exists x :: HasSection(parts, x) && r in SlotsOf(x, data) {
      InParts(parts, data, r);
    }
  }

  /** What rebinding makes of a slot: the replacement, signed for the slot if need be, or what it was. */
  predicate SlotRebound(before: map<int, byte>, after: map<int, byte>, slot: u64, authenticated: bool, replacee: u64,
                        replacement: u64, sign: Signer) {
    && Mapped(before, slot, 8) && Mapped(after, slot, 8)
    && var (v, w) := (SlotValue(before, slot), SlotValue(after, slot));
       if v != 0 && Strip(v) == Strip(replacee)
       then w == if authenticated then sign(Strip(replacement), slot) else Strip(replacement)
       else w == v
  }

  /**
   Rebinding with every store succeeding: in each pointer section, a slot that resolved to the replacee holds
   the replacement, signed for the slot if the section is the authenticated one, and any other slot is as before.
   */
  lemma SectionsRebound(before: map<int, byte>, after: map<int, byte>, file: seq<byte>, parts: seq<Part>,
                        data: SectionData, replacee: u64, replacement: u64, sign: Signer,
                        x: SectionInfo, address: u64, size: u64, slot: u64)
    requires Begins(file, parts) && HasSection(parts, x) && (x.flags % 0x100 == 6 || x.flags % 0x100 == 7)
    requires Rebound(before, after, RangesOf(file, data), Job(Strip(replacee), replacement, sign), true)
    requires Rebind.Disjoint(PointerSlots(parts, data))
    requires data(x.segment, x.name) == (address, size) && address != 0 && size % 8 == 0
    requires address <= slot && slot + 8 <= address + size && (slot - address) % 8 == 0 && Mapped(before, slot, 8)
    ensures SlotRebound(before, after, slot, x.name == AUTHENTICATED, replacee, replacement, sign)
  {
    hide PointerSlots, Begins, SlotValue, Strip, RangesOf, Mapped, HasSection;
    var r, k := SlotRange(address, size / 8, x.name == AUTHENTICATED), (slot - address) / 8;
    assert r.Slot(k) == slot;
    RangesAre(file, parts, data);
    assert r in SlotsOf(x, data);
    InParts(parts, data, r);
    var job := Job(Strip(replacee), replacement, sign);
    assert AllDone(before, after, r, job, true);
    assert SlotDone(before, after, r, k, job, true);
    SameKeysMapped(before, after, slot);
    DoneIsRebound(before, after, r, k, replacee, replacement, sign);
  }

  lemma SameKeysMapped(before: map<int, byte>, after: map<int, byte>, slot: u64)
    requires after.Keys == before.Keys && Mapped(before, slot, 8)
    ensures Mapped(after, slot, 8)
  {
  }

  lemma DoneIsRebound(before: map<int, byte>, after: map<int, byte>, r: SlotRange, k: nat, replacee: u64,
                      replacement: u64, sign: Signer)
    requires SlotDone(before, after, r, k, Job(Strip(replacee), replacement, sign), true) && r.Slot(k) < TWO_64
    requires Mapped(before, r.Slot(k), 8) && Mapped(after, r.Slot(k), 8)
    ensures SlotRebound(before, after, r.Slot(k), r.authenticated, replacee, replacement, sign)
  {
    hide SlotValue, Strip, Mapped;
  }

  /** Bytes outside the data of pointer sections are as before, whatever happens. */
  lemma OthersUntouched(before: map<int, byte>, after: map<int, byte>, file: seq<byte>, parts: seq<Part>,
                        data: SectionData, job: Job, full: bool, a: int)
    requires Begins(file, parts) && Rebound(before, after, RangesOf(file, data), job, full) && a in before
    requires forall x | HasSection(parts, x) && (x.flags % 0x100 == 6 || x.flags % 0x100 == 7) ::
               !(data(x.segment, x.name).0 <= a < data(x.segment, x.name).0 + data(x.segment, x.name).1)
    ensures a in after && after[a] == before[a]
  {
    hide PointerSlots, Begins, RangesOf;
    RangesAre(file, parts, data);
    forall r | r in PointerSlots(parts, data) ensures !r.Covers(a) {
      InParts(parts, data, r);
      var x :| HasSection(parts, x) && r in SlotsOf(x, data);
    }
    assert !Covered(PointerSlots(parts, data), a);
    assert Untouched(before, after, a);
  }
}
