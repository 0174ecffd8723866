/**
 Mach-O images by what their load commands stand for: segments with their sections, symbol tables, and
 commands of other kinds. How such commands are written, and what is found in any file that begins with
 them, whatever follows.
 */
module Images {
  import opened Layout
  import opened LoadCommands
  import opened SymbolTables
  import opened Symbols
  import opened Words
  import opened Wrappers

  datatype SectionInfo = SectionInfo(name: Name, segment: Name, address: u64, size: u64, flags: u32)

  datatype Part =
    | Segment(name: Name, vmaddr: u64, vmsize: u64, fileoff: u64, filesize: u64, sections: seq<SectionInfo>)
    | SymbolTable(symoff: u32, nsyms: u32, stroff: u32, strsize: u32)
    | Foreign(cmd: u32, body: seq<byte>)

  /** `__LINKEDIT`. */
  const LINKEDIT_SEGMENT: Name := [0x5f, 0x5f, 0x4c, 0x49, 0x4e, 0x4b, 0x45, 0x44, 0x49, 0x54]

  predicate FitsField(name: Name) {
    IsName(name) && |name| <= 16
  }

  /** A foreign command has another kind than a segment or a symbol table, or is too short to be one. */
  predicate WellFormed(p: Part) {
    match p
    case Segment(name, _, _, _, _, sections) => (
      && FitsField(name) && 72 + 80 * |sections| < TWO_32
      && forall x | x in sections :: FitsField(x.name) && FitsField(x.segment))
    case SymbolTable(_, _, _, _) => true
    case Foreign(cmd, body) => (
      && 8 + |body| < TWO_32 && |body| % 8 == 0
      && (cmd == 0x19 ==> 8 + |body| < 72) && (cmd == 2 ==> 8 + |body| < 24))
  }

  // ---- writing ----

  function Padded(name: Name): (bytes: seq<byte>)
    requires |name| <= 16
    ensures |bytes| == 16
  {
    name + Zeros(16 - |name|)
  }

  function SectionRecord(x: SectionInfo): (bytes: seq<byte>)
    requires FitsField(x.name) && FitsField(x.segment)
    ensures |bytes| == 80
  {
    Padded(x.name) + Padded(x.segment) + Long(x.address) + Long(x.size) + Zeros(16) + Word(x.flags) + Zeros(12)
  }

  function SectionRecords(sections: seq<SectionInfo>): (parts: seq<seq<byte>>)
    requires forall x | x in sections :: FitsField(x.name) && FitsField(x.segment)
    ensures |parts| == |sections| && forall k | 0 <= k < |sections| :: parts[k] == SectionRecord(sections[k])
  {
    seq(|sections|, k requires 0 <= k < |sections| => SectionRecord(sections[k]))
  }

  function SegmentHead(p: Part): (bytes: seq<byte>)
    requires p.Segment? && WellFormed(p)
    ensures |bytes| == 72
  {
    Word(0x19) + Word(72 + 80 * |p.sections|) + Padded(p.name) + Long(p.vmaddr) + Long(p.vmsize)
    + Long(p.fileoff) + Long(p.filesize) + Zeros(8) + Word(|p.sections|) + Zeros(4)
  }

  function Encode(p: Part): Command
    requires WellFormed(p)
  {
    match p
    case Segment(_, _, _, _, _, sections) => SegmentHead(p) + Flatten(SectionRecords(sections))
    case SymbolTable(symoff, nsyms, stroff, strsize) =>
      Word(2) + Word(24) + Word(symoff) + Word(nsyms) + Word(stroff) + Word(strsize)
    case Foreign(cmd, body) => Word(cmd) + Word(8 + |body|) + body
  }

  predicate AllWellFormed(parts: seq<Part>) {
    forall p | p in parts :: WellFormed(p)
  }

  function Encodings(parts: seq<Part>): (cs: seq<Command>)
    requires AllWellFormed(parts)
    ensures |cs| == |parts| && forall k | 0 <= k < |parts| :: cs[k] == Encode(parts[k])
  {
    seq(|parts|, k requires 0 <= k < |parts| => Encode(parts[k]))
  }

  /** The file begins with a Mach-O header that announces these commands, and with the commands. */
  predicate Begins(file: seq<byte>, parts: seq<Part>) {
    && AllWellFormed(parts) && |Flatten(Encodings(parts))| < TWO_32
    && Holds(file, 0, Word(0xfeed_facf)) && Holds(file, 16, Word(|parts|))
    && Holds(file, 20, Word(|Flatten(Encodings(parts))|)) && Holds(file, 32, Flatten(Encodings(parts)))
  }

  // ---- reading one command back ----

  lemma SectionsLength(sections: seq<SectionInfo>)
    requires forall x | x in sections :: FitsField(x.name) && FitsField(x.segment)
    ensures |Flatten(SectionRecords(sections))| == 80 * |sections|
  {
    hide SectionRecord, Flatten;
    FlattenLength(SectionRecords(sections));
    OffsetFixed(SectionRecords(sections), 80, |sections|);
  }

  lemma HeadRead(p: Part)
    requires p.Segment? && WellFormed(p)
    ensures var h := SegmentHead(p);
            && U32At(h, 0) == 0x19 && U32At(h, 4) == 72 + 80 * |p.sections| && h[8..24] == Padded(p.name)
            && U64At(h, 24) == p.vmaddr && U64At(h, 32) == p.vmsize && U64At(h, 40) == p.fileoff
            && U64At(h, 48) == p.filesize && U32At(h, 64) == |p.sections|
  {
    hide U32At, U64At, Word, Long, Padded;
    var h, size := SegmentHead(p), 72 + 80 * |p.sections|;
    assert Holds(h, 0, Word(0x19)) && Holds(h, 4, Word(size)) && Holds(h, 24, Long(p.vmaddr));
    assert Holds(h, 32, Long(p.vmsize)) && Holds(h, 40, Long(p.fileoff)) && Holds(h, 48, Long(p.filesize));
    assert Holds(h, 64, Word(|p.sections|));
    WordHeld(h, 0, 0x19);
    WordHeld(h, 4, size);
    LongHeld(h, 24, p.vmaddr);
    LongHeld(h, 32, p.vmsize);
    LongHeld(h, 40, p.fileoff);
    LongHeld(h, 48, p.filesize);
    WordHeld(h, 64, |p.sections|);
  }

  /** A name field tells its name. */
  lemma PaddedTells(name: Name, other: Name)
    requires FitsField(name) && FitsField(other)
    ensures Padded(name) == Padded(other) <==> name == other
    ensures |other| < 16 ==> (Padded(name)[..|other|] == other && Padded(name)[|other|] == 0 <==> name == other)
  {
    if |name| < |other| {
      assert Padded(name)[|name|] == 0 && Padded(other)[|name|] == other[|name|];
      assert other[|name|] in other;
      assert Padded(name)[..|other|][|name|] == 0;
    } else if |other| < |name| {
      assert Padded(other)[|other|] == 0 && Padded(name)[|other|] == name[|other|];
      assert name[|other|] in name;
    } else {
      assert Padded(name)[..|name|] == name && Padded(other)[..|other|] == other;
    }
  }

  /** What a segment command says when read. */
  lemma SegmentRead(p: Part)
    requires p.Segment? && WellFormed(p)
    ensures var c := Encode(p);
            && IsSegment(c) && IsCommand(c) && !IsSymtab(c) && |c| == 72 + 80 * |p.sections|
            && VmAddress(c) == p.vmaddr && VmSize(c) == p.vmsize && FileOffset(c) == p.fileoff
            && FileSize(c) == p.filesize && U32At(c, 64) == |p.sections|
            && (IsLinkedit(c) <==> p.name == LINKEDIT_SEGMENT)
  {
    hide U32At, U64At, SegmentHead, Padded, IsName, Encode, Holds, WellFormed;
    HeadRead(p);
    HeadFirst(p);
    SameHead(Encode(p), SegmentHead(p));
    SegmentNamed(p);
    assert 72 + 80 * |p.sections| == 8 * (9 + 10 * |p.sections|);
  }

  /** The fields are read alike from the head and from the command. */
  lemma SameHead(c: seq<byte>, h: seq<byte>)
    requires |h| == 72 && Holds(c, 0, h)
    ensures |c| >= 72 && U32At(c, 0) == U32At(h, 0) && U32At(c, 4) == U32At(h, 4) && U32At(c, 64) == U32At(h, 64)
    ensures U64At(c, 24) == U64At(h, 24) && U64At(c, 32) == U64At(h, 32)
    ensures U64At(c, 40) == U64At(h, 40) && U64At(c, 48) == U64At(h, 48)
  {
    hide U32At, U64At;
    WordWithin(c, 0, h, 0);
    WordWithin(c, 0, h, 4);
    WordWithin(c, 0, h, 24);
    WordWithin(c, 0, h, 32);
    WordWithin(c, 0, h, 40);
    WordWithin(c, 0, h, 48);
    WordWithin(c, 0, h, 64);
  }

  lemma HeadFirst(p: Part)
    requires p.Segment? && WellFormed(p)
    ensures Holds(Encode(p), 0, SegmentHead(p)) && |Encode(p)| == 72 + 80 * |p.sections|
  {
    hide SegmentHead, Flatten, SectionRecords;
    SectionsLength(p.sections);
  }

  lemma SegmentNamed(p: Part)
    requires p.Segment? && WellFormed(p)
    ensures |Encode(p)| >= 72
    ensures Encode(p)[8..18] == LINKEDIT && Encode(p)[18] == 0 <==> p.name == LINKEDIT_SEGMENT
  {
    hide SegmentHead, Flatten, SectionRecords, Padded, U32At, U64At, Encode;
    var c, h := Encode(p), SegmentHead(p);
    HeadRead(p);
    HeadFirst(p);
    PaddedTells(p.name, LINKEDIT_SEGMENT);
    assert c[0..72] == h;
    assert c[8..18] == c[0..72][8..18] == h[8..24][..10] && c[18] == c[0..72][18] == h[8..24][10];
  }

  lemma SymtabRead(p: Part)
    requires p.SymbolTable?
    ensures var c := Encode(p);
            && IsSymtab(c) && IsCommand(c) && !IsSegment(c) && |c| == 24
            && SymbolOffset(c) == p.symoff && SymbolCount(c) == p.nsyms && StringOffset(c) == p.stroff
            && StringSize(c) == p.strsize
  {
    hide U32At, Word;
    var c := Encode(p);
    assert Holds(c, 0, Word(2)) && Holds(c, 4, Word(24)) && Holds(c, 8, Word(p.symoff));
    assert Holds(c, 12, Word(p.nsyms)) && Holds(c, 16, Word(p.stroff)) && Holds(c, 20, Word(p.strsize));
    WordHeld(c, 0, 2);
    WordHeld(c, 4, 24);
    WordHeld(c, 8, p.symoff);
    WordHeld(c, 12, p.nsyms);
    WordHeld(c, 16, p.stroff);
    WordHeld(c, 20, p.strsize);
  }

  lemma ForeignRead(p: Part)
    requires p.Foreign? && WellFormed(p)
    ensures IsCommand(Encode(p)) && !IsSegment(Encode(p)) && !IsSymtab(Encode(p))
  {
    hide U32At, Word;
    var c := Encode(p);
    assert Holds(c, 0, Word(p.cmd)) && Holds(c, 4, Word(8 + |p.body|));
    WordHeld(c, 0, p.cmd);
    WordHeld(c, 4, 8 + |p.body|);
  }

  /** A command is of the kind it was written as. */
  lemma PartRead(p: Part)
    requires WellFormed(p)
    ensures IsCommand(Encode(p)) && (IsSegment(Encode(p)) <==> p.Segment?) && (IsSymtab(Encode(p)) <==> p.SymbolTable?)
  {
    hide U32At, IsSegment, IsSymtab, IsCommand, Encode;
    match p
    case Segment(_, _, _, _, _, _) => SegmentRead(p);
    case SymbolTable(_, _, _, _) => SymtabRead(p);
    case Foreign(_, _) => ForeignRead(p);
  }

  // ---- reading the commands back ----

  /** The load commands of a file that begins with the parts are their encodings. */
  lemma CommandsAre(file: seq<byte>, parts: seq<Part>)
    requires Begins(file, parts)
    ensures Commands(file) == Some(Encodings(parts))
  {
    hide U32At, Word, Encode, Split, IsCommand;
    var cs := Encodings(parts);
    forall c | c in cs ensures IsCommand(c) {
      var k :| 0 <= k < |cs| && cs[k] == c;
      PartRead(parts[k]);
    }
    EnoughRoom(cs);
    WordHeld(file, 0, 0xfeed_facf);
    WordHeld(file, 16, |parts|);
    WordHeld(file, 20, |Flatten(cs)|);
    assert Table(file) == Flatten(cs);
    SplitExactly(Flatten(cs), |parts|, cs);
  }

  lemma {:induction false} EnoughRoom(cs: seq<Command>)
    requires forall c | c in cs :: IsCommand(c)
    ensures |cs| <= |Flatten(cs)|
  {
    if cs != [] {
      assert cs[0] in cs;
      EnoughRoom(cs[1..]);
    }
  }

  function FirstPart(parts: seq<Part>, q: Part -> bool): Option<Part> {
    if parts == [] then None else if q(parts[0]) then Some(parts[0]) else FirstPart(parts[1..], q)
  }

  function LastPart(parts: seq<Part>, q: Part -> bool): Option<Part> {
    if parts == [] then None
    else if q(parts[|parts| - 1]) then Some(parts[|parts| - 1])
    else LastPart(parts[..|parts| - 1], q)
  }

  function Encoded(p: Option<Part>): Option<Command>
    requires p.Some? ==> WellFormed(p.value)
  {
    match p case None => None case Some(part) => Some(Encode(part))
  }

  /** A command that is looked for by what its part is. */
  ghost predicate Tells(parts: seq<Part>, q: Part -> bool, p: Command -> bool)
    requires AllWellFormed(parts)
  {
    forall x | x in parts :: p(Encode(x)) <==> q(x)
  }

  /** The list without its first or its last part. */
  lemma Shorter(parts: seq<Part>, q: Part -> bool, p: Command -> bool)
    requires AllWellFormed(parts) && Tells(parts, q, p) && parts != []
    ensures AllWellFormed(parts[1..]) && Tells(parts[1..], q, p) && Encodings(parts)[1..] == Encodings(parts[1..])
    ensures WellFormed(parts[0]) && (p(Encode(parts[0])) <==> q(parts[0])) && Encodings(parts)[0] == Encode(parts[0])
    ensures var n := |parts| - 1;
            && AllWellFormed(parts[..n]) && Tells(parts[..n], q, p) && Encodings(parts)[..n] == Encodings(parts[..n])
            && WellFormed(parts[n]) && (p(Encode(parts[n])) <==> q(parts[n]))
            && Encodings(parts)[n] == Encode(parts[n])
    ensures forall x | x in parts[1..] || x in parts[..|parts| - 1] :: x in parts
  {
    hide Encode, WellFormed;
    assert parts[0] in parts && parts[|parts| - 1] in parts;
  }

  lemma {:induction false} FirstEncoded(parts: seq<Part>, q: Part -> bool, p: Command -> bool)
    requires AllWellFormed(parts) && Tells(parts, q, p)
    ensures FirstPart(parts, q).Some? ==> FirstPart(parts, q).value in parts && q(FirstPart(parts, q).value)
    ensures FirstOf(Encodings(parts), p) == Encoded(FirstPart(parts, q))
  {
    hide Encode, Tells, Encodings, AllWellFormed;
    if parts != [] {
      Shorter(parts, q, p);
      FirstEncoded(parts[1..], q, p);
    }
  }

  lemma {:induction false} LastEncoded(parts: seq<Part>, q: Part -> bool, p: Command -> bool)
    requires AllWellFormed(parts) && Tells(parts, q, p)
    ensures LastPart(parts, q).Some? ==> LastPart(parts, q).value in parts && q(LastPart(parts, q).value)
    ensures LastOf(Encodings(parts), p) == Encoded(LastPart(parts, q))
  {
    hide Encode, Tells, Encodings, AllWellFormed;
    if parts != [] {
      Shorter(parts, q, p);
      LastEncoded(parts[..|parts| - 1], q, p);
    }
  }

  // ---- what is found ----

  /** The segment has the start of the file as content, and so the header; `__PAGEZERO` has no content. */
  predicate HoldsHeader(p: Part) {
    p.Segment? && p.fileoff == 0 && p.filesize != 0
  }

  predicate IsTable(p: Part) {
    p.SymbolTable?
  }

  predicate IsLinkeditPart(p: Part) {
    p.Segment? && p.name == LINKEDIT_SEGMENT
  }

  /** Where the first segment with the header was linked. */
  function Base(parts: seq<Part>): Option<u64> {
    match FirstPart(parts, HoldsHeader)
    case None => None
    case Some(p) => if p.Segment? then Some(p.vmaddr) else None
  }

  /** The slide is how far the header is from where it was linked. */
  lemma SlideIs(parts: seq<Part>, header: u64)
    requires AllWellFormed(parts)
    ensures SlideOf(Encodings(parts), header) ==
            match Base(parts)
            case None => None
            case Some(base) =>
              if -0x8000_0000_0000_0000 <= header - base < 0x8000_0000_0000_0000 then Some(header - base) else None
  {
    hide Encode, U32At, U64At, IsSegment, IsSymtab, IsLinkedit;
    forall x | x in parts ensures MapsHeader(Encode(x)) <==> HoldsHeader(x) {
      PartRead(x);
      if x.Segment? { SegmentRead(x); }
    }
    FirstEncoded(parts, HoldsHeader, MapsHeader);
    if FirstPart(parts, HoldsHeader).Some? { SegmentRead(FirstPart(parts, HoldsHeader).value); }
  }

  /** The segment has a byte for the address, in memory and in the file. */
  predicate BacksAddress(p: Part, address: u64) {
    && p.Segment? && p.vmaddr <= address < p.vmaddr + p.vmsize && address < p.vmaddr + p.filesize
    && p.fileoff + (address - p.vmaddr) < TWO_64
  }

  /** Where the file keeps the byte for an address. */
  function FilePlace(parts: seq<Part>, address: u64): Option<nat> {
    match FirstPart(parts, p => BacksAddress(p, address))
    case None => None
    case Some(p) => if BacksAddress(p, address) then Some(p.fileoff + (address - p.vmaddr)) else None
  }

  lemma TranslateIs(parts: seq<Part>, address: u64)
    requires AllWellFormed(parts)
    ensures Translate(Encodings(parts), address) == FilePlace(parts, address)
  {
    hide Encode, U32At, U64At, IsSegment, IsSymtab, IsLinkedit;
    var q, b := (p: Part) => BacksAddress(p, address), (c: Command) => Backs(c, address);
    forall x | x in parts ensures b(Encode(x)) <==> q(x) {
      PartRead(x);
      if x.Segment? { SegmentRead(x); }
    }
    FirstEncoded(parts, q, b);
    if FirstPart(parts, q).Some? { SegmentRead(FirstPart(parts, q).value); }
  }

  function LastTable(parts: seq<Part>): Option<Part> {
    LastPart(parts, IsTable)
  }

  function LastLinkedit(parts: seq<Part>): Option<Part> {
    LastPart(parts, IsLinkeditPart)
  }

  /** The last symbol table and the last link-edit segment are the ones used. */
  lemma TablesAre(parts: seq<Part>)
    requires AllWellFormed(parts)
    ensures LastTable(parts).Some? ==> LastTable(parts).value in parts && LastTable(parts).value.SymbolTable?
    ensures LastLinkedit(parts).Some? ==> LastLinkedit(parts).value in parts && LastLinkedit(parts).value.Segment?
                                          && LastLinkedit(parts).value.name == LINKEDIT_SEGMENT
    ensures LastOf(Encodings(parts), IsSymtab) == Encoded(LastTable(parts))
    ensures LastOf(Encodings(parts), IsLinkedit) == Encoded(LastLinkedit(parts))
  {
    hide Encode, U32At, U64At, IsSegment, IsSymtab;
    forall x | x in parts
      ensures IsSymtab(Encode(x)) <==> x.SymbolTable?
      ensures IsLinkedit(Encode(x)) <==> x.Segment? && x.name == LINKEDIT_SEGMENT
    {
      PartRead(x);
      if x.Segment? { SegmentRead(x); }
    }
    LastEncoded(parts, IsTable, IsSymtab);
    LastEncoded(parts, IsLinkeditPart, IsLinkedit);
  }
}
