/**
 The live and the file resolver name the same thing: the same entry of the same symbol table, and
 the same byte of the file. Looking up a symbol commutes with moving the image.
 */
module SymbolsAgree {
  import opened LoadCommands
  import opened SymbolTables
  import opened Symbols
  import opened Words
  import opened Wrappers

  /** Memory holds byte `k` of the segment's file content, if the file has it, at its slid address. */
  ghost predicate MapsByte(memory: map<int, byte>, file: seq<byte>, c: Command, slide: i64, k: nat)
    requires IsSegment(c)
  {
    k < FileSize(c) && FileOffset(c) + k < |file| ==>
      var at: int := VmAddress(c) + slide + k;
      at in memory && memory[at] == file[FileOffset(c) + k]
  }

  ghost predicate MapsSegment(memory: map<int, byte>, file: seq<byte>, c: Command, slide: i64)
    requires IsSegment(c)
  {
    forall k: nat :: MapsByte(memory, file, c, slide, k)
  }

  ghost predicate MapsSegments(memory: map<int, byte>, file: seq<byte>, cs: seq<Command>, slide: i64) {
    forall c | c in cs && IsSegment(c) :: MapsSegment(memory, file, c, slide)
  }

  /** The process has loaded the file at `header`: every segment is mapped, the first of them with the load commands. */
  ghost predicate Loaded(process: Process, file: seq<byte>, header: u64) {
    && Commands(file).Some? && SlideOf(Commands(file).value, header).Some?
    && MapsSegments(process.memory, file, Commands(file).value, SlideOf(Commands(file).value, header).value)
    && FirstOf(Commands(file).value, MapsHeader).Some?
    && FileSize(FirstOf(Commands(file).value, MapsHeader).value) >= HEADER_SIZE + |Table(file)|
  }

  predicate Apart(c: Command, d: Command)
    requires IsSegment(c) && IsSegment(d)
  {
    VmAddress(c) + VmSize(c) <= VmAddress(d) || VmAddress(d) + VmSize(d) <= VmAddress(c)
  }

  /** No two segment commands claim a common VM address. */
  ghost predicate Disjoint(cs: seq<Command>) {
    forall i, j | 0 <= i < j < |cs| && IsSegment(cs[i]) && IsSegment(cs[j]) :: Apart(cs[i], cs[j])
  }

  /** Headers with the same words announce the same table. */
  lemma SameTable(a: seq<byte>, b: seq<byte>)
    requires HeaderFits(a) && HeaderFits(b)
    requires forall k | 0 <= k < HEADER_SIZE + U32At(a, 20) && k < |b| :: k < |a| && a[k] == b[k]
    ensures Commands(a) == Commands(b)
  {
    assert U32At(a, 16) == U32At(b, 16) && U32At(a, 20) == U32At(b, 20);
    assert Table(a) == Table(b);
  }

  lemma HeaderMapped(process: Process, file: seq<byte>, header: u64, k: nat)
    requires Loaded(process, file, header) && HeaderFits(file) && k < HEADER_SIZE + |Table(file)|
    ensures header + k in process.memory && process.memory[header + k] == file[k]
  {
    hide Commands, Split, U32At, U64At, FirstOf;
    var cs := Commands(file).value;
    var c := FirstOf(cs, MapsHeader).value;
    assert c in cs && MapsHeader(c);
    assert MapsSegment(process.memory, file, c, SlideOf(cs, header).value);
    assert VmAddress(c) + SlideOf(cs, header).value == header;
    assert MapsByte(process.memory, file, c, SlideOf(cs, header).value, k);
  }

  /** The load commands read from memory are those of the file. */
  lemma SameCommands(process: Process, file: seq<byte>, header: u64)
    requires process.Honest() && Loaded(process, file, header) && Commands(process.Image(header)).Some?
    ensures Commands(process.Image(header)) == Commands(file)
  {
    hide Split, Loaded;
    var image := process.Image(header);
    assert HeaderFits(file) by { LoadedHasHeader(process, file, header); }
    forall k: nat | k < HEADER_SIZE + |Table(file)| && k < |image| ensures image[k] == file[k] {
      HeaderMapped(process, file, header, k);
    }
    SameTable(file, image);
  }

  lemma LoadedHasHeader(process: Process, file: seq<byte>, header: u64)
    requires Loaded(process, file, header)
    ensures HeaderFits(file)
  {
  }

  /** A range that a mapped segment backs reads the same in memory and in the file. */
  lemma SameRange(process: Process, file: seq<byte>, c: Command, slide: i64, offset: nat, length: nat, at: u64)
    requires process.Honest() && IsSegment(c) && MapsSegment(process.memory, file, c, slide)
    requires FileRangeInSegment(offset, length, c).Some? && offset + length <= |file|
    requires at == VmAddress(c) + slide + FileRangeInSegment(offset, length, c).value
    requires process.Read(at, length).Some?
    ensures process.Read(at, length).value == file[offset..offset + length]
  {
    hide U64At;
    var relative := FileRangeInSegment(offset, length, c).value;
    forall k | 0 <= k < length ensures process.Read(at, length).value[k] == file[offset..offset + length][k] {
      assert MapsByte(process.memory, file, c, slide, relative + k);
    }
  }

  /** Both resolvers search the same bytes. */
  lemma SameEntry(process: Process, file: seq<byte>, symtab: Command, linkedit: Command, slide: i64, name: Name)
    requires process.Honest() && IsSymtab(symtab) && IsLinkedit(linkedit)
             && MapsSegment(process.memory, file, linkedit, slide)
    requires TablesInFile(file, symtab) && TablesInLinkedit(symtab, linkedit, slide).Some?
    requires LocateInMemory(process, TablesInLinkedit(symtab, linkedit, slide).value, symtab, name).Some?
    ensures LocateInMemory(process, TablesInLinkedit(symtab, linkedit, slide).value, symtab, name)
            == LocateInFile(file, symtab, name)
  {
    hide LocateIn, U32At, U64At, MapsSegment;
    var tables := TablesInLinkedit(symtab, linkedit, slide).value;
    var symbolBytes := NLIST_SIZE * SymbolCount(symtab);
    SameRange(process, file, linkedit, slide, SymbolOffset(symtab), symbolBytes, tables.symbols);
    SameRange(process, file, linkedit, slide, StringOffset(symtab), StringSize(symtab), tables.strings);
  }

  /** The file offset and the address of a symbol are two names of one byte. */
  lemma SameByte(memory: map<int, byte>, file: seq<byte>, cs: seq<Command>, slide: i64, address: u64)
    requires MapsSegments(memory, file, cs, slide)
    requires Translate(cs, address).Some? && Translate(cs, address).value < |file|
    ensures address + slide in memory && memory[address + slide] == file[Translate(cs, address).value]
  {
    hide U64At;
    var c := FirstOf(cs, c => Backs(c, address)).value;
    var k := address - VmAddress(c);
    assert MapsSegment(memory, file, c, slide);
    assert MapsByte(memory, file, c, slide, k);
  }

  /** Without overlap the first segment that backs an address is the only one. */
  lemma UniqueTranslation(cs: seq<Command>, address: u64, c: Command)
    requires Disjoint(cs) && c in cs && Backs(c, address)
    ensures Translate(cs, address) == Some(FileOffset(c) + (address - VmAddress(c)))
  {
    hide U64At;
    var p := d => Backs(d, address);
    assert p(c);
    var d := FirstOf(cs, p).value;
    var i :| 0 <= i < |cs| && cs[i] == c;
    var j :| 0 <= j < |cs| && cs[j] == d;
    assert !Apart(cs[i], cs[j]) && !Apart(cs[j], cs[i]);
    assert i == j;
  }

  /**
   When both resolvers succeed on an image and the file it was loaded from, they picked the same
   entry, and the address they give is where memory keeps the file's byte at the offset they give.
   */
  lemma ResolversAgree(process: Process, file: seq<byte>, header: u64, name: Name)
    requires process.Honest() && Loaded(process, file, header)
    requires LiveLookup(process, header, name).Some? && FileLookup(file, name).Some?
    ensures var (located, address) := LiveLookup(process, header, name).value;
            var (inFile, offset) := FileLookup(file, name).value;
            && located == inFile
            && address in process.memory && process.memory[address] == file[offset]
            && (Disjoint(Commands(file).value) ==>
                  forall c | c in Commands(file).value && Backs(c, located.entry.value) ::
                    offset == FileOffset(c) + (located.entry.value - VmAddress(c)))
  {
    hide Split, FirstOf, LocateInMemory, LocateInFile, U64At, U32At, TablesInLinkedit, Translate, MapsSegment, SlideOf;
    SameCommands(process, file, header);
    var cs := Commands(file).value;
    var symtab, linkedit, slide := LastOf(cs, IsSymtab).value, LastOf(cs, IsLinkedit).value, SlideOf(cs, header).value;
    SameEntry(process, file, symtab, linkedit, slide, name);
    var entry := LiveLookup(process, header, name).value.0.entry;
    SameByte(process.memory, file, cs, slide, entry.value);
    if Disjoint(cs) {
      forall c | c in cs && Backs(c, entry.value)
        ensures Translate(cs, entry.value) == Some(FileOffset(c) + (entry.value - VmAddress(c)))
      {
        UniqueTranslation(cs, entry.value, c);
      }
    }
  }

  // ---- relocation ----

  /** The second process is the first with everything readable moved by `d`. */
  ghost predicate Relocated(p: Process, q: Process, d: int)
    requires p.Honest() && q.Honest()
  {
    forall a: u64, b: u64 | b == a + d :: p.Image(a) == q.Image(b)
  }

  predicate Address(a: int) {
    0 <= a < TWO_64
  }

  lemma SameReads(p: Process, q: Process, a: u64, b: u64, length: nat)
    requires p.Honest() && q.Honest() && p.Image(a) == q.Image(b)
    ensures p.Read(a, length) == q.Read(b, length)
  {
    if 0 < length <= p.extent(a) {
      assert p.Read(a, length).value == p.Image(a)[..length];
      assert q.Read(b, length).value == q.Image(b)[..length];
    }
  }

  lemma MovedEntry(p: Process, q: Process, t: LiveTables, moved: LiveTables, symtab: Command, d: int, name: Name)
    requires p.Honest() && q.Honest() && Relocated(p, q, d) && IsSymtab(symtab)
    requires moved.symbols == t.symbols + d && moved.strings == t.strings + d
    ensures LocateInMemory(p, t, symtab, name) == LocateInMemory(q, moved, symtab, name)
  {
    hide LocateIn, U32At;
    SameReads(p, q, t.symbols, moved.symbols, NLIST_SIZE * SymbolCount(symtab));
    SameReads(p, q, t.strings, moved.strings, StringSize(symtab));
  }

  lemma MovedTables(symtab: Command, linkedit: Command, slide: i64, d: int, moved: i64)
    requires IsSymtab(symtab) && IsLinkedit(linkedit) && TablesInLinkedit(symtab, linkedit, slide).Some?
             && moved == slide + d
    requires var t := TablesInLinkedit(symtab, linkedit, slide).value;
             Address(t.base + d) && Address(t.symbols + d) && Address(t.strings + d)
    ensures var t := TablesInLinkedit(symtab, linkedit, slide).value;
            TablesInLinkedit(symtab, linkedit, moved) == Some(LiveTables(t.base + d, t.symbols + d, t.strings + d))
  {
    hide U32At, U64At;
  }

  /** The image, its tables and the symbol all have an address after the move. */
  predicate Movable(cs: seq<Command>, header: u64, address: u64, d: int)
    requires LastOf(cs, IsSymtab).Some? && LastOf(cs, IsLinkedit).Some? && SlideOf(cs, header).Some?
    requires TablesInLinkedit(LastOf(cs, IsSymtab).value, LastOf(cs, IsLinkedit).value, SlideOf(cs, header).value).Some?
  {
    var slide := SlideOf(cs, header).value;
    var t := TablesInLinkedit(LastOf(cs, IsSymtab).value, LastOf(cs, IsLinkedit).value, slide).value;
    && 0 < header + d && Address(header + d) && -0x8000_0000_0000_0000 <= slide + d < 0x8000_0000_0000_0000
    && Address(t.base + d) && Address(t.symbols + d) && Address(t.strings + d) && Address(address + d)
  }

  lemma MovedLookup(p: Process, q: Process, symtab: Command, linkedit: Command, slide: i64, moved: i64, d: int,
                    name: Name)
    requires p.Honest() && q.Honest() && Relocated(p, q, d) && IsSymtab(symtab) && IsLinkedit(linkedit)
             && moved == slide + d
    requires LookupWithSlide(p, symtab, linkedit, slide, name).Some?
    requires var t := TablesInLinkedit(symtab, linkedit, slide).value;
             Address(t.base + d) && Address(t.symbols + d) && Address(t.strings + d)
    requires Address(LookupWithSlide(p, symtab, linkedit, slide, name).value.1 + d)
    ensures var (located, address) := LookupWithSlide(p, symtab, linkedit, slide, name).value;
            LookupWithSlide(q, symtab, linkedit, moved, name) == Some((located, address + d))
  {
    hide LocateInMemory, TablesInLinkedit, Relocated, IsSymtab, IsLinkedit;
    MovedTables(symtab, linkedit, slide, d, moved);
    MovedEntry(p, q, TablesInLinkedit(symtab, linkedit, slide).value, TablesInLinkedit(symtab, linkedit, moved).value,
               symtab, d, name);
  }

  lemma MovedSlide(cs: seq<Command>, header: u64, header2: u64, d: int)
    requires SlideOf(cs, header).Some? && header2 == header + d
    requires -0x8000_0000_0000_0000 <= SlideOf(cs, header).value + d < 0x8000_0000_0000_0000
    ensures SlideOf(cs, header2) == Some(SlideOf(cs, header).value + d)
  {
  }

  /** A lookup that succeeds gives the moved address when the image is moved. */
  lemma LookupCommutesWithRelocation(p: Process, q: Process, header: u64, header2: u64, d: int, name: Name)
    requires p.Honest() && q.Honest() && Relocated(p, q, d) && LiveLookup(p, header, name).Some?
             && header2 == header + d
    requires Movable(Commands(p.Image(header)).value, header, LiveLookup(p, header, name).value.1, d)
    ensures var (located, address) := LiveLookup(p, header, name).value;
            LiveLookup(q, header2, name) == Some((located, address + d))
  {
    hide LookupWithSlide, TablesInLinkedit, Commands, LastOf, SlideOf;
    var cs := Commands(p.Image(header)).value;
    var symtab, linkedit, slide := LastOf(cs, IsSymtab).value, LastOf(cs, IsLinkedit).value, SlideOf(cs, header).value;
    assert p.Image(header) == q.Image(header2);
    MovedSlide(cs, header, header2, d);
    MovedLookup(p, q, symtab, linkedit, slide, slide + d, d, name);
  }
}
