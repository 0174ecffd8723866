/**
 Images with a symbol table, and round trips through both resolvers: for any file or process that begins
 with given load commands and holds the tables they announce, and for files written out in full.
 */
module ImageWriter {
  import opened CacheEncoding
  import opened CacheWriter
  import opened Images
  import opened Layout
  import opened LoadCommands
  import opened SymbolTables
  import opened Symbols
  import opened SymbolsAgree
  import opened Words
  import opened Wrappers

  // ---- the symbol tables ----

  predicate AllNamed(symbols: seq<Symbol>) {
    forall s | s in symbols :: IsName(s.name)
  }

  lemma EntryMatches(all: seq<Symbol>, m: nat, name: Name)
    requires m < |all| && |Flatten(PoolParts(all))| < TWO_32 && IsName(name) && IsName(all[m].name)
    ensures NLIST_SIZE * m + NLIST_SIZE <= |Flatten(NlistParts(all))|
    ensures var entry := ReadNList(Flatten(NlistParts(all)), NLIST_SIZE * m);
            && entry.value == all[m].value
            && (IsSymbol(entry, Flatten(PoolParts(all)), name) <==> IsSectionSymbol(all[m].kind) && all[m].name == name)
  {
    hide Flatten, NlistParts, PoolParts, ReadNList, IsSectionSymbol, Spells;
    SymbolRead(all, m);
    var entry := ReadNList(Flatten(NlistParts(all)), NLIST_SIZE * m);
    if Spells(Flatten(PoolParts(all)), entry.strx, name) {
      SpellsOnce(Flatten(PoolParts(all)), entry.strx, name, all[m].name);
    }
  }

  /** Searching the encoded tables is searching the list of symbols. */
  lemma {:induction false} TableFound(all: seq<Symbol>, k: nat, name: Name)
    requires k <= |all| && |Flatten(PoolParts(all))| < TWO_32 && IsName(name) && AllNamed(all)
    ensures NLIST_SIZE * |all| <= |Flatten(NlistParts(all))|
    ensures var nlists := Flatten(NlistParts(all));
            var found := FirstSymbol(nlists, Flatten(PoolParts(all)), k, |all|, name);
            match FindIn(all[k..], name)
            case None => found == None
            case Some(symbol) => found.Some? && ReadNList(nlists, NLIST_SIZE * found.value).value == symbol.value
    decreases |all| - k
  {
    hide Flatten, NlistParts, PoolParts, ReadNList, IsSectionSymbol, IsSymbol;
    NlistLength(all);
    if k < |all| {
      assert all[k] in all;
      EntryMatches(all, k, name);
      assert all[k..][1..] == all[k + 1..];
      TableFound(all, k + 1, name);
    }
  }

  /** The same as a located entry. */
  lemma LocatedFound(symbols: seq<Symbol>, name: Name)
    requires |StringPool(symbols)| < TWO_32 && IsName(name) && AllNamed(symbols)
    ensures |NlistTable(symbols)| == NLIST_SIZE * |symbols|
    ensures var located := LocateIn(NlistTable(symbols), StringPool(symbols), |symbols|, name);
            match FindIn(symbols, name)
            case None => located == None
            case Some(symbol) => located.Some? && located.value.entry.value == symbol.value
  {
    hide Flatten, NlistParts, PoolParts, ReadNList, FirstSymbol, FindIn;
    NlistLength(symbols);
    TableFound(symbols, 0, name);
    assert symbols[0..] == symbols;
  }

  function NlistTable(symbols: seq<Symbol>): seq<byte> {
    Flatten(NlistParts(symbols))
  }

  function StringPool(symbols: seq<Symbol>): (pool: seq<byte>)
    ensures |pool| > 0
  {
    assert PoolParts(symbols)[0] == [0];
    Flatten(PoolParts(symbols))
  }

  // ---- any file ----

  /** The symbol table command announces the tables of these symbols. */
  predicate Announces(t: Part, symbols: seq<Symbol>) {
    t.SymbolTable? && t.nsyms == |symbols| && t.strsize == |StringPool(symbols)|
  }

  /**
   In a file that begins with the parts and holds the announced tables, the file resolver finds the first
   symbol with the name, where the first segment that has its address keeps the byte.
   */
  lemma FileFinds(file: seq<byte>, parts: seq<Part>, symbols: seq<Symbol>, name: Name)
    requires Begins(file, parts) && IsName(name) && AllNamed(symbols)
    requires LastTable(parts).Some? && Announces(LastTable(parts).value, symbols)
    requires Holds(file, LastTable(parts).value.symoff, NlistTable(symbols))
    requires Holds(file, LastTable(parts).value.stroff, StringPool(symbols))
    ensures var found := FileLookup(file, name);
            match FindIn(symbols, name)
            case None => found == None
            case Some(symbol) =>
              match FilePlace(parts, symbol.value)
              case None => found == None
              case Some(place) =>
                if place < |file| then found.Some? && found.value.1 == place else found == None
  {
    hide U32At, U64At, Commands, LastOf, Translate, NlistTable, StringPool, LocateIn, FindIn, IsSymtab, Encode,
         FirstPart, LastPart, FilePlace, Begins;
    var t := LastTable(parts).value;
    CommandsAre(file, parts);
    Written(file, parts);
    TablesAre(parts);
    SymtabRead(t);
    LocatedFound(symbols, name);
    if symbols == [] {
      NothingIn(name);
    } else if FindIn(symbols, name).Some? {
      TranslateIs(parts, FindIn(symbols, name).value.value);
    }
  }

  lemma Written(file: seq<byte>, parts: seq<Part>)
    requires Begins(file, parts)
    ensures AllWellFormed(parts)
  {
  }

  lemma NothingIn(name: Name)
    ensures FindIn([], name) == None
  {
  }

  // ---- any process ----

  /** A range of the file is content of the link-edit segment. */
  predicate InLinkedit(l: Part, offset: nat, length: nat) {
    l.Segment? && l.fileoff <= offset && offset + length <= l.fileoff + l.filesize
  }

  /** Memory holds the bytes where the link-edit segment, moved by the slide, has that place of the file. */
  ghost predicate ReadsTable(process: Process, l: Part, slide: int, offset: nat, bytes: seq<byte>)
    requires process.Honest()
  {
    && InLinkedit(l, offset, |bytes|) && 0 <= l.vmaddr + slide
    && l.vmaddr + slide + (offset - l.fileoff) < TWO_64
    && process.Read(l.vmaddr + slide + (offset - l.fileoff), |bytes|) == Some(bytes)
  }

  /**
   In a process where an image begins with the parts and its link-edit segment is readable where the image was
   moved, the live resolver finds the first symbol with the name at its moved value.
   */
  lemma LiveFinds(process: Process, header: u64, parts: seq<Part>, symbols: seq<Symbol>, base: u64, name: Name)
    requires process.Honest() && header != 0 && Begins(process.Image(header), parts)
    requires IsName(name) && AllNamed(symbols) && Base(parts) == Some(base)
    requires -0x8000_0000_0000_0000 <= header - base < 0x8000_0000_0000_0000
    requires LastTable(parts).Some? && Announces(LastTable(parts).value, symbols) && LastLinkedit(parts).Some?
    requires ReadsTable(process, LastLinkedit(parts).value, header - base, LastTable(parts).value.symoff,
                        NlistTable(symbols))
    requires ReadsTable(process, LastLinkedit(parts).value, header - base, LastTable(parts).value.stroff,
                        StringPool(symbols))
    ensures var found := LiveLookup(process, header, name);
            match FindIn(symbols, name)
            case None => found == None
            case Some(symbol) =>
              var address := symbol.value + header - base;
              if 0 <= address < TWO_64 then found.Some? && found.value.1 == address else found == None
  {
    hide U32At, U64At, Commands, LastOf, FirstOf, SlideOf, NlistTable, StringPool, LocateIn, FindIn, IsSymtab,
         IsSegment, IsLinkedit, Encode, FirstPart, LastPart, Base, Begins;
    var t, l := LastTable(parts).value, LastLinkedit(parts).value;
    CommandsAre(process.Image(header), parts);
    Written(process.Image(header), parts);
    TablesAre(parts);
    SymtabRead(t);
    SegmentRead(l);
    SlideIs(parts, header);
    LocatedFound(symbols, name);
  }

  // ---- a file in full ----

  /**
   An image linked at `base`, for an executable behind `pageZero` bytes without content: other commands, contents
   behind the load commands, then the symbol tables.
   */
  datatype MachO = MachO(pageZero: u64, base: u64, others: seq<Part>, content: seq<byte>, symbols: seq<Symbol>)

  /** `__PAGEZERO`. */
  const PAGEZERO: Name := [0x5f, 0x5f, 0x50, 0x41, 0x47, 0x45, 0x5a, 0x45, 0x52, 0x4f]
  /** `__TEXT`. */
  const TEXT: Name := [0x5f, 0x5f, 0x54, 0x45, 0x58, 0x54]

  function PageZero(m: MachO): seq<Part> {
    if m.pageZero == 0 then [] else [Segment(PAGEZERO, 0, m.pageZero, 0, 0, [])]
  }

  /** The sizes of the commands do not depend on what they announce. */
  function TableSize(m: MachO): nat
    requires AllWellFormed(m.others)
  {
    (if m.pageZero == 0 then 0 else 72) + 72 + |Flatten(Encodings(m.others))| + 72 + 24
  }

  /** File content of the first segment: header, load commands and contents. */
  function TextSize(m: MachO): nat
    requires AllWellFormed(m.others)
  {
    32 + TableSize(m) + |m.content|
  }

  function StringsStart(m: MachO): nat
    requires AllWellFormed(m.others)
  {
    TextSize(m) + |NlistTable(m.symbols)|
  }

  function FileLength(m: MachO): nat
    requires AllWellFormed(m.others)
  {
    StringsStart(m) + |StringPool(m.symbols)|
  }

  /** The file is short enough for its 32-bit fields, its addresses for 64 bits, and the other commands are foreign. */
  predicate Fits(m: MachO) {
    && AllWellFormed(m.others) && (forall p | p in m.others :: p.Foreign?)
    && FileLength(m) < TWO_32 && m.base + FileLength(m) < TWO_64
  }

  function TextPart(m: MachO): Part
    requires Fits(m)
  {
    Segment(TEXT, m.base, TextSize(m), 0, TextSize(m), [])
  }

  function LinkeditPart(m: MachO): Part
    requires Fits(m)
  {
    var size := FileLength(m) - TextSize(m);
    Segment(LINKEDIT_SEGMENT, m.base + TextSize(m), size, TextSize(m), size, [])
  }

  function TablePart(m: MachO): Part
    requires Fits(m)
  {
    SymbolTable(TextSize(m), |m.symbols| % TWO_32, StringsStart(m), |StringPool(m.symbols)|)
  }

  function Parts(m: MachO): (parts: seq<Part>)
    requires Fits(m)
    ensures AllWellFormed(parts)
  {
    PartsFit(m);
    var parts := PageZero(m) + [TextPart(m)] + m.others + [LinkeditPart(m), TablePart(m)];
    assert AllWellFormed(parts) by { EachFits(m, parts); }
    parts
  }

  lemma EachFits(m: MachO, parts: seq<Part>)
    requires Fits(m) && parts == PageZero(m) + [TextPart(m)] + m.others + [LinkeditPart(m), TablePart(m)]
    ensures AllWellFormed(parts)
  {
    hide WellFormed, TextPart, LinkeditPart, TablePart;
    PartsFit(m);
  }

  function File(m: MachO): seq<byte>
    requires Fits(m)
  {
    Word(0xfeed_facf) + Zeros(12) + Word(|Parts(m)|) + Word(TableSize(m)) + Zeros(8) + Flatten(Encodings(Parts(m)))
    + m.content + NlistTable(m.symbols) + StringPool(m.symbols)
  }

  // ---- the file begins with its parts ----

  lemma {:induction false} FlattenBoth<T>(a: seq<seq<T>>, b: seq<seq<T>>)
    ensures Flatten(a + b) == Flatten(a) + Flatten(b)
  {
    if a == [] {
      assert a + b == b;
    } else {
      assert (a + b)[1..] == a[1..] + b;
      FlattenBoth(a[1..], b);
    }
  }

  lemma EncodingsBoth(a: seq<Part>, b: seq<Part>)
    requires AllWellFormed(a) && AllWellFormed(b)
    ensures AllWellFormed(a + b) && Encodings(a + b) == Encodings(a) + Encodings(b)
  {
    hide Encode, WellFormed;
  }

  lemma PartsFit(m: MachO)
    requires Fits(m)
    ensures AllWellFormed(PageZero(m)) && WellFormed(TextPart(m)) && WellFormed(LinkeditPart(m))
            && WellFormed(TablePart(m))
    ensures |Encode(TextPart(m))| == 72 && |Encode(LinkeditPart(m))| == 72 && |Encode(TablePart(m))| == 24
    ensures |Flatten(Encodings(PageZero(m)))| == if m.pageZero == 0 then 0 else 72
  {
    hide U32At, U64At, StringPool, NlistTable, SegmentHead, IsSegment, IsLinkedit, IsSymtab, IsCommand;
    SegmentRead(TextPart(m));
    SegmentRead(LinkeditPart(m));
    SymtabRead(TablePart(m));
    if m.pageZero != 0 {
      var zero := Segment(PAGEZERO, 0, m.pageZero, 0, 0, []);
      assert WellFormed(zero);
      SegmentRead(zero);
      assert Encodings([zero]) == [Encode(zero)];
      FlattenOne(Encode(zero));
    }
  }

  lemma FlattenOne<T>(a: seq<T>)
    ensures Flatten([a]) == a
  {
    assert [a][1..] == [];
  }

  /** The commands fill the table. */
  lemma PartsTable(m: MachO)
    requires Fits(m)
    ensures AllWellFormed(Parts(m)) && |Flatten(Encodings(Parts(m)))| == TableSize(m)
  {
    hide Encode, WellFormed, TextPart, LinkeditPart, TablePart, PageZero, Flatten;
    PartsFit(m);
    var text, linkedit, table := TextPart(m), LinkeditPart(m), TablePart(m);
    var front, middle := PageZero(m) + [text], PageZero(m) + [text] + m.others;
    EncodingsBoth(PageZero(m), [text]);
    EncodingsBoth(front, m.others);
    EncodingsBoth([linkedit], [table]);
    assert [linkedit] + [table] == [linkedit, table];
    EncodingsBoth(middle, [linkedit, table]);
    assert Encodings([text]) == [Encode(text)] && Encodings([linkedit]) == [Encode(linkedit)];
    assert Encodings([table]) == [Encode(table)];
    FlattenOne(Encode(text));
    FlattenOne(Encode(linkedit));
    FlattenOne(Encode(table));
    FlattenBoth(Encodings(PageZero(m)), Encodings([text]));
    FlattenBoth(Encodings(front), Encodings(m.others));
    FlattenBoth(Encodings([linkedit]), Encodings([table]));
    FlattenBoth(Encodings(middle), Encodings([linkedit, table]));
  }

  lemma FiveParts<T>(a: seq<T>, b: seq<T>, c: seq<T>, d: seq<T>, e: seq<T>)
    ensures Holds(a + b + c + d + e, 0, a) && Holds(a + b + c + d + e, |a|, b)
    ensures Holds(a + b + c + d + e, |a| + |b|, c) && Holds(a + b + c + d + e, |a| + |b| + |c|, d)
    ensures Holds(a + b + c + d + e, |a| + |b| + |c| + |d|, e)
  {
  }

  /** Where everything is in the file. */
  lemma FileHolds(m: MachO)
    requires Fits(m)
    ensures Begins(File(m), Parts(m)) && |File(m)| == FileLength(m)
    ensures Holds(File(m), TextSize(m), NlistTable(m.symbols)) && Holds(File(m), StringsStart(m), StringPool(m.symbols))
  {
    hide Word, Encodings, Flatten, NlistTable, StringPool, Parts;
    PartsTable(m);
    var front := Word(0xfeed_facf) + Zeros(12) + Word(|Parts(m)|) + Word(TableSize(m)) + Zeros(8);
    assert Holds(front, 0, Word(0xfeed_facf)) && Holds(front, 16, Word(|Parts(m)|));
    assert Holds(front, 20, Word(TableSize(m)));
    FiveParts(front, Flatten(Encodings(Parts(m))), m.content, NlistTable(m.symbols), StringPool(m.symbols));
    HoldsWithin(File(m), 0, front, 0, Word(0xfeed_facf));
    HoldsWithin(File(m), 0, front, 16, Word(|Parts(m)|));
    HoldsWithin(File(m), 0, front, 20, Word(TableSize(m)));
  }

  // ---- what its parts say ----

  lemma {:induction false} FirstPartIs(parts: seq<Part>, q: Part -> bool, i: nat)
    requires i < |parts| && q(parts[i]) && forall j | 0 <= j < i :: !q(parts[j])
    ensures FirstPart(parts, q) == Some(parts[i])
  {
    if i > 0 {
      assert !q(parts[0]);
      forall j | 0 <= j < i - 1 ensures !q(parts[1..][j]) { assert !q(parts[j + 1]); }
      FirstPartIs(parts[1..], q, i - 1);
    }
  }

  lemma {:induction false} NoFirstPart(parts: seq<Part>, q: Part -> bool)
    requires forall p | p in parts :: !q(p)
    ensures FirstPart(parts, q) == None
  {
    if parts != [] {
      assert parts[0] in parts;
      NoFirstPart(parts[1..], q);
    }
  }

  lemma EndOf(parts: seq<Part>, q: Part -> bool, last: Part, butLast: Part)
    requires |parts| >= 2 && parts[|parts| - 1] == last && parts[|parts| - 2] == butLast
    ensures q(last) ==> LastPart(parts, q) == Some(last)
    ensures !q(last) && q(butLast) ==> LastPart(parts, q) == Some(butLast)
  {
    var n := |parts| - 1;
    assert parts[..n][n - 1] == butLast;
  }

  /** Where its parts are in the list. */
  lemma PartsAt(m: MachO)
    requires Fits(m)
    ensures var (parts, z) := (Parts(m), |PageZero(m)|);
            && |parts| == z + 3 + |m.others| && parts[z] == TextPart(m)
            && parts[|parts| - 2] == LinkeditPart(m) && parts[|parts| - 1] == TablePart(m)
            && (forall j | 0 <= j < z :: parts[j] == Segment(PAGEZERO, 0, m.pageZero, 0, 0, []))
            && (forall j | z < j < |parts| - 2 :: parts[j].Foreign?)
  {
    hide TextPart, LinkeditPart, TablePart, WellFormed, AllWellFormed, NlistTable, StringPool, Encode, Encodings, Parts;
    PartsAre(m);
    Positions(PageZero(m), TextPart(m), m.others, LinkeditPart(m), TablePart(m));
    Between(Parts(m), |PageZero(m)|, m.others);
  }

  lemma PartsAre(m: MachO)
    requires Fits(m)
    ensures Parts(m) == PageZero(m) + [TextPart(m)] + m.others + [LinkeditPart(m), TablePart(m)]
  {
    hide TextPart, LinkeditPart, TablePart, WellFormed, AllWellFormed, NlistTable, StringPool, Encode, Encodings,
         PageZero;
  }

  lemma Between(parts: seq<Part>, z: nat, others: seq<Part>)
    requires |parts| == z + 3 + |others| && (forall p | p in others :: p.Foreign?)
    requires forall j | z < j < |parts| - 2 :: parts[j] == others[j - z - 1]
    ensures forall j | z < j < |parts| - 2 :: parts[j].Foreign?
  {
    forall j | z < j < |parts| - 2 ensures parts[j].Foreign? { assert others[j - z - 1] in others; }
  }

  lemma Positions<T>(a: seq<T>, b: T, c: seq<T>, d: T, e: T)
    ensures var all := a + [b] + c + [d, e];
            && |all| == |a| + |c| + 3 && all[|a|] == b && all[|all| - 2] == d && all[|all| - 1] == e
            && (forall j | 0 <= j < |a| :: all[j] == a[j])
            && (forall j | |a| < j < |all| - 2 :: all[j] == c[j - |a| - 1])
  {
  }

  lemma PartsSay(m: MachO)
    requires Fits(m)
    ensures LastTable(Parts(m)) == Some(TablePart(m)) && LastLinkedit(Parts(m)) == Some(LinkeditPart(m))
    ensures FirstPart(Parts(m), HoldsHeader) == Some(TextPart(m)) && Base(Parts(m)) == Some(m.base)
  {
    hide FirstPart, LastPart, Parts, NlistTable, StringPool, Encode, Encodings;
    PartsAt(m);
    EndOf(Parts(m), IsTable, TablePart(m), LinkeditPart(m));
    EndOf(Parts(m), IsLinkeditPart, TablePart(m), LinkeditPart(m));
    FirstPartIs(Parts(m), HoldsHeader, |PageZero(m)|);
  }

  /** The file keeps exactly the bytes of its own length from the base on, in order. */
  lemma PlacesAre(m: MachO, address: u64)
    requires Fits(m)
    ensures FilePlace(Parts(m), address) ==
            if m.base <= address < m.base + FileLength(m) then Some(address - m.base) else None
  {
    hide FirstPart, Parts, NlistTable, StringPool, Encode, Encodings;
    PartsAt(m);
    var parts, z, q := Parts(m), |PageZero(m)|, (p: Part) => BacksAddress(p, address);
    if m.base <= address < m.base + TextSize(m) {
      FirstPartIs(parts, q, z);
    } else if m.base + TextSize(m) <= address < m.base + FileLength(m) {
      FirstPartIs(parts, q, |parts| - 2);
    } else {
      forall p | p in parts ensures !q(p) {
        var j :| 0 <= j < |parts| && parts[j] == p;
      }
      NoFirstPart(parts, q);
    }
  }

  /**
   The file resolver finds the first symbol with the name, at its distance from the base, if that lies in
   the file.
   */
  lemma FileRoundTrip(m: MachO, name: Name)
    requires Fits(m) && IsName(name) && AllNamed(m.symbols)
    ensures var found := FileLookup(File(m), name);
            match FindIn(m.symbols, name)
            case None => found == None
            case Some(symbol) =>
              if m.base <= symbol.value < m.base + FileLength(m)
              then found.Some? && found.value.1 == symbol.value - m.base
              else found == None
  {
    hide FileLookup, FilePlace, Begins, Parts, File, NlistTable, StringPool, FindIn, LastPart, Encode, Encodings;
    FileHolds(m);
    PartsSay(m);
    ShortTables(m);
    FileFinds(File(m), Parts(m), m.symbols, name);
    if FindIn(m.symbols, name).Some? { PlacesAre(m, FindIn(m.symbols, name).value.value); }
  }

  lemma ShortTables(m: MachO)
    requires Fits(m)
    ensures Announces(TablePart(m), m.symbols) && |NlistTable(m.symbols)| == NLIST_SIZE * |m.symbols|
  {
    hide StringPool, Flatten;
    NlistLength(m.symbols);
  }

  // ---- the loaded image ----

  function ByteAt(file: seq<byte>, header: u64, a: int): byte
    requires header <= a < header + |file|
  {
    file[a - header]
  }

  /** The process that has the file in memory at `header` and nothing else. */
  function LoadedAt(file: seq<byte>, header: u64): Process {
    Process(map a: int | header <= a < header + |file| :: ByteAt(file, header, a),
            a => if header <= a < header + |file| then header + |file| - a else 0)
  }

  lemma LoadedHonest(file: seq<byte>, header: u64)
    requires header > 0
    ensures LoadedAt(file, header).Honest() && LoadedAt(file, header).Image(header) == file
  {
    var p := LoadedAt(file, header);
    forall a: u64 ensures Mapped(p.memory, a, p.extent(a)) {
    }
    assert p.Image(header) == file;
  }

  lemma LoadedSegment(m: MachO, header: u64, p: Part, slide: i64)
    requires Fits(m) && p.Segment? && WellFormed(p) && (p.filesize > 0 ==> p.vmaddr == m.base + p.fileoff)
    requires slide == header - m.base
    ensures IsSegment(Encode(p)) && MapsSegment(LoadedAt(File(m), header).memory, File(m), Encode(p), slide)
  {
    hide U64At, U32At, File, Encode, IsLinkedit, IsSymtab, IsCommand, IsSegment;
    SegmentRead(p);
    var memory, c := LoadedAt(File(m), header).memory, Encode(p);
    forall k: nat ensures MapsByte(memory, File(m), c, slide, k) {
      if k < FileSize(c) { assert VmAddress(c) + slide + k == header + (FileOffset(c) + k); }
    }
  }

  /** The process has loaded the file in the sense of the agreement theorem, and its slide is that from the base. */
  lemma IsLoaded(m: MachO, header: u64)
    requires Fits(m) && 0 < header && AddressDifference(header, m.base).Some?
    ensures Commands(File(m)) == Some(Encodings(Parts(m)))
    ensures SlideOf(Encodings(Parts(m)), header) == Some(header - m.base)
    ensures Loaded(LoadedAt(File(m), header), File(m), header)
  {
    hide U32At, U64At, Commands, File, MapsSegment, FirstOf, IsSegment, IsLinkedit, IsSymtab, Encode, Parts, NlistTable,
         StringPool, FirstPart, LastPart, Base, Begins, LoadedAt, WellFormed, SlideOf;
    FileHolds(m);
    PartsSay(m);
    CommandsAre(File(m), Parts(m));
    PartsTable(m);
    SlideIs(Parts(m), header);
    HeaderSegment(m);
    var slide: i64 := header - m.base;
    forall c | c in Encodings(Parts(m)) && IsSegment(c)
      ensures MapsSegment(LoadedAt(File(m), header).memory, File(m), c, slide)
    {
      var k :| 0 <= k < |Parts(m)| && c == Encode(Parts(m)[k]);
      assert Parts(m)[k] in Parts(m);
      PartRead(Parts(m)[k]);
      PartsAt(m);
      LoadedSegment(m, header, Parts(m)[k], slide);
    }
  }

  /** The segment with the header has the whole command table as content. */
  lemma HeaderSegment(m: MachO)
    requires Fits(m) && Begins(File(m), Parts(m)) && FirstPart(Parts(m), HoldsHeader) == Some(TextPart(m))
    requires |Flatten(Encodings(Parts(m)))| == TableSize(m)
    ensures HeaderFits(File(m)) && |Table(File(m))| == TableSize(m)
    ensures var c := FirstOf(Encodings(Parts(m)), MapsHeader);
            c.Some? && IsSegment(c.value) && FileSize(c.value) == TextSize(m)
  {
    hide U32At, U64At, Word, File, FirstOf, IsLinkedit, IsSymtab, Encode, Parts, NlistTable, StringPool, FirstPart,
         IsSegment, IsCommand;
    CommandsAre(File(m), Parts(m));
    WordHeld(File(m), 20, TableSize(m));
    forall x | x in Parts(m) ensures MapsHeader(Encode(x)) <==> HoldsHeader(x) {
      PartRead(x);
      if x.Segment? { SegmentRead(x); }
    }
    FirstEncoded(Parts(m), HoldsHeader, MapsHeader);
    SegmentRead(TextPart(m));
  }

  /** A range of the file reads as itself from the loaded image. */
  lemma ReadLoaded(file: seq<byte>, header: u64, at: nat, part: seq<byte>, address: u64)
    requires header > 0 && Holds(file, at, part) && |part| > 0 && address == header + at
    ensures LoadedAt(file, header).Honest() && LoadedAt(file, header).Read(address, |part|) == Some(part)
  {
    LoadedHonest(file, header);
    var p := LoadedAt(file, header);
    assert p.extent(address) == |file| - at;
    var bytes := p.Read(address, |part|).value;
    forall k | 0 <= k < |part| ensures bytes[k] == part[k] {
      assert bytes[k] == p.memory[address + k] == file[at + k] == file[at..at + |part|][k];
    }
    assert bytes == part;
  }

  /** The live resolver finds the first symbol with the name at its slid value, wherever the image was loaded. */
  lemma LiveRoundTrip(m: MachO, header: u64, name: Name)
    requires Fits(m) && IsName(name) && AllNamed(m.symbols)
    requires 0 < header && header + FileLength(m) < TWO_64 && AddressDifference(header, m.base).Some?
    ensures LoadedAt(File(m), header).Honest()
    ensures var found := LiveLookup(LoadedAt(File(m), header), header, name);
            match FindIn(m.symbols, name)
            case None => found == None
            case Some(symbol) =>
              var address := symbol.value + header - m.base;
              if 0 <= address < TWO_64 then found.Some? && found.value.1 == address else found == None
  {
    hide LiveLookup, Begins, Parts, File, NlistTable, StringPool, FindIn, LastPart, Encode, Encodings, LoadedAt, Base;
    LoadedHonest(File(m), header);
    FileHolds(m);
    PartsSay(m);
    ShortTables(m);
    if m.symbols == [] {
      NoSymbols(m, header, name);
    } else {
      var p := LoadedAt(File(m), header);
      ReadLoaded(File(m), header, TextSize(m), NlistTable(m.symbols), header + TextSize(m));
      ReadLoaded(File(m), header, StringsStart(m), StringPool(m.symbols), header + StringsStart(m));
      LiveFinds(p, header, Parts(m), m.symbols, m.base, name);
    }
  }

  /** Without symbols there is no table to read. */
  lemma NoSymbols(m: MachO, header: u64, name: Name)
    requires Fits(m) && m.symbols == [] && 0 < header && Begins(File(m), Parts(m))
    requires LastTable(Parts(m)) == Some(TablePart(m)) && LastLinkedit(Parts(m)) == Some(LinkeditPart(m))
    ensures LoadedAt(File(m), header).Honest() && FindIn(m.symbols, name) == None
    ensures LiveLookup(LoadedAt(File(m), header), header, name) == None
  {
    hide U32At, U64At, Commands, File, LastOf, SlideOf, Encode, Parts, StringPool, NlistTable, LastPart, LoadedAt,
        Begins,
         IsSegment, LocateIn, ApplySlide;
    LoadedHonest(File(m), header);
    Written(File(m), Parts(m));
    CommandsAre(File(m), Parts(m));
    TablesAre(Parts(m));
    SymtabRead(TablePart(m));
  }
}
