/**
 The dyld shared-cache resolver of RorkHookSharedCache.c over two byte strings: the main cache and
 the file with the local symbols, which may be the same or a sidecar.
 */
module SharedCache {
  import opened SymbolTables
  import opened Words
  import opened Wrappers

  const HEADER_SIZE := 456
  const IMAGE_SIZE := 32
  const INFO_SIZE := 24
  const SYMBOL_FILE_UUID := 400
  /** `dyld_v1`. */
  const MAGIC: seq<byte> := [0x64, 0x79, 0x6c, 0x64, 0x5f, 0x76, 0x31]

  // ---- bounded reads ----

  /** The position of a range that lies inside the view. */
  function DataAt(view: seq<byte>, offset: nat, length: nat): (at: Option<nat>)
    ensures at == if offset + length <= |view| then Some(offset) else None
  {
    if offset > |view| || length > |view| - offset then None else Some(offset)
  }

  /** `base + index * stride`, when neither operation overflows 64 bits. */
  function IndexedOffset(base: u64, index: u64, stride: nat): (result: Option<u64>)
    ensures result == if base + index * stride < TWO_64 then Some(base + index * stride) else None
  {
    var elementOffset: int := index * stride;
    if elementOffset >= TWO_64 then None
    else if base + elementOffset >= TWO_64 then None
    else Some(base + elementOffset)
  }

  function ReadRecord(view: seq<byte>, offset: nat, size: nat): (record: Option<seq<byte>>)
    requires size > 0
    ensures record.Some? <==> offset + size <= |view|
    ensures record.Some? ==> record.value == view[offset..offset + size]
  {
    match DataAt(view, offset, size)
    case None => None
    case Some(at) => Some(view[at..at + size])
  }

  // ---- the tables, as their contents say ----

  predicate IsCache(bytes: seq<byte>) {
    |bytes| >= HEADER_SIZE && bytes[..7] == MAGIC
  }

  datatype TableRange = TableRange(offset: nat, count: nat)

  /** The image table: the modern words decide, and the old ones are used when either of them is zero. */
  function ImageTable(main: seq<byte>): (table: Option<TableRange>)
    requires IsCache(main)
    ensures table.Some? ==> table.value.offset + IMAGE_SIZE * table.value.count <= |main|
  {
    var modern := U32At(main, 448) != 0 && U32At(main, 452) != 0;
    var offset: nat, count: nat := if modern then U32At(main, 448) else U32At(main, 24),
                                   if modern then U32At(main, 452) else U32At(main, 28);
    if offset == 0 || count == 0 || offset + IMAGE_SIZE * count > |main| then None else Some(TableRange(offset, count))
  }

  /** Image `i` has the install name `path`. */
  predicate HasPath(main: seq<byte>, table: TableRange, i: nat, path: Name)
    requires i < table.count && table.offset + IMAGE_SIZE * table.count <= |main|
  {
    Spells(main, U32At(main, table.offset + IMAGE_SIZE * i + 24), path)
  }

  function FirstImage(main: seq<byte>, table: TableRange, k: nat, path: Name): (i: Option<nat>)
    requires k <= table.count && table.offset + IMAGE_SIZE * table.count <= |main|
    ensures i.Some? ==> k <= i.value < table.count && HasPath(main, table, i.value, path)
    ensures i.Some? ==> forall j | k <= j < i.value :: !HasPath(main, table, j, path)
    ensures i.None? ==> forall j | k <= j < table.count :: !HasPath(main, table, j, path)
    decreases table.count - k
  {
    if k == table.count then None
    else if HasPath(main, table, k, path) then Some(k)
    else FirstImage(main, table, k + 1, path)
  }

  /** The local-symbol region, which a zero size extends to the end of the file. */
  function LocalRegion(symbols: seq<byte>): Option<seq<byte>>
    requires IsCache(symbols)
  {
    var base: nat, size: nat := U64At(symbols, 72), U64At(symbols, 80);
    if base == 0 || base > |symbols| then None
    else if size == 0 then Some(symbols[base..])
    else if base + size > |symbols| then None
    else Some(symbols[base..base + size])
  }

  /** The three tables of a local-symbol region. */
  datatype Info = Info(nlistOffset: nat, nlistCount: nat, stringsOffset: nat, stringsSize: nat, entriesOffset: nat,
                       entriesCount: nat)

  function ReadInfo(local: seq<byte>): Info
    requires |local| >= INFO_SIZE
  {
    Info(U32At(local, 0), U32At(local, 4), U32At(local, 8), U32At(local, 12), U32At(local, 16), U32At(local, 20))
  }

  /** Headers whose mapping table starts behind the sidecar's identifier go with the longer entries. */
  predicate Uses64BitEntry(main: seq<byte>)
    requires IsCache(main)
  {
    U32At(main, 16) >= SYMBOL_FILE_UUID
  }

  function EntrySize(wide: bool): nat {
    if wide then 16 else 12
  }

  /** The range of nlist indices of image `i`. */
  function NlistRange(local: seq<byte>, info: Info, wide: bool, i: nat): Option<TableRange> {
    var at := info.entriesOffset + i * EntrySize(wide);
    if i >= info.entriesCount || at + EntrySize(wide) > |local| then None
    else if wide then Some(TableRange(U32At(local, at + 8), U32At(local, at + 12)))
    else Some(TableRange(U32At(local, at + 4), U32At(local, at + 8)))
  }

  predicate TablesFit(local: seq<byte>, info: Info) {
    && info.nlistOffset + NLIST_SIZE * info.nlistCount <= |local|
    && info.stringsOffset + info.stringsSize <= |local|
  }

  function Nlists(local: seq<byte>, info: Info): (bytes: seq<byte>)
    requires TablesFit(local, info)
    ensures |bytes| == NLIST_SIZE * info.nlistCount
  {
    local[info.nlistOffset..info.nlistOffset + NLIST_SIZE * info.nlistCount]
  }

  function Strings(local: seq<byte>, info: Info): seq<byte>
    requires TablesFit(local, info)
  {
    local[info.stringsOffset..info.stringsOffset + info.stringsSize]
  }

  /** The symbol with the name in the nlist range of image `i`. */
  function LocalSymbol(local: seq<byte>, wide: bool, i: nat, name: Name): Option<NList> {
    if |local| < INFO_SIZE then None
    else
      var info := ReadInfo(local);
      match NlistRange(local, info, wide, i)
      case None => None
      case Some(range) =>
        if range.offset + range.count > info.nlistCount || !TablesFit(local, info) then None
        else
          match FirstSymbol(Nlists(local, info), Strings(local, info), range.offset, range.offset + range.count, name)
          case None => None
          case Some(j) => Some(ReadNList(Nlists(local, info), NLIST_SIZE * j))
  }

  /** First image with the path, first section symbol of that image with the name, slid address if it fits. */
  function Lookup(main: seq<byte>, symbols: seq<byte>, slide: u64, path: Name, name: Name): Option<u64> {
    if !IsCache(main) || !IsCache(symbols) then None
    else
      match ImageTable(main)
      case None => None
      case Some(table) =>
        match FirstImage(main, table, 0, path)
        case None => None
        case Some(i) =>
          match LocalRegion(symbols)
          case None => None
          case Some(local) =>
            match LocalSymbol(local, Uses64BitEntry(main), i, name)
            case None => None
            case Some(symbol) => if symbol.value + slide < TWO_64 then Some(slide + symbol.value) else None
  }

  // ---- the answer, declaratively ----

  ghost predicate IsFirstImage(main: seq<byte>, i: nat, path: Name)
    requires IsCache(main)
  {
    && ImageTable(main).Some? && i < ImageTable(main).value.count
    && HasPath(main, ImageTable(main).value, i, path)
    && forall k | 0 <= k < i :: !HasPath(main, ImageTable(main).value, k, path)
  }

  /** Every table of the region fits and the nlist range of image `i` lies inside the nlist table. */
  ghost predicate RangeFits(local: seq<byte>, wide: bool, i: nat) {
    && |local| >= INFO_SIZE && TablesFit(local, ReadInfo(local)) && NlistRange(local, ReadInfo(local), wide, i).Some?
    && var range := NlistRange(local, ReadInfo(local), wide, i).value;
       range.offset + range.count <= ReadInfo(local).nlistCount
  }

  function NlistAt(local: seq<byte>, j: nat): NList
    requires |local| >= INFO_SIZE && TablesFit(local, ReadInfo(local)) && j < ReadInfo(local).nlistCount
  {
    ReadNList(Nlists(local, ReadInfo(local)), NLIST_SIZE * j)
  }

  ghost predicate IsFirstSymbol(local: seq<byte>, wide: bool, i: nat, j: nat, name: Name)
    requires RangeFits(local, wide, i)
  {
    var info := ReadInfo(local);
    var range := NlistRange(local, info, wide, i).value;
    && range.offset <= j < range.offset + range.count
    && IsSymbol(NlistAt(local, j), Strings(local, info), name)
    && forall k | range.offset <= k < j :: !IsSymbol(NlistAt(local, k), Strings(local, info), name)
  }

  ghost predicate TablesLead(main: seq<byte>, symbols: seq<byte>, slide: u64, path: Name, name: Name, i: nat, j: nat,
                             address: u64) {
    && IsCache(main) && IsCache(symbols) && IsFirstImage(main, i, path)
    && LocalRegion(symbols).Some? && RangeFits(LocalRegion(symbols).value, Uses64BitEntry(main), i)
    && IsFirstSymbol(LocalRegion(symbols).value, Uses64BitEntry(main), i, j, name)
    && address == slide + NlistAt(LocalRegion(symbols).value, j).value
  }

  // ---- the same in the words of the two files ----

  /** Both headers are there; they begin with `dyld_v1`. */
  predicate HeadersThere(main: seq<byte>, symbols: seq<byte>) {
    && |main| >= 456 && |symbols| >= 456
    && main[..7] == [0x64, 0x79, 0x6c, 0x64, 0x5f, 0x76, 0x31] && symbols[..7] == main[..7]
  }

  /** The words that locate the image table: at 448 and 452, or at 24 and 28 if either of those is zero. */
  function ImagesOffset(main: seq<byte>): nat
    requires |main| >= 456
  {
    if U32At(main, 448) != 0 && U32At(main, 452) != 0 then U32At(main, 448) else U32At(main, 24)
  }

  function ImagesCount(main: seq<byte>): nat
    requires |main| >= 456
  {
    if U32At(main, 448) != 0 && U32At(main, 452) != 0 then U32At(main, 452) else U32At(main, 28)
  }

  predicate ImagesFit(main: seq<byte>)
    requires |main| >= 456
  {
    ImagesOffset(main) != 0 && ImagesCount(main) != 0 && ImagesOffset(main) + 32 * ImagesCount(main) <= |main|
  }

  predicate PathAt(main: seq<byte>, i: nat, path: Name)
    requires |main| >= 456 && ImagesFit(main) && i < ImagesCount(main)
  {
    Spells(main, U32At(main, ImagesOffset(main) + 32 * i + 24), path)
  }

  /** `local` is what the words at 72 and 80 cut out; a size of zero stands for the rest of the file. */
  predicate CutOut(symbols: seq<byte>, local: seq<byte>)
    requires |symbols| >= 456
  {
    var base: nat, size: nat := U64At(symbols, 72), U64At(symbols, 80);
    && base != 0 && base + size <= |symbols|
    && local == if size == 0 then symbols[base..] else symbols[base..base + size]
  }

  /** Its two tables lie inside the region. */
  predicate LocalTablesFit(local: seq<byte>) {
    && |local| >= 24 && U32At(local, 0) + 16 * U32At(local, 4) <= |local|
    && U32At(local, 8) + U32At(local, 12) <= |local|
  }

  /** Entry `i`, of 16 bytes if the mapping table starts at 400 or behind and else of 12, gives the stretch. */
  predicate Stretch(main: seq<byte>, local: seq<byte>, i: nat, start: nat, count: nat)
    requires |main| >= 456 && LocalTablesFit(local)
  {
    var size := if U32At(main, 16) >= 400 then 16 else 12;
    var entry := U32At(local, 16) + size * i;
    && i < U32At(local, 20) && entry + size <= |local|
    && start == U32At(local, entry + size - 8) && count == U32At(local, entry + size - 4)
    && start + count <= U32At(local, 4)
  }

  /**
   Symbol `k` is defined in a section, all of whose type bits are set, and its name is spelled in the
   string table.
   */
  predicate NamedAt(local: seq<byte>, k: nat, name: Name)
    requires LocalTablesFit(local) && k < U32At(local, 4)
  {
    var entry := U32At(local, 0) + 16 * k;
    && U32At(local, entry) != 0 && local[entry + 4] / 2 % 8 == 7
    && Spells(local[U32At(local, 8)..U32At(local, 8) + U32At(local, 12)], U32At(local, entry), name)
  }

  /** Symbol `j` is the first of the stretch of image `i` with the name. */
  ghost predicate FirstNamed(main: seq<byte>, local: seq<byte>, i: nat, j: nat, name: Name)
    requires |main| >= 456
    ensures FirstNamed(main, local, i, j, name) ==>
              |local| >= 24 && j < U32At(local, 4) && U32At(local, 0) + 16 * U32At(local, 4) <= |local|
  {
    && LocalTablesFit(local)
    && exists start: nat, count: nat ::
         && Stretch(main, local, i, start, count) && start <= j < start + count && NamedAt(local, j, name)
         && (forall k | start <= k < j :: !NamedAt(local, k, name))
  }

  /**
   The answer, in the words of the files: image `i` is the first with the path, symbol `j` the first of its
   stretch with the name, and `address` is its value plus the slide.
   */
  ghost predicate Denotes(main: seq<byte>, symbols: seq<byte>, slide: u64, path: Name, name: Name, i: nat, j: nat,
                          address: u64) {
    && HeadersThere(main, symbols) && ImagesFit(main)
    && i < ImagesCount(main) && PathAt(main, i, path) && (forall k | 0 <= k < i :: !PathAt(main, k, path))
    && exists local :: CutOut(symbols, local) && FirstNamed(main, local, i, j, name)
                       && address == slide + U64At(local, U32At(local, 0) + 16 * j + 8)
  }

  lemma SameImages(main: seq<byte>)
    requires IsCache(main)
    ensures ImageTable(main)
            == if ImagesFit(main) then Some(TableRange(ImagesOffset(main), ImagesCount(main))) else None
    ensures forall i: nat, path | ImagesFit(main) && i < ImagesCount(main) ::
              PathAt(main, i, path) == HasPath(main, ImageTable(main).value, i, path)
  {
    hide U32At, Spells;
  }

  lemma SameRegion(symbols: seq<byte>, local: seq<byte>)
    requires IsCache(symbols)
    ensures CutOut(symbols, local) <==> LocalRegion(symbols) == Some(local)
  {
    hide U64At;
  }

  lemma SameStretch(main: seq<byte>, local: seq<byte>, i: nat, start: nat, count: nat)
    requires IsCache(main)
    ensures LocalTablesFit(local) && Stretch(main, local, i, start, count) <==>
            RangeFits(local, Uses64BitEntry(main), i)
            && NlistRange(local, ReadInfo(local), Uses64BitEntry(main), i) == Some(TableRange(start, count))
  {
    hide U32At;
  }

  lemma SameSymbol(local: seq<byte>, k: nat, name: Name)
    requires |local| >= INFO_SIZE && TablesFit(local, ReadInfo(local)) && k < ReadInfo(local).nlistCount
    ensures LocalTablesFit(local) && k < U32At(local, 4)
    ensures NamedAt(local, k, name) == IsSymbol(NlistAt(local, k), Strings(local, ReadInfo(local)), name)
    ensures U64At(local, U32At(local, 0) + 16 * k + 8) == NlistAt(local, k).value
  {
    hide U32At, U64At, Spells, IsSectionSymbol;
    var start := U32At(local, 0);
    var end := start + 16 * U32At(local, 4);
    U32AtSlice(local, start, end, 16 * k);
    U64AtSlice(local, start, end, 16 * k + 8);
    assert local[start..end][16 * k + 4] == local[start + 16 * k + 4];
    SectionBits(local[start + 16 * k + 4]);
  }

  lemma FirstImageExactly(main: seq<byte>, i: nat, path: Name)
    requires IsCache(main) && ImageTable(main).Some?
    ensures FirstImage(main, ImageTable(main).value, 0, path) == Some(i) <==> IsFirstImage(main, i, path)
  {
    hide HasPath, ImageTable;
  }

  lemma LocalSymbolFound(local: seq<byte>, wide: bool, i: nat, name: Name) returns (j: nat)
    requires LocalSymbol(local, wide, i, name).Some?
    ensures RangeFits(local, wide, i) && IsFirstSymbol(local, wide, i, j, name)
    ensures |local| >= INFO_SIZE && TablesFit(local, ReadInfo(local)) && j < ReadInfo(local).nlistCount
    ensures LocalSymbol(local, wide, i, name).value == NlistAt(local, j)
  {
    hide U32At, IsSymbol, ReadNList;
    var info := ReadInfo(local);
    var range := NlistRange(local, info, wide, i).value;
    j := FirstSymbol(Nlists(local, info), Strings(local, info), range.offset, range.offset + range.count, name).value;
  }

  lemma LocalSymbolIs(local: seq<byte>, wide: bool, i: nat, j: nat, name: Name)
    requires RangeFits(local, wide, i) && IsFirstSymbol(local, wide, i, j, name)
    ensures |local| >= INFO_SIZE && TablesFit(local, ReadInfo(local)) && j < ReadInfo(local).nlistCount
    ensures LocalSymbol(local, wide, i, name) == Some(NlistAt(local, j))
  {
    hide U32At, IsSymbol, ReadNList;
    var info := ReadInfo(local);
    var range := NlistRange(local, info, wide, i).value;
    assert IsSymbol(NlistAt(local, j), Strings(local, info), name);
    forall m | range.offset <= m < j
      ensures !IsSymbol(ReadNList(Nlists(local, info), NLIST_SIZE * m), Strings(local, info), name) {
      assert !IsSymbol(NlistAt(local, m), Strings(local, info), name);
    }
    FirstSymbolIs(Nlists(local, info), Strings(local, info), range.offset, range.offset + range.count, j, name);
  }

  /** The lookup returns an address exactly when the tables it reads lead there. */
  lemma LookupLeads(main: seq<byte>, symbols: seq<byte>, slide: u64, path: Name, name: Name, address: u64)
    ensures Lookup(main, symbols, slide, path, name) == Some(address) <==>
            exists i, j :: TablesLead(main, symbols, slide, path, name, i, j, address)
  {
    hide ImageTable, FirstImage, LocalRegion, LocalSymbol, IsFirstImage, IsFirstSymbol, RangeFits, NlistAt, HasPath,
         Uses64BitEntry;
    if Lookup(main, symbols, slide, path, name) == Some(address) {
      var i := FirstImage(main, ImageTable(main).value, 0, path).value;
      var local := LocalRegion(symbols).value;
      FirstImageExactly(main, i, path);
      var j := LocalSymbolFound(local, Uses64BitEntry(main), i, name);
      assert TablesLead(main, symbols, slide, path, name, i, j, address);
    }
    if i, j :| TablesLead(main, symbols, slide, path, name, i, j, address) {
      TableOfFirst(main, i, path);
      FirstImageExactly(main, i, path);
      LocalSymbolIs(LocalRegion(symbols).value, Uses64BitEntry(main), i, j, name);
    }
  }

  lemma SameFirst(main: seq<byte>, local: seq<byte>, i: nat, j: nat, name: Name)
    requires IsCache(main)
    ensures FirstNamed(main, local, i, j, name) <==>
            RangeFits(local, Uses64BitEntry(main), i) && IsFirstSymbol(local, Uses64BitEntry(main), i, j, name)
    ensures FirstNamed(main, local, i, j, name) ==>
              U64At(local, U32At(local, 0) + 16 * j + 8) == NlistAt(local, j).value
  {
    hide U32At, U64At, NlistRange, Stretch, NamedAt, IsSymbol, Uses64BitEntry, ReadNList;
    if RangeFits(local, Uses64BitEntry(main), i) && IsFirstSymbol(local, Uses64BitEntry(main), i, j, name) {
      var range := NlistRange(local, ReadInfo(local), Uses64BitEntry(main), i).value;
      SameStretch(main, local, i, range.offset, range.count);
      forall k | range.offset <= k <= j
        ensures NamedAt(local, k, name) == IsSymbol(NlistAt(local, k), Strings(local, ReadInfo(local)), name)
      {
        SameSymbol(local, k, name);
      }
    }
    if FirstNamed(main, local, i, j, name) {
      var start: nat, count: nat :|
        && Stretch(main, local, i, start, count) && start <= j < start + count && NamedAt(local, j, name)
        && (forall k | start <= k < j :: !NamedAt(local, k, name));
      SameStretch(main, local, i, start, count);
      forall k | start <= k <= j
        ensures NamedAt(local, k, name) == IsSymbol(NlistAt(local, k), Strings(local, ReadInfo(local)), name)
      {
        SameSymbol(local, k, name);
      }
      SameSymbol(local, j, name);
    }
  }

  /** The words lead where the tables lead. */
  lemma SameAnswer(main: seq<byte>, symbols: seq<byte>, slide: u64, path: Name, name: Name, i: nat, j: nat,
                   address: u64)
    ensures Denotes(main, symbols, slide, path, name, i, j, address)
            <==> TablesLead(main, symbols, slide, path, name, i, j, address)
  {
    hide IsFirstSymbol, RangeFits, NlistAt, HasPath, PathAt, ImageTable, ImagesFit, ImagesOffset, ImagesCount, CutOut,
         LocalRegion, FirstNamed, Uses64BitEntry, U32At, U64At;
    if HeadersThere(main, symbols) {
      SameImages(main);
      if TablesLead(main, symbols, slide, path, name, i, j, address) {
        SameRegion(symbols, LocalRegion(symbols).value);
        SameFirst(main, LocalRegion(symbols).value, i, j, name);
      }
      if Denotes(main, symbols, slide, path, name, i, j, address) {
        var local :| CutOut(symbols, local) && FirstNamed(main, local, i, j, name)
                     && address == slide + U64At(local, U32At(local, 0) + 16 * j + 8);
        SameRegion(symbols, local);
        SameFirst(main, local, i, j, name);
      }
    }
  }

  /** On every pair of byte strings, the lookup returns an address exactly when the words of the files denote it. */
  lemma LookupExactly(main: seq<byte>, symbols: seq<byte>, slide: u64, path: Name, name: Name, address: u64)
    ensures Lookup(main, symbols, slide, path, name) == Some(address) <==>
            exists i, j :: Denotes(main, symbols, slide, path, name, i, j, address)
  {
    hide Lookup, Denotes, TablesLead;
    LookupLeads(main, symbols, slide, path, name, address);
    forall i: nat, j: nat
      ensures Denotes(main, symbols, slide, path, name, i, j, address)
              <==> TablesLead(main, symbols, slide, path, name, i, j, address)
    {
      SameAnswer(main, symbols, slide, path, name, i, j, address);
    }
  }

  lemma TableOfFirst(main: seq<byte>, i: nat, path: Name)
    requires IsCache(main) && IsFirstImage(main, i, path)
    ensures ImageTable(main).Some?
  {
  }

  // ---- the loops ----

  method FindImage(main: seq<byte>, table: TableRange, path: Name) returns (index: Option<nat>)
    requires table.offset + IMAGE_SIZE * table.count <= |main| && table.offset < TWO_32 && table.count < TWO_32
             && IsName(path)
    ensures index == FirstImage(main, table, 0, path)
  {
    hide Spells, FindTerminator, U32At;
    var k := 0;
    while k < table.count
      invariant 0 <= k <= table.count
      invariant FirstImage(main, table, 0, path) == FirstImage(main, table, k, path)
    {
      var infoOffset := IndexedOffset(table.offset, k, IMAGE_SIZE);
      if infoOffset.None? { return None; }
      var imageInfo := ReadRecord(main, infoOffset.value, IMAGE_SIZE);
      if imageInfo.None? { return None; }
      U32AtSlice(main, infoOffset.value, infoOffset.value + IMAGE_SIZE, 24);
      var pathFileOffset := U32At(imageInfo.value, 24);
      StringEqualsExactly(main, pathFileOffset, path);
      if StringEquals(main, pathFileOffset, path) { return Some(k); }
      k := k + 1;
    }
    return None;
  }

  method FindLocalSymbol(local: seq<byte>, info: Info, range: TableRange, name: Name) returns (symbol: Option<NList>)
    requires TablesFit(local, info) && range.offset + range.count <= info.nlistCount < TWO_32
             && info.nlistOffset < TWO_32
    requires IsName(name)
    ensures symbol == match FirstSymbol(Nlists(local, info), Strings(local, info), range.offset,
                                        range.offset + range.count, name)
                      case None => None
                      case Some(j) => Some(ReadNList(Nlists(local, info), NLIST_SIZE * j))
  {
    hide Spells, FindTerminator, IsSectionSymbol, U32At, U64At;
    ghost var nlists := Nlists(local, info);
    var strings := Strings(local, info);
    var index, nlistEnd := range.offset, range.offset + range.count;
    while index < nlistEnd
      invariant range.offset <= index <= nlistEnd
      invariant FirstSymbol(nlists, strings, range.offset, nlistEnd, name)
                == FirstSymbol(nlists, strings, index, nlistEnd, name)
    {
      var symbolOffset := IndexedOffset(info.nlistOffset, index, NLIST_SIZE);
      var record := if symbolOffset.None? then None else ReadRecord(local, symbolOffset.value, NLIST_SIZE);
      if record.Some? {
        var candidate := ReadNList(record.value, 0);
        assert candidate == ReadNList(nlists, NLIST_SIZE * index) by { SameRecord(local, info, index); }
        StringEqualsExactly(strings, candidate.strx, name);
        OutOfRange(strings, candidate.strx, name);
        if candidate.strx != 0 && candidate.strx < |strings| && IsSectionSymbol(candidate.kind)
           && StringEquals(strings, candidate.strx, name) {
          return Some(candidate);
        }
      }
      index := index + 1;
    }
    return None;
  }

  /** A record read at its place in the region is the record of the table. */
  lemma SameRecord(local: seq<byte>, info: Info, index: nat)
    requires TablesFit(local, info) && index < info.nlistCount
    ensures var at := info.nlistOffset + index * NLIST_SIZE;
            && at + NLIST_SIZE <= |local|
            && ReadNList(local[at..at + NLIST_SIZE], 0) == ReadNList(Nlists(local, info), NLIST_SIZE * index)
  {
    hide U32At, U64At;
    var at, start := info.nlistOffset + index * NLIST_SIZE, info.nlistOffset;
    var end := start + NLIST_SIZE * info.nlistCount;
    U32AtSlice(local, at, at + NLIST_SIZE, 0);
    U64AtSlice(local, at, at + NLIST_SIZE, 8);
    U32AtSlice(local, start, end, NLIST_SIZE * index);
    U64AtSlice(local, start, end, NLIST_SIZE * index + 8);
  }

  /** The entry of one image, in either width. */
  method ReadRange(local: seq<byte>, info: Info, wide: bool, imageIndex: nat) returns (range: Option<TableRange>)
    requires imageIndex < info.entriesCount < TWO_32 && info.entriesOffset < TWO_32
    ensures range == NlistRange(local, info, wide, imageIndex)
  {
    hide U32At;
    if wide {
      var entryOffset := IndexedOffset(info.entriesOffset, imageIndex, 16);
      if entryOffset.None? { return None; }
      var entry := ReadRecord(local, entryOffset.value, 16);
      if entry.None? { return None; }
      U32AtSlice(local, entryOffset.value, entryOffset.value + 16, 8);
      U32AtSlice(local, entryOffset.value, entryOffset.value + 16, 12);
      return Some(TableRange(U32At(entry.value, 8), U32At(entry.value, 12)));
    } else {
      var entryOffset := IndexedOffset(info.entriesOffset, imageIndex, 12);
      if entryOffset.None? { return None; }
      var entry := ReadRecord(local, entryOffset.value, 12);
      if entry.None? { return None; }
      U32AtSlice(local, entryOffset.value, entryOffset.value + 12, 4);
      U32AtSlice(local, entryOffset.value, entryOffset.value + 12, 8);
      return Some(TableRange(U32At(entry.value, 4), U32At(entry.value, 8)));
    }
  }

  /** The part of the lookup that happens inside the local-symbol region. */
  method FindInRegion(local: seq<byte>, wide: bool, imageIndex: nat, name: Name) returns (symbol: Option<NList>)
    requires IsName(name)
    ensures symbol == LocalSymbol(local, wide, imageIndex, name)
  {
    hide U32At, FirstSymbol, NlistRange, Nlists, Strings;
    var record := ReadRecord(local, 0, INFO_SIZE);
    if record.None? { return None; }
    var info := ReadInfo(local);
    if imageIndex >= info.entriesCount {
      NoEntry(local, info, wide, imageIndex);
      return None;
    }
    var range := ReadRange(local, info, wide, imageIndex);
    if range.None? { return None; }
    var nlistEnd := range.value.offset + range.value.count;
    if nlistEnd > info.nlistCount { return None; }
    if DataAt(local, info.nlistOffset, NLIST_SIZE * info.nlistCount).None?
        || DataAt(local, info.stringsOffset, info.stringsSize).None? {
      return None;
    }
    symbol := FindLocalSymbol(local, info, range.value, name);
  }

  lemma NoEntry(local: seq<byte>, info: Info, wide: bool, i: nat)
    requires i >= info.entriesCount
    ensures NlistRange(local, info, wide, i) == None
  {
  }

  /** Resolves one local symbol; every table, record, string and sum is checked before it is used. */
  method FindSharedCacheSymbolInData(main: seq<byte>, symbols: seq<byte>, slide: u64, imagePath: Name, symbolName: Name)
    returns (address: Option<u64>)
    requires IsName(imagePath) && IsName(symbolName)
    ensures address == Lookup(main, symbols, slide, imagePath, symbolName)
  {
    hide U32At, U64At, FirstImage, LocalSymbol, HasPath;
    if |main| < HEADER_SIZE || |symbols| < HEADER_SIZE || main[..7] != MAGIC || symbols[..7] != MAGIC { return None; }
    var imagesOffset, imagesCount := U32At(main, 448), U32At(main, 452);
    if imagesOffset == 0 || imagesCount == 0 {
      imagesOffset, imagesCount := U32At(main, 24), U32At(main, 28);
    }
    if imagesOffset == 0 || imagesCount == 0 { return None; }
    var imageTableSize := imagesCount * IMAGE_SIZE;
    if DataAt(main, imagesOffset, imageTableSize).None? { return None; }
    var imageIndex := FindImage(main, TableRange(imagesOffset, imagesCount), imagePath);
    var localBase: nat := U64At(symbols, 72);
    if imageIndex.None? || localBase == 0 { return None; }
    if localBase > |symbols| { return None; }
    var localSize: nat := if U64At(symbols, 80) == 0 then |symbols| - localBase else U64At(symbols, 80);
    if localSize > |symbols| - localBase { return None; }
    var local := symbols[localBase..localBase + localSize];
    assert symbols[localBase..] == symbols[localBase..|symbols|];
    var symbol := FindInRegion(local, Uses64BitEntry(main), imageIndex.value, symbolName);
    if symbol.None? || symbol.value.value > TWO_64 - 1 - slide { return None; }
    return Some(slide + symbol.value.value);
  }
}
