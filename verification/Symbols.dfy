/**
 The live and file Mach-O symbol resolvers of RorkHookSymbols.c. A process is what its memory holds
 and how far it is readable from each address; pointer signing of the result is left to Pointers.
 */
module Symbols {
  import opened LoadCommands
  import opened SymbolTables
  import opened Words
  import opened Wrappers

  const LC_SYMTAB: u32 := 2
  const SYMTAB_SIZE := 24
  const LINKEDIT: seq<byte> := [0x5f, 0x5f, 0x4c, 0x49, 0x4e, 0x4b, 0x45, 0x44, 0x49, 0x54]

  predicate IsSymtab(c: Command) {
    |c| >= SYMTAB_SIZE && U32At(c, 0) == LC_SYMTAB
  }

  /** `strncmp(segname, "__LINKEDIT", 16) == 0`. */
  predicate IsLinkedit(c: Command) {
    IsSegment(c) && c[8..18] == LINKEDIT && c[18] == 0
  }

  function SymbolOffset(c: Command): u32 requires IsSymtab(c) { U32At(c, 8) }

  function SymbolCount(c: Command): u32 requires IsSymtab(c) { U32At(c, 12) }

  function StringOffset(c: Command): u32 requires IsSymtab(c) { U32At(c, 16) }

  function StringSize(c: Command): u32 requires IsSymtab(c) { U32At(c, 20) }

  // ---- locating the symbol table ----

  datatype SymtabContext = SymtabContext(symtab: Option<Command>, linkedit: Option<Command>)

  function FindSymtabLoadCommand(context: SymtabContext, c: Command, index: nat): (SymtabContext, bool) {
    if IsSymtab(c) then (context.(symtab := Some(c)), true)
    else if IsLinkedit(c) then (context.(linkedit := Some(c)), true)
    else (context, true)
  }

  /** The last command that satisfies `p`. */
  function LastOf(cs: seq<Command>, p: Command -> bool): (c: Option<Command>)
    ensures c.Some? ==> c.value in cs && p(c.value)
    ensures c.None? ==> forall d | d in cs :: !p(d)
  {
    if cs == [] then None
    else if p(cs[|cs| - 1]) then Some(cs[|cs| - 1])
    else LastOf(cs[..|cs| - 1], p)
  }

  /** The last in the order of the table. */
  ghost predicate IsLast(cs: seq<Command>, p: Command -> bool, i: nat) {
    i < |cs| && p(cs[i]) && forall j | i < j < |cs| :: !p(cs[j])
  }

  lemma {:induction false} LastOfFound(cs: seq<Command>, p: Command -> bool) returns (i: nat)
    requires LastOf(cs, p).Some?
    ensures IsLast(cs, p, i) && cs[i] == LastOf(cs, p).value
  {
    var n := |cs| - 1;
    if p(cs[n]) {
      i := n;
    } else {
      i := LastOfFound(cs[..n], p);
      forall j | i < j < |cs| ensures !p(cs[j]) { if j < n { assert !p(cs[..n][j]); } }
    }
  }

  lemma {:induction false} LastOfIs(cs: seq<Command>, p: Command -> bool, i: nat)
    requires IsLast(cs, p, i)
    ensures LastOf(cs, p) == Some(cs[i])
  {
    var n := |cs| - 1;
    if i < n {
      assert !p(cs[n]);
      forall j | i < j < n ensures !p(cs[..n][j]) { assert !p(cs[j]); }
      LastOfIs(cs[..n], p, i);
    }
  }

  lemma {:induction false} SymtabVisited(cs: seq<Command>, n: nat)
    requires n <= |cs|
    ensures Visit(cs, FindSymtabLoadCommand, SymtabContext(None, None), n)
            == SymtabContext(LastOf(cs[..n], IsSymtab), LastOf(cs[..n], IsLinkedit))
  {
    if n > 0 {
      SymtabVisited(cs, n - 1);
      assert cs[..n][..n - 1] == cs[..n - 1];
    }
  }

  /** The last symbol table and the last link-edit segment win. */
  method FindSymtab(image: seq<byte>) returns (context: SymtabContext)
    ensures context == match Commands(image)
                       case None => SymtabContext(None, None)
                       case Some(cs) => SymtabContext(LastOf(cs, IsSymtab), LastOf(cs, IsLinkedit))
  {
    var valid;
    valid, context := ForEachLoadCommandWithSize(image, FindSymtabLoadCommand, SymtabContext(None, None));
    if Commands(image).Some? {
      var cs := Commands(image).value;
      var n := DeliveryIsPrefix(cs, FindSymtabLoadCommand, SymtabContext(None, None));
      SymtabVisited(cs, n);
      assert cs[..|cs|] == cs;
    }
  }

  // ---- ranges ----

  predicate RangeIsValid(offset: nat, length: nat, totalSize: nat) {
    offset <= totalSize && length <= totalSize - offset
  }

  /** The range relative to the segment, when the segment's file content backs all of it. */
  function FileRangeInSegment(fileOffset: nat, length: nat, segment: Command): (relative: Option<nat>)
    requires IsSegment(segment)
    ensures relative == if FileOffset(segment) <= fileOffset
                           && fileOffset + length <= FileOffset(segment) + FileSize(segment)
                        then Some(fileOffset - FileOffset(segment)) else None
  {
    if fileOffset < FileOffset(segment) then None
    else
      var relativeOffset: nat := fileOffset - FileOffset(segment);
      if relativeOffset > FileSize(segment) || length > FileSize(segment) - relativeOffset then None
      else Some(relativeOffset)
  }

  // ---- the file resolver ----

  /** The segment holds the byte at `address` and has file content for it. */
  predicate Backs(c: Command, address: u64) {
    && IsSegment(c) && VmAddress(c) <= address
    && address - VmAddress(c) < VmSize(c) && address - VmAddress(c) < FileSize(c)
    && FileOffset(c) + (address - VmAddress(c)) < TWO_64
  }

  datatype FileAddressContext = FileAddressContext(address: u64, fileOffset: u64, found: bool)

  function FindFileAddressLoadCommand(context: FileAddressContext, c: Command, index: nat): (FileAddressContext, bool) {
    if !IsSegment(c) then (context, true)
    else if context.address < VmAddress(c) then (context, true)
    else
      var segmentOffset: int := context.address - VmAddress(c);
      if segmentOffset >= VmSize(c) || segmentOffset >= FileSize(c) || TWO_64 - 1 - FileOffset(c) < segmentOffset then
        (context, true)
      else
        (context.(fileOffset := FileOffset(c) + segmentOffset, found := true), false)
  }

  /** Where the first segment that backs `address` keeps it in the file. */
  function Translate(cs: seq<Command>, address: u64): Option<nat> {
    match FirstOf(cs, c => Backs(c, address))
    case None => None
    case Some(c) => Some(FileOffset(c) + (address - VmAddress(c)))
  }

  lemma {:induction false} TranslateDelivered(cs: seq<Command>, context: FileAddressContext, k: nat)
    requires k <= |cs| && !context.found
    ensures var after := Deliver(cs, FindFileAddressLoadCommand, context, k);
            var offset := Translate(cs[k..], context.address);
            after.found == offset.Some? && (after.found ==> after.fileOffset == offset.value)
    decreases |cs| - k
  {
    if k < |cs| {
      assert cs[k..][1..] == cs[k + 1..];
      if !Backs(cs[k], context.address) { TranslateDelivered(cs, context, k + 1); }
    }
  }

  /** The entry that both resolvers look for: the first one with the name in the last symbol table. */
  datatype Located = Located(index: nat, entry: NList)

  function LocateIn(symbols: seq<byte>, strings: seq<byte>, symbolCount: nat, name: Name): Option<Located>
    requires NLIST_SIZE * symbolCount <= |symbols|
  {
    match FirstSymbol(symbols, strings, 0, symbolCount, name)
    case None => None
    case Some(i) => Some(Located(i, ReadNList(symbols, NLIST_SIZE * i)))
  }

  /** The first matching entry, declaratively. */
  ghost predicate IsLocated(symbols: seq<byte>, strings: seq<byte>, symbolCount: nat, name: Name, located: Located)
    requires NLIST_SIZE * symbolCount <= |symbols|
  {
    && located.index < symbolCount && located.entry == ReadNList(symbols, NLIST_SIZE * located.index)
    && IsSymbol(located.entry, strings, name)
    && forall k | 0 <= k < located.index :: !IsSymbol(ReadNList(symbols, NLIST_SIZE * k), strings, name)
  }

  lemma LocatedExactly(symbols: seq<byte>, strings: seq<byte>, symbolCount: nat, name: Name, located: Located)
    requires NLIST_SIZE * symbolCount <= |symbols|
    ensures LocateIn(symbols, strings, symbolCount, name) == Some(located) <==>
            IsLocated(symbols, strings, symbolCount, name, located)
  {
    hide IsSymbol, ReadNList;
    if IsLocated(symbols, strings, symbolCount, name, located) {
      FirstSymbolIs(symbols, strings, 0, symbolCount, located.index, name);
    }
  }

  /** The tables are nonempty and lie inside the file. */
  predicate TablesInFile(image: seq<byte>, symtab: Command): (fit: bool)
    requires IsSymtab(symtab)
    ensures fit <==> 0 < SymbolCount(symtab) && SymbolOffset(symtab) + 16 * SymbolCount(symtab) <= |image|
                     && 0 < StringSize(symtab) && StringOffset(symtab) + StringSize(symtab) <= |image|
  {
    && SymbolCount(symtab) > 0 && RangeIsValid(SymbolOffset(symtab), NLIST_SIZE * SymbolCount(symtab), |image|)
    && StringSize(symtab) > 0 && RangeIsValid(StringOffset(symtab), StringSize(symtab), |image|)
  }

  function SymbolsInFile(image: seq<byte>, symtab: Command): (symbols: seq<byte>)
    requires IsSymtab(symtab) && TablesInFile(image, symtab)
    ensures |symbols| == NLIST_SIZE * SymbolCount(symtab)
  {
    image[SymbolOffset(symtab)..SymbolOffset(symtab) + NLIST_SIZE * SymbolCount(symtab)]
  }

  function StringsInFile(image: seq<byte>, symtab: Command): seq<byte>
    requires IsSymtab(symtab) && TablesInFile(image, symtab)
  {
    image[StringOffset(symtab)..StringOffset(symtab) + StringSize(symtab)]
  }

  function LocateInFile(image: seq<byte>, symtab: Command, name: Name): Option<Located>
    requires IsSymtab(symtab) && TablesInFile(image, symtab)
  {
    LocateIn(SymbolsInFile(image, symtab), StringsInFile(image, symtab), SymbolCount(symtab), name)
  }

  /** The entry found in a file and its offset there. */
  function FileLookup(image: seq<byte>, name: Name): (found: Option<(Located, nat)>)
    ensures found.Some? ==> found.value.1 < |image|
  {
    match Commands(image)
    case None => None
    case Some(cs) =>
      match LastOf(cs, IsSymtab)
      case None => None
      case Some(symtab) =>
        if !TablesInFile(image, symtab) then None
        else
          match LocateInFile(image, symtab, name)
          case None => None
          case Some(located) =>
            match Translate(cs, located.entry.value)
            case None => None
            case Some(offset) => if offset < |image| then Some((located, offset)) else None
  }

  /**
   The file's answer, declaratively: command `s` is the last symbol table, it fits the file and its
   first matching entry is `located`; command `t` is the first segment that backs the entry's
   address, and the offset is where that segment keeps the byte.
   */
  ghost predicate FileDenotes(image: seq<byte>, name: Name, s: nat, t: nat, located: Located, offset: nat) {
    && Commands(image).Some?
    && var cs := Commands(image).value;
       && IsLast(cs, IsSymtab, s) && TablesInFile(image, cs[s])
       && IsLocated(SymbolsInFile(image, cs[s]), StringsInFile(image, cs[s]), SymbolCount(cs[s]), name, located)
       && IsFirst(cs, c => Backs(c, located.entry.value), t)
       && offset == FileOffset(cs[t]) + (located.entry.value - VmAddress(cs[t])) && offset < |image|
  }

  lemma FileLookupExactly(image: seq<byte>, name: Name, located: Located, offset: nat)
    ensures FileLookup(image, name) == Some((located, offset)) <==>
            exists s: nat, t: nat :: FileDenotes(image, name, s, t, located, offset)
  {
    hide Split, U32At, U64At, LastOf, FirstOf, LocateInFile, IsSymtab, FileLookup, FileDenotes;
    if FileLookup(image, name) == Some((located, offset)) {
      var s, t := FileLookupDenotes(image, name, located, offset);
    }
    if s: nat, t: nat :| FileDenotes(image, name, s, t, located, offset) {
      FileLookupComplete(image, name, s, t, located, offset);
    }
  }

  lemma FileLookupComplete(image: seq<byte>, name: Name, s: nat, t: nat, located: Located, offset: nat)
    requires FileDenotes(image, name, s, t, located, offset)
    ensures FileLookup(image, name) == Some((located, offset))
  {
    hide Split, U32At, U64At, LastOf, FirstOf, LocateIn, IsLocated, IsSymtab, SymbolsInFile, StringsInFile;
    var cs := Commands(image).value;
    LastOfIs(cs, IsSymtab, s);
    LocatedExactly(SymbolsInFile(image, cs[s]), StringsInFile(image, cs[s]), SymbolCount(cs[s]), name, located);
    FirstOfIs(cs, c => Backs(c, located.entry.value), t);
  }

  lemma FileLookupDenotes(image: seq<byte>, name: Name, located: Located, offset: nat) returns (s: nat, t: nat)
    requires FileLookup(image, name) == Some((located, offset))
    ensures FileDenotes(image, name, s, t, located, offset)
  {
    hide Split, U32At, U64At, LastOf, FirstOf, LocateIn, IsLocated, IsSymtab, SymbolsInFile, StringsInFile;
    var cs := Commands(image).value;
    s := LastOfFound(cs, IsSymtab);
    LocatedExactly(SymbolsInFile(image, cs[s]), StringsInFile(image, cs[s]), SymbolCount(cs[s]), name, located);
    t := FirstOfFound(cs, c => Backs(c, located.entry.value));
  }

  method FindFileAddress(image: seq<byte>, address: u64) returns (offset: Option<nat>)
    ensures offset == match Commands(image) case None => None case Some(cs) => Translate(cs, address)
  {
    hide Deliver, Translate, Commands;
    var context := FileAddressContext(address, 0, false);
    var valid, after := ForEachLoadCommandWithSize(image, FindFileAddressLoadCommand, context);
    if Commands(image).Some? {
      TranslateDelivered(Commands(image).value, context, 0);
      assert Commands(image).value[0..] == Commands(image).value;
    }
    offset := if valid && after.found then Some(after.fileOffset) else None;
  }

  /** Resolves a symbol in a file mapping of known length to its offset from the header. */
  method FindSymbolInFileImageWithSize(image: seq<byte>, name: Name) returns (offset: Option<nat>)
    requires IsName(name)
    ensures offset == match FileLookup(image, name) case None => None case Some((_, at)) => Some(at)
  {
    hide Commands, LastOf, FirstSymbol, ReadNList, Translate, U32At;
    var context := FindSymtab(image);
    if context.symtab.None? { return None; }
    var symtab := context.symtab.value;
    var symbolBytes := NLIST_SIZE * SymbolCount(symtab);
    if symbolBytes == 0 || !RangeIsValid(SymbolOffset(symtab), symbolBytes, |image|)
       || StringSize(symtab) == 0 || !RangeIsValid(StringOffset(symtab), StringSize(symtab), |image|) {
      return None;
    }
    var symbols := image[SymbolOffset(symtab)..SymbolOffset(symtab) + symbolBytes];
    var strings := image[StringOffset(symtab)..StringOffset(symtab) + StringSize(symtab)];
    var entry := FindSymbolEntry(symbols, strings, SymbolCount(symtab), name);
    if entry.None? { return None; }
    var fileOffset := FindFileAddress(image, entry.value.value);
    if fileOffset.None? || !RangeIsValid(fileOffset.value, 1, |image|) { return None; }
    return fileOffset;
  }

  // ---- the live resolver ----

  datatype Process = Process(memory: map<int, byte>, extent: u64 -> nat)
  {
    /** Memory is mapped as far as it is reported readable; nothing is readable at the null address. */
    ghost predicate Honest() {
      extent(0) == 0 && forall a: u64 :: Mapped(memory, a, extent(a))
    }

    /** The first `length` bytes at `address`, when that many are readable in one region. */
    function Read(address: u64, length: nat): (bytes: Option<seq<byte>>)
      requires Honest()
      ensures bytes.Some? <==> 0 < length <= extent(address)
      ensures bytes.Some? ==>
                |bytes.value| == length && forall k | 0 <= k < length :: bytes.value[k] == memory[address + k]
    {
      if length != 0 && extent(address) >= length then
        assert Mapped(memory, address, extent(address));
        Some(Load(memory, address, length))
      else None
    }

    /** The readable bytes from a header on. */
    function Image(header: u64): (image: seq<byte>)
      requires Honest()
      ensures |image| == extent(header) && forall k | 0 <= k < |image| :: image[k] == memory[header + k]
    {
      assert Mapped(memory, header, extent(header));
      Load(memory, header, extent(header))
    }
  }

  /** Where the tables of a live image are: inside its slid link-edit segment. */
  datatype LiveTables = LiveTables(base: u64, symbols: u64, strings: u64)

  function TablesInLinkedit(symtab: Command, linkedit: Command, slide: i64): (tables: Option<LiveTables>)
    requires IsSymtab(symtab) && IsLinkedit(linkedit)
  {
    match ApplySlide(VmAddress(linkedit), slide)
    case None => None
    case Some(base) =>
      match FileRangeInSegment(SymbolOffset(symtab), NLIST_SIZE * SymbolCount(symtab), linkedit)
      case None => None
      case Some(symbols) =>
        match FileRangeInSegment(StringOffset(symtab), StringSize(symtab), linkedit)
        case None => None
        case Some(strings) =>
          if symbols >= TWO_64 - base || strings >= TWO_64 - base then None
          else Some(LiveTables(base, base + symbols, base + strings))
  }

  function LocateInMemory(process: Process, tables: LiveTables, symtab: Command, name: Name): Option<Located>
    requires process.Honest() && IsSymtab(symtab)
  {
    match process.Read(tables.symbols, NLIST_SIZE * SymbolCount(symtab))
    case None => None
    case Some(symbols) =>
      match process.Read(tables.strings, StringSize(symtab))
      case None => None
      case Some(strings) => LocateIn(symbols, strings, SymbolCount(symtab), name)
  }

  function LookupWithSlide(process: Process, symtab: Command, linkedit: Command, slide: i64,
                           name: Name): Option<(Located, u64)>
    requires process.Honest() && IsSymtab(symtab) && IsLinkedit(linkedit)
  {
    match TablesInLinkedit(symtab, linkedit, slide)
    case None => None
    case Some(tables) =>
      match LocateInMemory(process, tables, symtab, name)
      case None => None
      case Some(located) =>
        match ApplySlide(located.entry.value, slide)
        case None => None
        case Some(address) => Some((located, address))
  }

  /** The entry found in a loaded image and its address. */
  function LiveLookup(process: Process, header: u64, name: Name): Option<(Located, u64)>
    requires process.Honest()
  {
    match Commands(process.Image(header))
    case None => None
    case Some(cs) =>
      if header == 0 || LastOf(cs, IsSymtab).None? || LastOf(cs, IsLinkedit).None?
          || SlideOf(cs, header).None? then None
      else LookupWithSlide(process, LastOf(cs, IsSymtab).value, LastOf(cs, IsLinkedit).value,
                           SlideOf(cs, header).value, name)
  }

  // ---- the live answer, declaratively ----

  /**
   A nonempty range of the file is part of the content of the segment at `base`, and memory is
   readable at the place where it was mapped.
   */
  predicate TableReadable(process: Process, linkedit: Command, base: int, fileOffset: nat, length: nat)
    requires IsLinkedit(linkedit)
  {
    && FileOffset(linkedit) <= fileOffset && fileOffset + length <= FileOffset(linkedit) + FileSize(linkedit)
    && 0 <= base && base + (fileOffset - FileOffset(linkedit)) < TWO_64
    && 0 < length <= process.extent(base + (fileOffset - FileOffset(linkedit)))
  }

  function TableBytes(process: Process, linkedit: Command, base: int, fileOffset: nat, length: nat): (bytes: seq<byte>)
    requires process.Honest() && IsLinkedit(linkedit) && TableReadable(process, linkedit, base, fileOffset, length)
    ensures |bytes| == length
  {
    var at := base + (fileOffset - FileOffset(linkedit));
    assert Mapped(process.memory, at, process.extent(at));
    Load(process.memory, at, length)
  }

  /** Both tables are readable in the link-edit segment at `base`, and `located` is the first matching entry. */
  ghost predicate LocatedInMemory(process: Process, symtab: Command, linkedit: Command, base: int, name: Name,
                                  located: Located)
    requires process.Honest() && IsSymtab(symtab) && IsLinkedit(linkedit)
  {
    && TableReadable(process, linkedit, base, SymbolOffset(symtab), NLIST_SIZE * SymbolCount(symtab))
    && TableReadable(process, linkedit, base, StringOffset(symtab), StringSize(symtab))
    && IsLocated(TableBytes(process, linkedit, base, SymbolOffset(symtab), NLIST_SIZE * SymbolCount(symtab)),
                 TableBytes(process, linkedit, base, StringOffset(symtab), StringSize(symtab)), SymbolCount(symtab),
                 name, located)
  }

  /**
   The live answer: command `s` is the last symbol table, `l` the last link-edit segment and `h` the
   first segment that maps the header, which tells how far everything was moved; `located` is the
   first matching entry of the tables where they were moved, and so is `address` for its value.
   */
  ghost predicate LiveDenotes(process: Process, header: u64, name: Name, s: nat, l: nat, h: nat, located: Located,
                              address: u64)
    requires process.Honest()
  {
    && header != 0 && Commands(process.Image(header)).Some?
    && var cs := Commands(process.Image(header)).value;
       && IsLast(cs, IsSymtab, s) && IsLast(cs, IsLinkedit, l) && IsFirst(cs, MapsHeader, h)
       && var slide := header - VmAddress(cs[h]);
          && -0x8000_0000_0000_0000 <= slide < 0x8000_0000_0000_0000
          && LocatedInMemory(process, cs[s], cs[l], VmAddress(cs[l]) + slide, name, located)
          && address == located.entry.value + slide
  }

  lemma MemoryExactly(process: Process, symtab: Command, linkedit: Command, slide: i64, name: Name, located: Located,
                      address: u64)
    requires process.Honest() && IsSymtab(symtab) && IsLinkedit(linkedit)
    ensures LookupWithSlide(process, symtab, linkedit, slide, name) == Some((located, address)) <==>
            LocatedInMemory(process, symtab, linkedit, VmAddress(linkedit) + slide, name, located)
            && address == located.entry.value + slide
  {
    hide U32At, U64At, LocateIn, IsLocated, IsSymtab;
    var base, symbolBytes := VmAddress(linkedit) + slide, NLIST_SIZE * SymbolCount(symtab);
    if TableReadable(process, linkedit, base, SymbolOffset(symtab), symbolBytes)
       && TableReadable(process, linkedit, base, StringOffset(symtab), StringSize(symtab)) {
      var symbols := TableBytes(process, linkedit, base, SymbolOffset(symtab), symbolBytes);
      var strings := TableBytes(process, linkedit, base, StringOffset(symtab), StringSize(symtab));
      LocatedExactly(symbols, strings, SymbolCount(symtab), name, located);
    }
  }

  /** In every process, the live lookup returns an entry and an address exactly when its memory denotes them. */
  lemma LiveLookupExactly(process: Process, header: u64, name: Name, located: Located, address: u64)
    requires process.Honest()
    ensures LiveLookup(process, header, name) == Some((located, address)) <==>
            exists s: nat, l: nat, h: nat :: LiveDenotes(process, header, name, s, l, h, located, address)
  {
    hide Split, U32At, U64At, LastOf, FirstOf, LookupWithSlide, LocatedInMemory, IsSymtab, IsLinkedit;
    if LiveLookup(process, header, name) == Some((located, address)) {
      var cs := Commands(process.Image(header)).value;
      var s := LastOfFound(cs, IsSymtab);
      var l := LastOfFound(cs, IsLinkedit);
      var h := FirstOfFound(cs, MapsHeader);
      MemoryExactly(process, cs[s], cs[l], SlideOf(cs, header).value, name, located, address);
      assert LiveDenotes(process, header, name, s, l, h, located, address);
    }
    if s: nat, l: nat, h: nat :| LiveDenotes(process, header, name, s, l, h, located, address) {
      var cs := Commands(process.Image(header)).value;
      LastOfIs(cs, IsSymtab, s);
      LastOfIs(cs, IsLinkedit, l);
      FirstOfIs(cs, MapsHeader, h);
      MemoryExactly(process, cs[s], cs[l], SlideOf(cs, header).value, name, located, address);
    }
  }

  // ---- the live method ----

  /** Resolves a private symbol of a loaded image to its raw address. */
  method FindSymbol(process: Process, header: u64, name: Name) returns (address: Option<u64>)
    requires process.Honest() && IsName(name)
    ensures address == match LiveLookup(process, header, name) case None => None case Some((_, at)) => Some(at)
  {
    hide Commands, LastOf, FirstSymbol, ReadNList, U32At, U64At, SlideOf, ApplySlide;
    if header == 0 { return None; }
    var image := process.Image(header);
    var context := FindSymtab(image);
    if context.symtab.None? || context.linkedit.None? { return None; }
    var slide, resolved := ImageSlide(header, image);
    if !resolved { return None; }
    address := FindSymbolWithSlide(process, context.symtab.value, context.linkedit.value, slide, name);
  }

  /** The bounded part of the live lookup, once the metadata and the slide are known. */
  method FindSymbolWithSlide(process: Process, symtab: Command, linkedit: Command, slide: i64, name: Name)
    returns (address: Option<u64>)
    requires process.Honest() && IsName(name) && IsSymtab(symtab) && IsLinkedit(linkedit)
    ensures var found := LookupWithSlide(process, symtab, linkedit, slide, name);
            address == match found case None => None case Some((_, at)) => Some(at)
  {
    hide FirstSymbol, ReadNList, U32At, U64At, ApplySlide;
    var symbolBytes := NLIST_SIZE * SymbolCount(symtab);
    var linkeditAddress := ApplySlide(VmAddress(linkedit), slide);
    if linkeditAddress.None? { return None; }
    var symbolRelative := FileRangeInSegment(SymbolOffset(symtab), symbolBytes, linkedit);
    if symbolRelative.None? { return None; }
    var stringRelative := FileRangeInSegment(StringOffset(symtab), StringSize(symtab), linkedit);
    if stringRelative.None? { return None; }
    if symbolRelative.value > TWO_64 - 1 - linkeditAddress.value
        || stringRelative.value > TWO_64 - 1 - linkeditAddress.value {
      return None;
    }
    var symbols := process.Read(linkeditAddress.value + symbolRelative.value, symbolBytes);
    if symbols.None? { return None; }
    var strings := process.Read(linkeditAddress.value + stringRelative.value, StringSize(symtab));
    if strings.None? { return None; }
    var entry := FindSymbolEntry(symbols.value, strings.value, SymbolCount(symtab), name);
    if entry.None? { return None; }
    return ApplySlide(entry.value.value, slide);
  }
}
