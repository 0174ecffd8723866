/** An encoder for every cache layout the resolver accepts, and the round trip through it. */
module CacheWriter {
  import opened CacheEncoding
  import opened Layout
  import opened SharedCache
  import opened SymbolTables
  import opened Words
  import opened Wrappers

  /**
   A layout: which words of the header locate the image table, whether the symbols are in a sidecar,
   whether their size is given, and where the mapping table starts, which selects the entry width.
   The spare words fill the pair of header words that the layout itself has no use for; the padding is what
   else the files hold.
   */
  datatype Format = Format(modern: bool, sidecar: bool, sized: bool, mappingOffset: u32, spare0: u32, spare1: u32,
                           padding: Padding)

  /**
   Arbitrary bytes: for the rest of the header, in front of the image table, in front of the local-symbol region,
   in front of each table in the region, and behind the region, where a code signature would be.
   */
  datatype Padding = Padding(header: seq<byte>, images: seq<byte>, region: seq<byte>, entries: seq<byte>,
                             nlists: seq<byte>, strings: seq<byte>, behind: seq<byte>)

  predicate Wide(f: Format) {
    f.mappingOffset >= 400
  }

  // ---- records ----

  datatype HeaderWords = HeaderWords(mappingOffset: u32, old0: u32, old1: u32, localOffset: u64, localSize: u64,
                                     new0: u32, new1: u32)

  function HeaderByte(h: HeaderWords, rest: seq<byte>, k: nat): byte {
    if k == 0 then 0x64 else if k == 1 then 0x79 else if k == 2 then 0x6c else if k == 3 then 0x64
    else if k == 4 then 0x5f else if k == 5 then 0x76 else if k == 6 then 0x31
    else if 16 <= k < 20 then U32Bytes(h.mappingOffset)[k - 16]
    else if 24 <= k < 28 then U32Bytes(h.old0)[k - 24]
    else if 28 <= k < 32 then U32Bytes(h.old1)[k - 28]
    else if 72 <= k < 80 then U64Bytes(h.localOffset)[k - 72]
    else if 80 <= k < 88 then U64Bytes(h.localSize)[k - 80]
    else if 448 <= k < 452 then U32Bytes(h.new0)[k - 448]
    else if 452 <= k < 456 then U32Bytes(h.new1)[k - 452]
    else if k < |rest| then rest[k]
    else 0
  }

  function Header(h: HeaderWords, rest: seq<byte>): (bytes: seq<byte>)
    ensures |bytes| == HEADER_SIZE
  {
    seq(HEADER_SIZE, k requires 0 <= k < HEADER_SIZE => HeaderByte(h, rest, k))
  }

  function ImageRecord(pathOffset: nat): (bytes: seq<byte>)
    ensures |bytes| == IMAGE_SIZE
  {
    seq(24, k => 0) + Word(pathOffset) + [0, 0, 0, 0]
  }

  function Entry(wide: bool, start: nat, count: nat): (bytes: seq<byte>)
    ensures |bytes| == EntrySize(wide)
  {
    (if wide then Word(0) + Word(0) else Word(0)) + Word(start) + Word(count)
  }

  function Nlist(strx: nat, symbol: Symbol): (bytes: seq<byte>)
    ensures |bytes| == NLIST_SIZE
  {
    Word(strx) + [symbol.kind, 0, 0, 0] + U64Bytes(symbol.value)
  }

  function Terminated(name: Name): seq<byte> {
    name + [0]
  }

  // ---- the local-symbol region ----

  function SymbolLists(cache: Cache): (lists: seq<seq<Symbol>>)
    ensures |lists| == |cache| && forall i | 0 <= i < |cache| :: lists[i] == cache[i].symbols
  {
    seq(|cache|, i requires 0 <= i < |cache| => cache[i].symbols)
  }

  /** The string pool starts with a NUL so that no symbol has string offset zero. */
  function PoolParts(all: seq<Symbol>): (parts: seq<seq<byte>>)
    ensures |parts| == |all| + 1 && parts[0] == [0]
            && forall m | 0 <= m < |all| :: parts[m + 1] == Terminated(all[m].name)
  {
    [[0]] + seq(|all|, m requires 0 <= m < |all| => Terminated(all[m].name))
  }

  function Entries(cache: Cache, wide: bool): (parts: seq<seq<byte>>)
    ensures |parts| == |cache|
    ensures forall i | 0 <= i < |cache| :: parts[i] == Entry(wide, Offset(SymbolLists(cache), i), |cache[i].symbols|)
  {
    seq(|cache|, i requires 0 <= i < |cache| => Entry(wide, Offset(SymbolLists(cache), i), |cache[i].symbols|))
  }

  function NlistOf(all: seq<Symbol>, m: nat): (bytes: seq<byte>)
    requires m < |all|
    ensures |bytes| == NLIST_SIZE
  {
    Nlist(Offset(PoolParts(all), m + 1), all[m])
  }

  function NlistParts(all: seq<Symbol>): (parts: seq<seq<byte>>)
    ensures |parts| == |all| && forall m | 0 <= m < |all| :: parts[m] == NlistOf(all, m)
  {
    seq(|all|, m requires 0 <= m < |all| => NlistOf(all, m))
  }

  function InfoBytes(info: Info): (bytes: seq<byte>)
    ensures |bytes| == INFO_SIZE
  {
    Word(info.nlistOffset) + Word(info.nlistCount) + Word(info.stringsOffset)
    + Word(info.stringsSize) + Word(info.entriesOffset) + Word(info.entriesCount)
  }

  function RegionInfo(cache: Cache, f: Format): Info {
    var all := Flatten(SymbolLists(cache));
    var entriesOffset := INFO_SIZE + |f.padding.entries|;
    var nlistOffset := entriesOffset + EntrySize(Wide(f)) * |cache| + |f.padding.nlists|;
    var stringsOffset := nlistOffset + NLIST_SIZE * |all| + |f.padding.strings|;
    Info(nlistOffset, |all|, stringsOffset, |Flatten(PoolParts(all))|, entriesOffset, |cache|)
  }

  function Region(cache: Cache, f: Format): seq<byte> {
    var all := Flatten(SymbolLists(cache));
    InfoBytes(RegionInfo(cache, f)) + f.padding.entries + Flatten(Entries(cache, Wide(f)))
    + f.padding.nlists + Flatten(NlistParts(all)) + f.padding.strings + Flatten(PoolParts(all))
  }

  // ---- the files ----

  function PathParts(cache: Cache): (parts: seq<seq<byte>>)
    ensures |parts| == |cache| && forall i | 0 <= i < |cache| :: parts[i] == Terminated(cache[i].path)
  {
    seq(|cache|, i requires 0 <= i < |cache| => Terminated(cache[i].path))
  }

  function TableStart(f: Format): nat {
    HEADER_SIZE + |f.padding.images|
  }

  function PathStart(cache: Cache, f: Format): nat {
    TableStart(f) + IMAGE_SIZE * |cache|
  }

  function ImageRecords(cache: Cache, f: Format): (parts: seq<seq<byte>>)
    ensures |parts| == |cache|
    ensures forall i | 0 <= i < |cache| :: parts[i] == ImageRecord(PathStart(cache, f) + Offset(PathParts(cache), i))
  {
    seq(|cache|, i requires 0 <= i < |cache| => ImageRecord(PathStart(cache, f) + Offset(PathParts(cache), i)))
  }

  /** Where the region of an inline cache starts. */
  function LocalStart(cache: Cache, f: Format): nat {
    PathStart(cache, f) + |Flatten(PathParts(cache))| + |f.padding.region|
  }

  /** A 64-bit header field; larger numbers lose their high bits. */
  function Truncated(n: nat): u64 {
    n % TWO_64
  }

  function SizeWord(cache: Cache, f: Format): u64 {
    if f.sized then Truncated(|Region(cache, f)|) else 0
  }

  function MainHeader(cache: Cache, f: Format): HeaderWords {
    var offset, count := TableStart(f) % TWO_32, |cache| % TWO_32;
    HeaderWords(f.mappingOffset, if f.modern then f.spare0 else offset, if f.modern then f.spare1 else count,
                Truncated(LocalStart(cache, f)), SizeWord(cache, f),
                if f.modern then offset else f.spare0, if f.modern then count else f.spare1)
  }

  /** The region with what surrounds it. */
  function Surrounded(cache: Cache, f: Format): seq<byte> {
    f.padding.region + Region(cache, f) + f.padding.behind
  }

  function Main(cache: Cache, f: Format): seq<byte> {
    Header(MainHeader(cache, f), f.padding.header) + f.padding.images + Flatten(ImageRecords(cache, f))
    + Flatten(PathParts(cache)) + if f.sidecar then [] else Surrounded(cache, f)
  }

  function SidecarHeader(cache: Cache, f: Format): HeaderWords {
    HeaderWords(f.mappingOffset, 0, 0, Truncated(HEADER_SIZE + |f.padding.region|), SizeWord(cache, f), 0, 0)
  }

  function SymbolFile(cache: Cache, f: Format): seq<byte> {
    if f.sidecar then Header(SidecarHeader(cache, f), f.padding.header) + Surrounded(cache, f)
    else Main(cache, f)
  }

  // ---- reading the records back ----

  lemma WordAt(bytes: seq<byte>, at: nat, w: u32)
    requires at + 4 <= |bytes| && forall k | 0 <= k < 4 :: bytes[at + k] == U32Bytes(w)[k]
    ensures U32At(bytes, at) == w
  {
    assert bytes[at] == U32Bytes(w)[0] && bytes[at + 1] == U32Bytes(w)[1];
    assert bytes[at + 2] == U32Bytes(w)[2] && bytes[at + 3] == U32Bytes(w)[3];
  }

  lemma HeaderRead(h: HeaderWords, rest: seq<byte>)
    ensures var b := Header(h, rest);
            && b[..7] == MAGIC && U32At(b, 16) == h.mappingOffset && U32At(b, 24) == h.old0 && U32At(b, 28) == h.old1
            && U64At(b, 72) == h.localOffset && U64At(b, 80) == h.localSize
            && U32At(b, 448) == h.new0 && U32At(b, 452) == h.new1
  {
    hide U32At, U64At, U32Bytes, U64Bytes;
    var b := Header(h, rest);
    assert b[..7] == MAGIC;
    WordAt(b, 16, h.mappingOffset);
    WordAt(b, 24, h.old0);
    WordAt(b, 28, h.old1);
    assert Holds(b, 72, U64Bytes(h.localOffset)) && Holds(b, 80, U64Bytes(h.localSize));
    WordWithin(b, 72, U64Bytes(h.localOffset), 0);
    WordWithin(b, 80, U64Bytes(h.localSize), 0);
    WordAt(b, 448, h.new0);
    WordAt(b, 452, h.new1);
  }

  lemma FourParts<T>(a: seq<T>, b: seq<T>, c: seq<T>, d: seq<T>)
    ensures Holds(a + b + c + d, 0, a) && Holds(a + b + c + d, |a|, b)
    ensures Holds(a + b + c + d, |a| + |b|, c) && Holds(a + b + c + d, |a| + |b| + |c|, d)
  {
  }

  lemma EntryRead(wide: bool, start: nat, count: nat)
    requires start < TWO_32 && count < TWO_32
    ensures var e := Entry(wide, start, count);
            if wide then U32At(e, 8) == start && U32At(e, 12) == count else U32At(e, 4) == start && U32At(e, 8) == count
  {
    hide U32At, Word;
    var e, at := Entry(wide, start, count), EntrySize(wide) - 8;
    assert Holds(e, at, Word(start)) && Holds(e, at + 4, Word(count));
    WordHeld(e, at, start);
    WordHeld(e, at + 4, count);
  }

  lemma NlistRead(strx: nat, symbol: Symbol)
    requires strx < TWO_32
    ensures ReadNList(Nlist(strx, symbol), 0) == NList(strx, symbol.kind, symbol.value)
  {
    hide U32At, U64At, Word, U64Bytes;
    var n := Nlist(strx, symbol);
    assert Holds(n, 0, Word(strx)) && Holds(n, 8, U64Bytes(symbol.value));
    WordHeld(n, 0, strx);
    WordWithin(n, 8, U64Bytes(symbol.value), 0);
  }

  lemma ImageRecordRead(pathOffset: nat)
    requires pathOffset < TWO_32
    ensures U32At(ImageRecord(pathOffset), 24) == pathOffset
  {
    hide U32At, Word;
    assert Holds(ImageRecord(pathOffset), 24, Word(pathOffset));
    WordHeld(ImageRecord(pathOffset), 24, pathOffset);
  }

  predicate Small(info: Info) {
    && info.nlistOffset < TWO_32 && info.nlistCount < TWO_32 && info.stringsOffset < TWO_32
    && info.stringsSize < TWO_32 && info.entriesOffset < TWO_32 && info.entriesCount < TWO_32
  }

  lemma InfoRead(info: Info)
    requires Small(info)
    ensures ReadInfo(InfoBytes(info)) == info
  {
    hide U32At, Word;
    var b := InfoBytes(info);
    assert Holds(b, 0, Word(info.nlistOffset)) && Holds(b, 4, Word(info.nlistCount))
        && Holds(b, 8, Word(info.stringsOffset));
    assert Holds(b, 12, Word(info.stringsSize)) && Holds(b, 16, Word(info.entriesOffset))
        && Holds(b, 20, Word(info.entriesCount));
    WordHeld(b, 0, info.nlistOffset);
    WordHeld(b, 4, info.nlistCount);
    WordHeld(b, 8, info.stringsOffset);
    WordHeld(b, 12, info.stringsSize);
    WordHeld(b, 16, info.entriesOffset);
    WordHeld(b, 20, info.entriesCount);
  }

  lemma TerminatedSpells(bytes: seq<byte>, at: nat, name: Name)
    requires Holds(bytes, at, Terminated(name))
    ensures Spells(bytes, at, name)
  {
    var t := Terminated(name);
    assert bytes[at..at + |name|] == bytes[at..at + |t|][..|name|] == t[..|name|] == name;
    assert bytes[at + |name|] == bytes[at..at + |t|][|name|];
  }

  // ---- the region holds the cache ----

  lemma {:induction false} OffsetMonotone<T>(parts: seq<seq<T>>, i: nat)
    requires i <= |parts|
    ensures Offset(parts, i) <= |Flatten(parts)|
    decreases i
  {
    if i > 0 { OffsetMonotone(parts[1..], i - 1); }
  }

  lemma FixedLength<T>(parts: seq<seq<T>>, size: nat)
    requires forall p | p in parts :: |p| == size
    ensures |Flatten(parts)| == size * |parts|
  {
    FlattenLength(parts);
    OffsetFixed(parts, size, |parts|);
  }

  lemma EntriesLength(cache: Cache, wide: bool)
    ensures |Flatten(Entries(cache, wide))| == EntrySize(wide) * |cache|
  {
    hide Flatten, Entry;
    FixedLength(Entries(cache, wide), EntrySize(wide));
  }

  lemma NlistLength(all: seq<Symbol>)
    ensures |Flatten(NlistParts(all))| == NLIST_SIZE * |all|
  {
    hide Flatten, NlistOf;
    FixedLength(NlistParts(all), NLIST_SIZE);
  }

  lemma SevenParts<T>(a: seq<T>, b: seq<T>, c: seq<T>, d: seq<T>, e: seq<T>, f: seq<T>, g: seq<T>)
    ensures var all := a + b + c + d + e + f + g;
            && Holds(all, 0, a) && Holds(all, |a| + |b|, c) && Holds(all, |a| + |b| + |c| + |d|, e)
            && Holds(all, |a| + |b| + |c| + |d| + |e| + |f|, g)
            && |all| == |a| + |b| + |c| + |d| + |e| + |f| + |g|
  {
  }

  /** Where the directory and the three tables of a region are. */
  lemma RegionParts(cache: Cache, f: Format)
    ensures var all, info, local := Flatten(SymbolLists(cache)), RegionInfo(cache, f), Region(cache, f);
            && Holds(local, 0, InfoBytes(info)) && Holds(local, info.entriesOffset, Flatten(Entries(cache, Wide(f))))
            && Holds(local, info.nlistOffset, Flatten(NlistParts(all)))
            && |Flatten(NlistParts(all))| == NLIST_SIZE * |all|
            && Holds(local, info.stringsOffset, Flatten(PoolParts(all)))
            && |local| == info.stringsOffset + info.stringsSize
  {
    hide Flatten, Holds, InfoBytes, Entries, NlistParts, PoolParts, SymbolLists, EntrySize;
    var all, info := Flatten(SymbolLists(cache)), RegionInfo(cache, f);
    EntriesLength(cache, Wide(f));
    NlistLength(all);
    SevenParts(InfoBytes(info), f.padding.entries, Flatten(Entries(cache, Wide(f))), f.padding.nlists,
               Flatten(NlistParts(all)), f.padding.strings, Flatten(PoolParts(all)));
  }

  /** The same for whatever begins with a region. */
  lemma LocalParts(cache: Cache, f: Format, local: seq<byte>)
    requires Holds(local, 0, Region(cache, f))
    ensures var all, info := Flatten(SymbolLists(cache)), RegionInfo(cache, f);
            && Holds(local, 0, InfoBytes(info)) && Holds(local, info.entriesOffset, Flatten(Entries(cache, Wide(f))))
            && Holds(local, info.nlistOffset, Flatten(NlistParts(all)))
            && |Flatten(NlistParts(all))| == NLIST_SIZE * |all|
            && Holds(local, info.stringsOffset, Flatten(PoolParts(all)))
  {
    hide Flatten, Holds, InfoBytes, Entries, NlistParts, PoolParts, SymbolLists, RegionInfo, Region;
    var all, info, region := Flatten(SymbolLists(cache)), RegionInfo(cache, f), Region(cache, f);
    RegionParts(cache, f);
    HoldsWithin(local, 0, region, 0, InfoBytes(info));
    HoldsWithin(local, 0, region, info.entriesOffset, Flatten(Entries(cache, Wide(f))));
    HoldsWithin(local, 0, region, info.nlistOffset, Flatten(NlistParts(all)));
    HoldsWithin(local, 0, region, info.stringsOffset, Flatten(PoolParts(all)));
  }

  lemma RegionRead(cache: Cache, f: Format, local: seq<byte>)
    requires Small(RegionInfo(cache, f)) && Holds(local, 0, Region(cache, f))
    ensures var info := RegionInfo(cache, f);
            && |local| >= INFO_SIZE && ReadInfo(local) == info && TablesFit(local, info)
            && Nlists(local, info) == Flatten(NlistParts(Flatten(SymbolLists(cache))))
            && Strings(local, info) == Flatten(PoolParts(Flatten(SymbolLists(cache))))
  {
    hide Flatten, U32At, RegionInfo, Region, InfoBytes;
    var info := RegionInfo(cache, f);
    LocalParts(cache, f, local);
    RegionTables(cache, f);
    InfoRead(info);
    ReadInfoWithin(local, InfoBytes(info));
  }

  lemma ReadInfoWithin(local: seq<byte>, bytes: seq<byte>)
    requires |bytes| == INFO_SIZE && Holds(local, 0, bytes)
    ensures ReadInfo(local) == ReadInfo(bytes)
  {
    hide U32At, Holds;
    assert |local| >= INFO_SIZE by { HoldsFits(local, 0, bytes); }
    WordWithin(local, 0, bytes, 0);
    WordWithin(local, 0, bytes, 4);
    WordWithin(local, 0, bytes, 8);
    WordWithin(local, 0, bytes, 12);
    WordWithin(local, 0, bytes, 16);
    WordWithin(local, 0, bytes, 20);
  }

  lemma HoldsFits(whole: seq<byte>, at: nat, part: seq<byte>)
    requires Holds(whole, at, part)
    ensures at + |part| <= |whole|
  {
  }

  /** The tables a region's directory announces. */
  lemma RegionTables(cache: Cache, f: Format)
    ensures RegionInfo(cache, f).nlistCount == |Flatten(SymbolLists(cache))|
    ensures RegionInfo(cache, f).stringsSize == |Flatten(PoolParts(Flatten(SymbolLists(cache))))|
    ensures RegionInfo(cache, f).entriesCount == |cache|
  {
  }

  /** The entry of image `i` gives its stretch of the nlist table. */
  lemma RangeRead(cache: Cache, f: Format, local: seq<byte>, i: nat)
    requires Small(RegionInfo(cache, f)) && Holds(local, 0, Region(cache, f)) && i < |cache|
    ensures NlistRange(local, RegionInfo(cache, f), Wide(f), i)
            == Some(TableRange(Offset(SymbolLists(cache), i), |cache[i].symbols|))
    ensures Offset(SymbolLists(cache), i) + |cache[i].symbols| <= |Flatten(SymbolLists(cache))|
  {
    hide Flatten, Offset, U32At, Entry, Holds, RegionInfo, Region, SymbolLists, Entries, NlistRange, Wide;
    var wide, info, entries := Wide(f), RegionInfo(cache, f), Entries(cache, Wide(f));
    var start, count := Offset(SymbolLists(cache), i), |cache[i].symbols|;
    LocalParts(cache, f, local);
    RegionTables(cache, f);
    PartAt(entries, i);
    EntriesFixed(cache, wide, i);
    HoldsWithin(local, info.entriesOffset, Flatten(entries), EntrySize(wide) * i, Entry(wide, start, count));
    PartAt(SymbolLists(cache), i);
    OffsetMonotone(SymbolLists(cache), i + 1);
    EntryRead(wide, start, count);
    var at := info.entriesOffset + EntrySize(wide) * i;
    HoldsFits(local, at, Entry(wide, start, count));
    WordWithin(local, at, Entry(wide, start, count), EntrySize(wide) - 8);
    WordWithin(local, at, Entry(wide, start, count), EntrySize(wide) - 4);
    RangeIs(local, info, wide, i, start, count);
  }

  lemma RangeIs(local: seq<byte>, info: Info, wide: bool, i: nat, start: nat, count: nat)
    requires var at := info.entriesOffset + EntrySize(wide) * i;
             && i < info.entriesCount && at + EntrySize(wide) <= |local|
             && U32At(local, at + EntrySize(wide) - 8) == start && U32At(local, at + EntrySize(wide) - 4) == count
    ensures NlistRange(local, info, wide, i) == Some(TableRange(start, count))
  {
    hide U32At;
  }

  lemma EntriesFixed(cache: Cache, wide: bool, i: nat)
    requires i < |cache|
    ensures Offset(Entries(cache, wide), i) == EntrySize(wide) * i
  {
    hide Entry;
    OffsetFixed(Entries(cache, wide), EntrySize(wide), i);
  }

  lemma NlistFixed(all: seq<Symbol>, m: nat)
    requires m < |all|
    ensures Offset(NlistParts(all), m) == NLIST_SIZE * m
  {
    hide NlistOf;
    OffsetFixed(NlistParts(all), NLIST_SIZE, m);
  }

  /** Entry `m` of the nlist table is symbol `m` of all, and the pool spells its name. */
  lemma SymbolRead(all: seq<Symbol>, m: nat)
    requires m < |all| && |Flatten(PoolParts(all))| < TWO_32
    ensures NLIST_SIZE * m + NLIST_SIZE <= |Flatten(NlistParts(all))|
    ensures var entry := ReadNList(Flatten(NlistParts(all)), NLIST_SIZE * m);
            && entry.kind == all[m].kind && entry.value == all[m].value && entry.strx != 0
            && Spells(Flatten(PoolParts(all)), entry.strx, all[m].name)
  {
    hide Flatten, Offset, U32At, U64At, Nlist, Holds, NlistParts, PoolParts;
    var nlists, pool := Flatten(NlistParts(all)), Flatten(PoolParts(all));
    var strx := Offset(PoolParts(all), m + 1);
    PartAt(NlistParts(all), m);
    NlistFixed(all, m);
    PartAt(PoolParts(all), m + 1);
    TerminatedSpells(pool, strx, all[m].name);
    HoldsFits(pool, strx, Terminated(all[m].name));
    PoolStarts(all, m);
    NlistRead(strx, all[m]);
    NlistWithin(nlists, NLIST_SIZE * m, NlistOf(all, m));
  }

  lemma NlistWithin(nlists: seq<byte>, at: nat, record: seq<byte>)
    requires |record| == NLIST_SIZE && Holds(nlists, at, record)
    ensures at + NLIST_SIZE <= |nlists| && ReadNList(nlists, at) == ReadNList(record, 0)
  {
    hide U32At, U64At;
    WordWithin(nlists, at, record, 0);
    WordWithin(nlists, at, record, 8);
    assert record[4] == nlists[at..at + |record|][4];
  }

  lemma PoolStarts(all: seq<Symbol>, m: nat)
    requires m < |all|
    ensures Offset(PoolParts(all), m + 1) > 0
  {
    assert Offset(PoolParts(all), m + 1) == 1 + Offset(PoolParts(all)[1..], m);
  }

  /** Whatever begins with the encoded region holds every image's symbols. */
  lemma RegionIsHeld(cache: Cache, f: Format, local: seq<byte>)
    requires Small(RegionInfo(cache, f)) && Holds(local, 0, Region(cache, f))
    ensures RegionHolds(local, Wide(f), cache)
  {
    hide RangeHolds, Region, RegionInfo, Flatten, Holds;
    forall i | 0 <= i < |cache| ensures RangeHolds(local, Wide(f), i, cache[i].symbols) {
      RangeIsHeld(cache, f, local, i);
    }
  }

  lemma RangeIsHeld(cache: Cache, f: Format, local: seq<byte>, i: nat)
    requires Small(RegionInfo(cache, f)) && Holds(local, 0, Region(cache, f)) && i < |cache|
    ensures RangeHolds(local, Wide(f), i, cache[i].symbols)
  {
    hide Region, Flatten, Offset, U32At, U64At, Spells, Nlists, Strings, NlistRange, TablesFit, ReadInfo, RegionInfo,
         NlistParts, PoolParts, Holds;
    var all := Flatten(SymbolLists(cache));
    RegionRead(cache, f, local);
    RegionTables(cache, f);
    RangeRead(cache, f, local, i);
    PartAt(SymbolLists(cache), i);
    var start := Offset(SymbolLists(cache), i);
    forall j | 0 <= j < |cache[i].symbols| ensures SymbolHeld(local, start + j, cache[i].symbols[j]) {
      HeldAt(all, start, cache[i].symbols, j);
      SymbolRead(all, start + j);
    }
  }

  lemma HeldAt<T>(whole: seq<T>, at: nat, part: seq<T>, j: nat)
    requires Holds(whole, at, part) && j < |part|
    ensures at + j < |whole| && whole[at + j] == part[j]
  {
    assert part[j] == whole[at..at + |part|][j];
  }

  // ---- the main file ----

  lemma RecordsLength(cache: Cache, f: Format)
    ensures |Flatten(ImageRecords(cache, f))| == IMAGE_SIZE * |cache|
  {
    hide Flatten, ImageRecord;
    FixedLength(ImageRecords(cache, f), IMAGE_SIZE);
  }

  lemma RecordsFixed(cache: Cache, f: Format, i: nat)
    requires i < |cache|
    ensures Offset(ImageRecords(cache, f), i) == IMAGE_SIZE * i
  {
    hide ImageRecord;
    OffsetFixed(ImageRecords(cache, f), IMAGE_SIZE, i);
  }

  /** Where the path of image `i` is written. */
  function PathOffset(cache: Cache, f: Format, i: nat): nat
    requires i < |cache|
  {
    PathStart(cache, f) + Offset(PathParts(cache), i)
  }

  /** Every number of the cache fits the field that holds it. */
  ghost predicate Encodable(cache: Cache, f: Format) {
    && |cache| < TWO_32 && TableStart(f) < TWO_32 && (forall i | 0 <= i < |cache| :: PathOffset(cache, f, i) < TWO_32)
    && Small(RegionInfo(cache, f)) && RegionStart(cache, f) < TWO_64
  }

  /** Where the symbol file has the region. */
  function RegionStart(cache: Cache, f: Format): nat {
    if f.sidecar then HEADER_SIZE + |f.padding.region| else LocalStart(cache, f)
  }

  lemma MainParts(cache: Cache, f: Format)
    ensures var main := Main(cache, f);
            && Holds(main, 0, Header(MainHeader(cache, f), f.padding.header))
            && Holds(main, TableStart(f), Flatten(ImageRecords(cache, f)))
            && Holds(main, PathStart(cache, f), Flatten(PathParts(cache)))
            && |main| == PathStart(cache, f) + |Flatten(PathParts(cache))|
                         + (if f.sidecar then 0 else |Surrounded(cache, f)|)
            && (!f.sidecar ==> Holds(main, PathStart(cache, f) + |Flatten(PathParts(cache))|, Surrounded(cache, f)))
  {
    hide Flatten, Holds, Header, ImageRecords, PathParts, Region, Surrounded, MainHeader;
    RecordsLength(cache, f);
    FivePieces(Header(MainHeader(cache, f), f.padding.header), f.padding.images, Flatten(ImageRecords(cache, f)),
               Flatten(PathParts(cache)), if f.sidecar then [] else Surrounded(cache, f));
  }

  lemma FivePieces<T>(a: seq<T>, b: seq<T>, c: seq<T>, d: seq<T>, e: seq<T>)
    ensures var all := a + b + c + d + e;
            && Holds(all, 0, a) && Holds(all, |a| + |b|, c) && Holds(all, |a| + |b| + |c|, d)
            && Holds(all, |a| + |b| + |c| + |d|, e) && |all| == |a| + |b| + |c| + |d| + |e|
  {
  }

  /** What a file that starts with a header says there. */
  lemma StartsWithHeader(file: seq<byte>, h: HeaderWords, rest: seq<byte>)
    requires Holds(file, 0, Header(h, rest))
    ensures IsCache(file) && U32At(file, 16) == h.mappingOffset && U32At(file, 24) == h.old0
            && U32At(file, 28) == h.old1
    ensures U64At(file, 72) == h.localOffset && U64At(file, 80) == h.localSize
    ensures U32At(file, 448) == h.new0 && U32At(file, 452) == h.new1
  {
    hide U32At, U64At, Header;
    HeaderRead(h, rest);
    var header := Header(h, rest);
    assert file[..7] == header[..7];
    WordWithin(file, 0, header, 16);
    WordWithin(file, 0, header, 24);
    WordWithin(file, 0, header, 28);
    WordWithin(file, 0, header, 72);
    WordWithin(file, 0, header, 80);
    WordWithin(file, 0, header, 448);
    WordWithin(file, 0, header, 452);
  }

  predicate SpareZero(f: Format) {
    f.spare0 == 0 || f.spare1 == 0
  }

  /**
   The resolver takes up the encoded image table exactly when the layout is modern, a spare word is
   zero, or the spare words happen to be the table's own.
   */
  lemma ImageTableExactly(cache: Cache, f: Format)
    requires cache != [] && |cache| < TWO_32 && TableStart(f) < TWO_32
    ensures IsCache(Main(cache, f))
    ensures ImageTable(Main(cache, f)) == Some(TableRange(TableStart(f), |cache|)) <==>
            f.modern || SpareZero(f) || (f.spare0 == TableStart(f) && f.spare1 == |cache|)
  {
    hide U32At, Main, Header, LocalStart, Flatten, PathParts, Region, Surrounded, Holds, SizeWord;
    MainParts(cache, f);
    StartsWithHeader(Main(cache, f), MainHeader(cache, f), f.padding.header);
  }

  /**
   Where neither spare word is zero, a legacy table is not even looked at: nothing is found behind a range
   that does not fit.
   */
  lemma LegacyTableMissed(cache: Cache, f: Format, symbols: seq<byte>, slide: u64, path: Name, name: Name)
    requires !f.modern && f.spare0 != 0 && f.spare1 != 0 && f.spare0 + IMAGE_SIZE * f.spare1 > |Main(cache, f)|
    ensures Lookup(Main(cache, f), symbols, slide, path, name) == None
  {
    hide U32At, Main, Header, LocalStart, Flatten, PathParts, Region, Surrounded, Holds, FirstImage, LocalSymbol,
         LocalRegion, SizeWord;
    MainParts(cache, f);
    StartsWithHeader(Main(cache, f), MainHeader(cache, f), f.padding.header);
  }

  /** Spare words that announce a table behind the end of any file of announceable size. */
  function Misled(f: Format): Format {
    f.(modern := false, spare0 := 1, spare1 := 0xffff_ffff)
  }

  /**
   The zero word is needed: every legacy cache that answers at all has spare words behind which the answer
   is lost.
   */
  lemma ZeroWordNeeded(cache: Cache, f: Format, slide: u64, path: Name, name: Name)
    requires Answer(cache, slide, path, name).Some? && |Main(cache, Misled(f))| <= IMAGE_SIZE * 0xffff_ffff
    ensures Lookup(Main(cache, Misled(f)), SymbolFile(cache, Misled(f)), slide, path, name)
            != Answer(cache, slide, path, name)
  {
    hide Lookup, Answer, Main, SymbolFile;
    LegacyTableMissed(cache, Misled(f), SymbolFile(cache, Misled(f)), slide, path, name);
  }

  /** The record of image `i` leads to its path. */
  lemma PathRead(cache: Cache, f: Format, i: nat)
    requires Encodable(cache, f) && i < |cache|
    ensures PathStart(cache, f) <= |Main(cache, f)|
    ensures HasPath(Main(cache, f), TableRange(TableStart(f), |cache|), i, cache[i].path)
  {
    hide Flatten, Offset, U32At, ImageRecord, Holds, Main, ImageRecords, PathParts, Header, Region, Surrounded,
         RegionInfo;
    var main, at := Main(cache, f), PathOffset(cache, f, i);
    MainParts(cache, f);
    PartAt(ImageRecords(cache, f), i);
    RecordsFixed(cache, f, i);
    HoldsWithin(main, TableStart(f), Flatten(ImageRecords(cache, f)), IMAGE_SIZE * i, ImageRecord(at));
    PartAt(PathParts(cache), i);
    HoldsWithin(main, PathStart(cache, f), Flatten(PathParts(cache)), Offset(PathParts(cache), i),
                Terminated(cache[i].path));
    HoldsFits(main, at, Terminated(cache[i].path));
    TerminatedSpells(main, at, cache[i].path);
    ImageRecordRead(at);
    WordWithin(main, TableStart(f) + IMAGE_SIZE * i, ImageRecord(at), 24);
  }

  lemma RegionLength(cache: Cache, f: Format)
    ensures |Region(cache, f)| >= INFO_SIZE
    ensures |Region(cache, f)| == RegionInfo(cache, f).stringsOffset + RegionInfo(cache, f).stringsSize
  {
    hide Flatten, Region, RegionInfo, InfoBytes, Entries, NlistParts, PoolParts, SymbolLists;
    RegionParts(cache, f);
    HoldsFits(Region(cache, f), 0, InfoBytes(RegionInfo(cache, f)));
  }

  /** What the resolver takes for the region: the region, and without a size all that is behind it too. */
  function Seen(cache: Cache, f: Format): seq<byte> {
    Region(cache, f) + if f.sized then [] else f.padding.behind
  }

  /** The symbol file leads to the region, whether its size is given or not, whatever surrounds it. */
  lemma LocalRegionRead(cache: Cache, f: Format)
    requires Encodable(cache, f)
    ensures IsCache(SymbolFile(cache, f)) && LocalRegion(SymbolFile(cache, f)) == Some(Seen(cache, f))
    ensures Holds(Seen(cache, f), 0, Region(cache, f))
  {
    hide U32At, U64At, Main, Header, Flatten, PathParts, Region, RegionInfo, IsCache, LocalRegion;
    var file, start := SymbolFile(cache, f), RegionStart(cache, f);
    RegionLength(cache, f);
    if f.sidecar {
      var h := SidecarHeader(cache, f);
      assert Holds(file, 0, Header(h, f.padding.header)) && Holds(file, HEADER_SIZE, Surrounded(cache, f));
      StartsWithHeader(file, h, f.padding.header);
    } else {
      MainParts(cache, f);
      StartsWithHeader(file, MainHeader(cache, f), f.padding.header);
    }
    InSurroundings(file, start - |f.padding.region|, f.padding.region, Region(cache, f), f.padding.behind);
    RegionAt(file, start, Region(cache, f), f.padding.behind, SizeWord(cache, f));
  }

  lemma InSurroundings<T>(whole: seq<T>, at: nat, a: seq<T>, b: seq<T>, c: seq<T>)
    requires Holds(whole, at, a + b + c) && |whole| == at + |a + b + c|
    ensures Holds(whole, at + |a|, b) && whole[at + |a|..] == b + c
  {
    HoldsWithin(whole, at, a + b + c, |a|, b);
    HoldsWithin(whole, at, a + b + c, |a|, b + c);
  }

  lemma RegionAt(file: seq<byte>, at: nat, region: seq<byte>, behind: seq<byte>, size: nat)
    requires IsCache(file) && Holds(file, at, region) && at > 0 && at <= |file| && file[at..] == region + behind
    requires U64At(file, 72) == at && U64At(file, 80) == size && (size == 0 || size == |region|) && |region| > 0
    ensures LocalRegion(file) == Some(region + if size == 0 then behind else [])
  {
    hide U64At;
    assert region + [] == region && file[at..at + |region|] == region;
  }

  /** When the resolver can tell which header words locate the image table. */
  predicate Readable(cache: Cache, f: Format) {
    (f.modern && cache != []) || SpareZero(f) || (f.spare0 == TableStart(f) && f.spare1 == |cache|)
  }

  lemma ImagesAreHeld(cache: Cache, f: Format)
    requires Encodable(cache, f) && Readable(cache, f)
    ensures IsCache(Main(cache, f)) && ImagesHeld(Main(cache, f), cache) && Uses64BitEntry(Main(cache, f)) == Wide(f)
  {
    hide U32At, Main, Header, HasPath, LocalStart, Flatten, PathParts, Region, RegionInfo, Surrounded, Holds, SizeWord;
    MainParts(cache, f);
    StartsWithHeader(Main(cache, f), MainHeader(cache, f), f.padding.header);
    if cache != [] {
      ImageTableExactly(cache, f);
      forall i | 0 <= i < |cache|
        ensures HasPath(Main(cache, f), TableRange(TableStart(f), |cache|), i, cache[i].path) {
        PathRead(cache, f, i);
      }
    }
  }

  /**
   Encoding a cache in any layout, with any other bytes around its tables, and looking a symbol up gives the abstract
   answer, so all layouts agree.
   */
  lemma RoundTrip(cache: Cache, f: Format, slide: u64, path: Name, name: Name)
    requires IsNamed(cache) && IsName(path) && IsName(name)
    requires Encodable(cache, f) && Readable(cache, f)
    ensures Lookup(Main(cache, f), SymbolFile(cache, f), slide, path, name) == Answer(cache, slide, path, name)
  {
    hide Lookup, Answer, Main, SymbolFile, Region, RegionInfo, RegionHolds, IsCache, ImageTable, LocalRegion, Flatten,
         Uses64BitEntry, PathOffset, RegionStart, Small, ImagesHeld, Seen, Holds;
    ImagesAreHeld(cache, f);
    LocalRegionRead(cache, f);
    RegionIsHeld(cache, f, Seen(cache, f));
    HeldCacheIsFound(Main(cache, f), SymbolFile(cache, f), cache, slide, path, name);
  }
}
