/**
 Round trips through the shared-cache format: any bytes that hold an abstract cache are looked up to
 the abstract answer, and an encoder for every layout the resolver knows produces such bytes.
 */
module CacheEncoding {
  import opened SharedCache
  import opened SymbolTables
  import opened Words
  import opened Wrappers

  datatype Symbol = Symbol(name: Name, kind: byte, value: u64)

  datatype CacheImage = CacheImage(path: Name, symbols: seq<Symbol>)

  type Cache = seq<CacheImage>

  predicate IsNamed(cache: Cache) {
    forall image | image in cache :: IsName(image.path) && forall s | s in image.symbols :: IsName(s.name)
  }

  // ---- the abstract answer ----

  function FindIn(symbols: seq<Symbol>, name: Name): Option<Symbol> {
    if symbols == [] then None
    else if IsSectionSymbol(symbols[0].kind) && symbols[0].name == name then Some(symbols[0])
    else FindIn(symbols[1..], name)
  }

  function FindPath(cache: Cache, path: Name): Option<CacheImage> {
    if cache == [] then None else if cache[0].path == path then Some(cache[0]) else FindPath(cache[1..], path)
  }

  function Answer(cache: Cache, slide: u64, path: Name, name: Name): Option<u64> {
    match FindPath(cache, path)
    case None => None
    case Some(image) =>
      match FindIn(image.symbols, name)
      case None => None
      case Some(symbol) => if symbol.value + slide < TWO_64 then Some(slide + symbol.value) else None
  }

  // ---- bytes that hold a cache ----

  ghost predicate ImagesHeld(main: seq<byte>, cache: Cache)
    requires IsCache(main)
  {
    if cache == [] then ImageTable(main) == None
    else
      && ImageTable(main).Some? && ImageTable(main).value.count == |cache|
      && forall i | 0 <= i < |cache| :: HasPath(main, ImageTable(main).value, i, cache[i].path)
  }

  /** Entry `k` of the nlist table is the symbol. */
  predicate SymbolHeld(local: seq<byte>, k: nat, symbol: Symbol)
    requires |local| >= INFO_SIZE && TablesFit(local, ReadInfo(local)) && k < ReadInfo(local).nlistCount
  {
    var entry := NlistAt(local, k);
    && entry.kind == symbol.kind && entry.value == symbol.value && entry.strx != 0
    && Spells(Strings(local, ReadInfo(local)), entry.strx, symbol.name)
  }

  /** The nlist range of image `i` lists exactly these symbols, in order. */
  ghost predicate RangeHolds(local: seq<byte>, wide: bool, i: nat, symbols: seq<Symbol>) {
    && RangeFits(local, wide, i)
    && var range := NlistRange(local, ReadInfo(local), wide, i).value;
       range.count == |symbols| && forall j | 0 <= j < |symbols| :: SymbolHeld(local, range.offset + j, symbols[j])
  }

  ghost predicate RegionHolds(local: seq<byte>, wide: bool, cache: Cache) {
    forall i | 0 <= i < |cache| :: RangeHolds(local, wide, i, cache[i].symbols)
  }

  lemma SpellsOnce(bytes: seq<byte>, offset: nat, a: Name, b: Name)
    requires IsName(a) && IsName(b) && Spells(bytes, offset, a) && Spells(bytes, offset, b)
    ensures a == b
  {
    StringEqualsExactly(bytes, offset, a);
    StringEqualsExactly(bytes, offset, b);
  }

  lemma HeldSymbolMatches(local: seq<byte>, k: nat, symbol: Symbol, name: Name)
    requires |local| >= INFO_SIZE && TablesFit(local, ReadInfo(local)) && k < ReadInfo(local).nlistCount
    requires SymbolHeld(local, k, symbol) && IsName(name) && IsName(symbol.name)
    ensures IsSymbol(NlistAt(local, k), Strings(local, ReadInfo(local)), name) <==>
            IsSectionSymbol(symbol.kind) && symbol.name == name
    ensures NlistAt(local, k).value == symbol.value
  {
    hide Spells, U32At, U64At, IsSectionSymbol;
    var strings, strx := Strings(local, ReadInfo(local)), NlistAt(local, k).strx;
    if Spells(strings, strx, name) { SpellsOnce(strings, strx, name, symbol.name); }
  }

  lemma {:induction false} SymbolsFound(local: seq<byte>, wide: bool, i: nat, symbols: seq<Symbol>, k: nat, name: Name)
    requires RangeHolds(local, wide, i, symbols) && k <= |symbols| && IsName(name)
             && forall s | s in symbols :: IsName(s.name)
    ensures var info := ReadInfo(local);
            var range := NlistRange(local, info, wide, i).value;
            var found := FirstSymbol(Nlists(local, info), Strings(local, info), range.offset + k,
                                     range.offset + range.count, name);
            match FindIn(symbols[k..], name)
            case None => found == None
            case Some(symbol) =>
              found.Some? && ReadNList(Nlists(local, info), NLIST_SIZE * found.value).value == symbol.value
    decreases |symbols| - k
  {
    hide ReadInfo, NlistRange, SymbolHeld, IsSymbol, IsSectionSymbol, Strings, TablesFit, ReadNList;
    if k < |symbols| {
      var range := NlistRange(local, ReadInfo(local), wide, i).value;
      assert SymbolHeld(local, range.offset + k, symbols[k]);
      assert symbols[k] in symbols;
      HeldSymbolMatches(local, range.offset + k, symbols[k], name);
      assert symbols[k..][1..] == symbols[k + 1..];
      SymbolsFound(local, wide, i, symbols, k + 1, name);
    }
  }

  lemma {:induction false} ImagesFound(main: seq<byte>, cache: Cache, k: nat, path: Name)
    requires IsCache(main) && cache != [] && ImagesHeld(main, cache) && k <= |cache| && IsName(path) && IsNamed(cache)
    ensures var found := FirstImage(main, ImageTable(main).value, k, path);
            match FindPath(cache[k..], path)
            case None => found == None
            case Some(image) => found.Some? && cache[found.value] == image
    decreases |cache| - k
  {
    hide ImageTable, Spells, U32At;
    if k < |cache| {
      var table := ImageTable(main).value;
      assert HasPath(main, table, k, cache[k].path);
      assert cache[k] in cache;
      if HasPath(main, table, k, path) {
        SpellsOnce(main, U32At(main, table.offset + IMAGE_SIZE * k + 24), path, cache[k].path);
      }
      assert cache[k..][1..] == cache[k + 1..];
      ImagesFound(main, cache, k + 1, path);
    }
  }

  /** Whatever the layout, bytes that hold the cache are looked up to the abstract answer. */
  lemma HeldCacheIsFound(main: seq<byte>, symbols: seq<byte>, cache: Cache, slide: u64, path: Name, name: Name)
    requires IsCache(main) && IsCache(symbols) && IsName(path) && IsName(name) && IsNamed(cache)
    requires ImagesHeld(main, cache)
    requires LocalRegion(symbols).Some? && RegionHolds(LocalRegion(symbols).value, Uses64BitEntry(main), cache)
    ensures Lookup(main, symbols, slide, path, name) == Answer(cache, slide, path, name)
  {
    hide ImageTable, HasPath, LocalRegion, Uses64BitEntry, U32At, FirstSymbol, NlistRange, ReadNList, Spells,
        SymbolHeld;
    if cache != [] {
      ImagesFound(main, cache, 0, path);
      assert cache[0..] == cache;
      if FindPath(cache, path).Some? {
        var i := FirstImage(main, ImageTable(main).value, 0, path).value;
        var local, wide := LocalRegion(symbols).value, Uses64BitEntry(main);
        assert cache[i] in cache;
        assert RangeHolds(local, wide, i, cache[i].symbols);
        SymbolsFound(local, wide, i, cache[i].symbols, 0, name);
        assert cache[i].symbols[0..] == cache[i].symbols;
      }
    }
  }
}
