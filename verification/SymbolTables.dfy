/** NUL-terminated strings inside bounded byte ranges, and the nlist records that refer to them. */
module SymbolTables {
  import opened Bits
  import opened Words
  import opened Wrappers

  const NLIST_SIZE := 16
  const N_TYPE := 0x0e
  const N_SECT := 0x0e

  type Name = seq<byte>

  /** What a C string can hold. */
  predicate IsName(name: Name) {
    forall b | b in name :: b != 0
  }

  /** `memchr(bytes + from, 0, …)`, as a position in `bytes`. */
  function FindTerminator(bytes: seq<byte>, from: nat): (t: Option<nat>)
    requires from <= |bytes|
    ensures t.Some? ==>
              from <= t.value < |bytes| && bytes[t.value] == 0 && forall k | from <= k < t.value :: bytes[k] != 0
    ensures t.None? ==> forall k | from <= k < |bytes| :: bytes[k] != 0
    decreases |bytes| - from
  {
    if from == |bytes| then None else if bytes[from] == 0 then Some(from) else FindTerminator(bytes, from + 1)
  }

  /** Finds the terminator within bounds, then compares length and contents. */
  predicate StringEquals(bytes: seq<byte>, offset: nat, expected: Name) {
    && offset < |bytes|
    && var t := FindTerminator(bytes, offset);
       t.Some? && t.value - offset == |expected| && bytes[offset..t.value] == expected
  }

  /** The bytes at `offset` spell the name and then end. */
  predicate Spells(bytes: seq<byte>, offset: nat, name: Name) {
    && offset + |name| < |bytes| && bytes[offset..offset + |name|] == name && bytes[offset + |name|] == 0
  }

  lemma StringEqualsExactly(bytes: seq<byte>, offset: nat, name: Name)
    requires IsName(name)
    ensures StringEquals(bytes, offset, name) <==> Spells(bytes, offset, name)
  {
    if Spells(bytes, offset, name) {
      forall k | offset <= k < offset + |name| ensures bytes[k] != 0 {
        assert bytes[k] == bytes[offset..offset + |name|][k - offset];
        assert bytes[k] in name;
      }
    }
  }

  datatype NList = NList(strx: u32, kind: byte, value: u64)

  function ReadNList(bytes: seq<byte>, offset: nat): NList
    requires offset + NLIST_SIZE <= |bytes|
  {
    NList(U32At(bytes, offset), bytes[offset + 4], U64At(bytes, offset + 8))
  }

  /** A symbol defined in a section: all three type bits are set. */
  predicate IsSectionSymbol(kind: byte) {
    And(kind, N_TYPE) == N_SECT
  }

  lemma SectionBits(kind: byte)
    ensures IsSectionSymbol(kind) <==> kind / 2 % 8 == 7
  {
    AndEven(kind, 7);
    assert Pow2(3) == 8;
    AndLowOnes(kind / 2, 3);
    ShrLow(kind / 2, 3, 8);
  }

  /** The entry is a section symbol whose nonzero string offset spells `name`. */
  predicate IsSymbol(entry: NList, strings: seq<byte>, name: Name) {
    entry.strx != 0 && IsSectionSymbol(entry.kind) && Spells(strings, entry.strx, name)
  }

  /** The first entry from number `k` on that is the symbol, among `n` entries. */
  function FirstSymbol(symbols: seq<byte>, strings: seq<byte>, k: nat, n: nat, name: Name): (index: Option<nat>)
    requires k <= n && NLIST_SIZE * n <= |symbols|
    ensures index.Some? ==> && k <= index.value < n
                            && IsSymbol(ReadNList(symbols, NLIST_SIZE * index.value), strings, name)
                            && forall j | k <= j < index.value ::
                                 !IsSymbol(ReadNList(symbols, NLIST_SIZE * j), strings, name)
    ensures index.None? ==> forall j | k <= j < n :: !IsSymbol(ReadNList(symbols, NLIST_SIZE * j), strings, name)
    decreases n - k
  {
    if k == n then None
    else if IsSymbol(ReadNList(symbols, NLIST_SIZE * k), strings, name) then Some(k)
    else FirstSymbol(symbols, strings, k + 1, n, name)
  }

  lemma {:induction false} FirstSymbolIs(symbols: seq<byte>, strings: seq<byte>, k: nat, n: nat, j: nat, name: Name)
    requires k <= j < n && NLIST_SIZE * n <= |symbols| && IsSymbol(ReadNList(symbols, NLIST_SIZE * j), strings, name)
    requires forall m | k <= m < j :: !IsSymbol(ReadNList(symbols, NLIST_SIZE * m), strings, name)
    ensures FirstSymbol(symbols, strings, k, n, name) == Some(j)
    decreases n - k
  {
    if k < j { FirstSymbolIs(symbols, strings, k + 1, n, j, name); }
  }

  /** Copies the first matching entry after validating every string it looks at. */
  method FindSymbolEntry(symbols: seq<byte>, strings: seq<byte>, symbolCount: u32, name: Name)
    returns (entry: Option<NList>)
    requires NLIST_SIZE * symbolCount <= |symbols| && IsName(name)
    ensures entry == match FirstSymbol(symbols, strings, 0, symbolCount, name)
                     case None => None
                     case Some(i) => Some(ReadNList(symbols, NLIST_SIZE * i))
  {
    hide Spells, IsSectionSymbol, FindTerminator, ReadNList;
    var index := 0;
    while index < symbolCount
      invariant 0 <= index <= symbolCount
      invariant FirstSymbol(symbols, strings, 0, symbolCount, name)
                == FirstSymbol(symbols, strings, index, symbolCount, name)
    {
      var candidate := ReadNList(symbols, index * NLIST_SIZE);
      var stringOffset: nat := candidate.strx;
      StringEqualsExactly(strings, stringOffset, name);
      OutOfRange(strings, stringOffset, name);
      if stringOffset == 0 || stringOffset >= |strings| || !IsSectionSymbol(candidate.kind) {
        index := index + 1;
        continue;
      }
      var terminator := FindTerminator(strings, stringOffset);
      if terminator.None? {
        index := index + 1;
        continue;
      }
      var candidateLength := terminator.value - stringOffset;
      if candidateLength == |name| && strings[stringOffset..terminator.value] == name {
        return Some(candidate);
      }
      index := index + 1;
    }
    return None;
  }

  lemma OutOfRange(bytes: seq<byte>, offset: nat, name: Name)
    ensures offset >= |bytes| ==> !Spells(bytes, offset, name)
  {
  }
}
