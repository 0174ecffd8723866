/** Bytes, machine words, and their little-endian layout in memory and in files. */
module Words {
  const TWO_32: int := 0x1_0000_0000
  const TWO_64: int := 0x1_0000_0000_0000_0000

  type byte = x: int | 0 <= x < 0x100
  type u32 = x: int | 0 <= x < TWO_32
  type u64 = x: int | 0 <= x < TWO_64
  type i64 = x: int | -0x8000_0000_0000_0000 <= x < 0x8000_0000_0000_0000

  /** The 32-bit word stored at `offset`. */
  function U32At(bytes: seq<byte>, offset: nat): (word: u32)
    requires offset + 4 <= |bytes|
  {
    var b0: int, b1: int, b2: int, b3: int := bytes[offset], bytes[offset + 1], bytes[offset + 2], bytes[offset + 3];
    b0 + 0x100 * b1 + 0x1_0000 * b2 + 0x100_0000 * b3
  }

  function U64At(bytes: seq<byte>, offset: nat): (word: u64)
    requires offset + 8 <= |bytes|
  {
    U32At(bytes, offset) + TWO_32 * U32At(bytes, offset + 4)
  }

  function U32Bytes(word: u32): (bytes: seq<byte>)
    ensures |bytes| == 4 && U32At(bytes, 0) == word
  {
    [word % 0x100, word / 0x100 % 0x100, word / 0x1_0000 % 0x100, word / 0x100_0000]
  }

  function U64Bytes(word: u64): (bytes: seq<byte>)
    ensures |bytes| == 8 && U64At(bytes, 0) == word
  {
    var low, high := U32Bytes(word % TWO_32), U32Bytes(word / TWO_32);
    assert U32At(low + high, 0) == U32At(low, 0);
    assert U32At(low + high, 4) == U32At(high, 0);
    low + high
  }

  /** A word is read alike from any sequence that holds the same bytes. */
  lemma U32AtSlice(bytes: seq<byte>, start: nat, end: nat, offset: nat)
    requires start + offset + 4 <= end <= |bytes|
    ensures U32At(bytes[start..end], offset) == U32At(bytes, start + offset)
  {
  }

  lemma U64AtSlice(bytes: seq<byte>, start: nat, end: nat, offset: nat)
    requires start + offset + 8 <= end <= |bytes|
    ensures U64At(bytes[start..end], offset) == U64At(bytes, start + offset)
  {
    U32AtSlice(bytes, start, end, offset);
    U32AtSlice(bytes, start, end, offset + 4);
  }

  // ---- memory ----

  predicate Mapped(memory: map<int, byte>, address: int, length: nat) {
    forall a | address <= a < address + length :: a in memory
  }

  function Load(memory: map<int, byte>, address: int, length: nat): (bytes: seq<byte>)
    requires Mapped(memory, address, length)
    ensures |bytes| == length && forall k | 0 <= k < length :: bytes[k] == memory[address + k]
  {
    seq(length, k requires 0 <= k < length => memory[address + k])
  }

  /** The memory with `data` stored at `address`; unmapped addresses stay unmapped. */
  function WriteAt(memory: map<int, byte>, address: int, data: seq<byte>): (after: map<int, byte>)
    ensures after.Keys == memory.Keys
    ensures forall a | a in memory && !(address <= a < address + |data|) :: after[a] == memory[a]
    ensures forall k | 0 <= k < |data| && address + k in memory :: after[address + k] == data[k]
  {
    map a | a in memory :: if address <= a < address + |data| then data[a - address] else memory[a]
  }

  /** What was stored is what is loaded. */
  lemma LoadStored(memory: map<int, byte>, address: int, data: seq<byte>)
    requires Mapped(memory, address, |data|)
    ensures Mapped(WriteAt(memory, address, data), address, |data|)
    ensures Load(WriteAt(memory, address, data), address, |data|) == data
  {
  }

  /** Storing back what was there undoes a store. */
  lemma StoreBack(memory: map<int, byte>, address: int, data: seq<byte>)
    requires Mapped(memory, address, |data|)
    ensures WriteAt(WriteAt(memory, address, data), address, Load(memory, address, |data|)) == memory
  {
    var undone := WriteAt(WriteAt(memory, address, data), address, Load(memory, address, |data|));
    forall a | a in memory ensures undone[a] == memory[a] {
      if address <= a < address + |data| {
        assert undone[address + (a - address)] == Load(memory, address, |data|)[a - address];
      }
    }
  }
}
