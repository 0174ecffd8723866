/**
 The destructive detour of RorkHookFunction.c: the encoders, the emitted jump, its execution by the
 A64 interpreter, and the patching of code memory over a kernel that may refuse any request.
 */
module Detour {
  import opened A64
  import opened Bits
  import opened Memory
  import opened Pages
  import opened Pointers
  import opened Words
  import opened Wrappers

  const ABSOLUTE_JUMP_WORDS := 5
  const PATCH_SIZE := 20
  /** x16, reserved for veneers between procedures. */
  const SCRATCH: byte := 16

  function EncodeMOVK(destinationRegister: byte, immediate: nat, shift: byte): u32 {
    var opcode := 0xf280_0000;
    var halfword := Shl(shift / 16, 21, 32);
    var encodedImmediate := Shl(immediate, 5, 32);
    var destination := And(destinationRegister, 0x1f);
    RegisterField(destinationRegister);
    WordOr(opcode, halfword);
    WordOr(Or(opcode, halfword), encodedImmediate);
    WordOr(Or(Or(opcode, halfword), encodedImmediate), destination);
    Or(Or(Or(opcode, halfword), encodedImmediate), destination)
  }

  function EncodeBR(sourceRegister: byte): u32 {
    var opcode := 0xd61f_0000;
    var source := Shl(And(sourceRegister, 0x1f), 5, 32);
    WordOr(opcode, source);
    Or(opcode, source)
  }

  lemma WordOr(x: nat, y: nat)
    ensures Pow2(32) == TWO_32
    ensures x < TWO_32 && y < TWO_32 ==> Or(x, y) < TWO_32
  {
    Pow2At64();
    if x < TWO_32 && y < TWO_32 { OrBelow(x, y, 32); }
  }

  lemma RegisterField(register: byte)
    ensures And(register, 0x1f) == register % 0x20
  {
    Powers();
    AndLowOnes(register, 5);
    ShrLow(register, 5, 0x20);
  }

  lemma Small(x: nat)
    requires x < 0x1_0000_0000
    ensures Low(x, 32) == x
  {
    Pow2At64();
    LowSmall(x, 32);
  }

  /** The MOVK encoder emits the instruction it is named after. */
  lemma MOVKEncoded(register: byte, immediate: nat, shift: byte)
    requires immediate < 0x1_0000 && shift < 64
    ensures EncodeMOVK(register, immediate, shift) == Encode(MOVK(register % 0x20, immediate, shift / 16))
  {
    hide Or, And, Low, Pow2;
    Powers();
    RegisterField(register);
    var hw: nat, d: nat := shift / 16, register % 0x20;
    Small(hw * 0x20_0000);
    Small(immediate * 0x20);
    OrDisjoint(0x1e5, hw * 0x20_0000, 23);
    OrDisjoint(0x794 + hw, immediate * 0x20, 21);
    OrDisjoint(0x794_0000 + hw * 0x1_0000 + immediate, d, 5);
  }

  lemma BREncoded(register: byte)
    ensures EncodeBR(register) == Encode(BR(register % 0x20))
  {
    hide Or, And, Low, Pow2;
    Powers();
    RegisterField(register);
    Small(register % 0x20 * 0x20);
    OrDisjoint(0xd61f, register % 0x20 * 0x20, 16);
  }

  // ---- the jump ----

  /** The 16-bit lane `k` of an address. */
  function Lane(target: u64, k: nat): (lane: nat)
    requires k < 4
    ensures lane < 0x1_0000
  {
    if k == 0 then target % 0x1_0000
    else if k == 1 then target / 0x1_0000 % 0x1_0000
    else if k == 2 then target / 0x1_0000_0000 % 0x1_0000
    else target / 0x1_0000_0000_0000
  }

  /** Four lanes into x16, then a branch to it. */
  function JumpInstruction(target: u64, k: nat): (i: Instruction)
    requires k < ABSOLUTE_JUMP_WORDS
    ensures WellFormed(i)
  {
    if k < 4 then MOVK(16, Lane(target, k), k) else BR(16)
  }

  function AbsoluteJump(target: u64): (words: seq<u32>)
    ensures |words| == ABSOLUTE_JUMP_WORDS
  {
    seq(ABSOLUTE_JUMP_WORDS, k requires 0 <= k < ABSOLUTE_JUMP_WORDS => Encode(JumpInstruction(target, k)))
  }

  /** The words in memory order. */
  function BytesOf(words: seq<u32>): (bytes: seq<byte>)
    ensures |bytes| == 4 * |words|
  {
    if words == [] then [] else U32Bytes(words[0]) + BytesOf(words[1..])
  }

  lemma {:induction false} BytesOfAt(words: seq<u32>, k: nat)
    requires k < |words|
    ensures U32At(BytesOf(words), 4 * k) == words[k]
  {
    var head, tail := U32Bytes(words[0]), BytesOf(words[1..]);
    if k == 0 {
      assert U32At(head + tail, 0) == U32At(head, 0);
    } else {
      BytesOfAt(words[1..], k - 1);
      assert U32At(head + tail, 4 * k) == U32At(tail, 4 * (k - 1));
    }
  }

  lemma ShiftedLane(target: u64, k: nat)
    requires k < 4
    ensures Low(Shr(target, 16 * k), 16) == Lane(target, k)
  {
    Pow2At64();
    Powers();
    Pow2Add(32, 16);
    var p := if k == 0 then 1 else if k == 1 then 0x1_0000 else if k == 2 then 0x1_0000_0000 else 0x1_0000_0000_0000;
    ShrLow(target, 16 * k, p);
    ShrLow(Shr(target, 16 * k), 16, 0x1_0000);
  }

  /** No output is written unless the arguments are accepted; then the words are the jump, as encoded. */
  method BuildAbsoluteJump(destination: u64, instructions: array?<u32>, capacity: nat) returns (words: nat)
    requires instructions != null ==> capacity <= instructions.Length
    modifies instructions
    ensures words == if destination != 0 && instructions != null && capacity >= ABSOLUTE_JUMP_WORDS
                     then ABSOLUTE_JUMP_WORDS else 0
    ensures words == 0 && instructions != null ==> instructions[..] == old(instructions[..])
    ensures words != 0 ==>
              instructions[..] == AbsoluteJump(Strip(destination)) + old(instructions[ABSOLUTE_JUMP_WORDS..])
  {
    if destination == 0 || instructions == null || capacity < ABSOLUTE_JUMP_WORDS {
      return 0;
    }
    hide *;
    var target := Strip(destination);
    var word0 := EncodeMOVK(SCRATCH, Low(target, 16), 0);
    var word1 := EncodeMOVK(SCRATCH, Low(Shr(target, 16), 16), 16);
    var word2 := EncodeMOVK(SCRATCH, Low(Shr(target, 32), 16), 32);
    var word3 := EncodeMOVK(SCRATCH, Low(Shr(target, 48), 16), 48);
    var word4 := EncodeBR(SCRATCH);
    JumpEncoded(target);
    Fill(instructions, word0, word1, word2, word3, word4);
    return ABSOLUTE_JUMP_WORDS;
  }

  method Fill(instructions: array<u32>, word0: u32, word1: u32, word2: u32, word3: u32, word4: u32)
    requires instructions.Length >= 5
    modifies instructions
    ensures instructions[..] == [word0, word1, word2, word3, word4] + old(instructions[5..])
  {
    instructions[0] := word0;
    instructions[1] := word1;
    instructions[2] := word2;
    instructions[3] := word3;
    instructions[4] := word4;
  }

  lemma JumpEncoded(target: u64)
    ensures AbsoluteJump(target) ==
            [EncodeMOVK(SCRATCH, Low(target, 16), 0), EncodeMOVK(SCRATCH, Low(Shr(target, 16), 16), 16),
             EncodeMOVK(SCRATCH, Low(Shr(target, 32), 16), 32), EncodeMOVK(SCRATCH, Low(Shr(target, 48), 16), 48),
             EncodeBR(SCRATCH)]
  {
    hide EncodeMOVK, EncodeBR, Encode, Low, Lane;
    assert Shr(target, 0) == target;
    ShiftedLane(target, 0);
    ShiftedLane(target, 1);
    ShiftedLane(target, 2);
    ShiftedLane(target, 3);
    MOVKEncoded(SCRATCH, Lane(target, 0), 0);
    MOVKEncoded(SCRATCH, Lane(target, 1), 16);
    MOVKEncoded(SCRATCH, Lane(target, 2), 32);
    MOVKEncoded(SCRATCH, Lane(target, 3), 48);
    BREncoded(SCRATCH);
  }

  // ---- executing the jump ----

  /** The value with its lowest `k` lanes replaced by those of `target`. */
  function Mixed(value: u64, target: u64, k: nat): int
    requires k <= 4
  {
    (if k > 0 then Lane(target, 0) else Lane(value, 0))
    + 0x1_0000 * (if k > 1 then Lane(target, 1) else Lane(value, 1))
    + 0x1_0000_0000 * (if k > 2 then Lane(target, 2) else Lane(value, 2))
    + 0x1_0000_0000_0000 * (if k > 3 then Lane(target, 3) else Lane(value, 3))
  }

  lemma Lanes(value: u64)
    ensures value == Lane(value, 0) + 0x1_0000 * Lane(value, 1) + 0x1_0000_0000 * Lane(value, 2)
                     + 0x1_0000_0000_0000 * Lane(value, 3)
  {
  }

  lemma InsertLane0(value: u64, a: nat, rest: nat, lane: nat)
    requires a < 0x1_0000 && lane < 0x1_0000 && value == a + 0x1_0000 * rest
    ensures InsertHalfword(value, lane, 0) == lane + 0x1_0000 * rest
  {
    assert value % 0x1_0000 == a;
  }

  lemma InsertLane1(value: u64, below: nat, b: nat, rest: nat, lane: nat)
    requires below < 0x1_0000 && b < 0x1_0000 && lane < 0x1_0000 && value == below + 0x1_0000 * b + 0x1_0000_0000 * rest
    ensures InsertHalfword(value, lane, 1) == below + 0x1_0000 * lane + 0x1_0000_0000 * rest
  {
    assert value / 0x1_0000 == b + 0x1_0000 * rest;
  }

  lemma InsertLane2(value: u64, below: nat, c: nat, rest: nat, lane: nat)
    requires below < 0x1_0000_0000 && c < 0x1_0000 && lane < 0x1_0000
    requires value == below + 0x1_0000_0000 * c + 0x1_0000_0000_0000 * rest
    ensures InsertHalfword(value, lane, 2) == below + 0x1_0000_0000 * lane + 0x1_0000_0000_0000 * rest
  {
    assert value / 0x1_0000_0000 == c + 0x1_0000 * rest;
  }

  lemma InsertLane3(value: u64, below: nat, d: nat, lane: nat)
    requires below < 0x1_0000_0000_0000 && d < 0x1_0000 && lane < 0x1_0000
    requires value == below + 0x1_0000_0000_0000 * d
    ensures InsertHalfword(value, lane, 3) == below + 0x1_0000_0000_0000 * lane
  {
    assert value / 0x1_0000_0000_0000 == d;
  }

  /** MOVK replaces one lane and keeps the others. */
  lemma InsertNext(value: u64, target: u64, k: nat)
    requires k < 4 && 0 <= Mixed(value, target, k) < TWO_64
    ensures InsertHalfword(Mixed(value, target, k), Lane(target, k), k) == Mixed(value, target, k + 1)
  {
    hide InsertHalfword, Lane;
    var v := Mixed(value, target, k);
    var lane := Lane(target, k);
    if k == 0 {
      InsertLane0(v, Lane(value, 0), Lane(value, 1) + 0x1_0000 * Lane(value, 2) + 0x1_0000_0000 * Lane(value, 3), lane);
    } else if k == 1 {
      InsertLane1(v, Lane(target, 0), Lane(value, 1), Lane(value, 2) + 0x1_0000 * Lane(value, 3), lane);
    } else if k == 2 {
      InsertLane2(v, Lane(target, 0) + 0x1_0000 * Lane(target, 1), Lane(value, 2), Lane(value, 3), lane);
    } else {
      InsertLane3(v, Lane(target, 0) + 0x1_0000 * Lane(target, 1) + 0x1_0000_0000 * Lane(target, 2), Lane(value, 3),
                  lane);
    }
  }

  lemma MixedBounds(value: u64, target: u64, k: nat)
    requires k <= 4
    ensures 0 <= Mixed(value, target, k) < TWO_64
    ensures Mixed(value, target, 0) == value && Mixed(value, target, 4) == target
  {
    Lanes(value);
    Lanes(target);
  }

  /** Memory holds the jump to `target` at `address`. */
  ghost predicate HoldsJump(memory: map<int, byte>, address: u64, target: u64) {
    && address + PATCH_SIZE < TWO_64 && Mapped(memory, address, PATCH_SIZE)
    && Load(memory, address, PATCH_SIZE) == BytesOf(AbsoluteJump(target))
  }

  /** Fetching the `k`-th word of the jump yields its `k`-th instruction. */
  lemma FetchJump(memory: map<int, byte>, address: u64, target: u64, cpu: Cpu, k: nat)
    requires HoldsJump(memory, address, target) && k < ABSOLUTE_JUMP_WORDS && cpu.Valid() && cpu.pc == address + 4 * k
    ensures Step(cpu, memory) == Execute(JumpInstruction(target, k), cpu, memory)
  {
    hide Encode, Decode, BytesOf, Execute, JumpInstruction;
    BytesOfAt(AbsoluteJump(target), k);
    var bytes := Load(memory, address, PATCH_SIZE);
    assert Mapped(memory, cpu.pc, 4);
    assert U32At(Load(memory, cpu.pc, 4), 0) == U32At(bytes, 4 * k);
    DecodeEncode(JumpInstruction(target, k));
  }

  /** After `k` of the four MOVKs. */
  function Midway(start: Cpu, target: u64, k: nat): (cpu: Cpu)
    requires start.Valid() && k <= 4
    ensures cpu.Valid()
  {
    MixedBounds(start.x[16], target, k);
    start.(x := start.x[16 := Mixed(start.x[16], target, k)], pc := Wrap(start.pc + 4 * k))
  }

  lemma JumpStep(memory: map<int, byte>, address: u64, target: u64, start: Cpu, k: nat)
    requires HoldsJump(memory, address, target) && start.Valid() && start.pc == address && k < 4
    ensures Step(Midway(start, target, k), memory) == Some(Midway(start, target, k + 1))
  {
    hide InsertHalfword, Mixed, Lane, Step, HoldsJump;
    assert address + PATCH_SIZE < TWO_64 by { Fits(memory, address, target); }
    var cpu := Midway(start, target, k);
    MixedBounds(start.x[16], target, k);
    MixedBounds(start.x[16], target, k + 1);
    FetchJump(memory, address, target, cpu, k);
    InsertNext(start.x[16], target, k);
    var next := Midway(start, target, k + 1);
    assert Execute(JumpInstruction(target, k), cpu, memory).value.x == next.x;
  }

  lemma Fits(memory: map<int, byte>, address: u64, target: u64)
    requires HoldsJump(memory, address, target)
    ensures address + PATCH_SIZE < TWO_64
  {
  }

  lemma {:induction false} JumpRuns(memory: map<int, byte>, address: u64, target: u64, start: Cpu, k: nat)
    requires HoldsJump(memory, address, target) && start.Valid() && start.pc == address && k <= 4
    ensures Steps(Midway(start, target, k), memory, 5 - k)
            == Some(start.(x := start.x[16 := target], pc := target))
    decreases 4 - k
  {
    hide HoldsJump, Step, Lane, Mixed;
    if k < 4 {
      JumpStep(memory, address, target, start, k);
      JumpRuns(memory, address, target, start, k + 1);
    } else {
      Fits(memory, address, target);
      FetchJump(memory, address, target, Midway(start, target, 4), 4);
      MixedBounds(start.x[16], target, 4);
      var end := start.(x := start.x[16 := target], pc := target);
      assert Step(Midway(start, target, 4), memory) == Some(end);
      assert Steps(end, memory, 0) == Some(end);
    }
  }

  /** From any register state, the five words lead to `target` and change nothing but x16 and PC. */
  lemma JumpReaches(memory: map<int, byte>, address: u64, target: u64, start: Cpu)
    requires HoldsJump(memory, address, target) && start.Valid() && start.pc == address
    ensures Steps(start, memory, 5) == Some(start.(x := start.x[16 := target], pc := target))
  {
    MixedBounds(start.x[16], target, 0);
    assert Midway(start, target, 0) == start;
    JumpRuns(memory, address, target, start, 0);
  }

  // ---- patching ----

  method MakeMemoryWritable(m: Machine, address: u64, size: u64) returns (result: KernReturn)
    modifies m`pages, m`refusals
    ensures old(m.Valid()) ==> m.Valid()
    ensures result == Success ==> address != 0 && size > 0 && old(m.AllMapped(address, size))
    ensures m.pages == if result == Success
                       then Protected(old(m.pages), PageOf(address, m.pageSize),
                                      PageOf(address + size - 1, m.pageSize), READ_WRITE_COPY)
                       else old(m.pages)
    ensures m.refusals == old(m.refusals) + if result == Success || address == 0 || size == 0 then [] else [result]
    ensures address == 0 || size == 0 ==> result == InvalidArgument
  {
    result := m.ProtectMemory(address, size, READ_WRITE_COPY);
  }

  /** The patch lies in one page, whose protection can be queried and restored as one value. */
  predicate Contained(target: u64, pageSize: nat) {
    pageSize >= PATCH_SIZE && target % pageSize <= pageSize - PATCH_SIZE
  }

  lemma OnePage(target: u64, pageSize: nat)
    requires Contained(target, pageSize)
    ensures forall a: nat | target <= a < target + PATCH_SIZE :: PageOf(a, pageSize) == PageOf(target, pageSize)
  {
    assert target == pageSize * (target / pageSize) + target % pageSize;
    forall a: nat | target <= a < target + PATCH_SIZE ensures PageOf(a, pageSize) == PageOf(target, pageSize) {
      PageUnique(a, pageSize, PageOf(target, pageSize), target % pageSize + (a - target));
    }
  }

  /** Arguments that the checks before any memory access let through. */
  predicate Acceptable(entryPoint: u64, patchableBytes: nat, replacement: u64, pageSize: nat) {
    && entryPoint != 0 && replacement != 0 && patchableBytes >= PATCH_SIZE
    && Strip(entryPoint) % 4 == 0 && Contained(Strip(entryPoint), pageSize)
  }

  /** The arguments that are let through are an aligned patch that fits what may be overwritten and one page. */
  lemma AcceptableExactly(entryPoint: u64, patchableBytes: nat, replacement: u64, pageSize: nat)
    ensures Acceptable(entryPoint, patchableBytes, replacement, pageSize) <==>
            && entryPoint != 0 && replacement != 0 && patchableBytes >= 20 && pageSize > 0
            && Strip(entryPoint) % 4 == 0
            && PageOf(Strip(entryPoint), pageSize) == PageOf(Strip(entryPoint) + 19, pageSize)
  {
    hide Strip;
    var target := Strip(entryPoint);
    if pageSize > 0 {
      var offset := target % pageSize;
      assert target == pageSize * (target / pageSize) + offset;
      if Contained(target, pageSize) {
        PageUnique(target + 19, pageSize, target / pageSize, offset + 19);
      } else {
        PageBounds(target + 19, pageSize);
      }
    }
  }

  /** Every byte of the patch can be read. */
  ghost predicate PatchReadable(m: Machine, target: nat)
    reads m`pages
  {
    target != 0 && forall a: nat | target <= a < target + 20 :: m.Readable(a)
  }

  ghost predicate PatchExecutable(m: Machine, target: nat)
    reads m`pages
  {
    PageOf(target, m.pageSize) in m.pages && m.pages[PageOf(target, m.pageSize)].execute
  }

  /** What a cooperative kernel lets succeed: an acceptable patch of readable, executable memory. */
  ghost predicate Patchable(m: Machine, entryPoint: u64, patchableBytes: nat, replacement: u64)
    reads m`pages
  {
    var target := Strip(entryPoint);
    && Acceptable(entryPoint, patchableBytes, replacement, m.pageSize) && target != 0 && m.Readable(target)
    && m.pages[PageOf(target, m.pageSize)].execute
  }

  /** Every run from the target, whatever the registers hold, arrives at the replacement. */
  ghost predicate Diverts(memory: map<int, byte>, target: u64, replacement: u64) {
    forall cpu: Cpu | cpu.Valid() && cpu.pc == target ::
      Steps(cpu, memory, 5) == Some(cpu.(x := cpu.x[16 := replacement], pc := replacement))
  }

  lemma JumpDiverts(memory: map<int, byte>, target: u64, replacement: u64)
    requires HoldsJump(memory, target, replacement)
    ensures Diverts(memory, target, replacement)
  {
    hide HoldsJump, Steps;
    forall cpu: Cpu | cpu.Valid() && cpu.pc == target
      ensures Steps(cpu, memory, 5) == Some(cpu.(x := cpu.x[16 := replacement], pc := replacement))
    {
      JumpReaches(memory, target, replacement, cpu);
    }
  }

  lemma PutBackPage(pages: PageMap, page: nat, p: Protection)
    requires page in pages && NoCopies(pages)
    ensures Protected(Protected(pages, page, page, p), page, page, pages[page]) == pages
  {
  }

  /** The bytes of the patch are readable if the first one is. */
  lemma ReadableAlike(m: Machine, target: u64)
    requires m.Valid() && Contained(target, m.pageSize)
    ensures PatchReadable(m, target) <==> target != 0 && m.Readable(target)
  {
    OnePage(target, m.pageSize);
  }

  lemma Touched(m: Machine, target: u64)
    requires m.Valid() && Contained(target, m.pageSize)
    requires forall a: nat | target <= a < target + PATCH_SIZE :: m.Readable(a)
    ensures Mapped(m.bytes, target, PATCH_SIZE) && m.AllMapped(target, PATCH_SIZE)
    ensures PageOf(target + PATCH_SIZE - 1, m.pageSize) == PageOf(target, m.pageSize)
  {
    OnePage(target, m.pageSize);
    assert m.Readable(target);
    forall a | target <= a < target + PATCH_SIZE ensures a in m.bytes { assert m.Readable(a); }
  }

  /** TPRO gates the page of the target and the thread's window is closed. */
  predicate GateShut(m: Machine, target: u64)
    reads m`tproOpen
  {
    m.enforced && PageOf(target, m.pageSize) in m.gated && !m.tproOpen
  }

  /** A granted request leaves nothing but a shut gate in the way of the store. */
  lemma NowPermitted(m: Machine, target: u64, before: PageMap)
    requires PageOf(target, m.pageSize) in before
    requires PageOf(target + PATCH_SIZE - 1, m.pageSize) == PageOf(target, m.pageSize)
    requires m.pages == Protected(before, PageOf(target, m.pageSize), PageOf(target, m.pageSize), READ_WRITE_COPY)
    ensures m.PermitsRange(target, PATCH_SIZE, m.tproOpen) <==> !GateShut(m, target)
  {
    assert m.Permits(PageOf(target, m.pageSize), m.tproOpen) <==> !GateShut(m, target);
  }

  /** `result` is the kernel's code for the first request it has refused since. */
  predicate FirstRefusal(before: seq<KernReturn>, after: seq<KernReturn>, result: KernReturn) {
    before + [result] <= after
  }

  /**
   From the protection change on. A refused request ends it. Otherwise the process faults exactly if
   the gate is shut, and else the jump is in place, or the restoration was refused and the code is as
   before; the page stays changed only if the second attempt to restore it was refused too.
   */
  method Install(m: Machine, target: u64, original: Protection, jump: seq<byte>)
    returns (result: KernReturn, ghost granted: bool)
    requires m.Valid() && m.alive && target != 0 && |jump| == PATCH_SIZE
    requires Mapped(m.bytes, target, PATCH_SIZE) && m.AllMapped(target, PATCH_SIZE)
    requires PageOf(target, m.pageSize) in m.pages && m.pages[PageOf(target, m.pageSize)] == original
    requires PageOf(target + PATCH_SIZE - 1, m.pageSize) == PageOf(target, m.pageSize)
    modifies m
    ensures m.Valid() && m.tproOpen == old(m.tproOpen) && m.unopened == old(m.unopened)
    ensures m.shortAnswers == old(m.shortAnswers) && m.HistoryGrows()
    ensures !granted ==> result != Success && m.alive && m.bytes == old(m.bytes) && m.pages == old(m.pages)
                         && m.refusals == old(m.refusals) + [result]
    ensures granted ==> m.alive == !old(GateShut(m, target))
    ensures !m.alive ==> result != Success && m.bytes == old(m.bytes) && m.refusals == old(m.refusals)
    ensures m.alive ==> m.bytes == if result == Success then WriteAt(old(m.bytes), target, jump) else old(m.bytes)
    ensures result == Success ==> m.pages == old(m.pages) && m.refusals == old(m.refusals)
    ensures granted && m.alive && result != Success ==>
              || (m.refusals == old(m.refusals) + [result] && m.pages == old(m.pages))
              || (|m.refusals| == |old(m.refusals)| + 2 && FirstRefusal(old(m.refusals), m.refusals, result)
                  && var page := PageOf(target, m.pageSize);
                  m.pages == Protected(old(m.pages), page, page, READ_WRITE_COPY))
  {
    hide PageOf, Protected, WriteAt, Load;
    ghost var page := PageOf(target, m.pageSize);
    assert NoCopies(m.pages);
    hide NoCopies, MappedByPages;
    PutBackPage(m.pages, page, READ_WRITE_COPY);
    StoreBack(m.bytes, target, jump);
    granted := false;
    var originalInstructions := Load(m.bytes, target, PATCH_SIZE);
    result := MakeMemoryWritable(m, target, PATCH_SIZE);
    if result != Success { return; }
    granted := true;
    NowPermitted(m, target, old(m.pages));
    m.Store(target, jump);
    if !m.alive {
      result := Other(-1);
      return;
    }
    result := m.ProtectMemory(target, PATCH_SIZE, original);
    if result != Success {
      m.Store(target, originalInstructions);
      var ignored := m.ProtectMemory(target, PATCH_SIZE, original);
    }
  }

  /**
   What a detour at `target` leaves behind. Success means that the jump is in place, that every run from
   the target now arrives at the replacement, and that the page has its protection back. Every failure
   leaves the code as it was, and the page changed only if two attempts to restore it were refused. The
   process faults only at a shut gate.
   */
  twostate predicate Detoured(m: Machine, target: u64, replacement: u64, result: KernReturn)
    reads m
  {
    && m.Valid() && m.tproOpen == old(m.tproOpen) && m.HistoryGrows()
    && (result == Success ==>
          && m.alive && m.bytes == WriteAt(old(m.bytes), target, BytesOf(AbsoluteJump(replacement)))
          && Diverts(m.bytes, target, replacement) && m.pages == old(m.pages))
    && (result != Success ==> m.bytes == old(m.bytes))
    && (m.alive && m.pages != old(m.pages) ==>
          && |m.refusals| == |old(m.refusals)| + 2
          && var page := PageOf(target, m.pageSize); m.pages == Protected(old(m.pages), page, page, READ_WRITE_COPY))
    && (!m.alive ==> result != Success && old(GateShut(m, target)))
  }

  /** The last stage: build the jump and install it. */
  method Patch(m: Machine, target: u64, original: Protection, replacement: u64) returns (result: KernReturn)
    requires m.Valid() && m.alive && target != 0 && replacement != 0 && target + PATCH_SIZE < TWO_64
    requires Mapped(m.bytes, target, PATCH_SIZE) && m.AllMapped(target, PATCH_SIZE)
    requires PageOf(target, m.pageSize) in m.pages && m.pages[PageOf(target, m.pageSize)] == original
    requires PageOf(target + PATCH_SIZE - 1, m.pageSize) == PageOf(target, m.pageSize)
    modifies m
    ensures Detoured(m, target, Strip(replacement), result)
    ensures m.Cooperated() ==> if old(GateShut(m, target)) then !m.alive else result == Success
    ensures m.alive ==>
              if m.refusals == old(m.refusals) then result == Success
              else FirstRefusal(old(m.refusals), m.refusals, result)
    ensures m.shortAnswers == old(m.shortAnswers) && m.unopened == old(m.unopened)
  {
    hide Strip, PageOf, Protected, BytesOf, AbsoluteJump, Diverts, Load, GateShut;
    var instructions := new u32[ABSOLUTE_JUMP_WORDS];
    var words := BuildAbsoluteJump(replacement, instructions, ABSOLUTE_JUMP_WORDS);
    if words == 0 { return NotSupported; }
    var jump := BytesOf(instructions[..]);
    assert instructions[..] == AbsoluteJump(Strip(replacement));
    ghost var granted;
    result, granted := Install(m, target, original, jump);
    if result == Success {
      LoadStored(old(m.bytes), target, jump);
      JumpDiverts(m.bytes, target, Strip(replacement));
    }
  }

  /**
   The checked detour. A cooperative kernel patches exactly the patchable functions whose page is not
   behind a shut gate. The result tells what went wrong: the arguments, bytes that cannot be read, a page
   that cannot be executed, or the first refusal of the kernel, in its own words.
   */
  method ReplaceFunctionWithSize(m: Machine, entryPoint: u64, patchableBytes: nat, replacement: u64)
    returns (result: KernReturn)
    requires m.Valid() && m.alive
    modifies m
    ensures Detoured(m, Strip(entryPoint), Strip(replacement), result)
    ensures !Acceptable(entryPoint, patchableBytes, replacement, m.pageSize) ==> m.alive && result == InvalidArgument
    ensures m.alive && m.shortAnswers == old(m.shortAnswers) ==>
              if !Acceptable(entryPoint, patchableBytes, replacement, m.pageSize) then result == InvalidArgument
              else if !old(PatchReadable(m, Strip(entryPoint))) then result == InvalidAddress
              else if !old(PatchExecutable(m, Strip(entryPoint))) then result == ProtectionFailure
              else if m.refusals == old(m.refusals) then result == Success
              else FirstRefusal(old(m.refusals), m.refusals, result)
    ensures Acceptable(entryPoint, patchableBytes, replacement, m.pageSize)
            && !old(PatchReadable(m, Strip(entryPoint))) ==>
              m.alive && result == InvalidAddress
    ensures m.Cooperated() ==>
              if old(Patchable(m, entryPoint, patchableBytes, replacement))
              then if old(GateShut(m, Strip(entryPoint))) then !m.alive else result == Success
              else m.alive && result != Success
  {
    hide Strip, PageOf, WriteAt, Protected, BytesOf, AbsoluteJump, Diverts, Load, GateShut;
    if entryPoint == 0 || replacement == 0 || patchableBytes < PATCH_SIZE { return InvalidArgument; }
    var target := Strip(entryPoint);
    var nativePageSize: int := m.pageSize;
    if nativePageSize <= 0 { return InvalidArgument; }
    if target % 4 != 0 || nativePageSize < PATCH_SIZE || target % nativePageSize > nativePageSize - PATCH_SIZE {
      return InvalidArgument;
    }
    OnePage(target, m.pageSize);
    assert PageOf(target + PATCH_SIZE - 1, m.pageSize) == PageOf(target, m.pageSize);
    ReadableAlike(m, target);
    var readable := m.MemoryIsReadable(target, PATCH_SIZE);
    if !readable { return InvalidAddress; }
    Touched(m, target);
    assert m.Readable(target);

    var original := m.MemoryProtection(target);
    if original.None? || !original.value.execute { return ProtectionFailure; }
    result := Patch(m, target, original.value, replacement);
  }

  /** The legacy entry point assumes that the whole jump may be patched. */
  method ReplaceFunction(m: Machine, entryPoint: u64, replacement: u64) returns (result: KernReturn)
    requires m.Valid() && m.alive
    modifies m
    ensures Detoured(m, Strip(entryPoint), Strip(replacement), result)
    ensures !Acceptable(entryPoint, PATCH_SIZE, replacement, m.pageSize) ==> m.alive && result == InvalidArgument
    ensures m.alive && m.shortAnswers == old(m.shortAnswers) ==>
              if !Acceptable(entryPoint, PATCH_SIZE, replacement, m.pageSize) then result == InvalidArgument
              else if !old(PatchReadable(m, Strip(entryPoint))) then result == InvalidAddress
              else if !old(PatchExecutable(m, Strip(entryPoint))) then result == ProtectionFailure
              else if m.refusals == old(m.refusals) then result == Success
              else FirstRefusal(old(m.refusals), m.refusals, result)
    ensures Acceptable(entryPoint, PATCH_SIZE, replacement, m.pageSize) && !old(PatchReadable(m, Strip(entryPoint))) ==>
              m.alive && result == InvalidAddress
    ensures m.Cooperated() ==>
              if old(Patchable(m, entryPoint, PATCH_SIZE, replacement))
              then if old(GateShut(m, Strip(entryPoint))) then !m.alive else result == Success
              else m.alive && result != Success
  {
    hide Detoured, Patchable, Acceptable, GateShut, Strip, PatchReadable, PatchExecutable;
    result := ReplaceFunctionWithSize(m, entryPoint, PATCH_SIZE, replacement);
  }
}
