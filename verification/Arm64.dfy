/**
 The instruction helpers of RorkHookArm64.c, mask by mask and shift by shift, and their agreement
 with the A64 interpreter. A helper that returns false and leaves its outputs alone yields None.
 */
module Arm64 {
  import opened A64
  import opened Bits
  import opened Words
  import opened Wrappers

  /** A 64-bit pattern reinterpreted as a signed integer. */
  function AsSigned(value: u64): i64 {
    if value < 0x8000_0000_0000_0000 then value else value - TWO_64
  }

  function AddSignedOffset(base: u64, offset: i64): (result: Option<u64>)
    ensures result.Some? <==> 0 <= base + offset < TWO_64
    ensures result.Some? ==> result.value == base + offset
  {
    if offset < 0 then
      var magnitude: int := -(offset + 1) + 1;
      if base < magnitude then None else Some(base - magnitude)
    else if base > TWO_64 - 1 - offset then None
    else Some(base + offset)
  }

  function SignExtend(value: u64, bits: int): i64 {
    if bits <= 0 || bits > 64 then 0
    else if bits == 64 then AsSigned(value)
    else
      var masked := And(value, Pow2(bits) - 1);
      var signBit := Pow2(bits - 1);
      AsSigned((Xor(masked, signBit) - signBit) % TWO_64)
  }

  /** The mask, flip and subtract trick reads the low bits as a two's-complement number. */
  lemma SignExtendReadsSigned(value: u64, bits: int)
    requires 1 <= bits <= 64
    ensures SignExtend(value, bits) == Signed(Low(value, bits), bits)
  {
    hide And, Xor, Low, AsSigned, Pow2;
    Pow2At64();
    if bits == 64 {
      LowSmall(value, 64);
      AsSignedIs(value);
    } else {
      AndLowOnes(value, bits);
      var low, half := Low(value, bits), Pow2(bits - 1);
      Pow2Double(bits - 1);
      Pow2Monotone(bits, 63);
      XorBit(low, bits - 1);
      var flipped: int := Xor(low, half) - half;
      assert flipped == low || flipped + 2 * half == low;
      AsSignedWraps(flipped);
    }
  }

  lemma Pow2Double(k: nat)
    ensures Pow2(k + 1) == 2 * Pow2(k)
  {
  }

  lemma AsSignedIs(value: u64)
    ensures AsSigned(value) == if value < 0x8000_0000_0000_0000 then value else value - TWO_64
  {
  }

  lemma AsSignedWraps(x: i64)
    ensures AsSigned(x % TWO_64) == x
  {
  }

  lemma SignedCongruent(value: nat, bits: nat)
    requires bits >= 1
    ensures exists k: int :: Signed(Low(value, bits), bits) == value + k * Pow2(bits)
  {
    Recompose(value, bits);
    var carry := if Low(value, bits) < Pow2(bits - 1) then 0 else -1;
    Distribute(Pow2(bits), Shr(value, bits), carry);
    assert Signed(Low(value, bits), bits) == value + (0 - Shr(value, bits) + carry) * Pow2(bits);
  }

  /** The extension is an integer of `bits` bits congruent to the value. */
  lemma SignExtendExact(value: u64, bits: int)
    requires 1 <= bits <= 64
    ensures 0 - Pow2(bits - 1) <= SignExtend(value, bits) < Pow2(bits - 1)
    ensures exists k: int :: SignExtend(value, bits) == value + k * Pow2(bits)
  {
    SignExtendReadsSigned(value, bits);
    SignedCongruent(value, bits);
  }

  lemma Distribute(p: int, a: int, b: int)
    ensures (-a + b) * p == -(p * a) + b * p
  {
  }

  /** No other integer in the range is congruent to the value. */
  lemma SignExtendUnique(value: u64, bits: int, r: int, k: int)
    requires 1 <= bits <= 64 && 0 - Pow2(bits - 1) <= r < Pow2(bits - 1) && r == value + k * Pow2(bits)
    ensures r == SignExtend(value, bits)
  {
    SignExtendExact(value, bits);
    var e := SignExtend(value, bits);
    var j: int :| e == value + j * Pow2(bits);
    CloseMultiples(Pow2(bits), j, k);
  }

  lemma CloseMultiples(p: int, j: int, k: int)
    requires -p < k * p - j * p < p
    ensures j == k
  {
    if k > j {
      AtLeastOnce(k - j, p, k, j);
    } else if j > k {
      AtLeastOnce(j - k, p, j, k);
    }
  }

  lemma AtLeastOnce(n: int, p: int, a: int, b: int)
    requires n == a - b && n >= 1 && p >= 0
    ensures a * p - b * p >= p
  {
    assert a * p == b * p + n * p;
    assert n * p == p + (n - 1) * p;
  }

  // ---- the decoders ----

  /** Short immediates extend to small numbers, so scaling them by 4 or 4096 cannot overflow. */
  lemma ShortExtension(value: u64, bits: int)
    requires 1 <= bits <= 26
    ensures -0x400_0000 <= SignExtend(value, bits) < 0x400_0000
  {
    SignExtendExact(value, bits);
    Pow2Monotone(bits - 1, 26);
    Powers();
  }

  function DecodeADRP(instruction: u32, pc: u64): Option<(nat, u64)> {
    if And(instruction, 0x9f00_0000) != 0x9000_0000 then None
    else
      var immlo := And(Shr(instruction, 29), 0x3);
      var immhi := And(Shr(instruction, 5), 0x7_ffff);
      var pages := Or(Shl(immhi, 2, 64), immlo);
      assert pages < TWO_64 by { ADRPImmediate(instruction); }
      var signedPages: int := SignExtend(pages, 21);
      ShortExtension(pages, 21);
      var base := And(pc, 0xffff_ffff_ffff_f000);
      assert base < TWO_64 by { PageStart(pc); }
      match AddSignedOffset(base, signedPages * 4096)
      case None => None
      case Some(page) => Some((And(instruction, 0x1f), page))
  }

  function DecodeADDImmediate(instruction: u32, baseRegister: byte): Option<u64> {
    if And(instruction, 0xff80_0000) != 0x9100_0000 then None
    else
      var destination := And(instruction, 0x1f);
      var source := And(Shr(instruction, 5), 0x1f);
      if destination != baseRegister || source != baseRegister then None
      else
        var imm12 := And(Shr(instruction, 10), 0xfff);
        var shift := And(Shr(instruction, 22), 0x3);
        Pow2At64();
        assert imm12 < TWO_64 by { Masked(instruction, 10, 12, 0xfff); }
        Some(if shift == 1 then Shl(imm12, 12, 64) else imm12)
  }

  function DecodeLDRUnsignedOffset64(instruction: u32): Option<u64> {
    if And(instruction, 0xffc0_0000) != 0xf940_0000 then None
    else
      Pow2At64();
      Some(Shl(And(Shr(instruction, 10), 0xfff), 3, 64))
  }

  function DecodeLDRUnsigned64(instruction: u32, baseRegister: byte): Option<u64> {
    if And(instruction, 0xffc0_0000) != 0xf940_0000 then None
    else if And(Shr(instruction, 5), 0x1f) != baseRegister then None
    else
      Pow2At64();
      Some(Shl(And(Shr(instruction, 10), 0xfff), 3, 64))
  }

  function DecodeLDRSignedPreIndex64(instruction: u32): Option<i64> {
    if And(instruction, 0xffe0_0c00) != 0xf840_0c00 then None
    else
      var imm9 := And(Shr(instruction, 12), 0x1ff);
      assert imm9 < TWO_64 by { Masked(instruction, 12, 9, 0x1ff); }
      Some(SignExtend(imm9, 9))
  }

  function DecodeLDUR64(instruction: u32, baseRegister: byte): Option<i64> {
    if And(instruction, 0xffe0_0c00) != 0xf840_0000 then None
    else if And(Shr(instruction, 5), 0x1f) != baseRegister then None
    else
      var imm9 := And(Shr(instruction, 12), 0x1ff);
      assert imm9 < TWO_64 by { Masked(instruction, 12, 9, 0x1ff); }
      Some(SignExtend(imm9, 9))
  }

  function DecodeMOVZImmediate(instruction: u32): Option<u64> {
    if And(instruction, 0xff80_0000) != 0xd280_0000 then None
    else
      var imm16 := And(Shr(instruction, 5), 0xffff);
      var shift := And(Shr(instruction, 21), 0x3) * 16;
      Pow2At64();
      Some(Shl(imm16, shift, 64))
  }

  /** The address of the instruction that execution reaches past one unconditional branch at `address`. */
  function FollowOneBranch(instruction: u32, address: u64): u64 {
    if And(instruction, 0xfc00_0000) != 0x1400_0000 then address
    else
      assert And(instruction, 0x3ff_ffff) < TWO_64 by { Powers(); MaskedLow(instruction, 26, 0x3ff_ffff); }
      var imm26: int := SignExtend(And(instruction, 0x3ff_ffff), 26);
      ShortExtension(And(instruction, 0x3ff_ffff), 26);
      match AddSignedOffset(address, imm26 * 4)
      case None => address
      case Some(target) => target
  }

  // ---- masks and shifts as fields ----

  /** Shift right, then mask with a run of ones. */
  lemma Masked(w: u32, low: nat, width: nat, mask: nat)
    requires mask == Pow2(width) - 1 && width <= 32
    ensures And(Shr(w, low), mask) == Field(w, low, width)
    ensures And(Shr(w, low), mask) < TWO_64
  {
    AndLowOnes(Shr(w, low), width);
    Pow2Monotone(width, 64);
    Pow2At64();
  }

  lemma MaskedLow(w: u32, width: nat, mask: nat)
    requires mask == Pow2(width) - 1 && width <= 32
    ensures And(w, mask) == Field(w, 0, width) < TWO_64
  {
    Masked(w, 0, width, mask);
  }

  /** Masking with a run of ones at bit `low` tests one field. */
  lemma MaskTests(w: u32, low: nat, width: nat, p: nat, q: nat)
    requires p == Pow2(low) && q == Pow2(width)
    ensures And(w, (q - 1) * p) == Field(w, low, width) * p
    ensures forall code: nat :: And(w, (q - 1) * p) == code * p <==> Field(w, low, width) == code
  {
    AndField(w, low, width);
    var f := Field(w, low, width);
    forall code: nat ensures f * p == code * p <==> f == code {
      if f * p == code * p { CloseMultiples(p, f, code); }
    }
  }

  lemma PageStart(pc: u64)
    ensures And(pc, 0xffff_ffff_ffff_f000) == pc - pc % 0x1000
  {
    Pow2At64();
    Powers();
    Pow2Add(52, 12);
    assert Pow2(52) * 0x1000 == TWO_64;
    assert Pow2(52) == 0x10_0000_0000_0000;
    AndField(pc, 12, 52);
    assert (Pow2(52) - 1) * Pow2(12) == 0xffff_ffff_ffff_f000;
    ShrLow(pc, 12, 0x1000);
    LowSmall(Shr(pc, 12), 52);
  }

  lemma ADRPImmediate(w: u32)
    ensures Or(Shl(And(Shr(w, 5), 0x7_ffff), 2, 64), And(Shr(w, 29), 0x3)) == Field(w, 5, 19) * 4 + Field(w, 29, 2)
    ensures Field(w, 5, 19) * 4 + Field(w, 29, 2) < 0x20_0000
  {
    Powers();
    Pow2At64();
    Masked(w, 5, 19, 0x7_ffff);
    Masked(w, 29, 2, 0x3);
    LowSmall(Field(w, 5, 19) * 4, 64);
    OrDisjoint(Field(w, 5, 19), Field(w, 29, 2), 2);
  }

  // ---- agreement with the instruction set ----

  lemma TopNine(w: u32, code: nat)
    ensures And(w, 0xff80_0000) == code * 0x80_0000 <==> Field(w, 23, 9) == code
  {
    Powers();
    MaskTests(w, 23, 9, 0x80_0000, 0x200);
  }

  /** The nine-bit opcode test, digit by digit. */
  lemma NineDigits(w: u32, d23: nat, d24: nat, d26: nat, d29: nat, d31: nat)
    requires d23 < 2 && d24 < 4 && d26 < 8 && d29 < 4 && d31 < 2
    ensures var c := Fields(w);
            And(w, 0xff80_0000) == (d23 + 2 * d24 + 8 * d26 + 0x40 * d29 + 0x100 * d31) * 0x80_0000
            <==> c.b23 == d23 && c.b24 == d24 && c.b26 == d26 && c.b29 == d29 && c.b31 == d31
  {
    hide Field, And, Fields;
    var c, code := Fields(w), d23 + 2 * d24 + 8 * d26 + 0x40 * d29 + 0x100 * d31;
    TopNine(w, code);
    WideFields(w);
    if Field(w, 23, 9) == code { SameDigits(c.b23, c.b24, c.b26, c.b29, c.b31, d23, d24, d26, d29, d31); }
  }

  lemma TopEleven(w: u32, code: nat, low: nat)
    requires low < 4
    ensures And(w, 0xffe0_0c00) == code * 0x20_0000 + low * 0x400
            <==> Field(w, 21, 11) == code && Field(w, 10, 2) == low
  {
    Powers();
    AndParts(w, 0x7ff, 0xc00, 21);
    MaskTests(w, 21, 11, 0x20_0000, 0x800);
    MaskTests(w, 10, 2, 0x400, 4);
  }

  lemma ADRPMask(w: u32)
    ensures And(w, 0x9f00_0000) == 0x9000_0000 <==> Field(w, 31, 1) == 1 && Field(w, 24, 5) == 0x10
  {
    Powers();
    AndParts(w, 1, 0x1f00_0000, 31);
    MaskTests(w, 31, 1, 0x8000_0000, 2);
    MaskTests(w, 24, 5, 0x100_0000, 0x20);
  }

  /** Five digits add up to the same opcode only if they are the same digits. */
  lemma SameDigits(b23: nat, b24: nat, b26: nat, b29: nat, b31: nat, d23: nat, d24: nat, d26: nat, d29: nat, d31: nat)
    requires b23 < 2 && b24 < 4 && b26 < 8 && b29 < 4 && b31 < 2 && d23 < 2 && d24 < 4 && d26 < 8 && d29 < 4 && d31 < 2
    requires b23 + 2 * b24 + 8 * b26 + 0x40 * b29 + 0x100 * b31 == d23 + 2 * d24 + 8 * d26 + 0x40 * d29 + 0x100 * d31
    ensures b23 == d23 && b24 == d24 && b26 == d26 && b29 == d29 && b31 == d31
  {
    assert b31 == d31;
    assert b29 == d29;
    assert b26 == d26;
    assert b24 == d24;
  }

  /** The wide fields of a word in terms of its elementary ones. */
  lemma WideFields(w: u32)
    ensures var c := Fields(w);
            && Field(w, 31, 1) == c.b31 && Field(w, 24, 5) == c.b24 + 4 * c.b26
            && Field(w, 23, 9) == c.b23 + 2 * c.b24 + 8 * c.b26 + 0x40 * c.b29 + 0x100 * c.b31
            && Field(w, 22, 10) == c.b22 + 2 * Field(w, 23, 9) && Field(w, 21, 11) == c.b21 + 2 * Field(w, 22, 10)
            && Field(w, 26, 6) == c.b26 + 8 * c.b29 + 0x20 * c.b31
    ensures var c := Fields(w);
            && Field(w, 10, 12) == c.b10 + 4 * c.b12 + 0x800 * c.b21
            && Field(w, 5, 16) == c.b5 + 0x20 * c.b10 + 0x80 * c.b12
            && Field(w, 5, 19) == Field(w, 5, 16) + 0x1_0000 * (c.b21 + 2 * c.b22 + 4 * c.b23)
            && Field(w, 0, 26) == c.b0 + 0x20 * Field(w, 5, 19) + 0x100_0000 * c.b24
            && Field(w, 21, 2) == c.b21 + 2 * c.b22
            && Field(w, 0, 5) == c.b0 && Field(w, 5, 5) == c.b5 && Field(w, 12, 9) == c.b12
            && Field(w, 10, 2) == c.b10 && Field(w, 29, 2) == c.b29
  {
    WordOfFields(w);
    OpcodeFields(w, Fields(w));
    LowOperands(w, Fields(w));
    HighOperands(w, Fields(w));
  }

  lemma ShiftField(w: u32)
    ensures Field(w, 22, 2) == Fields(w).b22 + 2 * Fields(w).b23
  {
    WordOfFields(w);
    Powers();
    var c := Fields(w);
    var top := c.b24 + 4 * c.b26 + 0x20 * c.b29 + 0x80 * c.b31;
    FieldIs(w, 22, 2, 0x40_0000, 4, top, c.b22 + 2 * c.b23, w - 0x100_0000 * top - 0x40_0000 * (c.b22 + 2 * c.b23));
  }

  // Each mask test accepts exactly one class of the instruction set.

  lemma ADRPClass(w: u32)
    ensures And(w, 0x9f00_0000) == 0x9000_0000 <==> Decode(w).Some? && Decode(w).value.ADRP?
  {
    hide Field, And, Fields;
    ADRPMask(w);
    WideFields(w);
  }

  lemma ADDClass(w: u32)
    ensures And(w, 0xff80_0000) == 0x9100_0000 <==> Decode(w).Some? && Decode(w).value.ADDImmediate?
  {
    hide Field, And, Fields;
    NineDigits(w, 0, 1, 4, 0, 1);
  }

  lemma LDRUnsignedClass(w: u32)
    ensures And(w, 0xffc0_0000) == 0xf940_0000 <==> Decode(w).Some? && Decode(w).value.LDRUnsigned?
  {
    hide Field, And, Fields;
    Powers();
    MaskTests(w, 22, 10, 0x40_0000, 0x400);
    WideFields(w);
    var c := Fields(w);
    if Field(w, 22, 10) == 0x3e5 { SameDigits(c.b23, c.b24, c.b26, c.b29, c.b31, 0, 1, 6, 3, 1); }
  }

  lemma LoadClass(w: u32, low: nat)
    requires low < 4
    ensures And(w, 0xffe0_0c00) == 0xf840_0000 + low * 0x400 <==>
            var c := Fields(w);
            c.b31 == 1 && c.b29 == 3 && c.b26 == 6 && c.b24 == 0 && c.b23 == 0 && c.b22 == 1 && c.b21 == 0
            && c.b10 == low
  {
    hide Field, And, Fields;
    TopEleven(w, 0x7c2, low);
    WideFields(w);
    var c := Fields(w);
    if Field(w, 21, 11) == 0x7c2 { SameDigits(c.b23, c.b24, c.b26, c.b29, c.b31, 0, 0, 6, 3, 1); }
  }

  lemma LDRPreIndexClass(w: u32)
    ensures And(w, 0xffe0_0c00) == 0xf840_0c00 <==> Decode(w).Some? && Decode(w).value.LDRPreIndex?
  {
    hide Field, And, Fields;
    LoadClass(w, 3);
  }

  lemma LDURClass(w: u32)
    ensures And(w, 0xffe0_0c00) == 0xf840_0000 <==> Decode(w).Some? && Decode(w).value.LDUR?
  {
    hide Field, And, Fields;
    LoadClass(w, 0);
  }

  lemma MOVZClass(w: u32)
    ensures And(w, 0xff80_0000) == 0xd280_0000 <==> Decode(w).Some? && Decode(w).value.MOVZ?
  {
    hide Field, And, Fields;
    NineDigits(w, 1, 2, 4, 2, 1);
  }

  lemma BClass(w: u32)
    ensures And(w, 0xfc00_0000) == 0x1400_0000 <==> Decode(w).Some? && Decode(w).value.B?
  {
    hide Field, And, Fields;
    Powers();
    MaskTests(w, 26, 6, 0x400_0000, 0x40);
    WideFields(w);
  }

  lemma CutOperands(c: Cut)
    requires c.Fits() && DecodeFields(c).Some?
    ensures var imm16 := c.b5 + 0x20 * c.b10 + 0x80 * c.b12;
            var imm19 := imm16 + 0x1_0000 * (c.b21 + 2 * c.b22 + 4 * c.b23);
            var imm12 := c.b10 + 4 * c.b12 + 0x800 * c.b21;
            match DecodeFields(c).value
            case ADRP(rd, imm) => rd == c.b0 && imm == imm19 * 4 + c.b29
            case ADDImmediate(rd, rn, imm, shifted) =>
              rd == c.b0 && rn == c.b5 && imm == imm12 && (shifted <==> c.b22 == 1) && c.b23 == 0
            case LDRUnsigned(_, rn, imm) => rn == c.b5 && imm == imm12
            case LDRPreIndex(_, _, imm) => imm == c.b12
            case LDUR(_, rn, imm) => rn == c.b5 && imm == c.b12
            case MOVZ(_, imm, hw) => imm == imm16 && hw == c.b21 + 2 * c.b22
            case B(imm) => imm == c.b0 + 0x20 * imm19 + 0x100_0000 * c.b24
            case _ => true
  {
  }

  /** The operands of a decoded instruction as fields of the word. */
  lemma Operands(w: u32)
    requires Decode(w).Some?
    ensures match Decode(w).value
            case ADRP(rd, imm) => rd == Field(w, 0, 5) && imm == Field(w, 5, 19) * 4 + Field(w, 29, 2)
            case ADDImmediate(rd, rn, imm, shifted) =>
              rd == Field(w, 0, 5) && rn == Field(w, 5, 5) && imm == Field(w, 10, 12)
              && (shifted <==> Field(w, 22, 2) == 1)
            case LDRUnsigned(_, rn, imm) => rn == Field(w, 5, 5) && imm == Field(w, 10, 12)
            case LDRPreIndex(_, _, imm) => imm == Field(w, 12, 9)
            case LDUR(_, rn, imm) => rn == Field(w, 5, 5) && imm == Field(w, 12, 9)
            case MOVZ(_, imm, hw) => imm == Field(w, 5, 16) && hw == Field(w, 21, 2)
            case B(imm) => imm == Field(w, 0, 26)
            case _ => true
  {
    hide Field, Fields, DecodeFields;
    CutOperands(Fields(w));
    WideFields(w);
    ShiftField(w);
  }

  // ---- what the decoders return ----

  /** The page that ADRP computes at `pc`, before any wrap. */
  function Page(i: Instruction, pc: u64): int
    requires i.ADRP?
  {
    pc - pc % 0x1000 + Signed(i.imm21, 21) * 0x1000
  }

  lemma ADRPValue(w: u32, pc: u64)
    requires Decode(w).Some? && Decode(w).value.ADRP?
    ensures var page := Page(Decode(w).value, pc);
            DecodeADRP(w, pc) == if 0 <= page < TWO_64 then Some((Decode(w).value.rd as nat, page)) else None
  {
    hide Decode, Field, And, Shr;
    ADRPClass(w);
    Operands(w);
    ADRPImmediate(w);
    PageStart(pc);
    Powers();
    MaskedLow(w, 5, 0x1f);
    var imm := Field(w, 5, 19) * 4 + Field(w, 29, 2);
    SignExtendReadsSigned(imm, 21);
    LowSmall(imm, 21);
  }

  /** ADRP: the page that the instruction puts into its register, exactly when that does not wrap. */
  lemma ADRPDecoded(w: u32, pc: u64)
    ensures DecodeADRP(w, pc).Some? <==>
            Decode(w).Some? && Decode(w).value.ADRP? && 0 <= Page(Decode(w).value, pc) < TWO_64
    ensures DecodeADRP(w, pc).Some? ==>
            && DecodeADRP(w, pc).value.0 == Decode(w).value.rd
            && DecodeADRP(w, pc).value.1 == Page(Decode(w).value, pc)
  {
    ADRPClass(w);
    if Decode(w).Some? && Decode(w).value.ADRP? { ADRPValue(w, pc); }
  }

  /** ADD: the offset, exactly when source and destination are the requested register. */
  lemma ADDDecoded(w: u32, base: byte)
    ensures DecodeADDImmediate(w, base) ==
            match Decode(w)
            case Some(ADDImmediate(rd, rn, imm, shifted)) =>
              if rd == base && rn == base then Some(ADDOffset(imm, shifted)) else None
            case _ => None
  {
    ADDClass(w);
    if Decode(w).Some? { Operands(w); }
    Powers();
    Pow2At64();
    Masked(w, 0, 5, 0x1f);
    Masked(w, 5, 5, 0x1f);
    Masked(w, 10, 12, 0xfff);
    Masked(w, 22, 2, 0x3);
    LowSmall(Field(w, 10, 12) * 0x1000, 64);
  }

  lemma LDRDecoded(w: u32, base: byte)
    ensures DecodeLDRUnsignedOffset64(w) ==
            match Decode(w) case Some(LDRUnsigned(_, _, imm)) => Some(imm * 8) case _ => None
    ensures DecodeLDRUnsigned64(w, base) ==
            match Decode(w)
            case Some(LDRUnsigned(_, rn, imm)) => if rn == base then Some(imm * 8) else None
            case _ => None
  {
    LDRUnsignedClass(w);
    if Decode(w).Some? { Operands(w); }
    Powers();
    Pow2At64();
    Masked(w, 5, 5, 0x1f);
    Masked(w, 10, 12, 0xfff);
    LowSmall(Field(w, 10, 12) * 8, 64);
  }

  lemma LDRPreIndexDecoded(w: u32)
    ensures DecodeLDRSignedPreIndex64(w) ==
            match Decode(w) case Some(LDRPreIndex(_, _, imm)) => Some(Signed(imm, 9)) case _ => None
  {
    LDRPreIndexClass(w);
    if Decode(w).Some? { Operands(w); }
    Powers();
    Masked(w, 12, 9, 0x1ff);
    SignExtendReadsSigned(Field(w, 12, 9), 9);
    LowSmall(Field(w, 12, 9), 9);
  }

  lemma LDURDecoded(w: u32, base: byte)
    ensures DecodeLDUR64(w, base) ==
            match Decode(w)
            case Some(LDUR(_, rn, imm)) => if rn == base then Some(Signed(imm, 9)) else None
            case _ => None
  {
    LDURClass(w);
    if Decode(w).Some? { Operands(w); }
    Powers();
    Masked(w, 5, 5, 0x1f);
    Masked(w, 12, 9, 0x1ff);
    SignExtendReadsSigned(Field(w, 12, 9), 9);
    LowSmall(Field(w, 12, 9), 9);
  }

  lemma ShiftByHalfwords(imm: nat, hw: nat)
    requires imm < 0x1_0000 && hw < 4
    ensures Shl(imm, hw * 16, 64) == imm * HalfwordUnit(hw) < TWO_64
  {
    Pow2At64();
    Powers();
    Pow2Add(16, 16);
    Pow2Add(32, 16);
    assert Pow2(hw * 16) == HalfwordUnit(hw);
    LowSmall(imm * HalfwordUnit(hw), 64);
  }

  lemma MOVZDecoded(w: u32)
    ensures DecodeMOVZImmediate(w) ==
            match Decode(w) case Some(MOVZ(_, imm, hw)) => Some(imm * HalfwordUnit(hw)) case _ => None
  {
    MOVZClass(w);
    Powers();
    Masked(w, 5, 16, 0xffff);
    Masked(w, 21, 2, 0x3);
    if Decode(w).Some? { Operands(w); }
    ShiftByHalfwords(Field(w, 5, 16), Field(w, 21, 2));
  }

  /** A branch is followed to the address that the machine goes to next, exactly when that does not wrap. */
  lemma BranchFollowed(w: u32, address: u64)
    ensures FollowOneBranch(w, address) ==
            match Decode(w)
            case Some(B(imm)) =>
              if 0 <= address + Signed(imm, 26) * 4 < TWO_64 then address + Signed(imm, 26) * 4 else address
            case _ => address
  {
    BClass(w);
    if Decode(w).Some? { Operands(w); }
    Powers();
    MaskedLow(w, 26, 0x3ff_ffff);
    SignExtendReadsSigned(Field(w, 0, 26), 26);
    LowSmall(Field(w, 0, 26), 26);
  }

  // ---- what the decoded numbers mean to the machine ----

  /** Two instructions in a row, neither of them a branch. */
  function Both(first: Instruction, second: Instruction, cpu: Cpu, memory: map<int, byte>): (after: Option<Cpu>)
    requires cpu.Valid() && WellFormed(first) && WellFormed(second)
    ensures after.Some? ==> after.value.Valid()
  {
    match Execute(first, cpu, memory)
    case None => None
    case Some(middle) => Execute(second, middle, memory)
  }

  lemma ADRPExecutes(i: Instruction, cpu: Cpu, memory: map<int, byte>)
    requires cpu.Valid() && WellFormed(i) && i.ADRP? && 0 <= Page(i, cpu.pc) < TWO_64
    ensures Execute(i, cpu, memory) == Some(cpu.Set(i.rd, Page(i, cpu.pc)).Next())
  {
    hide Signed;
  }

  lemma ADDExecutes(i: Instruction, cpu: Cpu, memory: map<int, byte>)
    requires cpu.Valid() && WellFormed(i) && i.ADDImmediate?
    ensures Execute(i, cpu, memory)
            == Some(cpu.SetBase(i.rd, Wrap(cpu.Base(i.rn) + ADDOffset(i.imm12, i.shifted))).Next())
  {
  }

  lemma PageThenOffset(first: Instruction, second: Instruction, cpu: Cpu, memory: map<int, byte>)
    requires cpu.Valid() && WellFormed(first) && WellFormed(second)
    requires first.ADRP? && 0 <= Page(first, cpu.pc) < TWO_64
    requires second.ADDImmediate? && second.rd == first.rd && second.rn == first.rd
    ensures Both(first, second, cpu, memory).Some?
    ensures var page, offset := Page(first, cpu.pc), ADDOffset(second.imm12, second.shifted);
            var after := Both(first, second, cpu, memory).value;
            && after.Base(first.rd) == Wrap((if first.rd == 31 then cpu.sp else page) + offset)
            && (first.rd == 31 ==> after.x == cpu.x)
  {
    hide Execute, Page;
    ADRPExecutes(first, cpu, memory);
    ADDExecutes(second, cpu.Set(first.rd, Page(first, cpu.pc)).Next(), memory);
  }

  /** The load behind an ADRP reads at page plus offset, or at SP plus offset for register 31. */
  lemma PageThenLoad(first: Instruction, second: Instruction, cpu: Cpu, memory: map<int, byte>)
    requires cpu.Valid() && WellFormed(first) && WellFormed(second)
    requires first.ADRP? && 0 <= Page(first, cpu.pc) < TWO_64
    requires (second.LDRUnsigned? || second.LDUR?) && second.rn == first.rd
    ensures Execute(first, cpu, memory).Some?
    ensures var offset := if second.LDRUnsigned? then second.imm12 * 8 else Signed(second.imm9, 9);
            LoadAddress(second, Execute(first, cpu, memory).value)
            == Wrap((if first.rd == 31 then cpu.sp else Page(first, cpu.pc)) + offset)
  {
    hide Execute, Page, Signed;
    ADRPExecutes(first, cpu, memory);
  }

  /** A stack pointer that tells itself from the page. */
  function OtherBase(page: u64): (sp: u64)
    ensures sp != page
  {
    if page == 0 then 1 else 0
  }

  lemma BasesTell(a: u64, b: u64, offset: int)
    requires a != b
    ensures Wrap(a + offset) != Wrap(b + offset)
  {
    var x, y := (a + offset) / TWO_64, (b + offset) / TWO_64;
    assert a - b == TWO_64 * (x - y) + (Wrap(a + offset) - Wrap(b + offset));
  }

  /** What the pair leaves in the register it names, which is the stack pointer for number 31. */
  lemma ADRPThenADDLeaves(adrp: u32, add: u32, first: Instruction, second: Instruction, cpu: Cpu,
                          memory: map<int, byte>)
    requires cpu.Valid() && WellFormed(first) && WellFormed(second)
    requires Decode(adrp) == Some(first) && Decode(add) == Some(second)
    requires DecodeADRP(adrp, cpu.pc).Some? && DecodeADRP(adrp, cpu.pc).value.0 < 0x100
    requires DecodeADDImmediate(add, DecodeADRP(adrp, cpu.pc).value.0).Some?
    ensures Both(first, second, cpu, memory).Some? && DecodeADRP(adrp, cpu.pc).value.0 < 32 && second.ADDImmediate?
    ensures var (r, page) := DecodeADRP(adrp, cpu.pc).value;
            var offset := DecodeADDImmediate(add, r).value;
            var after := Both(first, second, cpu, memory).value;
            && second.rd == r && after.Base(r) == Wrap((if r == 31 then cpu.sp else page) + offset)
            && (r == 31 ==> after.x == cpu.x)
  {
    hide Decode, DecodeADRP, DecodeADDImmediate, Both, Execute, Wrap;
    ADRPDecoded(adrp, cpu.pc);
    ADDDecoded(add, DecodeADRP(adrp, cpu.pc).value.0);
    PageThenOffset(first, second, cpu, memory);
  }

  /** Whatever the registers hold, the pair leaves the target in the second one's register. */
  ghost predicate Leaves(first: Instruction, second: Instruction, pc: u64, target: u64)
    requires WellFormed(first) && WellFormed(second) && second.ADDImmediate?
  {
    forall cpu: Cpu, memory: map<int, byte> | cpu.Valid() && cpu.pc == pc && Both(first, second, cpu, memory).Some? ::
      Both(first, second, cpu, memory).value.Base(second.rd) == target
  }

  /**
   ADRP and then ADD leave the decoded page plus offset, modulo 2^64, in the register, whatever the
   registers held, exactly below register 31. The pair is accepted for number 31 too, but there ADRP
   writes nowhere and ADD moves the stack pointer.
   */
  lemma ADRPThenADD(adrp: u32, add: u32, first: Instruction, second: Instruction, pc: u64)
    requires WellFormed(first) && WellFormed(second) && second.ADDImmediate?
    requires Decode(adrp) == Some(first) && Decode(add) == Some(second)
    requires DecodeADRP(adrp, pc).Some? && DecodeADRP(adrp, pc).value.0 < 0x100
    requires DecodeADDImmediate(add, DecodeADRP(adrp, pc).value.0).Some?
    ensures var (r, page) := DecodeADRP(adrp, pc).value;
            Leaves(first, second, pc, Wrap(page + DecodeADDImmediate(add, r).value)) <==> r < 31
  {
    hide Decode, DecodeADRP, DecodeADDImmediate, Both, Execute, Wrap;
    var (r, page) := DecodeADRP(adrp, pc).value;
    var offset := DecodeADDImmediate(add, r).value;
    var cpu := Cpu(seq(31, _ => 0), OtherBase(page), pc);
    ADRPThenADDLeaves(adrp, add, first, second, cpu, map[]);
    BasesTell(OtherBase(page), page, offset);
    forall cpu: Cpu, memory: map<int, byte> | r < 31 && cpu.Valid() && cpu.pc == pc
      ensures Both(first, second, cpu, memory).Some?
              && Both(first, second, cpu, memory).value.Base(second.rd) == Wrap(page + offset)
    {
      ADRPThenADDLeaves(adrp, add, first, second, cpu, memory);
    }
  }

  /** What the load reads at, as decoded, when the pair names register `r`. */
  lemma ADRPThenLDRReads(adrp: u32, ldr: u32, first: Instruction, second: Instruction, cpu: Cpu, memory: map<int, byte>)
    requires cpu.Valid() && WellFormed(first) && WellFormed(second)
    requires Decode(adrp) == Some(first) && Decode(ldr) == Some(second)
    requires DecodeADRP(adrp, cpu.pc).Some? && DecodeADRP(adrp, cpu.pc).value.0 < 0x100
    requires DecodeLDRUnsigned64(ldr, DecodeADRP(adrp, cpu.pc).value.0).Some?
    ensures second.LDRUnsigned? && Execute(first, cpu, memory).Some? && DecodeADRP(adrp, cpu.pc).value.0 < 32
    ensures var (r, page) := DecodeADRP(adrp, cpu.pc).value;
            var offset := DecodeLDRUnsigned64(ldr, r).value;
            LoadAddress(second, Execute(first, cpu, memory).value) == Wrap((if r == 31 then cpu.sp else page) + offset)
  {
    hide Decode, DecodeADRP, DecodeLDRUnsigned64, Execute, LoadAddress, Page, Signed, Wrap, ADDOffset, HalfwordUnit,
        Both;
    ADRPDecoded(adrp, cpu.pc);
    var r := DecodeADRP(adrp, cpu.pc).value.0;
    LDRDecoded(ldr, r);
    assert second.LDRUnsigned?;
    assert DecodeLDRUnsigned64(ldr, r) == Some(second.imm12 * 8) && second.imm12 < 0x1000;
    PageThenLoad(first, second, cpu, memory);
  }

  /** What the unscaled load reads at; its offset may be negative. */
  lemma ADRPThenLDURReads(adrp: u32, ldur: u32, first: Instruction, second: Instruction, cpu: Cpu,
                          memory: map<int, byte>)
    requires cpu.Valid() && WellFormed(first) && WellFormed(second)
    requires Decode(adrp) == Some(first) && Decode(ldur) == Some(second)
    requires DecodeADRP(adrp, cpu.pc).Some? && DecodeADRP(adrp, cpu.pc).value.0 < 0x100
    requires DecodeLDUR64(ldur, DecodeADRP(adrp, cpu.pc).value.0).Some?
    ensures second.LDUR? && Execute(first, cpu, memory).Some? && DecodeADRP(adrp, cpu.pc).value.0 < 32
    ensures var (r, page) := DecodeADRP(adrp, cpu.pc).value;
            LoadAddress(second, Execute(first, cpu, memory).value)
            == Wrap((if r == 31 then cpu.sp else page) + DecodeLDUR64(ldur, r).value)
  {
    hide Decode, DecodeADRP, DecodeLDUR64, Execute, LoadAddress, Page, Signed, Wrap, ADDOffset, HalfwordUnit, Both;
    ADRPDecoded(adrp, cpu.pc);
    LDURDecoded(ldur, DecodeADRP(adrp, cpu.pc).value.0);
    PageThenLoad(first, second, cpu, memory);
  }

  /** Whatever the registers hold, the load behind the first instruction reads at the target. */
  ghost predicate ReadsAt(first: Instruction, second: Instruction, pc: u64, target: int)
    requires WellFormed(first) && WellFormed(second) && (second.LDRUnsigned? || second.LDUR?)
  {
    forall cpu: Cpu, memory: map<int, byte> | cpu.Valid() && cpu.pc == pc && Execute(first, cpu, memory).Some? ::
      LoadAddress(second, Execute(first, cpu, memory).value) == target
  }

  /**
   The address read is the decoded page plus offset, modulo 2^64, whatever the registers hold, exactly
   below register 31.
   */
  lemma ADRPThenLDR(adrp: u32, ldr: u32, first: Instruction, second: Instruction, pc: u64)
    requires WellFormed(first) && WellFormed(second) && second.LDRUnsigned?
    requires Decode(adrp) == Some(first) && Decode(ldr) == Some(second)
    requires DecodeADRP(adrp, pc).Some? && DecodeADRP(adrp, pc).value.0 < 0x100
    requires DecodeLDRUnsigned64(ldr, DecodeADRP(adrp, pc).value.0).Some?
    ensures var (r, page) := DecodeADRP(adrp, pc).value;
            ReadsAt(first, second, pc, Wrap(page + DecodeLDRUnsigned64(ldr, r).value)) <==> r < 31
  {
    hide Decode, DecodeADRP, DecodeLDRUnsigned64, Execute, LoadAddress, Wrap;
    var (r, page) := DecodeADRP(adrp, pc).value;
    var offset := DecodeLDRUnsigned64(ldr, r).value;
    var cpu := Cpu(seq(31, _ => 0), OtherBase(page), pc);
    ADRPThenLDRReads(adrp, ldr, first, second, cpu, map[]);
    BasesTell(OtherBase(page), page, offset);
    forall cpu: Cpu, memory: map<int, byte> | r < 31 && cpu.Valid() && cpu.pc == pc
      ensures Execute(first, cpu, memory).Some?
              && LoadAddress(second, Execute(first, cpu, memory).value) == Wrap(page + offset)
    {
      ADRPThenLDRReads(adrp, ldr, first, second, cpu, memory);
    }
  }

  /** The same for the unscaled load. */
  lemma ADRPThenLDUR(adrp: u32, ldur: u32, first: Instruction, second: Instruction, pc: u64)
    requires WellFormed(first) && WellFormed(second) && second.LDUR?
    requires Decode(adrp) == Some(first) && Decode(ldur) == Some(second)
    requires DecodeADRP(adrp, pc).Some? && DecodeADRP(adrp, pc).value.0 < 0x100
    requires DecodeLDUR64(ldur, DecodeADRP(adrp, pc).value.0).Some?
    ensures var (r, page) := DecodeADRP(adrp, pc).value;
            ReadsAt(first, second, pc, Wrap(page + DecodeLDUR64(ldur, r).value)) <==> r < 31
  {
    hide Decode, DecodeADRP, DecodeLDUR64, Execute, LoadAddress, Wrap;
    var (r, page) := DecodeADRP(adrp, pc).value;
    var offset := DecodeLDUR64(ldur, r).value;
    var cpu := Cpu(seq(31, _ => 0), OtherBase(page), pc);
    ADRPThenLDURReads(adrp, ldur, first, second, cpu, map[]);
    BasesTell(OtherBase(page), page, offset);
    forall cpu: Cpu, memory: map<int, byte> | r < 31 && cpu.Valid() && cpu.pc == pc
      ensures Execute(first, cpu, memory).Some?
              && LoadAddress(second, Execute(first, cpu, memory).value) == Wrap(page + offset)
    {
      ADRPThenLDURReads(adrp, ldur, first, second, cpu, memory);
    }
  }

  /** Following a branch agrees with executing it. */
  lemma BranchExecutes(w: u32, i: Instruction, cpu: Cpu, memory: map<int, byte>)
    requires cpu.Valid() && WellFormed(i) && Decode(w) == Some(i) && i.B?
    requires 0 <= cpu.pc + Signed(i.imm26, 26) * 4 < TWO_64
    ensures Execute(i, cpu, memory) == Some(cpu.(pc := FollowOneBranch(w, cpu.pc)))
  {
    hide Decode, FollowOneBranch;
    BranchFollowed(w, cpu.pc);
  }

  /** The MOVZ value is what the register holds afterwards. */
  lemma MOVZExecutes(w: u32, i: Instruction, cpu: Cpu, memory: map<int, byte>)
    requires cpu.Valid() && WellFormed(i) && Decode(w) == Some(i) && i.MOVZ? && i.rd < 31
    ensures DecodeMOVZImmediate(w).Some?
    ensures Execute(i, cpu, memory).Some? && Execute(i, cpu, memory).value.Get(i.rd) == DecodeMOVZImmediate(w).value
  {
    hide Decode, DecodeMOVZImmediate, Shl;
    MOVZDecoded(w);
    ShiftByHalfwords(i.imm16, i.hw);
  }
}
