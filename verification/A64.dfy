/**
 A small interpreter for the A64 instructions the library decodes or emits, after section C6.2 of
 the Arm Architecture Reference Manual for A-profile (DDI 0487): instruction fields, their effect
 on registers and memory, and an assembler that is inverse to the instruction decoder.
 */
module A64 {
  import opened Bits
  import opened Wrappers
  import opened Words

  /** Registers 0 to 30; number 31 names SP or XZR depending on the operand. */
  type Register = r: nat | r < 32

  datatype Instruction =
    | ADRP(rd: Register, imm21: nat)
    | ADDImmediate(rd: Register, rn: Register, imm12: nat, shifted: bool)
    | LDRUnsigned(rt: Register, rn: Register, imm12: nat)
    | LDRPreIndex(rt: Register, rn: Register, imm9: nat)
    | LDUR(rt: Register, rn: Register, imm9: nat)
    | MOVZ(rd: Register, imm16: nat, hw: nat)
    | MOVK(rd: Register, imm16: nat, hw: nat)
    | B(imm26: nat)
    | BR(rn: Register)

  predicate WellFormed(i: Instruction) {
    match i
    case ADRP(_, imm) => imm < 0x20_0000
    case ADDImmediate(_, _, imm, _) => imm < 0x1000
    case LDRUnsigned(_, _, imm) => imm < 0x1000
    case LDRPreIndex(_, _, imm) => imm < 0x200
    case LDUR(_, _, imm) => imm < 0x200
    case MOVZ(_, imm, hw) => imm < 0x1_0000 && hw < 4
    case MOVK(_, imm, hw) => imm < 0x1_0000 && hw < 4
    case B(imm) => imm < 0x400_0000
    case BR(_) => true
  }

  /** The instruction's word, each operand placed in its field. */
  function Encode(i: Instruction): (word: u32)
    requires WellFormed(i)
  {
    match i
    case ADRP(rd, imm) => 0x9000_0000 + imm % 4 * 0x2000_0000 + imm / 4 * 0x20 + rd
    case ADDImmediate(rd, rn, imm, shifted) =>
      0x9100_0000 + (if shifted then 0x40_0000 else 0) + imm * 0x400 + rn * 0x20 + rd
    case LDRUnsigned(rt, rn, imm) => 0xf940_0000 + imm * 0x400 + rn * 0x20 + rt
    case LDRPreIndex(rt, rn, imm) => 0xf840_0c00 + imm * 0x1000 + rn * 0x20 + rt
    case LDUR(rt, rn, imm) => 0xf840_0000 + imm * 0x1000 + rn * 0x20 + rt
    case MOVZ(rd, imm, hw) => 0xd280_0000 + hw * 0x20_0000 + imm * 0x20 + rd
    case MOVK(rd, imm, hw) => 0xf280_0000 + hw * 0x20_0000 + imm * 0x20 + rd
    case B(imm) => 0x1400_0000 + imm
    case BR(rn) => 0xd61f_0000 + rn * 0x20
  }

  /** A word cut at every field boundary: bits 0, 5, 10, 12, 21, 22, 23, 24, 26, 29 and 31. */
  datatype Cut = Cut(b0: nat, b5: nat, b10: nat, b12: nat, b21: nat, b22: nat, b23: nat, b24: nat, b26: nat, b29: nat,
                     b31: nat)
  {
    predicate Fits() {
      b0 < 0x20 && b5 < 0x20 && b10 < 4 && b12 < 0x200 && b21 < 2 && b22 < 2 && b23 < 2 && b24 < 4 && b26 < 8
      && b29 < 4 && b31 < 2
    }

    function Word(): nat {
      b0 + 0x20 * b5 + 0x400 * b10 + 0x1000 * b12 + 0x20_0000 * b21 + 0x40_0000 * b22 + 0x80_0000 * b23
      + 0x100_0000 * b24 + 0x400_0000 * b26 + 0x2000_0000 * b29 + 0x8000_0000 * b31
    }
  }

  /** The elementary fields of a word. */
  function Fields(w: u32): (c: Cut)
    ensures c.Fits()
  {
    Powers();
    Cut(Field(w, 0, 5), Field(w, 5, 5), Field(w, 10, 2), Field(w, 12, 9), Field(w, 21, 1), Field(w, 22, 1),
        Field(w, 23, 1), Field(w, 24, 2), Field(w, 26, 3), Field(w, 29, 2), Field(w, 31, 1))
  }

  /** The instruction that the elementary fields spell, if it is one of those modelled. */
  function DecodeFields(c: Cut): Option<Instruction>
    requires c.Fits()
  {
    var imm12, imm16 := c.b10 + 4 * c.b12 + 0x800 * c.b21, c.b5 + 0x20 * c.b10 + 0x80 * c.b12;
    var imm19 := imm16 + 0x1_0000 * (c.b21 + 2 * c.b22 + 4 * c.b23);
    if c.b31 == 1 && c.b26 == 4 && c.b24 == 0 then
      Some(ADRP(c.b0, imm19 * 4 + c.b29))
    else if c.b31 == 1 && c.b29 == 0 && c.b26 == 4 && c.b24 == 1 && c.b23 == 0 then
      Some(ADDImmediate(c.b0, c.b5, imm12, c.b22 == 1))
    else if c.b31 == 1 && c.b29 == 3 && c.b26 == 6 && c.b24 == 1 && c.b23 == 0 && c.b22 == 1 then
      Some(LDRUnsigned(c.b0, c.b5, imm12))
    else if c.b31 == 1 && c.b29 == 3 && c.b26 == 6 && c.b24 == 0 && c.b23 == 0 && c.b22 == 1 && c.b21 == 0
        && c.b10 == 3 then
      Some(LDRPreIndex(c.b0, c.b5, c.b12))
    else if c.b31 == 1 && c.b29 == 3 && c.b26 == 6 && c.b24 == 0 && c.b23 == 0 && c.b22 == 1 && c.b21 == 0
        && c.b10 == 0 then
      Some(LDUR(c.b0, c.b5, c.b12))
    else if c.b31 == 1 && c.b29 == 2 && c.b26 == 4 && c.b24 == 2 && c.b23 == 1 then
      Some(MOVZ(c.b0, imm16, c.b21 + 2 * c.b22))
    else if c.b31 == 1 && c.b29 == 3 && c.b26 == 4 && c.b24 == 2 && c.b23 == 1 then
      Some(MOVK(c.b0, imm16, c.b21 + 2 * c.b22))
    else if c.b31 == 0 && c.b29 == 0 && c.b26 == 5 then
      Some(B(c.b0 + 0x20 * imm19 + 0x100_0000 * c.b24))
    else if && c.b31 == 1 && c.b29 == 2 && c.b26 == 5 && c.b24 == 2 && c.b23 == 0 && c.b22 == 0
            && c.b21 == 0 && c.b12 == 0x1f0 && c.b10 == 0 && c.b0 == 0 then
      Some(BR(c.b5))
    else None
  }

  function Decode(w: u32): Option<Instruction> {
    DecodeFields(Fields(w))
  }

  lemma Powers()
    ensures Pow2(1) == 2 && Pow2(2) == 4 && Pow2(3) == 8 && Pow2(5) == 0x20 && Pow2(6) == 0x40 && Pow2(9) == 0x200
    ensures Pow2(10) == 0x400 && Pow2(11) == 0x800 && Pow2(12) == 0x1000 && Pow2(16) == 0x1_0000
    ensures Pow2(19) == 0x8_0000 && Pow2(21) == 0x20_0000 && Pow2(22) == 0x40_0000 && Pow2(23) == 0x80_0000
    ensures Pow2(24) == 0x100_0000 && Pow2(26) == 0x400_0000 && Pow2(29) == 0x2000_0000 && Pow2(31) == 0x8000_0000
  {
    Pow2Add(5, 5);
    Pow2Add(10, 11);
    Pow2Add(21, 10);
  }

  /** A field read off a decomposition of the word around it. */
  lemma FieldIs(word: nat, low: nat, width: nat, p: nat, q: nat, above: nat, field: nat, below: nat)
    requires p == Pow2(low) && q == Pow2(width) && field < q && below < p
    requires word == p * (q * above + field) + below
    ensures Field(word, low, width) == field
  {
    DecomposeUnique(word, low, q * above + field, below);
    DecomposeUnique(q * above + field, width, above, field);
  }

  /** A word is the sum of its elementary fields. */
  lemma WordOfFields(w: u32)
    ensures w == Fields(w).Word()
  {
    var c := CutWord(w);
    FieldsUnique(w, c);
  }

  /** Only its elementary fields add up to a word. */
  lemma FieldsUnique(w: u32, c: Cut)
    requires c.Fits() && w == c.Word()
    ensures Fields(w) == c
  {
    Powers();
    var top23 := c.b23 + 2 * c.b24 + 8 * c.b26 + 0x40 * c.b29 + 0x100 * c.b31;
    var top12 := c.b12 + 0x200 * (c.b21 + 2 * c.b22 + 4 * top23);
    var low12 := c.b0 + 0x20 * c.b5 + 0x400 * c.b10;
    var low21 := low12 + 0x1000 * c.b12;
    var low24 := low21 + 0x20_0000 * c.b21 + 0x40_0000 * c.b22 + 0x80_0000 * c.b23;
    FieldIs(w, 0, 5, 1, 0x20, c.b5 + 0x20 * (c.b10 + 4 * top12), c.b0, 0);
    FieldIs(w, 5, 5, 0x20, 0x20, c.b10 + 4 * top12, c.b5, c.b0);
    FieldIs(w, 10, 2, 0x400, 4, top12, c.b10, c.b0 + 0x20 * c.b5);
    FieldIs(w, 12, 9, 0x1000, 0x200, c.b21 + 2 * c.b22 + 4 * top23, c.b12, low12);
    FieldIs(w, 21, 1, 0x20_0000, 2, c.b22 + 2 * top23, c.b21, low21);
    FieldIs(w, 22, 1, 0x40_0000, 2, top23, c.b22, low21 + 0x20_0000 * c.b21);
    FieldIs(w, 23, 1, 0x80_0000, 2, c.b24 + 4 * c.b26 + 0x20 * c.b29 + 0x80 * c.b31, c.b23, low24 - 0x80_0000 * c.b23);
    FieldIs(w, 24, 2, 0x100_0000, 4, c.b26 + 8 * c.b29 + 0x20 * c.b31, c.b24, low24);
    FieldIs(w, 26, 3, 0x400_0000, 8, c.b29 + 4 * c.b31, c.b26, low24 + 0x100_0000 * c.b24);
    FieldIs(w, 29, 2, 0x2000_0000, 4, c.b31, c.b29, low24 + 0x100_0000 * c.b24 + 0x400_0000 * c.b26);
    FieldIs(w, 31, 1, 0x8000_0000, 2, 0, c.b31, w - 0x8000_0000 * c.b31);
  }

  /** Every word can be cut. */
  lemma CutWord(w: u32) returns (c: Cut)
    ensures c.Fits() && w == c.Word()
  {
    var w5 := w / 0x20;
    var w10 := w5 / 0x20;
    var w12 := w10 / 4;
    var w21 := w12 / 0x200;
    var w22 := w21 / 2;
    var w23 := w22 / 2;
    var w24 := w23 / 2;
    var w26 := w24 / 4;
    var w29 := w26 / 8;
    c := Cut(w % 0x20, w5 % 0x20, w10 % 4, w12 % 0x200, w21 % 2, w22 % 2, w23 % 2, w24 % 4, w26 % 8, w29 % 4, w29 / 4);
  }

  lemma CutImm12(imm: nat) returns (b10: nat, b12: nat, b21: nat)
    requires imm < 0x1000
    ensures imm == b10 + 4 * b12 + 0x800 * b21 && b10 < 4 && b12 < 0x200 && b21 < 2
  {
    b10, b12, b21 := imm % 4, imm / 4 % 0x200, imm / 4 / 0x200;
  }

  lemma CutImm16(imm: nat) returns (b5: nat, b10: nat, b12: nat)
    requires imm < 0x1_0000
    ensures imm == b5 + 0x20 * b10 + 0x80 * b12 && b5 < 0x20 && b10 < 4 && b12 < 0x200
  {
    b5, b10, b12 := imm % 0x20, imm / 0x20 % 4, imm / 0x20 / 4;
  }

  lemma CutImm19(imm: nat) returns (b5: nat, b10: nat, b12: nat, b21: nat, b22: nat, b23: nat)
    requires imm < 0x8_0000
    ensures imm == b5 + 0x20 * b10 + 0x80 * b12 + 0x1_0000 * (b21 + 2 * b22 + 4 * b23)
    ensures b5 < 0x20 && b10 < 4 && b12 < 0x200 && b21 < 2 && b22 < 2 && b23 < 2
  {
    b5, b10, b12 := CutImm16(imm % 0x1_0000);
    var t := imm / 0x1_0000;
    b21, b22, b23 := t % 2, t / 2 % 2, t / 4;
  }

  /** How `Encode` lays an instruction out. */
  lemma CutEncoding(i: Instruction) returns (c: Cut)
    requires WellFormed(i)
    ensures c.Fits() && Encode(i) == c.Word() && DecodeFields(c) == Some(i)
  {
    match i
    case ADRP(rd, imm) =>
      var b5, b10, b12, b21, b22, b23 := CutImm19(imm / 4);
      c := Cut(rd, b5, b10, b12, b21, b22, b23, 0, 4, imm % 4, 1);
    case ADDImmediate(rd, rn, imm, shifted) =>
      var b10, b12, b21 := CutImm12(imm);
      c := Cut(rd, rn, b10, b12, b21, if shifted then 1 else 0, 0, 1, 4, 0, 1);
    case LDRUnsigned(rt, rn, imm) =>
      var b10, b12, b21 := CutImm12(imm);
      c := Cut(rt, rn, b10, b12, b21, 1, 0, 1, 6, 3, 1);
    case LDRPreIndex(rt, rn, imm) => c := Cut(rt, rn, 3, imm, 0, 1, 0, 0, 6, 3, 1);
    case LDUR(rt, rn, imm) => c := Cut(rt, rn, 0, imm, 0, 1, 0, 0, 6, 3, 1);
    case MOVZ(rd, imm, hw) =>
      var b5, b10, b12 := CutImm16(imm);
      c := Cut(rd, b5, b10, b12, hw % 2, hw / 2, 1, 2, 4, 2, 1);
    case MOVK(rd, imm, hw) =>
      var b5, b10, b12 := CutImm16(imm);
      c := Cut(rd, b5, b10, b12, hw % 2, hw / 2, 1, 2, 4, 3, 1);
    case B(imm) =>
      var b5, b10, b12, b21, b22, b23 := CutImm19(imm / 0x20 % 0x8_0000);
      c := Cut(imm % 0x20, b5, b10, b12, b21, b22, b23, imm / 0x20 / 0x8_0000, 5, 0, 0);
    case BR(rn) => c := Cut(0, rn, 0, 0x1f0, 0, 0, 0, 2, 5, 2, 1);
  }

  /** Assembling and decoding an instruction gives it back. */
  lemma DecodeEncode(i: Instruction)
    requires WellFormed(i)
    ensures Decode(Encode(i)) == Some(i)
  {
    var c := CutEncoding(i);
    FieldsUnique(Encode(i), c);
  }

  lemma EncodeFields(c: Cut)
    requires c.Fits() && DecodeFields(c).Some?
    ensures WellFormed(DecodeFields(c).value) && Encode(DecodeFields(c).value) == c.Word()
  {
    var i := DecodeFields(c).value;
    match i
    case ADRP(rd, imm) => assert imm % 4 == c.b29 && imm / 4 * 4 == imm - c.b29;
    case ADDImmediate(rd, rn, imm, shifted) =>
    case LDRUnsigned(rt, rn, imm) =>
    case LDRPreIndex(rt, rn, imm) =>
    case LDUR(rt, rn, imm) =>
    case MOVZ(rd, imm, hw) =>
    case MOVK(rd, imm, hw) =>
    case B(imm) =>
    case BR(rn) =>
  }

  /** Every word that decodes is the assembly of what it decodes to. */
  lemma EncodeDecode(word: u32)
    requires Decode(word).Some?
    ensures WellFormed(Decode(word).value) && Encode(Decode(word).value) == word
  {
    WordOfFields(word);
    EncodeFields(Fields(word));
  }

  /** The fields that tell the instructions apart. */
  lemma OpcodeFields(w: u32, c: Cut)
    requires c.Fits() && w == c.Word()
    ensures Field(w, 31, 1) == c.b31 && Field(w, 24, 5) == c.b24 + 4 * c.b26
    ensures Field(w, 23, 9) == c.b23 + 2 * c.b24 + 8 * c.b26 + 0x40 * c.b29 + 0x100 * c.b31
    ensures Field(w, 22, 10) == c.b22 + 2 * Field(w, 23, 9) && Field(w, 21, 11) == c.b21 + 2 * Field(w, 22, 10)
    ensures Field(w, 26, 6) == c.b26 + 8 * c.b29 + 0x20 * c.b31 && Field(w, 10, 2) == c.b10
    ensures Field(w, 10, 22) == c.b10 + 4 * c.b12 + 0x800 * Field(w, 21, 11)
  {
    Powers();
    var f26 := c.b26 + 8 * c.b29 + 0x20 * c.b31;
    var f23 := c.b23 + 2 * c.b24 + 8 * f26;
    var f21 := c.b21 + 2 * c.b22 + 4 * f23;
    var low10 := c.b0 + 0x20 * c.b5;
    var low21 := low10 + 0x400 * c.b10 + 0x1000 * c.b12;
    var low24 := low21 + 0x20_0000 * c.b21 + 0x40_0000 * c.b22 + 0x80_0000 * c.b23;
    FieldIs(w, 31, 1, 0x8000_0000, 2, 0, c.b31, w - 0x8000_0000 * c.b31);
    FieldIs(w, 24, 5, 0x100_0000, 0x20, c.b29 + 4 * c.b31, c.b24 + 4 * c.b26, low24);
    FieldIs(w, 23, 9, 0x80_0000, 0x200, 0, f23, low24 - 0x80_0000 * c.b23);
    FieldIs(w, 22, 10, 0x40_0000, 0x400, 0, c.b22 + 2 * f23, low21 + 0x20_0000 * c.b21);
    FieldIs(w, 21, 11, 0x20_0000, 0x800, 0, f21, low21);
    FieldIs(w, 26, 6, 0x400_0000, 0x40, 0, f26, low24 + 0x100_0000 * c.b24);
    FieldIs(w, 10, 2, 0x400, 4, c.b12 + 0x200 * f21, c.b10, low10);
    FieldIs(w, 10, 22, 0x400, 0x40_0000, 0, c.b10 + 4 * c.b12 + 0x800 * f21, low10);
  }

  lemma LowOperands(w: u32, c: Cut)
    requires c.Fits() && w == c.Word()
    ensures Field(w, 0, 5) == c.b0 && Field(w, 5, 5) == c.b5
    ensures Field(w, 10, 12) == c.b10 + 4 * c.b12 + 0x800 * c.b21 && Field(w, 12, 9) == c.b12
    ensures Field(w, 5, 16) == c.b5 + 0x20 * c.b10 + 0x80 * c.b12
  {
    Powers();
    var f22 := c.b22 + 2 * c.b23 + 4 * c.b24 + 0x10 * c.b26 + 0x80 * c.b29 + 0x200 * c.b31;
    var f21 := c.b21 + 2 * f22;
    var f10 := c.b10 + 4 * c.b12 + 0x800 * f21;
    FieldIs(w, 0, 5, 1, 0x20, c.b5 + 0x20 * f10, c.b0, 0);
    FieldIs(w, 5, 5, 0x20, 0x20, f10, c.b5, c.b0);
    FieldIs(w, 10, 12, 0x400, 0x1000, f22, c.b10 + 4 * c.b12 + 0x800 * c.b21, c.b0 + 0x20 * c.b5);
    FieldIs(w, 12, 9, 0x1000, 0x200, f21, c.b12, c.b0 + 0x20 * c.b5 + 0x400 * c.b10);
    FieldIs(w, 5, 16, 0x20, 0x1_0000, f21, c.b5 + 0x20 * c.b10 + 0x80 * c.b12, c.b0);
  }

  lemma HighOperands(w: u32, c: Cut)
    requires c.Fits() && w == c.Word()
    ensures Field(w, 22, 1) == c.b22 && Field(w, 29, 2) == c.b29 && Field(w, 21, 2) == c.b21 + 2 * c.b22
    ensures Field(w, 5, 19) == c.b5 + 0x20 * c.b10 + 0x80 * c.b12 + 0x1_0000 * (c.b21 + 2 * c.b22 + 4 * c.b23)
    ensures Field(w, 0, 26) == c.b0 + 0x20 * Field(w, 5, 19) + 0x100_0000 * c.b24
  {
    Powers();
    var top26 := c.b26 + 8 * c.b29 + 0x20 * c.b31;
    var top24 := c.b24 + 4 * top26;
    var low21 := c.b0 + 0x20 * c.b5 + 0x400 * c.b10 + 0x1000 * c.b12;
    var low26 := w - 0x400_0000 * top26;
    var f5 := c.b5 + 0x20 * c.b10 + 0x80 * c.b12 + 0x1_0000 * (c.b21 + 2 * c.b22 + 4 * c.b23);
    FieldIs(w, 22, 1, 0x40_0000, 2, c.b23 + 2 * top24, c.b22, low21 + 0x20_0000 * c.b21);
    FieldIs(w, 29, 2, 0x2000_0000, 4, c.b31, c.b29, low26 + 0x400_0000 * c.b26);
    FieldIs(w, 21, 2, 0x20_0000, 4, c.b23 + 2 * top24, c.b21 + 2 * c.b22, low21);
    FieldIs(w, 5, 19, 0x20, 0x8_0000, top24, f5, c.b0);
    FieldIs(w, 0, 26, 1, 0x400_0000, top26, low26, 0);
  }

  // ---- execution ----

  /** The state the instructions act on; flags and vector registers are never involved. */
  datatype Cpu = Cpu(x: seq<u64>, sp: u64, pc: u64)
  {
    predicate Valid() { |x| == 31 }

    /** An operand for which number 31 is the zero register. */
    function Get(r: Register): u64
      requires Valid()
    {
      if r == 31 then 0 else x[r]
    }

    /** A base or an ADD operand, for which number 31 is the stack pointer. */
    function Base(r: Register): u64
      requires Valid()
    {
      if r == 31 then sp else x[r]
    }

    function Set(r: Register, value: u64): (c: Cpu)
      requires Valid()
      ensures c.Valid()
    {
      if r == 31 then this else this.(x := x[r := value])
    }

    function SetBase(r: Register, value: u64): (c: Cpu)
      requires Valid()
      ensures c.Valid()
    {
      if r == 31 then this.(sp := value) else this.(x := x[r := value])
    }

    function Next(): Cpu {
      this.(pc := Wrap(pc + 4))
    }
  }

  /** Addition in the machine discards carries out of bit 63. */
  function Wrap(value: int): u64 {
    value % TWO_64
  }

  /** A field read as a two's-complement number. */
  function Signed(field: nat, width: nat): int
    requires width > 0
  {
    if field < Pow2(width - 1) then field else field - Pow2(width)
  }

  function HalfwordUnit(hw: nat): nat
    requires hw < 4
  {
    if hw == 0 then 1 else if hw == 1 then 0x1_0000 else if hw == 2 then 0x1_0000_0000 else 0x1_0000_0000_0000
  }

  /** Replaces the halfword `hw` of `value` and keeps the other three. */
  function InsertHalfword(value: u64, imm16: nat, hw: nat): u64
    requires imm16 < 0x1_0000 && hw < 4
  {
    var u := HalfwordUnit(hw);
    assert value / u % 0x1_0000 * u <= value;
    assert value - value / u % 0x1_0000 * u + imm16 * u < TWO_64 by {
      assert value == value / u * u + value % u;
      var q := value / u;
      assert q == q / 0x1_0000 * 0x1_0000 + q % 0x1_0000;
    }
    value - value / u % 0x1_0000 * u + imm16 * u
  }

  function ADDOffset(imm12: nat, shifted: bool): nat {
    if shifted then imm12 * 0x1000 else imm12
  }

  /** The address a load reads from. */
  function LoadAddress(i: Instruction, cpu: Cpu): u64
    requires cpu.Valid() && (i.LDRUnsigned? || i.LDRPreIndex? || i.LDUR?)
  {
    match i
    case LDRUnsigned(_, rn, imm12) => Wrap(cpu.Base(rn) + imm12 * 8)
    case LDRPreIndex(_, rn, imm9) => Wrap(cpu.Base(rn) + Signed(imm9, 9))
    case LDUR(_, rn, imm9) => Wrap(cpu.Base(rn) + Signed(imm9, 9))
  }

  /** One instruction; a load from unmapped memory has no successor. */
  function Execute(i: Instruction, cpu: Cpu, memory: map<int, byte>): (next: Option<Cpu>)
    requires cpu.Valid() && WellFormed(i)
    ensures next.Some? ==> next.value.Valid()
  {
    match i
    case ADRP(rd, imm) => Some(cpu.Set(rd, Wrap(cpu.pc - cpu.pc % 0x1000 + Signed(imm, 21) * 0x1000)).Next())
    case ADDImmediate(rd, rn, imm, shifted) =>
        Some(cpu.SetBase(rd, Wrap(cpu.Base(rn) + ADDOffset(imm, shifted))).Next())
    case LDRUnsigned(rt, _, _) =>
      var a := LoadAddress(i, cpu);
      if Mapped(memory, a, 8) then Some(cpu.Set(rt, U64At(Load(memory, a, 8), 0)).Next()) else None
    case LDRPreIndex(rt, rn, _) =>
      var a := LoadAddress(i, cpu);
      if Mapped(memory, a, 8) then Some(cpu.Set(rt, U64At(Load(memory, a, 8), 0)).SetBase(rn, a).Next()) else None
    case LDUR(rt, _, _) =>
      var a := LoadAddress(i, cpu);
      if Mapped(memory, a, 8) then Some(cpu.Set(rt, U64At(Load(memory, a, 8), 0)).Next()) else None
    case MOVZ(rd, imm, hw) => Some(cpu.Set(rd, Wrap(imm * HalfwordUnit(hw))).Next())
    case MOVK(rd, imm, hw) => Some(cpu.Set(rd, InsertHalfword(cpu.Get(rd), imm, hw)).Next())
    case B(imm) => Some(cpu.(pc := Wrap(cpu.pc + Signed(imm, 26) * 4)))
    case BR(rn) => Some(cpu.(pc := cpu.Get(rn)))
  }

  /** Fetches, decodes and executes the instruction at the program counter. */
  function Step(cpu: Cpu, memory: map<int, byte>): (next: Option<Cpu>)
    requires cpu.Valid()
    ensures next.Some? ==> next.value.Valid()
  {
    if !Mapped(memory, cpu.pc, 4) then None
    else
      var word := U32At(Load(memory, cpu.pc, 4), 0);
      if Decode(word).None? then None
      else
        EncodeDecode(word);
        Execute(Decode(word).value, cpu, memory)
  }

  /** `n` steps in a row. */
  function Steps(cpu: Cpu, memory: map<int, byte>, n: nat): Option<Cpu>
    requires cpu.Valid()
    decreases n
  {
    if n == 0 then Some(cpu)
    else
      var next := Step(cpu, memory);
      if next.None? then None else Steps(next.value, memory, n - 1)
  }
}
