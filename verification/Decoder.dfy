/** The translator's decoder (src/Instruction.cpp): `decode`, and the field and immediate
    extraction that opens every `build_ir`. A `(w >> n) & mask` reads whole groups of bits, `|` of
    disjoint fields is a sum, and the sign-extending `|=` is the bitwise operator itself. */
module Decoder {
  import opened Words
  import opened Isa

  function Decode(w: InsnWord): Instr {
    var op, f3, f7 := w.opcode, w.b12, w.b25 + 0x40 * w.b31;
    match op
    case 0x37 => LUI
    case 0x17 => AUIPC
    case 0x6F => JAL
    case 0x67 => if f3 == 0 then JALR else UNKNOWN
    case 0x03 =>
      (match f3
       case 0 => LB
       case 1 => LH
       case 2 => LW
       case 4 => LBU
       case 5 => LHU
       case _ => UNKNOWN)
    case 0x13 =>
      (match f3
       case 0 => ADDI
       case 1 => if f7 == 0 then SLLI else UNKNOWN
       case 2 => SLTI
       case 3 => SLTIU
       case 4 => XORI
       case 5 => if f7 == 0 then SRLI else if f7 == 0x20 then SRAI else UNKNOWN
       case 6 => ORI
       case 7 => ANDI)
    case 0x63 =>
      (match f3
       case 0 => BEQ
       case 1 => BNE
       case 4 => BLT
       case 5 => BGE
       case 6 => BLTU
       case 7 => BGEU
       case _ => UNKNOWN)
    case 0x23 =>
      (match f3
       case 0 => SB
       case 1 => SH
       case 2 => SW
       case _ => UNKNOWN)
    case 0x33 =>
      (match f3
       case 0 => if f7 == 0 then ADD else if f7 == 0x20 then SUB else UNKNOWN
       case 1 => SLL
       case 2 => SLT
       case 3 => SLTU
       case 4 => XOR
       case 5 => if f7 == 0 then SRL else if f7 == 0x20 then SRA else UNKNOWN
       case 6 => OR
       case 7 => AND)
    case 0x0F =>
      if f3 == 0 then
        var fm, pred, succ := Nibble28(w), Nibble24(w), Nibble20(w);
        if fm == 8 && pred == 3 && succ == 3 then FENCETSO
        else if UpperBits(w) == 0x100F then PAUSE
        else FENCE
      else UNKNOWN
    case 0x73 =>
      if f3 == 0 then
        var imm12 := TopTwelve(w);
        if imm12 == 0 then ECALL else if imm12 == 1 then EBREAK else UNKNOWN
      else UNKNOWN
    case _ => UNKNOWN
  }

  /** `(w >> 28) & 0xF`, `(w >> 24) & 0xF` and `(w >> 20) & 0xF`. */
  function Nibble28(w: InsnWord): nat { w.b25 / 8 + 8 * w.b31 }
  function Nibble24(w: InsnWord): nat { w.b21 / 8 + 2 * (w.b25 % 8) }
  function Nibble20(w: InsnWord): nat { w.b20 + 2 * (w.b21 % 8) }

  /** `(w >> 20) & 0xFFF`. */
  function TopTwelve(w: InsnWord): Word { w.b20 + 2 * w.b21 + 0x20 * w.b25 + 0x800 * w.b31 }

  /** `w & 0xFFFFF000`. */
  function UpperBits(w: InsnWord): Word {
    0x1000 * w.b12 + 0x8000 * w.b15 + 0x10_0000 * w.b20 + 0x20_0000 * w.b21 + 0x200_0000 * w.b25 + 0x8000_0000 * w.b31
  }

  // ----- extraction -----

  /** `(w >> 7) & 0x1F`, `(w >> 15) & 0x1F`, and `(w >> 20) & 0x1F`. */
  function RegDest(w: InsnWord): Reg { w.b7 + 2 * w.b8 }
  function RegSrc1(w: InsnWord): Reg { w.b15 }
  function RegSrc2(w: InsnWord): Reg { w.b20 + 2 * w.b21 }

  /** `x & (1 << k)` is not zero. */
  predicate BitIsSet(x: Word, k: nat) {
    Bits(x, k, 1) == 1
  }

  function ImmI(w: InsnWord): Word {
    var offset := TopTwelve(w);
    if BitIsSet(offset, 11) then BitOp(BitOr, offset, 0xFFFF_F000) else offset
  }

  function OffsetS(w: InsnWord): Word {
    0x20 * (w.b25 + 0x40 * w.b31) + (w.b7 + 2 * w.b8)
  }

  function ImmS(w: InsnWord): Word {
    var offset := OffsetS(w);
    if BitIsSet(offset, 11) then BitOp(BitOr, offset, 0xFFFF_F000) else offset
  }

  function OffsetB(w: InsnWord): Word {
    0x1000 * w.b31 + 0x800 * w.b7 + 0x20 * w.b25 + 2 * w.b8
  }

  function ImmB(w: InsnWord): Word {
    var offset := OffsetB(w);
    if BitIsSet(offset, 12) then BitOp(BitOr, offset, 0xFFFF_E000) else offset
  }

  function OffsetJ(w: InsnWord): Word {
    0x10_0000 * w.b31 + 0x1000 * (w.b12 + 8 * w.b15) + 0x800 * w.b20 + 2 * (w.b21 + 0x10 * w.b25)
  }

  /** The sign test of JAL looks at bit 19; the sign of the offset is bit 20. */
  function ImmJ(w: InsnWord): Word {
    var offset := OffsetJ(w);
    if BitIsSet(offset, 19) then BitOp(BitOr, offset, 0xFFF0_0000) else offset
  }

  /** The constants that `build_ir` computes from a word before it emits anything. */
  datatype Operands = Operands(rd: Reg, rs1: Reg, rs2: Reg, imm: Word)

  function Extract(m: Instr, w: InsnWord): Operands {
    Operands(RegDest(w), RegSrc1(w), RegSrc2(w), ImmOf(m, w))
  }

  function ImmOf(m: Instr, w: InsnWord): Word {
    match m
    case LUI => UpperBits(w)
    case AUIPC => UpperBits(w)
    case JAL => ImmJ(w)
    case BEQ => ImmB(w)
    case BNE => ImmB(w)
    case BLT => ImmB(w)
    case BGE => ImmB(w)
    case BLTU => ImmB(w)
    case BGEU => ImmB(w)
    case SB => ImmS(w)
    case SH => ImmS(w)
    case SW => ImmS(w)
    case SLLI => RegSrc2(w)
    case SRLI => RegSrc2(w)
    case SRAI => RegSrc2(w)
    case _ => ImmI(w)
  }

  // ----- groups of bits are shifts and masks -----

  lemma Joined(v: Word, lo: nat, m: nat, p: nat, n: nat)
    requires p == Pow2(m)
    ensures Bits(v, lo, m + n) == Bits(v, lo, m) + p * Bits(v, lo + m, n)
    ensures Bits(v, lo, m + n) % p == Bits(v, lo, m) && Bits(v, lo, m + n) / p == Bits(v, lo + m, n)
  {
    BitsJoin(v, lo, m, p, n);
    DivisionIsUnique(Bits(v, lo, m + n), p, Bits(v, lo + m, n), Bits(v, lo, m));
  }

  /** What `decode` and `build_ir` read of a word are its shifts and masks. */
  lemma FieldsAreSlices(v: Word)
    ensures var w := Parse(v);
      && w.opcode == Bits(v, 0, 7) && w.b12 == Bits(v, 12, 3) && w.b25 + 0x40 * w.b31 == Bits(v, 25, 7)
      && RegDest(w) == Bits(v, 7, 5) && RegSrc1(w) == Bits(v, 15, 5) && RegSrc2(w) == Bits(v, 20, 5)
      && TopTwelve(w) == Bits(v, 20, 12)
      && w.b12 + 8 * w.b15 == Bits(v, 12, 8) && w.b21 + 0x10 * w.b25 == Bits(v, 21, 10)
  {
    hide Bits, Pow2;
    SmallPowers();
    Joined(v, 7, 1, 2, 4);
    Joined(v, 20, 1, 2, 4);
    Joined(v, 25, 6, 0x40, 1);
    Joined(v, 12, 3, 8, 5);
    Joined(v, 21, 4, 0x10, 6);
    Joined(v, 20, 5, 0x20, 7);
  }

  lemma UpperBitsAreMasked(v: Word)
    ensures UpperBits(Parse(v)) == v - v % 0x1000
  {
    hide Bits, Pow2;
    Groups32(v);
  }

  lemma SmallPowers()
    ensures Pow2(1) == 2 && Pow2(3) == 8 && Pow2(4) == 0x10 && Pow2(5) == 0x20 && Pow2(6) == 0x40
  {
  }

  /** The same for the fields of FENCE, which cut across the groups. */
  lemma NibblesAreSlices(v: Word)
    ensures var w := Parse(v);
      Nibble28(w) == Bits(v, 28, 4) && Nibble24(w) == Bits(v, 24, 4) && Nibble20(w) == Bits(v, 20, 4)
  {
    hide Bits, Pow2;
    SmallPowers();
    Joined(v, 25, 3, 8, 3);
    Joined(v, 28, 3, 8, 1);
    Joined(v, 21, 3, 8, 1);
    Joined(v, 24, 1, 2, 3);
    Joined(v, 20, 1, 2, 3);
  }

  // ----- immediates -----

  /** Extending an offset of magnitude `lo` and sign `s` from twelve bits. */
  lemma SignExtended12(offset: Word, lo: nat, s: nat)
    requires offset == lo + 0x800 * s && lo < 0x800 && s < 2
    ensures (if BitIsSet(offset, 11) then BitOp(BitOr, offset, 0xFFFF_F000) else offset) == Wrap(lo - 0x800 * s)
  {
    PowersOfTwo();
    BitsOf(offset, 11, 0x800, lo, 1, 2, s, 0);
    OrFrom12(offset);
    var sign: int := s;
    DivisionIsUnique(lo - 0x800 * s, 0x1_0000_0000, -sign, lo + 0xFFFF_F800 * s);
  }

  lemma SignExtended13(offset: Word, lo: nat, s: nat)
    requires offset == lo + 0x1000 * s && lo < 0x1000 && s < 2
    ensures (if BitIsSet(offset, 12) then BitOp(BitOr, offset, 0xFFFF_E000) else offset) == Wrap(lo - 0x1000 * s)
  {
    PowersOfTwo();
    BitsOf(offset, 12, 0x1000, lo, 1, 2, s, 0);
    OrFrom13(offset);
    var sign: int := s;
    DivisionIsUnique(lo - 0x1000 * s, 0x1_0000_0000, -sign, lo + 0xFFFF_F000 * s);
  }

  /** The test of bit 19 instead of bit 20 extends correctly exactly when the two agree. */
  lemma SignExtended21(offset: Word, lo: nat, s: nat)
    requires offset == lo + 0x10_0000 * s && lo < 0x10_0000 && s < 2
    ensures (if BitIsSet(offset, 19) then BitOp(BitOr, offset, 0xFFF0_0000) else offset) == Wrap(lo - 0x10_0000 * s)
        <==> (s == 1 <==> lo >= 0x8_0000)
  {
    TopBitsOf21(offset, lo, s);
    OrFrom20(offset, lo, s);
    var sign: int := s;
    DivisionIsUnique(lo - 0x10_0000 * s, 0x1_0000_0000, -sign, lo + 0xFFF0_0000 * s);
  }

  lemma TopBitsOf21(offset: Word, lo: nat, s: nat)
    requires offset == lo + 0x10_0000 * s && lo < 0x10_0000 && s < 2
    ensures BitIsSet(offset, 20) <==> s == 1
    ensures BitIsSet(offset, 19) <==> lo >= 0x8_0000
  {
    PowersOfTwo();
    if lo >= 0x8_0000 {
      BitsOf(offset, 19, 0x8_0000, lo - 0x8_0000, 1, 2, 1, s);
    } else {
      BitsOf(offset, 19, 0x8_0000, lo, 1, 2, 0, s);
    }
    BitsOf(offset, 20, 0x10_0000, lo, 1, 2, s, 0);
  }

  lemma ImmIIsSpec(w: InsnWord)
    ensures ImmI(w) == Wrap(SpecImmI(w))
  {
    SignExtended12(TopTwelve(w), 0x20 * w.b25 + 2 * w.b21 + w.b20, w.b31);
  }

  lemma ImmSIsSpec(w: InsnWord)
    ensures ImmS(w) == Wrap(SpecImmS(w))
  {
    SignExtended12(OffsetS(w), 0x20 * w.b25 + 2 * w.b8 + w.b7, w.b31);
  }

  lemma ImmBIsSpec(w: InsnWord)
    ensures ImmB(w) == Wrap(SpecImmB(w))
  {
    SignExtended13(OffsetB(w), 0x800 * w.b7 + 0x20 * w.b25 + 2 * w.b8, w.b31);
  }

  function JumpMagnitude(w: InsnWord): nat {
    0x8000 * w.b15 + 0x1000 * w.b12 + 0x800 * w.b20 + 0x20 * w.b25 + 2 * w.b21
  }

  /** JAL's offset is the architecture's exactly when bits 20 and 19 of it agree, which is when
      it fits twenty bits. */
  lemma ImmJIsSpecIff(w: InsnWord)
    ensures ImmJ(w) == Wrap(SpecImmJ(w)) <==> (BitIsSet(OffsetJ(w), 20) <==> BitIsSet(OffsetJ(w), 19))
    ensures ImmJ(w) == Wrap(SpecImmJ(w)) <==> -0x8_0000 <= SpecImmJ(w) < 0x8_0000
  {
    SignExtended21(OffsetJ(w), JumpMagnitude(w), w.b31);
    TopBitsOf21(OffsetJ(w), JumpMagnitude(w), w.b31);
  }

  // ----- decoding -----

  /** `decode` looks at less than the listing does for these words: it ignores funct7 for six
      register operations and the register fields for ECALL and EBREAK. */
  predicate ReadLoosely(w: InsnWord) {
    var op, f3 := w.opcode, Funct3(w);
    || (op == 0x33 && f3 != 0 && f3 != 5 && Funct7(w) != 0)
    || (op == 0x73 && f3 == 0 && FieldRs2(w) <= 1 && Funct7(w) == 0 && (FieldRd(w) != 0 || FieldRs1(w) != 0))
  }

  lemma Nibbles(w: InsnWord)
    ensures Nibble28(w) == 8 && Nibble24(w) == 3 && Nibble20(w) == 3 <==> FieldRs2(w) + 0x20 * Funct7(w) == TSO_ORDERING
  {
    assert FieldRs2(w) + 0x20 * Funct7(w) == Nibble20(w) + 0x10 * Nibble24(w) + 0x100 * Nibble28(w);
  }

  /** ECALL and EBREAK are single words. */
  lemma SystemWords(w: InsnWord)
    ensures Value(w) == 0x73
        <==> w.opcode == 0x73 && FieldRd(w) == 0 && w.b12 == 0 && w.b15 == 0 && TopTwelve(w) == 0
    ensures Value(w) == 0x0010_0073
        <==> w.opcode == 0x73 && FieldRd(w) == 0 && w.b12 == 0 && w.b15 == 0 && TopTwelve(w) == 1
  {
    FiveFields(w.opcode, FieldRd(w), w.b12, w.b15, TopTwelve(w));
    assert Value(w) == w.opcode + 0x80 * FieldRd(w) + 0x1000 * w.b12 + 0x8000 * w.b15 + 0x10_0000 * TopTwelve(w);
  }

  lemma FiveFields(op: U7, rd: Reg, f3: U3, rs1: U5, top: nat)
    ensures var v := op + 0x80 * rd + 0x1000 * f3 + 0x8000 * rs1 + 0x10_0000 * top;
      && (v == 0x73 <==> op == 0x73 && rd == 0 && f3 == 0 && rs1 == 0 && top == 0)
      && (v == 0x0010_0073 <==> op == 0x73 && rd == 0 && f3 == 0 && rs1 == 0 && top == 1)
  {
  }

  /** Every encoding of the architecture decodes to its mnemonic. */
  lemma DecodeComplete(m: Instr, w: InsnWord)
    requires Encodes(m, w)
    ensures Decode(w) == m
  {
    if w.opcode == 0x33 {
      CompleteOp(m, w);
    } else if w.opcode == 0x13 {
      CompleteOpImm(m, w);
    } else if w.opcode == 0x0F || w.opcode == 0x73 {
      CompleteSystem(m, w);
    } else {
      CompleteRest(m, w);
    }
  }

  lemma CompleteOp(m: Instr, w: InsnWord)
    requires Encodes(m, w) && w.opcode == 0x33
    ensures Decode(w) == m
  {
    hide Value;
    SystemOpcode(w);
  }

  lemma CompleteOpImm(m: Instr, w: InsnWord)
    requires Encodes(m, w) && w.opcode == 0x13
    ensures Decode(w) == m
  {
    hide Value;
    SystemOpcode(w);
  }

  lemma CompleteSystem(m: Instr, w: InsnWord)
    requires Encodes(m, w) && (w.opcode == 0x0F || w.opcode == 0x73)
    ensures Decode(w) == m
  {
    SystemWords(w);
    if w.opcode == 0x0F {
      CompleteFence(m, w);
    }
  }

  lemma CompleteFence(m: Instr, w: InsnWord)
    requires Encodes(m, w) && w.opcode == 0x0F
    ensures Decode(w) == m
  {
    Nibbles(w);
    UpperBitsAreHigh(w);
    FencePatterns(m, w);
  }

  lemma UpperBitsAreHigh(w: InsnWord)
    ensures UpperBits(w) != 0x100F
  {
    assert UpperBits(w) % 0x1000 == 0;
  }

  lemma FencePatterns(m: Instr, w: InsnWord)
    requires Encodes(m, w) && w.opcode == 0x0F
    ensures m == if FieldRs2(w) + 0x20 * Funct7(w) == TSO_ORDERING then FENCETSO else FENCE
  {
    SystemWords(w);
  }

  lemma CompleteRest(m: Instr, w: InsnWord)
    requires Encodes(m, w) && w.opcode !in {0x33, 0x13, 0x0F, 0x73}
    ensures Decode(w) == m
  {
    hide Value;
    SystemOpcode(w);
  }

  /** What `decode` names is an encoding of it, except for the words it reads loosely; and it
      never names PAUSE. */
  lemma DecodeSound(w: InsnWord)
    ensures Decode(w) != UNKNOWN ==> (Encodes(Decode(w), w) <==> !ReadLoosely(w))
    ensures Decode(w) != PAUSE
  {
    if w.opcode == 0x33 {
      SoundOp(w);
    } else if w.opcode == 0x0F {
      SoundFence(w);
    } else if w.opcode == 0x73 {
      SoundSystem(w);
    } else {
      SoundRest(w);
    }
  }

  lemma SoundOp(w: InsnWord)
    requires w.opcode == 0x33
    ensures Decode(w) != UNKNOWN ==> (Encodes(Decode(w), w) <==> !ReadLoosely(w))
    ensures Decode(w) != PAUSE
  {
  }

  lemma SoundFence(w: InsnWord)
    requires w.opcode == 0x0F
    ensures Decode(w) != UNKNOWN ==> Encodes(Decode(w), w)
    ensures Decode(w) != PAUSE
  {
    Nibbles(w);
    UpperBitsAreHigh(w);
  }

  lemma SoundSystem(w: InsnWord)
    requires w.opcode == 0x73
    ensures Decode(w) != UNKNOWN ==> (Encodes(Decode(w), w) <==> !ReadLoosely(w))
    ensures Decode(w) != PAUSE
  {
    SystemWords(w);
    TopTwelveParts(w);
  }

  lemma TopTwelveParts(w: InsnWord)
    ensures TopTwelve(w) == 0 <==> FieldRs2(w) == 0 && Funct7(w) == 0
    ensures TopTwelve(w) == 1 <==> FieldRs2(w) == 1 && Funct7(w) == 0
  {
  }

  lemma SoundRest(w: InsnWord)
    requires w.opcode !in {0x33, 0x0F, 0x73}
    ensures Decode(w) != UNKNOWN ==> Encodes(Decode(w), w)
    ensures Decode(w) != PAUSE
  {
  }

  /** A loosely read word as the listing would have it: with funct7 zero, or with the register fields
      of ECALL and EBREAK zero. */
  function Strict(w: InsnWord): InsnWord {
    if w.opcode == 0x33 then w.(b25 := 0, b31 := 0) else w.(b7 := 0, b8 := 0, b15 := 0)
  }

  /** A loosely read word is decoded as the strict word, which is an encoding of that mnemonic. */
  lemma LooseIsStrict(w: InsnWord)
    requires ReadLoosely(w)
    ensures Decode(w) == Decode(Strict(w)) && Encodes(Decode(w), Strict(w)) && !ReadLoosely(Strict(w))
  {
    if w.opcode == 0x33 {
      LooseOp(w);
    } else {
      LooseSystem(w);
    }
  }

  lemma LooseOp(w: InsnWord)
    requires ReadLoosely(w) && w.opcode == 0x33
    ensures Decode(w) == Decode(Strict(w)) && Encodes(Decode(w), Strict(w)) && !ReadLoosely(Strict(w))
  {
    hide Value;
  }

  lemma LooseSystem(w: InsnWord)
    requires ReadLoosely(w) && w.opcode == 0x73
    ensures Decode(w) == Decode(Strict(w)) && Encodes(Decode(w), Strict(w)) && !ReadLoosely(Strict(w))
  {
    hide Value;
    SystemWords(Strict(w));
    TopTwelveParts(w);
    TopTwelveParts(Strict(w));
  }

  /** The patterns of the listing are pairwise disjoint. */
  lemma EncodingsDisjoint(m: Instr, m': Instr, w: InsnWord)
    requires Encodes(m, w) && Encodes(m', w)
    ensures m == m'
  {
    DecodeComplete(m, w);
    DecodeComplete(m', w);
  }

  // ----- the round trip -----

  /** The extracted constants are the fields of `i`, and its immediate in two's complement. */
  predicate Agree(o: Operands, i: Insn) {
    match i
    case Lui(rd, imm) => o.rd == rd && o.imm == Wrap(imm)
    case Auipc(rd, imm) => o.rd == rd && o.imm == Wrap(imm)
    case Jal(rd, imm) => o.rd == rd && o.imm == Wrap(imm)
    case Jalr(rd, rs1, imm) => o.rd == rd && o.rs1 == rs1 && o.imm == Wrap(imm)
    case Branch(_, rs1, rs2, imm) => o.rs1 == rs1 && o.rs2 == rs2 && o.imm == Wrap(imm)
    case Load(_, _, rd, rs1, imm) => o.rd == rd && o.rs1 == rs1 && o.imm == Wrap(imm)
    case Store(_, rs1, rs2, imm) => o.rs1 == rs1 && o.rs2 == rs2 && o.imm == Wrap(imm)
    case OpImm(_, rd, rs1, imm) => o.rd == rd && o.rs1 == rs1 && o.imm == Wrap(imm)
    case Op(_, rd, rs1, rs2) => o.rd == rd && o.rs1 == rs1 && o.rs2 == rs2
    case _ => true
  }

  predicate IsBranch(m: Instr) {
    m.BEQ? || m.BNE? || m.BLT? || m.BGE? || m.BLTU? || m.BGEU?
  }

  predicate IsStore(m: Instr) {
    m.SB? || m.SH? || m.SW?
  }

  predicate IsShiftImmediate(m: Instr) {
    m.SLLI? || m.SRLI? || m.SRAI?
  }

  /** For every mnemonic and word, what `build_ir` extracts is what the manual reads, except for
      jumps whose offset needs its twenty-first bit. */
  lemma ExtractAgrees(m: Instr, w: InsnWord)
    ensures Agree(Extract(m, w), Disassemble(m, w)) <==> (m.JAL? ==> -0x8_0000 <= SpecImmJ(w) < 0x8_0000)
  {
    if m.JAL? {
      ImmJIsSpecIff(w);
    } else if IsBranch(m) {
      ExtractAgreesB(m, w);
    } else if IsStore(m) {
      ExtractAgreesS(m, w);
    } else if m.LUI? || m.AUIPC? || IsShiftImmediate(m) {
      ExtractAgreesPlain(m, w);
    } else {
      ExtractAgreesI(m, w);
    }
  }

  lemma ExtractAgreesB(m: Instr, w: InsnWord)
    requires IsBranch(m)
    ensures Agree(Extract(m, w), Disassemble(m, w))
  {
    ImmBIsSpec(w);
  }

  lemma ExtractAgreesS(m: Instr, w: InsnWord)
    requires IsStore(m)
    ensures Agree(Extract(m, w), Disassemble(m, w))
  {
    ImmSIsSpec(w);
  }

  lemma ExtractAgreesPlain(m: Instr, w: InsnWord)
    requires m.LUI? || m.AUIPC? || IsShiftImmediate(m)
    ensures Agree(Extract(m, w), Disassemble(m, w))
  {
    hide SpecImmI, SpecImmS, SpecImmB, SpecImmJ, ImmI, ImmS, ImmB, ImmJ;
  }

  lemma ExtractAgreesI(m: Instr, w: InsnWord)
    requires !m.JAL? && !IsBranch(m) && !IsStore(m) && !m.LUI? && !m.AUIPC? && !IsShiftImmediate(m)
    ensures Agree(Extract(m, w), Disassemble(m, w))
  {
    ImmIIsSpec(w);
  }

  /** Decoding an assembled instruction recovers its mnemonic always, and its operands unless
      it is a jump whose offset needs its twenty-first bit. */
  lemma RoundTrip(i: Insn)
    requires Valid(i)
    ensures Decode(Encode(i)) == Mnemonic(i)
    ensures Agree(Extract(Decode(Encode(i)), Encode(i)), i) <==> (i.Jal? ==> -0x8_0000 <= i.imm < 0x8_0000)
  {
    EncodeThenDisassemble(i);
    DecodeComplete(Mnemonic(i), Encode(i));
    ExtractAgrees(Mnemonic(i), Encode(i));
  }
}
