/** RV32I as the manual defines it (The RISC-V Instruction Set Manual, Volume I:
    Unprivileged ISA, version 20191213, chapter 2 and the instruction listing of chapter 24):
    instructions, their encodings, and what each does to a hart. */
module Isa {
  import opened Words
  import opened GuestMemory

  /** Mnemonics, as the translator enumerates them. */
  datatype Instr =
    | UNKNOWN | LUI | AUIPC | JAL | JALR
    | BEQ | BNE | BLT | BGE | BLTU | BGEU
    | LB | LH | LW | LBU | LHU | SB | SH | SW
    | ADDI | SLTI | SLTIU | XORI | ORI | ANDI | SLLI | SRLI | SRAI
    | ADD | SUB | SLL | SLT | SLTU | XOR | SRL | SRA | OR | AND
    | FENCE | FENCETSO | PAUSE | ECALL | EBREAK

  /** A register number. */
  type Reg = r: nat | r < 32

  datatype Cond = Eq | Ne | Lt | Ge | Ltu | Geu
  datatype AluOp = Add | Sub | Sll | Slt | Sltu | Xor | Srl | Sra | Or | And

  /** Immediates are the signed numbers they denote; those of LUI and AUIPC are words. */
  datatype Insn =
    | Lui(rd: Reg, imm: int)
    | Auipc(rd: Reg, imm: int)
    | Jal(rd: Reg, imm: int)
    | Jalr(rd: Reg, rs1: Reg, imm: int)
    | Branch(cond: Cond, rs1: Reg, rs2: Reg, imm: int)
    | Load(width: Width, signed: bool, rd: Reg, rs1: Reg, imm: int)
    | Store(width: Width, rs1: Reg, rs2: Reg, imm: int)
    | OpImm(op: AluOp, rd: Reg, rs1: Reg, imm: int)
    | Op(op: AluOp, rd: Reg, rs1: Reg, rs2: Reg)
    | Fence(rd: Reg, rs1: Reg, ordering: int)
    | Ecall
    | Ebreak
    | Illegal

  const TSO_ORDERING := 0x833

  // ----- encodings (sections 2.2, 2.3 and chapter 24) -----

  predicate IsShift(op: AluOp) {
    op.Sll? || op.Srl? || op.Sra?
  }

  predicate Valid(i: Insn) {
    match i
    case Lui(_, imm) => 0 <= imm < 0x1_0000_0000 && imm % 0x1000 == 0
    case Auipc(_, imm) => 0 <= imm < 0x1_0000_0000 && imm % 0x1000 == 0
    case Jal(_, imm) => -0x10_0000 <= imm < 0x10_0000 && imm % 2 == 0
    case Jalr(_, _, imm) => -0x800 <= imm < 0x800
    case Branch(_, _, _, imm) => -0x1000 <= imm < 0x1000 && imm % 2 == 0
    case Load(width, signed, _, _, imm) => -0x800 <= imm < 0x800 && (width.W32? ==> signed)
    case Store(_, _, _, imm) => -0x800 <= imm < 0x800
    case OpImm(op, _, _, imm) => !op.Sub? && if IsShift(op) then 0 <= imm < 32 else -0x800 <= imm < 0x800
    case Op(_, _, _, _) => true
    case Fence(_, _, ordering) => 0 <= ordering < 0x1000
    case Ecall => true
    case Ebreak => true
    case Illegal => false
  }

  function AluFunct3(op: AluOp): U3 {
    match op
    case Add => 0
    case Sub => 0
    case Sll => 1
    case Slt => 2
    case Sltu => 3
    case Xor => 4
    case Srl => 5
    case Sra => 5
    case Or => 6
    case And => 7
  }

  function AluFunct7(op: AluOp): U7 {
    if op.Sub? || op.Sra? then 0x20 else 0
  }

  function CondFunct3(c: Cond): U3 {
    match c
    case Eq => 0
    case Ne => 1
    case Lt => 4
    case Ge => 5
    case Ltu => 6
    case Geu => 7
  }

  function WidthFunct3(width: Width): U3 {
    match width
    case W8 => 0
    case W16 => 1
    case W32 => 2
  }

  /** The groups of bits into which the formats of section 2.3 cut a 32-bit word, named by
      their lowest bit: 6..0, 7, 11..8, 14..12, 19..15, 20, 24..21, 30..25, 31. */
  datatype InsnWord = InsnWord(opcode: U7, b7: U1, b8: U4, b12: U3, b15: U5, b20: U1, b21: U4, b25: U6, b31: U1)

  type U1 = x: int | 0 <= x < 2
  type U3 = x: int | 0 <= x < 8
  type U4 = x: int | 0 <= x < 16
  type U5 = x: int | 0 <= x < 32
  type U6 = x: int | 0 <= x < 64
  type U7 = x: int | 0 <= x < 128

  function Value(w: InsnWord): Word {
    w.opcode + 0x80 * w.b7 + 0x100 * w.b8 + 0x1000 * w.b12 + 0x8000 * w.b15 + 0x10_0000 * w.b20
    + 0x20_0000 * w.b21 + 0x200_0000 * w.b25 + 0x8000_0000 * w.b31
  }

  function Parse(v: Word): InsnWord {
    InsnWord(Bits(v, 0, 7), Bits(v, 7, 1), Bits(v, 8, 4), Bits(v, 12, 3), Bits(v, 15, 5), Bits(v, 20, 1),
             Bits(v, 21, 4), Bits(v, 25, 6), Bits(v, 31, 1))
  }

  /** Cutting a word into its groups loses nothing. */
  lemma ValueOfParse(v: Word)
    ensures Value(Parse(v)) == v
  {
    hide Bits, Pow2;
    Groups32(v);
    Groups7(v);
  }

  lemma ParseOfValue(w: InsnWord)
    ensures Parse(Value(w)) == w
  {
    PowersOfTwo();
    var v := Value(w);
    var t25 := w.b25 + 0x40 * w.b31;
    var t21 := w.b21 + 0x10 * t25;
    var t20 := w.b20 + 2 * t21;
    var t15 := w.b15 + 0x20 * t20;
    var t12 := w.b12 + 8 * t15;
    var t8 := w.b8 + 0x10 * t12;
    var t7 := w.b7 + 2 * t8;
    var l8 := w.opcode + 0x80 * w.b7;
    var l12 := l8 + 0x100 * w.b8;
    var l15 := l12 + 0x1000 * w.b12;
    var l20 := l15 + 0x8000 * w.b15;
    var l21 := l20 + 0x10_0000 * w.b20;
    var l25 := l21 + 0x20_0000 * w.b21;
    BitsOf(v, 0, 1, 0, 7, 0x80, w.opcode, t7);
    BitsOf(v, 7, 0x80, w.opcode, 1, 2, w.b7, t8);
    BitsOf(v, 8, 0x100, l8, 4, 0x10, w.b8, t12);
    BitsOf(v, 12, 0x1000, l12, 3, 8, w.b12, t15);
    BitsOf(v, 15, 0x8000, l15, 5, 0x20, w.b15, t20);
    BitsOf(v, 20, 0x10_0000, l20, 1, 2, w.b20, t21);
    BitsOf(v, 21, 0x20_0000, l21, 4, 0x10, w.b21, t25);
    BitsOf(v, 25, 0x200_0000, l25, 6, 0x40, w.b25, w.b31);
    BitsOf(v, 31, 0x8000_0000, l25 + 0x200_0000 * w.b25, 1, 2, w.b31, 0);
  }

  function LoadFunct3(width: Width, signed: bool): U3 {
    WidthFunct3(width) + (if signed then 0 else 4)
  }

  function Mnemonic(i: Insn): Instr {
    match i
    case Lui(_, _) => LUI
    case Auipc(_, _) => AUIPC
    case Jal(_, _) => JAL
    case Jalr(_, _, _) => JALR
    case Branch(c, _, _, _) =>
      (match c case Eq => BEQ case Ne => BNE case Lt => BLT case Ge => BGE case Ltu => BLTU case Geu => BGEU)
    case Load(width, signed, _, _, _) =>
      (match width
       case W8 => if signed then LB else LBU
       case W16 => if signed then LH else LHU
       case W32 => LW)
    case Store(width, _, _, _) => (match width case W8 => SB case W16 => SH case W32 => SW)
    case OpImm(op, _, _, _) =>
      (match op
       case Add => ADDI case Slt => SLTI case Sltu => SLTIU case Xor => XORI case Or => ORI case And => ANDI
       case Sll => SLLI case Srl => SRLI case Sra => SRAI case Sub => UNKNOWN)
    case Op(op, _, _, _) =>
      (match op
       case Add => ADD case Sub => SUB case Sll => SLL case Slt => SLT case Sltu => SLTU case Xor => XOR
       case Srl => SRL case Sra => SRA case Or => OR case And => AND)
    case Fence(_, _, ordering) => if ordering == TSO_ORDERING then FENCETSO else FENCE
    case Ecall => ECALL
    case Ebreak => EBREAK
    case Illegal => UNKNOWN
  }

  // ----- fields and immediates of a word (section 2.3) -----

  function FieldRd(w: InsnWord): Reg { w.b7 + 2 * w.b8 }
  function FieldRs1(w: InsnWord): Reg { w.b15 }
  function FieldRs2(w: InsnWord): Reg { w.b20 + 2 * w.b21 }
  function Funct3(w: InsnWord): nat { w.b12 }
  function Funct7(w: InsnWord): nat { w.b25 + 0x40 * w.b31 }

  /** Bit 31 of the word is the sign of every immediate, so it weighs negatively. */
  function SpecImmI(w: InsnWord): int {
    -0x800 * w.b31 + 0x20 * w.b25 + 2 * w.b21 + w.b20
  }

  function SpecImmS(w: InsnWord): int {
    -0x800 * w.b31 + 0x20 * w.b25 + 2 * w.b8 + w.b7
  }

  function SpecImmB(w: InsnWord): int {
    -0x1000 * w.b31 + 0x800 * w.b7 + 0x20 * w.b25 + 2 * w.b8
  }

  /** The upper immediates are words: all their bits count as magnitude. */
  function SpecImmU(w: InsnWord): Word {
    0x8000_0000 * w.b31 + 0x200_0000 * w.b25 + 0x20_0000 * w.b21 + 0x10_0000 * w.b20 + 0x8000 * w.b15 + 0x1000 * w.b12
  }

  function SpecImmJ(w: InsnWord): int {
    -0x10_0000 * w.b31 + 0x8000 * w.b15 + 0x1000 * w.b12 + 0x800 * w.b20 + 0x20 * w.b25 + 2 * w.b21
  }

  /** What chapter 24 fixes for a mnemonic: the opcode, and where the format has them funct3,
      funct7 (or the ordering field of FENCE.TSO), or the whole word. */
  datatype Pattern =
    | ByOpcode(opcode: nat)
    | ByFunct3(opcode: nat, funct3: nat)
    | ByFunct7(opcode: nat, funct3: nat, funct7: nat)
    | ByOrdering(opcode: nat, funct3: nat, ordering: nat)
    | Exactly(word: nat)
    | Never

  predicate Matches(p: Pattern, w: InsnWord) {
    match p
    case ByOpcode(op) => w.opcode == op
    case ByFunct3(op, f3) => w.opcode == op && Funct3(w) == f3
    case ByFunct7(op, f3, f7) => w.opcode == op && Funct3(w) == f3 && Funct7(w) == f7
    case ByOrdering(op, f3, o) => w.opcode == op && Funct3(w) == f3 && FieldRs2(w) + 0x20 * Funct7(w) == o
    case Exactly(word) => Value(w) == word
    case Never => false
  }

  /** The listing of chapter 24. PAUSE is absent: its word is a FENCE of the base ISA. */
  function PatternOf(m: Instr): Pattern {
    match m
    case LUI => ByOpcode(0x37)
    case AUIPC => ByOpcode(0x17)
    case JAL => ByOpcode(0x6F)
    case JALR => ByFunct3(0x67, 0)
    case BEQ => ByFunct3(0x63, 0)
    case BNE => ByFunct3(0x63, 1)
    case BLT => ByFunct3(0x63, 4)
    case BGE => ByFunct3(0x63, 5)
    case BLTU => ByFunct3(0x63, 6)
    case BGEU => ByFunct3(0x63, 7)
    case LB => ByFunct3(0x03, 0)
    case LH => ByFunct3(0x03, 1)
    case LW => ByFunct3(0x03, 2)
    case LBU => ByFunct3(0x03, 4)
    case LHU => ByFunct3(0x03, 5)
    case SB => ByFunct3(0x23, 0)
    case SH => ByFunct3(0x23, 1)
    case SW => ByFunct3(0x23, 2)
    case ADDI => ByFunct3(0x13, 0)
    case SLTI => ByFunct3(0x13, 2)
    case SLTIU => ByFunct3(0x13, 3)
    case XORI => ByFunct3(0x13, 4)
    case ORI => ByFunct3(0x13, 6)
    case ANDI => ByFunct3(0x13, 7)
    case SLLI => ByFunct7(0x13, 1, 0)
    case SRLI => ByFunct7(0x13, 5, 0)
    case SRAI => ByFunct7(0x13, 5, 0x20)
    case ADD => ByFunct7(0x33, 0, 0)
    case SUB => ByFunct7(0x33, 0, 0x20)
    case SLL => ByFunct7(0x33, 1, 0)
    case SLT => ByFunct7(0x33, 2, 0)
    case SLTU => ByFunct7(0x33, 3, 0)
    case XOR => ByFunct7(0x33, 4, 0)
    case SRL => ByFunct7(0x33, 5, 0)
    case SRA => ByFunct7(0x33, 5, 0x20)
    case OR => ByFunct7(0x33, 6, 0)
    case AND => ByFunct7(0x33, 7, 0)
    case FENCE => ByFunct3(0x0F, 0)
    case FENCETSO => ByOrdering(0x0F, 0, TSO_ORDERING)
    case ECALL => Exactly(0x73)
    case EBREAK => Exactly(0x0010_0073)
    case UNKNOWN => Never
    case PAUSE => Never
  }

  /** `w` is an RV32I encoding of `m`; FENCE.TSO is carved out of FENCE. */
  predicate Encodes(m: Instr, w: InsnWord) {
    Matches(PatternOf(m), w) && !(m.FENCE? && Matches(PatternOf(FENCETSO), w))
  }

  /** The instruction that mnemonic `m` makes of the fields of `w`. */
  function Disassemble(m: Instr, w: InsnWord): Insn {
    var rd, rs1, rs2 := FieldRd(w), FieldRs1(w), FieldRs2(w);
    match m
    case LUI => Lui(rd, SpecImmU(w))
    case AUIPC => Auipc(rd, SpecImmU(w))
    case JAL => Jal(rd, SpecImmJ(w))
    case JALR => Jalr(rd, rs1, SpecImmI(w))
    case BEQ => Branch(Eq, rs1, rs2, SpecImmB(w))
    case BNE => Branch(Ne, rs1, rs2, SpecImmB(w))
    case BLT => Branch(Lt, rs1, rs2, SpecImmB(w))
    case BGE => Branch(Ge, rs1, rs2, SpecImmB(w))
    case BLTU => Branch(Ltu, rs1, rs2, SpecImmB(w))
    case BGEU => Branch(Geu, rs1, rs2, SpecImmB(w))
    case LB => Load(W8, true, rd, rs1, SpecImmI(w))
    case LH => Load(W16, true, rd, rs1, SpecImmI(w))
    case LW => Load(W32, true, rd, rs1, SpecImmI(w))
    case LBU => Load(W8, false, rd, rs1, SpecImmI(w))
    case LHU => Load(W16, false, rd, rs1, SpecImmI(w))
    case SB => Store(W8, rs1, rs2, SpecImmS(w))
    case SH => Store(W16, rs1, rs2, SpecImmS(w))
    case SW => Store(W32, rs1, rs2, SpecImmS(w))
    case ADDI => OpImm(Add, rd, rs1, SpecImmI(w))
    case SLTI => OpImm(Slt, rd, rs1, SpecImmI(w))
    case SLTIU => OpImm(Sltu, rd, rs1, SpecImmI(w))
    case XORI => OpImm(Xor, rd, rs1, SpecImmI(w))
    case ORI => OpImm(Or, rd, rs1, SpecImmI(w))
    case ANDI => OpImm(And, rd, rs1, SpecImmI(w))
    case SLLI => OpImm(Sll, rd, rs1, rs2)
    case SRLI => OpImm(Srl, rd, rs1, rs2)
    case SRAI => OpImm(Sra, rd, rs1, rs2)
    case ADD => Op(Add, rd, rs1, rs2)
    case SUB => Op(Sub, rd, rs1, rs2)
    case SLL => Op(Sll, rd, rs1, rs2)
    case SLT => Op(Slt, rd, rs1, rs2)
    case SLTU => Op(Sltu, rd, rs1, rs2)
    case XOR => Op(Xor, rd, rs1, rs2)
    case SRL => Op(Srl, rd, rs1, rs2)
    case SRA => Op(Sra, rd, rs1, rs2)
    case OR => Op(Or, rd, rs1, rs2)
    case AND => Op(And, rd, rs1, rs2)
    case FENCE => Fence(rd, rs1, rs2 + 0x20 * Funct7(w))
    case FENCETSO => Fence(rd, rs1, rs2 + 0x20 * Funct7(w))
    case PAUSE => Fence(rd, rs1, rs2 + 0x20 * Funct7(w))
    case ECALL => Ecall
    case EBREAK => Ebreak
    case UNKNOWN => Illegal
  }

  // ----- assembling -----

  /** A word with the given fields and immediate groups. */
  function Assemble(opcode: U7, rd: Reg, funct3: U3, rs1: Reg, rs2: Reg, funct7: nat): InsnWord
    requires funct7 < 0x80
  {
    InsnWord(opcode, rd % 2, rd / 2, funct3, rs1, rs2 % 2, rs2 / 2, funct7 % 0x40, funct7 / 0x40)
  }

  lemma FieldsOfAssemble(opcode: U7, rd: Reg, funct3: U3, rs1: Reg, rs2: Reg, funct7: nat)
    requires funct7 < 0x80
    ensures var w := Assemble(opcode, rd, funct3, rs1, rs2, funct7);
      w.opcode == opcode && FieldRd(w) == rd && Funct3(w) == funct3 && FieldRs1(w) == rs1
      && FieldRs2(w) == rs2 && Funct7(w) == funct7
  {
  }

  function AssembleI(opcode: U7, rd: Reg, funct3: U3, rs1: Reg, imm: int): InsnWord {
    InsnWord(opcode, rd % 2, rd / 2, funct3, rs1, Bits(imm, 0, 1), Bits(imm, 1, 4), Bits(imm, 5, 6), Bits(imm, 11, 1))
  }

  function AssembleS(funct3: U3, rs1: Reg, rs2: Reg, imm: int): InsnWord {
    InsnWord(0x23, Bits(imm, 0, 1), Bits(imm, 1, 4), funct3, rs1, rs2 % 2, rs2 / 2, Bits(imm, 5, 6), Bits(imm, 11, 1))
  }

  function AssembleB(funct3: U3, rs1: Reg, rs2: Reg, imm: int): InsnWord {
    InsnWord(0x63, Bits(imm, 11, 1), Bits(imm, 1, 4), funct3, rs1, rs2 % 2, rs2 / 2, Bits(imm, 5, 6), Bits(imm, 12, 1))
  }

  function AssembleU(opcode: U7, rd: Reg, imm: int): InsnWord {
    InsnWord(opcode, rd % 2, rd / 2, Bits(imm, 12, 3), Bits(imm, 15, 5), Bits(imm, 20, 1), Bits(imm, 21, 4),
             Bits(imm, 25, 6), Bits(imm, 31, 1))
  }

  function AssembleJ(rd: Reg, imm: int): InsnWord {
    InsnWord(0x6F, rd % 2, rd / 2, Bits(imm, 12, 3), Bits(imm, 15, 5), Bits(imm, 11, 1), Bits(imm, 1, 4),
             Bits(imm, 5, 6), Bits(imm, 20, 1))
  }

  function Encode(i: Insn): InsnWord
    requires Valid(i)
  {
    match i
    case Lui(rd, imm) => AssembleU(0x37, rd, imm)
    case Auipc(rd, imm) => AssembleU(0x17, rd, imm)
    case Jal(rd, imm) => AssembleJ(rd, imm)
    case Jalr(rd, rs1, imm) => AssembleI(0x67, rd, 0, rs1, imm)
    case Branch(c, rs1, rs2, imm) => AssembleB(CondFunct3(c), rs1, rs2, imm)
    case Load(width, signed, rd, rs1, imm) => AssembleI(0x03, rd, LoadFunct3(width, signed), rs1, imm)
    case Store(width, rs1, rs2, imm) => AssembleS(WidthFunct3(width), rs1, rs2, imm)
    case OpImm(op, rd, rs1, imm) =>
      if IsShift(op) then Assemble(0x13, rd, AluFunct3(op), rs1, imm, AluFunct7(op))
      else AssembleI(0x13, rd, AluFunct3(op), rs1, imm)
    case Op(op, rd, rs1, rs2) => Assemble(0x33, rd, AluFunct3(op), rs1, rs2, AluFunct7(op))
    case Fence(rd, rs1, ordering) => AssembleI(0x0F, rd, 0, rs1, ordering)
    case Ecall => Assemble(0x73, 0, 0, 0, 0, 0)
    case Ebreak => Assemble(0x73, 0, 0, 0, 1, 0)
  }

  // How a number in two's complement splits into the groups an instruction holds of it.

  lemma Residue(imm: int, half: int)
    requires -half <= imm < half
    ensures imm % (2 * half) == if imm < 0 then imm + 2 * half else imm
  {
    if imm >= 0 {
      DivisionIsUnique(imm, 2 * half, 0, imm);
    } else {
      DivisionIsUnique(imm, 2 * half, -1, imm + 2 * half);
    }
  }

  lemma Groups12(imm: int)
    ensures imm % 0x1000 == Bits(imm, 0, 1) + 2 * Bits(imm, 1, 4) + 0x20 * Bits(imm, 5, 6) + 0x800 * Bits(imm, 11, 1)
  {
    PowersOfTwo();
    LowBits(imm, 12, 0x1000);
    BitsJoin(imm, 0, 1, 2, 4);
    BitsJoin(imm, 0, 5, 0x20, 6);
    BitsJoin(imm, 0, 11, 0x800, 1);
  }

  lemma Groups13(imm: int)
    ensures imm % 0x2000 == Bits(imm, 0, 1) + 2 * Bits(imm, 1, 4) + 0x20 * Bits(imm, 5, 6) + 0x800 * Bits(imm, 11, 1)
                            + 0x1000 * Bits(imm, 12, 1)
  {
    PowersOfTwo();
    LowBits(imm, 13, 0x2000);
    BitsJoin(imm, 0, 12, 0x1000, 1);
    LowBits(imm, 12, 0x1000);
    Groups12(imm);
  }

  lemma Groups21(imm: int)
    ensures imm % 0x20_0000 == Bits(imm, 0, 1) + 2 * Bits(imm, 1, 4) + 0x20 * Bits(imm, 5, 6) + 0x800 * Bits(imm, 11, 1)
                            + 0x1000 * Bits(imm, 12, 3) + 0x8000 * Bits(imm, 15, 5) + 0x10_0000 * Bits(imm, 20, 1)
  {
    PowersOfTwo();
    LowBits(imm, 21, 0x20_0000);
    BitsJoin(imm, 0, 20, 0x10_0000, 1);
    BitsJoin(imm, 0, 15, 0x8000, 5);
    BitsJoin(imm, 0, 12, 0x1000, 3);
    LowBits(imm, 12, 0x1000);
    Groups12(imm);
  }

  lemma Groups32(imm: int)
    ensures imm % 0x1_0000_0000 == imm % 0x1000 + 0x1000 * Bits(imm, 12, 3) + 0x8000 * Bits(imm, 15, 5)
                            + 0x10_0000 * Bits(imm, 20, 1) + 0x20_0000 * Bits(imm, 21, 4)
                            + 0x200_0000 * Bits(imm, 25, 6) + 0x8000_0000 * Bits(imm, 31, 1)
  {
    PowersOfTwo();
    LowBits(imm, 32, 0x1_0000_0000);
    LowBits(imm, 12, 0x1000);
    BitsJoin(imm, 0, 12, 0x1000, 3);
    BitsJoin(imm, 0, 15, 0x8000, 5);
    BitsJoin(imm, 0, 20, 0x10_0000, 1);
    BitsJoin(imm, 0, 21, 0x20_0000, 4);
    BitsJoin(imm, 0, 25, 0x200_0000, 6);
    BitsJoin(imm, 0, 31, 0x8000_0000, 1);
  }

  /** Numbers from their two's-complement groups. */
  lemma Number12(imm: int)
    requires -0x800 <= imm < 0x800
    ensures imm == Bits(imm, 0, 1) + 2 * Bits(imm, 1, 4) + 0x20 * Bits(imm, 5, 6) - 0x800 * Bits(imm, 11, 1)
  {
    Groups12(imm);
    Residue(imm, 0x800);
  }

  lemma Number13(imm: int)
    requires -0x1000 <= imm < 0x1000 && imm % 2 == 0
    ensures imm == 2 * Bits(imm, 1, 4) + 0x20 * Bits(imm, 5, 6) + 0x800 * Bits(imm, 11, 1) - 0x1000 * Bits(imm, 12, 1)
  {
    Groups13(imm);
    Residue(imm, 0x1000);
    LowBits(imm, 1, 2);
  }

  lemma Number21(imm: int)
    requires -0x10_0000 <= imm < 0x10_0000 && imm % 2 == 0
    ensures imm == 2 * Bits(imm, 1, 4) + 0x20 * Bits(imm, 5, 6) + 0x800 * Bits(imm, 11, 1)
                   + 0x1000 * Bits(imm, 12, 3) + 0x8000 * Bits(imm, 15, 5) - 0x10_0000 * Bits(imm, 20, 1)
  {
    Groups21(imm);
    Residue(imm, 0x10_0000);
    LowBits(imm, 1, 2);
  }

  lemma Number32(imm: int)
    requires 0 <= imm < 0x1_0000_0000 && imm % 0x1000 == 0
    ensures imm == 0x1000 * Bits(imm, 12, 3) + 0x8000 * Bits(imm, 15, 5) + 0x10_0000 * Bits(imm, 20, 1)
                   + 0x20_0000 * Bits(imm, 21, 4) + 0x200_0000 * Bits(imm, 25, 6) + 0x8000_0000 * Bits(imm, 31, 1)
  {
    hide Bits, Pow2;
    Groups32(imm);
  }

  lemma Groups7(v: int)
    ensures v % 0x1000 == Bits(v, 0, 7) + 0x80 * Bits(v, 7, 1) + 0x100 * Bits(v, 8, 4)
  {
    PowersOfTwo();
    LowBits(v, 12, 0x1000);
    BitsJoin(v, 0, 7, 0x80, 1);
    BitsJoin(v, 0, 8, 0x100, 4);
  }

  // ----- encoding and disassembly are inverse -----

  /** The fields of `w` spell `i`. */
  predicate Spells(w: InsnWord, i: Insn) {
    match i
    case Lui(rd, imm) => w.opcode == 0x37 && FieldRd(w) == rd && SpecImmU(w) == imm
    case Auipc(rd, imm) => w.opcode == 0x17 && FieldRd(w) == rd && SpecImmU(w) == imm
    case Jal(rd, imm) => w.opcode == 0x6F && FieldRd(w) == rd && SpecImmJ(w) == imm
    case Jalr(rd, rs1, imm) => SpellsI(w, 0x67, rd, 0, rs1) && SpecImmI(w) == imm
    case Branch(c, rs1, rs2, imm) =>
      w.opcode == 0x63 && Funct3(w) == CondFunct3(c) && FieldRs1(w) == rs1 && FieldRs2(w) == rs2 && SpecImmB(w) == imm
    case Load(width, signed, rd, rs1, imm) => SpellsI(w, 0x03, rd, LoadFunct3(width, signed), rs1) && SpecImmI(w) == imm
    case Store(width, rs1, rs2, imm) =>
      w.opcode == 0x23 && Funct3(w) == WidthFunct3(width) && FieldRs1(w) == rs1 && FieldRs2(w) == rs2
      && SpecImmS(w) == imm
    case OpImm(op, rd, rs1, imm) =>
      SpellsI(w, 0x13, rd, AluFunct3(op), rs1)
      && if IsShift(op) then FieldRs2(w) == imm && Funct7(w) == AluFunct7(op) else SpecImmI(w) == imm
    case Op(op, rd, rs1, rs2) =>
      SpellsI(w, 0x33, rd, AluFunct3(op), rs1) && FieldRs2(w) == rs2 && Funct7(w) == AluFunct7(op)
    case Fence(rd, rs1, ordering) =>
      SpellsI(w, 0x0F, rd, 0, rs1) && FieldRs2(w) + 0x20 * Funct7(w) == ordering
    case Ecall => Value(w) == 0x73
    case Ebreak => Value(w) == 0x0010_0073
    case Illegal => false
  }

  predicate SpellsI(w: InsnWord, opcode: nat, rd: Reg, funct3: nat, rs1: Reg) {
    w.opcode == opcode && FieldRd(w) == rd && Funct3(w) == funct3 && FieldRs1(w) == rs1
  }

  lemma AssembledI(opcode: U7, rd: Reg, funct3: U3, rs1: Reg, imm: int)
    requires -0x800 <= imm < 0x800
    ensures var w := AssembleI(opcode, rd, funct3, rs1, imm);
      SpellsI(w, opcode, rd, funct3, rs1) && SpecImmI(w) == imm
  {
    hide Bits, Pow2;
    Number12(imm);
  }

  lemma AssembledS(funct3: U3, rs1: Reg, rs2: Reg, imm: int)
    requires -0x800 <= imm < 0x800
    ensures var w := AssembleS(funct3, rs1, rs2, imm);
      Funct3(w) == funct3 && FieldRs1(w) == rs1 && FieldRs2(w) == rs2 && SpecImmS(w) == imm
  {
    hide Bits, Pow2;
    Number12(imm);
  }

  lemma AssembledB(funct3: U3, rs1: Reg, rs2: Reg, imm: int)
    requires -0x1000 <= imm < 0x1000 && imm % 2 == 0
    ensures var w := AssembleB(funct3, rs1, rs2, imm);
      Funct3(w) == funct3 && FieldRs1(w) == rs1 && FieldRs2(w) == rs2 && SpecImmB(w) == imm
  {
    hide Bits, Pow2;
    Number13(imm);
  }

  lemma AssembledU(opcode: U7, rd: Reg, imm: int)
    requires 0 <= imm < 0x1_0000_0000 && imm % 0x1000 == 0
    ensures var w := AssembleU(opcode, rd, imm); FieldRd(w) == rd && SpecImmU(w) == imm
  {
    hide Bits, Pow2;
    Number32(imm);
  }

  lemma AssembledJ(rd: Reg, imm: int)
    requires -0x10_0000 <= imm < 0x10_0000 && imm % 2 == 0
    ensures var w := AssembleJ(rd, imm); FieldRd(w) == rd && SpecImmJ(w) == imm
  {
    hide Bits, Pow2;
    Number21(imm);
  }

  lemma AssembledFence(rd: Reg, rs1: Reg, ordering: int)
    requires 0 <= ordering < 0x1000
    ensures var w := AssembleI(0x0F, rd, 0, rs1, ordering);
      SpellsI(w, 0x0F, rd, 0, rs1) && FieldRs2(w) + 0x20 * Funct7(w) == ordering
  {
    hide Bits, Pow2;
    Groups12(ordering);
  }

  lemma EncodeSpells(i: Insn)
    requires Valid(i)
    ensures Spells(Encode(i), i)
  {
    match i
    case Lui(rd, imm) => AssembledU(0x37, rd, imm);
    case Auipc(rd, imm) => AssembledU(0x17, rd, imm);
    case Jal(rd, imm) => AssembledJ(rd, imm);
    case Jalr(rd, rs1, imm) => AssembledI(0x67, rd, 0, rs1, imm);
    case Branch(c, rs1, rs2, imm) => AssembledB(CondFunct3(c), rs1, rs2, imm);
    case Load(width, signed, rd, rs1, imm) => AssembledI(0x03, rd, LoadFunct3(width, signed), rs1, imm);
    case Store(width, rs1, rs2, imm) => AssembledS(WidthFunct3(width), rs1, rs2, imm);
    case OpImm(op, rd, rs1, imm) =>
      if IsShift(op) {
        FieldsOfAssemble(0x13, rd, AluFunct3(op), rs1, imm, AluFunct7(op));
      } else {
        AssembledI(0x13, rd, AluFunct3(op), rs1, imm);
      }
    case Op(op, rd, rs1, rs2) => FieldsOfAssemble(0x33, rd, AluFunct3(op), rs1, rs2, AluFunct7(op));
    case Fence(rd, rs1, ordering) => AssembledFence(rd, rs1, ordering);
    case Ecall =>
    case Ebreak =>
  }

  /** A word that spells `i` encodes its mnemonic and disassembles to it. */
  predicate ReadsBack(w: InsnWord, i: Insn) {
    Encodes(Mnemonic(i), w) && Disassemble(Mnemonic(i), w) == i
  }

  lemma SpelledIsEncoded(w: InsnWord, i: Insn)
    requires Valid(i) && Spells(w, i)
    ensures ReadsBack(w, i)
  {
    hide SpecImmI, SpecImmS, SpecImmB, SpecImmU, SpecImmJ;
    match i
    case Branch(_, _, _, _) => SpelledBranch(w, i);
    case Load(_, _, _, _, _) => SpelledAccess(w, i);
    case Store(_, _, _, _) => SpelledAccess(w, i);
    case OpImm(_, _, _, _) => SpelledOpImm(w, i);
    case Op(_, _, _, _) => SpelledOp(w, i);
    case _ =>
  }

  lemma SpelledBranch(w: InsnWord, i: Insn)
    requires i.Branch? && Spells(w, i)
    ensures ReadsBack(w, i)
  {
  }

  lemma SpelledAccess(w: InsnWord, i: Insn)
    requires (i.Load? || i.Store?) && Valid(i) && Spells(w, i)
    ensures ReadsBack(w, i)
  {
  }

  lemma SpelledOpImm(w: InsnWord, i: Insn)
    requires i.OpImm? && Valid(i) && Spells(w, i)
    ensures ReadsBack(w, i)
  {
  }

  lemma SpelledOp(w: InsnWord, i: Insn)
    requires i.Op? && Spells(w, i)
    ensures ReadsBack(w, i)
  {
  }

  /** The converse: an encoding of `m` spells what it disassembles to. */
  predicate SpellsBack(w: InsnWord, m: Instr) {
    var i := Disassemble(m, w);
    Valid(i) && Spells(w, i) && Mnemonic(i) == m
  }

  lemma EncodedIsSpelled(w: InsnWord, m: Instr)
    requires Encodes(m, w)
    ensures SpellsBack(w, m)
  {
    if w.opcode == 0x33 {
      EncodedOp(w, m);
    } else if w.opcode == 0x13 {
      EncodedOpImm(w, m);
    } else if w.opcode == 0x63 {
      EncodedBranch(w, m);
    } else if w.opcode == 0x03 || w.opcode == 0x23 {
      EncodedAccess(w, m);
    } else if w.opcode == 0x0F || w.opcode == 0x73 {
      EncodedSystem(w, m);
    } else {
      EncodedRest(w, m);
    }
  }

  /** The ranges of fields and immediates. */
  lemma FieldRanges(w: InsnWord)
    ensures -0x800 <= SpecImmI(w) < 0x800 && -0x800 <= SpecImmS(w) < 0x800
    ensures -0x1000 <= SpecImmB(w) < 0x1000 && SpecImmB(w) % 2 == 0
    ensures -0x10_0000 <= SpecImmJ(w) < 0x10_0000 && SpecImmJ(w) % 2 == 0
    ensures SpecImmU(w) % 0x1000 == 0
    ensures 0 <= FieldRs2(w) + 0x20 * Funct7(w) < 0x1000
  {
  }

  lemma EncodedOp(w: InsnWord, m: Instr)
    requires Encodes(m, w) && w.opcode == 0x33
    ensures SpellsBack(w, m)
  {
    hide Encodes, SpellsBack;
    OpMnemonics(w, m);
    OpSpelled(w, m);
  }

  lemma OpMnemonics(w: InsnWord, m: Instr)
    requires Encodes(m, w) && w.opcode == 0x33
    ensures m in {ADD, SUB, SLL, SLT, SLTU, XOR, SRL, SRA, OR, AND}
  {
    hide Value;
    SystemOpcode(w);
  }

  lemma OpSpelled(w: InsnWord, m: Instr)
    requires Encodes(m, w) && m in {ADD, SUB, SLL, SLT, SLTU, XOR, SRL, SRA, OR, AND}
    ensures SpellsBack(w, m)
  {
    hide FieldRd, FieldRs1, FieldRs2;
  }

  lemma EncodedOpImm(w: InsnWord, m: Instr)
    requires Encodes(m, w) && w.opcode == 0x13
    ensures SpellsBack(w, m)
  {
    hide Encodes, SpellsBack;
    OpImmMnemonics(w, m);
    OpImmSpelled(w, m);
  }

  lemma OpImmMnemonics(w: InsnWord, m: Instr)
    requires Encodes(m, w) && w.opcode == 0x13
    ensures m in {ADDI, SLTI, SLTIU, XORI, ORI, ANDI, SLLI, SRLI, SRAI}
  {
    hide Value;
    SystemOpcode(w);
  }

  lemma OpImmSpelled(w: InsnWord, m: Instr)
    requires Encodes(m, w) && m in {ADDI, SLTI, SLTIU, XORI, ORI, ANDI, SLLI, SRLI, SRAI}
    ensures SpellsBack(w, m)
  {
    hide SpecImmI, FieldRd, FieldRs1, FieldRs2;
    FieldRanges(w);
  }

  lemma EncodedBranch(w: InsnWord, m: Instr)
    requires Encodes(m, w) && w.opcode == 0x63
    ensures SpellsBack(w, m)
  {
    hide Value, SpecImmI, SpecImmS, SpecImmB, SpecImmU, SpecImmJ, FieldRd, FieldRs1, FieldRs2;
    FieldRanges(w);
    SystemOpcode(w);
  }

  lemma EncodedAccess(w: InsnWord, m: Instr)
    requires Encodes(m, w) && (w.opcode == 0x03 || w.opcode == 0x23)
    ensures SpellsBack(w, m)
  {
    hide Value, SpecImmI, SpecImmS, SpecImmB, SpecImmU, SpecImmJ, FieldRd, FieldRs1, FieldRs2;
    FieldRanges(w);
    SystemOpcode(w);
  }

  lemma EncodedSystem(w: InsnWord, m: Instr)
    requires Encodes(m, w) && (w.opcode == 0x0F || w.opcode == 0x73)
    ensures SpellsBack(w, m)
  {
    hide Value, SpecImmI, SpecImmS, SpecImmB, SpecImmU, SpecImmJ, FieldRd, FieldRs1, FieldRs2, Funct7;
    FieldRanges(w);
    SystemOpcode(w);
  }

  lemma EncodedRest(w: InsnWord, m: Instr)
    requires Encodes(m, w) && w.opcode !in {0x33, 0x13, 0x63, 0x03, 0x23, 0x0F, 0x73}
    ensures SpellsBack(w, m)
  {
    hide Value, SpecImmI, SpecImmS, SpecImmB, SpecImmU, SpecImmJ, FieldRd, FieldRs1, FieldRs2;
    FieldRanges(w);
    SystemOpcode(w);
  }

  /** ECALL and EBREAK have the SYSTEM opcode. */
  lemma SystemOpcode(w: InsnWord)
    ensures Value(w) == 0x73 || Value(w) == 0x0010_0073 ==> w.opcode == 0x73
  {
    assert Value(w) % 0x80 == w.opcode;
  }

  /** No two words spell the same instruction. */
  lemma SpellingIsUnique(w: InsnWord, w': InsnWord, i: Insn)
    requires Valid(i) && Spells(w, i) && Spells(w', i)
    ensures w == w'
  {
    match i
    case Lui(_, _) => UpperIsUnique(w, w');
    case Auipc(_, _) => UpperIsUnique(w, w');
    case Jal(_, _) => JumpIsUnique(w, w');
    case Jalr(_, _, _) => ImmIIsUnique(w, w');
    case Branch(_, _, _, _) => BranchIsUnique(w, w');
    case Load(_, _, _, _, _) => ImmIIsUnique(w, w');
    case Store(_, _, _, _) => StoreIsUnique(w, w');
    case OpImm(op, _, _, _) =>
      if !IsShift(op) {
        ImmIIsUnique(w, w');
      }
    case Op(_, _, _, _) =>
    case Fence(_, _, _) => OrderingIsUnique(w, w');
    case Ecall => ValueIsUnique(w, w');
    case Ebreak => ValueIsUnique(w, w');
  }

  lemma ValueIsUnique(w: InsnWord, w': InsnWord)
    requires Value(w) == Value(w')
    ensures w == w'
  {
    ParseOfValue(w);
    ParseOfValue(w');
  }

  lemma UpperIsUnique(w: InsnWord, w': InsnWord)
    requires SpecImmU(w) == SpecImmU(w')
    ensures w.b12 == w'.b12 && w.b15 == w'.b15 && w.b20 == w'.b20
    ensures w.b21 == w'.b21 && w.b25 == w'.b25 && w.b31 == w'.b31
  {
    var v := InsnWord(0, 0, 0, w.b12, w.b15, w.b20, w.b21, w.b25, w.b31);
    var v' := InsnWord(0, 0, 0, w'.b12, w'.b15, w'.b20, w'.b21, w'.b25, w'.b31);
    assert Value(v) == SpecImmU(w);
    assert Value(v') == SpecImmU(w');
    ValueIsUnique(v, v');
  }

  lemma JumpIsUnique(w: InsnWord, w': InsnWord)
    requires SpecImmJ(w) == SpecImmJ(w')
    ensures w.b12 == w'.b12 && w.b15 == w'.b15 && w.b20 == w'.b20
    ensures w.b21 == w'.b21 && w.b25 == w'.b25 && w.b31 == w'.b31
  {
    var imm := SpecImmJ(w);
    var high := w.b20 + 2 * w.b12 + 0x10 * w.b15 - 0x200 * w.b31;
    var high' := w'.b20 + 2 * w'.b12 + 0x10 * w'.b15 - 0x200 * w'.b31;
    DivisionIsUnique(imm, 0x800, high, 2 * w.b21 + 0x20 * w.b25);
    DivisionIsUnique(imm, 0x800, high', 2 * w'.b21 + 0x20 * w'.b25);
    var mid := w.b21 + 0x10 * w.b25;
    DivisionIsUnique(mid, 0x10, w.b25, w.b21);
    DivisionIsUnique(mid, 0x10, w'.b25, w'.b21);
    HighDigits(w, w');
  }

  lemma HighDigits(w: InsnWord, w': InsnWord)
    requires w.b20 + 2 * w.b12 + 0x10 * w.b15 - 0x200 * w.b31 == w'.b20 + 2 * w'.b12 + 0x10 * w'.b15 - 0x200 * w'.b31
    ensures w.b20 == w'.b20 && w.b12 == w'.b12 && w.b15 == w'.b15 && w.b31 == w'.b31
  {
    var q, q' := w.b12 + 8 * w.b15 - 0x100 * w.b31, w'.b12 + 8 * w'.b15 - 0x100 * w'.b31;
    DivisionIsUnique(w.b20 + 2 * q, 2, q, w.b20);
    DivisionIsUnique(w.b20 + 2 * q, 2, q', w'.b20);
    var r, r' := w.b15 - 0x20 * w.b31, w'.b15 - 0x20 * w'.b31;
    DivisionIsUnique(q, 8, r, w.b12);
    DivisionIsUnique(q, 8, r', w'.b12);
  }

  lemma ImmIIsUnique(w: InsnWord, w': InsnWord)
    requires SpecImmI(w) == SpecImmI(w')
    ensures w.b20 == w'.b20 && w.b21 == w'.b21 && w.b25 == w'.b25 && w.b31 == w'.b31
  {
  }

  lemma OrderingIsUnique(w: InsnWord, w': InsnWord)
    requires FieldRs2(w) + 0x20 * Funct7(w) == FieldRs2(w') + 0x20 * Funct7(w')
    ensures w.b20 == w'.b20 && w.b21 == w'.b21 && w.b25 == w'.b25 && w.b31 == w'.b31
  {
  }

  lemma BranchIsUnique(w: InsnWord, w': InsnWord)
    requires SpecImmB(w) == SpecImmB(w')
    ensures w.b7 == w'.b7 && w.b8 == w'.b8 && w.b25 == w'.b25 && w.b31 == w'.b31
  {
    var imm := SpecImmB(w);
    var high, high' := w.b25 + 0x40 * w.b7 - 0x80 * w.b31, w'.b25 + 0x40 * w'.b7 - 0x80 * w'.b31;
    DivisionIsUnique(imm, 0x20, high, 2 * w.b8);
    DivisionIsUnique(imm, 0x20, high', 2 * w'.b8);
    DivisionIsUnique(high, 0x40, w.b7 - 2 * w.b31, w.b25);
    DivisionIsUnique(high, 0x40, w'.b7 - 2 * w'.b31, w'.b25);
  }

  lemma StoreIsUnique(w: InsnWord, w': InsnWord)
    requires SpecImmS(w) == SpecImmS(w')
    ensures w.b7 == w'.b7 && w.b8 == w'.b8 && w.b25 == w'.b25 && w.b31 == w'.b31
  {
  }

  /** Encoding and disassembly are inverse: no valid instruction is lost. */
  lemma EncodeThenDisassemble(i: Insn)
    requires Valid(i)
    ensures Encodes(Mnemonic(i), Encode(i))
    ensures Disassemble(Mnemonic(i), Encode(i)) == i
  {
    EncodeSpells(i);
    SpelledIsEncoded(Encode(i), i);
  }

  /** Encoding and disassembly are inverse: every encoding is rebuilt from its instruction. */
  lemma DisassembleThenEncode(m: Instr, w: InsnWord)
    requires Encodes(m, w)
    ensures Valid(Disassemble(m, w)) && Mnemonic(Disassemble(m, w)) == m
    ensures Encode(Disassemble(m, w)) == w
  {
    EncodedIsSpelled(w, m);
    EncodeSpells(Disassemble(m, w));
    SpellingIsUnique(w, Encode(Disassemble(m, w)), Disassemble(m, w));
  }

  // ----- execution (sections 2.4 to 2.8) -----

  type Regs = r: seq<Word> | |r| == 32 witness seq(32, i => 0)

  datatype Hart = Hart(regs: Regs, pc: Word, mem: Mem)

  /** Register 0 is hardwired to zero in RV32I (section 2.1); `Plain` treats it as any other. */
  datatype X0 = Plain | Hardwired

  datatype Result = Ok(hart: Hart) | AccessFault | MisalignedTarget | Trap

  function ReadX(h: Hart, r: Reg, x0: X0): Word {
    if x0.Hardwired? && r == 0 then 0 else h.regs[r]
  }

  function WriteX(h: Hart, r: Reg, v: Word, x0: X0): Hart {
    if x0.Hardwired? && r == 0 then h else h.(regs := h.regs[r := v])
  }

  function Advance(h: Hart): Hart {
    h.(pc := Wrap(h.pc + 4))
  }

  function Jump(h: Hart, target: Word): Result {
    if target % 4 == 0 then Ok(h.(pc := target)) else MisalignedTarget
  }

  function Taken(c: Cond, x: Word, y: Word): bool {
    match c
    case Eq => x == y
    case Ne => x != y
    case Lt => ToSigned(x) < ToSigned(y)
    case Ge => ToSigned(x) >= ToSigned(y)
    case Ltu => x < y
    case Geu => x >= y
  }

  function Flag(b: bool): Word {
    if b then 1 else 0
  }

  /** Shifts use the low five bits of their second operand. */
  function Alu(op: AluOp, x: Word, y: Word): Word {
    match op
    case Add => Wrap(x + y)
    case Sub => Wrap(x - y)
    case Sll => ShiftLeft(x, y % 32)
    case Slt => Flag(ToSigned(x) < ToSigned(y))
    case Sltu => Flag(x < y)
    case Xor => BitOp(BitXor, x, y)
    case Srl => ShiftRightLogical(x, y % 32)
    case Sra => ShiftRightArithmetic(x, y % 32)
    case Or => BitOp(BitOr, x, y)
    case And => BitOp(BitAnd, x, y)
  }

  function Extend(width: Width, signed: bool, v: Word): Word
    requires v < Modulus(width)
  {
    match width
    case W8 => if signed then SignExtend8(v) else v
    case W16 => if signed then SignExtend16(v) else v
    case W32 => v
  }

  /** A jump target with its least significant bit cleared. */
  function ClearBit0(x: Word): Word {
    x - x % 2
  }

  function EffectiveAddress(h: Hart, rs1: Reg, imm: int, x0: X0): Word {
    Wrap(ReadX(h, rs1, x0) + imm)
  }

  /** One instruction. The environment of EBREAK is taken to resume after it, and FENCE orders
      nothing on a single hart; ECALL and illegal words trap. */
  function Exec(i: Insn, h: Hart, x0: X0): Result {
    match i
    case Lui(rd, imm) => Ok(Advance(WriteX(h, rd, Wrap(imm), x0)))
    case Auipc(rd, imm) => Ok(Advance(WriteX(h, rd, Wrap(h.pc + imm), x0)))
    case Jal(rd, imm) => Jump(WriteX(h, rd, Wrap(h.pc + 4), x0), Wrap(h.pc + imm))
    case Jalr(rd, rs1, imm) =>
      Jump(WriteX(h, rd, Wrap(h.pc + 4), x0), ClearBit0(EffectiveAddress(h, rs1, imm, x0)))
    case Branch(c, rs1, rs2, imm) =>
      if Taken(c, ReadX(h, rs1, x0), ReadX(h, rs2, x0)) then Jump(h, Wrap(h.pc + imm))
      else Ok(Advance(h))
    case Load(width, signed, rd, rs1, imm) =>
      (match Read(h.mem, EffectiveAddress(h, rs1, imm, x0), width)
       case None => AccessFault
       case Some(v) => Ok(Advance(WriteX(h, rd, Extend(width, signed, v), x0))))
    case Store(width, rs1, rs2, imm) =>
      (match Write(h.mem, EffectiveAddress(h, rs1, imm, x0), width, ReadX(h, rs2, x0))
       case None => AccessFault
       case Some(mem) => Ok(Advance(h.(mem := mem))))
    case OpImm(op, rd, rs1, imm) =>
      Ok(Advance(WriteX(h, rd, Alu(op, ReadX(h, rs1, x0), Wrap(imm)), x0)))
    case Op(op, rd, rs1, rs2) =>
      Ok(Advance(WriteX(h, rd, Alu(op, ReadX(h, rs1, x0), ReadX(h, rs2, x0)), x0)))
    case Fence(_, _, _) => Ok(Advance(h))
    case Ecall => Trap
    case Ebreak => Ok(Advance(h))
    case Illegal => Trap
  }
}
