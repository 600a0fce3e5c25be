/** Translation preserves meaning: the code emitted for one instruction against RV32I. */
module Translation {
  import opened Words
  import opened GuestMemory
  import opened Isa
  import opened Decoder
  import opened Ir
  import opened Translator

  /** The poison-free CPU state that holds a hart. */
  function Embed(h: Hart): Machine {
    Machine(Lanes(h.regs), Def(h.pc), h.mem)
  }

  function Lanes(regs: Regs): (l: LaneRegs)
    ensures forall k :: 0 <= k < 32 ==> l[k] == Def(regs[k])
  {
    seq(32, k requires 0 <= k < 32 => var l: Lane<Word> := Def(regs[k]); l)
  }

  lemma EmbedRegs(h: Hart, r: Reg)
    ensures Embed(h).regs[r] == Def(h.regs[r])
  {
  }

  lemma EmbedWrite(h: Hart, r: Reg, v: Word)
    ensures SetLane(Embed(h), r, Def(v)) == Embed(WriteX(h, r, v, Plain))
  {
    assert SetLane(Embed(h), r, Def(v)).regs == Embed(WriteX(h, r, v, Plain)).regs;
  }

  lemma EmbedAdvance(h: Hart)
    ensures Add4(Embed(h)) == Embed(Advance(h))
  {
  }

  /** The effect of the code is the result of the architecture. Traps have no counterpart. */
  predicate Agrees(e: Effect, r: Result) {
    match r
    case Ok(h) => e == Done(Embed(h))
    case AccessFault => e == Undefined
    case MisalignedTarget => false
    case Trap => false
  }

  /** Where the emitted code is right: the offset of JAL fits twenty bits, control goes to an
      aligned target, register shift amounts are below 32, and the first source of SLT and SLTU
      is not less than the second. */
  predicate Faithful(i: Insn, h: Hart) {
    match i
    case Jal(_, imm) => -0x8_0000 <= imm < 0x8_0000 && Wrap(h.pc + imm) % 4 == 0
    case Jalr(_, rs1, imm) => ClearBit0(Wrap(h.regs[rs1] + imm)) % 4 == 0
    case Branch(c, rs1, rs2, imm) => Taken(c, h.regs[rs1], h.regs[rs2]) ==> Wrap(h.pc + imm) % 4 == 0
    case Op(op, _, rs1, rs2) =>
      (match op
       case Sll => h.regs[rs2] < 32
       case Srl => h.regs[rs2] < 32
       case Sra => h.regs[rs2] < 32
       case Slt => ToSigned(h.regs[rs1]) >= ToSigned(h.regs[rs2])
       case Sltu => h.regs[rs1] >= h.regs[rs2]
       case _ => true)
    case _ => true
  }

  // ----- arithmetic of addresses -----

  /** Adding a signed number to a word is adding its two's complement. */
  lemma WrapAdd(x: Word, imm: int)
    ensures Wrap(x + Wrap(imm)) == Wrap(x + imm)
  {
    WrapSum(imm, x);
  }

  lemma WrapCancel(x: Word, a: Word, b: Word)
    requires Wrap(x + a) == Wrap(x + b)
    ensures a == b
  {
  }

  // ----- one family at a time -----

  function BinOf(op: AluOp): BinOp
    requires !op.Slt? && !op.Sltu?
  {
    match op
    case Add => AddOp
    case Sub => SubOp
    case Sll => ShlOp
    case Xor => XorOp
    case Srl => LShrOp
    case Sra => AShrOp
    case Or => OrOp
    case And => AndOp
  }

  /** Emitted arithmetic is the ALU's, unless a shift amount is out of range. */
  lemma BinIsAlu(op: AluOp, x: Word, y: Word)
    requires !op.Slt? && !op.Sltu?
    ensures BinLane(BinOf(op), Def(x), Def(y)) == if Isa.IsShift(op) && y >= 32 then Poison else Def(Alu(op, x, y))
  {
    if Isa.IsShift(op) {
      SmallShift(op, x, y);
    }
  }

  lemma SmallShift(op: AluOp, x: Word, y: Word)
    requires Isa.IsShift(op)
    ensures BinLane(BinOf(op), Def(x), Def(y)) == if y >= 32 then Poison else Def(Alu(op, x, y))
  {
    if y < 32 {
      DivisionIsUnique(y, 32, 0, y);
    }
  }

  /** Writing a register and advancing, on both sides. */
  lemma SetAgrees(h: Hart, r: Reg, v: Word)
    ensures Agrees(Done(Add4(SetLane(Embed(h), r, Def(v)))), Ok(Advance(WriteX(h, r, v, Plain))))
  {
    EmbedWrite(h, r, v);
    EmbedAdvance(WriteX(h, r, v, Plain));
  }

  /** A different lane in the written register is a different state. */
  lemma SetDisagrees(h: Hart, r: Reg, l: Lane<Word>, v: Word)
    requires l != Def(v)
    ensures !Agrees(Done(Add4(SetLane(Embed(h), r, l))), Ok(Advance(WriteX(h, r, v, Plain))))
  {
    assert Add4(SetLane(Embed(h), r, l)).regs[r] == l;
    EmbedRegs(Advance(WriteX(h, r, v, Plain)), r);
  }

  lemma DirectOpOf(op: BinOp, o: Operands, h: Hart)
    ensures DirectOp(op, o, Embed(h))
         == Done(Add4(SetLane(Embed(h), o.rd, BinLane(op, Def(h.regs[o.rs1]), Def(h.regs[o.rs2])))))
  {
    EmbedRegs(h, o.rs1);
    EmbedRegs(h, o.rs2);
  }

  /** What the code of a register operation makes of a hart. */
  lemma RegisterOpEffect(op: AluOp, o: Operands, h: Hart)
    requires !op.Slt? && !op.Sltu?
    ensures DirectOp(BinOf(op), o, Embed(h)) ==
      Done(Add4(SetLane(Embed(h), o.rd,
        if Isa.IsShift(op) && h.regs[o.rs2] >= 32 then Poison else Def(Alu(op, h.regs[o.rs1], h.regs[o.rs2])))))
  {
    DirectOpOf(BinOf(op), o, h);
    BinIsAlu(op, h.regs[o.rs1], h.regs[o.rs2]);
  }

  lemma RegisterOpIff(op: AluOp, o: Operands, h: Hart)
    requires !op.Slt? && !op.Sltu?
    ensures Agrees(DirectOp(BinOf(op), o, Embed(h)), Exec(Op(op, o.rd, o.rs1, o.rs2), h, Plain))
        <==> !(Isa.IsShift(op) && h.regs[o.rs2] >= 32)
  {
    hide Alu, DirectOp, Embed, BinOf, Agrees;
    var v := Alu(op, h.regs[o.rs1], h.regs[o.rs2]);
    RegisterOpEffect(op, o, h);
    if Isa.IsShift(op) && h.regs[o.rs2] >= 32 {
      SetDisagrees(h, o.rd, Poison, v);
    } else {
      SetAgrees(h, o.rd, v);
    }
  }

  lemma ImmediateOp(op: AluOp, o: Operands, imm: int, h: Hart)
    requires !op.Slt? && !op.Sltu? && o.imm == Wrap(imm) && (Isa.IsShift(op) ==> o.imm < 32)
    ensures Agrees(DirectOpImm(BinOf(op), o, Embed(h)), Exec(OpImm(op, o.rd, o.rs1, imm), h, Plain))
  {
    EmbedRegs(h, o.rs1);
    BinIsAlu(op, h.regs[o.rs1], o.imm);
    SetAgrees(h, o.rd, Alu(op, h.regs[o.rs1], o.imm));
  }

  lemma ImmediateSet(o: Operands, imm: int, h: Hart)
    requires o.imm == Wrap(imm)
    ensures Agrees(DirectSetImm(PredSlt, o, Embed(h)), Exec(OpImm(Slt, o.rd, o.rs1, imm), h, Plain))
    ensures Agrees(DirectSetImm(PredUlt, o, Embed(h)), Exec(OpImm(Sltu, o.rd, o.rs1, imm), h, Plain))
  {
    var x := h.regs[o.rs1];
    EmbedRegs(h, o.rs1);
    SetAgrees(h, o.rd, Alu(Slt, x, o.imm));
    SetAgrees(h, o.rd, Alu(Sltu, x, o.imm));
  }

  /** SLT and SLTU always write 0, so they are right when 0 is. */
  lemma RegisterSetIff(op: AluOp, o: Operands, h: Hart)
    requires op.Slt? || op.Sltu?
    ensures Agrees(DirectSet(if op.Slt? then PredSlt else PredUlt, o, Embed(h)),
                   Exec(Op(op, o.rd, o.rs1, o.rs2), h, Plain))
        <==> Alu(op, h.regs[o.rs1], h.regs[o.rs2]) == 0
  {
    EmbedRegs(h, o.rs1);
    var v := Alu(op, h.regs[o.rs1], h.regs[o.rs2]);
    if v == 0 {
      SetAgrees(h, o.rd, 0);
    } else {
      SetDisagrees(h, o.rd, Def(0), v);
    }
  }

  function PredOf(c: Cond): Pred {
    match c
    case Eq => PredEq
    case Ne => PredNe
    case Lt => PredSlt
    case Ge => PredSge
    case Ltu => PredUlt
    case Geu => PredUge
  }

  lemma BranchIff(c: Cond, o: Operands, imm: int, h: Hart)
    requires o.imm == Wrap(imm)
    ensures Agrees(Done(DirectBranch(PredOf(c), o, Embed(h))), Exec(Branch(c, o.rs1, o.rs2, imm), h, Plain))
        <==> (Taken(c, h.regs[o.rs1], h.regs[o.rs2]) ==> Wrap(h.pc + imm) % 4 == 0)
  {
    EmbedRegs(h, o.rs1);
    EmbedRegs(h, o.rs2);
    WrapAdd(h.pc, imm);
  }

  lemma JalIff(o: Operands, imm: int, h: Hart)
    ensures Agrees(DirectJal(o, Embed(h)), Exec(Jal(o.rd, imm), h, Plain))
        <==> (o.imm == Wrap(imm) && Wrap(h.pc + imm) % 4 == 0)
  {
    var link := Wrap(h.pc + 4);
    EmbedWrite(h, o.rd, link);
    WrapAdd(h.pc, imm);
    if Wrap(h.pc + o.imm) == Wrap(h.pc + imm) {
      WrapCancel(h.pc, o.imm, Wrap(imm));
    }
  }

  lemma AddressIs(o: Operands, imm: int, h: Hart)
    requires o.imm == Wrap(imm)
    ensures Address(Embed(h), o) == Def(EffectiveAddress(h, o.rs1, imm, Plain))
  {
    EmbedRegs(h, o.rs1);
    WrapAdd(h.regs[o.rs1], imm);
  }

  lemma JalrIff(o: Operands, imm: int, h: Hart)
    requires o.imm == Wrap(imm)
    ensures Agrees(DirectJalr(o, Embed(h)), Exec(Jalr(o.rd, o.rs1, imm), h, Plain))
        <==> ClearBit0(Wrap(h.regs[o.rs1] + imm)) % 4 == 0
  {
    hide Agrees, Embed, DirectJalr, ClearBit0, EffectiveAddress;
    var link := WriteX(h, o.rd, Wrap(h.pc + 4), Plain);
    JalrEffect(o, imm, h);
    AddressPlain(h, o.rs1, imm);
    JumpEmbedded(link, ClearBit0(EffectiveAddress(h, o.rs1, imm, Plain)));
  }

  lemma AddressPlain(h: Hart, r: Reg, imm: int)
    ensures EffectiveAddress(h, r, imm, Plain) == Wrap(h.regs[r] + imm)
  {
  }

  lemma JalrEffect(o: Operands, imm: int, h: Hart)
    requires o.imm == Wrap(imm)
    ensures DirectJalr(o, Embed(h)) ==
      Done(Embed(WriteX(h, o.rd, Wrap(h.pc + 4), Plain)).(pc := Def(ClearBit0(EffectiveAddress(h, o.rs1, imm, Plain)))))
  {
    AddressIs(o, imm, h);
    MaskedTarget(EffectiveAddress(h, o.rs1, imm, Plain));
    EmbedWrite(h, o.rd, Wrap(h.pc + 4));
  }

  lemma MaskedTarget(t: Word)
    ensures BinLane(AndOp, Def(t), Def(0xFFFF_FFFE)) == Def(ClearBit0(t))
  {
    AndClearsLowBit(t);
  }

  lemma JumpEmbedded(h: Hart, target: Word)
    ensures Agrees(Done(Embed(h).(pc := Def(target))), Jump(h, target)) <==> target % 4 == 0
  {
  }

  lemma LoadCase(width: Width, signed: bool, o: Operands, imm: int, h: Hart)
    requires o.imm == Wrap(imm)
    ensures Agrees(DirectLoad(width, signed, o, Embed(h)), Exec(Load(width, signed, o.rd, o.rs1, imm), h, Plain))
  {
    AddressIs(o, imm, h);
    var r := Read(h.mem, EffectiveAddress(h, o.rs1, imm, Plain), width);
    if r.Some? {
      SetAgrees(h, o.rd, Extend(width, signed, r.value));
    }
  }

  lemma StoreCase(width: Width, o: Operands, imm: int, h: Hart)
    requires o.imm == Wrap(imm)
    ensures Agrees(DirectStore(width, o, Embed(h)), Exec(Store(width, o.rs1, o.rs2, imm), h, Plain))
  {
    AddressIs(o, imm, h);
    EmbedRegs(h, o.rs2);
    var a := EffectiveAddress(h, o.rs1, imm, Plain);
    WriteTruncates(h.mem, a, width, h.regs[o.rs2]);
    var r := Write(h.mem, a, width, h.regs[o.rs2]);
    if r.Some? {
      EmbedMemory(h, r.value);
      EmbedAdvance(h.(mem := r.value));
    }
  }

  lemma EmbedMemory(h: Hart, mem: Mem)
    ensures Embed(h).(mem := mem) == Embed(h.(mem := mem))
  {
  }

  // ----- all instructions -----

  lemma UpperCase(o: Operands, imm: int, h: Hart)
    requires o.imm == Wrap(imm)
    ensures Agrees(DirectLui(o, Embed(h)), Exec(Lui(o.rd, imm), h, Plain))
    ensures Agrees(DirectAuipc(o, Embed(h)), Exec(Auipc(o.rd, imm), h, Plain))
  {
    WrapAdd(h.pc, imm);
    SetAgrees(h, o.rd, o.imm);
    SetAgrees(h, o.rd, Wrap(h.pc + imm));
  }

  /** Which shape of code implements an instruction. */
  predicate Implements(s: Shape, i: Insn) {
    match i
    case Lui(_, _) => s == LuiShape
    case Auipc(_, _) => s == AuipcShape
    case Jal(_, _) => s == JalShape
    case Jalr(_, _, _) => s == JalrShape
    case Branch(c, _, _, _) => s == BranchShape(PredOf(c))
    case Load(width, signed, _, _, _) => s == LoadShape(width, signed)
    case Store(width, _, _, _) => s == StoreShape(width)
    case OpImm(op, _, _, imm) =>
      if op.Slt? then s == SetImmShape(PredSlt)
      else if op.Sltu? then s == SetImmShape(PredUlt)
      else s == OpImmShape(BinOf(op)) && (Isa.IsShift(op) ==> 0 <= imm < 32)
    case Op(op, _, _, _) =>
      if op.Slt? then s == SetShape(PredSlt) else if op.Sltu? then s == SetShape(PredUlt) else s == OpShape(BinOf(op))
    case Fence(_, _, _) => s == PcOnly
    case Ecall => false
    case Ebreak => s == PcOnly
    case Illegal => false
  }

  /** The shape chosen by `generate` implements the instruction that the manual reads. */
  lemma GenerateImplements(m: Instr, w: InsnWord)
    requires !m.UNKNOWN? && !m.ECALL?
    ensures Implements(ShapeOf(m), Disassemble(m, w))
  {
    hide SpecImmI, SpecImmS, SpecImmB, SpecImmU, SpecImmJ, FieldRd, FieldRs1, FieldRs2, Funct7;
  }

  /** Code of shape `s` is right for `i` exactly when `i` is faithful. */
  predicate RightIffFaithful(s: Shape, o: Operands, i: Insn, h: Hart) {
    Agrees(Direct(s, o, Embed(h)), Exec(i, h, Plain)) <==> Faithful(i, h)
  }

  lemma ArithmeticCorrect(s: Shape, o: Operands, i: Insn, h: Hart)
    requires Implements(s, i) && (i.Op? || i.OpImm?) && Agree(o, i)
    ensures RightIffFaithful(s, o, i, h)
  {
    if i.op.Slt? || i.op.Sltu? {
      if i.Op? {
        RegisterSetIff(i.op, o, h);
      } else {
        ImmediateSet(o, i.imm, h);
      }
    } else {
      if i.Op? {
        RegisterOpIff(i.op, o, h);
      } else {
        ImmediateOp(i.op, o, i.imm, h);
      }
    }
  }

  lemma AccessCorrect(s: Shape, o: Operands, i: Insn, h: Hart)
    requires Implements(s, i) && (i.Load? || i.Store?) && Agree(o, i)
    ensures RightIffFaithful(s, o, i, h)
  {
    if i.Load? {
      LoadCase(i.width, i.signed, o, i.imm, h);
    } else {
      StoreCase(i.width, o, i.imm, h);
    }
  }

  lemma JalrCorrect(s: Shape, o: Operands, i: Insn, h: Hart)
    requires Implements(s, i) && i.Jalr? && Agree(o, i)
    ensures RightIffFaithful(s, o, i, h)
  {
    hide DirectJalr, Exec, Agrees, Embed, ClearBit0;
    JalrIff(o, i.imm, h);
  }

  lemma BranchCorrect(s: Shape, o: Operands, i: Insn, h: Hart)
    requires Implements(s, i) && i.Branch? && Agree(o, i)
    ensures RightIffFaithful(s, o, i, h)
  {
    hide DirectBranch, Exec, Agrees, Embed, Taken;
    BranchIff(i.cond, o, i.imm, h);
  }

  lemma ShapeCorrect(s: Shape, o: Operands, i: Insn, h: Hart)
    requires Implements(s, i) && !i.Jal? && Agree(o, i)
    ensures RightIffFaithful(s, o, i, h)
  {
    match i
    case Lui(_, imm) => UpperCase(o, imm, h);
    case Auipc(_, imm) => UpperCase(o, imm, h);
    case Jalr(_, _, _) => JalrCorrect(s, o, i, h);
    case Branch(_, _, _, _) => BranchCorrect(s, o, i, h);
    case Load(_, _, _, _, _) => AccessCorrect(s, o, i, h);
    case Store(_, _, _, _) => AccessCorrect(s, o, i, h);
    case OpImm(_, _, _, _) => ArithmeticCorrect(s, o, i, h);
    case Op(_, _, _, _) => ArithmeticCorrect(s, o, i, h);
    case Fence(_, _, _) => EmbedAdvance(h);
    case Ebreak => EmbedAdvance(h);
  }

  /** The code of one instruction, read directly. */
  lemma EmitIsDirect(m: Instr, w: InsnWord, s: Machine)
    ensures Call(Emit(m, w, 0), s) == Direct(ShapeOf(m), Extract(m, w), s)
  {
    hide Call, EmitShape, Direct, ShapeOf, Extract;
    CallIsDirect(ShapeOf(m), Extract(m, w), s);
  }

  lemma JumpCorrect(w: InsnWord, h: Hart)
    ensures RightIffFaithful(JalShape, Extract(JAL, w), Disassemble(JAL, w), h)
  {
    hide SpecImmJ, ImmJ;
    ImmJIsSpecIff(w);
    JalIff(Extract(JAL, w), SpecImmJ(w), h);
  }

  /** For every mnemonic but UNKNOWN and ECALL, every word and every state, the emitted code has
      the effect that RV32I with a plain register 0 demands if and only if the instruction is
      faithful in that state. */
  lemma TranslationCorrect(m: Instr, w: InsnWord, h: Hart)
    requires !m.UNKNOWN? && !m.ECALL?
    ensures Agrees(Call(Emit(m, w, 0), Embed(h)), Exec(Disassemble(m, w), h, Plain))
        <==> Faithful(Disassemble(m, w), h)
  {
    hide Call, Emit, Direct, Extract, Exec, Faithful, Agrees, Agree, SpecImmJ, Embed;
    var s, o, i := ShapeOf(m), Extract(m, w), Disassemble(m, w);
    EmitIsDirect(m, w, Embed(h));
    if m.JAL? {
      JumpCorrect(w, h);
    } else {
      GenerateImplements(m, w);
      ExtractAgrees(m, w);
      OnlyJalIsJal(m, w);
      ShapeCorrect(s, o, i, h);
    }
  }

  lemma OnlyJalIsJal(m: Instr, w: InsnWord)
    ensures Disassemble(m, w).Jal? <==> m.JAL?
  {
  }

  // ----- shifts are arithmetic -----

  predicate IsShiftMnemonic(m: Instr) {
    m in {SLL, SRL, SRA, SLLI, SRLI, SRAI}
  }

  function ShiftBinOp(m: Instr): BinOp
    requires IsShiftMnemonic(m)
  {
    if m.SLL? || m.SLLI? then ShlOp else if m.SRL? || m.SRLI? then LShrOp else AShrOp
  }

  /** `v` is `x` scaled by 2^n as the shift says: a product modulo 2^32, a quotient of unsigned
      numbers, or a quotient of signed numbers rounded towards minus infinity. */
  predicate Scales(op: BinOp, x: Word, n: nat, v: Word) {
    match op
    case ShlOp => v == Wrap(x * Pow2(n))
    case LShrOp => v == x / Pow2(n)
    case AShrOp => ToSigned(v) == ToSigned(x) / Pow2(n)
    case _ => false
  }

  lemma ShiftLaneScales(op: BinOp, x: Word, n: Word)
    requires n < 32 && (op.ShlOp? || op.LShrOp? || op.AShrOp?)
    ensures BinLane(op, Def(x), Def(n)).Def? && Scales(op, x, n, BinLane(op, Def(x), Def(n)).val)
  {
    hide ShiftLeft, ShiftRightLogical, ShiftRightArithmetic, Pow2, ToSigned;
    ShiftLeftMeaning(x, n);
    ShiftRightMeaning(x, n);
    ShiftRightSignedMeaning(x, n);
  }

  function ShiftAmount(m: Instr, w: InsnWord, h: Hart): Word {
    if m in {SLLI, SRLI, SRAI} then RegSrc2(w) else h.regs[RegSrc2(w)]
  }

  lemma ShiftShapes(m: Instr, w: InsnWord)
    requires IsShiftMnemonic(m)
    ensures ShapeOf(m) == if m in {SLLI, SRLI, SRAI} then OpImmShape(ShiftBinOp(m)) else OpShape(ShiftBinOp(m))
    ensures m in {SLLI, SRLI, SRAI} ==> ImmOf(m, w) == RegSrc2(w)
  {
    hide ImmI, ImmS, ImmB, ImmJ;
  }

  /** The code of a shift by n < 32, register or immediate, multiplies or divides by 2^n. */
  lemma ShiftCodeScales(m: Instr, w: InsnWord, h: Hart)
    requires IsShiftMnemonic(m) && ShiftAmount(m, w, h) < 32
    ensures exists v: Word ::
      && Scales(ShiftBinOp(m), h.regs[RegSrc1(w)], ShiftAmount(m, w, h), v)
      && Call(Emit(m, w, 0), Embed(h)) == Done(Add4(SetLane(Embed(h), RegDest(w), Def(v))))
  {
    hide Call, Emit, BinLane, Scales, ImmOf, ShapeOf, Embed;
    var op, x, n := ShiftBinOp(m), h.regs[RegSrc1(w)], ShiftAmount(m, w, h);
    EmitIsDirect(m, w, Embed(h));
    ShiftShapes(m, w);
    ShiftLaneScales(op, x, n);
    EmbedRegs(h, RegSrc1(w));
    EmbedRegs(h, RegSrc2(w));
    assert Scales(op, x, n, BinLane(op, Def(x), Def(n)).val);
  }
}
