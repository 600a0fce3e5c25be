/** `generate` and the `build_ir` bodies (src/Instruction.cpp): the code emitted for one
    instruction, and a direct reading of what that code does to the CPU state. */
module Translator {
  import opened Words
  import opened GuestMemory
  import opened Isa
  import opened Decoder
  import opened Ir

  // ----- emitted code; `b` is the number of values defined before it -----

  function UpdatePC(b: nat): seq<Ir.Op> {
    [LoadPC, Bin(AddOp, Ref(b), Const(4)), StorePC(Ref(b + 1))]
  }

  function EmitLui(o: Operands, b: nat): seq<Ir.Op> {
    [StoreReg(o.rd, Const(o.imm))] + UpdatePC(b + 1)
  }

  function EmitAuipc(o: Operands, b: nat): seq<Ir.Op> {
    [LoadPC, Bin(AddOp, Const(o.imm), Ref(b)), StoreReg(o.rd, Ref(b + 1)), Bin(AddOp, Ref(b), Const(4)),
     StorePC(Ref(b + 3))]
  }

  function EmitJal(o: Operands, b: nat): seq<Ir.Op> {
    [LoadPC, Bin(AddOp, Const(4), Ref(b)), StoreReg(o.rd, Ref(b + 1)), Bin(AddOp, Const(o.imm), Ref(b)),
     StorePC(Ref(b + 3))]
  }

  function EmitJalr(o: Operands, b: nat): seq<Ir.Op> {
    [LoadReg(W32, o.rs1), LoadPC, Bin(AddOp, Ref(b + 1), Const(4)), StoreReg(o.rd, Ref(b + 2)),
     Bin(AddOp, Ref(b), Const(o.imm)), Bin(AndOp, Ref(b + 4), Const(0xFFFF_FFFE)), StorePC(Ref(b + 5))]
  }

  function EmitBranch(p: Pred, o: Operands, b: nat): seq<Ir.Op> {
    [LoadReg(W32, o.rs1), LoadReg(W32, o.rs2), LoadPC, ICmp(p, Ref(b), Ref(b + 1)),
     Bin(AddOp, Ref(b + 2), Const(o.imm)), Bin(AddOp, Ref(b + 2), Const(4)),
     Select(Ref(b + 3), Ref(b + 4), Ref(b + 5)), StorePC(Ref(b + 6))]
  }

  /** The extension of a 32-bit load is the identity, which the builder does not emit. */
  function EmitLoad(width: Width, signed: bool, o: Operands, b: nat): seq<Ir.Op> {
    if width.W32? then
      [LoadReg(W32, o.rs1), Bin(AddOp, Ref(b), Const(o.imm)), CallRead(width, Ref(b + 1)), StoreReg(o.rd, Ref(b + 2))]
      + UpdatePC(b + 4)
    else
      [LoadReg(W32, o.rs1), Bin(AddOp, Ref(b), Const(o.imm)), CallRead(width, Ref(b + 1)), Ext(signed, Ref(b + 2)),
       StoreReg(o.rd, Ref(b + 3))]
      + UpdatePC(b + 5)
  }

  function EmitStore(width: Width, o: Operands, b: nat): seq<Ir.Op> {
    [LoadReg(W32, o.rs1), LoadReg(width, o.rs2), Bin(AddOp, Ref(b), Const(o.imm)),
     CallWrite(width, Ref(b + 2), Ref(b + 1))]
    + UpdatePC(b + 4)
  }

  function EmitOpImm(op: BinOp, o: Operands, b: nat): seq<Ir.Op> {
    [LoadReg(W32, o.rs1), Bin(op, Ref(b), Const(o.imm)), StoreReg(o.rd, Ref(b + 1))] + UpdatePC(b + 3)
  }

  function EmitSetImm(p: Pred, o: Operands, b: nat): seq<Ir.Op> {
    [LoadReg(W32, o.rs1), ICmp(p, Ref(b), Const(o.imm)), Ext(false, Ref(b + 1)), StoreReg(o.rd, Ref(b + 2))]
    + UpdatePC(b + 4)
  }

  function EmitOp(op: BinOp, o: Operands, b: nat): seq<Ir.Op> {
    [LoadReg(W32, o.rs1), LoadReg(W32, o.rs2), Bin(op, Ref(b), Ref(b + 1)), StoreReg(o.rd, Ref(b + 2))]
    + UpdatePC(b + 4)
  }

  /** SLT and SLTU load their first source register twice. */
  function EmitSet(p: Pred, o: Operands, b: nat): seq<Ir.Op> {
    [LoadReg(W32, o.rs1), LoadReg(W32, o.rs1), ICmp(p, Ref(b), Ref(b + 1)), Ext(false, Ref(b + 2)),
     StoreReg(o.rd, Ref(b + 3))]
    + UpdatePC(b + 5)
  }

  /** The bodies of `build_ir` come in thirteen shapes. */
  datatype Shape =
    | Nothing
    | PcOnly
    | LuiShape
    | AuipcShape
    | JalShape
    | JalrShape
    | BranchShape(pred: Pred)
    | LoadShape(width: Width, signed: bool)
    | StoreShape(width: Width)
    | OpImmShape(op: BinOp)
    | SetImmShape(pred: Pred)
    | OpShape(op: BinOp)
    | SetShape(pred: Pred)

  /** The switch of `generate`. */
  function ShapeOf(m: Instr): Shape {
    match m
    case UNKNOWN => Nothing
    case LUI => LuiShape
    case AUIPC => AuipcShape
    case JAL => JalShape
    case JALR => JalrShape
    case BEQ => BranchShape(PredEq)
    case BNE => BranchShape(PredNe)
    case BLT => BranchShape(PredSlt)
    case BGE => BranchShape(PredSge)
    case BLTU => BranchShape(PredUlt)
    case BGEU => BranchShape(PredUge)
    case LB => LoadShape(W8, true)
    case LH => LoadShape(W16, true)
    case LW => LoadShape(W32, true)
    case LBU => LoadShape(W8, false)
    case LHU => LoadShape(W16, false)
    case SB => StoreShape(W8)
    case SH => StoreShape(W16)
    case SW => StoreShape(W32)
    case ADDI => OpImmShape(AddOp)
    case SLTI => SetImmShape(PredSlt)
    case SLTIU => SetImmShape(PredUlt)
    case XORI => OpImmShape(XorOp)
    case ORI => OpImmShape(OrOp)
    case ANDI => OpImmShape(AndOp)
    case SLLI => OpImmShape(ShlOp)
    case SRLI => OpImmShape(LShrOp)
    case SRAI => OpImmShape(AShrOp)
    case ADD => OpShape(AddOp)
    case SUB => OpShape(SubOp)
    case SLL => OpShape(ShlOp)
    case SLT => SetShape(PredSlt)
    case SLTU => SetShape(PredUlt)
    case XOR => OpShape(XorOp)
    case SRL => OpShape(LShrOp)
    case SRA => OpShape(AShrOp)
    case OR => OpShape(OrOp)
    case AND => OpShape(AndOp)
    case FENCE => PcOnly
    case FENCETSO => PcOnly
    case PAUSE => PcOnly
    case ECALL => Nothing
    case EBREAK => PcOnly
  }

  function EmitShape(s: Shape, o: Operands, b: nat): seq<Ir.Op> {
    match s
    case Nothing => []
    case PcOnly => UpdatePC(b)
    case LuiShape => EmitLui(o, b)
    case AuipcShape => EmitAuipc(o, b)
    case JalShape => EmitJal(o, b)
    case JalrShape => EmitJalr(o, b)
    case BranchShape(p) => EmitBranch(p, o, b)
    case LoadShape(width, signed) => EmitLoad(width, signed, o, b)
    case StoreShape(width) => EmitStore(width, o, b)
    case OpImmShape(op) => EmitOpImm(op, o, b)
    case SetImmShape(p) => EmitSetImm(p, o, b)
    case OpShape(op) => EmitOp(op, o, b)
    case SetShape(p) => EmitSet(p, o, b)
  }

  function Emit(m: Instr, w: InsnWord, b: nat): seq<Ir.Op> {
    EmitShape(ShapeOf(m), Extract(m, w), b)
  }

  // ----- the direct reading -----

  function Add4(m: Machine): Machine {
    m.(pc := BinLane(AddOp, m.pc, Def(4)))
  }

  function SetLane(m: Machine, r: Reg, l: Lane<Word>): Machine {
    m.(regs := m.regs[r := l])
  }

  function BitLane(b: Lane<bool>): Lane<Word> {
    if b.Poison? then Poison else Def(Flag(b.val))
  }

  function Address(m: Machine, o: Operands): Lane<Word> {
    BinLane(AddOp, m.regs[o.rs1], Def(o.imm))
  }

  function DirectBranch(p: Pred, o: Operands, m: Machine): Machine {
    m.(pc := SelectLane(CmpLane(p, m.regs[o.rs1], m.regs[o.rs2]),
                        BinLane(AddOp, m.pc, Def(o.imm)), BinLane(AddOp, m.pc, Def(4))))
  }

  function DirectLoad(width: Width, signed: bool, o: Operands, m: Machine): Effect {
    var a := Address(m, o);
    if a.Poison? then Undefined
    else
      match Read(m.mem, a.val, width)
      case None => Undefined
      case Some(v) => Done(Add4(SetLane(m, o.rd, Def(Extend(width, signed, v)))))
  }

  function DirectStore(width: Width, o: Operands, m: Machine): Effect {
    var a, v := Address(m, o), m.regs[o.rs2];
    if a.Poison? || v.Poison? then Undefined
    else
      match Write(m.mem, a.val, width, v.val % Modulus(width))
      case None => Undefined
      case Some(mem) => Done(Add4(m.(mem := mem)))
  }

  function DirectOpImm(op: BinOp, o: Operands, m: Machine): Effect {
    Done(Add4(SetLane(m, o.rd, BinLane(op, m.regs[o.rs1], Def(o.imm)))))
  }

  function DirectSetImm(p: Pred, o: Operands, m: Machine): Effect {
    Done(Add4(SetLane(m, o.rd, BitLane(CmpLane(p, m.regs[o.rs1], Def(o.imm))))))
  }

  function DirectOp(op: BinOp, o: Operands, m: Machine): Effect {
    Done(Add4(SetLane(m, o.rd, BinLane(op, m.regs[o.rs1], m.regs[o.rs2]))))
  }

  function DirectSet(p: Pred, o: Operands, m: Machine): Effect {
    Done(Add4(SetLane(m, o.rd, BitLane(CmpLane(p, m.regs[o.rs1], m.regs[o.rs1])))))
  }

  function DirectLui(o: Operands, m: Machine): Effect {
    Done(Add4(SetLane(m, o.rd, Def(o.imm))))
  }

  function DirectAuipc(o: Operands, m: Machine): Effect {
    Done(Add4(SetLane(m, o.rd, BinLane(AddOp, Def(o.imm), m.pc))))
  }

  function DirectJal(o: Operands, m: Machine): Effect {
    Done(SetLane(m, o.rd, BinLane(AddOp, m.pc, Def(4))).(pc := BinLane(AddOp, m.pc, Def(o.imm))))
  }

  function DirectJalr(o: Operands, m: Machine): Effect {
    Done(SetLane(m, o.rd, BinLane(AddOp, m.pc, Def(4))).(pc := BinLane(AndOp, Address(m, o), Def(0xFFFF_FFFE))))
  }

  /** One instruction as a transfer between registers, PC and memory, poison included. */
  function Direct(s: Shape, o: Operands, m: Machine): Effect {
    match s
    case Nothing => Done(m)
    case PcOnly => Done(Add4(m))
    case LuiShape => DirectLui(o, m)
    case AuipcShape => DirectAuipc(o, m)
    case JalShape => DirectJal(o, m)
    case JalrShape => DirectJalr(o, m)
    case BranchShape(p) => Done(DirectBranch(p, o, m))
    case LoadShape(width, signed) => DirectLoad(width, signed, o, m)
    case StoreShape(width) => DirectStore(width, o, m)
    case OpImmShape(op) => DirectOpImm(op, o, m)
    case SetImmShape(p) => DirectSetImm(p, o, m)
    case OpShape(op) => DirectOp(op, o, m)
    case SetShape(p) => DirectSet(p, o, m)
  }

  // ----- emitted code does what the direct reading says -----

  /** `body` followed by updatePC, given where the body ends. */
  lemma BodyThenUpdatePC(body: seq<Ir.Op>, m: Machine)
    ensures Call(body + UpdatePC(|body|), m) ==
      match Call(body, m)
      case Done(m') => Done(Add4(m'))
      case Undefined => Undefined
      case Malformed => Malformed
  {
    var b := |body|;
    RunConcat(body, UpdatePC(b), 0, [], m);
    RunGrowsEnv(body, 0, [], m);
    var o := Run(body, 0, [], m);
    if o.Next? {
      var e1 := o.env + [I32(o.m.pc)];
      var e2 := e1 + [I32(BinLane(AddOp, o.m.pc, Def(4)))];
      assert Run(UpdatePC(b), 0, o.env, o.m) == Run(UpdatePC(b), 1, e1, o.m);
      assert Run(UpdatePC(b), 1, e1, o.m) == Run(UpdatePC(b), 2, e2, o.m);
      assert Run(UpdatePC(b), 2, e2, o.m) == Run(UpdatePC(b), 3, e2 + [Void], Add4(o.m));
    }
  }

  lemma CallOp(op: BinOp, o: Operands, m: Machine)
    ensures Call(EmitOp(op, o, 0), m) == DirectOp(op, o, m)
  {
    var body := [LoadReg(W32, o.rs1), LoadReg(W32, o.rs2), Bin(op, Ref(0), Ref(1)), StoreReg(o.rd, Ref(2))];
    var x, y := m.regs[o.rs1], m.regs[o.rs2];
    var e1 := [] + [I32(x)];
    var e2 := e1 + [I32(y)];
    var e3 := e2 + [I32(BinLane(op, x, y))];
    assert Run(body, 0, [], m) == Run(body, 1, e1, m) == Run(body, 2, e2, m);
    assert Run(body, 2, e2, m) == Run(body, 3, e3, m);
    assert Run(body, 3, e3, m) == Run(body, 4, e3 + [Void], SetLane(m, o.rd, BinLane(op, x, y)));
    BodyThenUpdatePC(body, m);
  }

  lemma CallOpImm(op: BinOp, o: Operands, m: Machine)
    ensures Call(EmitOpImm(op, o, 0), m) == DirectOpImm(op, o, m)
  {
    var body := [LoadReg(W32, o.rs1), Bin(op, Ref(0), Const(o.imm)), StoreReg(o.rd, Ref(1))];
    var x := m.regs[o.rs1];
    var e1 := [] + [I32(x)];
    var e2 := e1 + [I32(BinLane(op, x, Def(o.imm)))];
    assert Run(body, 0, [], m) == Run(body, 1, e1, m) == Run(body, 2, e2, m);
    assert Run(body, 2, e2, m) == Run(body, 3, e2 + [Void], SetLane(m, o.rd, BinLane(op, x, Def(o.imm))));
    BodyThenUpdatePC(body, m);
  }

  lemma CallSetImm(p: Pred, o: Operands, m: Machine)
    ensures Call(EmitSetImm(p, o, 0), m) == DirectSetImm(p, o, m)
  {
    var body := [LoadReg(W32, o.rs1), ICmp(p, Ref(0), Const(o.imm)), Ext(false, Ref(1)), StoreReg(o.rd, Ref(2))];
    var x := m.regs[o.rs1];
    var bit := CmpLane(p, x, Def(o.imm));
    var e1 := [] + [I32(x)];
    var e2 := e1 + [I1(bit)];
    var e3 := e2 + [I32(BitLane(bit))];
    assert Run(body, 0, [], m) == Run(body, 1, e1, m) == Run(body, 2, e2, m);
    assert Run(body, 2, e2, m) == Run(body, 3, e3, m);
    assert Run(body, 3, e3, m) == Run(body, 4, e3 + [Void], SetLane(m, o.rd, BitLane(bit)));
    BodyThenUpdatePC(body, m);
  }

  lemma CallSet(p: Pred, o: Operands, m: Machine)
    ensures Call(EmitSet(p, o, 0), m) == DirectSet(p, o, m)
  {
    var body := [LoadReg(W32, o.rs1), LoadReg(W32, o.rs1), ICmp(p, Ref(0), Ref(1)), Ext(false, Ref(2)),
                 StoreReg(o.rd, Ref(3))];
    var x := m.regs[o.rs1];
    var bit := CmpLane(p, x, x);
    var e1 := [] + [I32(x)];
    var e2 := e1 + [I32(x)];
    var e3 := e2 + [I1(bit)];
    var e4 := e3 + [I32(BitLane(bit))];
    assert Run(body, 0, [], m) == Run(body, 1, e1, m) == Run(body, 2, e2, m);
    assert Run(body, 2, e2, m) == Run(body, 3, e3, m);
    assert Run(body, 3, e3, m) == Run(body, 4, e4, m);
    assert Run(body, 4, e4, m) == Run(body, 5, e4 + [Void], SetLane(m, o.rd, BitLane(bit)));
    BodyThenUpdatePC(body, m);
  }

  lemma CallLui(o: Operands, m: Machine)
    ensures Call(EmitLui(o, 0), m) == DirectLui(o, m)
  {
    var body := [StoreReg(o.rd, Const(o.imm))];
    assert Run(body, 0, [], m) == Run(body, 1, [] + [Void], SetLane(m, o.rd, Def(o.imm)));
    BodyThenUpdatePC(body, m);
  }

  lemma CallAuipc(o: Operands, m: Machine)
    ensures Call(EmitAuipc(o, 0), m) == DirectAuipc(o, m)
  {
    var code := EmitAuipc(o, 0);
    var sum, next := BinLane(AddOp, Def(o.imm), m.pc), BinLane(AddOp, m.pc, Def(4));
    var e1 := [] + [I32(m.pc)];
    var e2 := e1 + [I32(sum)];
    var e3 := e2 + [Void];
    var e4 := e3 + [I32(next)];
    var m' := SetLane(m, o.rd, sum);
    assert Run(code, 0, [], m) == Run(code, 1, e1, m) == Run(code, 2, e2, m);
    assert Run(code, 2, e2, m) == Run(code, 3, e3, m') == Run(code, 4, e4, m');
    assert Run(code, 4, e4, m') == Run(code, 5, e4 + [Void], m'.(pc := next));
  }

  lemma CallJal(o: Operands, m: Machine)
    ensures Call(EmitJal(o, 0), m) == DirectJal(o, m)
  {
    var code := EmitJal(o, 0);
    var link, target := BinLane(AddOp, Def(4), m.pc), BinLane(AddOp, Def(o.imm), m.pc);
    var e1 := [] + [I32(m.pc)];
    var e2 := e1 + [I32(link)];
    var e3 := e2 + [Void];
    var e4 := e3 + [I32(target)];
    var m' := SetLane(m, o.rd, link);
    assert Run(code, 0, [], m) == Run(code, 1, e1, m) == Run(code, 2, e2, m);
    assert Run(code, 2, e2, m) == Run(code, 3, e3, m') == Run(code, 4, e4, m');
    assert Run(code, 4, e4, m') == Run(code, 5, e4 + [Void], m'.(pc := target));
  }

  lemma RunJalrHead(code: seq<Ir.Op>, o: Operands, m: Machine)
    requires |code| >= 4 && code[0] == LoadReg(W32, o.rs1) && code[1] == LoadPC
    requires code[2] == Bin(AddOp, Ref(1), Const(4)) && code[3] == StoreReg(o.rd, Ref(2))
    ensures var link := BinLane(AddOp, m.pc, Def(4));
      Run(code, 0, [], m) ==
      Run(code, 4, [] + [I32(m.regs[o.rs1])] + [I32(m.pc)] + [I32(link)] + [Void], SetLane(m, o.rd, link))
  {
    var e1 := [] + [I32(m.regs[o.rs1])];
    var e2 := e1 + [I32(m.pc)];
    var link := BinLane(AddOp, m.pc, Def(4));
    RunLoadReg(code, 0, [], m, W32, o.rs1);
    RunLoadPC(code, 1, e1, m);
    RunBin(code, 2, e2, m, AddOp, Ref(1), Const(4), m.pc, Def(4));
    RunStoreReg(code, 3, e2 + [I32(link)], m, o.rd, Ref(2), link);
  }

  lemma RunJalrTail(code: seq<Ir.Op>, e4: seq<Val>, x: Lane<Word>, imm: Word, m: Machine)
    requires |code| == 7 && |e4| == 4 && e4[0] == I32(x)
    requires code[4] == Bin(AddOp, Ref(0), Const(imm)) && code[5] == Bin(AndOp, Ref(4), Const(0xFFFF_FFFE))
    requires code[6] == StorePC(Ref(5))
    ensures EffectOf(Run(code, 4, e4, m)) ==
      Done(m.(pc := BinLane(AndOp, BinLane(AddOp, x, Def(imm)), Def(0xFFFF_FFFE))))
  {
    var sum := BinLane(AddOp, x, Def(imm));
    var target := BinLane(AndOp, sum, Def(0xFFFF_FFFE));
    var e5 := e4 + [I32(sum)];
    RunBin(code, 4, e4, m, AddOp, Ref(0), Const(imm), x, Def(imm));
    RunBin(code, 5, e5, m, AndOp, Ref(4), Const(0xFFFF_FFFE), sum, Def(0xFFFF_FFFE));
    RunStorePC(code, 6, e5 + [I32(target)], m, Ref(5), target);
  }

  lemma CallJalr(o: Operands, m: Machine)
    ensures Call(EmitJalr(o, 0), m) == DirectJalr(o, m)
  {
    var link := BinLane(AddOp, m.pc, Def(4));
    RunJalrHead(EmitJalr(o, 0), o, m);
    RunJalrTail(EmitJalr(o, 0), [] + [I32(m.regs[o.rs1])] + [I32(m.pc)] + [I32(link)] + [Void],
                m.regs[o.rs1], o.imm, SetLane(m, o.rd, link));
  }

  /** The four values a branch computes first. */
  function BranchValues(p: Pred, o: Operands, m: Machine): seq<Val> {
    var x, y := m.regs[o.rs1], m.regs[o.rs2];
    [] + [I32(x)] + [I32(y)] + [I32(m.pc)] + [I1(CmpLane(p, x, y))]
  }

  lemma RunBranchHead(code: seq<Ir.Op>, p: Pred, o: Operands, m: Machine)
    requires |code| >= 4 && code[0] == LoadReg(W32, o.rs1) && code[1] == LoadReg(W32, o.rs2) && code[2] == LoadPC
    requires code[3] == ICmp(p, Ref(0), Ref(1))
    ensures Run(code, 0, [], m) == Run(code, 4, BranchValues(p, o, m), m)
  {
    var x, y := m.regs[o.rs1], m.regs[o.rs2];
    var e1 := [] + [I32(x)];
    var e2 := e1 + [I32(y)];
    RunLoadReg(code, 0, [], m, W32, o.rs1);
    RunLoadReg(code, 1, e1, m, W32, o.rs2);
    RunLoadPC(code, 2, e2, m);
    RunICmp(code, 3, e2 + [I32(m.pc)], m, p, Ref(0), Ref(1), x, y);
  }

  lemma RunBranchTail(code: seq<Ir.Op>, e4: seq<Val>, bit: Lane<bool>, imm: Word, m: Machine)
    requires |code| == 8 && |e4| == 4 && e4[2] == I32(m.pc) && e4[3] == I1(bit)
    requires code[4] == Bin(AddOp, Ref(2), Const(imm)) && code[5] == Bin(AddOp, Ref(2), Const(4))
    requires code[6] == Select(Ref(3), Ref(4), Ref(5)) && code[7] == StorePC(Ref(6))
    ensures EffectOf(Run(code, 4, e4, m)) ==
      Done(m.(pc := SelectLane(bit, BinLane(AddOp, m.pc, Def(imm)), BinLane(AddOp, m.pc, Def(4)))))
  {
    var far, near := BinLane(AddOp, m.pc, Def(imm)), BinLane(AddOp, m.pc, Def(4));
    var next := SelectLane(bit, far, near);
    var e5 := e4 + [I32(far)];
    var e6 := e5 + [I32(near)];
    RunBin(code, 4, e4, m, AddOp, Ref(2), Const(imm), m.pc, Def(imm));
    RunBin(code, 5, e5, m, AddOp, Ref(2), Const(4), m.pc, Def(4));
    RunSelect(code, 6, e6, m, Ref(3), Ref(4), Ref(5), bit, far, near);
    RunStorePC(code, 7, e6 + [I32(next)], m, Ref(6), next);
  }

  lemma CallBranch(p: Pred, o: Operands, m: Machine)
    ensures Call(EmitBranch(p, o, 0), m) == Done(DirectBranch(p, o, m))
  {
    RunBranchHead(EmitBranch(p, o, 0), p, o, m);
    RunBranchTail(EmitBranch(p, o, 0), BranchValues(p, o, m), CmpLane(p, m.regs[o.rs1], m.regs[o.rs2]), o.imm, m);
  }

  /** A load up to and including the call. */
  lemma RunLoad(body: seq<Ir.Op>, width: Width, o: Operands, m: Machine)
    requires |body| >= 3
    requires body[..3] == [LoadReg(W32, o.rs1), Bin(AddOp, Ref(0), Const(o.imm)), CallRead(width, Ref(1))]
    ensures var a := Address(m, o);
      Run(body, 0, [], m) ==
        if a.Poison? || Read(m.mem, a.val, width).None? then UB
        else Run(body, 3, [] + [I32(m.regs[o.rs1])] + [I32(a)] + [Sized(width, Read(m.mem, a.val, width).value)], m)
  {
    var e1 := [] + [I32(m.regs[o.rs1])];
    var e2 := e1 + [I32(Address(m, o))];
    assert body[0] == body[..3][0] && body[1] == body[..3][1] && body[2] == body[..3][2];
    RunLoadReg(body, 0, [], m, W32, o.rs1);
    RunBin(body, 1, e1, m, AddOp, Ref(0), Const(o.imm), m.regs[o.rs1], Def(o.imm));
    RunRead(body, 2, e2, m, width, Ref(1), Address(m, o));
  }

  lemma ExtendedIsExtend(width: Width, signed: bool, v: Word)
    requires !width.W32? && v < Modulus(width)
    ensures Extended(signed, Sized(width, v)) == I32(Def(Extend(width, signed, v)))
  {
  }

  lemma CallNarrowLoad(width: Width, signed: bool, o: Operands, m: Machine)
    requires !width.W32?
    ensures Call(EmitLoad(width, signed, o, 0), m) == DirectLoad(width, signed, o, m)
  {
    var body := [LoadReg(W32, o.rs1), Bin(AddOp, Ref(0), Const(o.imm)), CallRead(width, Ref(1)), Ext(signed, Ref(2)),
                 StoreReg(o.rd, Ref(3))];
    hide Run, Step, Read, UpdatePC, Address, Extended, Sized, Extend;
    BodyThenUpdatePC(body, m);
    RunLoad(body, width, o, m);
    var a := Address(m, o);
    if a.Def? && Read(m.mem, a.val, width).Some? {
      var v := Read(m.mem, a.val, width).value;
      var l := Def(Extend(width, signed, v));
      var e3 := [] + [I32(m.regs[o.rs1])] + [I32(a)] + [Sized(width, v)];
      ExtendedIsExtend(width, signed, v);
      RunExt(body, 3, e3, m, signed, Ref(2), l);
      RunStoreReg(body, 4, e3 + [I32(l)], m, o.rd, Ref(3), l);
      RunEnd(body, e3 + [I32(l)] + [Void], SetLane(m, o.rd, l));
    }
  }

  lemma CallWordLoad(signed: bool, o: Operands, m: Machine)
    ensures Call(EmitLoad(W32, signed, o, 0), m) == DirectLoad(W32, signed, o, m)
  {
    var body := [LoadReg(W32, o.rs1), Bin(AddOp, Ref(0), Const(o.imm)), CallRead(W32, Ref(1)), StoreReg(o.rd, Ref(2))];
    hide Run, Step, Read, UpdatePC, Address;
    BodyThenUpdatePC(body, m);
    RunLoad(body, W32, o, m);
    var a := Address(m, o);
    if a.Def? && Read(m.mem, a.val, W32).Some? {
      var v := Read(m.mem, a.val, W32).value;
      var e3 := [] + [I32(m.regs[o.rs1])] + [I32(a)] + [Sized(W32, v)];
      RunStoreReg(body, 3, e3, m, o.rd, Ref(2), Def(v));
      RunEnd(body, e3 + [Void], SetLane(m, o.rd, Def(v)));
    }
  }

  lemma CallLoad(width: Width, signed: bool, o: Operands, m: Machine)
    ensures Call(EmitLoad(width, signed, o, 0), m) == DirectLoad(width, signed, o, m)
  {
    if width.W32? {
      CallWordLoad(signed, o, m);
    } else {
      CallNarrowLoad(width, signed, o, m);
    }
  }

  /** The low bytes of a register, as a store passes them on. */
  function LowBytes(width: Width, l: Lane<Word>): Lane<Word> {
    if l.Poison? then Poison else Def(l.val % Modulus(width))
  }

  lemma NarrowContents(width: Width, l: Lane<Word>)
    ensures Contents(width, Narrow(width, l)) == Some(LowBytes(width, l))
  {
  }

  /** The three values a store computes first. */
  function StoreValues(width: Width, o: Operands, m: Machine): seq<Val> {
    [] + [I32(m.regs[o.rs1])] + [Narrow(width, m.regs[o.rs2])] + [I32(Address(m, o))]
  }

  lemma RunStoreHead(body: seq<Ir.Op>, width: Width, o: Operands, m: Machine)
    requires |body| >= 3 && body[0] == LoadReg(W32, o.rs1) && body[1] == LoadReg(width, o.rs2)
    requires body[2] == Bin(AddOp, Ref(0), Const(o.imm))
    ensures Run(body, 0, [], m) == Run(body, 3, StoreValues(width, o, m), m)
  {
    hide Run, Step, Narrow, BinLane;
    var e1 := [] + [I32(m.regs[o.rs1])];
    var e2 := e1 + [Narrow(width, m.regs[o.rs2])];
    RunLoadReg(body, 0, [], m, W32, o.rs1);
    NarrowWord(m.regs[o.rs1]);
    RunLoadReg(body, 1, e1, m, width, o.rs2);
    RunBin(body, 2, e2, m, AddOp, Ref(0), Const(o.imm), m.regs[o.rs1], Def(o.imm));
  }

  lemma NarrowWord(l: Lane<Word>)
    ensures Narrow(W32, l) == I32(l)
  {
  }

  lemma CallStoreBody(body: seq<Ir.Op>, width: Width, o: Operands, m: Machine)
    requires |body| == 4 && body[0] == LoadReg(W32, o.rs1) && body[1] == LoadReg(width, o.rs2)
    requires body[2] == Bin(AddOp, Ref(0), Const(o.imm)) && body[3] == CallWrite(width, Ref(2), Ref(1))
    ensures var a, l := Address(m, o), LowBytes(width, m.regs[o.rs2]);
      Call(body, m) ==
        if a.Poison? || l.Poison? || Write(m.mem, a.val, width, l.val).None? then Undefined
        else Done(m.(mem := Write(m.mem, a.val, width, l.val).value))
  {
    hide Run, Step, Narrow, Write, Contents, LowBytes, Address;
    var a, l, e3 := Address(m, o), LowBytes(width, m.regs[o.rs2]), StoreValues(width, o, m);
    RunStoreHead(body, width, o, m);
    NarrowContents(width, m.regs[o.rs2]);
    RunWrite(body, 3, e3, m, width, Ref(2), Ref(1), a, l);
    if a.Def? && l.Def? && Write(m.mem, a.val, width, l.val).Some? {
      RunEnd(body, e3 + [Void], m.(mem := Write(m.mem, a.val, width, l.val).value));
    }
  }

  lemma CallStore(width: Width, o: Operands, m: Machine)
    ensures Call(EmitStore(width, o, 0), m) == DirectStore(width, o, m)
  {
    hide Call, Write, UpdatePC, Address;
    var body := [LoadReg(W32, o.rs1), LoadReg(width, o.rs2), Bin(AddOp, Ref(0), Const(o.imm)),
                 CallWrite(width, Ref(2), Ref(1))];
    BodyThenUpdatePC(body, m);
    CallStoreBody(body, width, o, m);
  }

  /** Compilation is correct, for every shape, operands and state: the emitted code does exactly
      what the direct reading says. */
  lemma CallIsDirect(s: Shape, o: Operands, m: Machine)
    ensures Call(EmitShape(s, o, 0), m) == Direct(s, o, m)
  {
    match s
    case Nothing =>
    case PcOnly =>
      BodyThenUpdatePC([], m);
      assert [] + UpdatePC(0) == UpdatePC(0);
    case LuiShape => CallLui(o, m);
    case AuipcShape => CallAuipc(o, m);
    case JalShape => CallJal(o, m);
    case JalrShape => CallJalr(o, m);
    case BranchShape(p) => CallBranch(p, o, m);
    case LoadShape(width, signed) => CallLoad(width, signed, o, m);
    case StoreShape(width) => CallStore(width, o, m);
    case OpImmShape(op) => CallOpImm(op, o, m);
    case SetImmShape(p) => CallSetImm(p, o, m);
    case OpShape(op) => CallOp(op, o, m);
    case SetShape(p) => CallSet(p, o, m);
  }

  // ----- placement and typing -----

  lemma RenumberConcat(a: seq<Ir.Op>, b: seq<Ir.Op>, c: seq<Ir.Op>, d: seq<Ir.Op>, k: nat)
    requires IsRenumbered(a, b, k) && IsRenumbered(c, d, k)
    ensures IsRenumbered(a + c, b + d, k)
  {
  }

  lemma RenumberBody(a: seq<Ir.Op>, b: seq<Ir.Op>, n: nat, k: nat)
    requires IsRenumbered(a, b, k)
    ensures IsRenumbered(a + UpdatePC(n), b + UpdatePC(k + n), k)
  {
    RenumberConcat(a, b, UpdatePC(n), UpdatePC(k + n), k);
  }

  lemma RenumberLoad(width: Width, signed: bool, o: Operands, b: nat)
    ensures IsRenumbered(EmitLoad(width, signed, o, 0), EmitLoad(width, signed, o, b), b)
  {
    if width.W32? {
      RenumberBody([LoadReg(W32, o.rs1), Bin(AddOp, Ref(0), Const(o.imm)), CallRead(width, Ref(1)),
                    StoreReg(o.rd, Ref(2))],
                   [LoadReg(W32, o.rs1), Bin(AddOp, Ref(b), Const(o.imm)), CallRead(width, Ref(b + 1)),
                    StoreReg(o.rd, Ref(b + 2))],
                   4, b);
    } else {
      RenumberBody([LoadReg(W32, o.rs1), Bin(AddOp, Ref(0), Const(o.imm)), CallRead(width, Ref(1)), Ext(signed, Ref(2)),
                    StoreReg(o.rd, Ref(3))],
                   [LoadReg(W32, o.rs1), Bin(AddOp, Ref(b), Const(o.imm)), CallRead(width, Ref(b + 1)),
                    Ext(signed, Ref(b + 2)), StoreReg(o.rd, Ref(b + 3))],
                   5, b);
    }
  }

  lemma RenumberStore(width: Width, o: Operands, b: nat)
    ensures IsRenumbered(EmitStore(width, o, 0), EmitStore(width, o, b), b)
  {
  }

  lemma RenumberBranch(p: Pred, o: Operands, b: nat)
    ensures IsRenumbered(EmitBranch(p, o, 0), EmitBranch(p, o, b), b)
  {
  }

  lemma RenumberImmediate(op: BinOp, p: Pred, o: Operands, b: nat)
    ensures IsRenumbered(EmitOpImm(op, o, 0), EmitOpImm(op, o, b), b)
    ensures IsRenumbered(EmitSetImm(p, o, 0), EmitSetImm(p, o, b), b)
  {
  }

  lemma RenumberRegister(op: BinOp, p: Pred, o: Operands, b: nat)
    ensures IsRenumbered(EmitOp(op, o, 0), EmitOp(op, o, b), b)
    ensures IsRenumbered(EmitSet(p, o, 0), EmitSet(p, o, b), b)
  {
  }

  lemma RenumberJumps(o: Operands, b: nat)
    ensures IsRenumbered(EmitLui(o, 0), EmitLui(o, b), b)
    ensures IsRenumbered(EmitAuipc(o, 0), EmitAuipc(o, b), b)
    ensures IsRenumbered(EmitJal(o, 0), EmitJal(o, b), b)
    ensures IsRenumbered(EmitJalr(o, 0), EmitJalr(o, b), b)
  {
  }

  /** Where in a function an instruction is emitted only renumbers its code. */
  lemma EmitIsRenumbered(s: Shape, o: Operands, b: nat)
    ensures IsRenumbered(EmitShape(s, o, 0), EmitShape(s, o, b), b)
  {
    match s
    case BranchShape(p) => RenumberBranch(p, o, b);
    case LoadShape(width, signed) => RenumberLoad(width, signed, o, b);
    case StoreShape(width) => RenumberStore(width, o, b);
    case OpImmShape(op) => RenumberImmediate(op, PredEq, o, b);
    case SetImmShape(p) => RenumberImmediate(AddOp, p, o, b);
    case OpShape(op) => RenumberRegister(op, PredEq, o, b);
    case SetShape(p) => RenumberRegister(AddOp, p, o, b);
    case Nothing =>
    case PcOnly =>
    case _ => RenumberJumps(o, b);
  }

  /** The word of PAUSE, for which `decode` has a branch it never takes, gets the code of FENCE,
      which is the code PAUSE would have had. */
  lemma PauseIsTranslatedAsFence(w: InsnWord, b: nat)
    requires Value(w) == 0x0100_000F
    ensures Decode(w) == FENCE
    ensures Emit(Decode(w), w, b) == Emit(PAUSE, w, b)
  {
    hide Extract, Emit, Decode;
    PauseDecodes(w);
    SameCode(w, b);
  }

  lemma SameCode(w: InsnWord, b: nat)
    ensures Emit(FENCE, w, b) == Emit(PAUSE, w, b)
  {
  }

  lemma PauseDecodes(w: InsnWord)
    requires Value(w) == 0x0100_000F
    ensures Decode(w) == FENCE
  {
    var p := InsnWord(0x0F, 0, 0, 0, 0, 0, 8, 0, 0);
    assert Value(p) == 0x0100_000F;
    ValueIsUnique(w, p);
  }
}
