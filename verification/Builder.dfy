/** The instruction builder that `build_ir` appends to, and the bodies of `build_ir` and `generate`
    (src/Instruction.cpp) as calls on it, one method for each shape of body. */
module Builder {
  import opened GuestMemory
  import opened Isa
  import opened Decoder
  import opened Ir
  import opened Translator

  class IRBuilder {
    /** The operations appended so far. */
    var ops: seq<Ir.Op>

    constructor ()
      ensures ops == []
    {
      ops := [];
    }

    method Append(op: Ir.Op) returns (v: Operand)
      modifies this
      ensures ops == old(ops) + [op] && v == Ref(|old(ops)|)
    {
      v := Ref(|ops|);
      ops := ops + [op];
    }

    /** Extension to 32 bits appends nothing for a value that already has them. */
    method CreateExt(width: Width, signed: bool, v: Operand) returns (r: Operand)
      modifies this
      ensures width.W32? ==> ops == old(ops) && r == v
      ensures !width.W32? ==> ops == old(ops) + [Ext(signed, v)] && r == Ref(|old(ops)|)
    {
      if width.W32? {
        return v;
      }
      r := Append(Ext(signed, v));
    }

    method UpdatePC()
      modifies this
      ensures ops == old(ops) + Translator.UpdatePC(|old(ops)|)
    {
      var pc := Append(LoadPC);
      var next := Append(Bin(AddOp, pc, Const(4)));
      var _ := Append(StorePC(next));
    }

    method BuildLui(o: Operands)
      modifies this
      ensures ops == old(ops) + EmitLui(o, |old(ops)|)
    {
      var _ := Append(StoreReg(o.rd, Const(o.imm)));
      UpdatePC();
    }

    method BuildAuipc(o: Operands)
      modifies this
      ensures ops == old(ops) + EmitAuipc(o, |old(ops)|)
    {
      var pc := Append(LoadPC);
      var sum := Append(Bin(AddOp, Const(o.imm), pc));
      var _ := Append(StoreReg(o.rd, sum));
      var next := Append(Bin(AddOp, pc, Const(4)));
      var _ := Append(StorePC(next));
    }

    method BuildJal(o: Operands)
      modifies this
      ensures ops == old(ops) + EmitJal(o, |old(ops)|)
    {
      var pc := Append(LoadPC);
      var link := Append(Bin(AddOp, Const(4), pc));
      var _ := Append(StoreReg(o.rd, link));
      var target := Append(Bin(AddOp, Const(o.imm), pc));
      var _ := Append(StorePC(target));
    }

    /** The base register is loaded before the link is stored, so rd may be rs1. */
    method BuildJalr(o: Operands)
      modifies this
      ensures ops == old(ops) + EmitJalr(o, |old(ops)|)
    {
      var base := Append(LoadReg(W32, o.rs1));
      var pc := Append(LoadPC);
      var link := Append(Bin(AddOp, pc, Const(4)));
      var _ := Append(StoreReg(o.rd, link));
      var sum := Append(Bin(AddOp, base, Const(o.imm)));
      var target := Append(Bin(AndOp, sum, Const(0xFFFF_FFFE)));
      var _ := Append(StorePC(target));
    }

    method BuildBranch(p: Pred, o: Operands)
      modifies this
      ensures ops == old(ops) + EmitBranch(p, o, |old(ops)|)
    {
      var x := Append(LoadReg(W32, o.rs1));
      var y := Append(LoadReg(W32, o.rs2));
      var pc := Append(LoadPC);
      var taken := Append(ICmp(p, x, y));
      var target := Append(Bin(AddOp, pc, Const(o.imm)));
      var next := Append(Bin(AddOp, pc, Const(4)));
      var chosen := Append(Select(taken, target, next));
      var _ := Append(StorePC(chosen));
    }

    method BuildLoad(width: Width, signed: bool, o: Operands)
      modifies this
      ensures ops == old(ops) + EmitLoad(width, signed, o, |old(ops)|)
    {
      var base := Append(LoadReg(W32, o.rs1));
      var address := Append(Bin(AddOp, base, Const(o.imm)));
      var read := Append(CallRead(width, address));
      var v := CreateExt(width, signed, read);
      var _ := Append(StoreReg(o.rd, v));
      UpdatePC();
    }

    method BuildStore(width: Width, o: Operands)
      modifies this
      ensures ops == old(ops) + EmitStore(width, o, |old(ops)|)
    {
      var base := Append(LoadReg(W32, o.rs1));
      var v := Append(LoadReg(width, o.rs2));
      var address := Append(Bin(AddOp, base, Const(o.imm)));
      var _ := Append(CallWrite(width, address, v));
      UpdatePC();
    }

    method BuildOpImm(op: BinOp, o: Operands)
      modifies this
      ensures ops == old(ops) + EmitOpImm(op, o, |old(ops)|)
    {
      var x := Append(LoadReg(W32, o.rs1));
      var r := Append(Bin(op, x, Const(o.imm)));
      var _ := Append(StoreReg(o.rd, r));
      UpdatePC();
    }

    method BuildSetImm(p: Pred, o: Operands)
      modifies this
      ensures ops == old(ops) + EmitSetImm(p, o, |old(ops)|)
    {
      var x := Append(LoadReg(W32, o.rs1));
      var bit := Append(ICmp(p, x, Const(o.imm)));
      var r := Append(Ext(false, bit));
      var _ := Append(StoreReg(o.rd, r));
      UpdatePC();
    }

    method BuildOp(op: BinOp, o: Operands)
      modifies this
      ensures ops == old(ops) + EmitOp(op, o, |old(ops)|)
    {
      var x := Append(LoadReg(W32, o.rs1));
      var y := Append(LoadReg(W32, o.rs2));
      var r := Append(Bin(op, x, y));
      var _ := Append(StoreReg(o.rd, r));
      UpdatePC();
    }

    /** SLT and SLTU: both operands come from rs1. */
    method BuildSet(p: Pred, o: Operands)
      modifies this
      ensures ops == old(ops) + EmitSet(p, o, |old(ops)|)
    {
      var x := Append(LoadReg(W32, o.rs1));
      var y := Append(LoadReg(W32, o.rs1));
      var bit := Append(ICmp(p, x, y));
      var r := Append(Ext(false, bit));
      var _ := Append(StoreReg(o.rd, r));
      UpdatePC();
    }

    /** `generate`: appends the code of one instruction, and touches nothing else. */
    method Generate(m: Instr, w: InsnWord)
      modifies this
      ensures ops == old(ops) + Emit(m, w, |old(ops)|)
    {
      hide Extract, ShapeOf, EmitLui, EmitAuipc, EmitJal, EmitJalr, EmitBranch, EmitLoad, EmitStore, EmitOpImm,
        EmitSetImm, EmitOp, EmitSet, Translator.UpdatePC;
      var o := Extract(m, w);
      match ShapeOf(m) {
        case Nothing =>
        case PcOnly => UpdatePC();
        case LuiShape => BuildLui(o);
        case AuipcShape => BuildAuipc(o);
        case JalShape => BuildJal(o);
        case JalrShape => BuildJalr(o);
        case BranchShape(p) => BuildBranch(p, o);
        case LoadShape(width, signed) => BuildLoad(width, signed, o);
        case StoreShape(width) => BuildStore(width, o);
        case OpImmShape(op) => BuildOpImm(op, o);
        case SetImmShape(p) => BuildSetImm(p, o);
        case OpShape(op) => BuildOp(op, o);
        case SetShape(p) => BuildSet(p, o);
      }
    }
  }
}
