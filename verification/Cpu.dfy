/** The CPU state (include/dbtranslator/CPU.h) and compiled code at work on it: registers and PC are
    updated in place, and so is guest memory, through the implementation the code is linked with. */
module Cpu {
  import opened Words
  import opened GuestMemory
  import opened MemoryImpl
  import opened Ir

  class CPUState {
    var registers: LaneRegs
    var pc: Lane<Word>
    const manager: MemoryManager

    constructor (registers: LaneRegs, pc: Lane<Word>, manager: MemoryManager)
      ensures this.registers == registers && this.pc == pc && this.manager == manager
    {
      this.registers, this.pc, this.manager := registers, pc, manager;
    }

    ghost predicate Valid()
      reads this, manager, manager.segmentData, manager.segmentData[..], manager.Buffers()
    {
      manager.Valid()
    }

    /** The state as the emitted code sees it. */
    ghost function View(): Machine
      requires Valid()
      reads this, manager, manager.segmentData, manager.segmentData[..], manager.Buffers()
    {
      Machine(registers, pc, manager.View())
    }

    /** The memory calls of compiled code: undefined for poison and where an assume is false. */
    method CallReadFunction(width: Width, a: Lane<Word>, env: seq<Val>) returns (r: Option<seq<Val>>)
      requires Valid()
      ensures r == match ReadCall(width, a, env, View())
                   case Next(env', _) => Some(env')
                   case UB => None
                   case IllFormed => None
      ensures ReadCall(width, a, env, View()).Next? ==> ReadCall(width, a, env, View()).m == View()
    {
      if a.Poison? {
        return None;
      }
      var v := manager.ReadAssuming(width, a.val);
      if v.None? {
        return None;
      }
      return Some(env + [Sized(width, v.value)]);
    }

    method CallWriteFunction(width: Width, a: Lane<Word>, v: Lane<Word>, env: seq<Val>) returns (r: Option<seq<Val>>)
      requires Valid()
      modifies manager.Buffers()
      ensures Valid() && manager.Buffers() == old(manager.Buffers())
      ensures var o := WriteCall(width, a, v, env, old(View()));
        if o.Next? then r == Some(o.env) && View() == o.m else r.None?
    {
      if a.Poison? || v.Poison? {
        return None;
      }
      var ok := manager.WriteAssuming(width, a.val, v.val);
      if !ok {
        return None;
      }
      return Some(env + [Void]);
    }

    /** One operation of compiled code, in place; nothing if it is undefined or ill-formed. */
    method Perform(op: Op, env: seq<Val>) returns (r: Option<seq<Val>>)
      requires Valid()
      modifies this, manager.Buffers()
      ensures Valid() && manager.Buffers() == old(manager.Buffers())
      ensures var o := Step(op, env, old(View()));
        if o.Next? then r == Some(o.env) && View() == o.m else r.None?
    {
      hide ReadCall, WriteCall, BinLane, CmpLane, Extended;
      r := None;
      match op {
        case LoadReg(width, i) =>
          if i < 32 {
            r := Some(env + [Narrow(width, registers[i])]);
          }
        case StoreReg(i, v) =>
          var x := Get(env, v);
          if x.I32? && i < 32 {
            registers := registers[i := x.word];
            r := Some(env + [Void]);
          }
        case LoadPC =>
          r := Some(env + [I32(pc)]);
        case StorePC(v) =>
          var x := Get(env, v);
          if x.I32? {
            pc := x.word;
            r := Some(env + [Void]);
          }
        case Bin(b, x, y) =>
          var v, w := Get(env, x), Get(env, y);
          if v.I32? && w.I32? {
            r := Some(env + [I32(BinLane(b, v.word, w.word))]);
          }
        case ICmp(p, x, y) =>
          var v, w := Get(env, x), Get(env, y);
          if v.I32? && w.I32? {
            r := Some(env + [I1(CmpLane(p, v.word, w.word))]);
          }
        case Select(c, x, y) =>
          var b, v, w := Get(env, c), Get(env, x), Get(env, y);
          if b.I1? && v.I32? && w.I32? {
            r := Some(env + [I32(SelectLane(b.bit, v.word, w.word))]);
          }
        case Ext(signed, v) =>
          var x := Extended(signed, Get(env, v));
          if x.I32? {
            r := Some(env + [x]);
          }
        case CallRead(width, a) =>
          var x := Get(env, a);
          if x.I32? {
            r := CallReadFunction(width, x.word, env);
          }
        case CallWrite(width, a, v) =>
          var x, y := Get(env, a), Contents(width, Get(env, v));
          if x.I32? && y.Some? {
            r := CallWriteFunction(width, x.word, y.value, env);
          }
      }
    }

    /** A call of compiled code with this state: it is defined exactly when `Ir.Call` is, and then
        leaves the state that `Ir.Call` gives. */
    method Execute(code: seq<Op>) returns (ok: bool)
      requires Valid()
      modifies this, manager.Buffers()
      ensures Valid() && manager.Buffers() == old(manager.Buffers())
      ensures ok <==> Call(code, old(View())).Done?
      ensures ok ==> View() == Call(code, old(View())).m
    {
      hide Step;
      var env: seq<Val> := [];
      var i := 0;
      while i < |code|
        invariant 0 <= i <= |code| && Valid() && manager.Buffers() == old(manager.Buffers())
        invariant Run(code, 0, [], old(View())) == Run(code, i, env, View())
      {
        var r := Perform(code[i], env);
        if r.None? {
          return false;
        }
        env := r.value;
        i := i + 1;
      }
      return true;
    }
  }
}
