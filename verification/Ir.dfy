/** The straight-line code that `build_ir` emits: the fragment of LLVM IR it uses, with an
    evaluator that makes poison and undefined behaviour explicit. The i-th operation of a
    function defines value i (`Void` if it returns nothing). Addresses inside the CPU state are
    part of the operations that use them. */
module Ir {
  import opened Words
  import opened GuestMemory

  /** A value of type T, or poison. */
  datatype Lane<+T> = Poison | Def(val: T)

  datatype Val =
    | I1(bit: Lane<bool>)
    | I8(byte: Lane<Byte>)
    | I16(half: Lane<Half>)
    | I32(word: Lane<Word>)
    | Void

  datatype Operand = Const(c: Word) | Ref(id: nat)

  datatype BinOp = AddOp | SubOp | AndOp | OrOp | XorOp | ShlOp | LShrOp | AShrOp
  datatype Pred = PredEq | PredNe | PredSlt | PredSge | PredUlt | PredUge

  datatype Op =
    | LoadReg(width: Width, reg: nat)
    | StoreReg(reg: nat, v: Operand)
    | LoadPC
    | StorePC(v: Operand)
    | Bin(op: BinOp, x: Operand, y: Operand)
    | ICmp(pred: Pred, x: Operand, y: Operand)
    | Select(c: Operand, x: Operand, y: Operand)
    | Ext(signed: bool, v: Operand)
    | CallRead(width: Width, addr: Operand)
    | CallWrite(width: Width, addr: Operand, v: Operand)

  type LaneRegs = r: seq<Lane<Word>> | |r| == 32 witness seq(32, i => Def(0))

  /** The CPU state as compiled code sees it: registers and PC may hold poison. */
  datatype Machine = Machine(regs: LaneRegs, pc: Lane<Word>, mem: Mem)

  /** Where evaluation ends up: at the next operation, in undefined behaviour, or stuck because
      an operand is missing or of the wrong type. */
  datatype Outcome = Next(env: seq<Val>, m: Machine) | UB | IllFormed

  // ----- values -----

  function Get(env: seq<Val>, o: Operand): Val {
    match o
    case Const(c) => I32(Def(c))
    case Ref(id) => if id < |env| then env[id] else Void
  }

  /** A shift by 32 or more is poison. */
  function BinLane(op: BinOp, x: Lane<Word>, y: Lane<Word>): Lane<Word> {
    if x.Poison? || y.Poison? then Poison
    else
      var a, b := x.val, y.val;
      match op
      case AddOp => Def(Wrap(a + b))
      case SubOp => Def(Wrap(a - b))
      case AndOp => Def(BitOp(BitAnd, a, b))
      case OrOp => Def(BitOp(BitOr, a, b))
      case XorOp => Def(BitOp(BitXor, a, b))
      case ShlOp => if b < 32 then Def(ShiftLeft(a, b)) else Poison
      case LShrOp => if b < 32 then Def(ShiftRightLogical(a, b)) else Poison
      case AShrOp => if b < 32 then Def(ShiftRightArithmetic(a, b)) else Poison
  }

  function Holds(p: Pred, a: Word, b: Word): bool {
    match p
    case PredEq => a == b
    case PredNe => a != b
    case PredSlt => ToSigned(a) < ToSigned(b)
    case PredSge => ToSigned(a) >= ToSigned(b)
    case PredUlt => a < b
    case PredUge => a >= b
  }

  function CmpLane(p: Pred, x: Lane<Word>, y: Lane<Word>): Lane<bool> {
    if x.Poison? || y.Poison? then Poison else Def(Holds(p, x.val, y.val))
  }

  function SelectLane(c: Lane<bool>, x: Lane<Word>, y: Lane<Word>): Lane<Word> {
    if c.Poison? then Poison else if c.val then x else y
  }

  /** A narrow load from a register cell takes its low bytes. */
  function Narrow(width: Width, l: Lane<Word>): Val {
    match width
    case W8 => I8(if l.Poison? then Poison else Def(l.val % 0x100))
    case W16 => I16(if l.Poison? then Poison else Def(l.val % 0x1_0000))
    case W32 => I32(l)
  }

  function Sized(width: Width, v: Word): Val
    requires v < Modulus(width)
  {
    match width
    case W8 => I8(Def(v))
    case W16 => I16(Def(v))
    case W32 => I32(Def(v))
  }

  /** Extension to 32 bits of a strictly narrower value. */
  function Extended(signed: bool, v: Val): Val {
    match v
    case I1(b) =>
      I32(if b.Poison? then Poison else if !b.val then Def(0) else if signed then Def(0xFFFF_FFFF) else Def(1))
    case I8(b) => I32(if b.Poison? then Poison else if signed then Def(SignExtend8(b.val)) else Def(b.val))
    case I16(h) => I32(if h.Poison? then Poison else if signed then Def(SignExtend16(h.val)) else Def(h.val))
    case I32(_) => Void
    case Void => Void
  }

  /** The integer held by a value of the given width, as a word. */
  function Contents(width: Width, v: Val): Option<Lane<Word>> {
    match (width, v)
    case (W8, I8(b)) => Some(if b.Poison? then Poison else Def(b.val))
    case (W16, I16(h)) => Some(if h.Poison? then Poison else Def(h.val))
    case (W32, I32(w)) => Some(w)
    case _ => None
  }

  // ----- evaluation -----

  function Step(op: Op, env: seq<Val>, m: Machine): Outcome {
    match op
    case LoadReg(width, r) => if r < 32 then Next(env + [Narrow(width, m.regs[r])], m) else IllFormed
    case StoreReg(r, v) =>
      (match Get(env, v)
       case I32(l) => if r < 32 then Next(env + [Void], m.(regs := m.regs[r := l])) else IllFormed
       case _ => IllFormed)
    case LoadPC => Next(env + [I32(m.pc)], m)
    case StorePC(v) =>
      (match Get(env, v)
       case I32(l) => Next(env + [Void], m.(pc := l))
       case _ => IllFormed)
    case Bin(b, x, y) =>
      (match (Get(env, x), Get(env, y))
       case (I32(a), I32(c)) => Next(env + [I32(BinLane(b, a, c))], m)
       case _ => IllFormed)
    case ICmp(p, x, y) =>
      (match (Get(env, x), Get(env, y))
       case (I32(a), I32(c)) => Next(env + [I1(CmpLane(p, a, c))], m)
       case _ => IllFormed)
    case Select(c, x, y) =>
      (match (Get(env, c), Get(env, x), Get(env, y))
       case (I1(b), I32(a), I32(d)) => Next(env + [I32(SelectLane(b, a, d))], m)
       case _ => IllFormed)
    case Ext(signed, v) =>
      (match Extended(signed, Get(env, v))
       case I32(l) => Next(env + [I32(l)], m)
       case _ => IllFormed)
    case CallRead(width, addr) =>
      (match Get(env, addr)
       case I32(a) => ReadCall(width, a, env, m)
       case _ => IllFormed)
    case CallWrite(width, addr, v) =>
      (match (Get(env, addr), Contents(width, Get(env, v)))
       case (I32(a), Some(l)) => WriteCall(width, a, l, env, m)
       case _ => IllFormed)
  }

  /** The memory functions take no poison, and assume that a segment holds the access. */
  function ReadCall(width: Width, a: Lane<Word>, env: seq<Val>, m: Machine): Outcome {
    if a.Poison? then UB
    else
      match Read(m.mem, a.val, width)
      case None => UB
      case Some(v) => Next(env + [Sized(width, v)], m)
  }

  function WriteCall(width: Width, a: Lane<Word>, v: Lane<Word>, env: seq<Val>, m: Machine): Outcome {
    if a.Poison? || v.Poison? then UB
    else
      match Write(m.mem, a.val, width, v.val)
      case None => UB
      case Some(mem) => Next(env + [Void], m.(mem := mem))
  }

  /** Evaluates `ops` from the i-th operation on. */
  function Run(ops: seq<Op>, i: nat, env: seq<Val>, m: Machine): Outcome
    requires i <= |ops|
    decreases |ops| - i
  {
    if i == |ops| then Next(env, m)
    else
      match Step(ops[i], env, m)
      case Next(env', m') => Run(ops, i + 1, env', m')
      case UB => UB
      case IllFormed => IllFormed
  }

  /** What a whole function does to the CPU state. */
  datatype Effect = Done(m: Machine) | Undefined | Malformed

  function EffectOf(o: Outcome): Effect {
    match o
    case Next(_, m) => Done(m)
    case UB => Undefined
    case IllFormed => Malformed
  }

  function Call(code: seq<Op>, m: Machine): Effect {
    EffectOf(Run(code, 0, [], m))
  }

  // ----- single steps of a run -----

  lemma RunLoadReg(ops: seq<Op>, i: nat, env: seq<Val>, m: Machine, width: Width, r: nat)
    requires i < |ops| && ops[i] == LoadReg(width, r) && r < 32
    ensures Run(ops, i, env, m) == Run(ops, i + 1, env + [Narrow(width, m.regs[r])], m)
  {
  }

  lemma RunStoreReg(ops: seq<Op>, i: nat, env: seq<Val>, m: Machine, r: nat, v: Operand, l: Lane<Word>)
    requires i < |ops| && ops[i] == StoreReg(r, v) && r < 32 && Get(env, v) == I32(l)
    ensures Run(ops, i, env, m) == Run(ops, i + 1, env + [Void], m.(regs := m.regs[r := l]))
  {
  }

  lemma RunLoadPC(ops: seq<Op>, i: nat, env: seq<Val>, m: Machine)
    requires i < |ops| && ops[i] == LoadPC
    ensures Run(ops, i, env, m) == Run(ops, i + 1, env + [I32(m.pc)], m)
  {
  }

  lemma RunStorePC(ops: seq<Op>, i: nat, env: seq<Val>, m: Machine, v: Operand, l: Lane<Word>)
    requires i < |ops| && ops[i] == StorePC(v) && Get(env, v) == I32(l)
    ensures Run(ops, i, env, m) == Run(ops, i + 1, env + [Void], m.(pc := l))
  {
  }

  lemma RunBin(ops: seq<Op>, i: nat, env: seq<Val>, m: Machine, op: BinOp, x: Operand, y: Operand,
               a: Lane<Word>, b: Lane<Word>)
    requires i < |ops| && ops[i] == Bin(op, x, y) && Get(env, x) == I32(a) && Get(env, y) == I32(b)
    ensures Run(ops, i, env, m) == Run(ops, i + 1, env + [I32(BinLane(op, a, b))], m)
  {
  }

  lemma RunICmp(ops: seq<Op>, i: nat, env: seq<Val>, m: Machine, p: Pred, x: Operand, y: Operand,
                a: Lane<Word>, b: Lane<Word>)
    requires i < |ops| && ops[i] == ICmp(p, x, y) && Get(env, x) == I32(a) && Get(env, y) == I32(b)
    ensures Run(ops, i, env, m) == Run(ops, i + 1, env + [I1(CmpLane(p, a, b))], m)
  {
  }

  lemma RunSelect(ops: seq<Op>, i: nat, env: seq<Val>, m: Machine, c: Operand, x: Operand, y: Operand,
                  bit: Lane<bool>, a: Lane<Word>, b: Lane<Word>)
    requires i < |ops| && ops[i] == Select(c, x, y)
    requires Get(env, c) == I1(bit) && Get(env, x) == I32(a) && Get(env, y) == I32(b)
    ensures Run(ops, i, env, m) == Run(ops, i + 1, env + [I32(SelectLane(bit, a, b))], m)
  {
  }

  lemma RunExt(ops: seq<Op>, i: nat, env: seq<Val>, m: Machine, signed: bool, v: Operand, l: Lane<Word>)
    requires i < |ops| && ops[i] == Ext(signed, v) && Extended(signed, Get(env, v)) == I32(l)
    ensures Run(ops, i, env, m) == Run(ops, i + 1, env + [I32(l)], m)
  {
  }

  lemma RunRead(ops: seq<Op>, i: nat, env: seq<Val>, m: Machine, width: Width, v: Operand, a: Lane<Word>)
    requires i < |ops| && ops[i] == CallRead(width, v) && Get(env, v) == I32(a)
    ensures Run(ops, i, env, m) ==
      if a.Poison? || Read(m.mem, a.val, width).None? then UB
      else Run(ops, i + 1, env + [Sized(width, Read(m.mem, a.val, width).value)], m)
  {
  }

  lemma RunWrite(ops: seq<Op>, i: nat, env: seq<Val>, m: Machine, width: Width, v: Operand, x: Operand,
                 a: Lane<Word>, l: Lane<Word>)
    requires i < |ops| && ops[i] == CallWrite(width, v, x)
    requires Get(env, v) == I32(a) && Contents(width, Get(env, x)) == Some(l)
    ensures Run(ops, i, env, m) ==
      if a.Poison? || l.Poison? || Write(m.mem, a.val, width, l.val).None? then UB
      else Run(ops, i + 1, env + [Void], m.(mem := Write(m.mem, a.val, width, l.val).value))
  {
  }

  lemma RunEnd(ops: seq<Op>, env: seq<Val>, m: Machine)
    ensures Run(ops, |ops|, env, m) == Next(env, m)
  {
  }

  // ----- sequencing -----

  lemma {:induction false} RunSuffix(a: seq<Op>, b: seq<Op>, i: nat, env: seq<Val>, m: Machine)
    requires i <= |b|
    ensures Run(a + b, |a| + i, env, m) == Run(b, i, env, m)
    decreases |b| - i
  {
    if i < |b| {
      assert (a + b)[|a| + i] == b[i];
      match Step(b[i], env, m)
      case Next(env', m') => RunSuffix(a, b, i + 1, env', m');
      case _ =>
    }
  }

  /** Running `a + b` is running `a`, then `b` where it ends. */
  lemma {:induction false} RunConcat(a: seq<Op>, b: seq<Op>, i: nat, env: seq<Val>, m: Machine)
    requires i <= |a|
    ensures Run(a + b, i, env, m) ==
      match Run(a, i, env, m)
      case Next(env', m') => Run(b, 0, env', m')
      case UB => UB
      case IllFormed => IllFormed
    decreases |a| - i
  {
    if i == |a| {
      RunSuffix(a, b, 0, env, m);
    } else {
      assert (a + b)[i] == a[i];
      match Step(a[i], env, m)
      case Next(env', m') => RunConcat(a, b, i + 1, env', m');
      case _ =>
    }
  }

  lemma {:induction false} RunGrowsEnv(ops: seq<Op>, i: nat, env: seq<Val>, m: Machine)
    requires i <= |ops|
    ensures var o := Run(ops, i, env, m); o.Next? ==> |o.env| == |env| + |ops| - i
    decreases |ops| - i
  {
    if i < |ops| {
      match Step(ops[i], env, m)
      case Next(env', m') => RunGrowsEnv(ops, i + 1, env', m');
      case _ =>
    }
  }

  // ----- renumbering -----

  function ShiftOperand(o: Operand, k: nat): Operand {
    match o
    case Const(_) => o
    case Ref(id) => Ref(id + k)
  }

  function ShiftOp(op: Op, k: nat): Op {
    match op
    case LoadReg(_, _) => op
    case StoreReg(r, v) => StoreReg(r, ShiftOperand(v, k))
    case LoadPC => op
    case StorePC(v) => StorePC(ShiftOperand(v, k))
    case Bin(b, x, y) => Bin(b, ShiftOperand(x, k), ShiftOperand(y, k))
    case ICmp(p, x, y) => ICmp(p, ShiftOperand(x, k), ShiftOperand(y, k))
    case Select(c, x, y) => Select(ShiftOperand(c, k), ShiftOperand(x, k), ShiftOperand(y, k))
    case Ext(s, v) => Ext(s, ShiftOperand(v, k))
    case CallRead(w, a) => CallRead(w, ShiftOperand(a, k))
    case CallWrite(w, a, v) => CallWrite(w, ShiftOperand(a, k), ShiftOperand(v, k))
  }

  /** `b` is `a` with its values numbered from k. */
  predicate IsRenumbered(a: seq<Op>, b: seq<Op>, k: nat) {
    |a| == |b| && forall i :: 0 <= i < |a| ==> b[i] == ShiftOp(a[i], k)
  }

  function Prefixed(pre: seq<Val>, o: Outcome): Outcome {
    match o
    case Next(env, m) => Next(pre + env, m)
    case UB => UB
    case IllFormed => IllFormed
  }

  lemma GetShift(pre: seq<Val>, env: seq<Val>, o: Operand)
    ensures Get(pre + env, ShiftOperand(o, |pre|)) == Get(env, o)
  {
  }

  lemma StepShift(op: Op, pre: seq<Val>, env: seq<Val>, m: Machine)
    ensures Step(ShiftOp(op, |pre|), pre + env, m) == Prefixed(pre, Step(op, env, m))
  {
    assert forall v: Val :: pre + (env + [v]) == pre + env + [v];
    match op
    case StoreReg(_, v) => GetShift(pre, env, v);
    case StorePC(v) => GetShift(pre, env, v);
    case Bin(_, x, y) =>
      GetShift(pre, env, x);
      GetShift(pre, env, y);
    case ICmp(_, x, y) =>
      GetShift(pre, env, x);
      GetShift(pre, env, y);
    case Select(c, x, y) =>
      GetShift(pre, env, c);
      GetShift(pre, env, x);
      GetShift(pre, env, y);
    case Ext(_, v) => GetShift(pre, env, v);
    case CallRead(_, a) => GetShift(pre, env, a);
    case CallWrite(_, a, v) =>
      GetShift(pre, env, a);
      GetShift(pre, env, v);
    case _ =>
  }

  /** Code behaves the same wherever in a function its values are numbered. */
  lemma {:induction false} RunShift(a: seq<Op>, b: seq<Op>, i: nat, pre: seq<Val>, env: seq<Val>, m: Machine)
    requires IsRenumbered(a, b, |pre|) && i <= |a|
    ensures Run(b, i, pre + env, m) == Prefixed(pre, Run(a, i, env, m))
    decreases |a| - i
  {
    if i < |a| {
      StepShift(a[i], pre, env, m);
      match Step(a[i], env, m)
      case Next(env', m') => RunShift(a, b, i + 1, pre, env', m');
      case _ =>
    }
  }
}
