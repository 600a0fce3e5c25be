/** What every block does and keeps, for words and states of any kind: its code is well scoped and
    never stuck, the stored PC follows the fetch address, registers and bytes it does not name
    stay as they are, and poison comes from register shifts only. */
module BlockBehaviour {
  import opened Words
  import opened GuestMemory
  import opened Isa
  import opened Decoder
  import opened Ir
  import opened Translator
  import opened Blocks

  function ShapeFor(w: InsnWord): Shape {
    ShapeOf(Decode(w))
  }

  function OperandsFor(w: InsnWord): Operands {
    Extract(Decode(w), w)
  }

  lemma WordIsDirect(w: InsnWord, m: Machine)
    ensures WordEffect(w, m) == Direct(ShapeFor(w), OperandsFor(w), m)
  {
    hide Decode, ShapeOf, Extract, EmitShape, Direct, Call;
    CallIsDirect(ShapeFor(w), OperandsFor(w), m);
  }

  predicate TransferShape(s: Shape) {
    s.JalShape? || s.JalrShape? || s.BranchShape?
  }

  predicate ShiftShape(s: Shape) {
    s.OpShape? && (s.op.ShlOp? || s.op.LShrOp? || s.op.AShrOp?)
  }

  lemma ShapeClasses(m: Instr)
    ensures IsTransfer(m) <==> TransferShape(ShapeOf(m))
    ensures IsSilent(m) <==> ShapeOf(m).Nothing?
    ensures m in {SLL, SRL, SRA} <==> ShiftShape(ShapeOf(m))
  {
  }

  // ----- scoping -----

  predicate Earlier(o: Operand, n: nat) {
    o.Ref? ==> o.id < n
  }

  /** `op`, at position n, uses values defined before it and registers that exist. */
  predicate UsesEarlier(op: Ir.Op, n: nat) {
    match op
    case LoadReg(_, r) => r < 32
    case StoreReg(r, v) => r < 32 && Earlier(v, n)
    case LoadPC => true
    case StorePC(v) => Earlier(v, n)
    case Bin(_, x, y) => Earlier(x, n) && Earlier(y, n)
    case ICmp(_, x, y) => Earlier(x, n) && Earlier(y, n)
    case Select(c, x, y) => Earlier(c, n) && Earlier(x, n) && Earlier(y, n)
    case Ext(_, v) => Earlier(v, n)
    case CallRead(_, a) => Earlier(a, n)
    case CallWrite(_, a, v) => Earlier(a, n) && Earlier(v, n)
  }

  predicate WellScoped(code: seq<Ir.Op>, b: nat) {
    forall i :: 0 <= i < |code| ==> UsesEarlier(code[i], b + i)
  }

  lemma ScopedConcat(c: seq<Ir.Op>, d: seq<Ir.Op>, b: nat)
    requires WellScoped(c, b) && WellScoped(d, b + |c|)
    ensures WellScoped(c + d, b)
  {
    hide UsesEarlier;
    forall i | 0 <= i < |c + d| ensures UsesEarlier((c + d)[i], b + i) {
      assert i >= |c| ==> UsesEarlier(d[i - |c|], b + |c| + (i - |c|));
    }
  }

  lemma EmitScoped(s: Shape, o: Operands, b: nat)
    ensures WellScoped(EmitShape(s, o, b), b)
  {
  }

  /** In the function of any block, every operand is defined earlier and every register exists. */
  lemma {:induction false} BlockIsWellScoped(ws: seq<InsnWord>, b: nat)
    ensures WellScoped(EmitBlock(ws, b), b)
    decreases |ws|
  {
    hide EmitShape, ShapeOf, Extract, Decode, UsesEarlier;
    if ws != [] {
      var code := Emit(Decode(ws[0]), ws[0], b);
      EmitScoped(ShapeFor(ws[0]), OperandsFor(ws[0]), b);
      BlockIsWellScoped(ws[1..], b + |code|);
      ScopedConcat(code, EmitBlock(ws[1..], b + |code|), b);
    }
  }

  /** No block ever gets stuck on a missing or ill-typed operand. */
  lemma BlockNeverStuck(ws: seq<InsnWord>, m: Machine)
    ensures !Call(EmitBlock(ws, 0), m).Malformed?
  {
    hide EmitBlock, Call;
    BlockRunsItsWords(ws, m);
    WordsNeverStuck(ws, m);
  }

  lemma {:induction false} WordsNeverStuck(ws: seq<InsnWord>, m: Machine)
    ensures !RunWords(ws, m).Malformed?
    decreases |ws|
  {
    hide WordEffect;
    if ws != [] {
      WordNeverStuck(ws[0], m);
      match WordEffect(ws[0], m)
      case Done(m') => WordsNeverStuck(ws[1..], m');
      case _ =>
    }
  }

  lemma WordNeverStuck(w: InsnWord, m: Machine)
    ensures !WordEffect(w, m).Malformed?
  {
    hide Decode, ShapeOf, Extract, WordEffect;
    WordIsDirect(w, m);
  }

  // ----- the program counter -----

  lemma WordPc(w: InsnWord, m: Machine)
    requires WordEffect(w, m).Done? && !Transfers(w)
    ensures WordEffect(w, m).m.pc == if Silent(w) then m.pc else BinLane(AddOp, m.pc, Def(4))
  {
    hide Decode, ShapeOf, Extract, WordEffect, Read, Write, Address, BinLane;
    WordIsDirect(w, m);
    ShapeClasses(Decode(w));
  }

  function Silents(ws: seq<InsnWord>): (n: nat)
    ensures n <= |ws|
  {
    if ws == [] then 0 else (if Silent(ws[0]) then 1 else 0) + Silents(ws[1..])
  }

  lemma {:induction false} PcAfter(ws: seq<InsnWord>, m: Machine, start: Word)
    requires m.pc == Def(start) && RunWords(ws, m).Done?
    requires forall i :: 0 <= i < |ws| ==> !Transfers(ws[i])
    ensures RunWords(ws, m).m.pc == Def(Wrap(start + 4 * (|ws| - Silents(ws))))
    decreases |ws|
  {
    hide WordEffect, Transfers, Silent;
    if ws == [] {
      assert Wrap(start) == start;
    } else {
      WordPc(ws[0], m);
      var m', left := WordEffect(ws[0], m).m, |ws| - 1 - Silents(ws[1..]);
      PcAfter(ws[1..], m', if Silent(ws[0]) then start else Wrap(start + 4));
      WrapSum(start + 4, 4 * left);
    }
  }

  lemma WrapEqualIff(a: int, silent: int)
    ensures Wrap(a - 4 * silent) == Wrap(a) <==> silent % 0x4000_0000 == 0
  {
    var q, r := silent / 0x4000_0000, silent % 0x4000_0000;
    var k := a / 0x1_0000_0000;
    if r == 0 {
      DivisionIsUnique(a - 4 * silent, 0x1_0000_0000, k - q, Wrap(a));
    } else if Wrap(a) >= 4 * r {
      DivisionIsUnique(a - 4 * silent, 0x1_0000_0000, k - q, Wrap(a) - 4 * r);
    } else {
      DivisionIsUnique(a - 4 * silent, 0x1_0000_0000, k - q - 1, Wrap(a) - 4 * r + 0x1_0000_0000);
    }
  }

  /** Before the i-th word of a block runs, the stored PC lags the fetch address by four for each
      silent word before it, and so equals it exactly when there were none (modulo 2^30). */
  lemma PcTracksFetch(m: Machine, pc: Word, threshold: nat, i: nat)
    requires m.pc == Def(pc) && FormWords(m.mem, pc, threshold).Some?
    requires var ws := FormWords(m.mem, pc, threshold).value;
      i < |ws| && RunWords(ws[..i], m).Done?
    ensures var ws := FormWords(m.mem, pc, threshold).value;
      var stored := RunWords(ws[..i], m).m.pc;
      && FetchWord(m.mem, Wrap(pc + 4 * i)) == Some(ws[i])
      && stored == Def(Wrap(pc + 4 * (i - Silents(ws[..i]))))
      && (stored == Def(Wrap(pc + 4 * i)) <==> Silents(ws[..i]) % 0x4000_0000 == 0)
  {
    hide FetchWord, Transfers, RunWords;
    var ws := FormWords(m.mem, pc, threshold).value;
    FormWordsIff(m.mem, pc, threshold, ws);
    PcAfter(ws[..i], m, pc);
    WrapEqualIff(pc + 4 * i, Silents(ws[..i]));
  }

  // ----- what stays unchanged -----

  predicate WritesRegister(w: InsnWord, r: Reg) {
    var s := ShapeFor(w);
    !s.Nothing? && !s.PcOnly? && !s.BranchShape? && !s.StoreShape? && RegDest(w) == r
  }

  lemma WordKeepsRegister(w: InsnWord, m: Machine, r: Reg)
    requires WordEffect(w, m).Done? && !WritesRegister(w, r)
    ensures WordEffect(w, m).m.regs[r] == m.regs[r]
  {
    hide Decode, ShapeOf, ImmOf, WordEffect, Read, Write, BinLane;
    WordIsDirect(w, m);
  }

  /** A block changes no register that none of its words names as its destination. */
  lemma {:induction false} BlockKeepsRegister(ws: seq<InsnWord>, m: Machine, r: Reg)
    requires forall i :: 0 <= i < |ws| ==> !WritesRegister(ws[i], r)
    requires RunWords(ws, m).Done?
    ensures RunWords(ws, m).m.regs[r] == m.regs[r]
    decreases |ws|
  {
    hide WordEffect, WritesRegister;
    if ws != [] {
      WordKeepsRegister(ws[0], m, r);
      BlockKeepsRegister(ws[1..], WordEffect(ws[0], m).m, r);
    }
  }

  /** In state `m`, the word stores to the byte at `x`. */
  predicate StoresTo(w: InsnWord, m: Machine, x: Word) {
    var s, a := ShapeFor(w), Address(m, OperandsFor(w));
    s.StoreShape? && a.Def? && InWindow(x, a.val, s.width.Bytes())
  }

  /** Memory changes by stores alone, and by one write each. */
  lemma WordMemory(w: InsnWord, m: Machine)
    requires WordEffect(w, m).Done?
    ensures var s, a := ShapeFor(w), Address(m, OperandsFor(w));
      if s.StoreShape? then
        exists v: Word :: a.Def? && Write(m.mem, a.val, s.width, v) == Some(WordEffect(w, m).m.mem)
      else WordEffect(w, m).m.mem == m.mem
  {
    hide Decode, ShapeOf, Extract, WordEffect, Read, Write, BinLane, Address;
    WordIsDirect(w, m);
    var s, o := ShapeFor(w), OperandsFor(w);
    if s.StoreShape? {
      var v: Word := m.regs[o.rs2].val % Modulus(s.width);
      assert Write(m.mem, Address(m, o).val, s.width, v) == Some(WordEffect(w, m).m.mem);
    }
  }

  lemma WordKeepsByte(w: InsnWord, m: Machine, x: Word)
    requires WordEffect(w, m).Done? && !StoresTo(w, m, x)
    ensures FlatByte(WordEffect(w, m).m.mem, x) == FlatByte(m.mem, x)
  {
    hide WordEffect, ShapeFor, OperandsFor, Address, Write, FlatByte, InWindow;
    WordMemory(w, m);
    var s, a := ShapeFor(w), Address(m, OperandsFor(w));
    if s.StoreShape? {
      var v: Word :| Write(m.mem, a.val, s.width, v) == Some(WordEffect(w, m).m.mem);
      WriteKeepsOutside(m.mem, a.val, s.width, v, x);
    }
  }

  /** No word of the block, in the state it runs in, stores to the byte at `x`. */
  predicate Untouched(ws: seq<InsnWord>, m: Machine, x: Word) {
    ws != [] ==>
      && !StoresTo(ws[0], m, x)
      && (WordEffect(ws[0], m).Done? ==> Untouched(ws[1..], WordEffect(ws[0], m).m, x))
  }

  /** A block changes no byte outside the windows of the stores it executes. */
  lemma {:induction false} BlockKeepsByte(ws: seq<InsnWord>, m: Machine, x: Word)
    requires RunWords(ws, m).Done? && Untouched(ws, m, x)
    ensures FlatByte(RunWords(ws, m).m.mem, x) == FlatByte(m.mem, x)
    decreases |ws|
  {
    hide WordEffect, StoresTo, FlatByte;
    if ws != [] {
      WordKeepsByte(ws[0], m, x);
      BlockKeepsByte(ws[1..], WordEffect(ws[0], m).m, x);
    }
  }

  /** A block never changes the segment table. */
  lemma {:induction false} BlockKeepsLayout(ws: seq<InsnWord>, m: Machine)
    requires RunWords(ws, m).Done?
    ensures SameLayout(m.mem, RunWords(ws, m).m.mem)
    decreases |ws|
  {
    hide WordEffect, ShapeFor, OperandsFor, Address;
    if ws != [] {
      WordMemory(ws[0], m);
      BlockKeepsLayout(ws[1..], WordEffect(ws[0], m).m);
    }
  }

  // ----- poison -----

  predicate Clean(m: Machine) {
    m.pc.Def? && forall r :: 0 <= r < 32 ==> m.regs[r].Def?
  }

  /** The word shifts by the value of a register that is 32 or more. */
  predicate ShiftsTooFar(w: InsnWord, m: Machine) {
    Decode(w) in {SLL, SRL, SRA} && m.regs[RegSrc2(w)].Def? && m.regs[RegSrc2(w)].val >= 32
  }

  lemma SetClean(m: Machine, r: Reg, l: Lane<Word>)
    requires Clean(m)
    ensures Clean(Add4(SetLane(m, r, l))) <==> l.Def?
  {
    assert SetLane(m, r, l).regs[r] == l;
  }

  lemma ShiftImmediates(w: InsnWord)
    ensures var s := ShapeFor(w);
      s.OpImmShape? && (s.op.ShlOp? || s.op.LShrOp? || s.op.AShrOp?) ==> OperandsFor(w).imm < 32
  {
    hide ImmI, ImmS, ImmB, ImmJ, Decode;
  }

  lemma DirectPoison(s: Shape, o: Operands, m: Machine)
    requires Clean(m) && Direct(s, o, m).Done?
    requires s.OpImmShape? && (s.op.ShlOp? || s.op.LShrOp? || s.op.AShrOp?) ==> o.imm < 32
    ensures Clean(Direct(s, o, m).m) <==> !(ShiftShape(s) && m.regs[o.rs2].val >= 32)
  {
    hide Clean, Read, Write, BitOp, ShiftLeft, ShiftRightLogical, ShiftRightArithmetic, Holds;
    CleanLanes(m, o);
    match s
    case LuiShape => SetClean(m, o.rd, Def(o.imm));
    case AuipcShape => SetClean(m, o.rd, BinLane(AddOp, Def(o.imm), m.pc));
    case JalShape => JumpClean(m, o.rd, BinLane(AddOp, m.pc, Def(4)), BinLane(AddOp, m.pc, Def(o.imm)));
    case JalrShape =>
      JumpClean(m, o.rd, BinLane(AddOp, m.pc, Def(4)), BinLane(AndOp, Address(m, o), Def(0xFFFF_FFFE)));
    case LoadShape(width, signed) =>
      SetClean(m, o.rd, Def(Extend(width, signed, Read(m.mem, Address(m, o).val, width).value)));
    case OpImmShape(op) => SetClean(m, o.rd, BinLane(op, m.regs[o.rs1], Def(o.imm)));
    case SetImmShape(p) => SetClean(m, o.rd, BitLane(CmpLane(p, m.regs[o.rs1], Def(o.imm))));
    case OpShape(op) => SetClean(m, o.rd, BinLane(op, m.regs[o.rs1], m.regs[o.rs2]));
    case SetShape(p) => SetClean(m, o.rd, BitLane(CmpLane(p, m.regs[o.rs1], m.regs[o.rs1])));
    case _ => SamePoison(m, Direct(s, o, m).m);
  }

  lemma CleanLanes(m: Machine, o: Operands)
    requires Clean(m)
    ensures m.pc.Def? && m.regs[o.rs1].Def? && m.regs[o.rs2].Def?
  {
  }

  lemma JumpClean(m: Machine, r: Reg, l: Lane<Word>, target: Lane<Word>)
    requires Clean(m) && l.Def? && target.Def?
    ensures Clean(SetLane(m, r, l).(pc := target))
  {
  }

  lemma SamePoison(m: Machine, m': Machine)
    requires Clean(m) && m'.pc.Def? && m'.regs == m.regs
    ensures Clean(m')
  {
  }

  /** From a poison-free state, one word makes poison exactly when it shifts too far. */
  lemma PoisonIff(w: InsnWord, m: Machine)
    requires Clean(m) && WordEffect(w, m).Done?
    ensures Clean(WordEffect(w, m).m) <==> !ShiftsTooFar(w, m)
  {
    hide Decode, ShapeOf, ImmOf, WordEffect, Direct, Clean;
    WordIsDirect(w, m);
    ShapeClasses(Decode(w));
    ShiftImmediates(w);
    DirectPoison(ShapeFor(w), OperandsFor(w), m);
    CleanLanes(m, OperandsFor(w));
  }

  /** Poison in the state after a block was made by the first word that shifts too far. */
  lemma {:induction false} FirstPoison(ws: seq<InsnWord>, m: Machine)
    requires Clean(m) && RunWords(ws, m).Done? && !Clean(RunWords(ws, m).m)
    ensures exists j :: 0 <= j < |ws| && PoisonedAt(ws, m, j)
    decreases |ws|
  {
    hide WordEffect, Clean, ShiftsTooFar;
    var m' := WordEffect(ws[0], m).m;
    PoisonIff(ws[0], m);
    if Clean(m') {
      FirstPoison(ws[1..], m');
      var j :| 0 <= j < |ws[1..]| && PoisonedAt(ws[1..], m', j);
      assert ws[..j + 1] == [ws[0]] + ws[1..][..j];
      assert ws[..j + 1][1..] == ws[1..][..j];
      assert PoisonedAt(ws, m, j + 1);
    } else {
      assert ws[..0] == [];
      assert PoisonedAt(ws, m, 0);
    }
  }

  /** The state is free of poison up to the j-th word, which shifts too far. */
  predicate PoisonedAt(ws: seq<InsnWord>, m: Machine, j: nat)
    requires j < |ws|
  {
    var e := RunWords(ws[..j], m);
    e.Done? && Clean(e.m) && ShiftsTooFar(ws[j], e.m)
  }
}
