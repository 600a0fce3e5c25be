/** `generateFunc` and the dispatch loop of `main` (tests/Main.cpp) as they run: a map from addresses
    to names, a JIT from names to code, and the CPU state with its guest memory, all updated in
    place. Instructions are fetched through the C++ memory functions; blocks load and store through
    those of Memory.ll. */
module Driver {
  import opened Words
  import opened GuestMemory
  import opened MemoryImpl
  import opened Isa
  import opened Decoder
  import opened Ir
  import opened Translator
  import opened Blocks
  import opened Dispatch
  import opened Translation
  import opened Runs
  import opened BlockNames
  import opened Builder
  import opened Cpu
  import opened CodeMeaning

  datatype Symbol = MemoryFunction | BlockFunction(code: seq<Ir.Op>)

  /** The JIT: adding a module fails if it defines a symbol that exists. */
  class LLJIT {
    var symbols: map<string, Symbol>

    /** With Memory.ll loaded. */
    constructor ()
      ensures symbols.Keys == MEMORY_FUNCTIONS
    {
      symbols := map name | name in MEMORY_FUNCTIONS :: MemoryFunction;
    }

    method AddIRModule(name: string, code: seq<Ir.Op>) returns (ok: bool)
      modifies this
      ensures ok <==> name !in old(symbols)
      ensures symbols == if ok then old(symbols)[name := BlockFunction(code)] else old(symbols)
    {
      ok := name !in symbols;
      if ok {
        symbols := symbols[name := BlockFunction(code)];
      }
    }
  }

  // ----- the loop of generateFunc, step by step -----

  function Following(ws: seq<InsnWord>, rest: Option<seq<InsnWord>>): Option<seq<InsnWord>> {
    match rest
    case None => None
    case Some(more) => Some(ws + more)
  }

  /** The loop before its first turn, when its threshold is reached, and in between: what it has and
      what it will still find. */
  lemma FormingStarts(rest: Option<seq<InsnWord>>)
    ensures Following([], rest) == rest && EmitBlock([], 0) == []
  {
    assert rest.Some? ==> [] + rest.value == rest.value;
  }

  lemma FormingEnds(mem: Mem, ws: seq<InsnWord>, pc: Word)
    ensures Following(ws, FormWords(mem, pc, 0)) == Some(ws)
  {
    hide FetchWord;
    assert ws + [] == ws;
  }

  lemma FormingGoesOn(mem: Mem, ws: seq<InsnWord>, pc: Word, left: nat)
    requires left > 0
    ensures Following(ws, FormWords(mem, pc, left)) ==
      match FetchWord(mem, pc)
      case None => None
      case Some(w) =>
        if Transfers(w) then Some(ws + [w]) else Following(ws + [w], FormWords(mem, Wrap(pc + 4), left - 1))
  {
    hide FetchWord, Transfers;
    if FetchWord(mem, pc).Some? {
      var w, rest := FetchWord(mem, pc).value, FormWords(mem, Wrap(pc + 4), left - 1);
      assert rest.Some? ==> ws + ([w] + rest.value) == ws + [w] + rest.value;
    }
  }

  lemma {:induction false} EmitBlockAppend(ws: seq<InsnWord>, w: InsnWord, b: nat)
    ensures EmitBlock(ws + [w], b) == EmitBlock(ws, b) + Emit(Decode(w), w, b + |EmitBlock(ws, b)|)
    decreases |ws|
  {
    hide Decode, Emit;
    if ws == [] {
      assert (ws + [w])[1..] == [];
    } else {
      assert (ws + [w])[1..] == ws[1..] + [w];
      EmitBlockAppend(ws[1..], w, b + |Emit(Decode(ws[0]), ws[0], b)|);
    }
  }

  /** The map names exactly the blocks; the JIT holds the code of every block under its name, and
      nothing else beside the memory functions. */
  ghost predicate Consistent(names: map<Word, string>, blocks: map<Word, seq<InsnWord>>, symbols: map<string, Symbol>) {
    && names.Keys == blocks.Keys
    && (forall pc :: pc in names ==> names[pc] == BlockName(pc))
    && (forall pc :: pc in blocks ==>
          BlockName(pc) in symbols && symbols[BlockName(pc)] == BlockFunction(EmitBlock(blocks[pc], 0)))
    && (forall name :: name in symbols ==>
          name in MEMORY_FUNCTIONS || exists pc :: pc in blocks && name == BlockName(pc))
  }

  lemma NewName(names: map<Word, string>, blocks: map<Word, seq<InsnWord>>, symbols: map<string, Symbol>, pc: Word)
    requires Consistent(names, blocks, symbols) && pc !in names
    ensures pc !in blocks && BlockName(pc) !in symbols
  {
    hide EmitBlock, BlockName;
    BlockNamesDistinct(pc, pc);
    forall p | p in blocks ensures BlockName(p) != BlockName(pc) {
      BlockNamesDistinct(p, pc);
    }
  }

  lemma NamesCovered(blocks: map<Word, seq<InsnWord>>, symbols: map<string, Symbol>, pc: Word, ws: seq<InsnWord>,
                     symbol: Symbol, name: string)
    requires name in symbols ==> name in MEMORY_FUNCTIONS || exists p :: p in blocks && name == BlockName(p)
    requires name in symbols[BlockName(pc) := symbol]
    ensures name in MEMORY_FUNCTIONS || exists p :: p in blocks[pc := ws] && name == BlockName(p)
  {
    hide BlockName;
    if name == BlockName(pc) {
      assert pc in blocks[pc := ws];
    } else if name !in MEMORY_FUNCTIONS {
      var p :| p in blocks && name == BlockName(p);
      assert p in blocks[pc := ws];
    }
  }

  /** A new block can be added under its new name. */
  lemma AddingABlock(names: map<Word, string>, blocks: map<Word, seq<InsnWord>>, symbols: map<string, Symbol>,
                     pc: Word, ws: seq<InsnWord>)
    requires Consistent(names, blocks, symbols) && pc !in names
    ensures pc !in blocks && BlockName(pc) !in symbols
    ensures Consistent(names[pc := BlockName(pc)], blocks[pc := ws],
                       symbols[BlockName(pc) := BlockFunction(EmitBlock(ws, 0))])
  {
    hide EmitBlock, BlockName;
    NewName(names, blocks, symbols, pc);
    var symbol := BlockFunction(EmitBlock(ws, 0));
    forall name | name in symbols[BlockName(pc) := symbol]
      ensures name in MEMORY_FUNCTIONS || exists p :: p in blocks[pc := ws] && name == BlockName(p)
    {
      NamesCovered(blocks, symbols, pc, ws, symbol, name);
    }
  }

  class DynamicTranslator {
    var pcToFunc: map<Word, string>
    const cpu: CPUState
    const jit: LLJIT
    /** The words of the blocks translated so far, and the order in which they were. */
    ghost var blocks: map<Word, seq<InsnWord>>
    ghost var added: seq<Word>

    ghost predicate Valid()
      reads this, jit, cpu, cpu.manager, cpu.manager.segmentData, cpu.manager.segmentData[..], cpu.manager.Buffers()
    {
      cpu.Valid() && Consistent(pcToFunc, blocks, jit.symbols)
    }

    /** What this state means to the model of the loop. */
    ghost function View(): System
      requires Valid()
      reads this, jit, cpu, cpu.manager, cpu.manager.segmentData, cpu.manager.segmentData[..], cpu.manager.Buffers()
    {
      System(cpu.View(), blocks, added)
    }

    constructor (cpu: CPUState)
      requires cpu.Valid()
      ensures this.cpu == cpu && fresh(jit)
      ensures Valid() && View() == Boot(cpu.View())
    {
      this.cpu := cpu;
      pcToFunc, blocks, added := map[], map[], [];
      jit := new LLJIT();
    }

    /** `unordered_map::insert` keeps an entry that exists. */
    method Insert(pc: Word, name: string)
      modifies this`pcToFunc
      ensures pcToFunc == if pc in old(pcToFunc) then old(pcToFunc) else old(pcToFunc)[pc := name]
    {
      if pc !in pcToFunc {
        pcToFunc := pcToFunc[pc := name];
      }
    }

    /** A fetch, through the C++ memory. */
    method Fetch(pc: Word) returns (w: Option<InsnWord>)
      requires cpu.Valid()
      ensures cpu.Valid() && cpu.View() == old(cpu.View()) && w == FetchWord(cpu.View().mem, pc)
    {
      var data := cpu.manager.ReadMapped(W32, pc);
      return if data.None? then None else Some(Parse(data.value));
    }

    /** The loop of `generateFunc`: the code of the block at `pc`, or nothing if a fetch fails. */
    method FormBlock(pc: Word, threshold: nat) returns (code: Option<seq<Ir.Op>>)
      requires cpu.Valid()
      ensures cpu.Valid() && cpu.View() == old(cpu.View())
      ensures code == match FormWords(cpu.View().mem, pc, threshold)
                      case None => None
                      case Some(ws) => Some(EmitBlock(ws, 0))
    {
      hide Decode, Emit, FetchWord, FormWords, Following, EmitBlock;
      ghost var mem := cpu.View().mem;
      var builder := new IRBuilder();
      var continuing, numInstrs := true, 0;
      var tempPC: Word := pc;
      ghost var ws: seq<InsnWord> := [];
      FormingStarts(FormWords(mem, pc, threshold));
      while continuing && numInstrs < threshold
        invariant 0 <= numInstrs <= threshold && builder.ops == EmitBlock(ws, 0) && fresh(builder)
        invariant cpu.Valid() && cpu.View() == old(cpu.View())
        invariant FormWords(mem, pc, threshold) ==
          if continuing then Following(ws, FormWords(mem, tempPC, threshold - numInstrs)) else Some(ws)
        decreases threshold - numInstrs
      {
        FormingGoesOn(mem, ws, tempPC, threshold - numInstrs);
        var data := Fetch(tempPC);
        if data.None? {
          return None;
        }
        var w := data.value;
        EmitBlockAppend(ws, w, 0);
        tempPC := Wrap(tempPC + 4);
        var instr := Decode(w);
        builder.Generate(instr, w);
        numInstrs := numInstrs + 1;
        continuing := !IsTransfer(instr);
        ws := ws + [w];
      }
      FormingEnds(mem, ws, tempPC);
      return Some(builder.ops);
    }

    /** Adds the module of a new block. The JIT does not refuse it. */
    method AddBlock(pc: Word, name: string, code: seq<Ir.Op>, ghost names: map<Word, string>, ghost ws: seq<InsnWord>)
      returns (ok: bool)
      requires Consistent(names, blocks, jit.symbols) && pc !in names && name == BlockName(pc)
      requires pcToFunc == names[pc := name] && code == EmitBlock(ws, 0)
      modifies this`blocks, this`added, jit
      ensures ok && Consistent(pcToFunc, blocks, jit.symbols)
      ensures blocks == old(blocks)[pc := ws] && added == old(added) + [pc]
    {
      hide EmitBlock, BlockName, Consistent;
      AddingABlock(names, blocks, jit.symbols, pc, ws);
      ok := jit.AddIRModule(name, code);
      blocks := blocks[pc := ws];
      added := added + [pc];
    }

    /** `generateFunc`. It fails exactly when a fetch does: the JIT never refuses a block. */
    method GenerateFunc(pc: Word, threshold: nat) returns (name: Option<string>)
      requires Valid() && pc !in pcToFunc
      modifies this`pcToFunc, this`blocks, this`added, jit
      ensures cpu.Valid() && cpu.View() == old(cpu.View())
      ensures name.Some? <==> FormWords(cpu.View().mem, pc, threshold).Some?
      ensures name.Some? ==>
        && Valid() && name.value == BlockName(pc)
        && pcToFunc == old(pcToFunc)[pc := name.value]
        && Translate(old(View()), pc, threshold) == Some(View())
    {
      hide FormWords, EmitBlock, BlockName, Translate, Consistent;
      ghost var before, names, mem := View(), pcToFunc, cpu.View().mem;
      var funcName := BlockName(pc);
      NewName(names, blocks, jit.symbols, pc);
      Insert(pc, funcName);
      var code := FormBlock(pc, threshold);
      if code.None? {
        return None;
      }
      TranslateMiss(before, pc, threshold);
      var ok := AddBlock(pc, funcName, code.value, names, FormWords(mem, pc, threshold).value);
      if !ok {
        return None;
      }
      return Some(funcName);
    }

    /** The find, the translation on a miss, and the second insert. */
    method FindBlock(pc: Word, threshold: nat) returns (found: bool)
      requires Valid()
      modifies this`pcToFunc, this`blocks, this`added, jit
      ensures cpu.Valid() && cpu.View() == old(cpu.View())
      ensures found <==> Translate(old(View()), pc, threshold).Some?
      ensures found ==> Valid() && View() == Translate(old(View()), pc, threshold).value
    {
      hide FormWords, EmitBlock, BlockName;
      if pc !in pcToFunc {
        var name := GenerateFunc(pc, threshold);
        if name.None? {
          return false;
        }
        Insert(pc, name.value);
      }
      return true;
    }

    /** The lookup by name, and the call. */
    method RunBlock(pc: Word) returns (ok: bool)
      requires Valid() && pc in blocks
      modifies cpu, cpu.manager.Buffers()
      ensures Valid() && cpu.manager.Buffers() == old(cpu.manager.Buffers())
      ensures ok <==> Call(EmitBlock(blocks[pc], 0), old(cpu.View())).Done?
      ensures ok ==> cpu.View() == Call(EmitBlock(blocks[pc], 0), old(cpu.View())).m
    {
      hide EmitBlock, BlockName, Call;
      ok := cpu.Execute(jit.symbols[pcToFunc[pc]].code);
    }

    /** One turn of the loop of `main`, without its end. */
    method TurnOnce(threshold: nat) returns (running: bool)
      requires Valid()
      modifies this, jit, cpu, cpu.manager.Buffers()
      ensures cpu.manager.Buffers() == old(cpu.manager.Buffers())
      ensures running <==> Turn(old(View()), threshold).Running?
      ensures running ==> Valid() && View() == Turn(old(View()), threshold).s
    {
      hide Translate, EmitBlock, Call, Consistent;
      if cpu.pc.Poison? {
        return false;
      }
      var pc := cpu.pc.val;
      running := FindBlock(pc, threshold);
      if running {
        running := RunBlock(pc);
      }
    }

    /** n turns of the endless loop. */
    method Loop(threshold: nat, n: nat) returns (running: bool)
      requires Valid()
      modifies this, jit, cpu, cpu.manager.Buffers()
      ensures cpu.manager.Buffers() == old(cpu.manager.Buffers())
      ensures running <==> Turns(old(View()), threshold, n).Running?
      ensures running ==> Valid() && View() == Turns(old(View()), threshold, n).s
    {
      hide Turn, Consistent;
      var i := 0;
      while i < n
        invariant 0 <= i <= n && Valid() && cpu.manager.Buffers() == old(cpu.manager.Buffers())
        invariant Turns(old(View()), threshold, n) == Turns(View(), threshold, n - i)
      {
        running := TurnOnce(threshold);
        if !running {
          return;
        }
        i := i + 1;
      }
      return true;
    }
  }

  lemma TranslateMiss(s: System, pc: Word, threshold: nat)
    requires pc !in s.cache && FormWords(s.m.mem, pc, threshold).Some?
    ensures Translate(s, pc, threshold) == Some(
      System(s.m, s.cache[pc := FormWords(s.m.mem, pc, threshold).value], s.added + [pc]))
  {
    hide FormWords;
  }

  /** The hart that `main` boots: all registers zero but the stack pointer, which is -16. */
  function Initial(entryPoint: Word, mem: Mem): Hart {
    Hart(seq(32, i => if i == 2 then 0xFFFF_FFF0 else 0), entryPoint, mem)
  }

  /** At boot the stack pointer is -16, every other register is zero, and the PC is the entry point. */
  predicate Boots(h: Hart, entryPoint: Word, mem: Mem) {
    && ToSigned(h.regs[2]) == -16 && (forall r :: 0 <= r < 32 && r != 2 ==> h.regs[r] == 0)
    && h.pc == entryPoint && h.mem == mem
  }

  lemma InitialBoots(entryPoint: Word, mem: Mem)
    ensures Boots(Initial(entryPoint, mem), entryPoint, mem)
  {
  }

  /** The segment that parsing appends for the stack (src/Binary.cpp). */
  predicate IsStack(s: Segment) {
    s.size == 0x100_0000 && s.base == Wrap(-1 - s.size)
  }

  /** Of the words around the initial stack pointer, those from 0xFFFFF1 below it to 11 above it lie
      in the stack segment, and no others. */
  lemma StackWords(entryPoint: Word, mem: Mem, k: nat, d: int)
    requires k < |mem| && IsStack(mem[k]) && -0x8000_0000 <= d < 0x8000_0000
    requires forall j :: 0 <= j < k ==> !Contains(mem[j], Wrap(Initial(entryPoint, mem).regs[2] + d))
    ensures FirstHolds(mem, Wrap(Initial(entryPoint, mem).regs[2] + d), 4, k) <==> -0xFF_FFF1 <= d <= 11
  {
    var a := Wrap(Initial(entryPoint, mem).regs[2] + d);
    assert mem[k].base == 0xFEFF_FFFF;
    forall j | 0 <= j < k
      ensures !(mem[j].base <= a < mem[j].base + mem[j].size && mem[j].base + mem[j].size < 0x1_0000_0000)
    {
      ContainsIff(mem[j], a);
    }
  }

  /** The registers that `main` initialises. */
  function Zeroed(): LaneRegs {
    seq(32, i => if i == 2 then Def(0xFFFF_FFF0) else Def(0))
  }

  lemma InitialState(entryPoint: Word, mem: Mem)
    ensures Machine(Zeroed(), Def(entryPoint), mem) == Embed(Initial(entryPoint, mem))
    ensures Initial(entryPoint, mem).regs[0] == 0
  {
    assert Zeroed() == Embed(Initial(entryPoint, mem)).regs;
  }

  /** The state `m` is what RV32I makes of `h` in as many instructions as n turns execute: with a
      plain register 0 if the turns are safe and the steps faithful; with a hardwired one on x1 to
      x31, PC and memory if no step sees register 0, and on every register if none writes it. */
  ghost predicate RightOutcome(h: Hart, threshold: nat, n: nat, m: Machine) {
    var boot := Boot(Embed(h));
    var k := Executed(boot, threshold, n);
    SafeTurns(boot, threshold, n) && FaithfulSteps(h, k) ==>
      && SpecSteps(h, k, Plain).Ok? && m == Embed(SpecSteps(h, k, Plain).hart)
      && (BlindX0Steps(h, k) ==>
            SpecSteps(h, k, Hardwired).Ok? && SameButX0(SpecSteps(h, k, Plain).hart, SpecSteps(h, k, Hardwired).hart))
      && (PureX0Steps(h, k) ==> SpecSteps(h, k, Hardwired) == SpecSteps(h, k, Plain))
  }

  lemma OutcomeIsRight(h: Hart, threshold: nat, n: nat)
    requires h.regs[0] == 0 && Turns(Boot(Embed(h)), threshold, n).Running?
    ensures RightOutcome(h, threshold, n, Turns(Boot(Embed(h)), threshold, n).s.m)
  {
    hide SafeTurns, FaithfulSteps, BlindX0Steps, PureX0Steps, Executed, Turns, SpecSteps, Embed, SameButX0, Boot;
    var boot := Boot(Embed(h));
    if SafeTurns(boot, threshold, n) && FaithfulSteps(h, Executed(boot, threshold, n)) {
      EndToEnd(h, threshold, n);
    }
  }

  /** `main` for n turns, over the segments of `manager`. */
  method RunProgram(entryPoint: Word, manager: MemoryManager, threshold: nat, n: nat)
    returns (t: DynamicTranslator, running: bool)
    requires manager.Valid()
    modifies manager.Buffers()
    ensures t.cpu.manager == manager && (running ==> t.Valid())
    ensures Boots(Initial(entryPoint, old(manager.View())), entryPoint, old(manager.View()))
    ensures running <==> Turns(Boot(Embed(Initial(entryPoint, old(manager.View())))), threshold, n).Running?
    ensures running ==> RightOutcome(Initial(entryPoint, old(manager.View())), threshold, n, t.cpu.View())
  {
    hide RightOutcome, Turns, Embed, Initial, Boot, Boots, Zeroed, Consistent;
    ghost var h := Initial(entryPoint, manager.View());
    InitialBoots(entryPoint, manager.View());
    var cpu := new CPUState(Zeroed(), Def(entryPoint), manager);
    InitialState(entryPoint, manager.View());
    t := new DynamicTranslator(cpu);
    running := t.Loop(threshold, n);
    if running {
      OutcomeIsRight(h, threshold, n);
    }
  }
}
