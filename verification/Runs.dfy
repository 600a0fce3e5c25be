/** Whole runs against the manual: single steps of emitted code refine RV32I with a plain
    register 0, which agrees with RV32I proper until a dirty register 0 is read; and the dispatch
    loop inherits both. */
module Runs {
  import opened Words
  import opened GuestMemory
  import opened Isa
  import opened Decoder
  import opened Ir
  import opened Translator
  import opened Translation
  import opened Blocks
  import opened BlockBehaviour
  import opened Dispatch

  // ----- single steps of RV32I -----

  /** What the listing of chapter 24 makes of a word. */
  ghost function Meaning(w: InsnWord): Insn {
    if m :| Encodes(m, w) then Disassemble(m, w) else Illegal
  }

  lemma MeaningOfEncoding(m: Instr, w: InsnWord)
    requires Encodes(m, w)
    ensures Meaning(w) == Disassemble(m, w)
  {
    hide Encodes, Disassemble;
    forall m' | Encodes(m', w) ensures m' == m {
      EncodingsDisjoint(m, m', w);
    }
  }

  /** The decoder's view of a meaning. */
  lemma MeaningDecoded(w: InsnWord)
    ensures Meaning(w) == if Decode(w).UNKNOWN? || ReadLoosely(w) then Illegal else Disassemble(Decode(w), w)
  {
    hide Encodes, Disassemble, Decode, ReadLoosely;
    DecodeSound(w);
    if Decode(w).UNKNOWN? || ReadLoosely(w) {
      forall m ensures !Encodes(m, w) {
        if Encodes(m, w) {
          DecodeComplete(m, w);
          NothingEncodesUnknown(w);
        }
      }
    } else {
      MeaningOfEncoding(Decode(w), w);
    }
  }

  lemma NothingEncodesUnknown(w: InsnWord)
    ensures !Encodes(UNKNOWN, w)
  {
  }

  ghost function SpecStep(h: Hart, x0: X0): Result {
    match FetchWord(h.mem, h.pc)
    case None => AccessFault
    case Some(w) => Exec(Meaning(w), h, x0)
  }

  ghost function SpecSteps(h: Hart, n: nat, x0: X0): Result
    decreases n
  {
    if n == 0 then Ok(h)
    else
      match SpecStep(h, x0)
      case Ok(h') => SpecSteps(h', n - 1, x0)
      case AccessFault => AccessFault
      case MisalignedTarget => MisalignedTarget
      case Trap => Trap
  }

  // ----- emitted code refines RV32I with a plain register 0 -----

  /** The next word, if it can be fetched, is one that the decoder reads as the listing does,
      does not trap, and is translated faithfully for this hart. */
  ghost predicate FaithfulStep(h: Hart) {
    match FetchWord(h.mem, h.pc)
    case None => true
    case Some(w) => !Silent(w) && !ReadLoosely(w) && Faithful(Meaning(w), h)
  }

  /** One step of emitted code agrees with the architecture exactly when the step is faithful. */
  lemma StepAgreesIff(h: Hart)
    ensures Agrees(IrStep(Embed(h)), SpecStep(h, Plain)) <==> FaithfulStep(h)
  {
    hide FetchWord, WordEffect, Exec, Faithful, Meaning, ReadLoosely, Silent, Agrees;
    if FetchWord(h.mem, h.pc).None? {
      FaultsAgree();
    } else {
      var w := FetchWord(h.mem, h.pc).value;
      if Silent(w) || ReadLoosely(w) {
        TrapsDisagree(w, h);
      } else {
        WordAgreesIff(w, h);
      }
    }
  }

  lemma FaultsAgree()
    ensures Agrees(Undefined, AccessFault)
  {
  }

  lemma WordAgreesIff(w: InsnWord, h: Hart)
    requires !Silent(w) && !ReadLoosely(w)
    ensures Agrees(WordEffect(w, Embed(h)), Exec(Meaning(w), h, Plain)) <==> Faithful(Meaning(w), h)
  {
    hide Call, Emit, Decode, Disassemble, Exec, Faithful, Meaning, ReadLoosely, Agrees, Embed;
    MeaningDecoded(w);
    TranslationCorrect(Decode(w), w, h);
  }

  lemma TrapsDisagree(w: InsnWord, h: Hart)
    requires Silent(w) || ReadLoosely(w)
    ensures !Agrees(WordEffect(w, Embed(h)), Exec(Meaning(w), h, Plain))
  {
    hide WordEffect, Decode, ReadLoosely, Meaning;
    MeaningDecoded(w);
    if !Decode(w).UNKNOWN? && !ReadLoosely(w) {
      EcallMeaning(w);
    }
  }

  lemma EcallMeaning(w: InsnWord)
    ensures Disassemble(ECALL, w) == Ecall
  {
  }

  ghost predicate FaithfulSteps(h: Hart, n: nat)
    decreases n
  {
    n > 0 ==>
      && FaithfulStep(h)
      && (SpecStep(h, Plain).Ok? ==> FaithfulSteps(SpecStep(h, Plain).hart, n - 1))
  }

  lemma {:induction false} FaithfulAgrees(h: Hart, n: nat, k: nat)
    requires FaithfulSteps(h, n) && k <= n
    ensures Agrees(IrSteps(Embed(h), k), SpecSteps(h, k, Plain))
    decreases k
  {
    hide IrStep, SpecStep, FaithfulStep, Embed;
    if k > 0 {
      StepAgreesIff(h);
      if SpecStep(h, Plain).Ok? {
        FaithfulAgrees(SpecStep(h, Plain).hart, n - 1, k - 1);
      }
    }
  }

  /** After every number of steps up to n, emitted code and the architecture agree. */
  ghost predicate AgreeingSteps(h: Hart, n: nat) {
    forall k: nat :: k <= n ==> Agrees(IrSteps(Embed(h), k), SpecSteps(h, k, Plain))
  }

  lemma OneIrStep(m: Machine)
    ensures IrSteps(m, 1) == IrStep(m)
  {
    hide IrStep;
    assert IrStep(m).Done? ==> IrSteps(IrStep(m).m, 0) == IrStep(m);
  }

  lemma OneSpecStep(h: Hart, x0: X0)
    ensures SpecSteps(h, 1, x0) == SpecStep(h, x0)
  {
    hide SpecStep;
    assert SpecStep(h, x0).Ok? ==> SpecSteps(SpecStep(h, x0).hart, 0, x0) == SpecStep(h, x0);
  }

  lemma {:induction false} AgreementIsFaithful(h: Hart, n: nat)
    requires AgreeingSteps(h, n)
    ensures FaithfulSteps(h, n)
    decreases n
  {
    hide IrStep, SpecStep, FaithfulStep, Embed;
    if n > 0 {
      assert Agrees(IrSteps(Embed(h), 1), SpecSteps(h, 1, Plain));
      OneIrStep(Embed(h));
      OneSpecStep(h, Plain);
      StepAgreesIff(h);
      if SpecStep(h, Plain).Ok? {
        var h' := SpecStep(h, Plain).hart;
        forall k: nat | k <= n - 1 ensures Agrees(IrSteps(Embed(h'), k), SpecSteps(h', k, Plain)) {
          assert Agrees(IrSteps(Embed(h), k + 1), SpecSteps(h, k + 1, Plain));
        }
        AgreementIsFaithful(h', n - 1);
      }
    }
  }

  /** A run of emitted code, of any length, is one of RV32I with a plain register 0 all the way, the
      code being undefined where the architecture faults, if and only if every step is faithful. */
  lemma StepsRefine(h: Hart, n: nat)
    ensures AgreeingSteps(h, n) <==> FaithfulSteps(h, n)
  {
    hide IrSteps, SpecSteps, FaithfulSteps, Embed;
    if FaithfulSteps(h, n) {
      forall k: nat | k <= n ensures Agrees(IrSteps(Embed(h), k), SpecSteps(h, k, Plain)) {
        FaithfulAgrees(h, n, k);
      }
    }
    if AgreeingSteps(h, n) {
      AgreementIsFaithful(h, n);
    }
  }

  // ----- register 0 -----

  predicate SameButX0(h: Hart, g: Hart) {
    h.pc == g.pc && h.mem == g.mem && forall r :: 1 <= r < 32 ==> h.regs[r] == g.regs[r]
  }

  predicate ReadsX0(i: Insn) {
    match i
    case Jalr(_, rs1, _) => rs1 == 0
    case Branch(_, rs1, rs2, _) => rs1 == 0 || rs2 == 0
    case Load(_, _, _, rs1, _) => rs1 == 0
    case Store(_, rs1, rs2, _) => rs1 == 0 || rs2 == 0
    case OpImm(_, _, rs1, _) => rs1 == 0
    case Op(_, _, rs1, rs2) => rs1 == 0 || rs2 == 0
    case _ => false
  }

  predicate SameResult(r: Result, r': Result) {
    match (r, r')
    case (Ok(h), Ok(g)) => SameButX0(h, g)
    case (AccessFault, AccessFault) => true
    case (MisalignedTarget, MisalignedTarget) => true
    case (Trap, Trap) => true
    case _ => false
  }

  /** The instruction can tell that register 0 of `h` is not zero: operand by operand, what it
      computes from the registers differs from what it computes where register 0 reads as 0, in a
      result that is kept. */
  predicate SeesX0(i: Insn, h: Hart) {
    match i
    case Jalr(_, rs1, imm) =>
      var t, t0 := ClearBit0(EffectiveAddress(h, rs1, imm, Plain)), ClearBit0(EffectiveAddress(h, rs1, imm, Hardwired));
      t != t0 && (t % 4 == 0 || t0 % 4 == 0)
    case Branch(c, rs1, rs2, imm) =>
      && Taken(c, ReadX(h, rs1, Plain), ReadX(h, rs2, Plain))
           != Taken(c, ReadX(h, rs1, Hardwired), ReadX(h, rs2, Hardwired))
      && (Wrap(h.pc + imm) != Wrap(h.pc + 4) || Wrap(h.pc + imm) % 4 != 0)
    case Load(width, signed, rd, rs1, imm) =>
      (match (Read(h.mem, EffectiveAddress(h, rs1, imm, Plain), width),
              Read(h.mem, EffectiveAddress(h, rs1, imm, Hardwired), width))
       case (Some(v), Some(v0)) => rd != 0 && Extend(width, signed, v) != Extend(width, signed, v0)
       case (None, None) => false
       case _ => true)
    case Store(width, rs1, rs2, imm) =>
      Write(h.mem, EffectiveAddress(h, rs1, imm, Plain), width, ReadX(h, rs2, Plain))
        != Write(h.mem, EffectiveAddress(h, rs1, imm, Hardwired), width, ReadX(h, rs2, Hardwired))
    case OpImm(op, rd, rs1, imm) =>
      rd != 0 && Alu(op, ReadX(h, rs1, Plain), Wrap(imm)) != Alu(op, ReadX(h, rs1, Hardwired), Wrap(imm))
    case Op(op, rd, rs1, rs2) =>
      && rd != 0
      && Alu(op, ReadX(h, rs1, Plain), ReadX(h, rs2, Plain))
           != Alu(op, ReadX(h, rs1, Hardwired), ReadX(h, rs2, Hardwired))
    case _ => false
  }

  lemma ReadsAlike(h: Hart, g: Hart, r: Reg)
    requires SameButX0(h, g)
    ensures ReadX(g, r, Hardwired) == ReadX(h, r, Hardwired)
  {
  }

  lemma WritesAlikeIff(h: Hart, g: Hart, r: Reg, v: Word, v0: Word)
    requires SameButX0(h, g)
    ensures SameButX0(Advance(WriteX(h, r, v, Plain)), Advance(WriteX(g, r, v0, Hardwired))) <==> (r == 0 || v == v0)
  {
    if r != 0 {
      assert Advance(WriteX(h, r, v, Plain)).regs[r] == v;
    }
  }

  lemma JumpsAlikeIff(h: Hart, g: Hart, r: Reg, link: Word, t: Word, t0: Word)
    requires SameButX0(h, g)
    ensures SameResult(Jump(WriteX(h, r, link, Plain), t), Jump(WriteX(g, r, link, Hardwired), t0))
        <==> !(t != t0 && (t % 4 == 0 || t0 % 4 == 0))
  {
  }

  /** One instruction keeps two harts equal up to register 0, with the outcome RV32I demands, if and
      only if it does not see register 0. */
  lemma InStepIff(i: Insn, h: Hart, g: Hart)
    requires SameButX0(h, g)
    ensures SameResult(Exec(i, h, Plain), Exec(i, g, Hardwired)) <==> !SeesX0(i, h)
  {
    hide Alu, Read, Write, Taken, Extend, ReadX, WriteX, Jump, ClearBit0;
    match i
    case Lui(rd, imm) => WritesAlikeIff(h, g, rd, Wrap(imm), Wrap(imm));
    case Auipc(rd, imm) => WritesAlikeIff(h, g, rd, Wrap(h.pc + imm), Wrap(h.pc + imm));
    case Jal(rd, imm) => JumpsAlikeIff(h, g, rd, Wrap(h.pc + 4), Wrap(h.pc + imm), Wrap(h.pc + imm));
    case Jalr(rd, rs1, imm) =>
      ReadsAlike(h, g, rs1);
      JumpsAlikeIff(h, g, rd, Wrap(h.pc + 4), ClearBit0(EffectiveAddress(h, rs1, imm, Plain)),
                    ClearBit0(EffectiveAddress(h, rs1, imm, Hardwired)));
    case Branch(_, _, _, _) => BranchInStepIff(i, h, g);
    case Load(_, _, _, _, _) => LoadInStepIff(i, h, g);
    case Store(_, rs1, rs2, _) =>
      ReadsAlike(h, g, rs1);
      ReadsAlike(h, g, rs2);
    case OpImm(op, rd, rs1, imm) =>
      ReadsAlike(h, g, rs1);
      WritesAlikeIff(h, g, rd, Alu(op, ReadX(h, rs1, Plain), Wrap(imm)), Alu(op, ReadX(h, rs1, Hardwired), Wrap(imm)));
    case Op(op, rd, rs1, rs2) =>
      ReadsAlike(h, g, rs1);
      ReadsAlike(h, g, rs2);
      WritesAlikeIff(h, g, rd, Alu(op, ReadX(h, rs1, Plain), ReadX(h, rs2, Plain)),
                     Alu(op, ReadX(h, rs1, Hardwired), ReadX(h, rs2, Hardwired)));
    case _ =>
  }

  lemma BranchInStepIff(i: Insn, h: Hart, g: Hart)
    requires i.Branch? && SameButX0(h, g)
    ensures SameResult(Exec(i, h, Plain), Exec(i, g, Hardwired)) <==> !SeesX0(i, h)
  {
    hide Taken, ReadX;
    ReadsAlike(h, g, i.rs1);
    ReadsAlike(h, g, i.rs2);
  }

  lemma LoadInStepIff(i: Insn, h: Hart, g: Hart)
    requires i.Load? && SameButX0(h, g)
    ensures SameResult(Exec(i, h, Plain), Exec(i, g, Hardwired)) <==> !SeesX0(i, h)
  {
    hide Read, Extend, ReadX, WriteX;
    ReadsAlike(h, g, i.rs1);
    var r, r0 := Read(h.mem, EffectiveAddress(h, i.rs1, i.imm, Plain), i.width),
                 Read(h.mem, EffectiveAddress(h, i.rs1, i.imm, Hardwired), i.width);
    if r.Some? && r0.Some? {
      WritesAlikeIff(h, g, i.rd, Extend(i.width, i.signed, r.value), Extend(i.width, i.signed, r0.value));
    }
  }

  /** The next instruction does not see register 0. */
  ghost predicate BlindX0Step(h: Hart) {
    match FetchWord(h.mem, h.pc)
    case None => true
    case Some(w) => !SeesX0(Meaning(w), h)
  }

  ghost predicate BlindX0Steps(h: Hart, n: nat)
    decreases n
  {
    n > 0 ==>
      && BlindX0Step(h)
      && (SpecStep(h, Plain).Ok? ==> BlindX0Steps(SpecStep(h, Plain).hart, n - 1))
  }

  /** After every number of steps up to n, a plain and a hardwired register 0 have led to the same
      outcome, registers x1 to x31, PC and memory. */
  ghost predicate InStep(h: Hart, g: Hart, n: nat) {
    forall k: nat :: k <= n ==> SameResult(SpecSteps(h, k, Plain), SpecSteps(g, k, Hardwired))
  }

  lemma StepInStepIff(h: Hart, g: Hart)
    requires SameButX0(h, g)
    ensures SameResult(SpecStep(h, Plain), SpecStep(g, Hardwired)) <==> BlindX0Step(h)
  {
    hide FetchWord, Exec, SeesX0, Meaning, SameButX0;
    SamePcAndMemory(h, g);
    if FetchWord(h.mem, h.pc).Some? {
      InStepIff(Meaning(FetchWord(h.mem, h.pc).value), h, g);
    }
  }

  lemma SamePcAndMemory(h: Hart, g: Hart)
    requires SameButX0(h, g)
    ensures h.pc == g.pc && h.mem == g.mem
  {
  }

  lemma OneMoreStep(h: Hart, n: nat, x0: X0)
    ensures SpecSteps(h, n + 1, x0) ==
      if SpecStep(h, x0).Ok? then SpecSteps(SpecStep(h, x0).hart, n, x0) else SpecStep(h, x0)
    ensures SpecSteps(h, 0, x0) == Ok(h)
  {
    hide SpecStep;
  }

  lemma InStepTail(h: Hart, g: Hart, n: nat)
    requires SameButX0(h, g)
    ensures InStep(h, g, n + 1) <==>
      && SameResult(SpecStep(h, Plain), SpecStep(g, Hardwired))
      && (SpecStep(h, Plain).Ok? ==> InStep(SpecStep(h, Plain).hart, SpecStep(g, Hardwired).hart, n))
  {
    hide SpecStep, SpecSteps, SameButX0;
    var r, r' := SpecStep(h, Plain), SpecStep(g, Hardwired);
    OneMoreStep(h, 0, Plain);
    OneMoreStep(g, 0, Hardwired);
    if r.Ok? {
      OneMoreStep(r.hart, 0, Plain);
    }
    if r'.Ok? {
      OneMoreStep(r'.hart, 0, Hardwired);
    }
    if InStep(h, g, n + 1) {
      assert SameResult(SpecSteps(h, 1, Plain), SpecSteps(g, 1, Hardwired));
      forall k: nat | k <= n
        ensures r.Ok? ==> SameResult(SpecSteps(r.hart, k, Plain), SpecSteps(r'.hart, k, Hardwired))
      {
        assert SameResult(SpecSteps(h, k + 1, Plain), SpecSteps(g, k + 1, Hardwired));
        OneMoreStep(h, k, Plain);
        OneMoreStep(g, k, Hardwired);
      }
    } else if SameResult(r, r') && (r.Ok? ==> InStep(r.hart, r'.hart, n)) {
      forall k: nat | k <= n + 1 ensures SameResult(SpecSteps(h, k, Plain), SpecSteps(g, k, Hardwired)) {
        if k > 0 {
          OneMoreStep(h, k - 1, Plain);
          OneMoreStep(g, k - 1, Hardwired);
        }
      }
    }
  }

  /** Register 0 does not interfere: a run with a plain register 0, of any length, is in step with
      RV32I all the way if and only if no instruction sees register 0. */
  lemma {:induction false} X0NonInterference(h: Hart, g: Hart, n: nat)
    requires SameButX0(h, g)
    ensures InStep(h, g, n) <==> BlindX0Steps(h, n)
    decreases n
  {
    hide SpecStep, SpecSteps, BlindX0Step, SameButX0, InStep;
    if n == 0 {
      InStepNow(h, g);
    } else {
      StepInStepIff(h, g);
      InStepTail(h, g, n - 1);
      if SameResult(SpecStep(h, Plain), SpecStep(g, Hardwired)) && SpecStep(h, Plain).Ok? {
        X0NonInterference(SpecStep(h, Plain).hart, SpecStep(g, Hardwired).hart, n - 1);
      }
    }
  }

  lemma InStepNow(h: Hart, g: Hart)
    requires SameButX0(h, g)
    ensures InStep(h, g, 0)
  {
    hide SpecStep, SameButX0;
  }

  /** No instruction reads register 0 while it holds something else than zero. */
  ghost predicate CleanX0Steps(h: Hart, n: nat)
    decreases n
  {
    n > 0 ==>
      && (FetchWord(h.mem, h.pc).Some? ==> !(ReadsX0(Meaning(FetchWord(h.mem, h.pc).value)) && h.regs[0] != 0))
      && (SpecStep(h, Plain).Ok? ==> CleanX0Steps(SpecStep(h, Plain).hart, n - 1))
  }

  lemma UnreadIsUnseen(i: Insn, h: Hart)
    requires !(ReadsX0(i) && h.regs[0] != 0)
    ensures !SeesX0(i, h)
  {
    hide Alu, Read, Write, Taken, Extend;
  }

  /** In particular, a run in which no instruction reads a dirty register 0 is in step. The converse
      fails: after any `j`, a NOP reads one and does not see it. */
  lemma {:induction false} CleanIsBlind(h: Hart, n: nat)
    requires CleanX0Steps(h, n)
    ensures BlindX0Steps(h, n)
    decreases n
  {
    hide FetchWord, SpecStep, Meaning, ReadsX0, SeesX0;
    if n > 0 {
      if FetchWord(h.mem, h.pc).Some? {
        UnreadIsUnseen(Meaning(FetchWord(h.mem, h.pc).value), h);
      }
      if SpecStep(h, Plain).Ok? {
        CleanIsBlind(SpecStep(h, Plain).hart, n - 1);
      }
    }
  }

  lemma NopReadsUnseen(h: Hart)
    ensures ReadsX0(OpImm(Add, 0, 0, 0)) && !SeesX0(OpImm(Add, 0, 0, 0), h)
  {
  }

  // ----- register 0 itself -----

  /** The instruction writes a nonzero value to register 0. */
  predicate DirtiesX0(i: Insn, h: Hart) {
    match i
    case Lui(rd, imm) => rd == 0 && Wrap(imm) != 0
    case Auipc(rd, imm) => rd == 0 && Wrap(h.pc + imm) != 0
    case Jal(rd, imm) => rd == 0 && Wrap(h.pc + 4) != 0 && Wrap(h.pc + imm) % 4 == 0
    case Jalr(rd, rs1, imm) =>
      rd == 0 && Wrap(h.pc + 4) != 0 && ClearBit0(EffectiveAddress(h, rs1, imm, Hardwired)) % 4 == 0
    case Load(width, signed, rd, rs1, imm) =>
      var v := Read(h.mem, EffectiveAddress(h, rs1, imm, Hardwired), width);
      rd == 0 && v.Some? && Extend(width, signed, v.value) != 0
    case OpImm(op, rd, rs1, imm) => rd == 0 && Alu(op, ReadX(h, rs1, Hardwired), Wrap(imm)) != 0
    case Op(op, rd, rs1, rs2) => rd == 0 && Alu(op, ReadX(h, rs1, Hardwired), ReadX(h, rs2, Hardwired)) != 0
    case _ => false
  }

  lemma ZeroReads(h: Hart, r: Reg)
    requires h.regs[0] == 0
    ensures ReadX(h, r, Plain) == ReadX(h, r, Hardwired)
  {
  }

  lemma ZeroWritesIff(h: Hart, r: Reg, v: Word, pc: Word)
    requires h.regs[0] == 0
    ensures WriteX(h, r, v, Plain).(pc := pc) == WriteX(h, r, v, Hardwired).(pc := pc) <==> !(r == 0 && v != 0)
    ensures WriteX(h, r, v, Hardwired).regs[0] == 0
    ensures WriteX(h, r, v, Plain).pc == h.pc && WriteX(h, r, v, Hardwired).pc == h.pc
  {
    assert WriteX(h, 0, v, Plain).regs[0] == v;
    assert h.regs[0 := 0] == h.regs;
  }

  /** From a hart whose register 0 is zero, a plain register 0 gives RV32I on all 32 registers if and
      only if the instruction does not write a nonzero value to it; and then it is zero again. */
  lemma SameHartIff(i: Insn, h: Hart)
    requires h.regs[0] == 0
    ensures Exec(i, h, Plain) == Exec(i, h, Hardwired) <==> !DirtiesX0(i, h)
    ensures Exec(i, h, Hardwired).Ok? ==> Exec(i, h, Hardwired).hart.regs[0] == 0
  {
    hide Alu, Read, Write, Taken, Extend, ReadX, WriteX, ClearBit0;
    match i
    case Lui(rd, imm) => ZeroWritesIff(h, rd, Wrap(imm), Wrap(h.pc + 4));
    case Auipc(rd, imm) => ZeroWritesIff(h, rd, Wrap(h.pc + imm), Wrap(h.pc + 4));
    case Jal(rd, imm) => ZeroWritesIff(h, rd, Wrap(h.pc + 4), Wrap(h.pc + imm));
    case Jalr(rd, rs1, imm) =>
      ZeroReads(h, rs1);
      ZeroWritesIff(h, rd, Wrap(h.pc + 4), ClearBit0(EffectiveAddress(h, rs1, imm, Hardwired)));
    case Load(width, signed, rd, rs1, imm) =>
      ZeroReads(h, rs1);
      var v := Read(h.mem, EffectiveAddress(h, rs1, imm, Hardwired), width);
      if v.Some? {
        ZeroWritesIff(h, rd, Extend(width, signed, v.value), Wrap(h.pc + 4));
      }
    case Branch(_, rs1, rs2, _) =>
      ZeroReads(h, rs1);
      ZeroReads(h, rs2);
    case Store(_, rs1, rs2, _) =>
      ZeroReads(h, rs1);
      ZeroReads(h, rs2);
    case OpImm(op, rd, rs1, imm) =>
      ZeroReads(h, rs1);
      ZeroWritesIff(h, rd, Alu(op, ReadX(h, rs1, Hardwired), Wrap(imm)), Wrap(h.pc + 4));
    case Op(op, rd, rs1, rs2) =>
      ZeroReads(h, rs1);
      ZeroReads(h, rs2);
      ZeroWritesIff(h, rd, Alu(op, ReadX(h, rs1, Hardwired), ReadX(h, rs2, Hardwired)), Wrap(h.pc + 4));
    case _ =>
  }

  ghost predicate PureX0Step(h: Hart) {
    match FetchWord(h.mem, h.pc)
    case None => true
    case Some(w) => !DirtiesX0(Meaning(w), h)
  }

  /** No instruction of the run writes a nonzero value to register 0. */
  ghost predicate PureX0Steps(h: Hart, n: nat)
    decreases n
  {
    n > 0 ==>
      && PureX0Step(h)
      && (SpecStep(h, Hardwired).Ok? ==> PureX0Steps(SpecStep(h, Hardwired).hart, n - 1))
  }

  ghost predicate SameRun(h: Hart, n: nat) {
    forall k: nat :: k <= n ==> SpecSteps(h, k, Plain) == SpecSteps(h, k, Hardwired)
  }

  lemma StepSameIff(h: Hart)
    requires h.regs[0] == 0
    ensures SpecStep(h, Plain) == SpecStep(h, Hardwired) <==> PureX0Step(h)
    ensures SpecStep(h, Hardwired).Ok? ==> SpecStep(h, Hardwired).hart.regs[0] == 0
  {
    hide FetchWord, Exec, DirtiesX0, Meaning;
    if FetchWord(h.mem, h.pc).Some? {
      SameHartIff(Meaning(FetchWord(h.mem, h.pc).value), h);
    }
  }

  lemma SameRunTail(h: Hart, n: nat)
    ensures SameRun(h, n + 1) <==>
      && SpecStep(h, Plain) == SpecStep(h, Hardwired)
      && (SpecStep(h, Hardwired).Ok? ==> SameRun(SpecStep(h, Hardwired).hart, n))
  {
    hide SpecStep, SpecSteps;
    var r, r' := SpecStep(h, Plain), SpecStep(h, Hardwired);
    OneMoreStep(h, 0, Plain);
    OneMoreStep(h, 0, Hardwired);
    if r.Ok? {
      OneMoreStep(r.hart, 0, Plain);
    }
    if r'.Ok? {
      OneMoreStep(r'.hart, 0, Hardwired);
    }
    if SameRun(h, n + 1) {
      assert SpecSteps(h, 1, Plain) == SpecSteps(h, 1, Hardwired);
      forall k: nat | k <= n ensures r'.Ok? ==> SpecSteps(r'.hart, k, Plain) == SpecSteps(r'.hart, k, Hardwired) {
        assert SpecSteps(h, k + 1, Plain) == SpecSteps(h, k + 1, Hardwired);
        OneMoreStep(h, k, Plain);
        OneMoreStep(h, k, Hardwired);
      }
    } else if r == r' && (r'.Ok? ==> SameRun(r'.hart, n)) {
      forall k: nat | k <= n + 1 ensures SpecSteps(h, k, Plain) == SpecSteps(h, k, Hardwired) {
        if k > 0 {
          OneMoreStep(h, k - 1, Plain);
          OneMoreStep(h, k - 1, Hardwired);
        }
      }
    }
  }

  /** From a hart whose register 0 is zero, a run with a plain register 0 is RV32I's on all 32
      registers all the way if and only if no instruction writes a nonzero value to register 0. */
  lemma {:induction false} SameRunIff(h: Hart, n: nat)
    requires h.regs[0] == 0
    ensures SameRun(h, n) <==> PureX0Steps(h, n)
    decreases n
  {
    hide SpecStep, PureX0Step, SameRun;
    if n == 0 {
      SameNow(h);
    } else {
      StepSameIff(h);
      SameRunTail(h, n - 1);
      if SpecStep(h, Hardwired).Ok? {
        SameRunIff(SpecStep(h, Hardwired).hart, n - 1);
      }
    }
  }

  lemma SameNow(h: Hart)
    ensures SameRun(h, 0)
  {
    hide SpecStep;
  }

  lemma MeaningOfEncoded(i: Insn)
    requires Valid(i)
    ensures Meaning(Encode(i)) == i
  {
    hide Encode, Encodes, Disassemble, Meaning, Valid;
    EncodeThenDisassemble(i);
    MeaningOfEncoding(Mnemonic(i), Encode(i));
  }

  /** The condition is needed, for every jump: `j target` dirties register 0, and `li rd, k` at the
      target then reads it. RV32I gives rd the value k, a plain register 0 gives pc + 4 + k. */
  lemma DirtyX0IsVisible(h: Hart, offset: int, rd: Reg, k: int)
    requires rd != 0 && Valid(Jal(0, offset)) && Valid(OpImm(Add, rd, 0, k))
    requires Wrap(h.pc + offset) % 4 == 0
    requires FetchWord(h.mem, h.pc) == Some(Encode(Jal(0, offset)))
    requires FetchWord(h.mem, Wrap(h.pc + offset)) == Some(Encode(OpImm(Add, rd, 0, k)))
    ensures SpecSteps(h, 2, Plain).Ok? && SpecSteps(h, 2, Plain).hart.regs[rd] == Wrap(h.pc + 4 + k)
    ensures SpecSteps(h, 2, Hardwired).Ok? && SpecSteps(h, 2, Hardwired).hart.regs[rd] == Wrap(k)
  {
    hide FetchWord, Encode, Meaning, SpecSteps, Valid, Wrap;
    MeaningOfEncoded(Jal(0, offset));
    MeaningOfEncoded(OpImm(Add, rd, 0, k));
    AfterJump(h, offset, rd, k, Plain);
    AfterJump(h, offset, rd, k, Hardwired);
    WrapAdd(Wrap(h.pc + 4), k);
    WrapSum(h.pc + 4, k);
    WrapAdd(0, k);
  }

  lemma AfterJump(h: Hart, offset: int, rd: Reg, k: int, x0: X0)
    requires rd != 0 && Wrap(h.pc + offset) % 4 == 0
    requires FetchWord(h.mem, h.pc).Some? && Meaning(FetchWord(h.mem, h.pc).value) == Jal(0, offset)
    requires FetchWord(h.mem, Wrap(h.pc + offset)).Some?
    requires Meaning(FetchWord(h.mem, Wrap(h.pc + offset)).value) == OpImm(Add, rd, 0, k)
    ensures SpecSteps(h, 2, x0).Ok?
    ensures SpecSteps(h, 2, x0).hart.regs[rd] == Wrap((if x0.Plain? then Wrap(h.pc + 4) else 0) + Wrap(k))
  {
    hide FetchWord, Meaning, SpecSteps;
    var h1 := WriteX(h, 0, Wrap(h.pc + 4), x0).(pc := Wrap(h.pc + offset));
    TwoSpecSteps(h, h1, x0);
  }

  lemma TwoSpecSteps(h: Hart, h1: Hart, x0: X0)
    requires SpecStep(h, x0) == Ok(h1) && SpecStep(h1, x0).Ok?
    ensures SpecSteps(h, 2, x0) == SpecStep(h1, x0)
  {
    hide SpecStep;
    assert SpecSteps(h1, 1, x0) == SpecStep(h1, x0);
  }

  // ----- end to end -----

  /** Boot a hart and turn the dispatch loop n times. If no turn stores to cached code or runs past
      a silent word, and the executed instructions are faithful, then the loop's state is that of
      RV32I with a plain register 0 after as many instructions. That run is in step with RV32I, on
      every register but 0, PC and memory, exactly when no instruction sees register 0; and from a
      register 0 that is zero it is RV32I's on all registers exactly when none is written to it. */
  lemma EndToEnd(h: Hart, threshold: nat, n: nat)
    requires SafeTurns(Boot(Embed(h)), threshold, n) && Turns(Boot(Embed(h)), threshold, n).Running?
    requires FaithfulSteps(h, Executed(Boot(Embed(h)), threshold, n))
    ensures var k := Executed(Boot(Embed(h)), threshold, n);
      && SpecSteps(h, k, Plain).Ok?
      && Turns(Boot(Embed(h)), threshold, n).s.m == Embed(SpecSteps(h, k, Plain).hart)
      && (InStep(h, h, k) <==> BlindX0Steps(h, k))
      && (BlindX0Steps(h, k) ==>
            SpecSteps(h, k, Hardwired).Ok? && SameButX0(SpecSteps(h, k, Plain).hart, SpecSteps(h, k, Hardwired).hart))
      && (h.regs[0] == 0 ==>
            && (SameRun(h, k) <==> PureX0Steps(h, k))
            && (PureX0Steps(h, k) ==> SpecSteps(h, k, Plain) == SpecSteps(h, k, Hardwired)))
  {
    hide Turns, SafeTurns, Executed, FaithfulSteps, BlindX0Steps, PureX0Steps, IrSteps, SpecSteps, Boot, Embed,
      CoherentSystem;
    var k := Executed(Boot(Embed(h)), threshold, n);
    WholeRunFromBoot(Embed(h), threshold, n);
    FaithfulAgrees(h, k, k);
    assert SameButX0(h, h);
    X0NonInterference(h, h, k);
    if h.regs[0] == 0 {
      SameRunIff(h, k);
    }
  }

  /** The converse for crashes: within n turns the loop stops working only where, within n times the
      threshold steps, RV32I with a plain register 0 faults on an access or meets an instruction
      that is not translated faithfully. */
  lemma CrashHasACause(h: Hart, threshold: nat, n: nat)
    requires SafeTurns(Boot(Embed(h)), threshold, n) && Turns(Boot(Embed(h)), threshold, n).Crashed?
    ensures SpecSteps(h, Bound(threshold, n), Plain).AccessFault? || !FaithfulSteps(h, Bound(threshold, n))
  {
    hide Turns, SafeTurns, FaithfulSteps, IrSteps, SpecSteps, Embed, Bound;
    WholeRun(Boot(Embed(h)), threshold, n);
    var k := Bound(threshold, n);
    if FaithfulSteps(h, k) {
      FaithfulAgrees(h, k, k);
    }
  }

  // ----- the side conditions can be met for ever -----

  /** The hart after `j .`, which jumps to itself and writes register 0. */
  function Idled(h: Hart): Hart {
    WriteX(h, 0, Wrap(h.pc + 4), Plain)
  }

  predicate Idles(h: Hart) {
    h.pc % 4 == 0 && FetchWord(h.mem, h.pc) == Some(Encode(Jal(0, 0)))
  }

  lemma IdleStep(h: Hart)
    requires Idles(h)
    ensures FaithfulStep(h) && BlindX0Step(h) && SpecStep(h, Plain) == Ok(Idled(h)) && Idles(Idled(h))
    ensures WordEffect(Encode(Jal(0, 0)), Embed(h)) == Done(Embed(Idled(h)))
  {
    hide Encode, FetchWord, WordEffect, Decode, ReadLoosely, Embed, Meaning;
    var w := Encode(Jal(0, 0));
    MeaningOfEncoded(Jal(0, 0));
    IdleWord();
    MeaningDecoded(w);
    assert Wrap(h.pc + 0) == h.pc;
    IdlePc(h);
    StepAgreesIff(h);
  }

  lemma IdleWord()
    ensures Decode(Encode(Jal(0, 0))) == JAL
    ensures !Silent(Encode(Jal(0, 0))) && Transfers(Encode(Jal(0, 0))) && ShapeFor(Encode(Jal(0, 0))) == JalShape
  {
    hide Encode, Decode;
    RoundTrip(Jal(0, 0));
  }

  /** The cache of a run of `j .`. */
  predicate IdleCache(h: Hart, cache: map<Word, seq<InsnWord>>) {
    cache == map[] || cache == map[h.pc := [Encode(Jal(0, 0))]]
  }

  lemma IdleBlock(h: Hart, cache: map<Word, seq<InsnWord>>)
    requires Idles(h)
    ensures QuietButLast([Encode(Jal(0, 0))]) && Clear([Encode(Jal(0, 0))], Embed(h), cache)
    ensures Call(EmitBlock([Encode(Jal(0, 0))], 0), Embed(h)) == Done(Embed(Idled(h)))
  {
    hide Encode, Idles, WordEffect, Embed, Idled, EmitBlock, Call, ShapeFor, StoresTo, Covered;
    var w := Encode(Jal(0, 0));
    IdleWord();
    IdleStep(h);
    BlockRunsItsWords([w], Embed(h));
    assert [w][1..] == [];
    forall x: Word ensures !StoresTo(w, Embed(h), x) {
      JumpsStoreNothing(w, Embed(h), x);
    }
  }

  lemma IdleForms(h: Hart, threshold: nat)
    requires Idles(h) && threshold >= 1
    ensures FormWords(h.mem, h.pc, threshold) == Some([Encode(Jal(0, 0))])
  {
    hide Encode, FetchWord, Transfers;
    IdleWord();
  }

  lemma IdleTurn(h: Hart, s: System, threshold: nat)
    requires Idles(h) && s.m == Embed(h) && IdleCache(h, s.cache) && threshold >= 1
    ensures SafeTurn(s, threshold) && Turn(s, threshold).Running?
    ensures var s' := Turn(s, threshold).s;
      s'.m == Embed(Idled(h)) && h.pc in s'.cache && |s'.cache[h.pc]| == 1 && IdleCache(h, s'.cache)
  {
    hide Encode, Idles, Embed, Idled, EmitBlock, Call, QuietButLast, Clear, FormWords, Gap;
    IdlePc(h);
    IdleForms(h, threshold);
    IdleBlock(h, Translate(s, h.pc, threshold).value.cache);
  }

  lemma JumpsStoreNothing(w: InsnWord, m: Machine, x: Word)
    requires ShapeFor(w) == JalShape
    ensures !StoresTo(w, m, x)
  {
    hide ShapeFor;
  }

  /** The hypotheses of `EndToEnd` are met by runs of every length: a guest that executes `j .`. */
  lemma {:induction false} SideConditionsAreMet(h: Hart, s: System, threshold: nat, n: nat)
    requires Idles(h) && s.m == Embed(h) && IdleCache(h, s.cache) && threshold >= 1
    ensures SafeTurns(s, threshold, n) && Turns(s, threshold, n).Running? && Executed(s, threshold, n) == n
    ensures FaithfulSteps(h, n) && BlindX0Steps(h, n)
    decreases n
  {
    hide Turn, SafeTurn, FaithfulStep, BlindX0Step, SpecStep, Embed, Idles, Encode, Idled, IdleCache;
    if n > 0 {
      IdleStep(h);
      IdleTurn(h, s, threshold);
      IdlePc(h);
      IdleCacheKept(h, Turn(s, threshold).s.cache);
      SideConditionsAreMet(Idled(h), Turn(s, threshold).s, threshold, n - 1);
    }
  }

  lemma IdlePc(h: Hart)
    ensures Embed(h).pc == Def(h.pc) && Embed(h).mem == h.mem && Idled(h).pc == h.pc
  {
  }

  lemma IdleCacheKept(h: Hart, cache: map<Word, seq<InsnWord>>)
    requires IdleCache(h, cache)
    ensures IdleCache(Idled(h), cache)
  {
    hide Encode;
  }
}
