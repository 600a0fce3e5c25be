/** What the code of each instruction computes, said in integers, binary digits and bytes: these
    statements lean on no operation that the manual's semantics and the evaluator share. */
module CodeMeaning {
  import opened Words
  import opened GuestMemory
  import opened Isa
  import opened Decoder
  import opened Ir
  import opened Translator
  import opened Translation
  import opened Blocks

  /** The code of `m` for `w`, run on `h`, ends in `h'`. */
  predicate TakesTo(m: Instr, w: InsnWord, h: Hart, h': Hart) {
    Call(Emit(m, w, 0), Embed(h)) == Done(Embed(h'))
  }

  predicate IsUndefined(m: Instr, w: InsnWord, h: Hart) {
    Call(Emit(m, w, 0), Embed(h)) == Undefined
  }

  /** `h` with `v` in rd, one instruction further on. */
  function Written(h: Hart, rd: Reg, v: Word): Hart {
    h.(regs := h.regs[rd := v], pc := Wrap(h.pc + 4))
  }

  function Source1(w: InsnWord, h: Hart): Word {
    h.regs[FieldRs1(w)]
  }

  function Source2(w: InsnWord, h: Hart): Word {
    h.regs[FieldRs2(w)]
  }

  lemma CodeIsExec(m: Instr, w: InsnWord, h: Hart)
    requires !m.UNKNOWN? && !m.ECALL? && Faithful(Disassemble(m, w), h)
    ensures match Exec(Disassemble(m, w), h, Plain)
      case Ok(h') => TakesTo(m, w, h, h')
      case AccessFault => IsUndefined(m, w, h)
      case _ => true
  {
    hide Call, Emit, Disassemble, Exec, Faithful, Embed;
    TranslationCorrect(m, w, h);
  }

  // ----- arithmetic -----

  /** The number of which the result is the residue modulo 2^32. */
  function Total(m: Instr, w: InsnWord, h: Hart): int
    requires m in {ADD, SUB, ADDI, LUI, AUIPC}
  {
    match m
    case ADD => Source1(w, h) + Source2(w, h)
    case SUB => Source1(w, h) - Source2(w, h)
    case ADDI => Source1(w, h) + SpecImmI(w)
    case LUI => SpecImmU(w)
    case AUIPC => h.pc + SpecImmU(w)
  }

  /** A residue: the one number of its range that differs by a multiple of 2^32. */
  lemma WrapLaw(x: int)
    ensures 0 <= Wrap(x) < 0x1_0000_0000 && (x - Wrap(x)) % 0x1_0000_0000 == 0
  {
  }

  lemma ArithmeticCode(m: Instr, w: InsnWord, h: Hart)
    requires m in {ADD, SUB, ADDI, LUI, AUIPC}
    ensures TakesTo(m, w, h, Written(h, FieldRd(w), Wrap(Total(m, w, h))))
  {
    hide TakesTo, SpecImmI, SpecImmU, FieldRd, FieldRs1, FieldRs2, Wrap;
    CodeIsExec(m, w, h);
    WrapAdd(Source1(w, h), SpecImmI(w));
  }

  /** FENCE, PAUSE and EBREAK only move on; ECALL and unknown words do not even that. */
  lemma IdleCode(m: Instr, w: InsnWord, h: Hart)
    requires m in {FENCE, FENCETSO, PAUSE, EBREAK, ECALL, UNKNOWN}
    ensures TakesTo(m, w, h, if m in {ECALL, UNKNOWN} then h else h.(pc := Wrap(h.pc + 4)))
  {
    hide Call, Emit, Extract, Embed;
    EmitIsDirect(m, w, Embed(h));
    EmbedAdvance(h);
  }

  // ----- bitwise logic -----

  predicate IsLogic(m: Instr) {
    m in {XOR, OR, AND, XORI, ORI, ANDI}
  }

  function LogicSource2(m: Instr, w: InsnWord, h: Hart): Word {
    if m in {XORI, ORI, ANDI} then Wrap(SpecImmI(w)) else Source2(w, h)
  }

  /** Whether a digit of the result is 1. */
  predicate LogicDigit(m: Instr, a: nat, b: nat)
    requires IsLogic(m)
  {
    if m in {XOR, XORI} then a != b else if m in {OR, ORI} then a == 1 || b == 1 else a == 1 && b == 1
  }

  predicate LogicResult(m: Instr, x: Word, y: Word, v: Word)
    requires IsLogic(m)
  {
    forall k :: 0 <= k < 32 ==> (Digit(v, k) == 1 <==> LogicDigit(m, Digit(x, k), Digit(y, k)))
  }

  function LogicOperator(m: Instr): BitOperator
    requires IsLogic(m)
  {
    if m in {XOR, XORI} then BitXor else if m in {OR, ORI} then BitOr else BitAnd
  }

  lemma LogicIsDigits(m: Instr, x: Word, y: Word)
    requires IsLogic(m)
    ensures LogicResult(m, x, y, BitOp(LogicOperator(m), x, y))
  {
    hide Digit, Bitwise;
    forall k: nat | k < 32
      ensures Digit(BitOp(LogicOperator(m), x, y), k) == 1 <==> LogicDigit(m, Digit(x, k), Digit(y, k))
    {
      BitwiseDigit(LogicOperator(m), x, y, 32, k);
      DigitRange(x, k);
      DigitRange(y, k);
    }
  }

  lemma DigitRange(x: nat, k: nat)
    ensures Digit(x, k) < 2
  {
  }

  lemma LogicExec(m: Instr, w: InsnWord, h: Hart)
    requires IsLogic(m)
    ensures Faithful(Disassemble(m, w), h)
    ensures Exec(Disassemble(m, w), h, Plain)
         == Ok(Written(h, FieldRd(w), BitOp(LogicOperator(m), Source1(w, h), LogicSource2(m, w, h))))
  {
    hide SpecImmI, FieldRd, FieldRs1, FieldRs2, Wrap, BitOp;
  }

  /** Each binary digit of XOR, OR and AND, register or immediate, is what its name says of the
      operands' digits. */
  lemma LogicCode(m: Instr, w: InsnWord, h: Hart)
    requires IsLogic(m)
    ensures exists v: Word ::
      LogicResult(m, Source1(w, h), LogicSource2(m, w, h), v) && TakesTo(m, w, h, Written(h, FieldRd(w), v))
  {
    hide TakesTo, LogicResult, Written, Source1, LogicSource2, BitOp, Exec, Disassemble, Faithful, FieldRd;
    LogicExec(m, w, h);
    CodeIsExec(m, w, h);
    LogicIsDigits(m, Source1(w, h), LogicSource2(m, w, h));
  }

  // ----- comparisons -----

  /** `x` holds the signed number `a`. */
  predicate Holds32(x: Word, a: int) {
    -0x8000_0000 <= a < 0x8000_0000 && x == Wrap(a)
  }

  lemma HoldsSigned(x: Word, a: int)
    requires Holds32(x, a)
    ensures ToSigned(x) == a
  {
    SignedOf(a);
  }

  /** SLTI compares signed numbers, SLTIU words. */
  lemma CompareImmediateCode(m: Instr, w: InsnWord, h: Hart, a: int)
    requires m in {SLTI, SLTIU} && Holds32(Source1(w, h), a)
    ensures TakesTo(m, w, h, Written(h, FieldRd(w),
      if (if m.SLTI? then a < SpecImmI(w) else Source1(w, h) < Wrap(SpecImmI(w))) then 1 else 0))
  {
    hide TakesTo, SpecImmI, ToSigned, Wrap;
    CodeIsExec(m, w, h);
    HoldsSigned(Source1(w, h), a);
    FieldRanges(w);
    SignedOf(SpecImmI(w));
  }

  lemma NotLess(p: Pred, x: Word)
    requires p.PredSlt? || p.PredUlt?
    ensures BitLane(CmpLane(p, Def(x), Def(x))) == Def(0)
  {
  }

  /** SLT and SLTU write 0, whatever their operands. */
  lemma CompareRegisterCode(m: Instr, w: InsnWord, h: Hart)
    requires m in {SLT, SLTU}
    ensures TakesTo(m, w, h, Written(h, FieldRd(w), 0))
  {
    hide Call, Emit, ImmOf, CmpLane, BitLane, Embed;
    var o := Extract(m, w);
    EmitIsDirect(m, w, Embed(h));
    EmbedRegs(h, o.rs1);
    NotLess(PredSlt, h.regs[o.rs1]);
    NotLess(PredUlt, h.regs[o.rs1]);
    SetAgrees(h, o.rd, 0);
  }

  // ----- control transfer -----

  predicate IsTaken(m: Instr, x: Word, y: Word, a: int, b: int)
    requires IsBranch(m)
  {
    match m
    case BEQ => x == y
    case BNE => x != y
    case BLT => a < b
    case BGE => a >= b
    case BLTU => x < y
    case BGEU => x >= y
  }

  lemma BranchShapeHolds(m: Instr, x: Word, y: Word, a: int, b: int)
    requires IsBranch(m) && Holds32(x, a) && Holds32(y, b)
    ensures ShapeOf(m).BranchShape? && Ir.Holds(ShapeOf(m).pred, x, y) == IsTaken(m, x, y, a, b)
  {
    hide ToSigned;
    HoldsSigned(x, a);
    HoldsSigned(y, b);
  }

  /** Branches compare signed numbers or words as their names say; the target is not checked for
      alignment. */
  lemma BranchCode(m: Instr, w: InsnWord, h: Hart, a: int, b: int)
    requires IsBranch(m) && Holds32(Source1(w, h), a) && Holds32(Source2(w, h), b)
    ensures TakesTo(m, w, h, h.(pc :=
      if IsTaken(m, Source1(w, h), Source2(w, h), a, b) then Wrap(h.pc + SpecImmB(w)) else Wrap(h.pc + 4)))
  {
    hide Call, Emit, ShapeOf, SpecImmB, ImmOf, IsTaken, Holds, Holds32, Embed, Wrap;
    var o := Extract(m, w);
    EmitIsDirect(m, w, Embed(h));
    ImmediateB(m, w);
    BranchShapeHolds(m, Source1(w, h), Source2(w, h), a, b);
    EmbedRegs(h, o.rs1);
    EmbedRegs(h, o.rs2);
    WrapAdd(h.pc, SpecImmB(w));
    EmbedPc(h, Wrap(h.pc + SpecImmB(w)));
    EmbedPc(h, Wrap(h.pc + 4));
  }

  lemma ImmediateB(m: Instr, w: InsnWord)
    requires IsBranch(m)
    ensures ImmOf(m, w) == Wrap(SpecImmB(w))
  {
    ImmBIsSpec(w);
  }

  lemma EmbedPc(h: Hart, pc: Word)
    ensures Embed(h).(pc := Def(pc)) == Embed(h.(pc := pc)) && Embed(h).pc == Def(h.pc)
  {
  }

  /** JAL writes the next address and goes to the offset, whose bit 20 is read as its bit 19. */
  lemma JalCode(w: InsnWord, h: Hart)
    requires -0x8_0000 <= SpecImmJ(w) < 0x8_0000
    ensures TakesTo(JAL, w, h, Written(h, FieldRd(w), Wrap(h.pc + 4)).(pc := Wrap(h.pc + SpecImmJ(w))))
  {
    hide Call, Emit, SpecImmJ, ImmJ, Embed, Wrap;
    var o := Extract(JAL, w);
    EmitIsDirect(JAL, w, Embed(h));
    ImmJIsSpecIff(w);
    EmbedWrite(h, o.rd, Wrap(h.pc + 4));
    EmbedPc(h, h.pc);
    WrapAdd(h.pc, SpecImmJ(w));
    EmbedPc(WriteX(h, o.rd, Wrap(h.pc + 4), Plain), Wrap(h.pc + SpecImmJ(w)));
  }

  /** JALR goes to rs1 plus the immediate with bit 0 cleared, as they are before rd is written. */
  lemma JalrCode(w: InsnWord, h: Hart)
    ensures var t := Wrap(Source1(w, h) + SpecImmI(w));
      TakesTo(JALR, w, h, Written(h, FieldRd(w), Wrap(h.pc + 4)).(pc := t - t % 2))
  {
    hide Call, Emit, SpecImmI, ImmI, Embed, Wrap, DirectJalr;
    var o := Extract(JALR, w);
    EmitIsDirect(JALR, w, Embed(h));
    ImmIIsSpec(w);
    JalrEffect(o, SpecImmI(w), h);
    EmbedPc(WriteX(h, o.rd, Wrap(h.pc + 4), Plain), ClearBit0(Wrap(Source1(w, h) + SpecImmI(w))));
  }

  // ----- loads and stores -----

  /** Segment k is the first that holds address `a`, and it has `n` bytes from there on. */
  predicate FirstHolds(mem: Mem, a: Word, n: nat, k: nat) {
    && k < |mem|
    && mem[k].base + mem[k].size < 0x1_0000_0000 && mem[k].base <= a && a + n <= mem[k].base + mem[k].size && n > 0
    && forall j :: 0 <= j < k ==>
         !(mem[j].base <= a < mem[j].base + mem[j].size && mem[j].base + mem[j].size < 0x1_0000_0000)
  }

  lemma FirstHoldsIsPointer(mem: Mem, a: Word, n: nat, k: nat)
    requires FirstHolds(mem, a, n, k)
    ensures a - mem[k].base + n <= |mem[k].data| && Locate(mem, a, n) == Some(Location(k, a - mem[k].base))
  {
    hide Contains;
    ContainsIff(mem[k], a);
    forall j | 0 <= j < k ensures !Contains(mem[j], a) {
      ContainsIff(mem[j], a);
    }
    assert ValidSegment(mem[k]);
  }

  lemma LocatedIsFirst(mem: Mem, a: Word, n: nat)
    requires Locate(mem, a, n).Some? && n > 0
    ensures FirstHolds(mem, a, n, Locate(mem, a, n).value.index)
  {
    hide Contains;
    var k := Locate(mem, a, n).value.index;
    ContainsIff(mem[k], a);
    forall j | 0 <= j < k
      ensures !(mem[j].base <= a < mem[j].base + mem[j].size && mem[j].base + mem[j].size < 0x1_0000_0000)
    {
      ContainsIff(mem[j], a);
    }
    assert ValidSegment(mem[k]);
  }

  /** The little-endian number of one, two or four bytes. */
  function Number(data: seq<Byte>, o: nat, width: Width): nat
    requires o + width.Bytes() <= |data|
  {
    match width
    case W8 => data[o] as int
    case W16 => data[o] as int + 0x100 * data[o + 1] as int
    case W32 =>
      data[o] as int + 0x100 * data[o + 1] as int + 0x1_0000 * data[o + 2] as int + 0x100_0000 * data[o + 3] as int
  }

  lemma JoinIsNumber(data: seq<Byte>, o: nat, width: Width)
    requires o + width.Bytes() <= |data|
    ensures Join(data[o..o + width.Bytes()]) == Number(data, o, width)
  {
    var n := width.Bytes();
    JoinTail(data, o, n);
    if n > 1 {
      JoinTail(data, o + 1, n - 1);
    }
    if n > 2 {
      JoinTail(data, o + 2, n - 2);
      JoinTail(data, o + 3, n - 3);
    }
  }

  lemma JoinTail(data: seq<Byte>, o: nat, n: nat)
    requires n > 0 && o + n <= |data|
    ensures Join(data[o..o + n]) == data[o] + 256 * Join(data[o + 1..o + n])
    ensures Join(data[o + n..o + n]) == 0
  {
    assert data[o..o + n][1..] == data[o + 1..o + n];
    assert data[o..o + n][0] == data[o];
  }

  lemma ReadNumber(mem: Mem, a: Word, width: Width, k: nat)
    requires FirstHolds(mem, a, width.Bytes(), k)
    ensures a - mem[k].base + width.Bytes() <= |mem[k].data|
    ensures Read(mem, a, width) == Some(Number(mem[k].data, a - mem[k].base, width))
  {
    hide FirstHolds, Locate, Join, Number;
    FirstHoldsIsPointer(mem, a, width.Bytes(), k);
    JoinIsNumber(mem[k].data, a - mem[k].base, width);
  }

  /** An access works exactly where some segment is the first to hold it. */
  lemma ReadWorksIff(mem: Mem, a: Word, width: Width)
    ensures Read(mem, a, width).Some? <==> exists k :: FirstHolds(mem, a, width.Bytes(), k)
  {
    hide FirstHolds, Locate;
    if k :| FirstHolds(mem, a, width.Bytes(), k) {
      ReadNumber(mem, a, width, k);
    }
    if Read(mem, a, width).Some? {
      LocatedIsFirst(mem, a, width.Bytes());
    }
  }

  predicate IsLoad(m: Instr) {
    m in {LB, LH, LW, LBU, LHU}
  }

  function AccessWidth(m: Instr): Width
    requires IsLoad(m) || IsStore(m)
  {
    if m in {LB, LBU, SB} then W8 else if m in {LH, LHU, SH} then W16 else W32
  }

  function AccessAddress(m: Instr, w: InsnWord, h: Hart): Word {
    Wrap(Source1(w, h) + (if IsStore(m) then SpecImmS(w) else SpecImmI(w)))
  }

  /** `s` is the number that a load makes of the number `v` read: for LB and LH the one of the signed
      range with the same low bits. */
  predicate Loaded(m: Instr, v: nat, s: int)
    requires IsLoad(m)
  {
    match m
    case LB => -0x80 <= s < 0x80 && (s - v) % 0x100 == 0
    case LH => -0x8000 <= s < 0x8000 && (s - v) % 0x1_0000 == 0
    case _ => s == v
  }

  lemma LoadExec(m: Instr, w: InsnWord, h: Hart)
    requires IsLoad(m)
    ensures Faithful(Disassemble(m, w), h)
    ensures var r := Read(h.mem, AccessAddress(m, w, h), AccessWidth(m));
      Exec(Disassemble(m, w), h, Plain) ==
        if r.None? then AccessFault
        else Ok(Written(h, FieldRd(w), Extend(AccessWidth(m), m !in {LBU, LHU}, r.value)))
  {
    hide SpecImmI, FieldRd, FieldRs1, Wrap, Read, Extend;
  }

  lemma LoadedIsExtend(m: Instr, v: Word, s: int)
    requires IsLoad(m) && v < Modulus(AccessWidth(m)) && Loaded(m, v, s)
    ensures Extend(AccessWidth(m), m !in {LBU, LHU}, v) == Wrap(s)
  {
    if m.LB? {
      SignExtendLaw(v, 0);
      SameResidue(s, ToSigned(SignExtend8(v)), v, 0x100);
      ToSignedLaw(SignExtend8(v));
    } else if m.LH? {
      SignExtendLaw(0, v);
      SameResidue(s, ToSigned(SignExtend16(v)), v, 0x1_0000);
      ToSignedLaw(SignExtend16(v));
    }
  }

  lemma SameResidue(s: int, t: int, v: int, n: int)
    requires n == 0x100 || n == 0x1_0000
    requires -n <= 2 * s < n && -n <= 2 * t < n && (s - v) % n == 0 && (t - v) % n == 0
    ensures s == t
  {
  }

  /** The code of a load, where segment k is the first to hold the access, writes to rd the number
      written by the bytes there, extended as the mnemonic says. */
  lemma LoadCode(m: Instr, w: InsnWord, h: Hart, k: nat, s: int)
    requires IsLoad(m) && FirstHolds(h.mem, AccessAddress(m, w, h), AccessWidth(m).Bytes(), k)
    requires var o := AccessAddress(m, w, h) - h.mem[k].base;
      o + AccessWidth(m).Bytes() <= |h.mem[k].data| && Loaded(m, Number(h.mem[k].data, o, AccessWidth(m)), s)
    ensures TakesTo(m, w, h, Written(h, FieldRd(w), Wrap(s)))
  {
    hide TakesTo, Written, AccessAddress, FirstHolds, Read, Number, Exec, Disassemble, Faithful, FieldRd, Extend,
      Loaded;
    LoadExec(m, w, h);
    CodeIsExec(m, w, h);
    ReadNumber(h.mem, AccessAddress(m, w, h), AccessWidth(m), k);
    LoadedIsExtend(m, Read(h.mem, AccessAddress(m, w, h), AccessWidth(m)).value, s);
  }

  /** Byte i of a word, counted from the least significant. */
  function ByteOf(v: Word, i: nat): Byte
    requires i < 4
  {
    match i
    case 0 => v % 0x100
    case 1 => v / 0x100 % 0x100
    case 2 => v / 0x1_0000 % 0x100
    case 3 => v / 0x100_0000 % 0x100
  }

  /** `mem'` is `mem` but for `n` bytes of segment k from offset `o` on, which are the low bytes of
      `v`, the least significant first. */
  predicate Stored(mem: Mem, mem': Mem, k: nat, o: nat, n: nat, v: Word)
    requires k < |mem| && n <= 4
  {
    && |mem'| == |mem| && (forall j :: 0 <= j < |mem| && j != k ==> mem'[j] == mem[j])
    && mem'[k].base == mem[k].base && mem'[k].size == mem[k].size && |mem'[k].data| == |mem[k].data|
    && forall i :: 0 <= i < |mem[k].data| ==>
         mem'[k].data[i] == if o <= i < o + n then ByteOf(v, i - o) else mem[k].data[i]
  }

  lemma SplitIsBytes(v: Word, n: nat, i: nat)
    requires i < n <= 4
    ensures Split(v, n)[i] == ByteOf(v, i)
  {
    SplitDigits(v, n, i);
    assert Pow256(1) == 0x100;
    assert Pow256(2) == 0x1_0000;
    assert Pow256(3) == 0x100_0000;
  }

  lemma WriteStores(mem: Mem, a: Word, width: Width, v: Word, k: nat)
    requires FirstHolds(mem, a, width.Bytes(), k)
    ensures Write(mem, a, width, v).Some?
    ensures Stored(mem, Write(mem, a, width, v).value, k, a - mem[k].base, width.Bytes(), v)
  {
    hide FirstHolds, Locate, Split, ByteOf;
    var n := width.Bytes();
    FirstHoldsIsPointer(mem, a, n, k);
    forall i: nat | i < n ensures Split(v, n)[i] == ByteOf(v, i) {
      SplitIsBytes(v, n, i);
    }
  }

  lemma StoreExec(m: Instr, w: InsnWord, h: Hart)
    requires IsStore(m)
    ensures Faithful(Disassemble(m, w), h)
    ensures var r := Write(h.mem, AccessAddress(m, w, h), AccessWidth(m), Source2(w, h));
      Exec(Disassemble(m, w), h, Plain) ==
        if r.None? then AccessFault else Ok(h.(mem := r.value, pc := Wrap(h.pc + 4)))
  {
    hide SpecImmS, FieldRs1, FieldRs2, Wrap, Write;
  }

  /** The code of a store, where segment k is the first to hold the access, replaces the bytes there
      by the low bytes of rs2, the least significant first, and changes nothing else. */
  lemma StoreCode(m: Instr, w: InsnWord, h: Hart, k: nat)
    requires IsStore(m) && FirstHolds(h.mem, AccessAddress(m, w, h), AccessWidth(m).Bytes(), k)
    ensures var o := AccessAddress(m, w, h) - h.mem[k].base;
      exists mem': Mem ::
        Stored(h.mem, mem', k, o, AccessWidth(m).Bytes(), Source2(w, h))
        && TakesTo(m, w, h, h.(mem := mem', pc := Wrap(h.pc + 4)))
  {
    hide TakesTo, AccessAddress, Write, Exec, Disassemble, Faithful, Stored, AccessWidth;
    StoreExec(m, w, h);
    CodeIsExec(m, w, h);
    WriteStores(h.mem, AccessAddress(m, w, h), AccessWidth(m), Source2(w, h), k);
    var mem' := Write(h.mem, AccessAddress(m, w, h), AccessWidth(m), Source2(w, h)).value;
    assert Stored(h.mem, mem', k, AccessAddress(m, w, h) - h.mem[k].base, AccessWidth(m).Bytes(), Source2(w, h));
    assert TakesTo(m, w, h, h.(mem := mem', pc := Wrap(h.pc + 4)));
  }

  /** The code of a load or store is undefined exactly where no segment is the first to hold the
      access. */
  lemma AccessUndefinedIff(m: Instr, w: InsnWord, h: Hart)
    requires IsLoad(m) || IsStore(m)
    ensures IsUndefined(m, w, h) <==>
      forall k :: !FirstHolds(h.mem, AccessAddress(m, w, h), AccessWidth(m).Bytes(), k)
  {
    hide Call, Emit, Embed, AccessAddress, Read, Write, Exec, Disassemble, Faithful, FirstHolds, AccessWidth;
    var a, width := AccessAddress(m, w, h), AccessWidth(m);
    ReadWorksIff(h.mem, a, width);
    CodeIsExecIfAccess(m, w, h);
  }

  lemma CodeIsExecIfAccess(m: Instr, w: InsnWord, h: Hart)
    requires IsLoad(m) || IsStore(m)
    ensures IsUndefined(m, w, h) <==> Read(h.mem, AccessAddress(m, w, h), AccessWidth(m)).None?
  {
    hide Call, Emit, Embed, AccessAddress, Read, Write, Exec, Disassemble, Faithful, AccessWidth, Written, Extend;
    if IsLoad(m) {
      LoadExec(m, w, h);
    } else {
      StoreExec(m, w, h);
      WriteWorksIff(h.mem, AccessAddress(m, w, h), AccessWidth(m), Source2(w, h));
    }
    CodeIsExec(m, w, h);
  }

  /** A fetch, where segment k is the first to hold it, is the number written by the four bytes. */
  lemma FetchNumber(mem: Mem, pc: Word, k: nat)
    requires FirstHolds(mem, pc, 4, k)
    ensures pc - mem[k].base + 4 <= |mem[k].data| && FetchWord(mem, pc).Some?
    ensures Value(FetchWord(mem, pc).value) == Number(mem[k].data, pc - mem[k].base, W32)
  {
    hide FirstHolds, FetchWord, Read, Value, Number;
    ReadNumber(mem, pc, W32, k);
    FetchIsRead(mem, pc);
  }
}
