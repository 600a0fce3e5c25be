/** Stores and loads through translated code (src/Instruction.cpp, LB to SW): what a store left is
    what a load finds. */
module StoreLoad {
  import opened Words
  import opened GuestMemory
  import opened Isa
  import opened Decoder
  import opened Ir
  import opened Translator
  import opened Translation
  import opened Blocks
  import opened BlockBehaviour

  lemma EncodedStore(width: Width, rs1: Reg, rs2: Reg, imm: int)
    requires Valid(Store(width, rs1, rs2, imm))
    ensures var w := Encode(Store(width, rs1, rs2, imm));
      ShapeFor(w) == StoreShape(width)
      && OperandsFor(w).rs1 == rs1 && OperandsFor(w).rs2 == rs2 && OperandsFor(w).imm == Wrap(imm)
  {
    hide Encode, Decode, Extract;
    RoundTrip(Store(width, rs1, rs2, imm));
  }

  lemma EncodedLoad(width: Width, signed: bool, rd: Reg, rs1: Reg, imm: int)
    requires Valid(Load(width, signed, rd, rs1, imm))
    ensures var w := Encode(Load(width, signed, rd, rs1, imm));
      ShapeFor(w) == LoadShape(width, signed)
      && OperandsFor(w).rd == rd && OperandsFor(w).rs1 == rs1 && OperandsFor(w).imm == Wrap(imm)
  {
    hide Encode, Decode, Extract;
    RoundTrip(Load(width, signed, rd, rs1, imm));
  }

  lemma StoreEffect(width: Width, rs1: Reg, rs2: Reg, imm: int, m: Machine, base: Word, v: Word)
    requires Valid(Store(width, rs1, rs2, imm)) && m.regs[rs1] == Def(base) && m.regs[rs2] == Def(v)
    requires Write(m.mem, Wrap(base + imm), width, v).Some?
    ensures WordEffect(Encode(Store(width, rs1, rs2, imm)), m)
         == Done(Add4(m.(mem := Write(m.mem, Wrap(base + imm), width, v).value)))
  {
    hide Encode, WordEffect, ShapeFor, OperandsFor, Write, Valid;
    WordIsDirect(Encode(Store(width, rs1, rs2, imm)), m);
    EncodedStore(width, rs1, rs2, imm);
    WrapAdd(base, imm);
    WriteTruncates(m.mem, Wrap(base + imm), width, v);
  }

  lemma LoadEffect(width: Width, signed: bool, rd: Reg, rs1: Reg, imm: int, m: Machine, base: Word)
    requires Valid(Load(width, signed, rd, rs1, imm)) && m.regs[rs1] == Def(base)
    requires Read(m.mem, Wrap(base + imm), width).Some?
    ensures WordEffect(Encode(Load(width, signed, rd, rs1, imm)), m)
         == Done(Add4(SetLane(m, rd, Def(Extend(width, signed, Read(m.mem, Wrap(base + imm), width).value)))))
  {
    hide Encode, WordEffect, ShapeFor, OperandsFor, Read, Valid;
    WordIsDirect(Encode(Load(width, signed, rd, rs1, imm)), m);
    EncodedLoad(width, signed, rd, rs1, imm);
    WrapAdd(base, imm);
  }

  /** A store and a load of the same width and effective address, through whatever registers and
      displacements, compiled into one block: rd gets the stored value cut to the width and extended
      again, for every base, immediate and value, and no other register changes. */
  lemma StoreThenLoad(width: Width, signed: bool, rd: Reg, rs1: Reg, rs2: Reg, imm: int, rs1': Reg, imm': int,
                      m: Machine, base: Word, base': Word, v: Word)
    requires Valid(Store(width, rs1, rs2, imm)) && Valid(Load(width, signed, rd, rs1', imm'))
    requires m.regs[rs1] == Def(base) && m.regs[rs2] == Def(v) && m.regs[rs1'] == Def(base')
    requires Wrap(base' + imm') == Wrap(base + imm)
    requires Write(m.mem, Wrap(base + imm), width, v).Some?
    ensures var ws := [Encode(Store(width, rs1, rs2, imm)), Encode(Load(width, signed, rd, rs1', imm'))];
      var block := EmitBlock(ws, 0);
      && Call(block, m).Done?
      && Call(block, m).m.regs == m.regs[rd := Def(Extend(width, signed, v % Modulus(width)))]
      && Call(block, m).m.mem == Write(m.mem, Wrap(base + imm), width, v).value
  {
    hide Encode, WordEffect, EmitBlock, Call, Read, Write, Valid, Wrap;
    var st, ld := Encode(Store(width, rs1, rs2, imm)), Encode(Load(width, signed, rd, rs1', imm'));
    var m' := Add4(m.(mem := Write(m.mem, Wrap(base + imm), width, v).value));
    BlockRunsItsWords([st, ld], m);
    StoreEffect(width, rs1, rs2, imm, m, base, v);
    ReadAfterWrite(m.mem, Wrap(base + imm), width, v);
    LoadEffect(width, signed, rd, rs1', imm', m', base');
    TwoWords(st, ld, m);
  }

  lemma TwoWords(w: InsnWord, w': InsnWord, m: Machine)
    requires WordEffect(w, m).Done? && WordEffect(w', WordEffect(w, m).m).Done?
    ensures RunWords([w, w'], m) == WordEffect(w', WordEffect(w, m).m)
  {
    hide WordEffect;
    var m' := WordEffect(w, m).m;
    assert [w, w'][1..] == [w'];
    assert RunWords([w'], m') == WordEffect(w', m') by {
      assert [w'][1..] == [];
    }
  }

  // ----- the bytes of a word -----

  lemma ReadByteIsFlat(mem: Mem, a: Word)
    ensures match FlatByte(mem, a)
      case None => Read(mem, a, W8).None?
      case Some(b) => Read(mem, a, W8) == Some(b)
  {
    SelectedOffsetInBounds(mem, a);
    var k := Find(mem, a, 0);
    if k < |mem| {
      var o := a - mem[k].base;
      assert BytesAt(mem, Location(k, o), 1) == [mem[k].data[o]];
      JoinOne(mem[k].data[o]);
    }
  }

  lemma JoinOne(b: Byte)
    ensures Join([b]) == b
  {
    assert [b][1..] == [];
  }

  /** Byte k of a stored word is read back at its address plus k. */
  lemma StoredByte(mem: Mem, a: Word, v: Word, k: nat)
    requires DisjointSegments(mem) && Write(mem, a, W32, v).Some? && k < 4
    ensures Read(Write(mem, a, W32, v).value, Wrap(a + k), W8) == Some(Split(v, 4)[k])
  {
    hide Read, Write, FlatByte, DisjointSegments, Split;
    assert Wrap(Wrap(a + k) - a) == k;
    WriteIsFlat(mem, a, W32, v, Wrap(a + k));
    ReadByteIsFlat(Write(mem, a, W32, v).value, Wrap(a + k));
  }

  /** LBUs of consecutive bytes from displacement `imm` on, into `rds`. */
  function LoadBytes(rds: seq<Reg>, rs1: Reg, imm: int): seq<InsnWord>
    requires -0x800 <= imm && imm + |rds| <= 0x800
  {
    if rds == [] then [] else [Encode(Load(W8, false, rds[0], rs1, imm))] + LoadBytes(rds[1..], rs1, imm + 1)
  }

  /** `bytes` are the memory's, at `a` and after it. */
  predicate Holding(mem: Mem, a: int, bytes: seq<Byte>) {
    forall k :: 0 <= k < |bytes| ==> Read(mem, Wrap(a + k), W8) == Some(bytes[k])
  }

  lemma LoadByte(rd: Reg, rs1: Reg, imm: int, m: Machine, base: Word, b: Byte)
    requires -0x800 <= imm < 0x800 && m.regs[rs1] == Def(base) && Read(m.mem, Wrap(base + imm), W8) == Some(b)
    ensures WordEffect(Encode(Load(W8, false, rd, rs1, imm)), m) == Done(Add4(SetLane(m, rd, Def(b))))
  {
    hide WordEffect, Encode, Read, Wrap;
    LoadEffect(W8, false, rd, rs1, imm, m, base);
  }

  lemma {:induction false} LoadBytesEffect(rds: seq<Reg>, rs1: Reg, imm: int, m: Machine, base: Word, bytes: seq<Byte>)
    requires -0x800 <= imm && imm + |rds| <= 0x800 && |rds| == |bytes|
    requires m.regs[rs1] == Def(base) && rs1 !in rds && forall i, j :: 0 <= i < j < |rds| ==> rds[i] != rds[j]
    requires Holding(m.mem, base + imm, bytes)
    ensures var e := RunWords(LoadBytes(rds, rs1, imm), m);
      && e.Done? && (forall k :: 0 <= k < |rds| ==> e.m.regs[rds[k]] == Def(bytes[k]))
      && (forall r: Reg :: r !in rds ==> e.m.regs[r] == m.regs[r])
    decreases |rds|
  {
    hide WordEffect, Encode, Read, Valid, Wrap;
    if rds != [] {
      var m' := Add4(SetLane(m, rds[0], Def(bytes[0])));
      assert Read(m.mem, Wrap(base + imm), W8) == Some(bytes[0]) by {
        assert Wrap(base + imm + 0) == Wrap(base + imm);
      }
      LoadByte(rds[0], rs1, imm, m, base, bytes[0]);
      assert Holding(m'.mem, base + (imm + 1), bytes[1..]) by {
        forall k | 0 <= k < |bytes[1..]| ensures Read(m.mem, Wrap(base + (imm + 1) + k), W8) == Some(bytes[1..][k]) {
          assert base + (imm + 1) + k == base + imm + (k + 1);
        }
      }
      LoadBytesEffect(rds[1..], rs1, imm + 1, m', base, bytes[1..]);
      assert LoadBytes(rds, rs1, imm)[1..] == LoadBytes(rds[1..], rs1, imm + 1);
    }
  }

  /** SW followed by four LBUs in one block gives the little-endian bytes of the stored word. */
  lemma WordThenBytes(rds: seq<Reg>, rs1: Reg, rs2: Reg, imm: int, m: Machine, base: Word, v: Word)
    requires -0x800 <= imm && imm + 4 <= 0x800 && |rds| == 4
    requires m.regs[rs1] == Def(base) && m.regs[rs2] == Def(v)
    requires rs1 !in rds && forall i, j :: 0 <= i < j < |rds| ==> rds[i] != rds[j]
    requires DisjointSegments(m.mem) && Write(m.mem, Wrap(base + imm), W32, v).Some?
    ensures var e := Call(EmitBlock([Encode(Store(W32, rs1, rs2, imm))] + LoadBytes(rds, rs1, imm), 0), m);
      e.Done? && forall k :: 0 <= k < 4 ==> e.m.regs[rds[k]] == Def(Split(v, 4)[k])
  {
    hide WordEffect, Encode, Read, Write, LoadBytes, EmitBlock, Call, RunWords, DisjointSegments, Split;
    var st, lds := Encode(Store(W32, rs1, rs2, imm)), LoadBytes(rds, rs1, imm);
    var a := Wrap(base + imm);
    var m' := Add4(m.(mem := Write(m.mem, a, W32, v).value));
    BlockRunsItsWords([st] + lds, m);
    RunWordsConcat([st], lds, m);
    StoreEffect(W32, rs1, rs2, imm, m, base, v);
    OneWord(st, m);
    forall k | 0 <= k < 4 ensures Read(m'.mem, Wrap(base + imm + k), W8) == Some(Split(v, 4)[k]) {
      StoredByte(m.mem, a, v, k);
      WrapSum(base + imm, k);
    }
    LoadBytesEffect(rds, rs1, imm, m', base, Split(v, 4));
  }

  lemma OneWord(w: InsnWord, m: Machine)
    ensures RunWords([w], m) == WordEffect(w, m)
  {
    hide WordEffect;
    assert [w][1..] == [];
  }
}
