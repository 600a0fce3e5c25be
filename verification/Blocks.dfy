/** Block formation (tests/Main.cpp, `generateFunc`): which words a block takes, the code it
    becomes, and what running that code does. */
module Blocks {
  import opened Words
  import opened GuestMemory
  import opened Isa
  import opened Decoder
  import opened Ir
  import opened Translator

  /** The instructions after which `generateFunc` stops. */
  predicate IsTransfer(m: Instr) {
    m.BEQ? || m.BNE? || m.BLT? || m.BGE? || m.BLTU? || m.BGEU? || m.JAL? || m.JALR?
  }

  /** The instructions that emit nothing. */
  predicate IsSilent(m: Instr) {
    m.ECALL? || m.UNKNOWN?
  }

  predicate Transfers(w: InsnWord) {
    IsTransfer(Decode(w))
  }

  predicate Silent(w: InsnWord) {
    IsSilent(Decode(w))
  }

  function FetchWord(mem: Mem, pc: Word): Option<InsnWord> {
    match Read(mem, pc, W32)
    case None => None
    case Some(v) => Some(Parse(v))
  }

  /** A fetch is the word that a read of 32 bits gives, and fails where that fails. */
  lemma FetchIsRead(mem: Mem, pc: Word)
    ensures FetchWord(mem, pc).Some? <==> Read(mem, pc, W32).Some?
    ensures FetchWord(mem, pc).Some? ==> Value(FetchWord(mem, pc).value) == Read(mem, pc, W32).value
  {
    hide Read, Value, Parse;
    if FetchWord(mem, pc).Some? {
      ValueOfParse(Read(mem, pc, W32).value);
    }
  }

  /** Over disjoint segments it is the little-endian word of the four bytes there. */
  lemma FetchIsFlat(mem: Mem, pc: Word)
    requires DisjointSegments(mem) && FetchWord(mem, pc).Some?
    ensures FlatBytes(mem, pc, 4).Some?
    ensures Value(FetchWord(mem, pc).value) == Join(FlatBytes(mem, pc, 4).value)
  {
    hide FetchWord, Read, Value, FlatBytes, DisjointSegments;
    FetchIsRead(mem, pc);
    ReadIsFlat(mem, pc, W32);
  }

  function Prepend(w: InsnWord, rest: Option<seq<InsnWord>>): Option<seq<InsnWord>> {
    match rest
    case None => None
    case Some(ws) => Some([w] + ws)
  }

  /** The words of the block at `pc`: up to `threshold` of them, or through the first transfer. */
  function FormWords(mem: Mem, pc: Word, threshold: nat): Option<seq<InsnWord>>
    decreases threshold
  {
    if threshold == 0 then Some([])
    else
      match FetchWord(mem, pc)
      case None => None
      case Some(w) =>
        if Transfers(w) then Some([w]) else Prepend(w, FormWords(mem, Wrap(pc + 4), threshold - 1))
  }

  /** `ws` is fetched from consecutive addresses, and only its last word may transfer control. */
  predicate StraightLine(mem: Mem, pc: Word, ws: seq<InsnWord>) {
    && (forall i :: 0 <= i < |ws| ==> FetchWord(mem, Wrap(pc + 4 * i)) == Some(ws[i]))
    && (forall i :: 0 <= i < |ws| - 1 ==> !Transfers(ws[i]))
  }

  /** `ws` ends because the threshold is reached or control is transferred. */
  predicate Ended(ws: seq<InsnWord>, threshold: nat) {
    |ws| <= threshold && (|ws| < threshold ==> ws != [] && Transfers(ws[|ws| - 1]))
  }

  lemma StraightLineFromTail(mem: Mem, pc: Word, ws: seq<InsnWord>)
    requires ws != [] && FetchWord(mem, pc) == Some(ws[0]) && (|ws| > 1 ==> !Transfers(ws[0]))
    requires StraightLine(mem, Wrap(pc + 4), ws[1..])
    ensures StraightLine(mem, pc, ws)
  {
    hide FetchWord, Transfers;
    assert Wrap(pc + 4 * 0) == pc;
    forall i | 0 <= i < |ws|
      ensures FetchWord(mem, Wrap(pc + 4 * i)) == Some(ws[i]) && (i < |ws| - 1 ==> !Transfers(ws[i]))
    {
      if i > 0 {
        assert ws[1..][i - 1] == ws[i];
        WrapSum(pc + 4, 4 * (i - 1));
      }
    }
  }

  lemma StraightLineToTail(mem: Mem, pc: Word, ws: seq<InsnWord>)
    requires ws != [] && StraightLine(mem, pc, ws)
    ensures FetchWord(mem, pc) == Some(ws[0]) && (|ws| > 1 ==> !Transfers(ws[0]))
    ensures StraightLine(mem, Wrap(pc + 4), ws[1..])
  {
    hide FetchWord, Transfers;
    assert Wrap(pc + 4 * 0) == pc;
    forall i | 0 <= i < |ws[1..]|
      ensures FetchWord(mem, Wrap(Wrap(pc + 4) + 4 * i)) == Some(ws[1..][i])
      ensures i < |ws[1..]| - 1 ==> !Transfers(ws[1..][i])
    {
      assert ws[1..][i] == ws[i + 1];
      WrapSum(pc + 4, 4 * i);
    }
  }

  /** Consecutive fetches, seen from the second word. */
  lemma StraightLineTail(mem: Mem, pc: Word, ws: seq<InsnWord>)
    requires ws != []
    ensures StraightLine(mem, pc, ws) <==>
      && FetchWord(mem, pc) == Some(ws[0])
      && (|ws| > 1 ==> !Transfers(ws[0]))
      && StraightLine(mem, Wrap(pc + 4), ws[1..])
  {
    hide FetchWord, Transfers, StraightLine;
    if StraightLine(mem, pc, ws) {
      StraightLineToTail(mem, pc, ws);
    } else if FetchWord(mem, pc) == Some(ws[0]) && (|ws| > 1 ==> !Transfers(ws[0])) {
      if StraightLine(mem, Wrap(pc + 4), ws[1..]) {
        StraightLineFromTail(mem, pc, ws);
      }
    }
  }

  lemma EndedTail(ws: seq<InsnWord>, threshold: nat)
    requires ws != [] && threshold > 0
    ensures Ended(ws, threshold) <==>
      if |ws| == 1 then Transfers(ws[0]) || threshold == 1 else Ended(ws[1..], threshold - 1)
  {
    hide Transfers;
    if |ws| > 1 {
      assert ws[1..][|ws| - 2] == ws[|ws| - 1];
    }
  }

  /** Block formation takes exactly the maximal straight line within the threshold. */
  lemma {:induction false} FormWordsIff(mem: Mem, pc: Word, threshold: nat, ws: seq<InsnWord>)
    ensures FormWords(mem, pc, threshold) == Some(ws) <==> StraightLine(mem, pc, ws) && Ended(ws, threshold)
    decreases threshold
  {
    hide FetchWord, Transfers;
    if ws == [] {
      FormNothing(mem, pc, threshold);
    } else if threshold > 0 {
      StraightLineTail(mem, pc, ws);
      EndedTail(ws, threshold);
      if FetchWord(mem, pc) != Some(ws[0]) {
        FormHead(mem, pc, threshold, ws);
      } else {
        if Transfers(ws[0]) {
          FormTransfer(mem, pc, threshold, ws);
        } else {
          FormWordsIff(mem, Wrap(pc + 4), threshold - 1, ws[1..]);
          FormStep(mem, pc, threshold, ws);
          assert |ws| == 1 ==> ws[1..] == [];
        }
      }
    } else {
      assert !Ended(ws, threshold);
    }
  }

  lemma FormHead(mem: Mem, pc: Word, threshold: nat, ws: seq<InsnWord>)
    requires threshold > 0 && ws != [] && FetchWord(mem, pc) != Some(ws[0])
    ensures FormWords(mem, pc, threshold) != Some(ws)
  {
    hide FetchWord, Transfers;
  }

  lemma FormTransfer(mem: Mem, pc: Word, threshold: nat, ws: seq<InsnWord>)
    requires threshold > 0 && ws != [] && FetchWord(mem, pc) == Some(ws[0]) && Transfers(ws[0])
    ensures FormWords(mem, pc, threshold) == Some(ws) <==> |ws| == 1
  {
    hide FetchWord, Transfers;
    assert FormWords(mem, pc, threshold) == Some([ws[0]]);
    assert |ws| == 1 ==> ws == [ws[0]];
  }

  lemma FormNothing(mem: Mem, pc: Word, threshold: nat)
    ensures FormWords(mem, pc, threshold) == Some([]) <==> threshold == 0
  {
    hide FetchWord, Transfers;
  }

  lemma FormStep(mem: Mem, pc: Word, threshold: nat, ws: seq<InsnWord>)
    requires threshold > 0 && ws != [] && FetchWord(mem, pc) == Some(ws[0]) && !Transfers(ws[0])
    ensures FormWords(mem, pc, threshold) == Some(ws) <==> FormWords(mem, Wrap(pc + 4), threshold - 1) == Some(ws[1..])
  {
    hide FetchWord, Transfers;
    var rest := FormWords(mem, Wrap(pc + 4), threshold - 1);
    if rest.Some? {
      assert ([ws[0]] + rest.value)[1..] == rest.value;
    }
    assert [ws[0]] + ws[1..] == ws;
  }

  // ----- lengths and thresholds -----

  /** A block holds one to `threshold` words, and a shorter one ends in a transfer. */
  lemma BlockBounds(mem: Mem, pc: Word, threshold: nat, ws: seq<InsnWord>)
    requires FormWords(mem, pc, threshold) == Some(ws)
    ensures |ws| <= threshold && (threshold >= 1 ==> |ws| >= 1)
    ensures forall i :: 0 <= i < |ws| && Transfers(ws[i]) ==> i == |ws| - 1
    ensures |ws| < threshold ==> Transfers(ws[|ws| - 1])
  {
    hide FetchWord, Transfers;
    FormWordsIff(mem, pc, threshold, ws);
  }

  /** The words `ws` lead from `pc`, within the threshold, to an address that cannot be fetched. */
  predicate Gap(mem: Mem, pc: Word, ws: seq<InsnWord>, threshold: nat) {
    && |ws| < threshold && StraightLine(mem, pc, ws) && (ws != [] ==> !Transfers(ws[|ws| - 1]))
    && FetchWord(mem, Wrap(pc + 4 * |ws|)).None?
  }

  lemma GapTail(mem: Mem, pc: Word, ws: seq<InsnWord>, threshold: nat)
    requires threshold > 0 && ws != []
    ensures Gap(mem, pc, ws, threshold) <==>
      FetchWord(mem, pc) == Some(ws[0]) && !Transfers(ws[0]) && Gap(mem, Wrap(pc + 4), ws[1..], threshold - 1)
  {
    hide FetchWord, Transfers, StraightLine;
    StraightLineTail(mem, pc, ws);
    WrapSum(pc + 4, 4 * (|ws| - 1));
    assert StraightLine(mem, pc, ws) && |ws| > 1 ==> !Transfers(ws[0]);
    assert |ws| > 1 ==> ws[1..][|ws| - 2] == ws[|ws| - 1];
  }

  lemma EmptyGap(mem: Mem, pc: Word, threshold: nat)
    requires threshold > 0
    ensures Gap(mem, pc, [], threshold) <==> FetchWord(mem, pc).None?
  {
    hide FetchWord, Transfers;
    var none: seq<InsnWord> := [];
    assert Wrap(pc + 4 * |none|) == pc;
  }

  lemma {:induction false} GapStopsForming(mem: Mem, pc: Word, ws: seq<InsnWord>, threshold: nat)
    requires Gap(mem, pc, ws, threshold)
    ensures FormWords(mem, pc, threshold).None?
    decreases threshold
  {
    hide FetchWord, Transfers, Gap, StraightLine;
    if threshold == 0 {
      NoGap(mem, pc, ws);
    } else if ws == [] {
      EmptyGap(mem, pc, threshold);
    } else {
      GapTail(mem, pc, ws, threshold);
      GapStopsForming(mem, Wrap(pc + 4), ws[1..], threshold - 1);
    }
  }

  lemma NoGap(mem: Mem, pc: Word, ws: seq<InsnWord>)
    ensures !Gap(mem, pc, ws, 0)
  {
  }

  lemma {:induction false} StoppedAtGap(mem: Mem, pc: Word, threshold: nat)
    requires FormWords(mem, pc, threshold).None?
    ensures exists ws :: Gap(mem, pc, ws, threshold)
    decreases threshold
  {
    hide FetchWord, Transfers, Gap, StraightLine;
    if FetchWord(mem, pc).None? {
      EmptyGap(mem, pc, threshold);
    } else {
      var w := FetchWord(mem, pc).value;
      StoppedAtGap(mem, Wrap(pc + 4), threshold - 1);
      var ws :| Gap(mem, Wrap(pc + 4), ws, threshold - 1);
      assert ([w] + ws)[1..] == ws;
      GapTail(mem, pc, [w] + ws, threshold);
    }
  }

  /** Formation fails exactly when it runs into an address it cannot fetch. */
  lemma FormFailsIff(mem: Mem, pc: Word, threshold: nat)
    ensures FormWords(mem, pc, threshold).None? <==> exists ws :: Gap(mem, pc, ws, threshold)
  {
    hide FormWords, Gap;
    if ws :| Gap(mem, pc, ws, threshold) {
      GapStopsForming(mem, pc, ws, threshold);
    }
    if FormWords(mem, pc, threshold).None? {
      StoppedAtGap(mem, pc, threshold);
    }
  }

  predicate EndsInTransfer(ws: seq<InsnWord>) {
    ws != [] && Transfers(ws[|ws| - 1])
  }

  /** `head`, continued by `tail` unless it ends in a transfer. */
  function Continued(head: Option<seq<InsnWord>>, tail: Option<seq<InsnWord>>): Option<seq<InsnWord>> {
    match head
    case None => None
    case Some(ws) =>
      if EndsInTransfer(ws) then head
      else
        match tail
        case None => None
        case Some(rest) => Some(ws + rest)
  }

  lemma ContinuedPrepend(w: InsnWord, head: Option<seq<InsnWord>>, tail: Option<seq<InsnWord>>)
    requires !Transfers(w)
    ensures Continued(Prepend(w, head), tail) == Prepend(w, Continued(head, tail))
  {
    hide Transfers;
    if head.Some? {
      var ws := [w] + head.value;
      assert ws[|ws| - 1] == if head.value == [] then w else head.value[|head.value| - 1];
      assert EndsInTransfer(ws) == EndsInTransfer(head.value);
      assert tail.Some? ==> [w] + (head.value + tail.value) == ws + tail.value;
    }
  }

  /** A block formed with n + k words allowed is the block formed with n, continued where that
      one stopped if it stopped for the threshold. */
  lemma {:induction false} FormSplit(mem: Mem, pc: Word, n: nat, k: nat)
    ensures FormWords(mem, pc, n + k) == Continued(FormWords(mem, pc, n), FormWords(mem, Wrap(pc + 4 * n), k))
    decreases n
  {
    hide FetchWord, Transfers, Continued;
    if n == 0 {
      assert Wrap(pc + 4 * n) == pc;
      ContinuedNothing(FormWords(mem, pc, k));
    } else if FetchWord(mem, pc).None? {
      ContinuedNone(FormWords(mem, Wrap(pc + 4 * n), k));
    } else {
      var w, next := FetchWord(mem, pc).value, Wrap(pc + 4);
      var tail := FormWords(mem, Wrap(pc + 4 * n), k);
      if Transfers(w) {
        ContinuedTransfer(w, tail);
      } else {
        FormSplit(mem, next, n - 1, k);
        WrapSum(pc + 4, 4 * (n - 1));
        ContinuedPrepend(w, FormWords(mem, next, n - 1), tail);
      }
    }
  }

  lemma ContinuedNothing(tail: Option<seq<InsnWord>>)
    ensures Continued(Some([]), tail) == tail
  {
    assert tail.Some? ==> [] + tail.value == tail.value;
  }

  lemma ContinuedNone(tail: Option<seq<InsnWord>>)
    ensures Continued(None, tail) == None
  {
  }

  lemma ContinuedTransfer(w: InsnWord, tail: Option<seq<InsnWord>>)
    requires Transfers(w)
    ensures Continued(Some([w]), tail) == Some([w])
  {
    hide Transfers;
  }

  // ----- the code of a block -----

  /** What the code of one word does to the CPU state. */
  function WordEffect(w: InsnWord, m: Machine): Effect {
    Call(Emit(Decode(w), w, 0), m)
  }

  /** What the words of a block do one after the other. */
  function RunWords(ws: seq<InsnWord>, m: Machine): Effect {
    if ws == [] then Done(m)
    else
      match WordEffect(ws[0], m)
      case Done(m') => RunWords(ws[1..], m')
      case Undefined => Undefined
      case Malformed => Malformed
  }

  /** The code `generateFunc` emits for `ws`, in one function; `b` values are defined before it. */
  function EmitBlock(ws: seq<InsnWord>, b: nat): seq<Ir.Op> {
    if ws == [] then []
    else
      var code := Emit(Decode(ws[0]), ws[0], b);
      code + EmitBlock(ws[1..], b + |code|)
  }

  /** Placed after other code, the code of a word does the same. */
  lemma PlacedCode(w: InsnWord, pre: seq<Val>, m: Machine)
    ensures EffectOf(Run(Emit(Decode(w), w, |pre|), 0, pre, m)) == WordEffect(w, m)
  {
    hide Decode, ShapeOf, Extract, EmitShape, Run;
    var s, o := ShapeOf(Decode(w)), Extract(Decode(w), w);
    EmitIsRenumbered(s, o, |pre|);
    RunShift(EmitShape(s, o, 0), EmitShape(s, o, |pre|), 0, pre, [], m);
    assert pre + [] == pre;
  }

  lemma {:induction false} PlacedBlock(ws: seq<InsnWord>, pre: seq<Val>, m: Machine)
    ensures EffectOf(Run(EmitBlock(ws, |pre|), 0, pre, m)) == RunWords(ws, m)
    decreases |ws|
  {
    hide Decode, Emit, WordEffect, Step;
    if ws != [] {
      var code := Emit(Decode(ws[0]), ws[0], |pre|);
      PlacedCode(ws[0], pre, m);
      RunConcat(code, EmitBlock(ws[1..], |pre| + |code|), 0, pre, m);
      RunGrowsEnv(code, 0, pre, m);
      match Run(code, 0, pre, m)
      case Next(env, m') => PlacedBlock(ws[1..], env, m');
      case _ =>
    }
  }

  /** The function compiled for a block does what its words do one after the other. */
  lemma BlockRunsItsWords(ws: seq<InsnWord>, m: Machine)
    ensures Call(EmitBlock(ws, 0), m) == RunWords(ws, m)
  {
    hide EmitBlock, RunWords;
    PlacedBlock(ws, [], m);
  }

  lemma {:induction false} RunWordsConcat(a: seq<InsnWord>, b: seq<InsnWord>, m: Machine)
    ensures RunWords(a + b, m) ==
      match RunWords(a, m)
      case Done(m') => RunWords(b, m')
      case Undefined => Undefined
      case Malformed => Malformed
    decreases |a|
  {
    hide WordEffect;
    if a == [] {
      assert a + b == b;
    } else {
      assert (a + b)[1..] == a[1..] + b;
      match WordEffect(a[0], m)
      case Done(m') => RunWordsConcat(a[1..], b, m');
      case _ =>
    }
  }

  /** A block of n + k words acts like its first n, then like the block translated 4n further
      on; unless the first n already transfer, when they are the whole block. */
  lemma BlockSplits(m: Machine, pc: Word, n: nat, k: nat)
    requires FormWords(m.mem, pc, n + k).Some?
    ensures var ws, head := FormWords(m.mem, pc, n + k).value, FormWords(m.mem, pc, n);
      head.Some? &&
      if EndsInTransfer(head.value) then ws == head.value
      else
        var tail := FormWords(m.mem, Wrap(pc + 4 * n), k);
        tail.Some? && |ws| == |head.value| + |tail.value| &&
        Call(EmitBlock(ws, 0), m) ==
          match Call(EmitBlock(head.value, 0), m)
          case Done(m') => Call(EmitBlock(tail.value, 0), m')
          case Undefined => Undefined
          case Malformed => Malformed
  {
    hide Transfers, FormWords, Call, EmitBlock, RunWords;
    FormSplit(m.mem, pc, n, k);
    var head, tail := FormWords(m.mem, pc, n).value, FormWords(m.mem, Wrap(pc + 4 * n), k);
    if !EndsInTransfer(head) {
      RunWordsConcat(head, tail.value, m);
      BlockRunsItsWords(head + tail.value, m);
      BlockRunsItsWords(head, m);
      if Call(EmitBlock(head, 0), m).Done? {
        BlockRunsItsWords(tail.value, Call(EmitBlock(head, 0), m).m);
      }
    }
  }
}
