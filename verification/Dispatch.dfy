/** The dispatch loop of `main` (tests/Main.cpp) with its translation cache, against the simple
    interpreter it speeds up: fetch one word, run its code, repeat. */
module Dispatch {
  import opened Words
  import opened GuestMemory
  import opened Isa
  import opened Decoder
  import opened Ir
  import opened Translator
  import opened Blocks
  import opened BlockBehaviour

  /** The guest, the blocks translated so far by start address, and the order of translation. */
  datatype System = System(m: Machine, cache: map<Word, seq<InsnWord>>, added: seq<Word>)

  /** A crash is an unmapped fetch, a jump to a poison PC, or undefined behaviour in a block. */
  datatype Status = Running(s: System) | Crashed

  function Boot(m: Machine): System {
    System(m, map[], [])
  }

  function Translate(s: System, pc: Word, threshold: nat): (r: Option<System>)
    ensures r.Some? ==> pc in r.value.cache && r.value.m == s.m
  {
    if pc in s.cache then Some(s)
    else
      match FormWords(s.m.mem, pc, threshold)
      case None => None
      case Some(ws) => Some(s.(cache := s.cache[pc := ws], added := s.added + [pc]))
  }

  /** One turn of the loop. */
  function Turn(s: System, threshold: nat): Status {
    match s.m.pc
    case Poison => Crashed
    case Def(pc) =>
      match Translate(s, pc, threshold)
      case None => Crashed
      case Some(t) =>
        match Call(EmitBlock(t.cache[pc], 0), t.m)
        case Done(m') => Running(t.(m := m'))
        case Undefined => Crashed
        case Malformed => Crashed
  }

  function Turns(s: System, threshold: nat, n: nat): Status
    decreases n
  {
    if n == 0 then Running(s)
    else
      match Turn(s, threshold)
      case Running(s') => Turns(s', threshold, n - 1)
      case Crashed => Crashed
  }

  // ----- the interpreter -----

  function IrStep(m: Machine): Effect {
    match m.pc
    case Poison => Undefined
    case Def(pc) =>
      match FetchWord(m.mem, pc)
      case None => Undefined
      case Some(w) => WordEffect(w, m)
  }

  function IrSteps(m: Machine, n: nat): Effect
    decreases n
  {
    if n == 0 then Done(m)
    else
      match IrStep(m)
      case Done(m') => IrSteps(m', n - 1)
      case Undefined => Undefined
      case Malformed => Malformed
  }

  lemma {:induction false} IrStepsSplit(m: Machine, a: nat, b: nat)
    ensures IrSteps(m, a + b) ==
      match IrSteps(m, a)
      case Done(m') => IrSteps(m', b)
      case Undefined => Undefined
      case Malformed => Malformed
    decreases a
  {
    hide IrStep;
    if a > 0 && IrStep(m).Done? {
      IrStepsSplit(IrStep(m).m, a - 1, b);
    }
  }

  /** A silent word stops the interpreter for good. */
  lemma {:induction false} SilentStalls(m: Machine, pc: Word, w: InsnWord, n: nat)
    requires m.pc == Def(pc) && FetchWord(m.mem, pc) == Some(w) && Silent(w)
    ensures IrSteps(m, n) == Done(m)
  {
    hide FetchWord, WordEffect, Silent;
    if n > 0 {
      SilentEffect(w, m);
      SilentStalls(m, pc, w, n - 1);
    }
  }

  lemma SilentEffect(w: InsnWord, m: Machine)
    requires Silent(w)
    ensures WordEffect(w, m) == Done(m)
  {
    hide Decode, ShapeOf, Extract, WordEffect;
    WordIsDirect(w, m);
    ShapeClasses(Decode(w));
  }

  // ----- code that is not written to -----

  /** The byte at `x` belongs to a cached block. */
  predicate Covered(cache: map<Word, seq<InsnWord>>, x: Word) {
    exists pc :: pc in cache && InWindow(x, pc, 4 * |cache[pc]|)
  }

  ghost predicate HitsCode(w: InsnWord, m: Machine, cache: map<Word, seq<InsnWord>>) {
    exists x: Word :: StoresTo(w, m, x) && Covered(cache, x)
  }

  /** No word of the block, in the state it runs in, stores to cached code. */
  ghost predicate Clear(ws: seq<InsnWord>, m: Machine, cache: map<Word, seq<InsnWord>>) {
    ws != [] ==>
      && !HitsCode(ws[0], m, cache)
      && (WordEffect(ws[0], m).Done? ==> Clear(ws[1..], WordEffect(ws[0], m).m, cache))
  }

  /** ECALL and unknown words occur in last position only. */
  predicate QuietButLast(ws: seq<InsnWord>) {
    forall i :: 0 <= i < |ws| - 1 ==> !Silent(ws[i])
  }

  /** Every cached block is what translating current memory at its address gives. */
  ghost predicate Coherent(mem: Mem, cache: map<Word, seq<InsnWord>>, threshold: nat) {
    forall pc :: pc in cache ==> FormWords(mem, pc, threshold) == Some(cache[pc])
  }

  lemma WindowInside(x: Word, pc: Word, i: nat, n: nat)
    requires i < n && InWindow(x, Wrap(pc + 4 * i), 4)
    ensures InWindow(x, pc, 4 * n)
  {
    var d := Wrap(x - Wrap(pc + 4 * i));
    var q, r := (pc + 4 * i) / 0x1_0000_0000, (x - Wrap(pc + 4 * i)) / 0x1_0000_0000;
    assert x - pc == 4 * i + d + 0x1_0000_0000 * (r - q);
    var v := 4 * i + d;
    DivisionIsUnique(x - pc, 0x1_0000_0000, r - q + v / 0x1_0000_0000, Wrap(v));
    assert Wrap(v) <= v;
  }

  lemma TailWindow(x: Word, pc: Word, n: nat)
    requires n > 0 && InWindow(x, Wrap(pc + 4), 4 * (n - 1))
    ensures InWindow(x, pc, 4 * n)
  {
  }

  /** A word that stores elsewhere leaves a fetch as it was. */
  lemma FetchKept(w: InsnWord, m: Machine, pc: Word)
    requires WordEffect(w, m).Done?
    requires forall x: Word :: InWindow(x, pc, 4) ==> !StoresTo(w, m, x)
    ensures FetchWord(WordEffect(w, m).m.mem, pc) == FetchWord(m.mem, pc)
  {
    hide WordEffect, ShapeFor, OperandsFor, Address, Read, Write, InWindow, Parse;
    WordMemory(w, m);
    var s, a := ShapeFor(w), Address(m, OperandsFor(w));
    if s.StoreShape? {
      var v: Word :| Write(m.mem, a.val, s.width, v) == Some(WordEffect(w, m).m.mem);
      assert forall x: Word :: InWindow(x, a.val, s.width.Bytes()) ==> StoresTo(w, m, x);
      WriteFrame(m.mem, a.val, s.width, v, pc, W32);
    }
  }

  /** An address that cannot be fetched never can. */
  lemma UnmappedKept(mem: Mem, mem': Mem, pc: Word)
    requires SameLayout(mem, mem')
    ensures FetchWord(mem, pc).None? <==> FetchWord(mem', pc).None?
  {
    hide Parse, Locate, BytesAt, SameLayout;
    SameLayoutLocate(mem, mem', pc, 4);
  }

  lemma LineKept(w: InsnWord, m: Machine, pc: Word, ws: seq<InsnWord>)
    requires WordEffect(w, m).Done? && StraightLine(m.mem, pc, ws)
    requires forall x: Word :: InWindow(x, pc, 4 * |ws|) ==> !StoresTo(w, m, x)
    ensures StraightLine(WordEffect(w, m).m.mem, pc, ws)
  {
    hide WordEffect, StoresTo, FetchWord, Transfers, InWindow;
    forall i | 0 <= i < |ws| ensures FetchWord(WordEffect(w, m).m.mem, Wrap(pc + 4 * i)) == Some(ws[i]) {
      forall x: Word | InWindow(x, Wrap(pc + 4 * i), 4) ensures !StoresTo(w, m, x) {
        WindowInside(x, pc, i, |ws|);
      }
      FetchKept(w, m, Wrap(pc + 4 * i));
    }
  }

  /** The i-th fetch from `pc` on. */
  function Fetch(mem: Mem, pc: Word, i: nat): Option<InsnWord> {
    FetchWord(mem, Wrap(pc + 4 * i))
  }

  predicate SameFetches(mem: Mem, mem': Mem, pc: Word, n: nat) {
    forall i: nat :: i < n ==> Fetch(mem', pc, i) == Fetch(mem, pc, i)
  }

  lemma LineIsFetches(mem: Mem, mem': Mem, pc: Word, ws: seq<InsnWord>)
    requires StraightLine(mem, pc, ws)
    ensures StraightLine(mem', pc, ws) <==> SameFetches(mem, mem', pc, |ws|)
  {
    hide FetchWord, Transfers;
    if SameFetches(mem, mem', pc, |ws|) {
      forall i | 0 <= i < |ws| ensures FetchWord(mem', Wrap(pc + 4 * i)) == Some(ws[i]) {
        assert Fetch(mem', pc, i) == Fetch(mem, pc, i);
      }
    }
    if StraightLine(mem', pc, ws) {
      forall i: nat | i < |ws| ensures Fetch(mem', pc, i) == Fetch(mem, pc, i) {
        assert FetchWord(mem, Wrap(pc + 4 * i)) == Some(ws[i]);
      }
    }
  }

  /** Exactly the changes to memory that a fetch of cached code could see make the cache stale. */
  lemma CoherentIff(mem: Mem, mem': Mem, cache: map<Word, seq<InsnWord>>, threshold: nat)
    requires Coherent(mem, cache, threshold)
    ensures Coherent(mem', cache, threshold) <==> forall pc :: pc in cache ==> SameFetches(mem, mem', pc, |cache[pc]|)
  {
    hide FormWords, Ended, StraightLine, SameFetches;
    forall pc | pc in cache
      ensures FormWords(mem', pc, threshold) == Some(cache[pc]) <==> SameFetches(mem, mem', pc, |cache[pc]|)
    {
      FormWordsIff(mem, pc, threshold, cache[pc]);
      FormWordsIff(mem', pc, threshold, cache[pc]);
      LineIsFetches(mem, mem', pc, cache[pc]);
    }
  }

  /** Coherence outlives every word that does not store to cached code. */
  lemma CoherenceKept(w: InsnWord, m: Machine, cache: map<Word, seq<InsnWord>>, threshold: nat)
    requires Coherent(m.mem, cache, threshold) && WordEffect(w, m).Done? && !HitsCode(w, m, cache)
    ensures Coherent(WordEffect(w, m).m.mem, cache, threshold)
  {
    hide WordEffect, StoresTo, StraightLine, FormWords, InWindow, Ended;
    forall pc | pc in cache
      ensures FormWords(WordEffect(w, m).m.mem, pc, threshold) == Some(cache[pc])
    {
      assert forall x: Word :: InWindow(x, pc, 4 * |cache[pc]|) ==> Covered(cache, x);
      FormWordsIff(m.mem, pc, threshold, cache[pc]);
      LineKept(w, m, pc, cache[pc]);
      FormWordsIff(WordEffect(w, m).m.mem, pc, threshold, cache[pc]);
    }
  }

  lemma {:induction false} CoherenceOverBlock(ws: seq<InsnWord>, m: Machine, cache: map<Word, seq<InsnWord>>,
                                              threshold: nat)
    requires Coherent(m.mem, cache, threshold) && RunWords(ws, m).Done? && Clear(ws, m, cache)
    ensures Coherent(RunWords(ws, m).m.mem, cache, threshold)
    decreases |ws|
  {
    hide WordEffect, Coherent, HitsCode;
    if ws != [] {
      CoherenceKept(ws[0], m, cache, threshold);
      CoherenceOverBlock(ws[1..], WordEffect(ws[0], m).m, cache, threshold);
    }
  }

  // ----- one block is as many single steps -----

  /** All bytes of the n words from `pc` are covered. */
  ghost predicate CodeCovered(cache: map<Word, seq<InsnWord>>, pc: Word, n: nat) {
    forall x: Word :: InWindow(x, pc, 4 * n) ==> Covered(cache, x)
  }

  lemma CoveredTail(cache: map<Word, seq<InsnWord>>, pc: Word, n: nat)
    requires n > 0 && CodeCovered(cache, pc, n)
    ensures CodeCovered(cache, Wrap(pc + 4), n - 1)
  {
    hide Covered, InWindow;
    forall x: Word | InWindow(x, Wrap(pc + 4), 4 * (n - 1)) ensures Covered(cache, x) {
      TailWindow(x, pc, n);
    }
  }

  lemma {:induction false} BlockIsSteps(ws: seq<InsnWord>, m: Machine, pc: Word, cache: map<Word, seq<InsnWord>>)
    requires m.pc == Def(pc) && StraightLine(m.mem, pc, ws)
    requires QuietButLast(ws) && CodeCovered(cache, pc, |ws|) && Clear(ws, m, cache)
    ensures IrSteps(m, |ws|) == RunWords(ws, m)
    decreases |ws|
  {
    hide FetchWord, Transfers, WordEffect, StraightLine, HitsCode, CodeCovered, Silent;
    if ws != [] {
      StraightLineTail(m.mem, pc, ws);
      if WordEffect(ws[0], m).Done? && |ws| > 1 {
        var m', next := WordEffect(ws[0], m).m, Wrap(pc + 4);
        WordPc(ws[0], m);
        CoveredTail(cache, pc, |ws|);
        NoHitInside(ws[0], m, cache, next, |ws| - 1);
        LineKept(ws[0], m, next, ws[1..]);
        BlockIsSteps(ws[1..], m', next, cache);
      }
    }
  }

  lemma NoHitInside(w: InsnWord, m: Machine, cache: map<Word, seq<InsnWord>>, pc: Word, n: nat)
    requires CodeCovered(cache, pc, n) && !HitsCode(w, m, cache)
    ensures forall x: Word :: InWindow(x, pc, 4 * n) ==> !StoresTo(w, m, x)
  {
    hide Covered, StoresTo, InWindow;
  }

  // ----- blocks that run past a silent word -----

  lemma {:induction false} LineOverBlock(ws: seq<InsnWord>, m: Machine, pc: Word, line: seq<InsnWord>,
                                         cache: map<Word, seq<InsnWord>>)
    requires RunWords(ws, m).Done? && StraightLine(m.mem, pc, line)
    requires CodeCovered(cache, pc, |line|) && Clear(ws, m, cache)
    ensures StraightLine(RunWords(ws, m).m.mem, pc, line)
    decreases |ws|
  {
    hide WordEffect, StraightLine, CodeCovered, HitsCode;
    if ws != [] {
      NoHitInside(ws[0], m, cache, pc, |line|);
      LineKept(ws[0], m, pc, line);
      LineOverBlock(ws[1..], WordEffect(ws[0], m).m, pc, line, cache);
    }
  }

  lemma {:induction false} ClearPrefix(ws: seq<InsnWord>, k: nat, m: Machine, cache: map<Word, seq<InsnWord>>)
    requires k <= |ws| && Clear(ws, m, cache)
    ensures Clear(ws[..k], m, cache)
    decreases k
  {
    hide WordEffect, HitsCode;
    if k > 0 {
      assert ws[..k][1..] == ws[1..][..k - 1];
      if WordEffect(ws[0], m).Done? {
        ClearPrefix(ws[1..], k - 1, WordEffect(ws[0], m).m, cache);
      }
    }
  }

  lemma CoveredPrefix(cache: map<Word, seq<InsnWord>>, pc: Word, n: nat, k: nat)
    requires k <= n && CodeCovered(cache, pc, n)
    ensures CodeCovered(cache, pc, k)
  {
    hide Covered;
    assert forall x: Word :: InWindow(x, pc, 4 * k) ==> InWindow(x, pc, 4 * n);
  }

  lemma LinePrefix(mem: Mem, pc: Word, ws: seq<InsnWord>, k: nat)
    requires k <= |ws| && StraightLine(mem, pc, ws)
    ensures StraightLine(mem, pc, ws[..k])
  {
    hide FetchWord, Transfers;
  }

  /** `ws` lies at `pc`, is covered, and stores to no covered code when run from `m`. */
  ghost predicate Placed(ws: seq<InsnWord>, m: Machine, pc: Word, cache: map<Word, seq<InsnWord>>) {
    m.pc == Def(pc) && StraightLine(m.mem, pc, ws) && CodeCovered(cache, pc, |ws|) && Clear(ws, m, cache)
  }

  predicate TransferFree(ws: seq<InsnWord>) {
    forall i :: 0 <= i < |ws| ==> !Transfers(ws[i])
  }

  /** The first k words, none silent, are k single steps to the k-th address. */
  lemma QuietPrefix(ws: seq<InsnWord>, m: Machine, pc: Word, cache: map<Word, seq<InsnWord>>, k: nat)
    requires k <= |ws| && Placed(ws, m, pc, cache) && TransferFree(ws) && RunWords(ws[..k], m).Done?
    requires forall i :: 0 <= i < k ==> !Silent(ws[i])
    ensures IrSteps(m, k) == RunWords(ws[..k], m) && RunWords(ws[..k], m).m.pc == Def(Wrap(pc + 4 * k))
    ensures StraightLine(RunWords(ws[..k], m).m.mem, pc, ws)
  {
    hide FetchWord, RunWords, IrSteps, Silent, Transfers, StraightLine, CodeCovered, Clear;
    ClearPrefix(ws, k, m, cache);
    CoveredPrefix(cache, pc, |ws|, k);
    LinePrefix(m.mem, pc, ws, k);
    BlockIsSteps(ws[..k], m, pc, cache);
    PcAfter(ws[..k], m, pc);
    NoSilents(ws[..k]);
    LineOverBlock(ws[..k], m, pc, ws, cache);
  }

  /** How many words come before the first silent one. */
  function Leading(ws: seq<InsnWord>): (s: nat)
    ensures s <= |ws| && (forall i :: 0 <= i < s ==> !Silent(ws[i])) && (s < |ws| ==> Silent(ws[s]))
  {
    if ws == [] || Silent(ws[0]) then 0 else 1 + Leading(ws[1..])
  }

  lemma {:induction false} AllSilent(ws: seq<InsnWord>, m: Machine)
    requires forall i :: 0 <= i < |ws| ==> Silent(ws[i])
    ensures RunWords(ws, m) == Done(m) && Silents(ws) == |ws|
    decreases |ws|
  {
    hide Silent, WordEffect;
    if ws != [] {
      SilentEffect(ws[0], m);
      AllSilent(ws[1..], m);
    }
  }

  lemma {:induction false} SilentsConcat(a: seq<InsnWord>, b: seq<InsnWord>)
    ensures Silents(a + b) == Silents(a) + Silents(b)
    decreases |a|
  {
    hide Silent;
    if a == [] {
      assert a + b == b;
    } else {
      assert (a + b)[1..] == a[1..] + b;
      SilentsConcat(a[1..], b);
    }
  }

  lemma {:induction false} SomeLoud(ws: seq<InsnWord>, j: nat)
    requires j < |ws| && !Silent(ws[j])
    ensures Silents(ws) < |ws|
    decreases j
  {
    hide Silent;
    if j > 0 {
      SomeLoud(ws[1..], j - 1);
    }
  }

  /** No word after a silent one does anything. */
  predicate SilentToTheEnd(ws: seq<InsnWord>) {
    forall j :: Leading(ws) <= j < |ws| ==> Silent(ws[j])
  }

  lemma RunInTwo(ws: seq<InsnWord>, k: nat, m: Machine)
    requires k <= |ws|
    ensures RunWords(ws, m) ==
      match RunWords(ws[..k], m)
      case Done(m') => RunWords(ws[k..], m')
      case Undefined => Undefined
      case Malformed => Malformed
  {
    hide RunWords;
    assert ws == ws[..k] + ws[k..];
    RunWordsConcat(ws[..k], ws[k..], m);
  }

  /** Single-stepping reaches the address of the first silent word and stays there. */
  lemma StepsUpToSilence(ws: seq<InsnWord>, m: Machine, pc: Word, cache: map<Word, seq<InsnWord>>, k: nat)
    requires Placed(ws, m, pc, cache) && TransferFree(ws) && RunWords(ws, m).Done? && Leading(ws) < |ws|
    ensures IrSteps(m, k).Done?
    ensures IrSteps(m, k).m.pc == Def(Wrap(pc + 4 * (if k <= Leading(ws) then k else Leading(ws))))
  {
    hide FetchWord, RunWords, IrSteps, Silent, Placed, TransferFree, Leading, Wrap, StraightLine;
    var s := Leading(ws);
    if k <= s {
      RunInTwo(ws, k, m);
      QuietPrefix(ws, m, pc, cache, k);
    } else {
      RunInTwo(ws, s, m);
      QuietPrefix(ws, m, pc, cache, s);
      var m' := RunWords(ws[..s], m).m;
      NthOfLine(m'.mem, pc, ws, s);
      SilentStalls(m', Wrap(pc + 4 * s), ws[s], k - s);
      IrStepsSplit(m, s, k - s);
    }
  }

  lemma NthOfLine(mem: Mem, pc: Word, ws: seq<InsnWord>, i: nat)
    requires i < |ws| && StraightLine(mem, pc, ws)
    ensures FetchWord(mem, Wrap(pc + 4 * i)) == Some(ws[i])
  {
    hide FetchWord, Transfers;
  }

  lemma DifferentPcs(pc: Word, a: nat, b: nat)
    requires a < b < 0x4000_0000
    ensures Wrap(pc + 4 * a) != Wrap(pc + 4 * b)
  {
    WrapEqualIff(pc + 4 * b, b - a);
  }

  /** The words that do something outnumber those before the first silent one. */
  lemma LoudAfterSilence(ws: seq<InsnWord>)
    requires !SilentToTheEnd(ws)
    ensures Leading(ws) < |ws| - Silents(ws) && Leading(ws) < |ws|
  {
    hide Silent, Leading, Silents;
    var s := Leading(ws);
    var j :| s <= j < |ws| && !Silent(ws[j]);
    SomeLoud(ws[s..], j - s);
    assert ws == ws[..s] + ws[s..];
    SilentsConcat(ws[..s], ws[s..]);
    NoSilents(ws[..s]);
  }

  lemma NeverReached(ws: seq<InsnWord>, m: Machine, pc: Word, cache: map<Word, seq<InsnWord>>, k: nat)
    requires Placed(ws, m, pc, cache) && TransferFree(ws) && RunWords(ws, m).Done? && |ws| < 0x4000_0000
    requires !SilentToTheEnd(ws)
    ensures IrSteps(m, k) != RunWords(ws, m)
  {
    hide FetchWord, RunWords, IrSteps, Silent, Transfers, CodeCovered, Clear, Wrap, StraightLine, Leading, Silents,
      SilentToTheEnd;
    var s := Leading(ws);
    LoudAfterSilence(ws);
    PcAfter(ws, m, pc);
    StepsUpToSilence(ws, m, pc, cache, k);
    DifferentPcs(pc, if k <= s then k else s, |ws| - Silents(ws));
  }

  /** A transfer-free block, run to its end, ends where single-stepping gets to if and only if no
      word that does something follows a silent one. */
  lemma PartsAfterSilence(ws: seq<InsnWord>, m: Machine, pc: Word, cache: map<Word, seq<InsnWord>>)
    requires Placed(ws, m, pc, cache) && TransferFree(ws) && RunWords(ws, m).Done? && |ws| < 0x4000_0000
    ensures (exists k: nat :: IrSteps(m, k) == RunWords(ws, m)) <==> SilentToTheEnd(ws)
  {
    hide FetchWord, RunWords, IrSteps, Silent, Placed, TransferFree, Leading;
    if SilentToTheEnd(ws) {
      var s := Leading(ws);
      RunInTwo(ws, s, m);
      QuietPrefix(ws, m, pc, cache, s);
      AllSilent(ws[s..], RunWords(ws[..s], m).m);
    } else {
      forall k: nat ensures IrSteps(m, k) != RunWords(ws, m) {
        NeverReached(ws, m, pc, cache, k);
      }
    }
  }

  // ----- whole runs -----

  /** The block run by a turn from `s` meets the side conditions: nothing silent before its last
      word, and no store to cached code, itself included. If translation fails, the words that
      lead up to the failure do, and none of them is silent. */
  ghost predicate SafeTurn(s: System, threshold: nat) {
    s.m.pc.Def? ==>
      var pc := s.m.pc.val;
      match Translate(s, pc, threshold)
      case Some(t) => QuietButLast(t.cache[pc]) && Clear(t.cache[pc], t.m, t.cache)
      case None =>
        forall ws :: Gap(s.m.mem, pc, ws, threshold) ==>
          (forall i :: 0 <= i < |ws| ==> !Silent(ws[i])) && Clear(ws, s.m, map[pc := ws])
  }

  ghost predicate SafeTurns(s: System, threshold: nat, n: nat)
    decreases n
  {
    n > 0 ==>
      && SafeTurn(s, threshold)
      && (Turn(s, threshold).Running? ==> SafeTurns(Turn(s, threshold).s, threshold, n - 1))
  }

  /** The sum of the lengths of the blocks run in n turns. */
  function Executed(s: System, threshold: nat, n: nat): nat
    decreases n
  {
    if n == 0 || s.m.pc.Poison? || Turn(s, threshold).Crashed? then 0
    else |Turn(s, threshold).s.cache[s.m.pc.val]| + Executed(Turn(s, threshold).s, threshold, n - 1)
  }

  ghost predicate CoherentSystem(s: System, threshold: nat) {
    Coherent(s.m.mem, s.cache, threshold)
  }

  /** Translation on a miss keeps the cache coherent and never replaces a block. */
  lemma TranslateCoherent(s: System, pc: Word, threshold: nat)
    requires CoherentSystem(s, threshold) && Translate(s, pc, threshold).Some?
    ensures CoherentSystem(Translate(s, pc, threshold).value, threshold)
    ensures forall k :: k in s.cache ==>
      k in Translate(s, pc, threshold).value.cache && Translate(s, pc, threshold).value.cache[k] == s.cache[k]
  {
    hide FormWords;
  }

  lemma OwnCode(cache: map<Word, seq<InsnWord>>, pc: Word)
    requires pc in cache
    ensures CodeCovered(cache, pc, |cache[pc]|)
  {
    hide InWindow;
  }

  /** A turn that goes well is as many single steps as its block has words. */
  lemma TurnIsSteps(s: System, threshold: nat)
    requires CoherentSystem(s, threshold) && SafeTurn(s, threshold) && Turn(s, threshold).Running?
    ensures var s' := Turn(s, threshold).s;
      s.m.pc.Def? && s.m.pc.val in s'.cache && |s'.cache[s.m.pc.val]| <= threshold
      && IrSteps(s.m, |s'.cache[s.m.pc.val]|) == Done(s'.m) && CoherentSystem(s', threshold)
  {
    hide FormWords, EmitBlock, Call, RunWords, IrSteps, Translate, QuietButLast, Clear, Coherent, StraightLine, Ended,
      CodeCovered;
    var pc := s.m.pc.val;
    var t := Translate(s, pc, threshold).value;
    var ws := t.cache[pc];
    TranslateCoherent(s, pc, threshold);
    CachedBlock(t.m.mem, t.cache, threshold, pc);
    FormWordsIff(t.m.mem, pc, threshold, ws);
    BlockBounds(t.m.mem, pc, threshold, ws);
    OwnCode(t.cache, pc);
    BlockRunsItsWords(ws, t.m);
    BlockIsSteps(ws, t.m, pc, t.cache);
    CoherenceOverBlock(ws, t.m, t.cache, threshold);
  }

  /** The blocks a run executes store to no cached code. */
  ghost predicate ClearTurns(s: System, threshold: nat, n: nat)
    decreases n
  {
    n > 0 && Turn(s, threshold).Running? ==>
      var t := Translate(s, s.m.pc.val, threshold).value;
      Clear(t.cache[s.m.pc.val], t.m, t.cache) && ClearTurns(Turn(s, threshold).s, threshold, n - 1)
  }

  /** Cache coherence is an invariant of every run that does not store to cached code. */
  lemma {:induction false} CacheStaysCoherent(s: System, threshold: nat, n: nat)
    requires CoherentSystem(s, threshold) && ClearTurns(s, threshold, n) && Turns(s, threshold, n).Running?
    ensures CoherentSystem(Turns(s, threshold, n).s, threshold)
    decreases n
  {
    hide FormWords, EmitBlock, Call, RunWords, Translate, Clear, Coherent;
    if n > 0 {
      var t := Translate(s, s.m.pc.val, threshold).value;
      var ws := t.cache[s.m.pc.val];
      TranslateCoherent(s, s.m.pc.val, threshold);
      BlockRunsItsWords(ws, t.m);
      CoherenceOverBlock(ws, t.m, t.cache, threshold);
      CacheStaysCoherent(Turn(s, threshold).s, threshold, n - 1);
    }
  }

  lemma CachedBlock(mem: Mem, cache: map<Word, seq<InsnWord>>, threshold: nat, pc: Word)
    requires Coherent(mem, cache, threshold) && pc in cache
    ensures FormWords(mem, pc, threshold) == Some(cache[pc])
  {
    hide FormWords;
  }

  /** The most single steps that a turn stands for, and one for a turn that stands for none. */
  function Cap(threshold: nat): nat {
    if threshold == 0 then 1 else threshold
  }

  /** The most that n turns stand for. */
  function Bound(threshold: nat, n: nat): nat {
    n * Cap(threshold)
  }

  lemma StaysFailed(m: Machine, a: nat, b: nat)
    requires a <= b && !IrSteps(m, a).Done?
    ensures !IrSteps(m, b).Done?
  {
    hide IrSteps;
    IrStepsSplit(m, a, b - a);
  }

  /** A turn that crashes does so because single-stepping crashes too, within as many steps. */
  lemma TurnCrashIsReal(s: System, threshold: nat)
    requires CoherentSystem(s, threshold) && SafeTurn(s, threshold) && Turn(s, threshold).Crashed?
    ensures !IrSteps(s.m, Cap(threshold)).Done?
  {
    hide FormWords, EmitBlock, Call, RunWords, Translate, QuietButLast, Clear, Coherent, StraightLine, Ended,
      CodeCovered, Gap, IrSteps, Silent;
    if s.m.pc.Poison? {
      PoisonPcCrashes(s.m);
      StaysFailed(s.m, 1, Cap(threshold));
    } else {
      var pc := s.m.pc.val;
      if Translate(s, pc, threshold).Some? {
        var t := Translate(s, pc, threshold).value;
        var ws := t.cache[pc];
        TranslateCoherent(s, pc, threshold);
        CachedBlock(t.m.mem, t.cache, threshold, pc);
        FormWordsIff(t.m.mem, pc, threshold, ws);
        BlockBounds(t.m.mem, pc, threshold, ws);
        OwnCode(t.cache, pc);
        BlockRunsItsWords(ws, t.m);
        BlockIsSteps(ws, t.m, pc, t.cache);
        StaysFailed(s.m, |ws|, Cap(threshold));
      } else {
        NoTranslation(s, pc, threshold);
        FormFailsIff(s.m.mem, pc, threshold);
        var ws :| Gap(s.m.mem, pc, ws, threshold);
        GapCrashes(ws, s.m, pc, threshold);
      }
    }
  }

  lemma NoTranslation(s: System, pc: Word, threshold: nat)
    requires Translate(s, pc, threshold).None?
    ensures FormWords(s.m.mem, pc, threshold).None?
  {
    hide FormWords;
  }

  lemma PoisonPcCrashes(m: Machine)
    requires m.pc.Poison?
    ensures !IrSteps(m, 1).Done?
  {
  }

  lemma UnmappedCrashes(m: Machine, pc: Word)
    requires m.pc == Def(pc) && FetchWord(m.mem, pc).None?
    ensures !IrSteps(m, 1).Done?
  {
    hide FetchWord, WordEffect;
  }

  lemma GapCrashes(ws: seq<InsnWord>, m: Machine, pc: Word, threshold: nat)
    requires m.pc == Def(pc) && Gap(m.mem, pc, ws, threshold)
    requires (forall i :: 0 <= i < |ws| ==> !Silent(ws[i])) && Clear(ws, m, map[pc := ws])
    ensures !IrSteps(m, Cap(threshold)).Done?
  {
    hide FetchWord, RunWords, Clear, IrSteps, Silent, CodeCovered, Transfers, StraightLine;
    OwnCode(map[pc := ws], pc);
    BlockIsSteps(ws, m, pc, map[pc := ws]);
    if IrSteps(m, |ws|).Done? {
      GapReached(ws, m, pc, threshold);
      IrStepsSplit(m, |ws|, 1);
      StaysFailed(m, |ws| + 1, Cap(threshold));
    } else {
      StaysFailed(m, |ws|, Cap(threshold));
    }
  }

  /** A block that runs through a gap stands at an address it cannot fetch. */
  lemma GapReached(ws: seq<InsnWord>, m: Machine, pc: Word, threshold: nat)
    requires m.pc == Def(pc) && Gap(m.mem, pc, ws, threshold)
    requires (forall i :: 0 <= i < |ws| ==> !Silent(ws[i])) && RunWords(ws, m).Done?
    ensures !IrSteps(RunWords(ws, m).m, 1).Done?
  {
    hide FetchWord, RunWords, IrSteps, Silent, Transfers, StraightLine, Wrap;
    var m' := RunWords(ws, m).m;
    NoTransferInGap(m.mem, pc, ws, threshold);
    PcAfter(ws, m, pc);
    NoSilents(ws);
    BlockKeepsLayout(ws, m);
    UnmappedKept(m.mem, m'.mem, Wrap(pc + 4 * |ws|));
    UnmappedCrashes(m', Wrap(pc + 4 * |ws|));
  }

  lemma NoTransferInGap(mem: Mem, pc: Word, ws: seq<InsnWord>, threshold: nat)
    requires Gap(mem, pc, ws, threshold)
    ensures forall i :: 0 <= i < |ws| ==> !Transfers(ws[i])
  {
    hide FetchWord, Transfers;
  }

  lemma {:induction false} NoSilents(ws: seq<InsnWord>)
    requires forall i :: 0 <= i < |ws| ==> !Silent(ws[i])
    ensures Silents(ws) == 0
    decreases |ws|
  {
    hide Silent;
    if ws != [] {
      NoSilents(ws[1..]);
    }
  }

  lemma OneTurnLess(n: nat, c: nat)
    requires n > 0
    ensures n * c == c + (n - 1) * c
  {
  }

  lemma BoundStep(threshold: nat, n: nat)
    requires n > 0
    ensures Bound(threshold, n) == Cap(threshold) + Bound(threshold, n - 1)
  {
    OneTurnLess(n, Cap(threshold));
  }

  lemma AtMostCap(threshold: nat, k: nat)
    requires k <= threshold
    ensures k <= Cap(threshold)
  {
  }

  /** Whole runs: from any state with a coherent cache, n turns of the dispatch loop reach the state
      of single-stepping for the sum of the executed blocks' lengths, the cache still coherent;
      and they crash only if single-stepping crashes, within n times the threshold steps. */
  lemma {:induction false} WholeRun(s: System, threshold: nat, n: nat)
    requires CoherentSystem(s, threshold) && SafeTurns(s, threshold, n)
    ensures match Turns(s, threshold, n)
      case Running(s') => IrSteps(s.m, Executed(s, threshold, n)) == Done(s'.m) && CoherentSystem(s', threshold)
      case Crashed => !IrSteps(s.m, Bound(threshold, n)).Done?
    decreases n
  {
    hide Turn, IrSteps, CoherentSystem, SafeTurn, Bound, Cap;
    if n == 0 {
      NoSteps(s.m);
    } else {
      BoundStep(threshold, n);
      if Turn(s, threshold).Crashed? {
        TurnCrashIsReal(s, threshold);
        StaysFailed(s.m, Cap(threshold), Bound(threshold, n));
      } else {
        var s' := Turn(s, threshold).s;
        TurnIsSteps(s, threshold);
        var k := |s'.cache[s.m.pc.val]|;
        WholeRun(s', threshold, n - 1);
        if Turns(s', threshold, n - 1).Running? {
          IrStepsSplit(s.m, k, Executed(s', threshold, n - 1));
        } else {
          IrStepsSplit(s.m, k, Bound(threshold, n - 1));
          AtMostCap(threshold, k);
          StaysFailed(s.m, k + Bound(threshold, n - 1), Bound(threshold, n));
        }
      }
    }
  }

  // ----- progress -----

  /** The cached blocks are as long as blocks are. */
  predicate Sized(cache: map<Word, seq<InsnWord>>, threshold: nat) {
    forall pc :: pc in cache ==> |cache[pc]| <= threshold && (threshold >= 1 ==> |cache[pc]| >= 1)
  }

  lemma TurnKeepsSized(s: System, threshold: nat)
    requires Sized(s.cache, threshold) && Turn(s, threshold).Running?
    ensures Sized(Turn(s, threshold).s.cache, threshold)
    ensures s.m.pc.Def? && s.m.pc.val in Turn(s, threshold).s.cache
  {
    hide Call, EmitBlock, FormWords;
    var pc := s.m.pc.val;
    if pc !in s.cache {
      BlockBounds(s.m.mem, pc, threshold, FormWords(s.m.mem, pc, threshold).value);
    }
  }

  /** Every run, safe or not, executes between one and `threshold` words a turn. */
  lemma {:induction false} Progress(s: System, threshold: nat, n: nat)
    requires Sized(s.cache, threshold)
    ensures Executed(s, threshold, n) <= n * threshold
    ensures Turns(s, threshold, n).Running? && threshold >= 1 ==> n <= Executed(s, threshold, n)
    decreases n
  {
    hide Turn, Sized;
    if n > 0 {
      OneTurnLess(n, threshold);
      if Turn(s, threshold).Running? {
        TurnKeepsSized(s, threshold);
        SizedBlock(Turn(s, threshold).s.cache, threshold, s.m.pc.val);
        Progress(Turn(s, threshold).s, threshold, n - 1);
      }
    }
  }

  lemma SizedBlock(cache: map<Word, seq<InsnWord>>, threshold: nat, pc: Word)
    requires Sized(cache, threshold) && pc in cache
    ensures |cache[pc]| <= threshold && (threshold >= 1 ==> |cache[pc]| >= 1)
  {
  }

  lemma CoherentIsSized(mem: Mem, cache: map<Word, seq<InsnWord>>, threshold: nat)
    requires Coherent(mem, cache, threshold)
    ensures Sized(cache, threshold)
  {
    hide FormWords;
    forall pc | pc in cache ensures |cache[pc]| <= threshold && (threshold >= 1 ==> |cache[pc]| >= 1) {
      BlockBounds(mem, pc, threshold, cache[pc]);
    }
  }

  /** The loop keeps up with single-stepping: what fails within n single steps crashes the loop
      within n turns, and a crash within n turns is a failure within n times the threshold steps. */
  lemma CrashBounds(s: System, threshold: nat, n: nat)
    requires threshold >= 1 && CoherentSystem(s, threshold) && SafeTurns(s, threshold, n)
    ensures !IrSteps(s.m, n).Done? ==> Turns(s, threshold, n).Crashed?
    ensures Turns(s, threshold, n).Crashed? ==> !IrSteps(s.m, n * threshold).Done?
  {
    hide Turns, IrSteps, Executed, Coherent, SafeTurns, Sized;
    WholeRun(s, threshold, n);
    CoherentIsSized(s.m.mem, s.cache, threshold);
    Progress(s, threshold, n);
    if !IrSteps(s.m, n).Done? && Turns(s, threshold, n).Running? {
      StaysFailed(s.m, n, Executed(s, threshold, n));
    }
  }

  /** The dispatch loop crashes if and only if single-stepping does. */
  lemma CrashIff(s: System, threshold: nat)
    requires threshold >= 1 && CoherentSystem(s, threshold) && forall n: nat :: SafeTurns(s, threshold, n)
    ensures (exists n: nat :: Turns(s, threshold, n).Crashed?) <==> (exists k: nat :: !IrSteps(s.m, k).Done?)
  {
    hide Turns, IrSteps, CoherentSystem, SafeTurns;
    if n: nat :| Turns(s, threshold, n).Crashed? {
      CrashBounds(s, threshold, n);
    }
    if k: nat :| !IrSteps(s.m, k).Done? {
      CrashBounds(s, threshold, k);
    }
  }

  lemma NoSteps(m: Machine)
    ensures IrSteps(m, 0) == Done(m)
  {
  }

  /** From the start, where the cache is empty. */
  lemma WholeRunFromBoot(m: Machine, threshold: nat, n: nat)
    requires SafeTurns(Boot(m), threshold, n) && Turns(Boot(m), threshold, n).Running?
    ensures IrSteps(m, Executed(Boot(m), threshold, n)) == Done(Turns(Boot(m), threshold, n).s.m)
    ensures CoherentSystem(Turns(Boot(m), threshold, n).s, threshold)
  {
    hide Turns, SafeTurns, IrSteps, Executed;
    WholeRun(Boot(m), threshold, n);
  }

  /** The threshold only decides where blocks end: two runs of the same guest are on one path, and
      where they have executed equally many words they are in the same state. */
  lemma ThresholdIndependence(m: Machine, t1: nat, n1: nat, t2: nat, n2: nat)
    requires SafeTurns(Boot(m), t1, n1) && Turns(Boot(m), t1, n1).Running?
    requires SafeTurns(Boot(m), t2, n2) && Turns(Boot(m), t2, n2).Running?
    requires Executed(Boot(m), t1, n1) <= Executed(Boot(m), t2, n2)
    ensures var gap := Executed(Boot(m), t2, n2) - Executed(Boot(m), t1, n1);
      && IrSteps(Turns(Boot(m), t1, n1).s.m, gap) == Done(Turns(Boot(m), t2, n2).s.m)
      && (gap == 0 ==> Turns(Boot(m), t1, n1).s.m == Turns(Boot(m), t2, n2).s.m)
  {
    hide Turns, SafeTurns, IrSteps, Executed, Boot, CoherentSystem;
    WholeRunFromBoot(m, t1, n1);
    WholeRunFromBoot(m, t2, n2);
    IrStepsSplit(m, Executed(Boot(m), t1, n1), Executed(Boot(m), t2, n2) - Executed(Boot(m), t1, n1));
    NoSteps(Turns(Boot(m), t1, n1).s.m);
  }

  // ----- the cache -----

  /** `added` lists the keys of the cache without repetition. */
  ghost predicate TranslatedOnce(s: System) {
    && (forall pc :: pc in s.cache <==> pc in s.added)
    && (forall i, j :: 0 <= i < j < |s.added| ==> s.added[i] != s.added[j])
  }

  /** Over any run, safe or not, no address is translated twice and no block is ever replaced. */
  lemma {:induction false} EachAddressOnce(s: System, threshold: nat, n: nat)
    requires TranslatedOnce(s) && Turns(s, threshold, n).Running?
    ensures var s' := Turns(s, threshold, n).s;
      && TranslatedOnce(s')
      && (forall pc :: pc in s.cache ==> pc in s'.cache && s'.cache[pc] == s.cache[pc])
      && s.added <= s'.added
    decreases n
  {
    hide Call, EmitBlock, FormWords;
    if n > 0 {
      EachAddressOnce(Turn(s, threshold).s, threshold, n - 1);
    }
  }
}
