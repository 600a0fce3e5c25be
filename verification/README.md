# dbtranslator: a proof of a binary translator

dbtranslator runs RV32I programs by translating them, a block at a time, to LLVM IR that is compiled
and called. This project models the translator, from the decoder to the dispatch loop, and proves
what running a guest through it means in terms of the architecture manual (The RISC-V Instruction Set
Manual, Volume I: Unprivileged ISA, version 20191213).

Three semantics are stacked, with a refinement between neighbours:

1. RV32I: register 0 is hardwired to zero (`Isa.Exec` with `Hardwired`);
2. RV32I in which register 0 is a register like any other (`Isa.Exec` with `Plain`);
3. evaluation of the emitted IR, with explicit poison and undefined behaviour (`Ir.Run`).

The modules follow the program:

| file | part |
|---|---|
| `Words.dfy` | 32-bit words as integers with their wrap-around, bitwise operators, shifts, slices of digits |
| `GuestMemory.dfy` | the segment table as a value, first-match search, little-endian accesses, the flat view |
| `MemoryImpl.dfy` | the C++ and the IR implementation of guest memory, in place over host buffers |
| `Isa.dfy` | encodings and execution of RV32I, from the manual |
| `Decoder.dfy` | `decode`, and the field extraction at the head of every `build_ir` |
| `Ir.dfy` | the IR fragment that is emitted, its evaluator, placement and renumbering of code |
| `Translator.dfy` | the code of each instruction, and a direct reading of what it does |
| `Builder.dfy` | the builder object, `build_ir` and `generate` as the calls that append to it |
| `Translation.dfy` | one instruction: emitted code against the manual |
| `CodeMeaning.dfy` | one instruction: what its code computes, in integers, digits and bytes |
| `Blocks.dfy`, `BlockBehaviour.dfy` | block formation, and what every block does and keeps |
| `StoreLoad.dfy` | stores followed by loads in translated code |
| `Dispatch.dfy` | the dispatch loop and its cache against single-stepping |
| `Runs.dfy` | whole runs against the manual |
| `Cpu.dfy` | the CPU state, and compiled code at work on it and on guest memory in place |
| `BlockNames.dfy`, `Driver.dfy` | JIT symbols; `generateFunc` and `main` as objects updated in place |

Comparing two semantics says little where both call one function. So the functions they share are
pinned by laws of their own (`Words.ToSignedLaw`, `SignExtendLaw`, `XorSum`, `OrSum`, `SplitDigits`,
`GuestMemory.ContainsIff`, `WriteFailsIff`, `Blocks.FetchIsRead`), and `CodeMeaning` says of the emitted
code of each instruction, without them, which numbers and bytes it leaves where.

The main results are `Translation.TranslationCorrect`, `Dispatch.WholeRun`, `Runs.StepsRefine`,
`Runs.X0NonInterference`, and their composition `Runs.EndToEnd`. `Driver.RunProgram` carries it over to
the loop of `main`, which fetches through the C++ memory and runs blocks on the memory of Memory.ll,
over the same buffers. The encoder and the reader of the manual, against which `decode` is judged, are
proved inverse to each other (`Isa.EncodeThenDisassemble`, `Isa.DisassembleThenEncode`).

## Where the code departs from RV32I

The model has these as the source has them; each is an exact condition in the theorem named.

- JAL extends its offset by bit 19 instead of bit 20 (Instruction.cpp:162): right exactly when the
  offset fits twenty bits (`Decoder.ImmJIsSpecIff`, `Translation.JalIff`).
- SLT and SLTU compare rs1 with itself (Instruction.cpp:1119-1122, 1143-1146), so they always write 0:
  right exactly when 0 is (`Translation.RegisterSetIff`).
- SLL, SRL and SRA do not mask the shift amount (Instruction.cpp:962, 988, 1014); from 32 on the IR
  gives poison (`Translation.RegisterOpIff`, `BlockBehaviour.PoisonIff`).
- Jump targets are not checked for alignment (`Translation.JalIff`, `JalrIff`, `BranchIff`).
- Register 0 is written like any other. One instruction has the outcome RV32I demands on x1 to x31, PC
  and memory exactly when it does not see register 0, that is, when what it computes with the register
  read as it is, in a result that is kept, equals what it computes with the register read as zero
  (`Runs.InStepIff`); a run is in step with RV32I all the way exactly when no instruction of it sees
  register 0 (`Runs.X0NonInterference`), and equals it on all 32 registers exactly when none writes a
  nonzero value to it (`Runs.SameRunIff`). The repository's own Fibonacci program is affected: `j` writes
  register 0, and `li a0, 1` after it sees it (tests/riscv-binaries/fibonacci/fib-recursion.s:18-20,
  `Runs.DirtyX0IsVisible`).
- ECALL and unknown words emit nothing, do not end a block, and leave the PC behind the fetch address
  (`BlockBehaviour.PcTracksFetch`, `Dispatch.SilentStalls`); a transfer-free block ends where
  single-stepping gets to exactly when nothing follows them (`Dispatch.PartsAfterSilence`).
- `decode` ignores funct7 for SLL, SLT, SLTU, XOR, OR and AND, and the register fields of ECALL and
  EBREAK; it never yields PAUSE (`Decoder.DecodeSound`, `Translator.PauseIsTranslatedAsFence`).
- A segment whose 32-bit end wraps holds no address (`GuestMemory.FirstMatch`).

## Model

| member | source | states |
|---|---|---|
| `Translation.TranslationCorrect` | dbtranslator/src/Instruction.cpp:116-1180 | For every mnemonic but UNKNOWN and ECALL, every word and every poison-free state, the emitted code ends in the state RV32I with a plain register 0 demands, and is undefined exactly where that faults on an access, if and only if the instruction is faithful there (JAL offset in twenty bits, aligned target, shift amount below 32, rs1 not less than rs2 for SLT and SLTU) |
| `Translation.GenerateImplements` | dbtranslator/src/Instruction.cpp:1299-1430 | The switch picks, for every mnemonic, the body that implements the instruction the manual's listing gives it |
| `Translation.RegisterOpIff` | dbtranslator/src/Instruction.cpp:891-1102 | Register arithmetic is right exactly when it is no shift by 32 or more |
| `Translation.RegisterSetIff` | dbtranslator/src/Instruction.cpp:1104-1150 | SLT and SLTU are right exactly when the architecture's result is 0 |
| `Translation.JalIff` | dbtranslator/src/Instruction.cpp:154-179 | JAL is right exactly when the extended offset is the architecture's and the target is aligned |
| `Translation.JalrIff` | dbtranslator/src/Instruction.cpp:181-210 | JALR is right, rd equal to rs1 included, exactly when the target with bit 0 cleared is aligned |
| `Translation.BranchIff` | dbtranslator/src/Instruction.cpp:212-420 | A branch is right exactly when it is not taken or its target is aligned |
| `Translation.LoadCase` | dbtranslator/src/Instruction.cpp:422-565 | Every load gives the register RV32I demands, and is undefined exactly where RV32I faults on the access |
| `Translation.StoreCase` | dbtranslator/src/Instruction.cpp:567-664 | Every store gives the memory RV32I demands although SB and SH load only the low bytes of the register, and is undefined exactly where RV32I faults on the access |
| `Translation.ShiftCodeScales` | dbtranslator/src/Instruction.cpp:822-1021 | The code of a shift by n < 32, register or immediate, multiplies by 2^n modulo 2^32, or divides the unsigned or the signed number by 2^n, rounding down |
| `CodeMeaning.ArithmeticCode` | dbtranslator/src/Instruction.cpp:116-943 | The code of ADD, SUB, ADDI, LUI and AUIPC writes to rd the residue modulo 2^32 of the sum or difference of its operands, and moves on by 4 |
| `CodeMeaning.IdleCode` | dbtranslator/src/Instruction.cpp:1152-1180 | The code of FENCE, PAUSE and EBREAK moves on by 4 and does nothing else; that of ECALL and of unknown words does nothing |
| `CodeMeaning.LogicCode` | dbtranslator/src/Instruction.cpp:742-1102 | Each of the 32 binary digits that XOR, OR and AND, register or immediate, write to rd is 1 exactly where the operands' digits differ, are not both 0, or are both 1 |
| `CodeMeaning.CompareImmediateCode` | dbtranslator/src/Instruction.cpp:694-740 | For the signed number a that rs1 holds, SLTI writes 1 exactly when a is less than the immediate; SLTIU compares the words |
| `CodeMeaning.CompareRegisterCode` | dbtranslator/src/Instruction.cpp:1104-1150 | SLT and SLTU write 0, whatever their operands |
| `CodeMeaning.BranchCode` | dbtranslator/src/Instruction.cpp:212-420 | For the signed numbers a and b that the operands hold, BLT is taken exactly when a < b and BGE when a >= b; the other branches compare the words; the PC goes to the target or on by 4 |
| `CodeMeaning.JalCode` | dbtranslator/src/Instruction.cpp:154-179 | JAL links pc + 4 and goes to pc plus its offset, for offsets in twenty bits |
| `CodeMeaning.JalrCode` | dbtranslator/src/Instruction.cpp:181-210 | JALR links pc + 4 and goes to rs1, as it was, plus its immediate with bit 0 cleared |
| `CodeMeaning.LoadCode` | dbtranslator/src/Instruction.cpp:422-565 | Where segment k is the first to hold the access, a load writes to rd the little-endian number of the bytes there; LB and LH the number of the narrow signed range with the same low bits |
| `CodeMeaning.StoreCode` | dbtranslator/src/Instruction.cpp:567-664 | Where segment k is the first to hold the access, a store replaces exactly the bytes there by the low bytes of rs2, the least significant first |
| `CodeMeaning.AccessUndefinedIff` | dbtranslator/src/Instruction.cpp:422-664 | The code of a load or store is undefined exactly where no segment is the first to hold the access |
| `CodeMeaning.FetchNumber` | dbtranslator/tests/Main.cpp:102-102 | Where segment k is the first to hold four bytes, the word fetched is the little-endian number of them |
| `Words.ToSignedLaw` | dbtranslator/src/Instruction.cpp:282-350 | The signed reading of a word is the one number of the signed range that the word is the residue of |
| `Words.SignExtendLaw` | dbtranslator/src/Instruction.cpp:446-475 | Sign extension of a byte or half is the number of its signed range with the same low bits |
| `Words.XorSum` | dbtranslator/src/Instruction.cpp:1041-1041 | XOR and twice AND add up to the sum of the operands |
| `Words.OrSum` | dbtranslator/src/Instruction.cpp:1068-1068 | OR and AND add up to the sum of the operands |
| `Words.BitwiseDigit` | dbtranslator/src/Instruction.cpp:742-820 | Bitwise operators work on each binary digit by itself |
| `Translation.ImmediateOp` | dbtranslator/src/Instruction.cpp:666-889 | Immediate arithmetic and shifts always agree with the architecture |
| `Translation.ImmediateSet` | dbtranslator/src/Instruction.cpp:694-740 | SLTI and SLTIU always agree with the architecture |
| `Translation.UpperCase` | dbtranslator/src/Instruction.cpp:116-152 | LUI and AUIPC always agree with the architecture |
| `Translator.CallIsDirect` | dbtranslator/src/Instruction.cpp:116-1180 | The SSA list of every body of `build_ir`, evaluated in any state, poison included, is the transfer between registers, PC and memory that the body describes |
| `Translator.EmitIsRenumbered` | dbtranslator/src/Instruction.cpp:1299-1430 | Code emitted after other code is the same code with its values renumbered |
| `Translator.PauseIsTranslatedAsFence` | dbtranslator/src/Instruction.cpp:1269-1285 | The word of PAUSE decodes as FENCE and gets the code PAUSE would have had |
| `Isa.ValueOfParse` | dbtranslator/src/Instruction.cpp:1183-1185 | The groups of bits that the formats cut a word into, each a shift and a mask, write the word again |
| `Decoder.FieldsAreSlices` | dbtranslator/src/Instruction.cpp:1183-1192 | The opcode, funct, register and immediate fields that are read from the groups are the source's shifts and masks of the word |
| `Decoder.NibblesAreSlices` | dbtranslator/src/Instruction.cpp:1269-1285 | So are the fields of FENCE, which cut across the groups |
| `Decoder.UpperBitsAreMasked` | dbtranslator/src/Instruction.cpp:117-117 | Masking with 0xFFFFF000 clears the low twelve bits and nothing else |
| `Decoder.DecodeComplete` | dbtranslator/src/Instruction.cpp:1188-1297 | Every encoding in the manual's mask and match listing decodes to its mnemonic |
| `Decoder.DecodeSound` | dbtranslator/src/Instruction.cpp:1188-1297 | What decodes to a mnemonic is an encoding of it exactly when it is not one of the loosely read words; PAUSE is never named |
| `Decoder.LooseIsStrict` | dbtranslator/src/Instruction.cpp:1251-1293 | A loosely read word decodes as the same word with funct7 zero, or with the register fields of ECALL and EBREAK zero, which is an encoding of that mnemonic |
| `Decoder.EncodingsDisjoint` | dbtranslator/src/Instruction.cpp:1188-1297 | The patterns that the nested switch decides between are pairwise disjoint |
| `Decoder.ImmJIsSpecIff` | dbtranslator/src/Instruction.cpp:157-164 | The offset of JAL is the manual's exactly when its bits 20 and 19 agree, which is when it lies in [-2^19, 2^19) |
| `Decoder.ImmBIsSpec` | dbtranslator/src/Instruction.cpp:216-222 | The extracted B immediate is the manual's in two's complement |
| `Decoder.ImmSIsSpec` | dbtranslator/src/Instruction.cpp:571-576 | The extracted S immediate is the manual's in two's complement |
| `Decoder.ImmIIsSpec` | dbtranslator/src/Instruction.cpp:184-188 | The extracted I immediate is the manual's in two's complement |
| `Decoder.ExtractAgrees` | dbtranslator/src/Instruction.cpp:116-1150 | For every mnemonic and word the extracted registers and immediate are the manual's, except for JAL offsets beyond twenty bits |
| `Decoder.RoundTrip` | dbtranslator/src/Instruction.cpp:1188-1297 | Decoding an encoded instruction recovers its mnemonic always, and its operands exactly when it is no JAL beyond twenty bits |
| `GuestMemory.FirstMatch` | dbtranslator/include/dbtranslator/Memory.h:33-41 | No pointer exactly when no segment contains the address; otherwise strictly inside the first segment that does, never one whose end wraps |
| `GuestMemory.ContainsIff` | dbtranslator/include/dbtranslator/Memory.h:36-37 | A segment holds exactly the addresses from its base up to its end, and none if the end wraps |
| `GuestMemory.DisjointSegmentsIff` | dbtranslator/include/dbtranslator/Memory.h:34-41 | Segments share no address exactly when any two occupied ones lie one after the other |
| `GuestMemory.ReadFailsIff` | dbtranslator/src/Memory.cpp:39-52 | A read fails exactly when every segment holding the address is shadowed by an earlier one or ends too early |
| `GuestMemory.WriteFailsIff` | dbtranslator/src/Memory.cpp:54-67 | A write fails under exactly the condition under which a read does |
| `GuestMemory.WriteWorksIff` | dbtranslator/src/Memory.cpp:39-67 | A write works exactly where a read of the same width does |
| `Words.SplitDigits` | dbtranslator/src/Memory.cpp:54-67 | Byte k of what a store writes is the k-th digit to base 256, from the least significant |
| `Words.JoinDigits` | dbtranslator/src/Memory.cpp:39-52 | Byte k of what a load reads is the k-th digit to base 256 of the number |
| `GuestMemory.ReadAfterWrite` | dbtranslator/src/Memory.cpp:39-67 | A read after a write of the same width gives the value cut to that width |
| `GuestMemory.WriteFrame` | dbtranslator/src/Memory.cpp:39-67 | A write leaves every read of a disjoint window as it was, failures included |
| `GuestMemory.WritesCommute` | dbtranslator/src/Memory.cpp:54-67 | Writes to disjoint windows commute, whatever the layout |
| `GuestMemory.WriteTruncates` | dbtranslator/src/Memory.cpp:54-62 | A narrow write depends on the low bytes of its value only |
| `GuestMemory.ReadIsFlat` | dbtranslator/src/Memory.cpp:39-52 | Over disjoint segments a read is the little-endian number of the flat bytes of its window |
| `GuestMemory.WriteIsFlat` | dbtranslator/src/Memory.cpp:54-67 | Over disjoint segments a write changes the flat bytes of its window to the little-endian digits of the value and no other byte |
| `GuestMemory.WriteKeepsOutside` | dbtranslator/src/Memory.cpp:54-67 | Outside its window a write keeps every byte even when segments overlap |
| `MemoryImpl.SegmentManager.constructor` | dbtranslator/include/dbtranslator/Memory.h:14-18 | A segment has a buffer of its own, of its size, with the given bytes |
| `MemoryImpl.MemoryManager.MapAddress` | dbtranslator/include/dbtranslator/Memory.h:33-41 | The loop finds the pointer of the first-match search, or null |
| `MemoryImpl.MemoryManager.Search` | dbtranslator/tests/Memory.ll:89-126 | The loop with its assumes terminates with the same pointer; an assume is false exactly when there is none |
| `MemoryImpl.MemoryManager.Load` | dbtranslator/src/Memory.cpp:39-52 | A load through a pointer is the little-endian number of the bytes behind it |
| `MemoryImpl.MemoryManager.Store` | dbtranslator/src/Memory.cpp:54-67 | A store through a pointer replaces exactly the bytes behind it, in one buffer |
| `MemoryImpl.MemoryManager.Dereference` | dbtranslator/src/Memory.cpp:39-52 | Loading works exactly for pointers that are not null and have the bytes behind them |
| `MemoryImpl.MemoryManager.Assign` | dbtranslator/src/Memory.cpp:54-67 | Storing works exactly for such pointers, and otherwise changes nothing |
| `MemoryImpl.MemoryManager.ReadMapped` | dbtranslator/src/Memory.cpp:39-52 | The C++ reads return what the memory represented by the buffers holds |
| `MemoryImpl.MemoryManager.WriteMapped` | dbtranslator/src/Memory.cpp:54-67 | The C++ writes leave buffers that represent the written memory |
| `MemoryImpl.MemoryManager.ReadAssuming` | dbtranslator/tests/Memory.ll:9-126 | The IR reads return the same as the C++ ones, so a fetch sees what a load would |
| `MemoryImpl.MemoryManager.WriteAssuming` | dbtranslator/tests/Memory.ll:129-246 | The IR writes leave the same memory as the C++ ones |
| `StoreLoad.StoreThenLoad` | dbtranslator/src/Instruction.cpp:422-664 | For every value and every two base registers and immediates with one effective address, a store and a load of its width compiled into one block put the value, cut to the width and extended, into rd, and change no other register |
| `StoreLoad.WordThenBytes` | dbtranslator/src/Instruction.cpp:509-664 | SW and four LBUs in one block give the little-endian bytes of the stored word |
| `Builder.IRBuilder.UpdatePC` | dbtranslator/src/Instruction.cpp:12-19 | Appends the code that advances the PC |
| `Builder.IRBuilder.BuildJalr` | dbtranslator/src/Instruction.cpp:181-210 | Appends code that reads rs1 before it writes rd |
| `Builder.IRBuilder.BuildBranch` | dbtranslator/src/Instruction.cpp:212-420 | Appends the compare, both targets and the select of a branch |
| `Builder.IRBuilder.BuildLoad` | dbtranslator/src/Instruction.cpp:422-565 | Appends the code of a load, without an extension at 32 bits |
| `Builder.IRBuilder.BuildStore` | dbtranslator/src/Instruction.cpp:567-664 | Appends the code of a store, with the register loaded at the width of the access |
| `Builder.IRBuilder.Generate` | dbtranslator/src/Instruction.cpp:1299-1430 | Appends exactly the code that `Translator.CallIsDirect` and `Translation.TranslationCorrect` speak about, numbered after what the builder holds |
| `Blocks.FormWordsIff` | dbtranslator/tests/Main.cpp:98-121 | A word list is the block at an address if and only if it is fetched from consecutive addresses modulo 2^32, transfers control at most at its end, and ends there or at the threshold |
| `Blocks.BlockBounds` | dbtranslator/tests/Main.cpp:98-121 | A block holds one to threshold words; a transfer occurs in last position only; a shorter block ends in one |
| `Blocks.FetchIsRead` | dbtranslator/tests/Main.cpp:102-102 | A fetch gives the word that a read of 32 bits at the PC gives, and fails where that fails |
| `Blocks.FetchIsFlat` | dbtranslator/tests/Main.cpp:102-102 | Over disjoint segments it is the little-endian word of the four flat bytes there |
| `Blocks.FormFailsIff` | dbtranslator/tests/Main.cpp:98-121 | Formation fails exactly when transfer-free words within the threshold lead to an address that cannot be fetched |
| `Blocks.FormSplit` | dbtranslator/tests/Main.cpp:98-121 | The block for n + k words is the block for n, continued at start + 4n unless it ends in a transfer |
| `Blocks.BlockRunsItsWords` | dbtranslator/tests/Main.cpp:98-122 | The one function compiled for a block has the effect of its words' code run one after the other |
| `Blocks.BlockSplits` | dbtranslator/tests/Main.cpp:98-121 | Running the block of n + k words is running its first n and then the block translated at start + 4n |
| `BlockBehaviour.BlockIsWellScoped` | dbtranslator/src/Instruction.cpp:1299-1430 | In the function of any block every operand is defined earlier and every register index is below 32 |
| `BlockBehaviour.BlockNeverStuck` | dbtranslator/src/Instruction.cpp:1299-1430 | No block, in any state, meets an ill-typed operand |
| `BlockBehaviour.PcTracksFetch` | dbtranslator/tests/Main.cpp:99-106 | Before the i-th word of any block the stored PC is start + 4(i - silent words before) modulo 2^32, hence the fetch address exactly when that count is zero modulo 2^30 |
| `BlockBehaviour.BlockKeepsRegister` | dbtranslator/src/Instruction.cpp:1299-1430 | A block changes no register outside the rd fields of its register-writing words |
| `BlockBehaviour.BlockKeepsByte` | dbtranslator/src/Instruction.cpp:1299-1430 | A block changes no guest byte outside the windows of the stores it executes |
| `BlockBehaviour.BlockKeepsLayout` | dbtranslator/src/Instruction.cpp:1299-1430 | A block never changes the segment table |
| `BlockBehaviour.PoisonIff` | dbtranslator/src/Instruction.cpp:945-1021 | From a poison-free state a word makes poison exactly when it is SLL, SRL or SRA and its rs2 holds 32 or more |
| `BlockBehaviour.FirstPoison` | dbtranslator/src/Instruction.cpp:945-1021 | Poison after a block comes from a shift by 32 or more that ran in a poison-free state |
| `Dispatch.SilentStalls` | dbtranslator/src/Instruction.cpp:1299-1302 | Single-stepping never gets past an ECALL or unknown word |
| `Dispatch.PartsAfterSilence` | dbtranslator/tests/Main.cpp:98-121 | The end state of a transfer-free block of fewer than 2^30 words is reached by single-stepping if and only if no word that does something follows a silent one |
| `Dispatch.CoherentIff` | dbtranslator/tests/Main.cpp:193-205 | After any change to memory the cache equals fresh translations if and only if every fetch of cached code reads what it read before |
| `Dispatch.CoherenceKept` | dbtranslator/tests/Main.cpp:193-205 | A word that stores to no cached code keeps every cached block equal to a fresh translation |
| `Dispatch.CacheStaysCoherent` | dbtranslator/tests/Main.cpp:193-205 | So does every run of the dispatch loop whose blocks store to no cached code |
| `Dispatch.BlockIsSteps` | dbtranslator/tests/Main.cpp:98-121 | A block with nothing silent before its last word, and no store to cached code, does what as many single steps do, undefined behaviour included |
| `Dispatch.WholeRun` | dbtranslator/tests/Main.cpp:193-207 | For any number of turns from any coherent state: the loop reaches the state of single-stepping for the sum of the executed blocks' lengths, with a coherent cache; and crashes only if single-stepping fails within n times the threshold steps |
| `Dispatch.Progress` | dbtranslator/tests/Main.cpp:98-121 | Every run, safe or not, executes between one and threshold words a turn |
| `Dispatch.CrashBounds` | dbtranslator/tests/Main.cpp:193-207 | What fails within n single steps crashes the loop within n turns, and a crash within n turns is a failure within n times the threshold steps |
| `Dispatch.CrashIff` | dbtranslator/tests/Main.cpp:193-207 | The loop crashes if and only if single-stepping does |
| `Dispatch.WholeRunFromBoot` | dbtranslator/tests/Main.cpp:190-207 | The same from the empty cache |
| `Dispatch.ThresholdIndependence` | dbtranslator/tests/Main.cpp:98-121 | Two runs with any two thresholds are on one path of single steps, and in the same state where they have executed equally many words |
| `Dispatch.EachAddressOnce` | dbtranslator/tests/Main.cpp:193-205 | Over every run no address is translated twice and no cached block is ever replaced |
| `Runs.StepAgreesIff` | dbtranslator/tests/Main.cpp:102-105 | One step of emitted code agrees with the manual's reading of the fetched word if and only if the word is not silent, not loosely read, and faithful |
| `Runs.StepsRefine` | dbtranslator/src/Instruction.cpp:116-1180 | A run of emitted code, of any length, is one of RV32I with a plain register 0 all the way if and only if every step is faithful |
| `Runs.InStepIff` | dbtranslator/src/Instruction.cpp:116-1150 | From harts that agree on x1 to x31, PC and memory, an instruction with a plain register 0 has the outcome RV32I demands there if and only if it does not see register 0 |
| `Runs.X0NonInterference` | dbtranslator/src/Instruction.cpp:116-1150 | A run of any length with a plain register 0 is in step with RV32I after every number of steps, on outcome, x1 to x31, PC and memory, if and only if no instruction of it sees register 0 |
| `Runs.CleanIsBlind` | dbtranslator/src/Instruction.cpp:116-1150 | In particular, if no instruction reads register 0 while it holds a nonzero value |
| `Runs.NopReadsUnseen` | dbtranslator/src/Instruction.cpp:666-692 | The converse fails: a NOP reads register 0, whatever it holds, and does not see it |
| `Runs.SameHartIff` | dbtranslator/src/Instruction.cpp:116-1150 | From a register 0 that is zero, an instruction has RV32I's outcome on all 32 registers if and only if it does not write a nonzero value to register 0 |
| `Runs.SameRunIff` | dbtranslator/src/Instruction.cpp:116-1150 | And a run of any length after every number of steps, if and only if none of its instructions does |
| `Runs.DirtyX0IsVisible` | dbtranslator/src/Instruction.cpp:172-177 | For every jump with rd 0 and every `li` at its target, the plain register 0 gives pc + 4 + k where RV32I gives k |
| `Runs.EndToEnd` | dbtranslator/tests/Main.cpp:185-207 | From boot, if the turns are safe and the executed instructions faithful, any number of turns of the dispatch loop ends in the state of RV32I with a plain register 0 after as many instructions as the executed blocks have; that run is in step with RV32I exactly when no instruction sees register 0, and is RV32I's on all registers exactly when none dirties it |
| `Runs.CrashHasACause` | dbtranslator/tests/Main.cpp:193-207 | If the loop crashes within n turns, then within n times the threshold steps the guest faults on an access or meets an instruction that is not faithful |
| `Runs.SideConditionsAreMet` | dbtranslator/tests/Main.cpp:193-207 | A guest that executes `j .` meets all hypotheses of `Runs.EndToEnd` in runs of every length, executing one word a turn |
| `BlockNames.NumberOfDecimal` | dbtranslator/tests/Main.cpp:86 | A decimal rendering reads back as its number |
| `BlockNames.DecimalIsCanonical` | dbtranslator/tests/Main.cpp:86 | A rendering has digits only and no leading zero |
| `BlockNames.BlockNamesDistinct` | dbtranslator/tests/Main.cpp:86 | Block names of different addresses differ, none is the name of a memory function, and each is `block_` and a rendering of its address |
| `Driver.LLJIT.AddIRModule` | dbtranslator/tests/Main.cpp:127-129 | Adding a module fails exactly when its symbol exists, and then changes nothing |
| `Driver.DynamicTranslator.Insert` | dbtranslator/tests/Main.cpp:91 | Inserting into the map keeps an entry that exists |
| `Cpu.CPUState.Perform` | dbtranslator/include/dbtranslator/CPU.h:14-18 | One operation of compiled code, on registers and PC in place and on memory through the functions of Memory.ll, does what the evaluator says, and is refused exactly where the evaluator has no next state |
| `Cpu.CPUState.Execute` | dbtranslator/tests/Main.cpp:204-205 | A call of compiled code with the state is defined exactly when the evaluator's is, and leaves the state it gives |
| `Driver.DynamicTranslator.Fetch` | dbtranslator/tests/Main.cpp:102-102 | Fetching through the C++ memory reads the word that the model fetches |
| `Driver.DynamicTranslator.FormBlock` | dbtranslator/tests/Main.cpp:98-121 | The loop terminates with the code of exactly the words of the block, or fails exactly when a fetch does |
| `Driver.DynamicTranslator.AddBlock` | dbtranslator/tests/Main.cpp:123-130 | The module of a new block is never refused, and keeps map, JIT and blocks consistent |
| `Driver.DynamicTranslator.GenerateFunc` | dbtranslator/tests/Main.cpp:74-131 | It fails exactly when a fetch does, so the JIT never refuses a block; the map, the JIT and the model's cache gain the same block |
| `Driver.DynamicTranslator.FindBlock` | dbtranslator/tests/Main.cpp:195-203 | The find, the translation on a miss and the second insert give the model's cache, and fail exactly when translation does |
| `Driver.DynamicTranslator.RunBlock` | dbtranslator/tests/Main.cpp:204-205 | The lookup by name finds the code of the block at the address, and the call runs it |
| `Driver.DynamicTranslator.TurnOnce` | dbtranslator/tests/Main.cpp:194-207 | One turn of the loop of `main`, over guest memory in place, is one turn of the model |
| `Driver.DynamicTranslator.Loop` | dbtranslator/tests/Main.cpp:194-207 | n turns are n turns of the model |
| `Driver.OutcomeIsRight` | dbtranslator/tests/Main.cpp:190-207 | The model's state after n turns from boot is a right outcome: RV32I's with a plain register 0 under safe turns and faithful steps, RV32I's on x1 to x31, PC and memory if no step sees register 0, and RV32I's on all registers if none dirties it |
| `Driver.InitialBoots` | dbtranslator/tests/Main.cpp:190-191 | At boot sp is -16, all other registers are zero and the PC is the entry point |
| `Driver.StackWords` | dbtranslator/src/Binary.cpp:36-39 | When the table holds the stack segment, the words it holds around the initial sp are those from 0xFFFFF1 below it to 11 above it |
| `Driver.RunProgram` | dbtranslator/tests/Main.cpp:190-207 | From a boot with sp at -16 and zeros elsewhere, the CPU state and the bytes in the host buffers after n turns of `main` are a right outcome in this sense |

## Left out

- The optimiser passes, LLJIT's linking and code generation: compiled code is taken to behave as the
  emitted IR does. Undefined behaviour and poison are as the LLVM language defines them for the
  operations used; a call with a poison argument is undefined since the parameters are `noundef`.
- Address computations (`CreateStructGEP`, `CreateInBoundsGEP`) and the load of the manager pointer are
  part of the operations that use them; a function's own values are numbered without them.
- ELF parsing and segment copying (src/Binary.cpp): the segment table is an input, of any length, so
  it need not hold the stack segment that parsing always appends.
- Host layout, host alignment annotations in Memory.ll and host endianness: buffers are byte arrays on
  a little-endian host. Access beyond a buffer, which the program leaves undefined, is a failed access.
- `Cpu.CPUState`: holds the thirty-two registers as a sequence that is reassigned; a register or the PC
  may hold poison; compiled code is run by evaluating its operations.
- `MemoryImpl.MemoryManager.Valid`: two segments never share a host buffer, as parsing allocates them.
- `Driver.DynamicTranslator.Loop`: runs n turns for any n instead of forever; lookup cannot fail.
- Words of instructions are modelled as their groups of bits, so that shifts and masks by constants are
  sums of groups; the `|=` of sign extension is a bitwise operator on whole words.
- The thirteen shapes of `build_ir` body stand for the forty-two classes, which differ in one operator,
  predicate or width.
- `--threshold` is a natural number. A negative one, converted to an unsigned number, is a large one.
- EBREAK is taken to resume after it and FENCE to order nothing: there is one hart and no debugger.
- Code that the guest overwrites: the theorems over runs exclude stores to cached blocks.
- `InstrToLiteral`, the type builders, argument parsing, `dump`, debug output and logging.
