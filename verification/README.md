# unxorer-plus: a verified model

unxorer-plus is an IDA plugin that emulates x86-64 code to make programs decrypt their own strings. This project
models the parts of it whose correctness does not rest on IDA or on the Unicorn engine, and proves what each part is
for:

- **Software AES** (`Gf256`, `AesTables`, `AesColumns`, `Aes`, `AesCipher`, `KeyAssist`). The in-place byte loops are
  methods over arrays. The multiplication loop is proved to be polynomial multiplication modulo
  x^8 + x^4 + x^3 + x + 1 (section 4.2 of FIPS 197), the literal S-box to be the affine image of the inverse
  (section 5.1.1), and chains of `aesenc` to be undone by chains of `aesdec` on `aesimc`-transformed keys for any number
  of rounds (section 5.3.5).
- **Path exploration** (`Classifier`, `LoopLimiter`, `Explorer`, `HookExits`, `Exploration`, `Runs`, `LoopRuns`,
  `Emulator`). The class `EmulatorRun.Emulator` has the fields and methods of the code; each method is proved equal to a
  function on values. The theorems are about those functions, over whole runs and against any engine: an arbitrary
  script says at which instructions the engine calls the hook, with which registers, how long a slice takes, what other
  threads add to the shared counter meanwhile, and which engine calls fail.
- **Write-tracked detection** (`WriteTracker`, `Strings`, `Scanner`, `Detection`). The dirty-page index against a
  byte-level write log, the scanner against a definition of the qualifying runs, and the two composed.
- **Memory** (`Engine`, `HeapSpec`, `FakeHeap`, `FaultMapper`). Guest memory is a finite map from addresses to bytes;
  reads and writes succeed whole or not at all, and mapping fails on overlap or when the engine chooses.
- **Stubs and vector kernels** (`Stubs`, `Dispatch`, `Lanes`). The narrow and wide string stubs are one method each, with
  the character width as a parameter.
- **Worker pool** (`WorkerPool`). A state machine whose steps are single atomic operations of one worker, or the main
  thread's cancellation; theorems hold for every interleaving.

`Basics` holds what several modules share.

Where the code departs from what its names promise, the model follows the code and states exactly when the two agree:

- The UTF-16 scan cannot be reached: a printable 16-bit character has a printable low byte, which the scanner's first
  test takes (`Strings.Utf16ImpliesAscii`). The scanner therefore has no such branch.
- `rot_word` rotates little-endian words the other way from RotWord of section 5.2 of FIPS 197; the results agree exactly
  on words with two equal halves (`KeyAssist.AssistIsStandardIff`; a key that fails: `KeyAssist.AssistIsNotStandard`).
- `alloc` near 2^64 returns ranges that leave the arena, exactly when its 64-bit sums wrap
  (`HeapSpec.AllocStaysInsideIff`; a size that fails: `HeapSpec.AllocOfMaxWraps`); `calloc` hands out too little exactly
  when the product wraps (`HeapSpec.CallocHoldsIff`, `HeapSpec.CallocProductWraps`).
- A fault on the last page of the address space maps nothing and reports success
  (`FaultMapper.Mapper.MapFaultRegion`, `FaultMapper.LastByteIsNotMapped`).
- The page loop of `record_write` ends exactly when the write stays below the last page of the address space
  (`WriteTracker.LoopEndsIff`).
- `strcpy` and `strcat` leave a text without a terminator when the text is cut off; the laws say exactly when the
  lengths still agree (`Stubs.StrcpyLaw`, `Stubs.StrcatLaw`).
- Escaping control characters can make two texts alike: a text can be told from its escape exactly if it holds no
  character that is escaped and no backslash followed by one of n, r, t, v, f, a, b (`Strings.EscapeIsFaithfulIff`).

`dafny verify dfyconfig.toml` checks the whole project.

## Model

| member | source | states |
|---|---|---|
| Gf256.Multiply | aes_impl.hpp:49-63 | the eight-step shift-and-add loop computes GMul, the function the field laws are about |
| Gf256.GMulIsProduct | aes_impl.hpp:49-63 | GMul is the remainder of the GF(2) polynomial product modulo x^8+x^4+x^3+x+1 |
| Gf256.RemainderIsUnique | aes_impl.hpp:49-63 | a polynomial has only one such remainder of degree below 8, so the previous row determines the product |
| Gf256.GMulCommutes | aes_impl.hpp:49-63 | multiplication does not depend on which operand drives the loop |
| Gf256.GMulAssociates | aes_impl.hpp:49-63 | multiplication is associative |
| Gf256.GMulDistributes | aes_impl.hpp:49-63 | multiplication distributes over xor |
| AesTables.TablesAreInverse | aes_impl.hpp:10-46 | the two literal tables are inverse permutations of the byte values |
| AesTables.SBoxIsFips | aes_impl.hpp:10-27 | every entry of the S-box is the affine image of the multiplicative inverse of its index |
| AesColumns.ProductLinear | aes_impl.hpp:115-126 | multiplying columns by a fixed polynomial is linear over the field |
| AesColumns.ProductCommutes | aes_impl.hpp:102-126 | the product of two column polynomials modulo x^4+1 commutes |
| AesColumns.MixColumnInverts | aes_impl.hpp:102-126 | the coefficients 2,3,1,1 and 14,11,13,9 undo each other on every column |
| Aes.SubBytesInPlace | aes_impl.hpp:65-69 | the loop substitutes all 16 bytes of the array and nothing twice |
| Aes.InvSubBytesInPlace | aes_impl.hpp:71-75 | the same for the inverse table |
| Aes.ShiftRowsInPlace | aes_impl.hpp:78-88 | the chains of moves put byte (r, c + r mod 4) at (r, c), as section 5.1.2 of FIPS 197 says |
| Aes.InvShiftRowsInPlace | aes_impl.hpp:90-100 | the chains of moves are the rotation of section 5.3.1 |
| Aes.MixColumnsInPlace | aes_impl.hpp:102-113 | the unrolled sums replace every column by its product with 3x^3+x^2+x+2 |
| Aes.InvMixColumnsInPlace | aes_impl.hpp:115-126 | the unrolled sums replace every column by its product with 11x^3+13x^2+9x+14 |
| Aes.MixedColumn | aes_impl.hpp:102-113 | MixColumns byte by byte: the four sums with 2 and 3, written out, in every column |
| Aes.InvMixedColumn | aes_impl.hpp:115-126 | InvMixColumns byte by byte: the four sums with 14, 11, 13 and 9 |
| Aes.XorBlockInPlace | aes_impl.hpp:128-132 | every byte becomes the exclusive or of its bits and those of the key byte, also when both are one array |
| Aes.AesEncInPlace | aes_impl.hpp:148-154 | the sequence of in-place steps is one round on the old state |
| Aes.AesEncLastInPlace | aes_impl.hpp:156-161 | the last round leaves out MixColumns |
| Aes.AesDecInPlace | aes_impl.hpp:163-169 | one round of the equivalent inverse cipher |
| Aes.AesDecLastInPlace | aes_impl.hpp:171-176 | its last round leaves out InvMixColumns |
| Aes.AesImcInPlace | aes_impl.hpp:178-182 | the destination becomes InvMixColumns of the source |
| AesCipher.ShiftAndSubCommute | aes_impl.hpp:65-100 | shifting rows and substituting bytes commute, in both directions of the cipher |
| AesCipher.MixColumnsInverts | aes_impl.hpp:102-126 | mix_columns and inv_mix_columns are mutual inverses on every state |
| AesCipher.InvMixColumnsLinear | aes_impl.hpp:115-132 | InvMixColumns distributes over adding a round key |
| AesCipher.RoundsWithoutKey | aes_impl.hpp:148-176 | with a zero key each round is its transformations in order, and whitening nothing leaves the key |
| AesCipher.RoundKeysAreAdded | aes_impl.hpp:148-161 | aesenc and aesenclast add every bit of their key to what they compute with a zero key |
| AesCipher.InverseRoundKeysAreAdded | aes_impl.hpp:163-176 | so do aesdec and aesdeclast |
| AesCipher.OneRound | aes_impl.hpp:148-182 | aesdec with a transformed key strips one aesenc from under ShiftRows and SubBytes |
| AesCipher.RoundsInvert | aes_impl.hpp:148-182 | by induction, the same for any number of rounds |
| AesCipher.DecryptInverts | aes_impl.hpp:148-182 | whitening, any number of aesenc and one aesenclast are undone by whitening, aesdec with aesimc keys in reverse, and aesdeclast |
| AesCipher.EncryptInverts | aes_impl.hpp:148-182 | the two chains are inverse in the other order too |
| KeyAssist.RotWordMoves | aes_impl.hpp:141-144 | on little-endian words rot_word takes [a0,a1,a2,a3] to [a3,a0,a1,a2] |
| KeyAssist.AesKeyGenAssist | aes_impl.hpp:184-199 | the word operations and stores produce the assist built on that rotation |
| KeyAssist.AssistBytes | aes_impl.hpp:184-199 | which substituted byte lands at which of the sixteen places |
| KeyAssist.RoundConstantBits | aes_impl.hpp:184-199 | the round constant is added bit by bit to the low byte of both rotated words |
| KeyAssist.AssistIsStandardIff | aes_impl.hpp:184-199 | it is the assist with RotWord of section 5.2 of FIPS 197 exactly if words 1 and 3 of the key have two equal halves each |
| KeyAssist.AssistIsNotStandard | aes_impl.hpp:184-199 | a concrete key on which the two assists differ |
| Classifier.ForceMakesConditionHold | emulator.cpp:239-367 | forcing makes the tested condition true for every conditional jump, move and set the classifier accepts, whatever the flags were |
| Classifier.ForceTouchesStatusOnly | emulator.cpp:239-367 | it changes only the five status flags or, for the jcxz family, only rcx |
| Classifier.ConditionalIff | instruction_classifier.hpp:16-40 | the classifier accepts exactly the instructions that test a condition, and as branches exactly those that jump on one |
| Classifier.BranchesJump | instruction_classifier.hpp:16-24 | a branch jumps on the condition its mnemonic tests, and nothing else jumps |
| LoopLimiter.CountsUp | emulator.cpp:508-520 | executions that force nothing are all counted |
| LoopLimiter.WindowHasForcedExit | emulator.cpp:502-542 | any max(L,2000)+span/4 consecutive executions of a backward branch contain a forced exit, from any counter and any dirtiness |
| LoopLimiter.CleanWindowHasForcedExit | emulator.cpp:502-542 | while nothing is dirty, any L+span/4 executions do |
| LoopLimiter.ForcedExactly | emulator.cpp:508-541 | counting from a forced exit or the start, execution n is forced if and only if n reaches L+span/4, or max(L,2000)+span/4 while dirty, or 2^64-1 |
| LoopLimiter.ExitsAreFarApart | emulator.cpp:502-542 | a forced exit comes no earlier than that many executions after the last one or after the start, the larger number if it is forced while dirty |
| LoopLimiter.EveryStretchHasForcedExit | emulator.cpp:502-542 | the two window bounds anywhere in the history of a branch that starts with no counter |
| Explorer.HookSchedules | emulator.cpp:423-550 | whatever path the hook takes, the stack and the visited set change by one scheduling of one key at most |
| Explorer.ForwardBranchFollowsBoth | emulator.cpp:489-549 | after a forward branch execution goes on at the target, and the fallthrough has been pushed with the registers from before the flags were forced |
| HookExits.NotExecuted | emulator.cpp:427-435 | a stop request or an address that is not decoded changes nothing |
| HookExits.SteppedOver | emulator.cpp:456-483 | skipped types move rip past the event, handled ones keep the handler's registers and move rip past the instruction |
| HookExits.CallStubbed | emulator.cpp:382-421 | a call out of the image, direct or through a jump, is stepped over with the stub's value or 0 in rax and nothing else changed |
| HookExits.FlagOperationForced | emulator.cpp:489-496 | a conditional move or set has its condition made true, with only status flags changed |
| HookExits.BranchForced | emulator.cpp:498-549 | a branch tries its fallthrough with the old registers; forward it has its condition made true and its counter dropped, backward without a limit it keeps its registers |
| HookExits.OthersRun | emulator.cpp:226-237 | every other instruction keeps its registers, and only an indirect jump or call schedules its target |
| HookExits.ScheduleCases | emulator.cpp:198-224 | one scheduling marks the key and pushes it exactly if it is new, inside the image and saved |
| HookExits.KeyIsScheduled | emulator.cpp:226-237 | which events the coverage theorems speak of, in terms of instruction type and operand |
| Exploration.ExploredByHook | emulator.cpp:198-224 | every hook call keeps: visited = keys tried, started and pending = keys saved, each once, each with its first registers |
| Exploration.ExploredByTake | emulator.hpp:124-129 | taking the top of the stack keeps the same |
| Exploration.HookMeasure | emulator.cpp:198-224 | no hook call increases (keys not visited) + (branches pending) |
| Exploration.NothingPendingMeansCovered | emulator.cpp:198-224 | with nothing pending, every in-image target that a hook call tried to schedule, by a branch or an indirect jump or call, was started with the registers of the first such call, if and only if the snapshot of that call succeeded |
| Exploration.PushesAreBounded | emulator.hpp:105-145 | pushes equal pops plus pending, and are at most decoded instructions times image size |
| Runs.PlayKeepsSound | emulator.cpp:844-880 | a slice keeps the exploration invariant, the instruction budget and the measure |
| Runs.RunIsSound | emulator.cpp:802-897 | every point of every run has them, and slice k follows k pops |
| Runs.EndIsSound | emulator.cpp:844-897 | and so does the end of a run, for each of the four reasons it can end |
| Runs.RunIsBounded | emulator.cpp:844-897 | no run plays more than 1 + decoded * image slices, and no key is started twice |
| Runs.RunStaysInBudget | emulator.cpp:839-869 | the decoded instructions of a run never exceed its limit, whatever other threads add to the shared counter |
| Runs.BudgetsAre | emulator.cpp:839-877 | before every slice what is left is the limit less the run's own and the foreign instructions so far, and less the time of the slices so far, but not below 0 |
| Runs.SliceExecutes | emulator.cpp:855-860 | a slice makes the hook calls of the script up to what is left of the instruction budget |
| Runs.BudgetSpentIff | emulator.cpp:850-851 | a run that is not stopped ends for want of budget if and only if one of these sums has reached its limit |
| Runs.BudgetLastsUntil | emulator.cpp:850-851 | and none of them had before any slice that was followed by another |
| Runs.RunCovers | emulator.cpp:844-897 | a run that ends with nothing pending has started a slice at every in-image target that one of its hook calls tried to schedule, with the registers of the first such call, if and only if the snapshot of that call succeeded |
| LoopRuns.HookTouchesOwnLoop | emulator.cpp:502-546 | a hook call changes no loop counter but that of its own address |
| LoopRuns.RunLoopsMatch | emulator.cpp:502-546 | at every hook call of every run the counter of each backward branch is the one its past executions lead to |
| LoopRuns.HookForcesExactly | emulator.cpp:502-549 | so the hook forces a backward branch to fall through exactly when the limiter's history says so, and otherwise leaves the registers alone |
| LoopRuns.FallsThroughIff | emulator.cpp:502-549 | in a whole run, an execution of a backward branch falls through exactly when the history of that branch over the run forces it (the only-if for calls made with rip not yet there) |
| LoopRuns.EveryLoopFallsThrough | emulator.cpp:502-549 | in the log of every run, of max(L,2000)+span/4 consecutive executions of a backward branch, or L+span/4 while nothing is dirty, one moves rip to the fallthrough |
| LoopRuns.NoLoopIsCutShort | emulator.cpp:502-549 | in every run, a branch made to fall through has been executed L+span/4 times since it last was, or since the start, and max(L,2000)+span/4 times if memory is dirty then |
| EmulatorRun.Emulator.ScheduleBranch | emulator.cpp:198-224 | the three early exits and the push, on the fields; true exactly when the stack grew |
| EmulatorRun.Emulator.DiscoverIndirectTargets | emulator.cpp:226-237 | schedules the memory operand of an indirect jump or call that can be read |
| EmulatorRun.Emulator.HandleCall | emulator.cpp:382-421 | calls that leave the image are stepped over with the stub's result or 0 in rax, others are left alone |
| EmulatorRun.Emulator.CountIteration | emulator.cpp:508-541 | the counter updates amount to one step of the limiter |
| EmulatorRun.Emulator.HandleBranch | emulator.cpp:498-549 | the branch part of the hook on fields and registers |
| EmulatorRun.Emulator.HookCode | emulator.cpp:423-550 | the whole hook: fields and registers become those of Hook, and the counter goes up exactly for decoded instructions |
| EmulatorRun.Emulator.TakeNext | emulator.hpp:124-129 | the branch pushed last comes out |
| EmulatorRun.Emulator.EmuStart | emulator.cpp:860 | a slice is the hook at each of its events in turn |
| EmulatorRun.Emulator.PlaySlice | emulator.cpp:853-877 | one slice, started with the registers as they are and rip at its entry point, takes fields and budgets where Play says |
| EmulatorRun.Emulator.Run | emulator.cpp:802-897 | terminates, and what it goes through is one of the runs the theorems are about, with the reason it ended; the first slice enters at start, every later one at the branch taken with the registers saved for it |
| WriteTracker.MaskIsPageOf | write_tracker.hpp:6-7 | the page mask rounds a 64-bit address down to its page |
| WriteTracker.TouchedPages | write_tracker.hpp:15-22 | a page is recorded exactly when the write changes a byte on it |
| WriteTracker.IndexAgreesWithLog | write_tracker.hpp:15-22 | after any write log a page is dirty exactly when some write of the log touched it |
| WriteTracker.LoopEndsIff | write_tracker.hpp:15-22 | in 64-bit arithmetic the page loop gets past the last page if and only if the write does not reach the last page of the address space |
| WriteTracker.BlocksAreEqual | write_tracker.hpp:24-52 | two maximal blocks of dirty pages that share an address are the same block |
| WriteTracker.MergePages | write_tracker.hpp:33-50 | the merge loop turns the sorted pages into the maximal blocks |
| WriteTracker.Tracker.RecordWrite | write_tracker.hpp:15-22 | adds the pages of the range, in the non-wrapping range |
| WriteTracker.Tracker.GetDirtyRegions | write_tracker.hpp:24-52 | returns the maximal blocks, in order, non-adjacent, of total size 0x1000 times the dirty pages, covering exactly the dirty addresses |
| Strings.Utf16ImpliesAscii | emulator.cpp:97-123 | the 16-bit branch of the scanner cannot be reached |
| Strings.EscapeControlChars | strings.hpp:58-94 | the loop computes Escape |
| Strings.EscapedIsPlain | strings.hpp:58-94 | no control character it handles survives |
| Strings.EscapeAppends | strings.hpp:58-94 | escaping works piece by piece |
| Strings.EscapeIsFaithfulIff | strings.hpp:58-94 | no other text has the escape of this one, if and only if it holds no escaped character and no backslash followed by an escape letter; the shortest witness is EscapeIsNotInjective |
| Strings.UnescapeInvertsIff | strings.hpp:58-94 | a reader of the usual backslash escapes gets the text back if and only if it has no backslash before an escape letter |
| Strings.TrimInPlace | strings.hpp:42-56 | the two loops compute Trim |
| Strings.TrimTrims | strings.hpp:42-56 | Trim removes white space from both ends and stops at the first other character; nothing is left exactly for all white space |
| Strings.TrimmedIsUnique | strings.hpp:42-56 | no other piece of the text has that property |
| Strings.NothingLeftIff | emulator.cpp:78-88 | a text is dropped exactly when it consists of spaces: tabs and line ends are escaped before the trim |
| Scanner.RunAccepted | emulator.cpp:102-106 | the test of the code is the definition of a qualifying run |
| Scanner.ScanPasses | emulator.cpp:95-110 | jumping past a run and its next byte misses no run |
| Scanner.Detector.PushString | emulator.cpp:78-90 | the list gains the cleaned text unless it is empty or present; the first entry stays |
| Scanner.Detector.ScanBufferForStrings | emulator.cpp:92-131 | pushes exactly the maximal printable runs of four or more bytes followed by a NUL, each once, in order |
| Detection.PushRunsAdds | emulator.cpp:78-131 | pushing runs adds exactly their cleaned texts, at the address of one of them, and keeps old entries |
| Detection.DumpTrackedWrites | emulator.cpp:568-588 | the list afterwards is the list before plus exactly the texts of qualifying runs in the scanned part of maximal dirty blocks, each located where it was found |
| Detection.YieldsOnMemory | emulator.cpp:92-131 | what a region yields, in guest memory: the longest runs of four or more printable bytes before a zero in its first 0x10000 bytes |
| Detection.BlocksOfLog | write_tracker.hpp:15-52 | the maximal blocks are the largest ranges of pages on which the log changed a byte |
| Detection.ReportedByLog | emulator.cpp:568-588 | end to end: a text is reported exactly when it is left of a qualifying run in the first 0x10000 bytes of such a range |
| Detection.TrackWrites | emulator.cpp:562-566 | clearing the tracker and recording a log write by write leaves the index that the theorems are about |
| Detection.TrackAndDump | emulator.cpp:562-588 | on the objects: recording a log and dumping adds exactly the texts of qualifying runs in the ranges the log touched |
| HeapSpec.BaseIsClear | fake_heap.hpp:113-122 | the arena is 64 KiB aligned, at or above the image end, clear of the stack, and right above the image unless it would meet the stack there |
| HeapSpec.TilesFacts | fake_heap.hpp:25-39 | blocks laid end to end are aligned, inside, disjoint, and their sizes sum to the distance |
| HeapSpec.AllocKeeps | fake_heap.hpp:25-39 | alloc appends one block at the cursor or changes nothing, and keeps the arena sound |
| HeapSpec.AllocCodeAgrees | fake_heap.hpp:25-39 | the 64-bit code is that alloc where its sums do not wrap |
| HeapSpec.AllocStaysInsideIff | fake_heap.hpp:30-32 | and returns null or a range inside the arena exactly there |
| HeapSpec.AllocOfMaxWraps | fake_heap.hpp:30-32 | a size of 2^64 - 1 is handed the cursor, which does not move |
| HeapSpec.CallocHoldsIff | fake_heap.hpp:41-51 | a block from calloc holds all its elements exactly when the product does not wrap |
| HeapSpec.CallocZeroes | fake_heap.hpp:41-51 | the block is zero and no other byte changes |
| HeapSpec.CallocSucceedsIff | fake_heap.hpp:41-51 | calloc succeeds exactly when a positive total still fits, with the block alloc would hand out |
| HeapSpec.ReallocPreserves | fake_heap.hpp:53-78 | realloc of a live block copies min(old, new) bytes to a fresh block and changes nothing else |
| HeapSpec.ReallocSucceedsIff | fake_heap.hpp:53-67 | realloc of null is alloc, and realloc succeeds exactly when a positive size still fits |
| HeapSpec.ReallocOfUnknown | fake_heap.hpp:61-74 | from a pointer that was not handed out nothing is copied |
| HeapSpec.ResetZeroes | fake_heap.hpp:87-101 | reset leaves every byte of a clean arena zero and no byte outside the used part changed |
| HeapSpec.RunStaysClean | fake_heap.hpp:25-101 | any sequence of calls and of guest writes inside blocks keeps the arena sound and zero above the cursor |
| HeapSpec.HeapIsSafe | fake_heap.hpp:25-101 | so after any such sequence all blocks are aligned, inside and disjoint, sizes sum to cursor minus base, and a reset zeroes the arena |
| FakeHeap.Heap.Init | fake_heap.hpp:9-23 | maps the arena once, zeroed, touching nothing else; a second call changes nothing |
| FakeHeap.Heap.Alloc | fake_heap.hpp:25-39 | for every 64-bit size the pointer, the cursor and the recorded size are those of the 64-bit code, and where the sums do not wrap those of the model's alloc; null before init |
| FakeHeap.Heap.Calloc | fake_heap.hpp:41-51 | the same for calloc |
| FakeHeap.Heap.Realloc | fake_heap.hpp:53-78 | the same for realloc, with the size looked up in the recorded sizes |
| FakeHeap.Heap.Free | fake_heap.hpp:80 | changes nothing |
| FakeHeap.Heap.Reset | fake_heap.hpp:87-101 | the same for reset |
| FakeHeap.Heap.ComputeBase | fake_heap.hpp:113-122 | computes the base that BaseIsClear is about |
| FaultMapper.MapKeepsConsistent | emulator.cpp:627-649 | mapping an unmapped page keeps transient pages aligned, distinct, disjoint from the rest and at most 2048 |
| FaultMapper.TransientPagesAreClear | emulator.cpp:627-649 | no transient page meets the image, the stack or anything mapped at construction |
| FaultMapper.FaultEnd | emulator.cpp:592-594 | in the non-wrapping range the loop ends right after the page of the last byte |
| FaultMapper.TopPageEnd | emulator.cpp:592-594 | on the last page of the address space the end wraps to 0 |
| FaultMapper.Mapper.MapTransientPage | emulator.cpp:627-649 | maps one page unless the limit is reached or the engine refuses, counts the refusals at the limit, keeps all other bytes |
| FaultMapper.Mapper.MapFaultRegion | emulator.cpp:590-610 | success maps exactly the pages the access overlaps, zeroed, and keeps every byte that was there; on the last page of the address space nothing is mapped, and past it at most the page of the first byte; it fails only at the page limit or for want of memory |
| FaultMapper.WrappedFaultEnd | emulator.cpp:592-594 | where the access itself passes 2^64 the loop covers one page if it comes back to the page it starts on, and none otherwise |
| FaultMapper.Mapper.ClearTransientMappings | emulator.cpp:651-657 | what remains mapped is exactly what was mapped at construction, with its contents |
| Stubs.Memcpy | api_stubs.hpp:57-70 | a simultaneous copy, overlap included, if both ranges are mapped and the size is within the limit; otherwise nothing |
| Stubs.Memset | api_stubs.hpp:72-84 | exactly the destination range gets the value, or nothing |
| Stubs.Strlen | api_stubs.hpp:106-124 | the number of characters before the text stops, up to the limit |
| Stubs.TextLengthIff | api_stubs.hpp:106-124 | that number n: none of the first n characters is unreadable or the terminator, and character n is, or n is the limit |
| Stubs.Strcpy | api_stubs.hpp:126-180 | memory becomes that of CopyText, the function of the laws, also for overlapping or unmapped ranges |
| Stubs.Strncpy | api_stubs.hpp:142-204 | the same for CopyPadded, with the count cut off at the limit |
| Stubs.Strcat | api_stubs.hpp:206-246 | the same for the copy to the end of the text at dest under the shared limit |
| Stubs.CopyTextMoves | api_stubs.hpp:126-140 | on a mapped destination apart from the text the loop moves the text and its terminator as one block and changes no other byte |
| Stubs.TextAgrees | api_stubs.hpp:106-124 | equal characters give equal lengths, up to where a text is cut off |
| Stubs.StrcpyLaw | api_stubs.hpp:126-180 | after strcpy only the destination has changed, and strlen of both ends agree exactly if the terminator was copied, the limit was reached, or the text happens to stop there |
| Stubs.StrcatLaw | api_stubs.hpp:206-246 | after strcat only the bytes after the text at dest have changed, and strlen is the sum, or the limit if the sum is past it, under the same exact condition |
| Stubs.StrncpyLaw | api_stubs.hpp:142-204 | strncpy writes exactly count characters: the text cut off at count, or padded with zeros |
| Stubs.LengthToLimit | api_stubs.hpp:106-124 | counting to a smaller limit only cuts the count off |
| Dispatch.FindStub | api_stubs.hpp:376-384 | the handler of the first entry with the name |
| Dispatch.LookupIff | api_stubs.hpp:376-384 | a lookup finds the handler of the first entry with the name, and nothing exactly if there is none |
| Dispatch.OnlyPlainNamesAreFound | api_stubs.hpp:337-374 | no name with an underscore, nor the empty one, is in the table |
| Dispatch.AfterLast | api_stubs.hpp:410 | the suffix without underscores that starts the name or follows one |
| Dispatch.TryDispatch | api_stubs.hpp:387-424 | for every import name the three lookups select what one lookup of the text after the last underscore selects |
| Lanes.LaneAt | handler.cpp:176-204 | every lane is the sum, the difference, the product of the two lanes at the same place, modulo 2^(8w) |
| Lanes.PerformLanes | handler.cpp:176-204 | the loops fill exactly the bytes of the vector with the lanewise result |
| Lanes.SubUndoesAdd | handler.cpp:176-194 | subtracting what was added gives back every vector, at every lane width |
| Lanes.MullIsProduct | handler.cpp:196-204 | the signed lane product stores the unsigned product modulo 2^(8w) |
| Lanes.WideShift | handler.cpp:288-294 | for counts of the lane width or more, zero or the sign is x*2^count mod 2^(8w), floor(x/2^count), or the signed floor |
| Lanes.ShiftOne | handler.cpp:288-304 | with both branches, the stored lane is that of the exact shift for every count |
| Lanes.PerformShift | handler.cpp:272-306 | the loop fills exactly the bytes of the vector with the shifted lanes |
| Lanes.ShiftedLaneAt | handler.cpp:272-306 | every lane is x*2^count modulo 2^(8w), floor(x/2^count), or the floor of the signed value over 2^count, for every count |
| Lanes.PerformPshufb16 | handler.cpp:363-372 | the loop computes the shuffle |
| Lanes.ShufflesCompose | handler.cpp:363-372 | shuffling twice is shuffling once by the first mask rearranged by the second, cleared where either clears |
| WorkerPool.ThreadCount | plugin.cpp:28-33 | at least one thread, no more than tasks or hardware threads |
| WorkerPool.EveryRunKeepsInvariant | plugin.cpp:149-204 | under every interleaving: claims in order, each index held by one worker or done, completed plus not-yet-counted equals finished runs, no early exit, local texts are those of finished runs |
| WorkerPool.ClaimsAreExclusive | plugin.cpp:178-180 | no index is claimed twice and completed never exceeds total |
| WorkerPool.JoinedPoolIsComplete | plugin.cpp:149-223 | once all workers have exited without a stop, every index was run once, completed equals total, and the local results together hold exactly the texts the runs found |
| WorkerPool.MainThreadDoesNotHang | plugin.cpp:205-223 | when all workers have exited, the waiting loop of the main thread can end |
| WorkerPool.StepsMakeProgress | plugin.cpp:173-201 | every step of a worker that has not exited decreases a shared potential |
| WorkerPool.EveryScheduleIsBounded | plugin.cpp:173-201 | so under every schedule there are at most 6 * total + 3 * threads such steps |
| WorkerPool.StopIsRequested | plugin.cpp:169-173 | a cancellation, or an emulator that does not come up, requests a stop |
| WorkerPool.StopIsObeyed | plugin.cpp:181-186 | after a stop, under every interleaving, a worker claims at most one more index, and only if it had looked at the flag before |
| WorkerPool.RunsFindWhatIsRecorded | plugin.cpp:188-199 | what is recorded for an index is what its run ended with |
| WorkerPool.Aggregate | plugin.cpp:225-228 | merging gives one entry per text that some partial result has, from the first that has it |
| WorkerPool.MergedTextsAreAllTexts | plugin.cpp:225-228 | the merged texts are the union over all workers |
| WorkerPool.AggregateAfterJoin | plugin.cpp:149-228 | after any interleaving without a stop, once all workers are gone, every index was run and the aggregate has exactly the texts of all runs, one entry each |

## Left out

- IDA and Unicorn themselves: decoding, execution of native instructions, how contexts are saved, error texts. What they
  do reaches the model as parameters and as the script of a run.
- The user interface, console, logging, wait box, results list and clocks; a time limit appears as elapsed time chosen
  by the script.
- At the start of a run: returning at once when the engine did not come up, overwriting registers, restoring the image
  and clearing the stack. That one run is independent of earlier ones is not claimed.
- Scanning stack slots and registers for strings (`dump_stack_strings`, `dump_register_strings`); the buffer scanner they
  call is modelled.
- `hash_string`: only the bucket index of a text, so the string list is a map keyed by text.
- Whole vector instructions through `read_operand` and `write_operand`, `movd`/`movq`, and the indirect-addressing
  arithmetic; only the lane kernels are modelled.
- `import_resolver.cpp` (from import addresses to names) and `register_mapper.hpp` (from IDA to Unicorn register numbers
  and sizes) are not part of this model.
- `memcmp`, `RtlZeroMemory`, `RtlFillMemory` and the zeroing flags of the Windows allocation stubs: variants of what is
  modelled.
- How a stub finds its arguments in registers and on the stack.
- Addresses are unbounded in the model of the hook, the stubs and the write tracker; where 64-bit sums could wrap and
  nothing else is said, the model does not cover the wrapped case.
- Classifier.Force: the instruction families that are skipped, emulated or plain are three constructors with a number
  instead of the long lists of types.
- EmulatorRun.Emulator.EmuStart: hook calls after a stop request inside a slice may still appear in a script, so the
  theorems cover more behaviours than the engine has.
- Explorer.Branch carries the address it came from, which the code does not keep; only statements use it.
- Stubs.Strcpy: destinations that overlap the text or are not mapped are computed by the same function, but the laws do
  not speak about them.
- LoopRuns.NoLoopIsCutShort: hook calls made with rip already at the fallthrough, which an engine that reports the
  address it is at does not make, are not counted as forced.
- WriteTracker.Tracker.RecordWrite: writes that reach the last page of the address space are excluded; the loop of the
  code does not end on them (WriteTracker.LoopEndsIff), or passes 2^64.
- HeapSpec.RunStaysClean: sequences with a call whose 64-bit sums wrap are excluded; HeapSpec.AllocStaysInsideIff says
  what such a call does.
- HeapSpec.HeapIsSafe: the same.
- FakeHeap.Heap.Init: a base of 0, or one so high that the arena passes 2^64, is excluded.
- FakeHeap.Heap.Calloc: totals whose 64-bit sums wrap are excluded; the code then builds a buffer of nearly 2^64 bytes.
- FakeHeap.Heap.Realloc: sizes whose 64-bit sums wrap are excluded.
- WorkerPool: memory orderings weaker than sequential consistency; the counters of transient-limit hits.
