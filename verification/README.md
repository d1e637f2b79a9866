# Verified model of libunwind's stack walkers and readers

libunwind finds the callers of a running procedure. This project models the parts of it where
many small steps must add up to one promise, and proves those promises for every input, run or
reachable state:

- **The aarch64 fast backtrace** (`Descriptor`, `TraceCache`, `CacheHash`, `FastTrace`,
  `TraceRefinement`, `OtherFrames`, `CacheIndependence`). DWARF
  rules are packed into a compact descriptor, descriptors are kept in an open-addressing hash
  table, and a backtrace walks the stack from them without running DWARF. The descriptor loses
  nothing the walk needs, the table refines a map, the walk records what stepping by the rules would,
  signal frames lead back to the interrupted machine, and it is said exactly when what the cache already holds can show.
- **The aarch64 prologue scanner** (`Prologue`, `PrologueRun`, `FrameScan`, `Fallback`). Two
  abstract interpreters read instruction words between the start of a procedure and ip. They are
  proved sound against a small machine (SP, x29, x30, memory), and the step that uses their
  answers is proved to arrive at the caller.
- **ARM EHABI** (`ExidxDecode`, `ExidxTable`, `ExidxStack`, `ExidxSearch`, `ExidxStep`,
  `Exceptions`). The unwind
  bytecode (section 9.3 of ARM IHI 0038), the search of the index table, the extraction of the
  bytecode, the whole step through all three to the caller, and the two-phase exception protocol with its heap snapshots.
- **IA-64 register-stack arithmetic** (`Rse`).
- **Byte-level readers** (`RemoteMemory`, `Leb128`, `EncodedPointer`, `MapsText`,
  `MapsGrammar`, `MapsReader`, `GnuHash`), with `Bits` for shifts and `|` on unbounded numbers and `Base128` for the groups of
  LEB128 numbers, which the EHABI decoder shares.

`Machine` holds the machine words, `Locations` target memory by the word and register locations.

Code that updates state is modelled as a class or a method with loops. Its contract equates the new
state with a function of the old one, and the lemmas say what that function means. Addresses and
registers wrap at 32 or 64 bits wherever the code's do.

Where the code does not do what its own comments or the format ask, the code is modelled as it is
and a lemma says exactly when it is right:

| place | what happens | lemma |
|---|---|---|
| `src/aarch64/Gstash_frame.c:57-93` | "the register is the CFA", the rule SP starts with, is stashed as a save at offset 0 (the walk does not read it), and `labs` lets -2^63 through | `Descriptor.PackLossless` |
| `src/aarch64/Gtrace.c:310-329` | a pc of 0 equals the key of an empty slot | `TraceCache.ZeroPcSoundIff` |
| `src/aarch64/Gtrace.c:510-516` | a frame that keeps LR is followed through `loc[X30]`, which only a cache miss moves, so the trace can depend on the cache | `CacheIndependence.PredictedIff`, `CacheIndependence.KeeperSameIff`, `CacheIndependence.MoverSameIff`, `CacheIndependence.IndependentIff` |
| `src/aarch64/Gtrace.c:498-527` | over a frame the prologue scan found through a record the fast step keeps x29 and takes SP for the CFA, where the fallback step takes both from the record | `OtherFrames.ScannedCfaIff` |
| `src/aarch64/Gstep.c:390-403` | the mask tells SUB from ADD, so SUB SP, SP, Xm is not seen | `PrologueRun.RegisterSubtractionUnseen`, `PrologueRun.AnswersOfSpTracker` |
| `src/aarch64/Gstep.c:445-466` | post-index stores and STNP of x29, x30 are given offset 0 | `PrologueRun.OffsetRightIff`, `PrologueRun.RecordMisplacedIff` |
| `src/aarch64/Gstep.c:260-262` | pushes and pops of x29, x30 are left out of the SP offset | `PrologueRun.FallbackCfaIsEntrySp` |
| `src/arm/Gex_tables.c:33` | opcode 0xc8 does not name D16 and up | `ExidxTable.VfpPopEffect` |
| `src/arm/Gex_tables.c:382-383` | a last operand byte of 0xb0 is taken for FINISH, so that none is appended and ip is never loaded | `ExidxStep.MissedFinishIff` |
| `src/arm/Gexcept.c:378-405` | `reserved4` is overwritten without a look at it | `Exceptions.Unwinder.SaveSnapshot` |
| `include/dwarf_i.h:404-407` | the signed LEB128 format goes through the unsigned reader | `EncodedPointer.SlebPointerIff` |

## Model

| member | source | states |
|---|---|---|
| Rse.SlotDeltaIsFloor | include/tdep-ia64/rse.h:58-65 | C's truncating division with the 0x3e correction for negative counts is a floor division by 63 |
| Rse.SkipIsRankShift | include/tdep-ia64/rse.h:53-65 | skipping n registers adds n to the register's rank among all register slots, across any wrap of the address |
| Rse.SkipAdds | include/tdep-ia64/rse.h:53-65 | skip(skip(a, m), n) = skip(a, m + n) for all signed m and n |
| Rse.SkipNeverRnat | include/tdep-ia64/rse.h:53-65 | a skip never lands on an RNAT slot |
| Rse.SkipZero | include/tdep-ia64/rse.h:53-65 | a skip of zero stands still, except that it steps over an RNAT slot |
| Rse.SkipUndo | include/tdep-ia64/rse.h:53-65 | skip(skip(a, n), -n) is a when a is a register slot, else the slot after it |
| Rse.NumRegsCounts | include/tdep-ia64/rse.h:40-51 | for aligned a <= b, num_regs is exactly the number of non-RNAT slots in [a, b) |
| Rse.NumRegsAdds | include/tdep-ia64/rse.h:40-51 | num_regs is additive over adjacent ranges |
| Rse.NumRegsUndoesSkip | include/tdep-ia64/rse.h:40-65 | num_regs(a, skip(a, n)) = n for every n >= 0, wrap-around included |
| Rse.NumRegsUndoesNegativeSkip | include/tdep-ia64/rse.h:40-65 | num_regs(skip(a, n), a) = -n for every n < 0, wrap-around included |
| Rse.RnatAddrIsNextRnat | include/tdep-ia64/rse.h:15-38 | rnat_addr is an RNAT slot and no slot from the given one up to it is |
| Descriptor.PackLossless | src/aarch64/Gstash_frame.c:30-98 | of a standard frame the descriptor gives back the base always, the CFA offset if and only if it is not -2^63, and the place of FP, of LR and of SP each if and only if its rule is not "the CFA itself" and its offset not -2^63; every field fits 30 bits |
| Descriptor.OrdinaryFrameLossless | src/aarch64/Gstash_frame.c:30-98 | with the default SP rule all the walk needs comes back: base, CFA offset, FP and LR |
| Descriptor.RegisterLossless | src/aarch64/Gstash_frame.c:53-91 | one register rule survives packing under the same condition, so no saved offset meets the -1 of "not saved" |
| Descriptor.UnusualFrameKeepsDescriptor | src/aarch64/Gstash_frame.c:30-58 | the descriptor changes exactly when the rules are standard |
| Descriptor.StandardIff | src/aarch64/Gstash_frame.c:30-58 | and that is if and only if the CFA is off x29 or SP, the return address in x30, each offset below 2^29 either way (or -2^63) and no register saved at -1 or by another rule |
| Descriptor.Cursor.StashFrame | src/aarch64/Gstash_frame.c:30-98 | assigns the descriptor fields as packing says, and only for a frame not classified before |
| Descriptor.Cursor.InitAddr | src/aarch64/Gtrace.c:216-285 | the descriptor of a pc: what one step stashed, or the unknown frame if the step failed, with the last-frame mark if it returned 0 |
| TraceCache.LookupKeepsInv | src/aarch64/Gtrace.c:292-351 | every lookup of a nonzero pc keeps keys distinct, each within 16 probes of its hash with no empty slot before it, `used` exact and at most half; the answer describes the pc; no answer means no memory and no change |
| TraceCache.LookupRefinesMap | src/aarch64/Gtrace.c:292-351 | the table behaves as a map: a present key changes nothing, an absent one is added, growth forgets all others, and growth happens exactly when the probes or half the slots are used up |
| TraceCache.LookupHit | src/aarch64/Gtrace.c:305-329 | a key that is present is answered from its slot and nothing changes |
| TraceCache.DecideByContents | src/aarch64/Gtrace.c:306-345 | which branch a lookup takes, told by the map's contents alone, both directions |
| TraceCache.ReachableInv | src/aarch64/Gtrace.c:292-351 | the invariant holds after any sequence of lookups, whatever allocations fail, and the table never shrinks |
| TraceCache.FilledSlotStays | src/aarch64/Gtrace.c:292-351 | until the table grows, a filled slot keeps its descriptor and answers its pc |
| TraceCache.ZeroPcSoundIff | src/aarch64/Gtrace.c:310-350 | in any well-formed table with blank empty slots a lookup of pc 0 is right if and only if the blank frame describes it, or, where all 16 probes are taken, the table cannot grow |
| TraceCache.ReachableBlank | src/aarch64/Gtrace.c:88-99 | in every table reached with nonzero pcs the slots without a key are blank |
| TraceCache.Cache.NewBuckets | src/aarch64/Gtrace.c:88-99 | all buckets empty, or null without memory |
| TraceCache.Cache.Expand | src/aarch64/Gtrace.c:142-160 | four times the buckets, all empty, or no change at all |
| TraceCache.Cache.FindSlot | src/aarch64/Gtrace.c:305-329 | the probing loop stops at the first slot that is empty or holds the pc, or runs out of probes over other keys |
| TraceCache.Cache.LookupSlot | src/aarch64/Gtrace.c:292-351 | the cache afterwards, the slot answered and what `loc[X30]` then gives are those of the lookup function |
| TraceCache.Cache.FrameAt | src/aarch64/Gtrace.c:292-351 | the descriptor answered, the cache and `loc[X30]`; on a well-formed cache the descriptor of a nonzero pc, or none with the cache unchanged |
| CacheHash.HomeNamed | src/aarch64/Gtrace.c:305-308 | the first slot tried is the hash product's bits from 43 up modulo the table's size |
| FastTrace.TraceFrame | src/aarch64/Gtrace.c:488-574 | one frame: the registers after it, or why the walk ends, for each frame type; what they mean is in TraceRefinement for standard frames and in OtherFrames for the rest |
| FastTrace.TraceLoop | src/aarch64/Gtrace.c:456-583 | buffer, depth, status and table are those of the walk on the table, and nothing beyond the depth is touched |
| FastTrace.Trace | src/aarch64/Gtrace.c:417-583 | for any cache, well formed or not, buffer, size, status and cache afterwards are exactly those of the walk on its table; the error returns |
| FastTrace.IterateFollows | src/aarch64/Gtrace.c:456-583 | from a well-formed table the walk keeps it well formed and gives the addresses of the walk by descriptors: all of them, a prefix where the cache cannot grow, and at least those before a link register that the cache decides |
| TraceRefinement.StepsCorrespond | src/aarch64/Gtrace.c:498-532 | one fast step and one slow step from corresponding states end in corresponding states, for every SP rule |
| TraceRefinement.StopsTogether | src/aarch64/Gtrace.c:488-574 | where the slow step ends the walk, the fast step does too: with an error if the slow step failed, without one at the end of the stack |
| TraceRefinement.StopsForFpIff | src/aarch64/Gtrace.c:524-525 | where the slow step goes on, the fast step fails if and only if the slot its descriptor names for FP cannot be read |
| TraceRefinement.FastRefinesSlow | src/aarch64/Gtrace.c:456-582 | over any number of frames, whatever their SP rules, the fast walk records the return addresses of the slow walk, cut at the first below 0x4000, at depth or at the last frame, and ends with an error exactly where a slow step fails |
| TraceRefinement.TraceIsSlowWalk | src/aarch64/Gtrace.c:417-583 | the same for a whole trace from the initial machine context and any well-formed cache; a prefix where the cache cannot grow |
| TraceRefinement.UsualFrameUnwinds | src/dwarf/Gparser.c:830-975 | stepping by rules over a procedure that pushed x29 and x30 in n bytes gives SP + n and the pushed x29 and return address, for every n |
| TraceRefinement.UsualFrameTraced | src/aarch64/Gtrace.c:498-532 | the fast step over its descriptor gives the same, for every n the descriptor holds |
| TraceRefinement.StepMoves | src/aarch64/Gstep.c:885-905 | a slow step that goes on changes ip or CFA; it ends the walk exactly with a return address of 0, and the chain exactly with an x29 of 0 |
| TraceRefinement.LinkIsLeft | src/aarch64/Gtrace.c:216-285 | what a step on a cache miss leaves in `loc[X30]` is what stepping by the rules leaves there |
| OtherFrames.SignalFrameIsUndone | src/aarch64/Gtrace.c:533-562 | over a signal frame whose context holds fault address, x0 to x30, sp and pc as consecutive words, one step gives exactly that pc, x29, sp and x30, with CFA = sp, and the next lookup is at the pc itself |
| OtherFrames.InterruptedLeafReturns | src/aarch64/Gtrace.c:507-522 | a frame after it that keeps LR returns to the interrupted x30, wherever `loc[X30]` is |
| OtherFrames.WalkThroughSignal | src/aarch64/Gtrace.c:456-582 | a walk that comes to a signal frame records the interrupted pc and goes on as a walk from the interrupted machine |
| OtherFrames.ScannedCfaIff | src/aarch64/Gstep.c:949-1038 | the fast step over a frame the scan found keeps x29 and takes SP or x29, moved by the offset, for the CFA; this is the fallback step's CFA if and only if SP was moved and no record stored, or the values happen to be equal |
| CacheIndependence.PredictedSameTrace | src/aarch64/Gtrace.c:417-583 | for each walk: if its frames decide it, any two well-formed caches give the same trace of it |
| CacheIndependence.PredictedIff | src/aarch64/Gtrace.c:510-516 | its frames decide a walk if and only if each one that looks for its return address in `loc[X30]`, with none left by a signal frame, keeps that location and so do all frames before it |
| CacheIndependence.KeeperSameIff | src/aarch64/Gtrace.c:510-516 | for every stack that goes from a frame that saves LR to one that keeps it: the caches of the second frame alone and of both give the same two frames if and only if the saved LR and the link register at the start lead the same way: equal, both too low for a pc, or past an FP slot that cannot be read |
| CacheIndependence.KeeperDepends | src/aarch64/Gtrace.c:510-516 | every two such frames meet on a stack, from a nonzero x29, where the two caches give two traces, and each frame stepped answers what the step by its rules does |
| CacheIndependence.ExampleExists | src/aarch64/Gtrace.c:510-516 | a usual procedure and a leaf at its first instruction are two such frames, in a program that IndependentIff speaks of |
| CacheIndependence.MoverIsScan | src/aarch64/Gstep.c:1012-1019 | a frame that moves `loc[X30]` and is followed through it was found by the prologue scan: no rules do both |
| CacheIndependence.MoverSameIff | src/aarch64/Gtrace.c:510-516 | for every stack: a miss and a hit at such a frame give the same first frame if and only if what its step leaves in `loc[X30]` leads where the link register at the start does |
| CacheIndependence.MoverDepends | src/aarch64/Gstep.c:978-1024 | each such frame has a stack, from a nonzero x29, on which a miss and a hit give two traces, its step being the fallback's, which leaves `loc[X30]` in the record found or, without one, sets it to null |
| CacheIndependence.SettledIndependent | src/aarch64/Gtrace.c:417-583 | where at no address, visited or not, a frame is followed through `loc[X30]`, but for ones that keep LR and are too low to be returned to, any two well-formed caches give one trace of every stack, whatever the steps answer; ordinary programs, whose procedures keep LR at their first instruction, do not meet this, and for their walks there is CacheIndependence.PredictedIff |
| CacheIndependence.IndependentIff | src/aarch64/Gtrace.c:417-583 | for a whole program of which some frame saves LR: all traces whose steps answer as the code's do are independent of the cache if and only if that condition on all addresses holds |
| Prologue.TrackersSee | src/aarch64/Gstep.c:180-533 | each instruction's encoding, of all eight forms of pairs and both register forms too, has the effect on both trackers that its fields say, with its immediate's sign and scale |
| PrologueRun.BodyIsHarmless | src/aarch64/Gstep.c:409-420 | the body of the usual procedure does count as such instructions |
| PrologueRun.MovesAreNotHarmless | src/aarch64/Gstep.c:159-178 | no word that moves SP or sets x29 by a modelled form counts as an instruction that touches nothing |
| PrologueRun.SigningIsNotHarmless | src/aarch64/Gstep.c:159-178 | no word that signs, authenticates or strips x30 in place counts as one either |
| PrologueRun.SpTrackerSound | src/aarch64/Gstep.c:180-404 | over every run: unless lost, SP = entry SP - offset + the moves the tracker does not see; offset > 0 exactly when adjusted |
| PrologueRun.AnswersOfSpTracker | src/aarch64/Gstep.c:159-404 | over every run of the scanned words the answer (UNCHANGED is entry SP, ADJUSTED is entry SP - offset) is right if and only if it is UNKNOWN or the unseen moves cancel modulo 2^64 |
| PrologueRun.UnknownAbsorbs | src/aarch64/Gstep.c:182-183 | once lost, the stack pointer stays lost |
| PrologueRun.FallbackCfaIsEntrySp | src/aarch64/Gstep.c:1018-1038 | adding the offset back gives the entry SP if and only if the unseen moves cancel |
| PrologueRun.RegisterSubtractionUnseen | src/aarch64/Gstep.c:390-403 | after SUB SP, SP, Xm alone the answer is UNCHANGED, which is right if and only if Xm holds 0 |
| PrologueRun.LoweringIsKnown | src/aarch64/Gstep.c:180-404 | nothing is lost without need: after one SUB or push of n bytes among instructions that leave SP alone the answer is ADJUSTED by n, through calls and branches too |
| PrologueRun.RaisingIsKnown | src/aarch64/Gstep.c:180-404 | an ADD or pop then gives UNCHANGED if it is by as much, and UNKNOWN otherwise |
| PrologueRun.EarlyBranchLoses | src/aarch64/Gstep.c:184-189 | a branch before SP has moved makes the answer UNKNOWN for good |
| PrologueRun.UsualWords | src/aarch64/Gstep.c:191-403 | the words of the usual prologue and epilogue are encodings of the instructions meant |
| PrologueRun.StackWords | src/aarch64/Gstep.c:191-403 | the same of ADD SP, pushes and pops of one register and SUB by a register |
| PrologueRun.BranchWords | src/aarch64/Gstep.c:185-191 | and of calls, jumps, returns and conditional branches |
| PrologueRun.UsualImmediates | src/aarch64/Gstep.c:191-390 | the immediates of those words are the numbers meant, sign and shift included |
| PrologueRun.MovesAreTheMachines | src/aarch64/Gstep.c:180-404 | by n bytes means that the machine's SP goes down or up by n |
| PrologueRun.ConformingHolds | src/aarch64/Gstep.c:406-420 | over every run that keeps the STP, ADD x29, LDP convention the caller's x29 and return address are where the executed instructions put them: in the registers, in the stored record, in the record x29 points to |
| PrologueRun.TrackerFollowsPhase | src/aarch64/Gstep.c:422-533 | over every run, conforming or not, the tracked location is the phase the executed instructions have reached |
| PrologueRun.OffsetRightIff | src/aarch64/Gstep.c:445-470 | while the record is stored, SP + the tracked offset is its address if and only if the store is pre-index or signed-offset, or its immediate is 0 |
| PrologueRun.OffsetKnownIff | src/aarch64/Gstep.c:453-463 | the same condition read off the encoded word |
| PrologueRun.RecordMisplacedIff | src/aarch64/Gstep.c:445-470 | after one store on empty memory the record is at SP + offset if and only if that condition holds |
| PrologueRun.RecordTrackerSound | src/aarch64/Gstep.c:422-533 | so over every conforming run whose store meets it the answer is true of the machine |
| PrologueRun.AnswersOfRecordTracker | src/aarch64/Gstep.c:406-533 | the same of the answer scanned from the words |
| PrologueRun.UsualRecordConforms | src/aarch64/Gstep.c:409-420 | the usual STP, MOV, LDP sequence keeps the convention, passes through all three phases, and its unseen moves cancel |
| FrameScan.ScanIsExact | src/aarch64/Gstep.c:565-587 | the scan feeds every instruction in [start, ip) and none at or after ip |
| FrameScan.UnreadableGivesNoOffset | src/aarch64/Gstep.c:565-590 | a procedure that cannot be read up to ip gives no SP offset, only a record found before |
| FrameScan.Tracker.TrackStackPointer | src/aarch64/Gstep.c:180-404 | state and offset are updated in place as the tracking function says |
| FrameScan.Tracker.TrackFrameRecord | src/aarch64/Gstep.c:422-533 | location and offset are updated in place as the tracking function says |
| FrameScan.GetFrameState | src/aarch64/Gstep.c:538-596 | both trackers fed each instruction once, in order; the SP offset only without a record; no record for a PLT entry or an unknown procedure; an unreadable word, or an address that wraps, ends the scan |
| Fallback.Cursor.FallBack | src/aarch64/Gstep.c:929-1044 | the cursor after the fallback: locations, ip, CFA and frame description, and the return value, errors included |
| Fallback.RecordLeadsToCaller | src/aarch64/Gstep.c:950-1006 | through a record the step reads the caller's x29 and pc |
| Fallback.LastFpServes | src/aarch64/Gstep.c:953-976 | where x29 cannot be read, the record is found where x29 was before DWARF was tried |
| Fallback.FinishedIff | src/aarch64/Gstep.c:953-1041 | the fallback ends the chain exactly at an x29 of 0 that should point to a record, or a link register that is 0 or has no place |
| Fallback.FallbackFindsCaller | src/aarch64/Gstep.c:538-1041 | scan and step together undo every run that keeps the convention: ip and x29 are the caller's; without a record and with SP not lost the CFA is the entry SP if and only if the unseen moves cancel |
| ExidxDecode.DwarfCursor.ReadUleb | src/arm/Gex_tables.c:226-234 | the loop's value and length of a ULEB128 operand |
| ExidxDecode.DwarfCursor.ApplyCmd | src/arm/Gex_tables.c:81-147 | one command changes locations, CFA and ip as the command function says, or nothing at all on an error |
| ExidxDecode.DwarfCursor.Decode | src/arm/Gex_tables.c:154-283 | the decoding loop has the effect of executing the commands in the bytes, to the first FINISH or error |
| ExidxTable.DecodesInstruction | src/arm/Gex_tables.c:164-272 | every instruction of the EHABI table, encoded anywhere in a string, is decoded to its command and its length |
| ExidxTable.DecodeRunsInstructions | src/arm/Gex_tables.c:154-283 | a string of encoded instructions ending in FINISH has the effect of their commands in order |
| ExidxTable.EveryOpcodeIsInTable | src/arm/Gex_tables.c:164-272 | every byte string the decoder reads is the encoding of an instruction of the table with that command |
| ExidxTable.MaskMeansTable | src/arm/Gex_tables.c:177-223 | the register mask names exactly the registers the table says are popped |
| ExidxTable.CorePopEffect | src/arm/Gex_tables.c:103-114 | a pop records each register in the word of its rank and moves the CFA past them, or loads r13 |
| ExidxTable.VfpPopEffect | src/arm/Gex_tables.c:121-130 | a VFP pop records its doubles in order and moves the CFA; for 0xc8 the registers recorded are 16 below those it should name |
| ExidxTable.OtherEffects | src/arm/Gex_tables.c:86-145 | what each remaining instruction does to CFA, locations and ip |
| ExidxTable.FinishEffect | src/arm/Gex_tables.c:88-94 | FINISH: r15 shares r14's place if it has none, ip is the word found there if it can be read, and nothing else changes |
| ExidxStack.RunFinishesUnwound | src/arm/Gex_tables.c:86-94 | a run ends well if and only if every instruction applies, in the state FINISH makes of the unwound one (see ExidxTable.FinishEffect) |
| ExidxStack.CfaMovesByTotalSize | src/arm/Gex_tables.c:81-147 | without vsp = r[n] and a pop of r13 the CFA moves by the sum of the instructions' sizes |
| ExidxStack.RecordedSlotsAreDisjoint | src/arm/Gex_tables.c:81-147 | without a push every recorded slot lies between first and last CFA and slots of different registers do not overlap |
| ExidxSearch.Prel31RoundTrip | src/arm/Gex_tables.c:57-75 | a 31-bit place-relative word gives back its target |
| ExidxSearch.CoverIsUnique | src/arm/Gex_tables.c:389-440 | in a sorted table at most one entry covers an ip |
| ExidxSearch.Search | src/arm/Gex_tables.c:389-447 | on a readable sorted table the entry that covers ip, with start <= ip <= end, the start being the target of the entry's own word and the end just before that of the next, and no information exactly when ip precedes the first entry |
| ExidxSearch.Personality | src/arm/Gex_tables.c:449-486 | personality routine and LSDA: the table entry the index names and the routine its first word names, for entries of the generic model only |
| ExidxSearch.PersonalityIsFound | src/arm/Gex_tables.c:465-482 | in the generic layout it is the routine and the table entry that were stored |
| ExidxSearch.CantUnwindIff | src/arm/Gex_tables.c:309-313 | an entry is marked as not to be unwound exactly by a second word of 1, and then names no routine |
| ExidxSearch.ExtractInto | src/arm/Gex_tables.c:292-386 | the buffer holds the entry's opcode bytes, or the error |
| ExidxSearch.ExtractedEndsInFinish | src/arm/Gex_tables.c:292-386 | what is extracted fits 24 bytes and ends in FINISH |
| ExidxSearch.InlineRoundTrip | src/arm/Gex_tables.c:314-321 | three opcode bytes stored in the index table are extracted whole, with 0xb0 after them unless they end in it |
| ExidxSearch.CompactRoundTrip | src/arm/Gex_tables.c:332-384 | the same of two bytes and up to five words stored under personality 1 or 2, and no routine is named |
| ExidxSearch.GenericRoundTrip | src/arm/Gex_tables.c:350-384 | the same of three bytes and up to five words stored after a personality routine's address, and the table entry is the LSDA |
| ExidxSearch.ShortRoundTrip | src/arm/Gex_tables.c:332-349 | the same of three bytes in an exception-table word of another personality |
| ExidxStep.RunReturns | src/arm/Gex_tables.c:88-94 | a run that leaves r15, or else r14, in a readable slot returns to the word in that slot, with CFA and all other locations where the instructions put them |
| ExidxStep.ReturnIsPopped | src/arm/Gex_tables.c:154-283 | decoding any string of instructions and FINISH ends with ip the word in the slot of the last pop of r15 or else r14: as many words above the stack pointer of that instruction as it pops registers below |
| ExidxStep.ExtractedRuns | src/arm/Gex_tables.c:292-386 | instructions stored with any padding in any of the four layouts, extracted and decoded, run in order up to FINISH, but for a last operand byte of 0xb0 |
| ExidxStep.MissedFinishIff | src/arm/Gex_tables.c:382-383 | FINISH is missed if and only if the last byte stored is an operand of 0xb0 and r15 or r14 had a word to load that is not ip already |
| ExidxStep.OperandExample | src/arm/Gex_tables.c:382-383 | vsp += 8; pop {r8, r9, r11, lr} is such a string |
| ExidxStep.StepFindsCaller | src/arm/Gstep.c:36-97 | the whole step from an entry's words: ip is the word popped into r15 or else r14, CFA and registers are where the instructions leave them, 0 ends the stack, and an unchanged ip and CFA are a bad frame |
| ExidxStep.LooksBefore | src/arm/Gstep.c:49-52 | an ARM and a Thumb return address both look up the byte before the instruction they return to |
| ExidxStep.Step | src/arm/Gstep.c:36-97 | search, extraction and decoding in place: the step by the entry that covers the address looked up, or no information before the first |
| Exceptions.PadsInOrder | src/arm/Gexcept.c:419-587 | if the personalities cooperate, the landing pads of phase 2 and its resumes are the cleanups below the handler innermost first, then the handler, and none beyond |
| Exceptions.AskedInOrder | src/arm/Gexcept.c:419-587 | the personalities asked are exactly those up to the handler, once each, in order |
| Exceptions.HandlerReachedIff | src/arm/Gexcept.c:419-587 | the handler's pad is installed if and only if every personality on the way cooperates |
| Exceptions.SearchIff | src/arm/Gexcept.c:496-529 | phase 1 finds frame h if and only if h is the first frame with a personality that does not answer to continue and it answers that it has a handler; it finds none if and only if all continue and the stack ends cleanly; it fails in the other cases |
| Exceptions.NextPadIff | src/arm/Gexcept.c:427-473 | phase 2 installs frame j if and only if j is the first that does not answer to continue and it answers to install; it aborts in the other cases |
| Exceptions.AskedUntilDecided | src/arm/Gexcept.c:427-473 | it asks exactly the frames with a personality up to that one |
| Exceptions.AskedBetweenMembers | src/arm/Gexcept.c:427-473 | the asked frames listed are those with a personality, in strictly ascending order |
| Exceptions.CleanupsBetweenMembers | src/arm/Gexcept.c:427-473 | the cleanups listed are those frames with a pad, in strictly ascending order |
| Exceptions.Unwinder.SaveSnapshot | src/arm/Gexcept.c:378-405 | the snapshot is one frame further and points only into itself; afterwards exactly one is live if and only if none was before; without memory or a caller nothing changes |
| Exceptions.Unwinder.Phase2 | src/arm/Gexcept.c:419-473 | where control goes next, whom it asked and whether a snapshot waits, from any frame |
| Exceptions.Unwinder.Phase1 | src/arm/Gexcept.c:496-529 | the frame of the first handler, or how the search fails, as Exceptions.SearchIff says |
| Exceptions.Unwinder.RaiseException | src/arm/Gexcept.c:480-546 | searches, sets the barrier to the handler's CFA, and starts phase 2 with no snapshot left live on failure |
| Exceptions.Unwinder.Resume | src/arm/Gexcept.c:557-587 | takes the snapshot, frees it once, and goes on from its frame; aborts without one |
| Exceptions.Unwinder.ResumeOrRethrow | src/arm/Gexcept.c:597-607 | goes on with an unwind in progress, otherwise raises anew |
| Exceptions.Unwinder.Throw | src/arm/Gexcept.c:480-587 | one raise and a resume after each cleanup, told by the frame that decides the search: no snapshot is left; without a handler nothing is installed and the outcome is end of stack or failure; with one, pads and personalities are a prefix of the plan, and with memory and cooperating personalities all cleanups below the handler and then the handler itself are installed |
| RemoteMemory.Reader.ReadU8 | include/dwarf_i.h:136-152 | the addressed byte, through one aligned word in the host's byte order |
| RemoteMemory.ByteOfWord | include/dwarf_i.h:139-150 | shifting a host word of either byte order finds the byte at any offset |
| RemoteMemory.ReadInHalves | include/dwarf_i.h:155-206 | two halves read in turn and or-ed make the number of twice the width, in either target byte order, at any alignment |
| RemoteMemory.OrderOfFour | include/dwarf_i.h:155-188 | of four bytes the first counts highest for a big-endian target and lowest for a little-endian one |
| RemoteMemory.Reader.ReadU16 | include/dwarf_i.h:155-170 | the number of the two addressed bytes in target order, and how far the address moved, errors included |
| RemoteMemory.Reader.ReadU32 | include/dwarf_i.h:173-188 | the same for four bytes |
| RemoteMemory.Reader.ReadU64 | include/dwarf_i.h:191-206 | the same for eight bytes |
| RemoteMemory.Reader.ReadW | include/dwarf_i.h:263-289 | the same for as many bytes as an address has |
| Leb128.ReadUleb | include/dwarf_i.h:295-314 | the value modulo 2^64 of the groups up to the first byte without a continuation bit, and the address after it |
| Leb128.ReadSleb | include/dwarf_i.h:320-343 | the same with the sign extended |
| Leb128.ExtendSign | include/dwarf_i.h:337-339 | or-ing ones above the shift is two's complement of the payload's own width, also when it is wider than a word |
| Leb128.UlebRoundTrip | include/dwarf_i.h:295-314 | for every n < 2^64 the minimal encoding reads back as n and the address moves by its length |
| Leb128.SlebRoundTrip | include/dwarf_i.h:320-343 | for every n in [-2^63, 2^63) the minimal encoding reads back as n and the address moves by its length |
| Base128.PayloadCons | include/dwarf_i.h:302-310 | taking groups lowest first is the same as reading base 128 from the front |
| Leb128.UlebIsShortest | include/dwarf_i.h:291-293 | no sequence with the same payload is shorter than the encoding |
| Leb128.SlebLength | include/dwarf_i.h:316-318 | an encoding has at most k bytes if and only if the number fits k groups with its sign |
| EncodedPointer.ReadEncodedPointer | include/dwarf_i.h:346-488 | the pointer and the address after it for every encoding byte: omitted, aligned, each format and application, indirection and the errors |
| EncodedPointer.RawRoundTrip | include/dwarf_i.h:374-431 | every format but signed LEB128 gives back the displacement it was given, at any alignment and in either byte order |
| EncodedPointer.PointerRoundTrip | include/dwarf_i.h:374-488 | a nonzero displacement d stored in any format but signed LEB128 gives d itself under 0x00, its own address + d under 0x10, gp + d under 0x30 and start + d under 0x40, wrapped to the target's addresses; 0 gives no pointer |
| EncodedPointer.IndirectRoundTrip | include/dwarf_i.h:474-482 | with bit 7 it is the address-sized number stored at that target |
| EncodedPointer.OmittedAndAligned | include/dwarf_i.h:362-373 | 0xff is no pointer and reads nothing; 0x50 is the number at the first multiple of the address size |
| EncodedPointer.SlebPointerIff | include/dwarf_i.h:404-407 | a nonzero signed LEB128 displacement gives its pointer if and only if it is positive, below -2^62, or below -2^27 for four-byte addresses |
| MapsText.ScanHex | src/os-linux.h:109-136 | blanks, then the longest run of hexadecimal digits modulo 2^64; failure without a digit |
| MapsText.ScanDec | src/os-linux.h:139-163 | the same in decimal |
| MapsText.ScanString | src/os-linux.h:182-199 | blanks, then a word, cut to the buffer; failure only on an empty word |
| MapsText.ScanLine | src/os-linux.h:262-293 | the entry of a line, or none if it is not well formed |
| MapsText.PlaceRoundTrip | src/os-linux.h:267-271 | offset and separator of a printed line read back, the path left over |
| MapsText.LineRoundTrip | src/os-linux.h:262-293 | parsing the printed form of any entry gives the entry back, for any field widths, gaps, device and inode |
| MapsGrammar.EntryIff | src/os-linux.h:262-293 | a line has an entry if and only if it can be cut into low, "-", high, permissions, offset, major, ":", minor, inode and path with blanks between; the entry's parts are those |
| MapsGrammar.DigitsNamed | src/os-linux.h:117-128 | the digits are 0-9, a-f and A-F with their usual values, and no others |
| MapsText.Ltoa | src/os-linux.h:41-63 | the decimal digits, most significant first, reversed in place, with the rest of the buffer unchanged |
| MapsText.WrittenScansBack | src/os-linux.h:41-163 | scan_dec of unw_ltoa(n) is n for every n < 2^64 |
| MapsReader.MapIterator.Refill | src/os-linux.h:228-257 | after moving and reading, what is pending is unchanged and the whole first line is in the buffer; nothing was pending at the end of the file |
| MapsReader.MapIterator.Next | src/os-linux.h:202-297 | the entry of the first well-formed line still pending, with what follows it pending, or 0 when there is none |
| MapsReader.ReadAll | src/os-linux.h:202-297 | up to the first 0 the entries of the well-formed lines of the file, once each, in order, however the reads are cut |
| MapsReader.ChunkHasNewline | src/os-linux.h:235-256 | a permitted read always completes the line begun in the buffer |
| MapsReader.FileRoundTrip | src/os-linux.h:202-297 | a file that prints entries line by line reads back as those entries |
| MapsReader.EntriesOfLines | src/os-linux.h:202-297 | of any lines the entries are those of the well-formed ones in order; the others are passed over |
| GnuHash.CountGnu | src/elfxx_i.h:45-76 | an error exactly when nonempty buckets go down or end below the symbol offset; otherwise one more than the largest symbol any chain leads to, 0 if there is none |
| GnuHash.AssembledCount | src/elfxx_i.h:45-76 | the count of a table put together from bucket count, symbol offset, Bloom filter (of either word size), buckets and chains is told by those parts alone |
| GnuHash.AssembledRejected | src/elfxx_i.h:57-67 | such a table is rejected if and only if a nonempty bucket is below an earlier one or the last nonempty one is below the symbol offset |
| GnuHash.EndOfLastChain | src/elfxx_i.h:54-73 | with nondecreasing buckets the chain of the last one ends at the largest symbol of all |
| GnuHash.FollowChain | src/elfxx_i.h:69-72 | the chain loop ends just past the first terminator |
| GnuHash.DynamicSymtabCount | src/elfxx_i.h:31-79 | the System V count is preferred, and the error is returned exactly without a table or for a rejected one |

## Left out

- Locks, signal masks, thread-local teardown and `pthread_once` in `src/aarch64/Gtrace.c`: each cache belongs to one thread; one cache with allocation that may fail is modelled.
- Pointer-authentication stripping: treated as the identity.
- The DWARF CFI interpreter, its register-state cache and location expressions: a rule table per pc stands for them, so `Expr`, `ValExpr` and other-register rules count as not modelled locations.
- `unw_step` for signal frames: the fast walk models them, but the refinement leaves them and guessed frames out, because they depend on memory and not on the pc alone.
- TraceRefinement.FastRefinesSlow: assumes that the pc decides each step's rules and outcome (the code's end-of-stack test also looks at x29), that no offset is -2^63, that LR is only kept while `loc[X30]` has not moved (see CacheIndependence.PredictedIff), and that the slot named for x29 can be read (see TraceRefinement.StopsForFpIff).
- CacheIndependence.IndependentIff: no procedure that keeps LR is at the last byte of the address space, which only a signal frame could return to; a return address without a place ends the stack (`src/dwarf/Gparser.c:946-949`), and a base other than SP comes with no positive offset from the scan (`src/aarch64/Gstep.c:1013-1014`). Frames found by DWARF rules or by the scan answer as those do; failed steps and signal frames answer as given.
- CacheIndependence.MoverDepends: the scan may find any record or offset that the descriptor shows, whatever instructions lead to it.
- FastTrace.Trace: a load from unmapped memory ends the walk, which is what the validating build does; the other build would fault.
- TraceCache.LookupKeepsInv: requires a nonzero pc, see TraceCache.ZeroPcSoundIff.
- PrologueRun.ConformingHolds: the machine's memory is word-granular, so overlapping unaligned stores are not represented; SP is kept aligned by the architecture.
- PrologueRun.SpTrackerSound: a word that matches no mask is in the instruction set when the architecture surely has it write neither SP, x29 nor x30, or when it is one of the modelled forms; the remaining words (single loads with pre-index, single stores with post-index, flag-setting and tagged forms, atomics, SVE, writes of system registers, system calls, and the signing, authentication and stripping of x30) are not.
- PrologueRun.RecordTrackerSound: requires a store the tracker knows; PrologueRun.OffsetRightIff says what happens with the others.
- FrameScan.GetFrameState: where the scanning address can wrap, the first eight bytes of the address space cannot be read; the PLT test and the procedure's name are inputs.
- Fallback.Cursor.FallBack: starts after `dwarf_step` has found no information, in a local address space; address 0 counts as unreadable.
- Fallback.FallbackFindsCaller: a frame record at address 0 is left out, because there the code reports the end of the chain, and a stored record must be one the tracker knows.
- ExidxDecode.DwarfCursor.Decode: byte strings that end inside an instruction are left out, because the code reads past the buffer; a ULEB128 operand's groups beyond 32 bits count as shifted out.
- ExidxTable.EveryOpcodeIsInTable: a ULEB128 operand of more than five bytes is left out.
- ExidxTable.VfpPopEffect: opcode 0xc8 is stated as the code has it, with the registers it should name beside.
- ExidxSearch.ExtractInto: a word count above 5 is left out, where the code's own assertion fails.
- ExidxSearch.Search: the table's length is a multiple of an entry's and it does not wrap the address space.
- Exceptions.Unwinder.RaiseException: `reserved4` is zero on entry, because the code does not clear it; `_Unwind_InitContext` does not fail; `pr_cache` and r12 are not modelled.
- Exceptions.PadsInOrder: frames have strictly increasing CFAs and each personality's answer is a function of its frame.
- `_Unwind_ForcedUnwind`, `_Unwind_Backtrace` and the accessors of `src/arm/Gexcept.c`: no state of their own.
- Leb128.ReadUleb: the last byte of the address space cannot be read, so the address does not wrap; groups beyond 64 bits count as shifted out, which C leaves undefined.
- EncodedPointer.PointerRoundTrip: the text-relative application, which the code refuses, has no round trip; it is in EncodedPointer.ReadEncodedPointer.
- ExidxStep.Step: the index table is readable and sorted, its entries' words and instructions do not run over their ends, and there is no dynamic unwind information.
- OtherFrames.ScannedCfaIff: the offset fits the descriptor's field; the scan takes offsets from 12-, 9- and 7-bit immediates, which do.
- The direct readers of `include/dwarf_i.h:46-131`: plain loads.
- MapsText.Ltoa: negative numbers are left out; the code would write characters that are not digits.
- MapsText.ScanLine: permission characters beyond the word read count as NUL, where the code may look at stale bytes of its buffer.
- MapsReader.ReadAll: every line fits the buffer with its newline, no character is NUL, and a read fills its request or brings a newline; a failing read is not modelled, and no claim is made after the first 0, when the buffer is stale.
- `maps_init` and `maps_close`: system calls.
- GnuHash.CountGnu: the table holds its buckets and a terminator for its last chain, as the code relies on.
- ELF images, debug links, LZMA, operating system back ends and resume paths: file and system calls or machine state outside the model.
- `src/arm/Gstash_frame.c` and `src/arm/Gtrace.c`: the aarch64 versions stand for the design.
