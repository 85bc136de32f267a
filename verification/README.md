# tux64 verification

A Dafny model of the algorithmic core of tux64, a Linux bootloader and ROM toolchain for the
Nintendo 64, with proofs about it. `dafny verify dfyconfig.toml` checks the whole project.

What is modelled, and where:

- **Memory allocation and boot-file placement.** `Arithmetic`, `ArenaAllocator` and `BootPlan`
  model the push-only best-fit allocator of stage 1, its two heaps, and the plan that places the
  kernel, the initramfs and the command line. The block table may have any capacity, the address
  space any bounds.
- **The boot protocol.** `FileLoad`, `LoadProtocol` and `Fsm` model the tick-driven machine of
  stage 1 (delays, loading in blocks, preemption by the end of a frame) and the hand-over to
  stage 2 through a status byte. The environment decides how each DMA transfer ends, what a
  failed one leaves behind, and when frames end.
- **The checksum.** `Checksum` models the incremental Fletcher checksum with its buffer for a
  partial word, against a weighted sum of big-endian words.
- **The logo.** `Encoder` (colour table), `Compressor` (run-length compressor), `Rle` (the format),
  `Logo` (the decoder of the bootloader) and `ImagePipeline` (all of them together), for images
  of any size.
- **The string files.** `Lexer` (the state machine as functions), `LexerFsm` (the same as an
  object), `Grammar` (which files it accepts, and with which status it rejects the others),
  `TextFile` (printing and reading back), `Comments`, `Slices` (what any accepted file hands to
  the formatter), and `Formatter` (the C source that is generated, and a reader of it).
- **The tools.** `MemoryMove` (overlapping moves), `RomBuilder` and `RomImage` (measuring and
  writing the ROM, and its boot header), and `Arguments` (configuration files, and what a list of
  arguments amounts to).

`Bytes`, `Common` and `Strings` hold what several of these share.

Each object that the C code updates in place is a class or a method on an array, proved equal
to a function on values; what the code is for is then proved about those functions. 32-bit
arithmetic wraps where the code lets it wrap. Bit operations on disjoint fields are written as
sums, and shifts of bytes as division and remainder. Loops that run at least once are written
with the test in front where the first test always succeeds.

## What does not hold in general

Where the code does not do what it is for on every input, a lemma says exactly when it does:

- The allocator is complete and best-fit for all block lists exactly when the space ends at, or
  one past, an aligned address (`AllocCorrectIffEndAligned`). With any other end the scan can
  align its way past the end.
- A successful plan can put files on top of each other. For a memory map, no header leads to that
  exactly when the two heaps begin together, which they do not on the console, or the stage-1 heap
  has no room for any file but the kernel (`PlanIsDisjointIff`). For a load address and length of
  the kernel, no other files can overlap it exactly when the kernel is inside the stage-1 heap or
  ends below the first double word there (`KernelIsApartIff`). For one header `PlanIsApartIff` says
  it of all files, in terms of its load address and lengths. `MixedPlanOverlaps` and
  `ReversePlanOverlaps` are two plans in which initramfs and command line overlap.
- The boot goes on regardless. Without transfer errors, the kernel starts and finds all its files
  whatever their bytes are, exactly when the plan has no overlap (`FilesSurviveIff`); for one header
  and for a memory map that comes to the conditions above (`HeaderDeliversIff`, `MapDeliversIff`).
  In the first of the two plans every checksum is right and the command line is lost
  (`MixedBootLosesCommandLine`, `MixedHeaderLosesCommandLine`).
- Stage 2 does not look at the status of a transfer (`Stage2MissesIoErrors`).
- A checksum call that neither finds an empty word buffer nor completes the pending word makes the
  context forget the pending bytes (`CallIsHarmlessIff`); a split of the data is harmless for all
  contents exactly when none of its calls is of that kind (`SplitIsHarmlessIff`). A change of one word goes unnoticed exactly
  when its weight times its size is a multiple of 2^32 (`OneWordChangeIsUnnoticedIff`); so no change
  of the last word counts (`LastWordIsNotChecked`).
- The image encoder keeps its promise for all images exactly when entry 0 of the colour table is
  zero beforehand (`PromiseHoldsIff`); it clears the other fourteen only.
- The buffer of the compressor is large enough exactly from two tuples on (`BufferFitsIff`).
- A string file is read back exactly up to 33 entries (`RoundTripIff`): the capacity of the
  string array doubles on nearly every push and wraps to zero at the 34th. A field that is
  repeated adds to the length it had (`FieldReadsBackIff`), a text over several lines is sliced
  with its newlines (`SliceAcrossLinesIsRightIff`), a quotation mark in front of an identifier is
  passed over (`QuoteIsPassedOver`) and its error never reported (`SomeErrorsAreNeverReported`).
  Field names are told apart by a hash alone. Two names share it exactly when four exclusive ors
  of their characters agree (`SameHashIff`); only the documented name can select a field exactly
  for names of up to four, five and six characters (`NamesAreToldApartIff`).
- The formatter takes for granted that the lexer has filtered what it cannot convert
  (rescompiler/textcompiler/src/tux64-textcompiler/formatter.c:183-184). For every accepted file it
  can format an entry exactly when the slices lie in the file and the text slice holds neither
  newline nor quotation mark (`FormattableIffClean`). If no field is given a second value, the slices
  always lie in the file (`UnrepeatedSlicesAreInside`) and only a newline can go wrong
  (`UnrepeatedIsFormattableIff`). Two accepted files fail: a text over two lines, and an identifier
  given twice, whose slice leaves the file (`AcceptedFilesFail`).
- The overflow checks of the ROM builder never reject what fits in 32 bits, and what they accept
  fits exactly when no length is within three of 2^32 and the boot header behind stage 0 does not
  wrap (`OverflowIsCaughtIff`); `OverflowEscapes` has an accepted input of each kind. The size of
  an accepted ROM is measured right exactly when no single file is longer than the largest ROM
  (`MeasureIsExactIff`).
- The length of stage 0 is not checked (`Stage0IsNotChecked`). The start of the image is written
  as it should be, for all contents, exactly when stage 0 and its CIC data together have at most
  0xfc0 bytes (`StartIsSafeIff`), and a longer one is accepted (`LongStage0IsAccepted`).
- A command line that is only a terminator is measured as nothing but written as one byte
  (`WritesStayInsideIff`); `LoneTerminatorIsOutside` is a ROM that this byte is written behind.
- The initialiser of the required-option bits stays within the storage that the header file asks
  for exactly when the number of options is no multiple of eight (`InitializerFitsIff`).

Two places where the code and its documentation differ, and the code is followed: the ROM builder
speaks of two-byte boundaries and aligns to four (mkrom/src/tux64-mkrom/builder.c:50-52,
lib/src/tux64/platform/mips/n64/boot.h:20-21); the description of the logo format puts the left
pixel into the low four bits, the encoder puts the first pixel into the high four bits and the
decoder puts the high four bits first in memory
(boot/src/tux64-boot/stage1/logo.c:56-58, 142-150).

## Model

| member | source | states |
|---|---|---|
| Arithmetic.AlignForwardIsLeast | lib/src/tux64/math.c:45-55 | aligning forward gives the least multiple of the alignment that is not below the value |
| ArenaAllocator.AllocIsBestFit | boot/src/tux64-boot/stage1/arena-allocator.c:190-308 | with an aligned end, the result is zero exactly when no aligned address can serve the request, and else begins a smallest sufficient gap, the lowest on ties |
| ArenaAllocator.AllocCorrectIffEndAligned | boot/src/tux64-boot/stage1/arena-allocator.c:190-308 | for every space and alignment, no alignment wraps and the allocator is complete and best fit on all block lists and requests, exactly when the end is at most one past aligned |
| ArenaAllocator.MisalignedEndEscapes | boot/src/tux64-boot/stage1/arena-allocator.c:190-230 | with any other end there is a valid block list on which a one-byte request is answered with an address past the end |
| ArenaAllocator.AllocIsOnePass | boot/src/tux64-boot/stage1/arena-allocator.c:190-308 | whatever the order of its blocks, the allocator, whose scan restarts at every block, answers as a single pass over the blocks in address order does |
| ArenaAllocator.PassIsScan | boot/src/tux64-boot/stage1/arena-allocator.c:190-296 | from any point reached so far, the rest of the scan and the rest of the pass find the same gap |
| ArenaAllocator.FreeSpaceStartIsLeast | boot/src/tux64-boot/stage1/arena-allocator.c:190-230 | the inner scan finds the first aligned free address at or above its base, or the end of the space |
| ArenaAllocator.ScanIsBest | boot/src/tux64-boot/stage1/arena-allocator.c:260-308 | the outer scan keeps the preferred one among all gaps it has passed |
| ArenaAllocator.ServedInsideGap | boot/src/tux64-boot/stage1/arena-allocator.c:260-308 | any address that can serve a request lies inside a maximal gap that is large enough |
| ArenaAllocator.InplaceAcceptsIffServes | boot/src/tux64-boot/stage1/arena-allocator.c:60-188 | a fixed-address request whose end does not wrap is accepted exactly when its region is in the space and free; an accepted one whose end wraps reaches past the space |
| ArenaAllocator.ServeAddsAtMostOneBlock | boot/src/tux64-boot/stage1/arena-allocator.c:154-188 | a refused request changes nothing, a granted one adds exactly one block, which serves it and keeps blocks disjoint and inside |
| ArenaAllocator.EverySequenceIsSafe | boot/src/tux64-boot/stage1/arena-allocator.c:98-308 | after any sequence of requests blocks are pairwise disjoint and inside the space, earlier ones are untouched, and together they are no larger than the space |
| ArenaAllocator.TotalBytesFit | boot/src/tux64-boot/stage1/arena-allocator.c:98-152 | disjoint blocks inside a space have a total length of at most the size of the space |
| ArenaAllocator.Allocator.constructor | boot/src/tux64-boot/stage1/arena-allocator.c:26-36 | a new allocator is valid and has no blocks |
| ArenaAllocator.Allocator.IsFree | boot/src/tux64-boot/stage1/arena-allocator.c:127-152 | a region is free exactly when every block is excluded from it |
| ArenaAllocator.Allocator.AllocInplace | boot/src/tux64-boot/stage1/arena-allocator.c:154-188 | accepts by the region comparison and pushes one block exactly when it accepts; stays valid when the end does not wrap |
| ArenaAllocator.Allocator.ScanSpaceStart | boot/src/tux64-boot/stage1/arena-allocator.c:190-230 | the restarting double loop terminates and finds what the specified scan finds |
| ArenaAllocator.Allocator.ScanSpaceEnd | boot/src/tux64-boot/stage1/arena-allocator.c:232-258 | finds the lowest block start above an address, or the end of the space |
| ArenaAllocator.Allocator.SearchBestGap | boot/src/tux64-boot/stage1/arena-allocator.c:260-296 | the loop over gaps terminates with the gap that the specified scan prefers |
| ArenaAllocator.Allocator.Alloc | boot/src/tux64-boot/stage1/arena-allocator.c:260-308 | returns the best-fit address and pushes its block, or returns zero and changes nothing; stays valid when the end is aligned |
| BootPlan.Memory.constructor | boot/src/tux64-boot/stage1/memory.c:40-71 | both heaps begin empty, end together, and the free statistic begins at its initial figure |
| BootPlan.Memory.FreeAccountsForStage1 | boot/src/tux64-boot/stage1/memory.c:83-145 | the free statistic is the initial figure less the lengths of all stage-1 blocks, and never negative |
| BootPlan.Memory.Stage1AllocInplace | boot/src/tux64-boot/stage1/memory.c:83-101 | charges the free statistic exactly when the stage-1 heap accepts the region |
| BootPlan.Memory.Stage1Alloc | boot/src/tux64-boot/stage1/memory.c:103-121 | charges the free statistic exactly when the stage-1 heap finds room, and pushes the block it returns |
| BootPlan.Memory.Stage2AllocInplace | boot/src/tux64-boot/stage1/memory.c:123-133 | places in the stage-2 heap and leaves the statistic and the other heap alone |
| BootPlan.Memory.Stage2Alloc | boot/src/tux64-boot/stage1/memory.c:135-145 | as above, at an address of the allocator's choice |
| BootPlan.Planner.AllocateKernel | boot/src/tux64-boot/stage1/fsm.c:160-196 | asks both heaps for the load address of the kernel; succeeds if either accepts; sets the status bit if stage 1 does |
| BootPlan.Planner.AllocateNonEmpty | boot/src/tux64-boot/stage1/fsm.c:198-225 | asks both heaps, prefers stage 1, and records address and status bit as the specified placement does |
| BootPlan.Planner.AllocateOptional | boot/src/tux64-boot/stage1/fsm.c:227-248 | an empty file gets address zero and its status bit without any allocation; any other is placed |
| BootPlan.Planner.AllocateBootFiles | boot/src/tux64-boot/stage1/fsm.c:297-312 | places kernel, initramfs and command line in this order and stops at the first that finds no room |
| BootPlan.MaskIsFaithful | boot/src/tux64-boot/stage1/fsm.c:160-225 | the bits of the status byte are independent, and it equals the all-set constant exactly when every file's bit is set |
| BootPlan.PlanIsSafe | boot/src/tux64-boot/stage1/fsm.c:160-312 | when placement succeeds the kernel is at its load address, every non-empty file is aligned and inside the heap it was placed in, and files of the same heap do not overlap |
| BootPlan.UnmixedPlanIsDisjoint | boot/src/tux64-boot/stage1/fsm.c:160-312 | when any two non-empty files were placed by the same stage, or one of them is the kernel and was placed by stage 1, no two of them overlap |
| BootPlan.PlanIsDisjointIff | boot/src/tux64-boot/stage1/fsm.c:160-312 | for every memory map, all successful plans are free of overlaps exactly when the heaps begin together or the stage-1 heap has no aligned room for an optional file |
| BootPlan.KernelIsApartIff | boot/src/tux64-boot/stage1/fsm.c:160-312 | for every memory map, load address and length, the kernel is apart from the other files whatever these are, exactly when it finds no room at all, is inside the stage-1 heap, or ends below the first double word of that heap |
| BootPlan.PlanInClosedForm | boot/src/tux64-boot/stage1/fsm.c:160-312 | the planner in closed form: the heaps answer independently, each by one pass over its blocks for each file; the plan succeeds exactly when every file has room in one of them, and these are its addresses and status bits |
| BootPlan.PlanIsApartIff | boot/src/tux64-boot/stage1/fsm.c:160-312 | for one header with a successful plan, in terms of load address, lengths and heap bounds: no files overlap exactly when the kernel is inside the stage-1 heap or ends below what stage 1 puts there in ignorance of it, and initramfs and command line are not mixed so that they overlap |
| BootPlan.KernelStaysApartIff | boot/src/tux64-boot/stage1/fsm.c:160-312 | the part of this about the kernel |
| BootPlan.OptionalsStayApartIff | boot/src/tux64-boot/stage1/fsm.c:198-312 | the part of this about initramfs and command line, whichever of them is left to stage 2 |
| BootPlan.PlaceFailsIffNoRoom | boot/src/tux64-boot/stage1/fsm.c:198-248 | placing an optional file fails exactly when it is not empty and neither heap has room for it at its alignment |
| BootPlan.MixedPlanOverlaps | boot/src/tux64-boot/stage1/fsm.c:198-312 | a concrete memory map and header for which the plan succeeds and puts the command line, loaded by stage 1, inside the initramfs, loaded by stage 2 |
| BootPlan.ReversePlanOverlaps | boot/src/tux64-boot/stage1/fsm.c:198-312 | a header for which the plan puts the command line, loaded by stage 2, inside the initramfs, loaded by stage 1 |
| Checksum.FinalizeIsFletcher | lib/src/tux64/checksum.c:175-189 | finalizing a context that has seen some bytes gives the weighted sum of their zero-padded big-endian words |
| Checksum.OneShotIsFletcher | boot/src/tux64-boot/stage2/file.c:22-47 | one digest call over the whole data gives that weighted sum |
| Checksum.FirstOfTwoWordsIsChecksum | lib/src/tux64/checksum.c:39-48 | of two words the checksum is the first, read as a big-endian number, whatever the second |
| Checksum.DigestAppendsIff | lib/src/tux64/checksum.c:85-172 | a digest call extends what the context stands for exactly when the buffer is empty or the call completes the pending word |
| Checksum.ShortCallForgets | lib/src/tux64/checksum.c:99-107 | any other call leaves a context that stands for the whole words only |
| Checksum.StreamingIsFletcher | lib/src/tux64/checksum.c:50-189 | for every split in which each call meets an empty buffer or completes the word, streaming equals the one-shot checksum |
| Checksum.CallIsHarmlessIff | lib/src/tux64/checksum.c:85-172 | exactly such a call goes unnoticed whatever is digested afterwards |
| Checksum.SplitIsHarmlessIff | lib/src/tux64/checksum.c:50-189 | for the lengths of any number of calls: the context behaves as if it had absorbed all the data, for all contents and whatever is digested afterwards, exactly when each call meets an empty buffer or completes the word |
| Checksum.SumHiInClosedForm | lib/src/tux64/checksum.c:39-48 | the first sum after any words, without the wrapping in between |
| Checksum.SumLoInClosedForm | lib/src/tux64/checksum.c:39-48 | the second sum likewise, each word weighed by the words behind it |
| Checksum.WordChangeIsWeighted | lib/src/tux64/checksum.c:39-48 | changing word i of n by d changes the sum by (n-1-i) times d |
| Checksum.OneWordChangeIsUnnoticedIff | lib/src/tux64/checksum.c:39-48 | data that differ in one word have the same checksum exactly when the weight of the word times the difference is a multiple of 2^32 |
| Checksum.LastWordIsNotChecked | lib/src/tux64/checksum.c:175-189 | replacing the last word of any data, whole or partial, by another whole or partial word leaves the checksum as it was |
| Checksum.ChecksumContext.Initialize | lib/src/tux64/checksum.c:14-37 | sets both sums to zero and empties the word buffer |
| Checksum.ChecksumContext.FillBuffer | lib/src/tux64/checksum.c:85-128 | completes the pending word or takes all the data, as specified, and says how much it took |
| Checksum.ChecksumContext.DigestData | lib/src/tux64/checksum.c:130-173 | the buffer, the sums and the capacity end up as specified for any data |
| Checksum.ChecksumContext.FlushBuffer | lib/src/tux64/checksum.c:50-83 | pads a pending word with zeros and digests it |
| Checksum.ChecksumContext.FinalizeDigest | lib/src/tux64/checksum.c:175-189 | gives the checksum of whatever bytes the context stands for |
| FileLoad.PollTransfers | boot/src/tux64-boot/stage1/file.c:36-79 | a poll starts one transfer of one block, reports an error exactly when it fails, and otherwise changes memory by that block only |
| FileLoad.PollAdvances | boot/src/tux64-boot/stage1/file.c:81-134 | after a successful poll the rest of the blocks remains, or the load is done; it ends with a good or bad verdict exactly as the checksum of the whole file matches |
| FileLoad.PollsUntilFrameEnds | boot/src/tux64-boot/stage1/fsm.c:491-512 | the polls of one tick make one transfer each; before the last one no frame has ended and no transfer has failed, and if the load goes on, a frame has ended at the last one |
| FileLoad.BusyMovesABlock | boot/src/tux64-boot/stage1/fsm.c:491-512 | a tick that does not finish a load has moved at least one full block |
| FileLoad.Stage2LoadEffect | boot/src/tux64-boot/stage2/file.c:22-72 | stage 2 makes one transfer, stores what it delivered, and halts exactly when checksums are on and the checksum of that differs |
| FileLoad.Stage2MissesIoErrors | boot/src/tux64-boot/stage2/file.c:49-72 | without checksums stage 2 never halts, so the file is there for certain exactly when the transfer does not fail |
| LoadProtocol.EnterKeeps | boot/src/tux64-boot/stage1/fsm.c:314-489 | every transition function leads to a state that keeps the invariant and changes nothing about the transfers still to come |
| LoadProtocol.BitsDecideBoot | boot/src/tux64-boot/stage1/fsm.c:439-464 | the comparison of the status byte boots directly exactly when stage 1 loads all three files |
| LoadProtocol.TickKeepsInvariant | boot/src/tux64-boot/stage1/fsm.c:703-709 | every tick keeps the invariant: the transfers made and to come add up to one fixed log, memory is that log replayed, and what was loaded has been checked |
| LoadProtocol.HandOverIffIncomplete | boot/src/tux64-boot/stage1/fsm.c:439-607 | on every run, stage 1 starts the kernel only if all bits are set, starts stage 2 only if not, and has then made exactly the transfers of its log, all verified |
| LoadProtocol.LoadOnDemandLog | boot/src/tux64-boot/stage2/file.c:123-147 | stage 2 transfers each file whose bit is clear once and whole, and no other, or it halts |
| LoadProtocol.LoadOnDemandIsGood | boot/src/tux64-boot/stage2/file.c:123-147 | if files do not overlap and stage 2 does not halt, each file is in place and has its checksum, stage-1 files included |
| LoadProtocol.KernelStartsAfterFullLog | boot/src/tux64-boot/stage2/file.c:74-147 | on every run that starts the kernel, through either stage, each non-empty file was transferred whole, to its address, exactly once, by stage 1 exactly when its bit is set |
| LoadProtocol.KernelStartsIntact | boot/src/tux64-boot/stage1/fsm.c:314-607 | on every such run, if no two files overlap: stage-1 files are in place, the others too unless a stage-2 transfer failed, and with checksums on everything in memory has the checksum of its header entry; that the files must not overlap is needed, see `FilesSurviveIff` |
| LoadProtocol.ReplayBlocks | boot/src/tux64-boot/stage1/file.c:107-134 | loading a file block by block is one copy of the whole file |
| LoadProtocol.TickMakesProgress | boot/src/tux64-boot/stage1/fsm.c:62-117 | every tick of a running machine lowers a measure made of phases, delay ticks and blocks |
| LoadProtocol.Stage1Terminates | boot/src/tux64-boot/stage1/fsm.c:62-577 | whatever the environment does, stage 1 has started the kernel or stage 2 or has halted after an explicit number of ticks |
| LoadProtocol.DelayLasts | boot/src/tux64-boot/stage1/fsm.c:106-117 | on every run, a delay of n ticks (of 2^32 if n is zero) leaves memory and transfers alone for exactly as many ticks, and its transition runs at the last of them |
| LoadProtocol.StartPauses | boot/src/tux64-boot/stage1/fsm.c:88-104 | a machine with pauses compiled in and enabled waits as many ticks as configured before it plans anything; any other begins at once |
| LoadProtocol.CompletedLoadPauses | boot/src/tux64-boot/stage1/fsm.c:88-117 | so does it behind every completed load, before the next transition runs |
| LoadProtocol.KernelShowsFirst | boot/src/tux64-boot/stage1/fsm.c:537-557 | the kernel is started at the second tick if delays are compiled in, one having been left for the screen, and else at the first |
| LoadProtocol.Stage2ShowsFirst | boot/src/tux64-boot/stage1/fsm.c:559-577 | so is stage 2 |
| LoadProtocol.ErrorShowsFirst | boot/src/tux64-boot/stage1/fsm.c:119-160 | behind a plan without room, a failed transfer or a wrong checksum the machine halts, after one tick for the screen if delays are compiled in, whether or not they are enabled |
| LoadProtocol.CleanBootRunsIff | boot/src/tux64-boot/stage1/fsm.c:62-607 | if no transfer fails, wherever frames end, the kernel is running after the explicit number of ticks exactly when the plan succeeded and, with checksums on, every file that is loaded matches its checksum |
| LoadProtocol.PlannedSystemIsValid | boot/src/tux64-boot/stage1/fsm.c:314-332 | the plan for a sound header and memory map satisfies what the protocol assumes of it |
| LoadProtocol.UnmixedIsApart | boot/src/tux64-boot/stage1/fsm.c:160-312 | when any two non-empty files were placed by the same stage, or one is the kernel and was placed by stage 1, no two files overlap, nor does any overlap the stage-2 image |
| LoadProtocol.UnmixedBootIsIntact | boot/src/tux64-boot/stage1/fsm.c:160-607 | plan and protocol together: with such a plan every run ends, and a run that starts the kernel has the kernel at its load address and all files intact |
| LoadProtocol.FilesSurviveIff | boot/src/tux64-boot/stage1/fsm.c:62-607 | for every system with a plan, files of their own on the cartridge and apart from the stage-2 image: no two files overlap in memory exactly when, from every cartridge with matching checksums, each boot without transfer errors runs the kernel with every file in place |
| LoadProtocol.HeaderDeliversIff | boot/src/tux64-boot/stage1/fsm.c:160-607 | for one header, that is so exactly under the condition of `PlanIsApartIff` on its load address and lengths |
| LoadProtocol.MapDeliversIff | boot/src/tux64-boot/stage1/fsm.c:160-607 | for every memory map: all headers with a plan, on all cartridges that match them, boot to a kernel with every file in place, exactly when the heaps begin together or stage 1 has no room for any file but the kernel |
| LoadProtocol.Stage2Replaces | boot/src/tux64-boot/stage2/file.c:49-72 | a file that stage 2 loads over another one leaves its own bytes there |
| LoadProtocol.MixedBootLosesCommandLine | boot/src/tux64-boot/stage2/file.c:123-147 | whenever the plan puts the command line, loaded by stage 1, inside an initramfs left to stage 2: without any transfer error and with all checksums right, the kernel starts and finds initramfs bytes where its command line should be |
| LoadProtocol.MixedHeaderLosesCommandLine | boot/src/tux64-boot/stage1/fsm.c:160-607 | that happens: for a concrete memory map and header, every boot without transfer errors starts the kernel with those bytes of the initramfs for a command line |
| Fsm.Stage1Fsm.constructor | boot/src/tux64-boot/stage1/fsm.c:677-701 | the machine starts with a delay towards its start transition, or right behind it, and with no transfers made |
| Fsm.Stage1Fsm.RunTransition | boot/src/tux64-boot/stage1/fsm.c:403-577 | each transition function, including the chain over files that are skipped, leaves the specified state |
| Fsm.Stage1Fsm.TransitionStart | boot/src/tux64-boot/stage1/fsm.c:314-332 | runs the planner once, then halts or goes on as the plan says |
| Fsm.Stage1Fsm.ScheduleTransition | boot/src/tux64-boot/stage1/fsm.c:88-104 | delays a transition exactly when delays are compiled in and enabled |
| Fsm.Stage1Fsm.StateDelay | boot/src/tux64-boot/stage1/fsm.c:106-117 | makes the specified tick: what it does to whole runs, to the tick, is said by `DelayLasts` |
| Fsm.Stage1Fsm.LoadBlock | boot/src/tux64-boot/stage1/file.c:36-79 | one transfer; the context moves on even when it fails; the digest covers exactly the bytes in memory |
| Fsm.Stage1Fsm.LoadFinalize | boot/src/tux64-boot/stage1/file.c:81-102 | compares checksums only if they are enabled |
| Fsm.Stage1Fsm.LoadPoll | boot/src/tux64-boot/stage1/file.c:107-134 | one poll as specified: block size, order of the checks, and status |
| Fsm.Stage1Fsm.PollLoop | boot/src/tux64-boot/stage1/fsm.c:491-512 | polls until the load ends or the frame does |
| Fsm.Stage1Fsm.StateLoadFile | boot/src/tux64-boot/stage1/fsm.c:491-535 | one tick of loading, its four outcomes included |
| Fsm.Stage1Fsm.Execute | boot/src/tux64-boot/stage1/fsm.c:703-709 | the object makes exactly the specified tick and keeps the invariant |
| Rle.DecodeCommand | boot/src/tux64-boot/stage1/logo.c:215-263 | a complete command in front of well-formed input decodes to its own tuples followed by those of the input |
| Compressor.DecodeOfEncode | rescompiler/imagecompiler/src/tux64-imagecompiler/compressor.c:100-190 | what the compressor writes is well formed and decodes to the tuples it was given, whatever is still pending |
| Compressor.EncodeIsBounded | rescompiler/imagecompiler/src/tux64-imagecompiler/compressor.h:16-20 | three times the output is at most four times the tuples plus two |
| Compressor.WorstCaseIsAttained | rescompiler/imagecompiler/src/tux64-imagecompiler/compressor.h:16-20 | there are images of unbounded size for which the bound is met with equality |
| Compressor.BufferFitsIff | rescompiler/imagecompiler/src/tux64-imagecompiler/compressor.h:16-20 | the buffer of five bytes for three tuples holds the output for every image exactly when there are at least two tuples |
| Compressor.OneTupleNeedsTwoBytes | rescompiler/imagecompiler/src/tux64-imagecompiler/compressor.h:16-20 | no compressor at all could store a single tuple in that buffer |
| Compressor.RepeatsAreCompressed | rescompiler/imagecompiler/src/tux64-imagecompiler/compressor.c:100-190 | n equal tuples take two bytes for every 128 |
| Compressor.NextRunLength | rescompiler/imagecompiler/src/tux64-imagecompiler/compressor.c:17-50 | the number of equal tuples in front, at most 128 |
| Compressor.FormatRunStraight | rescompiler/imagecompiler/src/tux64-imagecompiler/compressor.c:57-79 | appends the straight command for the tuples and touches nothing before it |
| Compressor.FormatRunCompressed | rescompiler/imagecompiler/src/tux64-imagecompiler/compressor.c:81-98 | appends the command for a repeated tuple |
| Compressor.Flush | rescompiler/imagecompiler/src/tux64-imagecompiler/compressor.c:142-176 | whenever the loop has written something, three times the length is at most four times the tuples consumed, and what is left to encode completes the whole |
| Compressor.Compress | rescompiler/imagecompiler/src/tux64-imagecompiler/compressor.c:100-190 | the loop terminates, although a full straight run is written without consuming input, stays inside the buffer, and writes the specified encoding |
| Logo.Decoder.Initialize | boot/src/tux64-boot/stage1/logo.c:294-303 | replaces entry 0 of the table by the background and nothing else, and decompresses with that table |
| Logo.Decoder.DecompressColorTuple | boot/src/tux64-boot/stage1/logo.c:135-155 | appends one word with the colour of the high nibble in front of that of the low nibble |
| Logo.Decoder.DecompressStraight | boot/src/tux64-boot/stage1/logo.c:157-186 | colours as many tuples as follow, one more than counted |
| Logo.Decoder.DecompressCompressed | boot/src/tux64-boot/stage1/logo.c:188-213 | colours one tuple repeatedly |
| Logo.Decoder.DecompressCommand | boot/src/tux64-boot/stage1/logo.c:215-263 | colours the tuples of one command and says how many words it read and wrote |
| Logo.Decoder.Decompress | boot/src/tux64-boot/stage1/logo.c:265-292 | the count of remaining bytes comes to exactly zero, and the pixels are the coloured tuples of the input |
| Encoder.Rgba5551KeepsChannels | rescompiler/imagecompiler/src/tux64-imagecompiler/encoder.c:73-93 | an opaque pixel keeps the upper five bits of each channel in its own field |
| Encoder.LoadSees | rescompiler/imagecompiler/src/tux64-imagecompiler/encoder.c:40-71 | looking up a pixel in the table of the colours seen so far finds it, or adds it at the next entry, or fails exactly when the colours no longer fit |
| Encoder.IndexIsStable | rescompiler/imagecompiler/src/tux64-imagecompiler/encoder.c:40-71 | an index given out early is still right when more colours have come in |
| Encoder.IndexLeadsToColor | rescompiler/imagecompiler/src/tux64-imagecompiler/encoder.c:40-71 | the table entry behind an index holds the colour it was given out for, whatever entry 0 held before |
| Encoder.SeenCountsColors | rescompiler/imagecompiler/src/tux64-imagecompiler/encoder.c:150-190 | as many colours are seen as there are distinct opaque colours in the image |
| Encoder.SeenInOrder | rescompiler/imagecompiler/src/tux64-imagecompiler/encoder.c:122-148 | the opaque colours fill the table in the order in which the lookups first meet them, the second pixel of each pair being looked up before the first |
| Encoder.PromiseHoldsIff | rescompiler/imagecompiler/src/tux64-imagecompiler/encoder.c:25-190 | encoding succeeds for exactly the images of at most fifteen opaque colours, for images of sixteen or more pixels, exactly when entry 0 is empty beforehand |
| Encoder.ColorTableInitialize | rescompiler/imagecompiler/src/tux64-imagecompiler/encoder.c:25-37 | empties every entry but entry 0, which keeps its value |
| Encoder.ColorTableLoadPixel | rescompiler/imagecompiler/src/tux64-imagecompiler/encoder.c:40-71 | the countdown search returns the index, and updates the table, as specified |
| Encoder.EncodePixelTuple | rescompiler/imagecompiler/src/tux64-imagecompiler/encoder.c:122-148 | succeeds exactly if the colours of both pixels fit, and then gives both indices and the table of all colours seen |
| Encoder.Encode | rescompiler/imagecompiler/src/tux64-imagecompiler/encoder.c:150-190 | rejects any other size without changes; succeeds exactly if all colours fit, and then each half of each tuple stands for the four bytes of its pixel: zero if the fourth is below 0x80, and else an index to a colour made of the upper five bits of the first three |
| ImagePipeline.TuplesShowPicture | boot/src/tux64-boot/stage1/logo.c:135-155 | colouring the encoded tuples shows each pixel in order, transparent ones as background |
| ImagePipeline.ImageIsShown | boot/src/tux64-boot/stage1/logo.c:265-292 | decompressing the compressed tuples of any image that fits shows every pixel |
| ImagePipeline.PictureShowsImage | rescompiler/imagecompiler/src/tux64-imagecompiler/encoder.c:96-120 | the picture, byte by byte: the half word of pixel k is the background when byte 4k+3 of the image is below 0x80, and else its fields are the upper five bits of the bytes 4k, 4k+1 and 4k+2, and one |
| ImagePipeline.ColorsOfBytes | rescompiler/imagecompiler/src/tux64-imagecompiler/encoder.c:96-120 | the opaque colours that are counted are those of the pixels whose fourth byte is at least 0x80 |
| ImagePipeline.CompileAndShow | rescompiler/imagecompiler/src/tux64-imagecompiler/tux64-imagecompiler.c:145-225 | encoder, compressor and decoder together: with a zeroed table they succeed exactly for images of the right size with at most fifteen opaque colours, and then the screen shows each four bytes of the image in the half word of their pixel |
| Lexer.Step | rescompiler/textcompiler/src/tux64-textcompiler/lexer.c:131-158 | a call of a state function consumes at least one character or exits, and never reads past the end |
| Lexer.ParsedFilesAreComplete | rescompiler/textcompiler/src/tux64-textcompiler/lexer.c:377-406 | a successful parse has entries, and each has two identifiers and a text of 1 to 255 characters |
| Lexer.SomeErrorsAreNeverReported | rescompiler/textcompiler/src/tux64-textcompiler/lexer.c:542-564 | no parse ever reports a wrong-type identifier, exhausted memory, or an unterminated value |
| LexerFsm.Fsm.constructor | rescompiler/textcompiler/src/tux64-textcompiler/lexer.c:264-286 | the lexer begins in its initial state, with no entries and room for one |
| LexerFsm.Fsm.Next | rescompiler/textcompiler/src/tux64-textcompiler/lexer.c:131-158 | takes the next character that is not a newline, or reports the end of the file |
| LexerFsm.Fsm.SetNewStringEntry | rescompiler/textcompiler/src/tux64-textcompiler/lexer.c:38-59 | grows the array as the C code does, including the wrapped capacity, which leaves the state as it was |
| LexerFsm.Fsm.SetFinalizeStringEntry | rescompiler/textcompiler/src/tux64-textcompiler/lexer.c:377-406 | leaves an entry exactly when all three fields have characters |
| LexerFsm.Fsm.SetPostIdentifier | rescompiler/textcompiler/src/tux64-textcompiler/lexer.c:427-464 | dispatches on the hash to a field and a kind of value |
| LexerFsm.Fsm.SetValueIdentifier | rescompiler/textcompiler/src/tux64-textcompiler/lexer.c:542-564 | sets the start of the slice, then takes the character, except that a quotation mark changes nothing more |
| LexerFsm.Fsm.StateInitial | rescompiler/textcompiler/src/tux64-textcompiler/lexer.c:679-718 | makes the specified step between entries |
| LexerFsm.Fsm.StateCommentStart | rescompiler/textcompiler/src/tux64-textcompiler/lexer.c:720-738 | makes the specified step behind a slash |
| LexerFsm.Fsm.StateComment | rescompiler/textcompiler/src/tux64-textcompiler/lexer.c:740-757 | makes the specified step inside a comment |
| LexerFsm.Fsm.StateCommentEnd | rescompiler/textcompiler/src/tux64-textcompiler/lexer.c:759-784 | makes the specified step behind a star, returning to where the comment began |
| LexerFsm.Fsm.StateEntryInitial | rescompiler/textcompiler/src/tux64-textcompiler/lexer.c:786-828 | makes the specified step between fields; which characters may stand there is said by `Grammar.ParseRejectsIff` |
| LexerFsm.Fsm.StateEntryIdentifier | rescompiler/textcompiler/src/tux64-textcompiler/lexer.c:830-868 | makes the specified step inside a field name |
| LexerFsm.Fsm.StateWaitSeparator | rescompiler/textcompiler/src/tux64-textcompiler/lexer.c:870-903 | makes the specified step in front of the separator |
| LexerFsm.Fsm.StateWaitValue | rescompiler/textcompiler/src/tux64-textcompiler/lexer.c:905-938 | makes the specified step in front of a value |
| LexerFsm.Fsm.StateValueIdentifier | rescompiler/textcompiler/src/tux64-textcompiler/lexer.c:940-952 | makes the specified step inside an identifier |
| LexerFsm.Fsm.StateValueText | rescompiler/textcompiler/src/tux64-textcompiler/lexer.c:954-984 | makes the specified step inside a text |
| LexerFsm.Fsm.StateWaitNewline | rescompiler/textcompiler/src/tux64-textcompiler/lexer.c:986-1018 | makes the specified step behind a value; that nothing but whitespace and a semicolon may stand there is said by `Grammar.ParseRejectsIff` |
| LexerFsm.Fsm.Parse | rescompiler/textcompiler/src/tux64-textcompiler/lexer.c:1020-1057 | the loop over state functions terminates; it accepts exactly the files of the grammar, and rejects every other with the status that the grammar of errors derives for it; success means complete entries, there are never more than 33, three errors are never reported, and a printed file succeeds with its own identifiers and texts exactly when it has at most 33 entries |
| Grammar.ParseAcceptsIff | rescompiler/textcompiler/src/tux64-textcompiler/lexer.c:679-1057 | a file is accepted exactly when, without its newlines, it is a file of a grammar that mentions no states: entries in braces with whitespace and comments between them, and between their fields; a field is a name that selects it, a separator and a value, and all three are given; quotation marks in front of identifiers, repeated fields and names with the hash of another included; behind the 33rd entry, opening braces are passed over |
| Grammar.ParseRejectsIff | rescompiler/textcompiler/src/tux64-textcompiler/lexer.c:679-1057 | it is rejected with a status exactly when it can be derived up to a place where the grammar does not go on in the way that the status names: a stray character between entries, between fields or behind a value, an unknown name, a missing separator, value or semicolon, a bad character, a comment that does not end, and so on for each status |
| TextFile.NamesReachTheirCases | rescompiler/textcompiler/src/tux64-textcompiler/lexer.c:172-192 | the rotating hash of each field name is the constant of its case |
| TextFile.HashIsColumns | rescompiler/textcompiler/src/tux64-textcompiler/lexer.c:172-192 | the hash of any name is made of four bytes, each the exclusive or of every fourth character counted from the end |
| TextFile.SameHashIff | rescompiler/textcompiler/src/tux64-textcompiler/lexer.c:172-192 | two names have the same hash exactly when these four bytes agree |
| TextFile.NamesAreToldApartIff | rescompiler/textcompiler/src/tux64-textcompiler/lexer.c:416-464 | of the names of at most n characters only the documented one selects the field, exactly when n is at most four for the text, five for the data identifier, six for the length identifier |
| TextFile.OtherNamesReachThemToo | rescompiler/textcompiler/src/tux64-textcompiler/lexer.c:416-464 | a printable name that has the hash of the text field |
| TextFile.NewlineIsInvisible | rescompiler/textcompiler/src/tux64-textcompiler/lexer.c:131-158 | a newline changes nothing about the outcome, in any state |
| TextFile.SkipWhitespace | rescompiler/textcompiler/src/tux64-textcompiler/lexer.c:694-696 | in the five states that wait, any whitespace changes nothing about the outcome |
| TextFile.EndName | rescompiler/textcompiler/src/tux64-textcompiler/lexer.c:830-903 | a field name and its separator may have any whitespace between them |
| TextFile.EndIdentifier | rescompiler/textcompiler/src/tux64-textcompiler/lexer.c:504-539 | an identifier and the semicolon may have any whitespace between them |
| TextFile.ReadIdentifierValue | rescompiler/textcompiler/src/tux64-textcompiler/lexer.c:486-564 | reading an identifier sets the slice to begin at it and adds its length to the count |
| TextFile.QuoteIsPassedOver | rescompiler/textcompiler/src/tux64-textcompiler/lexer.c:542-564 | a quotation mark in front of an identifier has no effect: the identifier is read as if it were not there |
| TextFile.ReadTextValue | rescompiler/textcompiler/src/tux64-textcompiler/lexer.c:566-676 | reading a quoted text sets the slice to begin behind the quotation mark and adds its length |
| TextFile.FieldReadsBackIff | rescompiler/textcompiler/src/tux64-textcompiler/lexer.c:542-600 | a field reads back as its value exactly when nothing was read into it before |
| TextFile.ReadTextAcrossLines | rescompiler/textcompiler/src/tux64-textcompiler/lexer.c:954-984 | a text that runs over lines is counted without its newlines |
| TextFile.SliceAcrossLinesIsRightIff | rescompiler/textcompiler/src/tux64-textcompiler/lexer.c:138-154 | the slice of such a text equals what was collected exactly when no newline falls within its length |
| TextFile.PushWorksIff | rescompiler/textcompiler/src/tux64-textcompiler/lexer.c:38-59 | of all pushes, exactly the first 33 make a new entry, those after the capacity has wrapped to zero included |
| TextFile.NoFileHasMoreEntries | rescompiler/textcompiler/src/tux64-textcompiler/lexer.c:38-59 | whatever the file holds, no parse reads more than 33 entries |
| TextFile.ReadEntry | rescompiler/textcompiler/src/tux64-textcompiler/lexer.c:350-406 | a printed entry, with its fields in any order, is read as one more entry that reads back as it was |
| TextFile.RoundTripIff | rescompiler/textcompiler/src/tux64-textcompiler/lexer.c:679-1057 | a printed non-empty file, with any whitespace between tokens and fields in any order, parses successfully to the same identifiers and texts exactly when it has at most 33 entries |
| Comments.NoEndIff | rescompiler/textcompiler/src/tux64-textcompiler/lexer.c:740-784 | the body of a comment does not end it exactly when it has no star followed by a slash once newlines are taken out |
| Comments.ReadComment | rescompiler/textcompiler/src/tux64-textcompiler/lexer.c:720-784 | between entries and between fields a whole comment changes nothing about the outcome |
| Comments.ConsumeMoves | rescompiler/textcompiler/src/tux64-textcompiler/lexer.c:504-676 | every state does the same on a file that is shifted |
| Comments.CommentIsTransparent | rescompiler/textcompiler/src/tux64-textcompiler/lexer.c:341-406 | a comment inserted wherever the lexer is between entries or between fields gives the same status and entries, slices behind it moved by its length |
| Comments.MovedSliceReads | rescompiler/textcompiler/src/tux64-textcompiler/lexer.c:131-158 | a moved slice reads as it did, unless it reaches over the inserted text |
| Slices.AcceptedSliceIsValueIff | rescompiler/textcompiler/src/tux64-textcompiler/lexer.c:504-676 | for every accepted file, a slice cuts out a valid value of its field exactly when it lies in the file and holds, for a text, neither newline nor quotation mark, for an identifier, neither whitespace nor semicolon |
| Slices.UnrepeatedSlicesAreInside | rescompiler/textcompiler/src/tux64-textcompiler/lexer.c:542-600 | in every accepted file that gives no field of an entry a second value, every slice lies in the file |
| Slices.UnrepeatedSliceIsValueIff | rescompiler/textcompiler/src/tux64-textcompiler/lexer.c:131-158 | and cuts out a valid value exactly when it holds no newline |
| Slices.FinishClosesAll | rescompiler/textcompiler/src/tux64-textcompiler/lexer.c:679-1018 | the invariant behind these, over every run: each slice begins behind a set start with characters of its field and newlines only, up to what ended it, and counts the former |
| Slices.RepeatedFieldIsInsideIff | rescompiler/textcompiler/src/tux64-textcompiler/lexer.c:542-564 | a file whose entry gives its data identifier again is accepted, and the slice lies in the file exactly if the first identifier had at most two characters |
| Slices.TextOverLinesIsValueIff | rescompiler/textcompiler/src/tux64-textcompiler/lexer.c:954-984 | a file whose text runs over lines is accepted, and the slice is a text exactly if no newline falls within its length |
| Slices.AcceptedFilesFail | rescompiler/textcompiler/src/tux64-textcompiler/formatter.c:183-184 | two accepted files: a text slice with a newline in it, and an identifier slice that leaves the file |
| Formatter.FormattableIffClean | rescompiler/textcompiler/src/tux64-textcompiler/formatter.c:160-185 | for every accepted file, an entry can be formatted exactly when its slices lie in the file and its text slice holds neither newline nor quotation mark |
| Formatter.UnrepeatedIsFormattableIff | rescompiler/textcompiler/src/tux64-textcompiler/formatter.c:160-185 | if no field is given a second value, exactly when the text slice holds no newline |
| Formatter.LengthNeverWraps | rescompiler/textcompiler/src/tux64-textcompiler/formatter.c:67-158 | the calculated length of the output is below 2^32 for every accepted file of up to sixty million characters |
| Formatter.CompileText | rescompiler/textcompiler/src/tux64-textcompiler/tux64-textcompiler.c:259-309 | lexer and formatter together: for every file, the status of the parse, and for an accepted one with such slices the output is filled exactly with the strings that the slices cut out, and its definitions read back as these |
| Formatter.CharacterOfCode | rescompiler/textcompiler/src/tux64-textcompiler/formatter.c:160-185 | every text character has a code of its own |
| Formatter.TextIsRecovered | rescompiler/textcompiler/src/tux64-textcompiler/formatter.c:187-378 | the hexadecimal numbers in the generated source spell the text, and the length item gives its length |
| Formatter.StringsAreRead | rescompiler/textcompiler/src/tux64-textcompiler/formatter.c:359-378 | a reader that splits the output into definitions, each a name and its hexadecimal numbers, finds for each string, in order, its data name defined as the codes of its text and its length name as their number; names must be without blanks, newlines and backslashes |
| Formatter.CalculateOutputLength | rescompiler/textcompiler/src/tux64-textcompiler/formatter.c:67-158 | the length calculated beforehand is that of the output, modulo 32 bits |
| Formatter.GenerateStringBytes | rescompiler/textcompiler/src/tux64-textcompiler/formatter.c:282-320 | writes one line per character, the last with its own ending |
| Formatter.GenerateString | rescompiler/textcompiler/src/tux64-textcompiler/formatter.c:358-378 | writes the data item and the length item of one string behind what is there; which name is defined as what is said by `StringsAreRead` |
| Formatter.Generate | rescompiler/textcompiler/src/tux64-textcompiler/formatter.c:381-439 | the buffer of the calculated length is filled exactly, to the last character, and reading the definitions behind the prelude gives back the strings |
| Formatter.PrintedFilesAreFormatted | rescompiler/textcompiler/src/tux64-textcompiler/formatter.c:381-439 | a printed file of 1 to 33 entries can be formatted, and the formatter gets back exactly the strings as they were printed |
| MemoryMove.MovedAt | lib/src/tux64/memory.c:220-256 | after a move each byte in the target is the old source byte, and each other byte is unchanged |
| MemoryMove.Copy | lib/src/tux64/memory.c:80-100 | copies between ranges that must not overlap |
| MemoryMove.MoveLeftward | lib/src/tux64/memory.c:137-175 | moves to the left; the copy it ends with gets disjoint ranges |
| MemoryMove.MoveRightward | lib/src/tux64/memory.c:177-218 | moves to the right; the copy it ends with gets disjoint ranges |
| MemoryMove.Move | lib/src/tux64/memory.c:220-256 | moves between any two ranges as if all bytes were read before any is written, although the distance is cut to 32 bits |
| RomBuilder.AddUpIsExactIff | mkrom/src/tux64-mkrom/builder.c:268-300 | an accepted 32-bit sum of aligned sizes is the true sum exactly when no part alone exceeds the largest ROM |
| RomBuilder.MeasureIsExactIff | mkrom/src/tux64-mkrom/builder.c:234-308 | an accepted ROM is measured with its true size exactly when every file is at most as long as the largest ROM |
| RomBuilder.OverflowIsCaughtIff | mkrom/src/tux64-mkrom/builder.c:77-140 | for all lengths, the unwrapped aligned total fits in 32 bits, with a command line of at most 0xffff bytes, exactly when the checks pass and the lengths are tame: none within three of 2^32, and no wrap in adding the boot header |
| RomBuilder.TameIsJudgedRight | mkrom/src/tux64-mkrom/builder.c:77-140 | on tame lengths the status is Ok exactly when everything fits, and otherwise blames the first part that does not fit behind those in front of it: each status exactly its own part, and a command line is blamed on the initramfs |
| RomBuilder.OverflowEscapes | mkrom/src/tux64-mkrom/builder.c:77-140 | an accepted length of stage 1 near 2^32, which is then measured as if there were no stage 1, and an accepted length of stage 0 behind which the boot header wraps |
| RomBuilder.MeasureOverflow | mkrom/src/tux64-mkrom/builder.c:78-140 | passes, on tame lengths, exactly when everything fits in 32 bits; what it means on the others is said by `OverflowIsCaughtIff`, and whom it blames by `TameIsJudgedRight` |
| RomBuilder.MeasureAndVerify | mkrom/src/tux64-mkrom/builder.c:234-308 | reports the first part that makes the ROM too large, or its size; the checks of stage 0 have no effect; who is blamed is said by `TooLongIsBlamed` |
| RomBuilder.TooLongIsBlamed | mkrom/src/tux64-mkrom/builder.c:268-308 | of files no longer than the largest ROM by themselves, the status blames the first whose end, without wrapping, lies behind the largest ROM, and is Ok if there is none |
| RomBuilder.RomEndsBehindCommandLine | mkrom/src/tux64-mkrom/builder.c:257-303 | the size of an accepted ROM is the first multiple of sixteen behind its command line and one more character, or behind the files in front of a lone terminator |
| RomBuilder.Stage0IsNotChecked | mkrom/src/tux64-mkrom/builder.c:254-260 | neither the verdict nor the size of an accepted ROM changes when stage 0 or its CIC data become too long for their place (up to the largest ROM) |
| RomBuilder.WritesStayInsideIff | mkrom/src/tux64-mkrom/builder.c:262-266 | the command line is written inside the measured size unless it is a lone terminator and the ROM is otherwise full |
| RomBuilder.LoneTerminatorIsOutside | mkrom/src/tux64-mkrom/builder.c:262-266 | an accepted input whose terminator is written right behind the end |
| RomImage.ConstructStart | mkrom/src/tux64-mkrom/builder.c:311-363 | writes zeros, ROM header, stage 0, CIC data against the boot header, and the boot header, later ones over earlier ones; each in its place when stage 0 and CIC data fit |
| RomImage.Construct | mkrom/src/tux64-mkrom/builder.c:311-406 | writes each section at its offset over what is there; when stage 0 and CIC data fit, the image is the sections one behind the other, padded to words, with nothing but zeros elsewhere |
| RomImage.WrittenIsRom | mkrom/src/tux64-mkrom/builder.c:311-406 | when stage 0 and its CIC data fit, no write destroys another |
| RomImage.StartIsSafeIff | mkrom/src/tux64-mkrom/builder.c:254-260 | for given lengths, all writes stay inside and the image holds ROM header, stage 0, CIC data and boot header intact for all contents, exactly when stage 0 and CIC data together have at most 0xfc0 bytes |
| RomImage.LongStage0IsAccepted | mkrom/src/tux64-mkrom/builder.c:234-308 | an input that is measured and accepted, and whose stage 0 reaches into the boot header |
| RomImage.InitializeBootHeader | mkrom/src/tux64-mkrom/builder.c:167-227 | the offsets, added up apart from the writer, are where the writer puts the files; checksums are those of the contents |
| RomImage.CalculateChecksum | mkrom/src/tux64-mkrom/builder.c:149-165 | the stored value is the weighted sum that both stages check against |
| RomImage.HeaderSelectsFiles | mkrom/src/tux64-mkrom/builder.c:167-227 | each address and length of the header selects exactly that file in the image that is written, even if a long stage 0 or CIC data destroy each other; a lone terminator is left out |
| RomImage.BuiltRomMatches | boot/src/tux64-boot/stage1/file.c:81-102 | a boot from a built ROM finds every file on the cartridge with a matching checksum |
| RomImage.BuiltRomBoots | boot/src/tux64-boot/stage1/fsm.c:160-607 | builder, plan and protocol together: when any two files of the plan for a built ROM were placed by the same stage, or one is the kernel placed by stage 1, a kernel that is started finds in memory exactly the files that went into the ROM, those of stage 2 unless a transfer failed; the kernel itself is at the load address that the input asked for |
| Arguments.TrimIsExact | lib/src/tux64/string.c:102-151 | trimming takes off all whitespace at both ends and nothing else |
| Arguments.ConfigFile.NextLine | lib/src/tux64/arguments.c:66-107 | hands out the text up to the next newline and skips the newline |
| Arguments.LinesMakeTheFile | lib/src/tux64/arguments.c:66-107 | the lines hold no newlines, and joined by newlines they are the file, but for a newline at its end |
| Arguments.LineIsArgument | lib/src/tux64/arguments.c:109-146 | a line by itself is an argument without the whitespace around it, unless nothing is left or that begins with the comment prefix |
| Arguments.LinesAreArguments | lib/src/tux64/arguments.c:109-146 | the arguments of a file are those of its first line, then those of the rest |
| Arguments.ConfigFile.Next | lib/src/tux64/arguments.c:109-146 | hands out exactly the trimmed lines that are neither empty nor comments, in order |
| Arguments.SetRequired | lib/src/tux64/arguments.c:457-473 | sets the bit of one option and leaves those of all others |
| Arguments.CheckRequired | lib/src/tux64/arguments.c:292-360 | finds nothing missing exactly when all bits are set, and else the lowest option whose bit is not |
| Arguments.InitializerFitsIff | lib/src/tux64/arguments.c:270-288 | the initialiser writes no more bytes than the documented storage exactly when the number of options is no multiple of eight |
| Arguments.UseIsRead | lib/src/tux64/arguments.c:199-262 | an argument written as a prefix, a name without the split token, and perhaps a split token and a parameter gives up exactly that parameter, and the first option of that name, required ones first |
| Arguments.ParseAmountsTo | lib/src/tux64/arguments.c:411-721 | told without parsing: the outcome is Done exactly when the arguments are uses of options that these accept, each with its own parameter or, missing it, with the next argument if that has no prefix, and every required option is among them; it is Missing(i) exactly when i is the first required one that is not, and any other outcome exactly when the uses go up to an argument that fails in this way |
| Arguments.DigestArgument | lib/src/tux64/arguments.c:411-455 | a missing parameter is taken from the next argument unless that has a prefix |
| Arguments.ParseArgument | lib/src/tux64/arguments.c:502-686 | required options are searched before optional ones, and noted before their parser decides |
| Arguments.Parse | lib/src/tux64/arguments.c:688-721 | comes to the outcome that its arguments amount to, and to no other they could amount to |

## Left out

- Registers, memory-mapped I/O, caches, interrupts and assembly: a DMA transfer is an abstract copy that may fail; what a failed one leaves is arbitrary.
- Video, framebuffer console and logo rendering: only the decoding of the logo is modelled.
- File systems, logging, `main` functions, help texts, and option tables.
- Running out of memory: allocation of non-zero sizes always succeeds in the model. Resizing to zero bytes yields no storage; the model keeps the entries read so far as values, although the C code has freed them then.
- ArenaAllocator.Allocator.Alloc: the block table is a sequence with a capacity, not an array with a count. Pushing onto a full table, which the C code does not guard against, is excluded; the planner, with its three files and a capacity of three, never does it.
- ArenaAllocator.MisalignedEndEscapes: it leaves out the spaces whose last byte aligns past 2^32. There the scan of the C code wraps and may begin again below the space, without end; `AllocCorrectIffEndAligned` counts them as not correct.
- LoadProtocol.KernelStartsIntact: files are in place only where the plan does not put them on top of each other; the reserved but not loaded memory behind the kernel image is not part of the plan in the C code either.
- Fsm.Stage1Fsm.Execute: memory and transfers are sequences in the object's fields; a transfer of zero bytes, which the protocol never makes for a sound header, is outside the model.
- The header fields are numbers: the byte order and the layout of the boot header in the ROM are not modelled; addresses on the cartridge count from its start instead of from the base of its bus domain.
- Line and column numbers in the errors of the lexer.
- Logo.Decoder.DecompressColorTuple: words are those of a big-endian processor, as the console has; the other branch of the C code puts the same pixel first in memory.
- Encoder.EncodePixelTuple: the loops over the two pixels of a tuple are written out.
- Formatter.Generate: outputs of 4 GiB and more, where the calculated length wraps and the C code writes past its buffer, are excluded; files of up to sixty million characters never lead there (`LengthNeverWraps`). So are entries that are not clean, for which the C code reads outside the file or reaches a place marked as unreachable. The text that begins the output is a parameter. The generator for images, which writes bytes and colours in order, is not part of the model.
- RomImage.Construct: the output must have room for stage 0 and for the sections behind the boot header, and the CIC data must not begin in front of the image; otherwise the C code writes outside.
- Arguments.Parse: lists of required or of optional options must not be empty, because the loops over them begin without a test. Arguments come from a configuration file; the variant that reads `argv` only differs in its source. Option parsers are arbitrary functions of the parameter, without their effects.
- The ELF parser of the kernel, the SRAM dumper, the font compiler, and the wrappers around the C library.
