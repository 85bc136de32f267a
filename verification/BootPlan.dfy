/**
 Where the boot files go: the two heaps of boot/src/tux64-boot/stage1/memory.c and the
 placement functions of boot/src/tux64-boot/stage1/fsm.c.
 */
module BootPlan {
  import opened Arithmetic
  import opened ArenaAllocator

  datatype File = File(checksum: nat, addrCart: nat, length: nat)

  datatype Header = Header(kernel: File, addrLoad: nat, initramfs: File, commandLine: File, stage2: File)

  datatype FileId = Kernel | Initramfs | CommandLine

  // A set bit means that stage 1 loads the file.
  const STATUS_KERNEL: bv8 := 1
  const STATUS_INITRAMFS: bv8 := 2
  const STATUS_COMMAND_LINE: bv8 := 4
  const STATUS_CONCURRENT_WITH_STAGE1: bv8 := 7

  const ALIGNMENT_INITRAMFS: nat := 4096
  const ALIGNMENT_COMMAND_LINE: nat := 8

  function FlagOf(id: FileId): bv8 {
    match id
    case Kernel => STATUS_KERNEL
    case Initramfs => STATUS_INITRAMFS
    case CommandLine => STATUS_COMMAND_LINE
  }

  /** The load status: one flag for each boot file. */
  datatype Status = Status(kernel: bool, initramfs: bool, commandLine: bool) {
    predicate Has(id: FileId) {
      match id
      case Kernel => kernel
      case Initramfs => initramfs
      case CommandLine => commandLine
    }

    function With(id: FileId): Status {
      match id
      case Kernel => this.(kernel := true)
      case Initramfs => this.(initramfs := true)
      case CommandLine => this.(commandLine := true)
    }

    /** The byte that is stored and handed to stage 2. */
    function Mask(): bv8 {
      (if kernel then STATUS_KERNEL else 0)
      | (if initramfs then STATUS_INITRAMFS else 0)
      | (if commandLine then STATUS_COMMAND_LINE else 0)
    }
  }

  const NO_STATUS := Status(false, false, false)

  /** The byte behaves as the flags do: setting, testing one bit, and comparing with all bits. */
  lemma MaskIsFaithful(status: Status, id: FileId)
    ensures status.With(id).Mask() == status.Mask() | FlagOf(id)
    ensures status.Mask() & FlagOf(id) != 0 <==> status.Has(id)
    ensures status.Mask() == STATUS_CONCURRENT_WITH_STAGE1 <==> forall f: FileId :: status.Has(f)
    ensures NO_STATUS.Mask() == 0
  {
    assert (forall f: FileId :: status.Has(f)) <==> status.kernel && status.initramfs && status.commandLine by {
      if forall f: FileId :: status.Has(f) {
        assert status.Has(Kernel) && status.Has(Initramfs) && status.Has(CommandLine);
      }
    }
  }

  function FileOf(header: Header, id: FileId): File {
    match id
    case Kernel => header.kernel
    case Initramfs => header.initramfs
    case CommandLine => header.commandLine
  }

  function AlignmentFor(id: FileId): nat {
    match id
    case Kernel => 1
    case Initramfs => ALIGNMENT_INITRAMFS
    case CommandLine => ALIGNMENT_COMMAND_LINE
  }

  /** The two heaps end together; the stage-2 heap starts lower because stage 1 is gone by then. */
  datatype Layout = Layout(stage1Start: nat, stage2Start: nat, end: nat) {
    predicate Valid() {
      0 < stage2Start <= stage1Start < end < U32 && end % ALIGNMENT_INITRAMFS == 0
    }
  }

  /** Everything the placement functions read and write. */
  datatype Placement = Placement(stage1: seq<Block>, stage2: seq<Block>, status: Status,
                                 kernel: nat, initramfs: nat, commandLine: nat)
  {
    function AddressOf(id: FileId): nat {
      match id
      case Kernel => kernel
      case Initramfs => initramfs
      case CommandLine => commandLine
    }

    function WithAddress(id: FileId, address: nat): Placement {
      match id
      case Kernel => this.(kernel := address)
      case Initramfs => this.(initramfs := address)
      case CommandLine => this.(commandLine := address)
    }

    predicate LoadedByStage1(id: FileId) {
      status.Has(id)
    }

    ghost predicate Valid(layout: Layout) {
      && ValidBlocks(stage1, layout.stage1Start, layout.end)
      && ValidBlocks(stage2, layout.stage2Start, layout.end)
    }
  }

  /** A placement and whether the last file found room. */
  datatype Outcome = Outcome(placement: Placement, ok: bool)

  /** Both alignments in use divide every valid heap end. */
  lemma AlignmentsFit(layout: Layout, id: FileId)
    requires layout.Valid()
    ensures AlignmentFits(layout.end, AlignmentFor(id)) && layout.end % AlignmentFor(id) == 0
  {
    match id
    case Kernel =>
    case Initramfs =>
      AlignForwardIsLeast(layout.end - 1, ALIGNMENT_INITRAMFS);
    case CommandLine =>
      PagesAreDoubleWords(layout.end);
      AlignForwardIsLeast(layout.end - 1, ALIGNMENT_COMMAND_LINE);
  }

  lemma PagesAreDoubleWords(x: nat)
    requires x % ALIGNMENT_INITRAMFS == 0
    ensures x % ALIGNMENT_COMMAND_LINE == 0
  {
    assert x == ALIGNMENT_COMMAND_LINE * (512 * (x / ALIGNMENT_INITRAMFS));
  }

  // ----- The placement functions -----

  function PlaceKernel(p: Placement, layout: Layout, header: Header): Outcome {
    var address, bytes := header.addrLoad, header.kernel.length;
    var ok1 := InplaceAccepts(p.stage1, layout.stage1Start, layout.end, address, bytes);
    var ok2 := InplaceAccepts(p.stage2, layout.stage2Start, layout.end, address, bytes);
    Outcome(p.(stage1 := AfterInplace(p.stage1, layout.stage1Start, layout.end, address, bytes),
               stage2 := AfterInplace(p.stage2, layout.stage2Start, layout.end, address, bytes),
               status := if ok1 then p.status.With(Kernel) else p.status,
               kernel := address),
            ok1 || ok2)
  }

  /** A block list after an allocation returned `address`, which is zero when it failed. */
  function Push(blocks: seq<Block>, address: nat, bytes: nat): seq<Block> {
    if address == 0 then blocks else blocks + [Block(address, (address + bytes) % U32)]
  }

  /** Combines the answers of the two heaps: stage 1 is preferred. */
  function Record(p: Placement, id: FileId, bytes: nat, address1: nat, address2: nat): Outcome {
    var p' := p.(stage1 := Push(p.stage1, address1, bytes), stage2 := Push(p.stage2, address2, bytes));
    if address1 != 0 then Outcome(p'.(status := p.status.With(id)).WithAddress(id, address1), true)
    else if address2 != 0 then Outcome(p'.WithAddress(id, address2), true)
    else Outcome(p', false)
  }

  function Place(p: Placement, layout: Layout, id: FileId, bytes: nat): Outcome
    requires layout.Valid() && EndsBelow(p.stage1, layout.end) && EndsBelow(p.stage2, layout.end)
  {
    AlignmentsFit(layout, id);
    Record(p, id, bytes,
           AllocResult(p.stage1, layout.stage1Start, layout.end, bytes, AlignmentFor(id)),
           AllocResult(p.stage2, layout.stage2Start, layout.end, bytes, AlignmentFor(id)))
  }

  function PlaceOptional(p: Placement, layout: Layout, id: FileId, bytes: nat): Outcome
    requires layout.Valid() && EndsBelow(p.stage1, layout.end) && EndsBelow(p.stage2, layout.end)
  {
    if bytes == 0 then Outcome(p.(status := p.status.With(id)).WithAddress(id, 0), true)
    else Place(p, layout, id, bytes)
  }

  /** What the header promises about the files: the kernel is present and ends inside 32 bits. */
  predicate ValidHeader(header: Header) {
    && 0 < header.kernel.length && header.addrLoad + header.kernel.length < U32
    && header.initramfs.length < U32 && header.commandLine.length < U32
  }

  const NOTHING_PLACED := Placement([], [], NO_STATUS, 0, 0, 0)

  function PlaceBootFiles(layout: Layout, header: Header): Outcome
    requires layout.Valid() && ValidHeader(header)
  {
    PlaceKernelKeepsValid(NOTHING_PLACED, layout, header);
    var first := PlaceKernel(NOTHING_PLACED, layout, header);
    if !first.ok then first
    else
      PlaceOptionalKeepsValid(first.placement, layout, Initramfs, header.initramfs.length);
      var second := PlaceOptional(first.placement, layout, Initramfs, header.initramfs.length);
      if !second.ok then second
      else PlaceOptional(second.placement, layout, CommandLine, header.commandLine.length)
  }

  lemma PlaceKernelKeepsValid(p: Placement, layout: Layout, header: Header)
    requires layout.Valid() && ValidHeader(header) && p.Valid(layout)
    ensures PlaceKernel(p, layout, header).placement.Valid(layout)
  {
    InplaceAddsAtMostOneBlock(p.stage1, layout.stage1Start, layout.end, header.addrLoad, header.kernel.length);
    InplaceAddsAtMostOneBlock(p.stage2, layout.stage2Start, layout.end, header.addrLoad, header.kernel.length);
  }

  lemma PlaceOptionalKeepsValid(p: Placement, layout: Layout, id: FileId, bytes: nat)
    requires layout.Valid() && p.Valid(layout)
    ensures PlaceOptional(p, layout, id, bytes).placement.Valid(layout)
  {
    if bytes > 0 {
      AlignmentsFit(layout, id);
      AllocPushesValid(p.stage1, layout.stage1Start, layout.end, bytes, AlignmentFor(id));
      AllocPushesValid(p.stage2, layout.stage2Start, layout.end, bytes, AlignmentFor(id));
    }
  }

  lemma AllocPushesValid(blocks: seq<Block>, lo: nat, hi: nat, bytes: nat, alignment: nat)
    requires alignment > 0 && 0 < lo < hi < U32 && AlignmentFits(hi, alignment) && hi % alignment <= 1
    requires bytes > 0 && ValidBlocks(blocks, lo, hi)
    ensures var address := AllocResult(blocks, lo, hi, bytes, alignment);
            && AfterAlloc(blocks, lo, hi, bytes, alignment) == Push(blocks, address, bytes)
            && ValidBlocks(Push(blocks, address, bytes), lo, hi)
            && (address != 0 ==> address + bytes < U32)
  {
    AllocAddsAtMostOneBlock(blocks, lo, hi, bytes, alignment);
  }

  // ----- What a placement guarantees -----

  function StartOfHeap(p: Placement, layout: Layout, id: FileId): nat {
    if p.LoadedByStage1(id) then layout.stage1Start else layout.stage2Start
  }

  /** The blocks of the heap that a file's address was taken from. */
  function HeapOf(p: Placement, id: FileId): seq<Block> {
    if p.LoadedByStage1(id) then p.stage1 else p.stage2
  }

  ghost predicate Recorded(blocks: seq<Block>, address: nat, bytes: nat) {
    exists i :: 0 <= i < |blocks| && blocks[i].start == address && blocks[i].end == address + bytes
  }

  /** A file is placed: empty at address zero, or aligned and recorded in the heap that will load it. */
  ghost predicate IsPlaced(p: Placement, layout: Layout, header: Header, id: FileId) {
    var address, bytes := p.AddressOf(id), FileOf(header, id).length;
    if bytes == 0 then address == 0 && p.LoadedByStage1(id)
    else
      && StartOfHeap(p, layout, id) <= address && address + bytes <= layout.end
      && Aligned(address, AlignmentFor(id))
      && Recorded(HeapOf(p, id), address, bytes)
  }

  predicate Apart(a: nat, n: nat, b: nat, m: nat) {
    a + n <= b || b + m <= a
  }

  /** Both addresses come from one heap, or one file is the kernel, which stage 1 records in both. */
  predicate Comparable(p: Placement, f: FileId, g: FileId) {
    || p.LoadedByStage1(f) == p.LoadedByStage1(g)
    || (f == Kernel && p.LoadedByStage1(Kernel))
    || (g == Kernel && p.LoadedByStage1(Kernel))
  }

  ghost predicate AreApart(p: Placement, header: Header, f: FileId, g: FileId) {
    Comparable(p, f, g) && FileOf(header, f).length > 0 && FileOf(header, g).length > 0 ==>
      Apart(p.AddressOf(f), FileOf(header, f).length, p.AddressOf(g), FileOf(header, g).length)
  }

  lemma FreeRangeMissesRecorded(blocks: seq<Block>, address: nat, bytes: nat, from: nat, to: nat)
    requires Recorded(blocks, address, bytes) && RangeFree(blocks, from, to)
    ensures address + bytes <= from || to <= address
  {
  }

  /** The effect of placing one more file that stage 1 or stage 2 will load. */
  ghost predicate Step(p: Placement, p': Placement, layout: Layout, header: Header, id: FileId) {
    var address, bytes := p'.AddressOf(id), FileOf(header, id).length;
    && p.Valid(layout) && p'.Valid(layout)
    && p.stage1 <= p'.stage1 && p.stage2 <= p'.stage2
    && IsPlaced(p', layout, header, id)
    && (bytes > 0 ==> RangeFree(if p'.LoadedByStage1(id) then p.stage1 else p.stage2, address, address + bytes))
    && (forall other :: other != id ==> p'.AddressOf(other) == p.AddressOf(other))
    && (forall other :: other != id ==> p'.LoadedByStage1(other) == p.LoadedByStage1(other))
  }

  lemma PushServed(blocks: seq<Block>, lo: nat, hi: nat, bytes: nat, alignment: nat, address: nat)
    requires alignment > 0 && bytes > 0 && hi < U32 && ValidBlocks(blocks, lo, hi)
    requires address != 0 ==> Serves(blocks, lo, hi, bytes, alignment, address)
    ensures ValidBlocks(Push(blocks, address, bytes), lo, hi)
    ensures blocks <= Push(blocks, address, bytes)
    ensures address != 0 ==> Recorded(Push(blocks, address, bytes), address, bytes)
    ensures address != 0 ==>
              && lo <= address && address + bytes <= hi && Aligned(address, alignment)
              && RangeFree(blocks, address, address + bytes)
  {
    if address != 0 {
      assert (address + bytes) % U32 == address + bytes;
      PushKeepsValid(blocks, lo, hi, bytes, alignment, address);
      assert Push(blocks, address, bytes)[|blocks|] == Block(address, address + bytes);
    }
  }

  lemma RecordSteps(p: Placement, layout: Layout, header: Header, id: FileId, address1: nat, address2: nat)
    requires layout.Valid() && p.Valid(layout) && !p.LoadedByStage1(id) && FileOf(header, id).length > 0
    requires var bytes := FileOf(header, id).length;
             && (address1 != 0 ==> Serves(p.stage1, layout.stage1Start, layout.end, bytes, AlignmentFor(id), address1))
             && (address2 != 0 ==> Serves(p.stage2, layout.stage2Start, layout.end, bytes, AlignmentFor(id), address2))
             && Record(p, id, bytes, address1, address2).ok
    ensures Step(p, Record(p, id, FileOf(header, id).length, address1, address2).placement, layout, header, id)
  {
    hide Serves;
    hide ValidBlocks;
    hide Recorded;
    hide RangeFree;
    hide Aligned;
    var bytes := FileOf(header, id).length;
    PushServed(p.stage1, layout.stage1Start, layout.end, bytes, AlignmentFor(id), address1);
    PushServed(p.stage2, layout.stage2Start, layout.end, bytes, AlignmentFor(id), address2);
    var p' := Record(p, id, bytes, address1, address2).placement;
    assert p'.Valid(layout);
    assert IsPlaced(p', layout, header, id);
  }

  lemma PlaceOptionalSteps(p: Placement, p': Placement, layout: Layout, header: Header, id: FileId)
    requires layout.Valid() && p.Valid(layout) && id != Kernel && !p.LoadedByStage1(id)
    requires PlaceOptional(p, layout, id, FileOf(header, id).length) == Outcome(p', true)
    ensures Step(p, p', layout, header, id)
  {
    var bytes, alignment := FileOf(header, id).length, AlignmentFor(id);
    if bytes > 0 {
      AlignmentsFit(layout, id);
      AllocAddsAtMostOneBlock(p.stage1, layout.stage1Start, layout.end, bytes, alignment);
      AllocAddsAtMostOneBlock(p.stage2, layout.stage2Start, layout.end, bytes, alignment);
      RecordSteps(p, layout, header, id,
                  AllocResult(p.stage1, layout.stage1Start, layout.end, bytes, alignment),
                  AllocResult(p.stage2, layout.stage2Start, layout.end, bytes, alignment));
    }
  }

  lemma PlaceKernelIsPlaced(layout: Layout, header: Header)
    requires layout.Valid() && ValidHeader(header)
    requires PlaceKernel(NOTHING_PLACED, layout, header).ok
    ensures var p := PlaceKernel(NOTHING_PLACED, layout, header).placement;
            && p.Valid(layout)
            && p.kernel == header.addrLoad
            && IsPlaced(p, layout, header, Kernel)
            && Recorded(p.stage2, p.kernel, header.kernel.length)
            && !p.LoadedByStage1(Initramfs) && !p.LoadedByStage1(CommandLine)
  {
    var address, bytes := header.addrLoad, header.kernel.length;
    PlaceKernelKeepsValid(NOTHING_PLACED, layout, header);
    InplaceAddsAtMostOneBlock([], layout.stage1Start, layout.end, address, bytes);
    InplaceAddsAtMostOneBlock([], layout.stage2Start, layout.end, address, bytes);
    if InplaceAccepts([], layout.stage1Start, layout.end, address, bytes) {
      assert InplaceAccepts([], layout.stage2Start, layout.end, address, bytes);
    }
    var p := PlaceKernel(NOTHING_PLACED, layout, header).placement;
    assert p.stage2[0] == Block(address, address + bytes);
    assert p.LoadedByStage1(Kernel) ==> p.stage1[0] == Block(address, address + bytes);
  }

  /** Placing one more file keeps every earlier file placed and apart from the new one. */
  lemma StepKeepsFilesApart(p: Placement, p': Placement, layout: Layout, header: Header, earlier: FileId, id: FileId)
    requires Step(p, p', layout, header, id) && earlier != id && id != Kernel
    requires IsPlaced(p, layout, header, earlier)
    requires earlier == Kernel ==> Recorded(p.stage2, p.kernel, header.kernel.length)
    ensures IsPlaced(p', layout, header, earlier) && AreApart(p', header, earlier, id)
    ensures earlier == Kernel ==> Recorded(p'.stage2, p'.kernel, header.kernel.length)
  {
    StepLeavesOthers(p, p', layout, header, id, earlier);
    var a, n := p'.AddressOf(id), FileOf(header, id).length;
    var b, m := p.AddressOf(earlier), FileOf(header, earlier).length;
    if n > 0 && m > 0 && Comparable(p', earlier, id) {
      var heap := if p'.LoadedByStage1(id) then p.stage1 else p.stage2;
      FreeRangeMissesRecorded(heap, b, m, a, a + n);
    }
  }

  /**
   When placement succeeds, the kernel is at its load address, every file lies aligned inside
   the heap that will load it, and files whose addresses come from one heap never overlap.
   */
  lemma PlanIsSafe(layout: Layout, header: Header)
    requires layout.Valid() && ValidHeader(header)
    requires PlaceBootFiles(layout, header).ok
    ensures var p := PlaceBootFiles(layout, header).placement;
            && p.kernel == header.addrLoad
            && (forall id: FileId :: IsPlaced(p, layout, header, id))
            && (forall f: FileId, g: FileId :: f != g ==> AreApart(p, header, f, g))
  {
    var p1, p2 := PlanSteps(layout, header);
    TwoStepsAreSafe(p1, p2, PlaceBootFiles(layout, header).placement, layout, header);
  }

  /** A successful plan is the kernel's placement followed by two steps. */
  lemma PlanSteps(layout: Layout, header: Header) returns (p1: Placement, p2: Placement)
    requires layout.Valid() && ValidHeader(header)
    requires PlaceBootFiles(layout, header).ok
    ensures p1.kernel == header.addrLoad && IsPlaced(p1, layout, header, Kernel)
    ensures Recorded(p1.stage2, p1.kernel, header.kernel.length)
    ensures Step(p1, p2, layout, header, Initramfs)
    ensures Step(p2, PlaceBootFiles(layout, header).placement, layout, header, CommandLine)
  {
    p1, p2 := PlanUnfolds(layout, header);
    PlaceKernelIsPlaced(layout, header);
    PlaceOptionalSteps(p1, p2, layout, header, Initramfs);
    StepLeavesOthers(p1, p2, layout, header, Initramfs, CommandLine);
    PlaceOptionalSteps(p2, PlaceBootFiles(layout, header).placement, layout, header, CommandLine);
  }

  lemma StepLeavesOthers(p: Placement, p': Placement, layout: Layout, header: Header, id: FileId, other: FileId)
    requires Step(p, p', layout, header, id) && other != id
    ensures p'.AddressOf(other) == p.AddressOf(other)
    ensures p'.LoadedByStage1(other) == p.LoadedByStage1(other)
  {
  }

  lemma PlanUnfolds(layout: Layout, header: Header) returns (p1: Placement, p2: Placement)
    requires layout.Valid() && ValidHeader(header)
    requires PlaceBootFiles(layout, header).ok
    ensures p1.Valid(layout) && p2.Valid(layout)
    ensures PlaceKernel(NOTHING_PLACED, layout, header) == Outcome(p1, true)
    ensures PlaceOptional(p1, layout, Initramfs, header.initramfs.length) == Outcome(p2, true)
    ensures PlaceOptional(p2, layout, CommandLine, header.commandLine.length) == PlaceBootFiles(layout, header)
  {
    PlaceKernelKeepsValid(NOTHING_PLACED, layout, header);
    p1 := PlaceKernel(NOTHING_PLACED, layout, header).placement;
    PlaceOptionalKeepsValid(p1, layout, Initramfs, header.initramfs.length);
    p2 := PlaceOptional(p1, layout, Initramfs, header.initramfs.length).placement;
  }

  lemma TwoStepsAreSafe(p1: Placement, p2: Placement, p: Placement, layout: Layout, header: Header)
    requires IsPlaced(p1, layout, header, Kernel)
    requires Recorded(p1.stage2, p1.kernel, header.kernel.length)
    requires Step(p1, p2, layout, header, Initramfs) && Step(p2, p, layout, header, CommandLine)
    ensures p.kernel == p1.kernel
    ensures forall id: FileId :: IsPlaced(p, layout, header, id)
    ensures forall f: FileId, g: FileId :: f != g ==> AreApart(p, header, f, g)
  {
    StepKeepsFilesApart(p1, p2, layout, header, Kernel, Initramfs);
    StepKeepsFilesApart(p2, p, layout, header, Kernel, CommandLine);
    StepKeepsFilesApart(p2, p, layout, header, Initramfs, CommandLine);
    StepLeavesOthers(p1, p2, layout, header, Initramfs, Kernel);
    StepLeavesOthers(p2, p, layout, header, CommandLine, Kernel);
    StepLeavesOthers(p2, p, layout, header, CommandLine, Initramfs);
    ApartIsSymmetric(p, header);
    forall id: FileId ensures IsPlaced(p, layout, header, id) {
      match id case Kernel => case Initramfs => case CommandLine =>
    }
  }

  lemma ApartIsSymmetric(p: Placement, header: Header)
    requires AreApart(p, header, Kernel, Initramfs)
    requires AreApart(p, header, Kernel, CommandLine)
    requires AreApart(p, header, Initramfs, CommandLine)
    ensures forall f: FileId, g: FileId :: f != g ==> AreApart(p, header, f, g)
  {
    forall f: FileId, g: FileId | f != g ensures AreApart(p, header, f, g) {
      match (f, g)
      case (Initramfs, Kernel) => assert AreApart(p, header, g, f);
      case (CommandLine, Kernel) => assert AreApart(p, header, g, f);
      case (CommandLine, Initramfs) => assert AreApart(p, header, g, f);
      case _ =>
    }
  }

  /** No two non-empty files overlap. */
  ghost predicate AllFilesApart(p: Placement, header: Header) {
    forall f: FileId, g: FileId ::
      f != g && FileOf(header, f).length > 0 && FileOf(header, g).length > 0 ==>
        Apart(p.AddressOf(f), FileOf(header, f).length, p.AddressOf(g), FileOf(header, g).length)
  }

  /** Any two non-empty files can be told apart by one heap. */
  predicate Unmixed(p: Placement, header: Header) {
    forall f: FileId, g: FileId ::
      f != g && FileOf(header, f).length > 0 && FileOf(header, g).length > 0 ==> Comparable(p, f, g)
  }

  /**
   If no heap is asked about a file that the other one placed, all files are pairwise disjoint.
   That is so when stage 1 loads everything, nothing, or the kernel alone.
   */
  lemma UnmixedPlanIsDisjoint(layout: Layout, header: Header)
    requires layout.Valid() && ValidHeader(header)
    requires PlaceBootFiles(layout, header).ok
    requires Unmixed(PlaceBootFiles(layout, header).placement, header)
    ensures AllFilesApart(PlaceBootFiles(layout, header).placement, header)
  {
    hide PlaceBootFiles;
    PlanIsSafe(layout, header);
    var p := PlaceBootFiles(layout, header).placement;
    forall f: FileId, g: FileId | f != g && FileOf(header, f).length > 0 && FileOf(header, g).length > 0
      ensures Apart(p.AddressOf(f), FileOf(header, f).length, p.AddressOf(g), FileOf(header, g).length)
    {
      assert AreApart(p, header, f, g);
    }
  }

  // ----- When every successful plan is disjoint -----

  /** An empty heap serves a request from its first aligned address on, or not at all. */
  lemma EmptyHeapServes(lo: nat, hi: nat, bytes: nat, alignment: nat)
    requires alignment > 0 && 0 < lo < hi < U32 && AlignmentFits(hi, alignment) && hi % alignment <= 1
    ensures var first := AlignForward(lo, alignment);
            && first <= hi
            && AllocResult([], lo, hi, bytes, alignment) == if first + bytes <= hi then first else 0
  {
    var first := AlignForward(lo, alignment);
    AlignBelow(lo, hi, alignment);
    AlignStaysInside(lo, hi, alignment);
    assert FreeSpaceStart([], hi, lo, alignment) == first;
    assert FreeSpaceEnd([], hi, first) == hi;
    ConsiderWithoutWrap(Gap(0, 0), first, hi, bytes);
  }

  /** The kernel overlaps no other file of a plan. */
  ghost predicate KernelApartIn(p: Placement, header: Header) {
    forall id: FileId :: id != Kernel && FileOf(header, id).length > 0 ==>
      Apart(header.addrLoad, header.kernel.length, p.AddressOf(id), FileOf(header, id).length)
  }

  /** Whatever the other files are, a kernel that finds room overlaps none of them. */
  ghost predicate KernelIsApart(layout: Layout, addrLoad: nat, length: nat)
    requires layout.Valid()
  {
    forall header: Header ::
      && ValidHeader(header) && header.addrLoad == addrLoad && header.kernel.length == length
      && PlaceBootFiles(layout, header).ok
      ==> KernelApartIn(PlaceBootFiles(layout, header).placement, header)
  }

  /** The lowest address at which stage 1 can put an initramfs or a command line. */
  function FirstDoubleWord(layout: Layout): nat {
    AlignForward(layout.stage1Start, ALIGNMENT_COMMAND_LINE)
  }

  /** A kernel, a command line of one byte, and nothing else. */
  function TinyCommandLine(addrLoad: nat, length: nat): Header {
    Header(File(0, 0, length), addrLoad, File(0, 0, 0), File(0, length, 1), File(0, length + 1, 1))
  }

  /** A kernel below the stage-1 heap is unknown to it: the first free byte may lie inside the kernel. */
  lemma TinyCommandLineOverlaps(layout: Layout, addrLoad: nat, length: nat)
    requires layout.Valid() && layout.stage2Start <= addrLoad < layout.stage1Start
    requires FirstDoubleWord(layout) < addrLoad + length <= layout.end
    ensures ValidHeader(TinyCommandLine(addrLoad, length))
    ensures PlaceBootFiles(layout, TinyCommandLine(addrLoad, length)).ok
    ensures var p := PlaceBootFiles(layout, TinyCommandLine(addrLoad, length)).placement;
            addrLoad < p.commandLine == FirstDoubleWord(layout) < addrLoad + length
  {
    var header := TinyCommandLine(addrLoad, length);
    AlignForwardIsLeast(layout.stage1Start, ALIGNMENT_COMMAND_LINE);
    InplaceAddsAtMostOneBlock([], layout.stage1Start, layout.end, addrLoad, length);
    InplaceAddsAtMostOneBlock([], layout.stage2Start, layout.end, addrLoad, length);
    var first := PlaceKernel(NOTHING_PLACED, layout, header);
    PlaceKernelKeepsValid(NOTHING_PLACED, layout, header);
    assert first.ok && first.placement.stage1 == [];
    PlaceOptionalKeepsValid(first.placement, layout, Initramfs, 0);
    var second := PlaceOptional(first.placement, layout, Initramfs, 0);
    assert second.ok && second.placement.stage1 == [];
    AlignmentsFit(layout, CommandLine);
    EmptyHeapServes(layout.stage1Start, layout.end, 1, ALIGNMENT_COMMAND_LINE);
    assert PlaceBootFiles(layout, header) == PlaceOptional(second.placement, layout, CommandLine, 1);
  }

  /** Stage 1 puts no optional file below its first double word. */
  lemma Stage1FilesAreHigh(p: Placement, layout: Layout, header: Header, id: FileId)
    requires layout.Valid() && id != Kernel && FileOf(header, id).length > 0
    requires IsPlaced(p, layout, header, id) && p.LoadedByStage1(id)
    ensures FirstDoubleWord(layout) <= p.AddressOf(id)
  {
    var address := p.AddressOf(id);
    if id == Initramfs {
      PagesAreDoubleWords(address);
    }
    AlignForwardIsLeast(layout.stage1Start, ALIGNMENT_COMMAND_LINE);
    assert Aligned(address, ALIGNMENT_COMMAND_LINE);
  }

  /**
   A kernel is apart from the other files for every choice of these exactly when it finds no
   room at all, is inside the stage-1 heap, or ends below the first double word of that heap.
   */
  lemma KernelIsApartIff(layout: Layout, addrLoad: nat, length: nat)
    requires layout.Valid() && 0 < length && addrLoad + length < U32
    ensures KernelIsApart(layout, addrLoad, length) <==>
            || addrLoad < layout.stage2Start || layout.end < addrLoad + length
            || layout.stage1Start <= addrLoad || addrLoad + length <= FirstDoubleWord(layout)
  {
    hide PlaceBootFiles;
    if layout.stage2Start <= addrLoad < layout.stage1Start && FirstDoubleWord(layout) < addrLoad + length <= layout.end
    {
      TinyCommandLineOverlaps(layout, addrLoad, length);
      var header := TinyCommandLine(addrLoad, length);
      assert FileOf(header, CommandLine).length == 1;
      var p := PlaceBootFiles(layout, header).placement;
      assert !Apart(addrLoad, length, p.AddressOf(CommandLine), 1);
    } else {
      forall header: Header |
        && ValidHeader(header) && header.addrLoad == addrLoad && header.kernel.length == length
        && PlaceBootFiles(layout, header).ok
        ensures KernelApartIn(PlaceBootFiles(layout, header).placement, header)
      {
        forall id: FileId | id != Kernel && FileOf(header, id).length > 0
          ensures Apart(addrLoad, length,
                        PlaceBootFiles(layout, header).placement.AddressOf(id), FileOf(header, id).length)
        {
          KernelMisses(layout, header, id);
        }
      }
    }
  }

  lemma KernelMisses(layout: Layout, header: Header, id: FileId)
    requires layout.Valid() && ValidHeader(header) && id != Kernel && FileOf(header, id).length > 0
    requires PlaceBootFiles(layout, header).ok
    requires header.addrLoad + header.kernel.length <= layout.end ==>
               || header.addrLoad < layout.stage2Start || layout.stage1Start <= header.addrLoad
               || header.addrLoad + header.kernel.length <= FirstDoubleWord(layout)
    ensures Apart(header.addrLoad, header.kernel.length,
                  PlaceBootFiles(layout, header).placement.AddressOf(id), FileOf(header, id).length)
  {
    hide PlaceBootFiles;
    PlanIsSafe(layout, header);
    KernelBitIff(layout, header);
    KernelApartFromIff(layout, header, id);
    var p := PlaceBootFiles(layout, header).placement;
    if p.LoadedByStage1(id) {
      Stage1FilesAreHigh(p, layout, header, id);
    }
  }

  /** Only a file that stage 1 loads above a kernel it knows nothing of can overlap the kernel. */
  lemma KernelApartFromIff(layout: Layout, header: Header, id: FileId)
    requires layout.Valid() && ValidHeader(header) && PlaceBootFiles(layout, header).ok
    requires id != Kernel && FileOf(header, id).length > 0
    ensures var p := PlaceBootFiles(layout, header).placement;
            Apart(header.addrLoad, header.kernel.length, p.AddressOf(id), FileOf(header, id).length) <==>
            || layout.stage1Start <= header.addrLoad || !p.LoadedByStage1(id)
            || header.addrLoad + header.kernel.length <= p.AddressOf(id)
  {
    hide PlaceBootFiles;
    PlanIsSafe(layout, header);
    KernelBitIff(layout, header);
    var p := PlaceBootFiles(layout, header).placement;
    assert AreApart(p, header, Kernel, id) && IsPlaced(p, layout, header, id);
  }

  /** Stage 1 loads the kernel exactly when the kernel is inside its heap. */
  lemma KernelBitIff(layout: Layout, header: Header)
    requires layout.Valid() && ValidHeader(header) && PlaceBootFiles(layout, header).ok
    ensures layout.stage2Start <= header.addrLoad && header.addrLoad + header.kernel.length <= layout.end
    ensures PlaceBootFiles(layout, header).placement.LoadedByStage1(Kernel) <==> layout.stage1Start <= header.addrLoad
  {
    var address, bytes := header.addrLoad, header.kernel.length;
    InplaceAddsAtMostOneBlock([], layout.stage1Start, layout.end, address, bytes);
    InplaceAddsAtMostOneBlock([], layout.stage2Start, layout.end, address, bytes);
    var p1, p2 := PlanUnfolds(layout, header);
    assert p1.LoadedByStage1(Kernel) <==> InplaceAccepts([], layout.stage1Start, layout.end, address, bytes);
    OptionalKeepsKernelBit(p1, layout, Initramfs, header.initramfs.length);
    OptionalKeepsKernelBit(p2, layout, CommandLine, header.commandLine.length);
  }

  lemma OptionalKeepsKernelBit(p: Placement, layout: Layout, id: FileId, bytes: nat)
    requires layout.Valid() && p.Valid(layout) && id != Kernel
    ensures PlaceOptional(p, layout, id, bytes).placement.LoadedByStage1(Kernel) == p.LoadedByStage1(Kernel)
  {
  }

  /** Two equal heaps answer alike, and stage 1 is preferred. */
  lemma EqualHeapsStayEqual(p: Placement, p': Placement, layout: Layout, id: FileId, bytes: nat)
    requires layout.Valid() && p.Valid(layout) && layout.stage1Start == layout.stage2Start && p.stage1 == p.stage2
    requires PlaceOptional(p, layout, id, bytes) == Outcome(p', true)
    ensures p'.stage1 == p'.stage2 && p'.status == p.status.With(id)
  {
  }

  lemma EqualHeapsTakeKernel(layout: Layout, header: Header)
    requires layout.stage1Start == layout.stage2Start && PlaceKernel(NOTHING_PLACED, layout, header).ok
    ensures var p := PlaceKernel(NOTHING_PLACED, layout, header).placement;
            p.stage1 == p.stage2 && p.status == NO_STATUS.With(Kernel)
  {
  }

  lemma EqualHeapsLoadAll(layout: Layout, header: Header, id: FileId)
    requires layout.Valid() && ValidHeader(header) && PlaceBootFiles(layout, header).ok
    requires layout.stage1Start == layout.stage2Start
    ensures PlaceBootFiles(layout, header).placement.LoadedByStage1(id)
  {
    hide PlaceBootFiles;
    hide PlaceOptional;
    var p1, p2 := PlanUnfolds(layout, header);
    EqualHeapsTakeKernel(layout, header);
    hide PlaceKernel;
    EqualHeapsStayEqual(p1, p2, layout, Initramfs, header.initramfs.length);
    EqualHeapsStayEqual(p2, PlaceBootFiles(layout, header).placement, layout, CommandLine, header.commandLine.length);
    match id case Kernel => case Initramfs => case CommandLine =>
  }

  /**
   For every memory map: all successful plans are free of overlaps exactly when the two heaps
   begin together, or the stage-1 heap has no room for any file but the kernel.
   */
  lemma PlanIsDisjointIff(layout: Layout)
    requires layout.Valid()
    ensures (forall header: Header ::
               ValidHeader(header) && PlaceBootFiles(layout, header).ok ==>
                 AllFilesApart(PlaceBootFiles(layout, header).placement, header))
       <==> layout.stage1Start == layout.stage2Start || layout.end <= FirstDoubleWord(layout)
  {
    hide PlaceBootFiles;
    if layout.stage1Start == layout.stage2Start || layout.end <= FirstDoubleWord(layout) {
      forall header: Header | ValidHeader(header) && PlaceBootFiles(layout, header).ok
        ensures AllFilesApart(PlaceBootFiles(layout, header).placement, header)
      {
        OneHeapServes(layout, header);
        UnmixedPlanIsDisjoint(layout, header);
      }
    } else {
      AlignForwardIsLeast(layout.stage1Start, ALIGNMENT_COMMAND_LINE);
      TinyIsOverlapping(layout, layout.stage2Start, FirstDoubleWord(layout) + 1 - layout.stage2Start);
    }
  }

  lemma OneHeapServes(layout: Layout, header: Header)
    requires layout.Valid() && ValidHeader(header) && PlaceBootFiles(layout, header).ok
    requires layout.stage1Start == layout.stage2Start || layout.end <= FirstDoubleWord(layout)
    ensures Unmixed(PlaceBootFiles(layout, header).placement, header)
  {
    hide PlaceBootFiles;
    var p := PlaceBootFiles(layout, header).placement;
    PlanIsSafe(layout, header);
    forall id: FileId | id != Kernel && FileOf(header, id).length > 0
      ensures p.LoadedByStage1(id) <==> layout.stage1Start == layout.stage2Start
    {
      if layout.stage1Start == layout.stage2Start {
        EqualHeapsLoadAll(layout, header, id);
      } else if p.LoadedByStage1(id) {
        Stage1FilesAreHigh(p, layout, header, id);
      }
    }
    if layout.stage1Start == layout.stage2Start {
      EqualHeapsLoadAll(layout, header, Kernel);
    }
  }

  /** A file is turned away exactly when no address of either heap can hold it. */
  lemma PlaceFailsIffNoRoom(p: Placement, layout: Layout, id: FileId, bytes: nat)
    requires layout.Valid() && p.Valid(layout)
    ensures !PlaceOptional(p, layout, id, bytes).ok <==>
            bytes > 0 && forall a: nat ::
              && !Serves(p.stage1, layout.stage1Start, layout.end, bytes, AlignmentFor(id), a)
              && !Serves(p.stage2, layout.stage2Start, layout.end, bytes, AlignmentFor(id), a)
  {
    if bytes > 0 {
      AlignmentsFit(layout, id);
      AllocIsBestFit(p.stage1, layout.stage1Start, layout.end, bytes, AlignmentFor(id));
      AllocIsBestFit(p.stage2, layout.stage2Start, layout.end, bytes, AlignmentFor(id));
    }
  }

  lemma TinyIsOverlapping(layout: Layout, addrLoad: nat, length: nat)
    requires layout.Valid() && layout.stage2Start <= addrLoad < layout.stage1Start
    requires FirstDoubleWord(layout) < addrLoad + length <= layout.end
    ensures var header := TinyCommandLine(addrLoad, length);
            && ValidHeader(header) && PlaceBootFiles(layout, header).ok
            && !AllFilesApart(PlaceBootFiles(layout, header).placement, header)
  {
    hide PlaceBootFiles;
    TinyCommandLineOverlaps(layout, addrLoad, length);
    var header := TinyCommandLine(addrLoad, length);
    PlanIsSafe(layout, header);
    assert FileOf(header, Kernel).length == length && FileOf(header, CommandLine).length == 1;
    var p := PlaceBootFiles(layout, header).placement;
    assert !Apart(p.AddressOf(Kernel), length, p.AddressOf(CommandLine), 1);
  }

  /** Only the load address and the lengths go into a plan. */
  lemma PlanIgnoresFiles(layout: Layout, header: Header, other: Header)
    requires layout.Valid() && ValidHeader(header) && header.addrLoad == other.addrLoad
    requires header.kernel.length == other.kernel.length && header.initramfs.length == other.initramfs.length
    requires header.commandLine.length == other.commandLine.length
    ensures ValidHeader(other) && PlaceBootFiles(layout, other) == PlaceBootFiles(layout, header)
  {
  }

  // ----- The whole plan in closed form -----

  /** What the kernel takes of a heap: its blocks when the initramfs comes to be placed. */
  function KernelBlocks(start: nat, end: nat, header: Header): seq<Block> {
    var address, bytes := header.addrLoad, header.kernel.length;
    if start <= address && address + bytes <= end then [Block(address, address + bytes)] else []
  }

  /** Where a heap has room for an optional file, by one pass over its blocks; zero if it has none. */
  function RoomFor(blocks: seq<Block>, start: nat, end: nat, bytes: nat, alignment: nat): nat
    requires alignment > 0
  {
    if bytes == 0 then 0 else OnePass(Sorted(blocks), start, end, bytes, alignment, Gap(0, 0)).start
  }

  function InitramfsIn(start: nat, end: nat, header: Header): nat {
    RoomFor(KernelBlocks(start, end, header), start, end, header.initramfs.length, ALIGNMENT_INITRAMFS)
  }

  function BlocksWithInitramfs(start: nat, end: nat, header: Header): seq<Block> {
    Push(KernelBlocks(start, end, header), InitramfsIn(start, end, header), header.initramfs.length)
  }

  function CommandLineIn(start: nat, end: nat, header: Header): nat {
    RoomFor(BlocksWithInitramfs(start, end, header), start, end, header.commandLine.length, ALIGNMENT_COMMAND_LINE)
  }

  /** Each heap by itself, as if the other one did not exist. */
  function RoomIn(start: nat, end: nat, header: Header, id: FileId): nat
    requires id != Kernel
  {
    if id == Initramfs then InitramfsIn(start, end, header) else CommandLineIn(start, end, header)
  }

  /** An optional file is placed like this: by the first heap that has room, or not at all. */
  ghost predicate PlacedByRoom(p: Placement, layout: Layout, header: Header, id: FileId)
    requires id != Kernel
  {
    var room1 := RoomIn(layout.stage1Start, layout.end, header, id);
    var room2 := RoomIn(layout.stage2Start, layout.end, header, id);
    FileOf(header, id).length > 0 ==>
      && (p.LoadedByStage1(id) <==> room1 != 0)
      && p.AddressOf(id) == if room1 != 0 then room1 else room2
  }

  predicate HasRoom(layout: Layout, header: Header, id: FileId)
    requires id != Kernel
  {
    FileOf(header, id).length > 0 ==>
      RoomIn(layout.stage1Start, layout.end, header, id) != 0 || RoomIn(layout.stage2Start, layout.end, header, id) != 0
  }

  /** One optional file: asking both heaps is asking each for room, and success is room in either. */
  lemma OptionalByRoom(p: Placement, layout: Layout, id: FileId, bytes: nat, room1: nat, room2: nat)
    requires layout.Valid() && p.Valid(layout) && id != Kernel && !p.LoadedByStage1(id)
    requires room1 == RoomFor(p.stage1, layout.stage1Start, layout.end, bytes, AlignmentFor(id))
    requires room2 == RoomFor(p.stage2, layout.stage2Start, layout.end, bytes, AlignmentFor(id))
    ensures var o := PlaceOptional(p, layout, id, bytes);
            && (o.ok <==> bytes > 0 ==> room1 != 0 || room2 != 0)
            && o.placement.stage1 == Push(p.stage1, room1, bytes) && o.placement.stage2 == Push(p.stage2, room2, bytes)
            && (forall other :: other != id ==> o.placement.AddressOf(other) == p.AddressOf(other))
            && (forall other :: other != id ==> o.placement.LoadedByStage1(other) == p.LoadedByStage1(other))
            && (o.ok && bytes > 0 ==>
                  && (o.placement.LoadedByStage1(id) <==> room1 != 0)
                  && o.placement.AddressOf(id) == if room1 != 0 then room1 else room2)
  {
    hide OnePass;
    hide Sorted;
    hide ValidBlocks;
    if bytes > 0 {
      AlignmentsFit(layout, id);
      AllocIsOnePass(p.stage1, layout.stage1Start, layout.end, bytes, AlignmentFor(id));
      AllocIsOnePass(p.stage2, layout.stage2Start, layout.end, bytes, AlignmentFor(id));
      hide AllocResult;
    }
  }

  lemma KernelByRoom(layout: Layout, header: Header)
    requires layout.Valid() && ValidHeader(header)
    ensures var o := PlaceKernel(NOTHING_PLACED, layout, header);
            && (o.ok <==> layout.stage2Start <= header.addrLoad
                          && header.addrLoad + header.kernel.length <= layout.end)
            && o.placement.Valid(layout)
            && o.placement.stage1 == KernelBlocks(layout.stage1Start, layout.end, header)
            && o.placement.stage2 == KernelBlocks(layout.stage2Start, layout.end, header)
            && !o.placement.LoadedByStage1(Initramfs) && !o.placement.LoadedByStage1(CommandLine)
            && (o.ok ==> (o.placement.LoadedByStage1(Kernel) <==> layout.stage1Start <= header.addrLoad))
  {
    PlaceKernelKeepsValid(NOTHING_PLACED, layout, header);
    InplaceAddsAtMostOneBlock([], layout.stage1Start, layout.end, header.addrLoad, header.kernel.length);
    InplaceAddsAtMostOneBlock([], layout.stage2Start, layout.end, header.addrLoad, header.kernel.length);
  }

  /**
   The planner in closed form: the two heaps answer independently of each other, each by one pass
   over its blocks for each file; the plan succeeds exactly when every file has room in one of them.
   */
  lemma PlanInClosedForm(layout: Layout, header: Header)
    requires layout.Valid() && ValidHeader(header)
    ensures var o := PlaceBootFiles(layout, header);
            && (o.ok <==> layout.stage2Start <= header.addrLoad
                          && header.addrLoad + header.kernel.length <= layout.end
                          && HasRoom(layout, header, Initramfs) && HasRoom(layout, header, CommandLine))
            && (o.ok ==>
                  && (o.placement.LoadedByStage1(Kernel) <==> layout.stage1Start <= header.addrLoad)
                  && PlacedByRoom(o.placement, layout, header, Initramfs)
                  && PlacedByRoom(o.placement, layout, header, CommandLine))
  {
    hide RoomFor;
    hide PlaceKernel;
    hide PlaceOptional;
    hide KernelBlocks;
    hide Push;
    KernelByRoom(layout, header);
    var p1 := PlaceKernel(NOTHING_PLACED, layout, header).placement;
    PlaceOptionalKeepsValid(p1, layout, Initramfs, header.initramfs.length);
    OptionalByRoom(p1, layout, Initramfs, header.initramfs.length,
                   InitramfsIn(layout.stage1Start, layout.end, header),
                   InitramfsIn(layout.stage2Start, layout.end, header));
    var p2 := PlaceOptional(p1, layout, Initramfs, header.initramfs.length).placement;
    OptionalByRoom(p2, layout, CommandLine, header.commandLine.length,
                   CommandLineIn(layout.stage1Start, layout.end, header),
                   CommandLineIn(layout.stage2Start, layout.end, header));
  }

  /** Only a file that stage 1 puts above a kernel it knows nothing of can overlap the kernel. */
  predicate KernelStaysApart(layout: Layout, header: Header) {
    var end := header.addrLoad + header.kernel.length;
    var initramfs := InitramfsIn(layout.stage1Start, layout.end, header);
    var commandLine := CommandLineIn(layout.stage1Start, layout.end, header);
    layout.stage1Start <= header.addrLoad
    || ((initramfs != 0 ==> end <= initramfs) && (commandLine != 0 ==> end <= commandLine))
  }

  /** Initramfs and command line overlap only if one is left to stage 2 and the other is not. */
  predicate OptionalsStayApart(layout: Layout, header: Header) {
    var initramfs1 := InitramfsIn(layout.stage1Start, layout.end, header);
    var initramfs2 := InitramfsIn(layout.stage2Start, layout.end, header);
    var commandLine1 := CommandLineIn(layout.stage1Start, layout.end, header);
    var commandLine2 := CommandLineIn(layout.stage2Start, layout.end, header);
    var i, c := header.initramfs.length, header.commandLine.length;
    && (i > 0 && c > 0 && initramfs1 == 0 && commandLine1 != 0 ==> Apart(initramfs2, i, commandLine1, c))
    && (i > 0 && c > 0 && initramfs1 != 0 && commandLine1 == 0 ==> Apart(initramfs1, i, commandLine2, c))
  }

  /**
   For one header with a successful plan, in terms of load address, lengths and heap bounds alone: no
   files overlap exactly when the kernel is inside the stage-1 heap or ends below what stage 1 puts there
   in ignorance of it, and initramfs and command line are not mixed in a way that makes them overlap.
   */
  lemma PlanIsApartIff(layout: Layout, header: Header)
    requires layout.Valid() && ValidHeader(header) && PlaceBootFiles(layout, header).ok
    ensures AllFilesApart(PlaceBootFiles(layout, header).placement, header) <==>
            KernelStaysApart(layout, header) && OptionalsStayApart(layout, header)
  {
    hide *;
    KernelStaysApartIff(layout, header);
    OptionalsStayApartIff(layout, header);
    AllFilesApartIff(layout, header);
  }

  predicate OptionalsApartIn(p: Placement, header: Header) {
    header.initramfs.length > 0 && header.commandLine.length > 0 ==>
      Apart(p.initramfs, header.initramfs.length, p.commandLine, header.commandLine.length)
  }

  lemma AllFilesApartIff(layout: Layout, header: Header)
    requires layout.Valid() && ValidHeader(header) && PlaceBootFiles(layout, header).ok
    ensures var p := PlaceBootFiles(layout, header).placement;
            AllFilesApart(p, header) <==> KernelApartIn(p, header) && OptionalsApartIn(p, header)
  {
    PlanIsSafe(layout, header);
    hide *;
    ThreePairs(PlaceBootFiles(layout, header).placement, header);
  }

  /** Of three files, all are apart if the kernel is from both others and these are from each other. */
  lemma ThreePairs(p: Placement, header: Header)
    requires p.kernel == header.addrLoad && header.kernel.length > 0
    ensures AllFilesApart(p, header) <==> KernelApartIn(p, header) && OptionalsApartIn(p, header)
  {
    assert p.AddressOf(Kernel) == header.addrLoad && FileOf(header, Kernel) == header.kernel;
    assert p.AddressOf(Initramfs) == p.initramfs && FileOf(header, Initramfs) == header.initramfs;
    assert p.AddressOf(CommandLine) == p.commandLine && FileOf(header, CommandLine) == header.commandLine;
  }

  lemma KernelStaysApartIff(layout: Layout, header: Header)
    requires layout.Valid() && ValidHeader(header) && PlaceBootFiles(layout, header).ok
    ensures KernelStaysApart(layout, header) <==> KernelApartIn(PlaceBootFiles(layout, header).placement, header)
  {
    hide PlaceBootFiles;
    hide InitramfsIn;
    hide CommandLineIn;
    hide Apart;
    PlanInClosedForm(layout, header);
    NoRoomForNothing(layout.stage1Start, layout.end, header);
    var p := PlaceBootFiles(layout, header).placement;
    forall id: FileId | id != Kernel && FileOf(header, id).length > 0
      ensures Apart(header.addrLoad, header.kernel.length, p.AddressOf(id), FileOf(header, id).length) <==>
              || layout.stage1Start <= header.addrLoad || !p.LoadedByStage1(id)
              || header.addrLoad + header.kernel.length <= p.AddressOf(id)
    {
      KernelApartFromIff(layout, header, id);
    }
    assert FileOf(header, Initramfs) == header.initramfs && FileOf(header, CommandLine) == header.commandLine;
    assert p.AddressOf(Initramfs) == p.initramfs && p.AddressOf(CommandLine) == p.commandLine;
  }

  lemma NoRoomForNothing(start: nat, end: nat, header: Header)
    ensures header.initramfs.length == 0 ==> InitramfsIn(start, end, header) == 0
    ensures header.commandLine.length == 0 ==> CommandLineIn(start, end, header) == 0
  {
  }

  lemma OptionalsStayApartIff(layout: Layout, header: Header)
    requires layout.Valid() && ValidHeader(header) && PlaceBootFiles(layout, header).ok
    ensures OptionalsStayApart(layout, header) <==> OptionalsApartIn(PlaceBootFiles(layout, header).placement, header)
  {
    hide PlaceBootFiles;
    hide InitramfsIn;
    hide CommandLineIn;
    hide Apart;
    PlanInClosedForm(layout, header);
    PlanIsSafe(layout, header);
    var p := PlaceBootFiles(layout, header).placement;
    assert FileOf(header, Initramfs) == header.initramfs && FileOf(header, CommandLine) == header.commandLine;
    assert p.AddressOf(Initramfs) == p.initramfs && p.AddressOf(CommandLine) == p.commandLine;
    assert AreApart(p, header, Initramfs, CommandLine);
  }

  // ----- Mixed plans can overlap -----

  const MIXED_LAYOUT := Layout(0x80100000, 0x80004000, 0x80400000)

  /** The initramfs is too long for the stage-1 heap, the command line is not. */
  const MIXED_HEADER :=
    Header(File(0, 0x1000, 0x200000), 0x80200000, File(0, 0x201000, 0x180000), File(0, 0x381000, 8),
           File(0, 0x381008, 8))

  /** The initramfs fills the stage-1 heap, and there is no room left for the command line. */
  const REVERSE_HEADER :=
    Header(File(0, 0x1000, 0x80000), 0x80380000, File(0, 0x81000, 0x280000), File(0, 0x301000, 8),
           File(0, 0x301008, 8))

  lemma AlignedConstants()
    ensures AlignForward(0x80004000, 4096) == AlignForward(0x80004000, 8) == 0x80004000
    ensures AlignForward(0x80100000, 4096) == AlignForward(0x80100000, 8) == 0x80100000
    ensures AlignForward(0x80400000, 4096) == AlignForward(0x80400000, 8) == 0x80400000
    ensures AlignForward(0x80184000, 8) == 0x80184000 && AlignForward(0x80284000, 8) == 0x80284000
    ensures AlignForward(0x80380000, 8) == 0x80380000
  {
  }

  /** One stretch in front of a block that reaches to the end of the heap. */
  lemma OneHighBlock(lo: nat, hi: nat, taken: nat, bytes: nat, alignment: nat)
    requires alignment > 0 && 0 < lo < taken < hi && bytes > 0
    requires AlignForward(lo, alignment) == lo && AlignForward(hi, alignment) == hi
    ensures RoomFor([Block(taken, hi)], lo, hi, bytes, alignment) == if taken - lo >= bytes then lo else 0
  {
    hide AlignForward;
    var block := Block(taken, hi);
    assert Sorted([block]) == [block];
    OnePassOver([block], lo, hi, bytes, alignment, Gap(0, 0));
    OnePassOver([], hi, hi, bytes, alignment, Better(Gap(0, 0), lo, taken, bytes));
    assert [block][1..] == [];
  }

  /** The same with the front of the heap taken as well. */
  lemma LowAndHighBlock(lo: nat, hi: nat, used: nat, taken: nat, bytes: nat, alignment: nat)
    requires alignment > 0 && 0 < lo < used <= taken < hi && bytes > 0
    requires AlignForward(lo, alignment) == lo && AlignForward(hi, alignment) == hi
    requires AlignForward(used, alignment) == used
    ensures RoomFor([Block(taken, hi), Block(lo, used)], lo, hi, bytes, alignment)
         == if taken - used >= bytes then used else 0
  {
    hide AlignForward;
    var low, high := Block(lo, used), Block(taken, hi);
    SortsTwo(low, high);
    OnePassOver([low, high], lo, hi, bytes, alignment, Gap(0, 0));
    OnePassOver([high], used, hi, bytes, alignment, Gap(0, 0));
    OnePassOver([], hi, hi, bytes, alignment, Better(Gap(0, 0), used, taken, bytes));
    assert [low, high][1..] == [high] && [high][1..] == [];
  }

  lemma SortsTwo(low: Block, high: Block)
    requires low.start < high.start
    ensures Sorted([high, low]) == [low, high]
  {
    assert [high, low][..1] == [high] && [high][..0] == [];
    assert Sorted([high]) == Insert(high, []);
    assert Sorted([high, low]) == Insert(low, [high]);
  }

  lemma OnePassOver(sorted: seq<Block>, lo: nat, hi: nat, bytes: nat, alignment: nat, best: Gap)
    requires alignment > 0
    ensures var from := AlignForward(lo, alignment);
            OnePass(sorted, lo, hi, bytes, alignment, best)
            == if sorted == [] then Better(best, from, hi, bytes)
                else OnePass(sorted[1..], sorted[0].end, hi, bytes, alignment,
                             Better(best, from, sorted[0].start, bytes))
  {
  }

  lemma MixedRooms()
    ensures InitramfsIn(0x80100000, 0x80400000, MIXED_HEADER) == 0
    ensures InitramfsIn(0x80004000, 0x80400000, MIXED_HEADER) == 0x80004000
    ensures CommandLineIn(0x80100000, 0x80400000, MIXED_HEADER) == 0x80100000
  {
    hide RoomFor;
    hide AlignForward;
    AlignedConstants();
    OneHighBlock(0x80100000, 0x80400000, 0x80200000, 0x180000, 4096);
    OneHighBlock(0x80004000, 0x80400000, 0x80200000, 0x180000, 4096);
    OneHighBlock(0x80100000, 0x80400000, 0x80200000, 8, 8);
  }

  lemma ReverseRooms()
    ensures InitramfsIn(0x80100000, 0x80400000, REVERSE_HEADER) == 0x80100000
    ensures InitramfsIn(0x80004000, 0x80400000, REVERSE_HEADER) == 0x80004000
    ensures CommandLineIn(0x80100000, 0x80400000, REVERSE_HEADER) == 0
    ensures CommandLineIn(0x80004000, 0x80400000, REVERSE_HEADER) == 0x80284000
  {
    hide RoomFor;
    hide AlignForward;
    AlignedConstants();
    OneHighBlock(0x80100000, 0x80400000, 0x80380000, 0x280000, 4096);
    OneHighBlock(0x80004000, 0x80400000, 0x80380000, 0x280000, 4096);
    LowAndHighBlock(0x80100000, 0x80400000, 0x80380000, 0x80380000, 8, 8);
    LowAndHighBlock(0x80004000, 0x80400000, 0x80284000, 0x80380000, 8, 8);
    assert BlocksWithInitramfs(0x80100000, 0x80400000, REVERSE_HEADER)
        == [Block(0x80380000, 0x80400000), Block(0x80100000, 0x80380000)];
    assert BlocksWithInitramfs(0x80004000, 0x80400000, REVERSE_HEADER)
        == [Block(0x80380000, 0x80400000), Block(0x80004000, 0x80284000)];
  }

  /**
   Stage 1 takes the command line from its heap while stage 2 takes the initramfs from the
   other; the heaps have drifted apart, and the command line lands inside the initramfs.
   */
  lemma MixedPlanOverlaps()
    ensures MIXED_LAYOUT.Valid() && ValidHeader(MIXED_HEADER)
    ensures KernelStaysApart(MIXED_LAYOUT, MIXED_HEADER) && !OptionalsStayApart(MIXED_LAYOUT, MIXED_HEADER)
    ensures var p := PlaceBootFiles(MIXED_LAYOUT, MIXED_HEADER).placement;
            && PlaceBootFiles(MIXED_LAYOUT, MIXED_HEADER).ok
            && p.LoadedByStage1(Kernel) && !p.LoadedByStage1(Initramfs) && p.LoadedByStage1(CommandLine)
            && p.initramfs == 0x80004000 && p.commandLine == 0x80100000 && p.initramfs <= p.commandLine
            && p.commandLine + MIXED_HEADER.commandLine.length <= p.initramfs + MIXED_HEADER.initramfs.length
  {
    hide PlaceBootFiles;
    hide InitramfsIn;
    hide CommandLineIn;
    MixedRooms();
    PlanInClosedForm(MIXED_LAYOUT, MIXED_HEADER);
    var p := PlaceBootFiles(MIXED_LAYOUT, MIXED_HEADER).placement;
    assert p.AddressOf(Initramfs) == p.initramfs && p.AddressOf(CommandLine) == p.commandLine;
    assert HasRoom(MIXED_LAYOUT, MIXED_HEADER, Initramfs) && HasRoom(MIXED_LAYOUT, MIXED_HEADER, CommandLine);
  }

  /** The other way round: stage 2 puts the command line inside the initramfs that stage 1 loads. */
  lemma ReversePlanOverlaps()
    ensures ValidHeader(REVERSE_HEADER)
    ensures KernelStaysApart(MIXED_LAYOUT, REVERSE_HEADER) && !OptionalsStayApart(MIXED_LAYOUT, REVERSE_HEADER)
    ensures var p := PlaceBootFiles(MIXED_LAYOUT, REVERSE_HEADER).placement;
            && PlaceBootFiles(MIXED_LAYOUT, REVERSE_HEADER).ok
            && p.LoadedByStage1(Kernel) && p.LoadedByStage1(Initramfs) && !p.LoadedByStage1(CommandLine)
            && p.initramfs == 0x80100000 && p.commandLine == 0x80284000
  {
    hide PlaceBootFiles;
    hide InitramfsIn;
    hide CommandLineIn;
    ReverseRooms();
    PlanInClosedForm(MIXED_LAYOUT, REVERSE_HEADER);
    var p := PlaceBootFiles(MIXED_LAYOUT, REVERSE_HEADER).placement;
    assert p.AddressOf(Initramfs) == p.initramfs && p.AddressOf(CommandLine) == p.commandLine;
    assert HasRoom(MIXED_LAYOUT, REVERSE_HEADER, Initramfs) && HasRoom(MIXED_LAYOUT, REVERSE_HEADER, CommandLine);
  }

  // ----- The heaps and the planner as objects -----

  class Memory {
    var total: nat
    var free: nat
    const stage1: Allocator
    const stage2: Allocator
    ghost const initialFree: nat

    ghost predicate Valid()
      reads this, stage1, stage2
    {
      && stage1 != stage2
      && stage1.Valid() && stage2.Valid()
      && free == Minus32(initialFree, TotalBytes(stage1.blocks))
    }

    constructor (memoryTotal: nat, memoryFree: nat, layout: Layout)
      requires layout.Valid() && memoryFree < U32
      ensures Valid() && fresh(stage1) && fresh(stage2)
      ensures total == memoryTotal && free == memoryFree == initialFree
      ensures stage1.addressSpaceStart == layout.stage1Start && stage1.addressSpaceEnd == layout.end
      ensures stage2.addressSpaceStart == layout.stage2Start && stage2.addressSpaceEnd == layout.end
      ensures stage1.blocks == [] && stage2.blocks == []
      ensures stage1.capacity == 3 && stage2.capacity == 3
    {
      total, free := memoryTotal, memoryFree;
      initialFree := memoryFree;
      stage1 := new Allocator(layout.stage1Start, layout.end, 3);
      stage2 := new Allocator(layout.stage2Start, layout.end, 3);
    }

    /** The free statistic never wraps: it is the initial figure less the stage-1 blocks. */
    lemma FreeAccountsForStage1()
      requires Valid()
      requires stage1.addressSpaceEnd - stage1.addressSpaceStart <= initialFree < U32
      ensures free == initialFree - TotalBytes(stage1.blocks) >= 0
    {
      TotalBytesFit(stage1.blocks, stage1.addressSpaceStart, stage1.addressSpaceEnd);
    }

    /** Takes a block that stage 1 has just pushed off the free statistic. */
    method Charge(ghost before: seq<Block>, ghost address: nat, bytes: nat)
      requires stage1 != stage2 && stage1.Valid() && stage2.Valid()
      requires address != 0 && address + bytes < U32 && stage1.blocks == Push(before, address, bytes)
      requires free == Minus32(initialFree, TotalBytes(before))
      modifies this`free
      ensures Valid() && free == Minus32(old(free), bytes)
    {
      PushIsCharged(initialFree, before, address, bytes);
      free := Minus32(free, bytes);
    }

    method Stage1AllocInplace(address: nat, bytes: nat) returns (ok: bool)
      requires Valid() && |stage1.blocks| < stage1.capacity
      requires 0 < bytes && address + bytes < U32
      modifies this`free, stage1
      ensures Valid()
      ensures ok <==> InplaceAccepts(old(stage1.blocks), stage1.addressSpaceStart, stage1.addressSpaceEnd, address,
              bytes)
      ensures stage1.blocks ==
              AfterInplace(old(stage1.blocks), stage1.addressSpaceStart, stage1.addressSpaceEnd, address, bytes)
      ensures free == if ok then Minus32(old(free), bytes) else old(free)
    {
      ghost var before := stage1.blocks;
      InplaceAddsAtMostOneBlock(before, stage1.addressSpaceStart, stage1.addressSpaceEnd, address, bytes);
      ok := stage1.AllocInplace(address, bytes);
      if ok {
        Charge(before, address, bytes);
      }
    }

    method Stage1Alloc(bytes: nat, alignment: nat) returns (address: nat)
      requires Valid() && |stage1.blocks| < stage1.capacity
      requires 0 < bytes && 0 < alignment && AlignmentFits(stage1.addressSpaceEnd, alignment)
      requires stage1.addressSpaceEnd % alignment <= 1
      modifies this`free, stage1
      ensures Valid()
      ensures address == AllocResult(old(stage1.blocks), stage1.addressSpaceStart, stage1.addressSpaceEnd, bytes,
              alignment)
      ensures stage1.blocks == Push(old(stage1.blocks), address, bytes)
      ensures free == if address != 0 then Minus32(old(free), bytes) else old(free)
    {
      ghost var before := stage1.blocks;
      AllocPushesValid(before, stage1.addressSpaceStart, stage1.addressSpaceEnd, bytes, alignment);
      address := stage1.Alloc(bytes, alignment);
      if address != 0 {
        Charge(before, address, bytes);
      }
    }

    method Stage2AllocInplace(address: nat, bytes: nat) returns (ok: bool)
      requires Valid() && |stage2.blocks| < stage2.capacity
      requires 0 < bytes && address + bytes < U32
      modifies stage2
      ensures Valid()
      ensures ok <==> InplaceAccepts(old(stage2.blocks), stage2.addressSpaceStart, stage2.addressSpaceEnd, address,
              bytes)
      ensures stage2.blocks ==
              AfterInplace(old(stage2.blocks), stage2.addressSpaceStart, stage2.addressSpaceEnd, address, bytes)
    {
      ok := stage2.AllocInplace(address, bytes);
    }

    method Stage2Alloc(bytes: nat, alignment: nat) returns (address: nat)
      requires Valid() && |stage2.blocks| < stage2.capacity
      requires 0 < bytes && 0 < alignment && AlignmentFits(stage2.addressSpaceEnd, alignment)
      requires stage2.addressSpaceEnd % alignment <= 1
      modifies stage2
      ensures Valid()
      ensures address == AllocResult(old(stage2.blocks), stage2.addressSpaceStart, stage2.addressSpaceEnd, bytes,
              alignment)
      ensures stage2.blocks == Push(old(stage2.blocks), address, bytes)
    {
      AllocPushesValid(stage2.blocks, stage2.addressSpaceStart, stage2.addressSpaceEnd, bytes, alignment);
      address := stage2.Alloc(bytes, alignment);
    }
  }

  lemma PushIsCharged(initialFree: nat, before: seq<Block>, address: nat, bytes: nat)
    requires address != 0 && address + bytes < U32
    ensures Minus32(Minus32(initialFree, TotalBytes(before)), bytes) == Minus32(initialFree, TotalBytes(Push(before,
            address, bytes)))
  {
    var block := Block(address, address + bytes);
    assert (before + [block])[..|before|] == before;
    assert TotalBytes(before + [block]) == TotalBytes(before) + bytes;
    Minus32Twice(initialFree, TotalBytes(before), bytes);
  }

  lemma Minus32Twice(a: int, b: int, c: int)
    ensures Minus32(Minus32(a, b), c) == Minus32(a, b + c)
  {
  }

  class Planner {
    const memory: Memory
    var status: Status
    var kernel: nat
    var initramfs: nat
    var commandLine: nat

    ghost predicate Valid(layout: Layout)
      reads this, memory, memory.stage1, memory.stage2
    {
      && layout.Valid() && memory.Valid()
      && memory.stage1.addressSpaceStart == layout.stage1Start && memory.stage1.addressSpaceEnd == layout.end
      && memory.stage2.addressSpaceStart == layout.stage2Start && memory.stage2.addressSpaceEnd == layout.end
    }

    predicate HasRoomFor(count: nat)
      reads this, memory, memory.stage1, memory.stage2
    {
      && |memory.stage1.blocks| + count <= memory.stage1.capacity
      && |memory.stage2.blocks| + count <= memory.stage2.capacity
    }

    ghost function Snapshot(layout: Layout): (p: Placement)
      requires Valid(layout)
      reads this, memory, memory.stage1, memory.stage2
      ensures p.Valid(layout)
    {
      Placement(memory.stage1.blocks, memory.stage2.blocks, status, kernel, initramfs, commandLine)
    }

    constructor (memory: Memory)
      ensures this.memory == memory && status == NO_STATUS && kernel == 0 && initramfs == 0 && commandLine == 0
    {
      this.memory := memory;
      status, kernel, initramfs, commandLine := NO_STATUS, 0, 0, 0;
    }

    method SetAddress(id: FileId, address: nat)
      modifies this
      ensures status == old(status)
      ensures kernel == (if id == Kernel then address else old(kernel))
      ensures initramfs == (if id == Initramfs then address else old(initramfs))
      ensures commandLine == (if id == CommandLine then address else old(commandLine))
    {
      match id
      case Kernel => kernel := address;
      case Initramfs => initramfs := address;
      case CommandLine => commandLine := address;
    }

    method AllocateKernel(ghost layout: Layout, header: Header) returns (ok: bool)
      requires Valid(layout) && ValidHeader(header) && HasRoomFor(1)
      modifies this, memory`free, memory.stage1, memory.stage2
      ensures Valid(layout)
      ensures Outcome(Snapshot(layout), ok) == PlaceKernel(old(Snapshot(layout)), layout, header)
      ensures |memory.stage1.blocks| <= old(|memory.stage1.blocks|) + 1
      ensures |memory.stage2.blocks| <= old(|memory.stage2.blocks|) + 1
    {
      ok := false;
      var ok1 := memory.Stage1AllocInplace(header.addrLoad, header.kernel.length);
      if ok1 {
        ok := true;
        status := status.With(Kernel);
      }
      var ok2 := memory.Stage2AllocInplace(header.addrLoad, header.kernel.length);
      if ok2 {
        ok := true;
      }
      kernel := header.addrLoad;
    }

    /** Keeps the answer of the heap that is preferred; the placement fields are all it touches. */
    method Keep(ghost before: Placement, ghost layout: Layout, id: FileId, ghost bytes: nat, address1: nat,
                address2: nat)
      returns (ok: bool)
      requires Valid(layout)
      requires memory.stage1.blocks == Push(before.stage1, address1, bytes)
      requires memory.stage2.blocks == Push(before.stage2, address2, bytes)
      requires before.status == status && before.kernel == kernel
      requires before.initramfs == initramfs && before.commandLine == commandLine
      modifies this
      ensures Valid(layout)
      ensures Outcome(Snapshot(layout), ok) == Record(before, id, bytes, address1, address2)
    {
      if address1 != 0 {
        status := status.With(id);
        SetAddress(id, address1);
        return true;
      }
      if address2 != 0 {
        SetAddress(id, address2);
        return true;
      }
      return false;
    }

    method AllocateNonEmpty(ghost layout: Layout, id: FileId, bytes: nat) returns (ok: bool)
      requires Valid(layout) && HasRoomFor(1) && bytes != 0
      modifies this, memory`free, memory.stage1, memory.stage2
      ensures Valid(layout)
      ensures Outcome(Snapshot(layout), ok) == Place(old(Snapshot(layout)), layout, id, bytes)
      ensures |memory.stage1.blocks| <= old(|memory.stage1.blocks|) + 1
      ensures |memory.stage2.blocks| <= old(|memory.stage2.blocks|) + 1
    {
      AlignmentsFit(layout, id);
      ghost var before := Snapshot(layout);
      var address1 := memory.Stage1Alloc(bytes, AlignmentFor(id));
      var address2 := memory.Stage2Alloc(bytes, AlignmentFor(id));
      ok := Keep(before, layout, id, bytes, address1, address2);
    }

    method AllocateOptional(ghost layout: Layout, id: FileId, bytes: nat) returns (ok: bool)
      requires Valid(layout) && HasRoomFor(1)
      modifies this, memory`free, memory.stage1, memory.stage2
      ensures Valid(layout)
      ensures Outcome(Snapshot(layout), ok) == PlaceOptional(old(Snapshot(layout)), layout, id, bytes)
      ensures |memory.stage1.blocks| <= old(|memory.stage1.blocks|) + 1
      ensures |memory.stage2.blocks| <= old(|memory.stage2.blocks|) + 1
    {
      if bytes == 0 {
        status := status.With(id);
        SetAddress(id, 0);
        return true;
      }
      ok := AllocateNonEmpty(layout, id, bytes);
    }

    method AllocateBootFiles(ghost layout: Layout, header: Header) returns (ok: bool)
      requires Valid(layout) && ValidHeader(header) && HasRoomFor(3)
      requires Snapshot(layout) == NOTHING_PLACED
      modifies this, memory`free, memory.stage1, memory.stage2
      ensures Valid(layout)
      ensures Outcome(Snapshot(layout), ok) == PlaceBootFiles(layout, header)
    {
      ok := AllocateKernel(layout, header);
      if !ok {
        return;
      }
      ok := AllocateOptional(layout, Initramfs, header.initramfs.length);
      if !ok {
        return;
      }
      ok := AllocateOptional(layout, CommandLine, header.commandLine.length);
    }
  }
}
