/**
 The push-only best-fit allocator of the stage-1 bootloader
 (boot/src/tux64-boot/stage1/arena-allocator.c).

 The first half defines the search as functions on a sequence of blocks and proves
 what the search finds; the class at the end performs the same search in place.
 */
module ArenaAllocator {
  import opened Arithmetic

  datatype Block = Block(start: nat, end: nat)

  /** A free stretch of memory; `start == 0` means that none has been chosen yet. */
  datatype Gap = Gap(start: nat, end: nat)

  // ----- What an address space and its blocks mean -----

  predicate Covers(block: Block, address: int) {
    block.start <= address < block.end
  }

  ghost predicate FreeAt(blocks: seq<Block>, address: int) {
    forall i :: 0 <= i < |blocks| ==> !Covers(blocks[i], address)
  }

  /** No block has a byte in `[from, to)`. */
  ghost predicate RangeFree(blocks: seq<Block>, from: int, to: int) {
    forall i :: 0 <= i < |blocks| ==> blocks[i].end <= from || to <= blocks[i].start
  }

  predicate DisjointBlocks(a: Block, b: Block) {
    a.end <= b.start || b.end <= a.start
  }

  ghost predicate ValidBlocks(blocks: seq<Block>, lo: nat, hi: nat) {
    && (forall i :: 0 <= i < |blocks| ==> lo <= blocks[i].start < blocks[i].end <= hi)
    && (forall i, j :: 0 <= i < j < |blocks| ==> DisjointBlocks(blocks[i], blocks[j]))
  }

  /** Aligning any address below `hi` forward stays inside 32 bits. */
  predicate AlignmentFits(hi: nat, alignment: nat)
    requires alignment > 0
  {
    hi > 0 ==> AlignForward(hi - 1, alignment) < U32
  }

  /** A request of `bytes` bytes can be served at `address`. */
  ghost predicate Serves(blocks: seq<Block>, lo: nat, hi: nat, bytes: nat, alignment: nat, address: nat)
    requires alignment > 0
  {
    && lo <= address
    && address + bytes <= hi
    && Aligned(address, alignment)
    && RangeFree(blocks, address, address + bytes)
  }

  /** `[from, to)` is a maximal free stretch that begins at its first aligned address. */
  ghost predicate IsGap(blocks: seq<Block>, lo: nat, hi: nat, alignment: nat, from: nat, to: nat)
    requires alignment > 0
  {
    && lo <= from < to <= hi
    && Aligned(from, alignment)
    && RangeFree(blocks, from, to)
    && (to == hi || !FreeAt(blocks, to))
    && forall a: nat :: lo <= a < from && Aligned(a, alignment) ==> !RangeFree(blocks, a, from)
  }

  /** The gap `[from, to)` is preferred to `[from', to')`: smaller, or as small and lower. */
  predicate Preferred(from: nat, to: nat, from': nat, to': nat) {
    to - from < to' - from' || (to - from == to' - from' && from <= from')
  }

  ghost predicate BestFit(blocks: seq<Block>, lo: nat, hi: nat, bytes: nat, alignment: nat, from: nat, to: nat)
    requires alignment > 0
  {
    && IsGap(blocks, lo, hi, alignment, from, to)
    && to - from >= bytes
    && forall from': nat, to': nat ::
         IsGap(blocks, lo, hi, alignment, from', to') && to' - from' >= bytes ==> Preferred(from, to, from', to')
  }

  // ----- The search, as functions -----

  /** Index of the first block that covers the address, or the number of blocks. */
  function FirstCovering(blocks: seq<Block>, address: nat): (i: nat)
    ensures i <= |blocks|
    ensures i < |blocks| ==> Covers(blocks[i], address)
    ensures forall k :: 0 <= k < i ==> !Covers(blocks[k], address)
  {
    if blocks == [] then 0
    else if Covers(blocks[0], address) then 0
    else
      var i := 1 + FirstCovering(blocks[1..], address);
      assert forall k :: 1 <= k < i ==> blocks[k] == blocks[1..][k - 1];
      i
  }

  predicate EndsBelow(blocks: seq<Block>, hi: nat) {
    forall i :: 0 <= i < |blocks| ==> blocks[i].end <= hi
  }

  lemma AlignBelow(base: nat, hi: nat, alignment: nat)
    requires alignment > 0 && base < hi && AlignmentFits(hi, alignment)
    ensures AlignForward32(base, alignment) == AlignForward(base, alignment) >= base
  {
    AlignForwardIsLeast(base, alignment);
    AlignForwardIsLeast(hi - 1, alignment);
  }

  function FreeSpaceStart(blocks: seq<Block>, hi: nat, base: nat, alignment: nat): nat
    requires alignment > 0 && base < hi && AlignmentFits(hi, alignment) && EndsBelow(blocks, hi)
    decreases hi - base
  {
    var address := AlignForward32(base, alignment);
    var i := FirstCovering(blocks, address);
    if i == |blocks| then address
    else if blocks[i].end == hi then hi
    else
      AlignBelow(base, hi, alignment);
      FreeSpaceStart(blocks, hi, blocks[i].end, alignment)
  }

  function FreeSpaceEnd(blocks: seq<Block>, hi: nat, from: nat): nat {
    if blocks == [] then hi
    else
      var last := blocks[|blocks| - 1];
      var end := FreeSpaceEnd(blocks[..|blocks| - 1], hi, from);
      if from < last.start < end then last.start else end
  }

  function Consider(best: Gap, from: nat, to: nat, bytes: nat): Gap {
    var size := Minus32(to, from);
    if size >= bytes && (best.start == 0 || size < Minus32(best.end, best.start)) then Gap(from, to) else best
  }

  function Scan(blocks: seq<Block>, hi: nat, base: nat, bytes: nat, alignment: nat, best: Gap): Gap
    requires alignment > 0 && base < hi && AlignmentFits(hi, alignment) && EndsBelow(blocks, hi)
    decreases hi - base
  {
    var from := FreeSpaceStart(blocks, hi, base, alignment);
    var to := FreeSpaceEnd(blocks, hi, from);
    var best' := Consider(best, from, to, bytes);
    if to == hi then best'
    else
      FreeSpaceStartAbove(blocks, hi, base, alignment);
      FreeSpaceEndIsNextStart(blocks, hi, from);
      Scan(blocks, hi, to, bytes, alignment, best')
  }

  /** The address `alloc` returns: zero when nothing fits. */
  function AllocResult(blocks: seq<Block>, lo: nat, hi: nat, bytes: nat, alignment: nat): nat
    requires alignment > 0 && lo < hi && AlignmentFits(hi, alignment) && EndsBelow(blocks, hi)
  {
    Scan(blocks, hi, lo, bytes, alignment, Gap(0, 0)).start
  }

  function AfterAlloc(blocks: seq<Block>, lo: nat, hi: nat, bytes: nat, alignment: nat): seq<Block>
    requires alignment > 0 && lo < hi && AlignmentFits(hi, alignment) && EndsBelow(blocks, hi)
  {
    var address := AllocResult(blocks, lo, hi, bytes, alignment);
    if address == 0 then blocks else blocks + [Block(address, (address + bytes) % U32)]
  }

  // ----- What the two inner scans find -----

  lemma {:induction false} FreeSpaceStartAbove(blocks: seq<Block>, hi: nat, base: nat, alignment: nat)
    requires alignment > 0 && base < hi && AlignmentFits(hi, alignment) && EndsBelow(blocks, hi)
    ensures base <= FreeSpaceStart(blocks, hi, base, alignment)
    decreases hi - base
  {
    AlignBelow(base, hi, alignment);
    var address := AlignForward32(base, alignment);
    var i := FirstCovering(blocks, address);
    if i < |blocks| && blocks[i].end != hi {
      FreeSpaceStartAbove(blocks, hi, blocks[i].end, alignment);
    }
  }

  lemma {:induction false} FreeSpaceEndIsNextStart(blocks: seq<Block>, hi: nat, from: nat)
    ensures var to := FreeSpaceEnd(blocks, hi, from);
            && to <= hi
            && (to == hi || (from < to && exists i :: 0 <= i < |blocks| && blocks[i].start == to))
            && forall i :: 0 <= i < |blocks| && blocks[i].start > from ==> to <= blocks[i].start
  {
    if blocks != [] {
      var n := |blocks| - 1;
      FreeSpaceEndIsNextStart(blocks[..n], hi, from);
      var end := FreeSpaceEnd(blocks[..n], hi, from);
      assert forall i :: 0 <= i < n ==> blocks[i] == blocks[..n][i];
    }
  }

  /** Aligning forward never passes an end that is aligned, or one past aligned. */
  lemma AlignStaysInside(base: nat, hi: nat, alignment: nat)
    requires alignment > 0 && base < hi && hi % alignment <= 1
    ensures AlignForward(base, alignment) <= hi
  {
    AlignForwardIsLeast(base, alignment);
    if hi % alignment == 1 && alignment > 1 {
      RemainderOfPredecessor(hi, alignment);
      assert Aligned(hi - 1, alignment);
    } else {
      assert Aligned(hi, alignment);
    }
  }

  /** The scan start is the least free aligned address from `base` on, or the end of the space. */
  lemma {:induction false} FreeSpaceStartIsLeast(blocks: seq<Block>, hi: nat, base: nat, alignment: nat)
    requires alignment > 0 && base < hi && AlignmentFits(hi, alignment) && EndsBelow(blocks, hi)
    requires hi % alignment <= 1
    ensures var from := FreeSpaceStart(blocks, hi, base, alignment);
            && base <= from <= hi
            && (from < hi ==> Aligned(from, alignment) && FreeAt(blocks, from))
            && forall a: nat :: base <= a < from && Aligned(a, alignment) ==> !FreeAt(blocks, a)
    decreases hi - base
  {
    AlignBelow(base, hi, alignment);
    AlignStaysInside(base, hi, alignment);
    AlignForwardIsLeast(base, alignment);
    var address := AlignForward32(base, alignment);
    var i := FirstCovering(blocks, address);
    if i < |blocks| {
      assert forall a: nat :: address <= a < blocks[i].end ==> Covers(blocks[i], a);
      if blocks[i].end != hi {
        FreeSpaceStartIsLeast(blocks, hi, blocks[i].end, alignment);
      }
    }
  }

  /** A free address and the next block start bound a free range. */
  lemma FreeUpToEnd(blocks: seq<Block>, lo: nat, hi: nat, from: nat)
    requires ValidBlocks(blocks, lo, hi) && from < hi && FreeAt(blocks, from)
    ensures var to := FreeSpaceEnd(blocks, hi, from);
            && from < to <= hi
            && RangeFree(blocks, from, to)
            && (to == hi || !FreeAt(blocks, to))
  {
    FreeSpaceEndIsNextStart(blocks, hi, from);
    var to := FreeSpaceEnd(blocks, hi, from);
    forall i | 0 <= i < |blocks| ensures blocks[i].end <= from || to <= blocks[i].start {
      assert !Covers(blocks[i], from);
    }
    if to != hi {
      var i :| 0 <= i < |blocks| && blocks[i].start == to;
      assert Covers(blocks[i], to);
    }
  }

  lemma RangeFreeIsFreeEverywhere(blocks: seq<Block>, from: int, to: int, address: int)
    requires RangeFree(blocks, from, to) && from <= address < to
    ensures FreeAt(blocks, address)
  {
  }

  // ----- The outer scan keeps the best gap seen so far -----

  ghost predicate Scanned(blocks: seq<Block>, lo: nat, hi: nat, base: nat, bytes: nat, alignment: nat, best: Gap)
    requires alignment > 0
  {
    && (best.start == 0 ==>
          forall from: nat, to: nat :: IsGap(blocks, lo, hi, alignment, from, to) && from < base ==> to - from < bytes)
    && (best.start != 0 ==>
          && IsGap(blocks, lo, hi, alignment, best.start, best.end)
          && best.end - best.start >= bytes
          && best.start < base
          && forall from: nat, to: nat ::
               IsGap(blocks, lo, hi, alignment, from, to) && from < base && to - from >= bytes
               ==> Preferred(best.start, best.end, from, to))
  }

  /** Two gaps that begin at the same address are the same gap. */
  lemma GapEndsOnce(blocks: seq<Block>, lo: nat, hi: nat, alignment: nat, from: nat, to: nat, to': nat)
    requires alignment > 0
    requires IsGap(blocks, lo, hi, alignment, from, to) && IsGap(blocks, lo, hi, alignment, from, to')
    ensures to == to'
  {
    if to < to' {
      RangeFreeIsFreeEverywhere(blocks, from, to', to);
    } else if to' < to {
      RangeFreeIsFreeEverywhere(blocks, from, to, to');
    }
  }

  /** The next stretch the scan looks at is the only gap that begins in `[base, to)`. */
  lemma NextGap(blocks: seq<Block>, lo: nat, hi: nat, base: nat, alignment: nat)
    requires alignment > 0 && lo <= base < hi && AlignmentFits(hi, alignment) && hi % alignment <= 1
    requires ValidBlocks(blocks, lo, hi)
    requires base == lo || !FreeAt(blocks, base)
    ensures var from := FreeSpaceStart(blocks, hi, base, alignment);
            var to := FreeSpaceEnd(blocks, hi, from);
            && base <= from <= to <= hi
            && (from < hi ==> base < to && IsGap(blocks, lo, hi, alignment, from, to))
            && (from == hi ==> to == hi)
            && (to == hi || !FreeAt(blocks, to))
            && forall a: nat, e: nat ::
                 IsGap(blocks, lo, hi, alignment, a, e) && base <= a < to ==> a == from && e == to
  {
    var from := FreeSpaceStart(blocks, hi, base, alignment);
    var to := FreeSpaceEnd(blocks, hi, from);
    FreeSpaceStartIsLeast(blocks, hi, base, alignment);
    FreeSpaceEndIsNextStart(blocks, hi, from);
    if from < hi {
      FreeUpToEnd(blocks, lo, hi, from);
      forall a: nat | lo <= a < from && Aligned(a, alignment) ensures !RangeFree(blocks, a, from) {
        if RangeFree(blocks, a, from) {
          RangeFreeIsFreeEverywhere(blocks, a, from, a);
          RangeFreeIsFreeEverywhere(blocks, a, from, if a < base then base else a);
        }
      }
      assert IsGap(blocks, lo, hi, alignment, from, to);
    }
    forall a: nat, e: nat | IsGap(blocks, lo, hi, alignment, a, e) && base <= a < to ensures a == from && e == to {
      RangeFreeIsFreeEverywhere(blocks, a, e, a);
      assert a >= from;
      GapEndsOnce(blocks, lo, hi, alignment, from, to, e);
    }
  }

  lemma ConsiderWithoutWrap(best: Gap, from: nat, to: nat, bytes: nat)
    requires from <= to < U32 && (best.start != 0 ==> best.start <= best.end < U32)
    ensures Consider(best, from, to, bytes) ==
            if to - from >= bytes && (best.start == 0 || to - from < best.end - best.start) then Gap(from, to) else best
  {
  }

  lemma ConsiderKeepsScanned(blocks: seq<Block>, lo: nat, hi: nat, base: nat, bytes: nat, alignment: nat, best: Gap)
    requires alignment > 0 && 0 < lo <= base < hi < U32 && AlignmentFits(hi, alignment) && hi % alignment <= 1
    requires bytes > 0
    requires ValidBlocks(blocks, lo, hi)
    requires base == lo || !FreeAt(blocks, base)
    requires Scanned(blocks, lo, hi, base, bytes, alignment, best)
    ensures var from := FreeSpaceStart(blocks, hi, base, alignment);
            var to := FreeSpaceEnd(blocks, hi, from);
            Scanned(blocks, lo, hi, to, bytes, alignment, Consider(best, from, to, bytes))
  {
    NextGap(blocks, lo, hi, base, alignment);
    var from := FreeSpaceStart(blocks, hi, base, alignment);
    var to := FreeSpaceEnd(blocks, hi, from);
    ConsiderWithoutWrap(best, from, to, bytes);
    var best' := Consider(best, from, to, bytes);
    forall a: nat, e: nat | IsGap(blocks, lo, hi, alignment, a, e) && a < to && e - a >= bytes
      ensures best'.start != 0 && Preferred(best'.start, best'.end, a, e)
    {
      if a >= base {
        assert a == from && e == to;
      }
    }
  }

  lemma {:induction false} ScanIsBest(blocks: seq<Block>, lo: nat, hi: nat, base: nat, bytes: nat, alignment: nat,
                                      best: Gap)
    requires alignment > 0 && 0 < lo <= base < hi < U32 && AlignmentFits(hi, alignment) && hi % alignment <= 1
    requires bytes > 0
    requires ValidBlocks(blocks, lo, hi)
    requires base == lo || !FreeAt(blocks, base)
    requires Scanned(blocks, lo, hi, base, bytes, alignment, best)
    ensures Scanned(blocks, lo, hi, hi, bytes, alignment, Scan(blocks, hi, base, bytes, alignment, best))
    decreases hi - base
  {
    var from := FreeSpaceStart(blocks, hi, base, alignment);
    var to := FreeSpaceEnd(blocks, hi, from);
    NextGap(blocks, lo, hi, base, alignment);
    ConsiderKeepsScanned(blocks, lo, hi, base, bytes, alignment, best);
    if to != hi {
      ScanIsBest(blocks, lo, hi, to, bytes, alignment, Consider(best, from, to, bytes));
    }
  }

  /** Any address that serves the request lies in a gap large enough for it. */
  lemma {:induction false} ServedInsideGap(blocks: seq<Block>, lo: nat, hi: nat, bytes: nat, alignment: nat,
                                           address: nat)
      returns (from: nat, to: nat)
    requires alignment > 0 && bytes > 0 && ValidBlocks(blocks, lo, hi)
    requires Serves(blocks, lo, hi, bytes, alignment, address)
    ensures IsGap(blocks, lo, hi, alignment, from, to) && from <= address && address + bytes <= to
    decreases address
  {
    if a: nat :| lo <= a < address && Aligned(a, alignment) && RangeFree(blocks, a, address) {
      assert RangeFree(blocks, a, address + bytes);
      from, to := ServedInsideGap(blocks, lo, hi, address + bytes - a, alignment, a);
    } else {
      RangeFreeIsFreeEverywhere(blocks, address, address + bytes, address);
      FreeUpToEnd(blocks, lo, hi, address);
      FreeSpaceEndIsNextStart(blocks, hi, address);
      from, to := address, FreeSpaceEnd(blocks, hi, address);
      if to != hi && to < address + bytes {
        RangeFreeIsFreeEverywhere(blocks, address, address + bytes, to);
      }
    }
  }

  // ----- Main results -----

  /** What `alloc` promises: zero exactly when nothing serves the request, else the best fit. */
  ghost predicate AllocIsCorrect(blocks: seq<Block>, lo: nat, hi: nat, bytes: nat, alignment: nat)
    requires alignment > 0 && lo < hi && AlignmentFits(hi, alignment) && EndsBelow(blocks, hi)
  {
    var address := AllocResult(blocks, lo, hi, bytes, alignment);
    && (address == 0 <==> forall a: nat :: !Serves(blocks, lo, hi, bytes, alignment, a))
    && (address != 0 ==>
          && Serves(blocks, lo, hi, bytes, alignment, address)
          && exists to: nat :: BestFit(blocks, lo, hi, bytes, alignment, address, to))
  }

  lemma AlignedEndFits(hi: nat, alignment: nat)
    requires alignment > 0 && 0 < hi < U32 && hi % alignment <= 1
    ensures AlignmentFits(hi, alignment)
  {
    AlignStaysInside(hi - 1, hi, alignment);
  }

  /** The allocator is complete and best fit when the space ends at, or one past, an aligned address. */
  lemma AllocIsBestFit(blocks: seq<Block>, lo: nat, hi: nat, bytes: nat, alignment: nat)
    requires alignment > 0 && 0 < lo < hi < U32 && hi % alignment <= 1
    requires bytes > 0 && ValidBlocks(blocks, lo, hi)
    ensures AlignmentFits(hi, alignment) && AllocIsCorrect(blocks, lo, hi, bytes, alignment)
  {
    AlignedEndFits(hi, alignment);
    ScanIsBest(blocks, lo, hi, lo, bytes, alignment, Gap(0, 0));
    var best := Scan(blocks, hi, lo, bytes, alignment, Gap(0, 0));
    if best.start == 0 {
      forall a: nat ensures !Serves(blocks, lo, hi, bytes, alignment, a) {
        if Serves(blocks, lo, hi, bytes, alignment, a) {
          var from, to := ServedInsideGap(blocks, lo, hi, bytes, alignment, a);
        }
      }
    } else {
      assert Serves(blocks, lo, hi, bytes, alignment, best.start);
      assert BestFit(blocks, lo, hi, bytes, alignment, best.start, best.end);
    }
  }

  /** The block list on which a badly aligned end shows: everything but the last byte taken. */
  function AllButLastByte(lo: nat, hi: nat): seq<Block>
    requires lo < hi
  {
    if lo == hi - 1 then [] else [Block(lo, hi - 1)]
  }

  /** With any other end, the scan walks off the space and hands out an address past its end. */
  lemma MisalignedEndEscapes(lo: nat, hi: nat, alignment: nat)
    requires alignment > 0 && 0 < lo < hi < U32 && AlignmentFits(hi, alignment) && hi % alignment > 1
    ensures ValidBlocks(AllButLastByte(lo, hi), lo, hi)
    ensures AllocResult(AllButLastByte(lo, hi), lo, hi, 1, alignment) > hi
  {
    var blocks := AllButLastByte(lo, hi);
    var past := AlignForward(hi - 1, alignment);
    AlignPastEnd(lo, hi, alignment);
    assert FirstCovering(blocks, past) == |blocks|;
    assert FreeSpaceStart(blocks, hi, hi - 1, alignment) == past;
    assert FreeSpaceStart(blocks, hi, lo, alignment) == past;
    FreeSpaceEndIsNextStart(blocks, hi, past);
    EscapeIsTaken(past, hi);
  }

  lemma EscapeIsTaken(past: nat, hi: nat)
    requires 0 < hi < past < U32
    ensures Consider(Gap(0, 0), past, hi, 1) == Gap(past, hi)
  {
  }

  lemma AlignPastEnd(lo: nat, hi: nat, alignment: nat)
    requires alignment > 0 && lo < hi && AlignmentFits(hi, alignment) && hi % alignment > 1
    ensures var past := AlignForward(hi - 1, alignment);
            && hi < past < U32
            && AlignForward32(hi - 1, alignment) == past
            && (AlignForward32(lo, alignment) == past || lo <= AlignForward32(lo, alignment) < hi - 1)
  {
    AlignForwardIsLeast(lo, alignment);
    AlignForwardIsLeast(hi - 1, alignment);
    AlignBelow(lo, hi, alignment);
    AlignBelow(hi - 1, hi, alignment);
    RemainderOfPredecessor(hi, alignment);
    var past, first := AlignForward(hi - 1, alignment), AlignForward(lo, alignment);
    assert past != hi - 1 && past != hi;
    if first >= hi - 1 {
      assert first >= past;
    }
  }

  /**
   For every address space and alignment: no alignment wraps and `alloc` meets its promise on every valid
   block list and every request, exactly when the end of the space is at most one past aligned.
   */
  lemma AllocCorrectIffEndAligned(lo: nat, hi: nat, alignment: nat)
    requires alignment > 0 && 0 < lo < hi < U32
    ensures hi % alignment <= 1 <==>
            && AlignmentFits(hi, alignment)
            && forall blocks: seq<Block>, bytes: nat ::
                 ValidBlocks(blocks, lo, hi) && 0 < bytes < U32 ==> AllocIsCorrect(blocks, lo, hi, bytes, alignment)
  {
    if hi % alignment <= 1 {
      AlignedEndFits(hi, alignment);
      forall blocks: seq<Block>, bytes: nat | ValidBlocks(blocks, lo, hi) && 0 < bytes < U32
        ensures AllocIsCorrect(blocks, lo, hi, bytes, alignment)
      {
        AllocIsBestFit(blocks, lo, hi, bytes, alignment);
      }
    } else if AlignmentFits(hi, alignment) {
      MisalignedEndEscapes(lo, hi, alignment);
      assert !AllocIsCorrect(AllButLastByte(lo, hi), lo, hi, 1, alignment);
    }
  }

  // ----- The same search as one pass in address order -----

  predicate InOrder(sorted: seq<Block>) {
    forall i, j :: 0 <= i < j < |sorted| ==> sorted[i].end <= sorted[j].start
  }

  /** The stretch is chosen if it is large enough, and smaller than the best so far. */
  function Better(best: Gap, from: nat, to: nat, bytes: nat): Gap {
    if from + bytes <= to && (best.start == 0 || to - from < best.end - best.start) then Gap(from, to) else best
  }

  /** Looks once at each stretch between neighbouring blocks. */
  function OnePass(sorted: seq<Block>, lo: nat, hi: nat, bytes: nat, alignment: nat, best: Gap): Gap
    requires alignment > 0
    decreases |sorted|
  {
    var from := AlignForward(lo, alignment);
    if sorted == [] then Better(best, from, hi, bytes)
    else OnePass(sorted[1..], sorted[0].end, hi, bytes, alignment, Better(best, from, sorted[0].start, bytes))
  }

  function Insert(block: Block, sorted: seq<Block>): seq<Block> {
    if sorted == [] || block.start < sorted[0].start then [block] + sorted
    else [sorted[0]] + Insert(block, sorted[1..])
  }

  function Sorted(blocks: seq<Block>): seq<Block> {
    if blocks == [] then [] else Insert(blocks[|blocks| - 1], Sorted(blocks[..|blocks| - 1]))
  }

  lemma PrependKeepsOrder(block: Block, sorted: seq<Block>)
    requires InOrder(sorted) && forall b :: b in sorted ==> block.end <= b.start
    ensures InOrder([block] + sorted)
  {
    forall j | 0 <= j < |sorted| ensures block.end <= sorted[j].start {
      assert sorted[j] in sorted;
    }
  }

  lemma OrderIsInherited(sorted: seq<Block>)
    requires InOrder(sorted) && sorted != []
    ensures InOrder(sorted[1..]) && sorted == [sorted[0]] + sorted[1..]
    ensures forall b :: b in sorted[1..] ==> sorted[0].end <= b.start
  {
  }

  lemma {:induction false} InsertKeepsOrder(block: Block, sorted: seq<Block>)
    requires InOrder(sorted) && block.start < block.end
    requires forall b :: b in sorted ==> b.start < b.end && DisjointBlocks(b, block)
    ensures InOrder(Insert(block, sorted))
    ensures forall b :: b in Insert(block, sorted) <==> b in sorted || b == block
  {
    hide InOrder;
    if sorted == [] {
      PrependKeepsOrder(block, sorted);
    } else {
      OrderIsInherited(sorted);
      if block.start < sorted[0].start {
        PrependKeepsOrder(block, sorted);
      } else {
        InsertKeepsOrder(block, sorted[1..]);
        PrependKeepsOrder(sorted[0], Insert(block, sorted[1..]));
      }
    }
  }

  lemma {:induction false} SortedIsInOrder(blocks: seq<Block>, lo: nat, hi: nat)
    requires ValidBlocks(blocks, lo, hi)
    ensures InOrder(Sorted(blocks)) && forall b :: b in Sorted(blocks) <==> b in blocks
  {
    if blocks != [] {
      var n := |blocks| - 1;
      var front := blocks[..n];
      assert blocks == front + [blocks[n]];
      SortedIsInOrder(front, lo, hi);
      forall b | b in Sorted(front) ensures b.start < b.end && DisjointBlocks(b, blocks[n]) {
        var i :| 0 <= i < n && front[i] == b;
        assert blocks[i] == b;
      }
      InsertKeepsOrder(blocks[n], Sorted(front));
    }
  }

  /** From inside a block, or from where aligning leads past its start, the scan comes out behind it. */
  lemma StartSkipsBlock(blocks: seq<Block>, lo: nat, hi: nat, base: nat, alignment: nat, block: Block)
    requires alignment > 0 && 0 < lo < hi < U32 && AlignmentFits(hi, alignment) && hi % alignment <= 1
    requires ValidBlocks(blocks, lo, hi) && block in blocks
    requires base <= block.start <= AlignForward(base, alignment)
    ensures block.end == hi ==> FreeSpaceStart(blocks, hi, base, alignment) == hi
    ensures block.end < hi ==>
              FreeSpaceStart(blocks, hi, base, alignment) == FreeSpaceStart(blocks, hi, block.end, alignment)
  {
    hide AlignForward;
    hide AlignForward32;
    var address := AlignForward(base, alignment);
    AlignBelow(base, hi, alignment);
    AlignStaysInside(base, hi, alignment);
    if address < block.end {
      OnlyOneCovers(blocks, lo, hi, address, block);
    } else if block.end < hi {
      AlignsAlike(base, block.end, alignment);
      AlignBelow(block.end, hi, alignment);
    } else {
      NothingAtEnd(blocks, lo, hi);
    }
  }

  lemma NothingAtEnd(blocks: seq<Block>, lo: nat, hi: nat)
    requires ValidBlocks(blocks, lo, hi)
    ensures FirstCovering(blocks, hi) == |blocks|
  {
  }

  lemma OnlyOneCovers(blocks: seq<Block>, lo: nat, hi: nat, address: nat, block: Block)
    requires ValidBlocks(blocks, lo, hi) && block in blocks && Covers(block, address)
    ensures FirstCovering(blocks, address) < |blocks| && blocks[FirstCovering(blocks, address)] == block
  {
    var i := FirstCovering(blocks, address);
    var k :| 0 <= k < |blocks| && blocks[k] == block;
    assert i <= k;
  }

  /** No aligned address lies between a value and the address it is aligned to. */
  lemma AlignsAlike(value: nat, between: nat, alignment: nat)
    requires alignment > 0 && value <= between <= AlignForward(value, alignment)
    ensures AlignForward(between, alignment) == AlignForward(value, alignment)
  {
    hide AlignForward;
    hide Aligned;
    AlignForwardIsLeast(value, alignment);
    AlignForwardIsLeast(between, alignment);
  }

  /** The blocks from `base` on, in order, are all that matters to a scan from `base`. */
  ghost predicate Remaining(blocks: seq<Block>, sorted: seq<Block>, base: nat) {
    && InOrder(sorted)
    && (forall b :: b in sorted ==> b in blocks && base <= b.start)
    && (forall b :: b in blocks ==> b in sorted || b.end <= base)
  }

  lemma RemainingStep(blocks: seq<Block>, sorted: seq<Block>, base: nat, lo: nat, hi: nat)
    requires Remaining(blocks, sorted, base) && sorted != [] && ValidBlocks(blocks, lo, hi)
    ensures Remaining(blocks, sorted[1..], sorted[0].end)
    ensures sorted[0] in blocks && base <= sorted[0].start < sorted[0].end <= hi
    ensures sorted[0].end == hi ==> sorted[1..] == []
  {
    OrderIsInherited(sorted);
    hide InOrder;
    BlocksAreInside(blocks, lo, hi);
    hide ValidBlocks;
    if |sorted| > 1 {
      assert sorted[1] in sorted && sorted[1] in sorted[1..];
    }
  }

  lemma BlocksAreInside(blocks: seq<Block>, lo: nat, hi: nat)
    requires ValidBlocks(blocks, lo, hi)
    ensures forall b :: b in blocks ==> lo <= b.start < b.end <= hi
  {
  }

  /** What a scan from `base` comes to first. */
  lemma FirstStretch(blocks: seq<Block>, sorted: seq<Block>, lo: nat, hi: nat, base: nat, alignment: nat)
    requires alignment > 0 && 0 < lo <= base < hi < U32 && AlignmentFits(hi, alignment) && hi % alignment <= 1
    requires ValidBlocks(blocks, lo, hi) && Remaining(blocks, sorted, base)
    requires sorted != [] ==> AlignForward(base, alignment) < sorted[0].start
    ensures var from := AlignForward(base, alignment);
            && base <= from <= hi && FreeSpaceStart(blocks, hi, base, alignment) == from
            && FreeSpaceEnd(blocks, hi, from) == if sorted == [] then hi else sorted[0].start
  {
    hide AlignForward;
    hide AlignForward32;
    var from := AlignForward(base, alignment);
    AlignBelow(base, hi, alignment);
    AlignStaysInside(base, hi, alignment);
    forall i | 0 <= i < |blocks| ensures !Covers(blocks[i], from) && (blocks[i].end <= from || blocks[i] in sorted) {
      assert blocks[i] in blocks;
    }
    FreeSpaceEndIsNextStart(blocks, hi, from);
    if sorted != [] {
      var k :| 0 <= k < |blocks| && blocks[k] == sorted[0];
    }
  }

  /** The scan, which restarts at every block, and the single pass find the same. */
  lemma {:induction false} PassIsScan(blocks: seq<Block>, sorted: seq<Block>, lo: nat, hi: nat, base: nat, bytes: nat,
                                      alignment: nat, best: Gap)
    requires alignment > 0 && 0 < lo <= base < hi < U32 && AlignmentFits(hi, alignment) && hi % alignment <= 1
    requires bytes > 0 && ValidBlocks(blocks, lo, hi) && Remaining(blocks, sorted, base)
    requires best.start != 0 ==> best.start <= best.end < U32
    ensures Scan(blocks, hi, base, bytes, alignment, best) == OnePass(sorted, base, hi, bytes, alignment, best)
    decreases |sorted|
  {
    hide AlignForward;
    hide FreeSpaceStart;
    hide FreeSpaceEnd;
    hide Consider;
    var from := AlignForward(base, alignment);
    if sorted == [] {
      FirstStretch(blocks, sorted, lo, hi, base, alignment);
      ConsiderWithoutWrap(best, from, hi, bytes);
    } else {
      var block := sorted[0];
      RemainingStep(blocks, sorted, base, lo, hi);
      if from < block.start {
        FirstStretch(blocks, sorted, lo, hi, base, alignment);
        ConsiderWithoutWrap(best, from, block.start, bytes);
        var best' := Better(best, from, block.start, bytes);
        AlignForwardIsLeast(block.start, alignment);
        PassSkipsBlock(blocks, sorted, lo, hi, block.start, bytes, alignment, best');
      } else {
        PassSkipsBlock(blocks, sorted, lo, hi, base, bytes, alignment, best);
      }
    }
  }

  lemma {:induction false} PassSkipsBlock(blocks: seq<Block>, sorted: seq<Block>, lo: nat, hi: nat, base: nat,
                                          bytes: nat, alignment: nat, best: Gap)
    requires alignment > 0 && 0 < lo <= base < hi < U32 && AlignmentFits(hi, alignment) && hi % alignment <= 1
    requires bytes > 0 && ValidBlocks(blocks, lo, hi) && sorted != []
    requires sorted[0] in blocks && base <= sorted[0].start <= AlignForward(base, alignment) && sorted[0].end <= hi
    requires Remaining(blocks, sorted[1..], sorted[0].end) && (sorted[0].end == hi ==> sorted[1..] == [])
    requires best.start != 0 ==> best.start <= best.end < U32
    ensures Scan(blocks, hi, base, bytes, alignment, best)
         == OnePass(sorted[1..], sorted[0].end, hi, bytes, alignment, best)
    decreases |sorted|, 0
  {
    hide AlignForward;
    hide FreeSpaceStart;
    hide FreeSpaceEnd;
    hide Consider;
    StartSkipsBlock(blocks, lo, hi, base, alignment, sorted[0]);
    if sorted[0].end < hi {
      PassIsScan(blocks, sorted[1..], lo, hi, sorted[0].end, bytes, alignment, best);
    } else {
      FreeSpaceEndIsNextStart(blocks, hi, hi);
      NoStartBehindEnd(blocks, lo, hi);
      ConsiderWithoutWrap(best, hi, hi, bytes);
      AlignForwardIsLeast(hi, alignment);
    }
  }

  lemma NoStartBehindEnd(blocks: seq<Block>, lo: nat, hi: nat)
    requires ValidBlocks(blocks, lo, hi)
    ensures FreeSpaceEnd(blocks, hi, hi) == hi
  {
    FreeSpaceEndIsNextStart(blocks, hi, hi);
  }

  /** However the blocks came about, `alloc` answers as one pass over them in address order does. */
  lemma AllocIsOnePass(blocks: seq<Block>, lo: nat, hi: nat, bytes: nat, alignment: nat)
    requires alignment > 0 && 0 < lo < hi < U32 && hi % alignment <= 1
    requires bytes > 0 && ValidBlocks(blocks, lo, hi)
    ensures AlignmentFits(hi, alignment)
    ensures AllocResult(blocks, lo, hi, bytes, alignment)
         == OnePass(Sorted(blocks), lo, hi, bytes, alignment, Gap(0, 0)).start
  {
    hide Scan;
    hide OnePass;
    hide Sorted;
    AlignedEndFits(hi, alignment);
    SortedIsInOrder(blocks, lo, hi);
    PassIsScan(blocks, Sorted(blocks), lo, hi, lo, bytes, alignment, Gap(0, 0));
  }

  // ----- Allocation at a fixed address -----

  /** The region comparison of the C code, which only looks at one end of each region. */
  predicate RegionExcludesBlock(block: Block, start: nat, end: nat) {
    if start < block.start then block.start >= end else start >= block.end
  }

  predicate RegionIsFree(blocks: seq<Block>, start: nat, end: nat) {
    forall i :: 0 <= i < |blocks| ==> RegionExcludesBlock(blocks[i], start, end)
  }

  predicate InplaceAccepts(blocks: seq<Block>, lo: nat, hi: nat, address: nat, bytes: nat) {
    var end := (address + bytes) % U32;
    lo <= address && end <= hi && RegionIsFree(blocks, address, end)
  }

  function AfterInplace(blocks: seq<Block>, lo: nat, hi: nat, address: nat, bytes: nat): seq<Block> {
    if InplaceAccepts(blocks, lo, hi, address, bytes)
    then blocks + [Block(address, (address + bytes) % U32)]
    else blocks
  }

  /**
   A fixed-address request is accepted exactly when its region is inside the space and
   free, provided its end does not wrap; an accepted request whose end wraps never is.
   */
  lemma InplaceAcceptsIffServes(blocks: seq<Block>, lo: nat, hi: nat, address: nat, bytes: nat)
    requires ValidBlocks(blocks, lo, hi) && 0 < bytes < U32 && address < U32 && hi < U32
    ensures address + bytes < U32 ==>
              (InplaceAccepts(blocks, lo, hi, address, bytes) <==> Serves(blocks, lo, hi, bytes, 1, address))
    ensures InplaceAccepts(blocks, lo, hi, address, bytes) ==>
              (address + bytes <= hi <==> address + bytes < U32)
  {
    assert address + bytes >= U32 ==> (address + bytes) % U32 == address + bytes - U32;
    forall i | 0 <= i < |blocks| && address + bytes < U32
      ensures RegionExcludesBlock(blocks[i], address, address + bytes) <==>
              (blocks[i].end <= address || address + bytes <= blocks[i].start)
    {
    }
  }

  // ----- Every sequence of requests -----

  datatype Request =
    | AtAddress(address: nat, bytes: nat)
    | Anywhere(bytes: nat, alignment: nat)

  predicate Acceptable(request: Request, hi: nat) {
    match request
    case AtAddress(address, bytes) => 0 < bytes && address + bytes < U32
    case Anywhere(bytes, alignment) => 0 < bytes && 0 < alignment && AlignmentFits(hi, alignment) && hi % alignment <= 1
  }

  function Serve(blocks: seq<Block>, lo: nat, hi: nat, request: Request): seq<Block>
    requires lo < hi && Acceptable(request, hi) && EndsBelow(blocks, hi)
  {
    match request
    case AtAddress(address, bytes) => AfterInplace(blocks, lo, hi, address, bytes)
    case Anywhere(bytes, alignment) => AfterAlloc(blocks, lo, hi, bytes, alignment)
  }

  /** The address a request is granted at, or zero. */
  function Granted(blocks: seq<Block>, lo: nat, hi: nat, request: Request): nat
    requires lo < hi && Acceptable(request, hi) && EndsBelow(blocks, hi)
  {
    match request
    case AtAddress(address, bytes) => if InplaceAccepts(blocks, lo, hi, address, bytes) then address else 0
    case Anywhere(bytes, alignment) => AllocResult(blocks, lo, hi, bytes, alignment)
  }

  function AlignmentOf(request: Request): nat {
    if request.Anywhere? then request.alignment else 1
  }

  /** A refused request changes nothing; a granted one adds exactly one block, and that block serves it. */
  lemma ServeAddsAtMostOneBlock(blocks: seq<Block>, lo: nat, hi: nat, request: Request)
    requires 0 < lo < hi < U32 && Acceptable(request, hi) && ValidBlocks(blocks, lo, hi)
    ensures var blocks' := Serve(blocks, lo, hi, request);
            var address := Granted(blocks, lo, hi, request);
            && ValidBlocks(blocks', lo, hi)
            && (address == 0 ==> blocks' == blocks)
            && (address != 0 ==>
                  && blocks' == blocks + [Block(address, address + request.bytes)]
                  && Serves(blocks, lo, hi, request.bytes, AlignmentOf(request), address))
  {
    match request
    case AtAddress(address, bytes) =>
      InplaceAddsAtMostOneBlock(blocks, lo, hi, address, bytes);
    case Anywhere(bytes, alignment) =>
      AllocAddsAtMostOneBlock(blocks, lo, hi, bytes, alignment);
  }

  lemma InplaceAddsAtMostOneBlock(blocks: seq<Block>, lo: nat, hi: nat, address: nat, bytes: nat)
    requires 0 < lo < hi < U32 && 0 < bytes && address + bytes < U32 && ValidBlocks(blocks, lo, hi)
    ensures var blocks' := AfterInplace(blocks, lo, hi, address, bytes);
            && ValidBlocks(blocks', lo, hi)
            && (InplaceAccepts(blocks, lo, hi, address, bytes) <==> Serves(blocks, lo, hi, bytes, 1, address))
            && blocks' == if Serves(blocks, lo, hi, bytes, 1, address)
                          then blocks + [Block(address, address + bytes)] else blocks
  {
    InplaceAcceptsIffServes(blocks, lo, hi, address, bytes);
    if Serves(blocks, lo, hi, bytes, 1, address) {
      PushKeepsValid(blocks, lo, hi, bytes, 1, address);
    }
  }

  lemma AllocAddsAtMostOneBlock(blocks: seq<Block>, lo: nat, hi: nat, bytes: nat, alignment: nat)
    requires alignment > 0 && 0 < lo < hi < U32 && AlignmentFits(hi, alignment) && hi % alignment <= 1
    requires bytes > 0 && ValidBlocks(blocks, lo, hi)
    ensures var address := AllocResult(blocks, lo, hi, bytes, alignment);
            var blocks' := AfterAlloc(blocks, lo, hi, bytes, alignment);
            && ValidBlocks(blocks', lo, hi)
            && (address != 0 ==> Serves(blocks, lo, hi, bytes, alignment, address))
            && blocks' == if address == 0 then blocks else blocks + [Block(address, address + bytes)]
  {
    hide AllocResult;
    hide Serves;
    var address := AllocResult(blocks, lo, hi, bytes, alignment);
    if address != 0 {
      AllocServes(blocks, lo, hi, bytes, alignment);
      PushKeepsValid(blocks, lo, hi, bytes, alignment, address);
    }
  }

  lemma AllocServes(blocks: seq<Block>, lo: nat, hi: nat, bytes: nat, alignment: nat)
    requires alignment > 0 && 0 < lo < hi < U32 && AlignmentFits(hi, alignment) && hi % alignment <= 1
    requires bytes > 0 && ValidBlocks(blocks, lo, hi)
    requires AllocResult(blocks, lo, hi, bytes, alignment) != 0
    ensures var address := AllocResult(blocks, lo, hi, bytes, alignment);
            && Serves(blocks, lo, hi, bytes, alignment, address)
            && (address + bytes) % U32 == address + bytes
  {
    AllocIsBestFit(blocks, lo, hi, bytes, alignment);
  }

  lemma PushKeepsValid(blocks: seq<Block>, lo: nat, hi: nat, bytes: nat, alignment: nat, address: nat)
    requires alignment > 0 && bytes > 0 && ValidBlocks(blocks, lo, hi)
    requires Serves(blocks, lo, hi, bytes, alignment, address)
    ensures ValidBlocks(blocks + [Block(address, address + bytes)], lo, hi)
  {
  }

  function ServeAll(blocks: seq<Block>, lo: nat, hi: nat, requests: seq<Request>): seq<Block>
    requires 0 < lo < hi < U32 && ValidBlocks(blocks, lo, hi)
    requires forall r :: r in requests ==> Acceptable(r, hi)
    decreases |requests|
  {
    if requests == [] then blocks
    else
      ServeAddsAtMostOneBlock(blocks, lo, hi, requests[0]);
      ServeAll(Serve(blocks, lo, hi, requests[0]), lo, hi, requests[1..])
  }

  function TotalBytes(blocks: seq<Block>): int {
    if blocks == [] then 0
    else
      var last := blocks[|blocks| - 1];
      TotalBytes(blocks[..|blocks| - 1]) + last.end - last.start
  }

  /**
   Whatever is requested and in whatever order: blocks stay disjoint and inside the space,
   earlier blocks never move, and the blocks together never exceed the space.
   */
  lemma {:induction false} EverySequenceIsSafe(blocks: seq<Block>, lo: nat, hi: nat, requests: seq<Request>)
    requires 0 < lo < hi < U32 && ValidBlocks(blocks, lo, hi)
    requires forall r :: r in requests ==> Acceptable(r, hi)
    ensures var blocks' := ServeAll(blocks, lo, hi, requests);
            && ValidBlocks(blocks', lo, hi)
            && blocks <= blocks'
            && |blocks'| <= |blocks| + |requests|
            && TotalBytes(blocks') <= hi - lo
    decreases |requests|
  {
    if requests == [] {
      TotalBytesFit(blocks, lo, hi);
    } else {
      ServeAddsAtMostOneBlock(blocks, lo, hi, requests[0]);
      EverySequenceIsSafe(Serve(blocks, lo, hi, requests[0]), lo, hi, requests[1..]);
    }
  }

  // Counting the addresses of disjoint blocks bounds their total length.

  ghost function Cells(lo: int, hi: int): (cells: set<int>)
    ensures forall a :: a in cells <==> lo <= a < hi
    decreases hi - lo
  {
    if lo >= hi then {} else Cells(lo, hi - 1) + {hi - 1}
  }

  lemma {:induction false} CellCount(lo: int, hi: int)
    requires lo <= hi
    ensures |Cells(lo, hi)| == hi - lo
    decreases hi - lo
  {
    if lo < hi {
      CellCount(lo, hi - 1);
    }
  }

  ghost function AllCells(blocks: seq<Block>): set<int> {
    if blocks == [] then {}
    else AllCells(blocks[..|blocks| - 1]) + Cells(blocks[|blocks| - 1].start, blocks[|blocks| - 1].end)
  }

  lemma {:induction false} CellsBelongToBlocks(blocks: seq<Block>, a: int)
    requires a in AllCells(blocks)
    ensures exists i :: 0 <= i < |blocks| && Covers(blocks[i], a)
  {
    var n := |blocks| - 1;
    if a in AllCells(blocks[..n]) {
      CellsBelongToBlocks(blocks[..n], a);
      var i :| 0 <= i < n && Covers(blocks[..n][i], a);
      assert Covers(blocks[i], a);
    } else {
      assert Covers(blocks[n], a);
    }
  }

  lemma LastBlockIsApart(blocks: seq<Block>, lo: nat, hi: nat)
    requires |blocks| > 0 && ValidBlocks(blocks, lo, hi)
    ensures var n := |blocks| - 1;
            AllCells(blocks[..n]) !! Cells(blocks[n].start, blocks[n].end)
  {
    var n := |blocks| - 1;
    forall a | a in AllCells(blocks[..n]) ensures !Covers(blocks[n], a) {
      CellsBelongToBlocks(blocks[..n], a);
      var i :| 0 <= i < n && Covers(blocks[..n][i], a);
      assert DisjointBlocks(blocks[i], blocks[n]);
    }
  }

  lemma {:induction false} AllCellCount(blocks: seq<Block>, lo: nat, hi: nat)
    requires ValidBlocks(blocks, lo, hi)
    ensures |AllCells(blocks)| == TotalBytes(blocks)
  {
    if blocks != [] {
      var n := |blocks| - 1;
      AllCellCount(blocks[..n], lo, hi);
      CellCount(blocks[n].start, blocks[n].end);
      LastBlockIsApart(blocks, lo, hi);
    }
  }

  lemma TotalBytesFit(blocks: seq<Block>, lo: nat, hi: nat)
    requires lo <= hi && ValidBlocks(blocks, lo, hi)
    ensures 0 <= TotalBytes(blocks) <= hi - lo
  {
    AllCellCount(blocks, lo, hi);
    CellCount(lo, hi);
    forall a | a in AllCells(blocks) ensures a in Cells(lo, hi) {
      CellsBelongToBlocks(blocks, a);
    }
    SubsetSize(AllCells(blocks), Cells(lo, hi));
  }

  lemma SubsetSize(small: set<int>, large: set<int>)
    requires small <= large
    ensures |small| <= |large|
  {
    assert large == small + (large - small);
  }

  // ----- The allocator itself -----

  class Allocator {
    const addressSpaceStart: nat
    const addressSpaceEnd: nat
    const capacity: nat
    /** The used entries of the block table, oldest first. */
    var blocks: seq<Block>

    ghost predicate Valid()
      reads this
    {
      && 0 < addressSpaceStart < addressSpaceEnd < U32
      && |blocks| <= capacity
      && ValidBlocks(blocks, addressSpaceStart, addressSpaceEnd)
    }

    constructor (start: nat, end: nat, capacity: nat)
      requires 0 < start < end < U32
      ensures Valid() && blocks == [] && this.capacity == capacity
      ensures addressSpaceStart == start && addressSpaceEnd == end
    {
      addressSpaceStart, addressSpaceEnd := start, end;
      this.capacity := capacity;
      blocks := [];
    }

    method PushBlock(block: Block)
      requires |blocks| < capacity
      modifies this
      ensures blocks == old(blocks) + [block]
    {
      blocks := blocks + [block];
    }

    method IsFree(start: nat, end: nat) returns (free: bool)
      requires Valid()
      ensures free <==> RegionIsFree(blocks, start, end)
    {
      var i := 0;
      while i < |blocks|
        invariant i <= |blocks|
        invariant RegionIsFree(blocks[..i], start, end)
      {
        if !RegionExcludesBlock(blocks[i], start, end) {
          return false;
        }
        i := i + 1;
      }
      return true;
    }

    method AllocInplace(address: nat, bytes: nat) returns (ok: bool)
      requires Valid() && |blocks| < capacity
      modifies this
      ensures |blocks| <= capacity
      ensures ok <==> InplaceAccepts(old(blocks), addressSpaceStart, addressSpaceEnd, address, bytes)
      ensures blocks == AfterInplace(old(blocks), addressSpaceStart, addressSpaceEnd, address, bytes)
      ensures 0 < bytes && address + bytes < U32 ==> Valid()
    {
      var start, end := address, (address + bytes) % U32;
      if start < addressSpaceStart || end > addressSpaceEnd {
        return false;
      }
      ok := IsFree(start, end);
      if ok {
        if 0 < bytes && address + bytes < U32 {
          InplaceAcceptsIffServes(blocks, addressSpaceStart, addressSpaceEnd, address, bytes);
          PushKeepsValid(blocks, addressSpaceStart, addressSpaceEnd, bytes, 1, address);
        }
        PushBlock(Block(start, end));
      }
    }

    method ScanSpaceStart(base: nat, alignment: nat) returns (address: nat)
      requires Valid() && alignment > 0 && AlignmentFits(addressSpaceEnd, alignment)
      requires base < addressSpaceEnd
      ensures address == FreeSpaceStart(blocks, addressSpaceEnd, base, alignment)
    {
      address := base;
      while true
        invariant base <= address < addressSpaceEnd
        invariant FreeSpaceStart(blocks, addressSpaceEnd, address, alignment)
               == FreeSpaceStart(blocks, addressSpaceEnd, base, alignment)
        decreases addressSpaceEnd - address
      {
        AlignBelow(address, addressSpaceEnd, alignment);
        address := AlignForward32(address, alignment);
        ghost var aligned := address;
        var i := 0;
        var overlaps := false;
        while i < |blocks| && !overlaps
          invariant i <= |blocks|
          invariant forall k :: 0 <= k < i ==> !Covers(blocks[k], aligned)
          invariant !overlaps ==> address == aligned
          invariant overlaps ==> i < |blocks| && Covers(blocks[i], aligned) && address == blocks[i].end
          decreases |blocks| - i, !overlaps
        {
          if address >= blocks[i].start && address < blocks[i].end {
            overlaps := true;
            address := blocks[i].end;
          } else {
            i := i + 1;
          }
        }
        assert FirstCovering(blocks, aligned) == i;
        if !overlaps || address == addressSpaceEnd {
          return;
        }
      }
    }

    method ScanSpaceEnd(from: nat) returns (end: nat)
      requires Valid()
      ensures end == FreeSpaceEnd(blocks, addressSpaceEnd, from)
    {
      end := addressSpaceEnd;
      var i := 0;
      while i < |blocks|
        invariant i <= |blocks|
        invariant end == FreeSpaceEnd(blocks[..i], addressSpaceEnd, from)
      {
        assert blocks[..i + 1][..i] == blocks[..i];
        if blocks[i].start > from && blocks[i].start < end {
          end := blocks[i].start;
        }
        i := i + 1;
      }
      assert blocks[..|blocks|] == blocks;
    }

    method SearchBestGap(bytes: nat, alignment: nat) returns (best: Gap)
      requires Valid() && alignment > 0 && AlignmentFits(addressSpaceEnd, alignment)
      ensures best == Scan(blocks, addressSpaceEnd, addressSpaceStart, bytes, alignment, Gap(0, 0))
    {
      var base := addressSpaceStart;
      best := Gap(0, 0);
      while true
        invariant addressSpaceStart <= base < addressSpaceEnd
        invariant Scan(blocks, addressSpaceEnd, base, bytes, alignment, best)
               == Scan(blocks, addressSpaceEnd, addressSpaceStart, bytes, alignment, Gap(0, 0))
        decreases addressSpaceEnd - base
      {
        var from := ScanSpaceStart(base, alignment);
        var to := ScanSpaceEnd(from);
        FreeSpaceStartAbove(blocks, addressSpaceEnd, base, alignment);
        FreeSpaceEndIsNextStart(blocks, addressSpaceEnd, from);
        var size := Minus32(to, from);
        if size >= bytes && (best.start == 0 || size < Minus32(best.end, best.start)) {
          best := Gap(from, to);
        }
        if to == addressSpaceEnd {
          return;
        }
        base := to;
      }
    }

    method Alloc(bytes: nat, alignment: nat) returns (address: nat)
      requires Valid() && |blocks| < capacity
      requires bytes > 0 && alignment > 0 && AlignmentFits(addressSpaceEnd, alignment)
      modifies this
      ensures |blocks| <= capacity
      ensures address == AllocResult(old(blocks), addressSpaceStart, addressSpaceEnd, bytes, alignment)
      ensures blocks == AfterAlloc(old(blocks), addressSpaceStart, addressSpaceEnd, bytes, alignment)
      ensures addressSpaceEnd % alignment <= 1 ==> Valid()
    {
      var best := SearchBestGap(bytes, alignment);
      if addressSpaceEnd % alignment <= 1 {
        AllocAddsAtMostOneBlock(blocks, addressSpaceStart, addressSpaceEnd, bytes, alignment);
      }
      if best.start == 0 {
        return 0;
      }
      PushBlock(Block(best.start, (best.start + bytes) % U32));
      return best.start;
    }
  }
}
