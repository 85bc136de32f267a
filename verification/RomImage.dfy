/**
 The ROM image that mkrom writes, and what its boot header says about it
 (mkrom/src/tux64-mkrom/builder.c). Cartridge addresses count from the start of the ROM.
 */
module RomImage {
  import opened Arithmetic
  import opened Bytes
  import opened Common
  import Checksum
  import opened BootPlan
  import FileLoad
  import LoadProtocol
  import opened RomBuilder

  datatype Input = Input(romHeader: seq<Byte>, stage0: seq<Byte>, stage0Cic: seq<Byte>, stage1: seq<Byte>,
                         stage2: seq<Byte>,
                         kernel: seq<Byte>, addrLoad: nat, initramfs: seq<Byte>, commandLine: seq<Byte>)
  {
    function Measures(): Sizes {
      Sizes(|stage0|, |stage0Cic|, |stage1|, |stage2|, |kernel|, |initramfs|, |commandLine|)
    }

    predicate Valid() {
      |romHeader| == ROM_HEADER_BYTES && Measures().Valid()
    }

    /** Stage 0 and its CIC data share the space in front of the boot header. */
    predicate Stage0Fits() {
      |stage0| + |stage0Cic| <= STAGE0_MAX_LENGTH
    }
  }

  // ----- The image, section by section -----

  function UpToBootHeader(i: Input): (r: seq<Byte>)
    requires i.Valid() && i.Stage0Fits()
    ensures |r| == BOOT_HEADER_AT
  {
    i.romHeader + i.stage0 + Zeros(STAGE0_MAX_LENGTH - |i.stage0| - |i.stage0Cic|) + i.stage0Cic
  }

  /** The start of the image and the space of each further file, zero-padded to whole words. */
  function UpTo(i: Input, bootHeader: seq<Byte>, files: seq<seq<Byte>>): seq<Byte>
    requires i.Valid() && i.Stage0Fits()
  {
    UpToBootHeader(i) + bootHeader + PaddedAll(files)
  }

  function PaddedAll(files: seq<seq<Byte>>): seq<Byte> {
    if files == [] then [] else PaddedAll(files[..|files| - 1]) + Checksum.Padded(files[|files| - 1])
  }

  /** An image that so far only begins; the rest is zero. */
  function Blank(prefix: seq<Byte>, size: nat): (r: seq<Byte>)
    requires |prefix| <= size
    ensures |r| == size
  {
    prefix + Zeros(size - |prefix|)
  }

  function Files(i: Input): seq<seq<Byte>> {
    [i.stage1, i.stage2, i.kernel, i.initramfs]
  }

  /** The finished image: all files in their places and nothing but zeros between and behind them. */
  function Rom(i: Input, bootHeader: seq<Byte>, size: nat): (r: seq<Byte>)
    requires i.Valid() && i.Stage0Fits() && |bootHeader| == BOOT_HEADER_BYTES
    requires CommandLineAt(i.Measures()) + |i.commandLine| <= size
    ensures |r| == size
  {
    LengthUpTo(i, bootHeader);
    Blank(UpTo(i, bootHeader, Files(i)) + i.commandLine, size)
  }

  lemma PaddedLength(data: seq<Byte>)
    ensures |Checksum.Padded(data)| == Space(|data|) && data <= Checksum.Padded(data)
  {
    SpaceOf(|data|);
  }

  lemma PaddedAllStep(files: seq<seq<Byte>>, last: seq<Byte>)
    ensures PaddedAll(files + [last]) == PaddedAll(files) + Checksum.Padded(last)
  {
    assert (files + [last])[..|files|] == files;
  }

  /** Writing a file behind what is there, on zeros, leaves it padded. */
  lemma WriteNext(i: Input, bootHeader: seq<Byte>, files: seq<seq<Byte>>, size: nat, data: seq<Byte>)
    requires i.Valid() && i.Stage0Fits() && |UpTo(i, bootHeader, files)| + Space(|data|) <= size
    ensures |UpTo(i, bootHeader, files + [data])| == |UpTo(i, bootHeader, files)| + Space(|data|)
    ensures |data| <= Space(|data|)
    ensures Store(Blank(UpTo(i, bootHeader, files), size), |UpTo(i, bootHeader, files)|, data)
         == Blank(UpTo(i, bootHeader, files + [data]), size)
  {
    UpToNext(i, bootHeader, files, data);
    PaddedLength(data);
    hide *;
    var prefix := UpTo(i, bootHeader, files);
    WriteOnBlank(prefix, size, data);
    PaddedIsBlank(prefix, size, data);
  }

  lemma UpToNext(i: Input, bootHeader: seq<Byte>, files: seq<seq<Byte>>, data: seq<Byte>)
    requires i.Valid() && i.Stage0Fits()
    ensures UpTo(i, bootHeader, files + [data]) == UpTo(i, bootHeader, files) + Checksum.Padded(data)
  {
    PaddedAllStep(files, data);
    hide PaddedAll;
    hide UpToBootHeader;
    Associate(UpToBootHeader(i) + bootHeader, PaddedAll(files), Checksum.Padded(data));
  }

  lemma WriteOnBlank(prefix: seq<Byte>, size: nat, data: seq<Byte>)
    requires |prefix| + |data| <= size
    ensures Store(Blank(prefix, size), |prefix|, data) == Blank(prefix + data, size)
  {
  }

  lemma PaddedIsBlank(prefix: seq<Byte>, size: nat, data: seq<Byte>)
    requires |prefix| + |Checksum.Padded(data)| <= size
    ensures Blank(prefix + data, size) == Blank(prefix + Checksum.Padded(data), size)
  {
  }

  lemma LengthUpTo(i: Input, bootHeader: seq<Byte>)
    requires i.Valid() && i.Stage0Fits() && |bootHeader| == BOOT_HEADER_BYTES
    ensures |UpTo(i, bootHeader, [])| == FIRST_AT
    ensures |UpTo(i, bootHeader, [i.stage1])| == Stage2At(i.Measures())
    ensures |UpTo(i, bootHeader, [i.stage1, i.stage2])| == KernelAt(i.Measures())
    ensures |UpTo(i, bootHeader, [i.stage1, i.stage2, i.kernel])| == InitramfsAt(i.Measures())
    ensures |UpTo(i, bootHeader, Files(i))| == CommandLineAt(i.Measures())
  {
    hide Space;
    PaddedAllStep([], i.stage1);
    PaddedAllStep([i.stage1], i.stage2);
    PaddedAllStep([i.stage1, i.stage2], i.kernel);
    PaddedAllStep([i.stage1, i.stage2, i.kernel], i.initramfs);
    assert [] + [i.stage1] == [i.stage1];
    assert [i.stage1] + [i.stage2] == [i.stage1, i.stage2];
    assert [i.stage1, i.stage2] + [i.kernel] == [i.stage1, i.stage2, i.kernel];
    assert [i.stage1, i.stage2, i.kernel] + [i.initramfs] == Files(i);
    PaddedLength(i.stage1);
    PaddedLength(i.stage2);
    PaddedLength(i.kernel);
    PaddedLength(i.initramfs);
  }

  // ----- Writing it -----

  method CopyIn(output: array<Byte>, pen: nat, data: seq<Byte>)
    requires pen + |data| <= output.Length
    modifies output
    ensures output[..] == Store(old(output[..]), pen, data)
  {
    forall k | 0 <= k < |data| {
      output[pen + k] := data[k];
    }
  }

  /** The image as it is written up to the boot header, whatever overlaps; later writes win. */
  function WrittenStart(i: Input, bootHeader: seq<Byte>, size: nat): (r: seq<Byte>)
    requires i.Valid() && |bootHeader| == BOOT_HEADER_BYTES
    requires FIRST_AT <= size && ROM_HEADER_BYTES + |i.stage0| <= size && |i.stage0Cic| <= BOOT_HEADER_AT
    ensures |r| == size
  {
    var withStage0 := Store(Store(Zeros(size), 0, i.romHeader), ROM_HEADER_BYTES, i.stage0);
    Store(Store(withStage0, BOOT_HEADER_AT - |i.stage0Cic|, i.stage0Cic), BOOT_HEADER_AT, bootHeader)
  }

  /** Nothing is written outside an image of this size. */
  predicate Writable(i: Input, size: nat) {
    && i.Valid() && |i.stage0Cic| <= BOOT_HEADER_AT && ROM_HEADER_BYTES + |i.stage0| <= size
    && CommandLineAt(i.Measures()) + |i.commandLine| <= size
  }

  /** The whole image as it is written. */
  function Written(i: Input, bootHeader: seq<Byte>, size: nat): (r: seq<Byte>)
    requires Writable(i, size) && |bootHeader| == BOOT_HEADER_BYTES
    ensures |r| == size
  {
    var s := i.Measures();
    SectionsFit(s);
    var withStage2 := Store(Store(WrittenStart(i, bootHeader, size), FIRST_AT, i.stage1), Stage2At(s), i.stage2);
    Store(Store(Store(withStage2, KernelAt(s), i.kernel), InitramfsAt(s), i.initramfs), CommandLineAt(s), i.commandLine)
  }

  lemma SectionsFit(s: Sizes)
    ensures FIRST_AT + s.stage1 <= Stage2At(s) && Stage2At(s) + s.stage2 <= KernelAt(s)
    ensures KernelAt(s) + s.kernel <= InitramfsAt(s) && InitramfsAt(s) + s.initramfs <= CommandLineAt(s)
  {
    hide Space;
    SpaceOf(s.stage1);
    SpaceOf(s.stage2);
    SpaceOf(s.kernel);
    SpaceOf(s.initramfs);
  }

  method ConstructStart(i: Input, bootHeader: seq<Byte>, output: array<Byte>)
    requires i.Valid() && |bootHeader| == BOOT_HEADER_BYTES && FIRST_AT <= output.Length
    requires ROM_HEADER_BYTES + |i.stage0| <= output.Length && |i.stage0Cic| <= BOOT_HEADER_AT
    modifies output
    ensures output[..] == WrittenStart(i, bootHeader, output.Length)
    ensures i.Stage0Fits() ==> output[..] == Blank(UpTo(i, bootHeader, []), output.Length)
  {
    forall k | 0 <= k < output.Length {
      output[k] := 0;
    }
    assert output[..] == Zeros(output.Length);
    hide *;
    CopyIn(output, 0, i.romHeader);
    CopyIn(output, ROM_HEADER_BYTES, i.stage0);
    CopyIn(output, BOOT_HEADER_AT - |i.stage0Cic|, i.stage0Cic);
    CopyIn(output, BOOT_HEADER_AT, bootHeader);
    StartIsWritten(i, bootHeader, output.Length);
  }

  /** When stage 0 and its CIC data fit, nothing overlaps. */
  lemma StartIsWritten(i: Input, bootHeader: seq<Byte>, size: nat)
    requires i.Valid() && |bootHeader| == BOOT_HEADER_BYTES && FIRST_AT <= size
    requires ROM_HEADER_BYTES + |i.stage0| <= size && |i.stage0Cic| <= BOOT_HEADER_AT
    ensures i.Stage0Fits() ==> WrittenStart(i, bootHeader, size) == Blank(UpTo(i, bootHeader, []), size)
    ensures WrittenStart(i, bootHeader, size)
         == Store(Store(Store(Store(Zeros(size), 0, i.romHeader), ROM_HEADER_BYTES, i.stage0),
                        BOOT_HEADER_AT - |i.stage0Cic|, i.stage0Cic),
                  BOOT_HEADER_AT, bootHeader)
  {
    hide Store;
    hide Zeros;
    if i.Stage0Fits() {
      NothingWritten(size);
      WriteOnBlank([], size, i.romHeader);
      assert [] + i.romHeader == i.romHeader;
      WriteOnBlank(i.romHeader, size, i.stage0);
      CicIsInPlace(i, size);
      WriteOnBlank(UpToBootHeader(i), size, bootHeader);
      assert PaddedAll([]) == [] && UpTo(i, bootHeader, []) == UpToBootHeader(i) + bootHeader;
    }
  }

  lemma NothingWritten(size: nat)
    ensures Blank([], size) == Zeros(size)
  {
  }

  lemma CicIsInPlace(i: Input, size: nat)
    requires i.Valid() && i.Stage0Fits() && FIRST_AT <= size
    ensures Store(Blank(i.romHeader + i.stage0, size), BOOT_HEADER_AT - |i.stage0Cic|, i.stage0Cic)
         == Blank(UpToBootHeader(i), size)
  {
    var before := Blank(i.romHeader + i.stage0, size);
    var gap := Zeros(STAGE0_MAX_LENGTH - |i.stage0| - |i.stage0Cic|);
    assert before[..BOOT_HEADER_AT - |i.stage0Cic|] == i.romHeader + i.stage0 + gap;
    assert before[BOOT_HEADER_AT..] == Zeros(size - BOOT_HEADER_AT);
  }

  lemma AlignIsSpace(bytes: nat)
    requires bytes <= MAX_ROM_BYTES
    ensures Align4(bytes) == Space(bytes)
  {
    SpaceOf(bytes);
  }

  method ConstructFile(output: array<Byte>, pen: nat, data: seq<Byte>) returns (next: nat)
    requires pen + |data| <= output.Length && |data| <= MAX_ROM_BYTES
    modifies output
    ensures next == pen + Space(|data|)
    ensures output[..] == Store(old(output[..]), pen, data)
  {
    CopyIn(output, pen, data);
    AlignIsSpace(|data|);
    next := pen + Align4(|data|);
  }

  /** Writes the image. That the output is as long as this needs is not checked here. */
  method Construct(i: Input, bootHeader: seq<Byte>, output: array<Byte>)
    requires Writable(i, output.Length) && i.Measures().Sensible() && |bootHeader| == BOOT_HEADER_BYTES
    modifies output
    ensures output[..] == Written(i, bootHeader, output.Length)
    ensures i.Stage0Fits() ==> output[..] == Rom(i, bootHeader, output.Length)
  {
    hide Space;
    hide Store;
    hide WrittenStart;
    SectionsFit(i.Measures());
    ConstructStart(i, bootHeader, output);
    var pen: nat := BOOT_HEADER_AT + BOOT_HEADER_BYTES;
    pen := ConstructFile(output, pen, i.stage1);
    pen := ConstructFile(output, pen, i.stage2);
    pen := ConstructFile(output, pen, i.kernel);
    pen := ConstructFile(output, pen, i.initramfs);
    CopyIn(output, pen, i.commandLine);
    if i.Stage0Fits() {
      WrittenIsRom(i, bootHeader, output.Length);
    }
  }

  /** When stage 0 and its CIC data fit, what is written is the image with every section in its place. */
  lemma WrittenIsRom(i: Input, bootHeader: seq<Byte>, size: nat)
    requires i.Valid() && i.Stage0Fits() && |bootHeader| == BOOT_HEADER_BYTES
    requires CommandLineAt(i.Measures()) + |i.commandLine| <= size
    ensures Writable(i, size)
    ensures Written(i, bootHeader, size) == Rom(i, bootHeader, size)
  {
    hide Space;
    hide Store;
    hide UpTo;
    hide Blank;
    hide WrittenStart;
    LengthUpTo(i, bootHeader);
    FilesInOrder(i);
    SectionsFit(i.Measures());
    StartIsWritten(i, bootHeader, size);
    WriteNext(i, bootHeader, [], size, i.stage1);
    WriteNext(i, bootHeader, [i.stage1], size, i.stage2);
    WriteNext(i, bootHeader, [i.stage1, i.stage2], size, i.kernel);
    WriteNext(i, bootHeader, [i.stage1, i.stage2, i.kernel], size, i.initramfs);
    WriteOnBlank(UpTo(i, bootHeader, Files(i)), size, i.commandLine);
  }

  // ----- The start of the image -----

  /** The image holds the ROM header, stage 0, its CIC data and the boot header where the console looks for them. */
  predicate HoldsStart(i: Input, bootHeader: seq<Byte>, image: seq<Byte>)
    requires i.Valid() && |bootHeader| == BOOT_HEADER_BYTES
    requires FIRST_AT <= |image| && ROM_HEADER_BYTES + |i.stage0| <= |image| && |i.stage0Cic| <= BOOT_HEADER_AT
  {
    && image[..ROM_HEADER_BYTES] == i.romHeader
    && image[ROM_HEADER_BYTES..ROM_HEADER_BYTES + |i.stage0|] == i.stage0
    && image[BOOT_HEADER_AT - |i.stage0Cic|..BOOT_HEADER_AT] == i.stage0Cic
    && image[BOOT_HEADER_AT..FIRST_AT] == bootHeader
  }

  lemma RomHoldsStart(i: Input, bootHeader: seq<Byte>, size: nat)
    requires i.Valid() && i.Stage0Fits() && |bootHeader| == BOOT_HEADER_BYTES
    requires CommandLineAt(i.Measures()) + |i.commandLine| <= size
    ensures FIRST_AT <= size && HoldsStart(i, bootHeader, Rom(i, bootHeader, size))
  {
    var gap := Zeros(STAGE0_MAX_LENGTH - |i.stage0| - |i.stage0Cic|);
    var rest := RomBegins(i, bootHeader, size);
    hide Rom;
    hide Space;
    StartSections(i.romHeader, i.stage0, gap, i.stage0Cic, bootHeader, rest);
  }

  lemma RomBegins(i: Input, bootHeader: seq<Byte>, size: nat) returns (rest: seq<Byte>)
    requires i.Valid() && i.Stage0Fits() && |bootHeader| == BOOT_HEADER_BYTES
    requires CommandLineAt(i.Measures()) + |i.commandLine| <= size
    ensures FIRST_AT <= size && Rom(i, bootHeader, size) == UpToBootHeader(i) + bootHeader + rest
  {
    LengthUpTo(i, bootHeader);
    SectionsFit(i.Measures());
    hide Space;
    var start := UpToBootHeader(i) + bootHeader;
    assert start <= UpTo(i, bootHeader, Files(i)) <= Rom(i, bootHeader, size);
    hide *;
    rest := Rom(i, bootHeader, size)[|start|..];
  }

  lemma StartSections(a: seq<Byte>, b: seq<Byte>, gap: seq<Byte>, c: seq<Byte>, d: seq<Byte>, rest: seq<Byte>)
    ensures var start := |a| + |b| + |gap|;
            var image := a + b + gap + c + d + rest;
            && image[..|a|] == a && image[|a|..|a| + |b|] == b
            && image[start..start + |c|] == c && image[start + |c|..start + |c| + |d|] == d
  {
  }

  function Filled(n: nat, value: Byte): (r: seq<Byte>)
    ensures |r| == n && forall k :: 0 <= k < n ==> r[k] == value
  {
    seq(n, _ => value)
  }

  /** Contents of given lengths in which every section has a byte of its own. */
  function Telltale(s: Sizes): (i: Input)
    requires s.Valid()
    ensures i.Valid() && i.Measures() == s
  {
    Input(Filled(ROM_HEADER_BYTES, 1), Filled(s.stage0, 2), Filled(s.stage0Cic, 3), Zeros(s.stage1), Zeros(s.stage2),
          Zeros(s.kernel), 0, Zeros(s.initramfs), Zeros(s.commandLine))
  }

  /** No image at all can hold sections that overlap, whoever writes it. */
  lemma OverlapShows(s: Sizes, image: seq<Byte>)
    requires s.Valid() && s.stage0 + s.stage0Cic > STAGE0_MAX_LENGTH
    requires FIRST_AT <= |image| && ROM_HEADER_BYTES + s.stage0 <= |image| && s.stage0Cic <= BOOT_HEADER_AT
    ensures !HoldsStart(Telltale(s), Filled(BOOT_HEADER_BYTES, 4), image)
  {
    var i, bootHeader := Telltale(s), Filled(BOOT_HEADER_BYTES, 4);
    var at := BOOT_HEADER_AT - s.stage0Cic;
    assert image[BOOT_HEADER_AT..FIRST_AT][0] == image[BOOT_HEADER_AT] && bootHeader[0] == 4;
    if s.stage0Cic > 0 {
      assert image[at..BOOT_HEADER_AT][0] == image[at] && i.stage0Cic[0] == 3;
    }
    if at < ROM_HEADER_BYTES {
      assert image[..ROM_HEADER_BYTES][at] == image[at] && i.romHeader[at] == 1;
    } else {
      var k := at - ROM_HEADER_BYTES;
      assert image[ROM_HEADER_BYTES..ROM_HEADER_BYTES + s.stage0][k] == image[at] && i.stage0[k] == 2;
    }
  }

  /** For contents of these lengths every write stays inside, and the start of the image holds all it should. */
  ghost predicate StartIsSafe(s: Sizes, size: nat)
    requires s.Valid() && CommandLineAt(s) + s.commandLine <= size
  {
    && ROM_HEADER_BYTES + s.stage0 <= size && s.stage0Cic <= BOOT_HEADER_AT
    && forall i: Input, bootHeader: seq<Byte> ::
         i.Valid() && i.Measures() == s && |bootHeader| == BOOT_HEADER_BYTES ==>
           HoldsStart(i, bootHeader, Written(i, bootHeader, size))
  }

  /** The length check whose result is thrown away is the exact one: without it, sections overwrite each other. */
  lemma StartIsSafeIff(s: Sizes, size: nat)
    requires s.Valid() && CommandLineAt(s) + s.commandLine <= size
    ensures StartIsSafe(s, size) <==> s.stage0 + s.stage0Cic <= STAGE0_MAX_LENGTH
  {
    SectionsFit(s);
    hide Written;
    hide HoldsStart;
    hide Space;
    if s.stage0 + s.stage0Cic <= STAGE0_MAX_LENGTH {
      forall i: Input, bootHeader: seq<Byte> | i.Valid() && i.Measures() == s && |bootHeader| == BOOT_HEADER_BYTES
        ensures HoldsStart(i, bootHeader, Written(i, bootHeader, size))
      {
        WrittenIsRom(i, bootHeader, size);
        RomHoldsStart(i, bootHeader, size);
      }
    } else if ROM_HEADER_BYTES + s.stage0 <= size && s.stage0Cic <= BOOT_HEADER_AT {
      OverlapShows(s, Written(Telltale(s), Filled(BOOT_HEADER_BYTES, 4), size));
    }
  }

  lemma SmallSum(s: Sizes)
    requires s.stage1 == s.stage2 == s.kernel == 4 && s.initramfs == 0 && s.commandLine == 2
    ensures CommandLineAt(s) + Space(MeasuredCommandLine(s.commandLine)) <= MAX_ROM_BYTES
  {
    hide Space;
    SpaceOf(4);
    SpaceOf(0);
    SpaceOf(3);
  }

  /** An input that is accepted although its stage 0 reaches one byte into the boot header. */
  lemma LongStage0IsAccepted()
    ensures var s := Sizes(STAGE0_MAX_LENGTH + 1, 0, 4, 4, 4, 0, 2);
            && s.Valid() && s.Sensible() && Measured(s) == Measure(Ok, RomSize(s))
            && CommandLineAt(s) + s.commandLine <= RomSize(s) && !StartIsSafe(s, RomSize(s))
  {
    var s := Sizes(STAGE0_MAX_LENGTH + 1, 0, 4, 4, 4, 0, 2);
    SensibleNeverOverflows(s);
    hide OverflowStatus;
    hide AddUp;
    hide RomSize;
    PartsInOrder(s);
    SmallSum(s);
    ModestSumFits(FIRST_AT, Parts(s), 0);
    MeasureIsExactIff(s);
    WritesStayInsideIff(s);
    StartIsSafeIff(s, RomSize(s));
  }

  lemma FilesInOrder(i: Input)
    ensures [] + [i.stage1] == [i.stage1] && [i.stage1] + [i.stage2] == [i.stage1, i.stage2]
    ensures [i.stage1, i.stage2] + [i.kernel] == [i.stage1, i.stage2, i.kernel]
    ensures [i.stage1, i.stage2, i.kernel] + [i.initramfs] == Files(i)
  {
  }

  // ----- The boot header -----

  function HeaderLength(characters: nat): nat {
    if characters == 1 then 0 else characters
  }

  /** What the header is to say: where each file is, how long it is, and its checksum. */
  function HeaderOf(i: Input): Header {
    var s := i.Measures();
    Header(File(Checksum.Fletcher(i.kernel), KernelAt(s), |i.kernel|), i.addrLoad,
           File(Checksum.Fletcher(i.initramfs), InitramfsAt(s), |i.initramfs|),
           File(Checksum.Fletcher(i.commandLine), CommandLineAt(s), HeaderLength(|i.commandLine|)),
           File(Checksum.Fletcher(i.stage2), Stage2At(s), |i.stage2|))
  }

  method CalculateChecksum(data: seq<Byte>) returns (checksum: nat)
    ensures checksum == Checksum.Fletcher(data)
  {
    Checksum.OneShotIsFletcher(data);
    checksum := Checksum.OneShot(data);
  }

  lemma OffsetIsModest(offset: nat, bytes: nat)
    requires offset <= 0x2000_0000 && bytes <= MAX_ROM_BYTES
    ensures (offset + Align4(bytes)) % U32 == offset + Space(bytes) <= offset + MAX_ROM_BYTES
  {
    SpaceOf(bytes);
  }

  /** The offsets are added up apart from those of the writer, and come to the same places. */
  method InitializeBootHeader(i: Input) returns (header: Header)
    requires i.Valid() && i.Measures().Sensible()
    ensures header == HeaderOf(i)
  {
    hide Align4;
    hide Space;
    var commandLineBytes := if |i.commandLine| == 1 then 0 else |i.commandLine|;
    var offset := BOOT_HEADER_AT + BOOT_HEADER_BYTES;
    OffsetIsModest(offset, |i.stage1|);
    offset := (offset + Align4(|i.stage1|)) % U32;
    var checksum := CalculateChecksum(i.stage2);
    var stage2 := File(checksum, offset, |i.stage2|);
    OffsetIsModest(offset, |i.stage2|);
    offset := (offset + Align4(|i.stage2|)) % U32;
    checksum := CalculateChecksum(i.kernel);
    var kernel := File(checksum, offset, |i.kernel|);
    OffsetIsModest(offset, |i.kernel|);
    offset := (offset + Align4(|i.kernel|)) % U32;
    checksum := CalculateChecksum(i.initramfs);
    var initramfs := File(checksum, offset, |i.initramfs|);
    OffsetIsModest(offset, |i.initramfs|);
    offset := (offset + Align4(|i.initramfs|)) % U32;
    checksum := CalculateChecksum(i.commandLine);
    var commandLine := File(checksum, offset, commandLineBytes);
    header := Header(kernel, i.addrLoad, initramfs, commandLine, stage2);
  }

  // ----- The header describes the image -----

  lemma StoredInFront(memory: seq<Byte>, at: nat, data: seq<Byte>, from: nat, n: nat)
    requires from + n <= at && at + |data| <= |memory|
    ensures Store(memory, at, data)[from..from + n] == memory[from..from + n]
  {
  }

  /** The image holds `data` at `at`. */
  predicate HoldsAt(image: seq<Byte>, at: nat, data: seq<Byte>) {
    at + |data| <= |image| && image[at..at + |data|] == data
  }

  lemma StoresFive(image: seq<Byte>, a: nat, d1: seq<Byte>, b: nat, d2: seq<Byte>, c: nat, d3: seq<Byte>, d: nat,
                   d4: seq<Byte>, e: nat, d5: seq<Byte>)
    requires a + |d1| <= b && b + |d2| <= c && c + |d3| <= d && d + |d4| <= e && e + |d5| <= |image|
    ensures var r := Store(Store(Store(Store(Store(image, a, d1), b, d2), c, d3), d, d4), e, d5);
            HoldsAt(r, b, d2) && HoldsAt(r, c, d3) && HoldsAt(r, d, d4) && HoldsAt(r, e, d5)
  {
    hide Store;
    var m1 := Store(image, a, d1);
    var m2 := Store(m1, b, d2);
    var m3 := Store(m2, c, d3);
    var m4 := Store(m3, d, d4);
    FileLoad.StoredBytes(m1, b, d2);
    FileLoad.StoredBytes(m2, c, d3);
    FileLoad.StoredBytes(m3, d, d4);
    FileLoad.StoredBytes(m4, e, d5);
    StoredInFront(m2, c, d3, b, |d2|);
    StoredInFront(m3, d, d4, b, |d2|);
    StoredInFront(m4, e, d5, b, |d2|);
    StoredInFront(m3, d, d4, c, |d3|);
    StoredInFront(m4, e, d5, c, |d3|);
    StoredInFront(m4, e, d5, d, |d4|);
  }

  /** The files are found, unpadded, where they were written, whatever became of stage 0 in front of them. */
  lemma WrittenHoldsFiles(i: Input, bootHeader: seq<Byte>, size: nat)
    requires Writable(i, size) && |bootHeader| == BOOT_HEADER_BYTES
    ensures var rom, s := Written(i, bootHeader, size), i.Measures();
            && HoldsAt(rom, Stage2At(s), i.stage2) && HoldsAt(rom, KernelAt(s), i.kernel)
            && HoldsAt(rom, InitramfsAt(s), i.initramfs) && HoldsAt(rom, CommandLineAt(s), i.commandLine)
  {
    var s := i.Measures();
    hide Space;
    hide WrittenStart;
    hide Store;
    hide HoldsAt;
    SectionsFit(s);
    StoresFive(WrittenStart(i, bootHeader, size), FIRST_AT, i.stage1, Stage2At(s), i.stage2, KernelAt(s), i.kernel,
               InitramfsAt(s), i.initramfs, CommandLineAt(s), i.commandLine);
  }

  /** Each address and length of the header selects exactly that file; a lone terminator is left out. */
  lemma HeaderSelectsFiles(i: Input, bootHeader: seq<Byte>, size: nat)
    requires Writable(i, size) && |bootHeader| == BOOT_HEADER_BYTES
    ensures var rom, h := Written(i, bootHeader, size), HeaderOf(i);
            && h.stage2.addrCart + h.stage2.length <= size && h.kernel.addrCart + h.kernel.length <= size
            && h.initramfs.addrCart + h.initramfs.length <= size
                && h.commandLine.addrCart + h.commandLine.length <= size
            && FileLoad.Contents(rom, h.stage2) == i.stage2
            && FileLoad.Contents(rom, h.kernel) == i.kernel
            && FileLoad.Contents(rom, h.initramfs) == i.initramfs
            && FileLoad.Contents(rom, h.commandLine) == if |i.commandLine| == 1 then [] else i.commandLine
  {
    hide Written;
    hide Space;
    hide Checksum.Fletcher;
    hide Stage2At;
    hide KernelAt;
    hide InitramfsAt;
    hide CommandLineAt;
    WrittenHoldsFiles(i, bootHeader, size);
  }

  /** One byte makes one word, and the last word has no weight. */
  lemma FletcherOfOne(data: seq<Byte>)
    requires |data| == 1
    ensures Checksum.Fletcher(data) == Checksum.Fletcher([])
  {
    var padded := Checksum.Padded(data);
    assert |padded| == 4 && padded[4..] == [];
    assert Checksum.Words(padded) == [Word(padded[..4])];
    assert [Word(padded[..4])][1..] == [];
    assert Checksum.Padded([]) == [] && Checksum.Words([]) == [];
  }

  /** A boot from a built ROM finds every file on the cartridge, and every checksum matches. */
  lemma BuiltRomMatches(i: Input, bootHeader: seq<Byte>, size: nat, sys: LoadProtocol.System)
    requires Writable(i, size) && |bootHeader| == BOOT_HEADER_BYTES
    requires sys.cart == Written(i, bootHeader, size) && sys.header == HeaderOf(i)
    ensures forall f :: f in {sys.header.stage2, sys.header.kernel, sys.header.initramfs, sys.header.commandLine} ==>
              sys.OnCart(f) && LoadProtocol.Matches(sys, f)
  {
    hide Written;
    hide Checksum.Fletcher;
    HeaderSelectsFiles(i, bootHeader, size);
    if |i.commandLine| == 1 {
      FletcherOfOne(i.commandLine);
    }
  }

  // ----- From the builder to the kernel -----

  /** The bytes that the kernel is to find; a command line that is only a terminator counts as none. */
  function FileBytes(i: Input, id: FileId): seq<Byte> {
    match id
    case Kernel => i.kernel
    case Initramfs => i.initramfs
    case CommandLine => if |i.commandLine| == 1 then [] else i.commandLine
  }

  lemma HeaderSelects(i: Input, bootHeader: seq<Byte>, size: nat, id: FileId)
    requires Writable(i, size) && |bootHeader| == BOOT_HEADER_BYTES
    ensures var f := FileOf(HeaderOf(i), id);
            && f.length == |FileBytes(i, id)| && f.addrCart + f.length <= size
            && FileLoad.Contents(Written(i, bootHeader, size), f) == FileBytes(i, id)
  {
    hide Written;
    HeaderSelectsFiles(i, bootHeader, size);
    match id case Kernel => case Initramfs => case CommandLine =>
  }

  /** Memory holds the file that went into the ROM, at the address that the plan gave it. */
  ghost predicate Holds(sys: LoadProtocol.System, rdram: seq<Byte>, i: Input, id: FileId) {
    var address, bytes := sys.AddressOf(id), FileBytes(i, id);
    bytes != [] ==> address + |bytes| <= |rdram| && rdram[address..address + |bytes|] == bytes
  }

  lemma InPlaceHolds(i: Input, bootHeader: seq<Byte>, size: nat, sys: LoadProtocol.System, rdram: seq<Byte>, id: FileId)
    requires Writable(i, size) && |bootHeader| == BOOT_HEADER_BYTES
    requires sys.Valid() && sys.plan.ok && |rdram| == sys.rdramSize
    requires sys.cart == Written(i, bootHeader, size) && sys.header == HeaderOf(i)
    requires LoadProtocol.InPlace(sys, rdram, id)
    ensures Holds(sys, rdram, i, id)
  {
    hide Written;
    hide HeaderOf;
    HeaderSelects(i, bootHeader, size, id);
    assert sys.Placed(id);
  }

  /** What a boot owes the kernel about one file. */
  ghost predicate Delivers(sys: LoadProtocol.System, i: Input, initial: seq<Byte>, ticks: nat,
                           env: FileLoad.Environment, id: FileId)
    requires sys.Valid() && |initial| == sys.rdramSize
  {
    LoadProtocol.BootFor(sys, initial, ticks, env).KernelRuns?
    && (sys.LoadedByStage1(id) || LoadProtocol.Stage2Clean(LoadProtocol.BootRun(sys, initial, ticks, env).machine, env))
    ==> Holds(sys, LoadProtocol.BootFor(sys, initial, ticks, env).machine.rdram, i, id)
  }

  lemma IntactDelivers(i: Input, bootHeader: seq<Byte>, size: nat, sys: LoadProtocol.System,
                       initial: seq<Byte>, ticks: nat, env: FileLoad.Environment, id: FileId)
    requires Writable(i, size) && |bootHeader| == BOOT_HEADER_BYTES
    requires sys.Valid() && |initial| == sys.rdramSize && sys.cart == Written(i, bootHeader, size)
             && sys.header == HeaderOf(i)
    requires LoadProtocol.AllApart(sys)
    ensures Delivers(sys, i, initial, ticks, env, id)
  {
    hide Written;
    hide HeaderOf;
    hide Holds;
    var boot := LoadProtocol.BootFor(sys, initial, ticks, env);
    if boot.KernelRuns?
       && (sys.LoadedByStage1(id) || LoadProtocol.Stage2Clean(LoadProtocol.BootRun(sys, initial, ticks, env).machine,
           env))
    {
      LoadProtocol.KernelStartsIntact(sys, initial, ticks, env);
      assert LoadProtocol.Good(sys, boot.machine.rdram, id,
                               LoadProtocol.Stage2Clean(LoadProtocol.BootRun(sys, initial, ticks, env).machine, env));
      InPlaceHolds(i, bootHeader, size, sys, boot.machine.rdram, id);
    }
  }

  /** A boot that starts the kernel and has transferred it well finds it where the builder was asked to put it. */
  ghost predicate KernelIsAt(sys: LoadProtocol.System, addrLoad: nat, kernel: seq<Byte>, initial: seq<Byte>,
                             ticks: nat, env: FileLoad.Environment)
    requires sys.Valid() && |initial| == sys.rdramSize
  {
    var boot := LoadProtocol.BootFor(sys, initial, ticks, env);
    boot.KernelRuns?
    && (sys.LoadedByStage1(Kernel)
        || LoadProtocol.Stage2Clean(LoadProtocol.BootRun(sys, initial, ticks, env).machine, env))
    ==> addrLoad + |kernel| <= |boot.machine.rdram| && boot.machine.rdram[addrLoad..addrLoad + |kernel|] == kernel
  }

  /**
   The whole way: if the plan for a built ROM is not mixed, then a kernel that is started finds
   in memory exactly the files that went into the ROM, unless a transfer of stage 2 has failed,
   and itself at the load address that went into the builder.
   */
  lemma BuiltRomBoots(i: Input, bootHeader: seq<Byte>, rom: seq<Byte>, header: Header, config: LoadProtocol.Config,
                      layout: Layout,
                      stage2Address: nat, initial: seq<Byte>, ticks: nat, env: FileLoad.Environment, id: FileId)
    requires Writable(i, |rom|) && |bootHeader| == BOOT_HEADER_BYTES
    requires rom == Written(i, bootHeader, |rom|) && header == HeaderOf(i)
    requires LoadProtocol.Sound(config, layout, header, stage2Address, rom, |initial|)
    requires var sys := LoadProtocol.PlannedSystem(config, layout, header, stage2Address, rom, |initial|);
             sys.plan.ok && Unmixed(sys.plan.placement, header)
    ensures var sys := LoadProtocol.PlannedSystem(config, layout, header, stage2Address, rom, |initial|);
            && sys.Valid() && Delivers(sys, i, initial, ticks, env, id)
            && KernelIsAt(sys, i.addrLoad, i.kernel, initial, ticks, env)
  {
    hide Written;
    hide HeaderOf;
    hide Delivers;
    hide PlaceBootFiles;
    LoadProtocol.PlannedSystemIsValid(config, layout, header, stage2Address, rom, |initial|);
    LoadProtocol.UnmixedIsApart(config, layout, header, stage2Address, rom, |initial|);
    var sys := LoadProtocol.PlannedSystem(config, layout, header, stage2Address, rom, |initial|);
    IntactDelivers(i, bootHeader, |rom|, sys, initial, ticks, env, id);
    IntactDelivers(i, bootHeader, |rom|, sys, initial, ticks, env, Kernel);
    PlanIsSafe(layout, header);
    HeaderHasLoadAddress(i);
    DeliveredKernelIsAt(i, sys, initial, ticks, env);
  }

  lemma HeaderHasLoadAddress(i: Input)
    ensures HeaderOf(i).addrLoad == i.addrLoad && HeaderOf(i).kernel.length == |i.kernel|
  {
  }

  lemma DeliveredKernelIsAt(i: Input, sys: LoadProtocol.System, initial: seq<Byte>, ticks: nat,
                            env: FileLoad.Environment)
    requires sys.Valid() && |initial| == sys.rdramSize && Delivers(sys, i, initial, ticks, env, Kernel)
    requires sys.AddressOf(Kernel) == i.addrLoad && i.kernel != []
    ensures KernelIsAt(sys, i.addrLoad, i.kernel, initial, ticks, env)
  {
    hide LoadProtocol.BootFor;
    hide LoadProtocol.BootRun;
    hide LoadProtocol.Stage2Clean;
  }
}
