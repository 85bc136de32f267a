/** The ROM builder (mkrom/src/tux64-mkrom/builder.c): measuring, the boot header, and writing the image. */
module RomBuilder {
  import opened Arithmetic
  import opened Bytes
  import Checksum
  import opened BootPlan
  import FileLoad

  const BYTES_PER_WORD: nat := 4
  const ROM_HEADER_BYTES: nat := 64
  const BOOT_HEADER_BYTES: nat := 84
  const BOOT_HEADER_AT: nat := 0x1000
  const ROM_SIZE_ALIGNMENT: nat := 16
  const MAX_ROM_BYTES: nat := 0x400_0000
  const ALIGNMENT_MAX_VALUE: nat := 0xffff_fffc
  const STAGE0_MAX_LENGTH: nat := 0xfc0

  // ----- Sizes -----

  /** The byte counts of the inputs; the command line counts its terminator. */
  datatype Sizes = Sizes(stage0: nat, stage0Cic: nat, stage1: nat, stage2: nat, kernel: nat, initramfs: nat,
                         commandLine: nat) {
    predicate Valid() {
      && stage0 < U32 && stage0Cic < U32 && stage1 < U32 && stage2 < U32
      && kernel < U32 && initramfs < U32 && commandLine < U32
    }

    /** No file by itself is longer than a ROM can be. */
    predicate Sensible() {
      && stage1 <= MAX_ROM_BYTES && stage2 <= MAX_ROM_BYTES
      && kernel <= MAX_ROM_BYTES && initramfs <= MAX_ROM_BYTES
    }
  }

  function Align4(value: nat): nat {
    AlignForward32(value, BYTES_PER_WORD)
  }

  /** The space a file takes, without wrapping. */
  function Space(bytes: nat): nat {
    AlignForward(bytes, BYTES_PER_WORD)
  }

  lemma SpaceOf(bytes: nat)
    ensures bytes <= Space(bytes) < bytes + 4 && Space(bytes) % 4 == 0
    ensures Space(bytes) == if bytes % 4 == 0 then bytes else bytes + (4 - bytes % 4)
  {
    assert bytes == 4 * (bytes / 4) + bytes % 4;
    if bytes % 4 == 0 {
      DivModUnique(if bytes == 0 then 0 else bytes - 1, 4, if bytes == 0 then 0 else bytes / 4 - 1,
          if bytes == 0 then 0 else 3);
    } else {
      DivModUnique(bytes - 1, 4, bytes / 4, bytes % 4 - 1);
    }
  }

  /** What is measured for a command line: a lone terminator counts as nothing. */
  function MeasuredCommandLine(characters: nat): nat {
    if characters == 1 then 0 else characters + 1
  }

  /** What is measured behind the boot header, in order. */
  function Parts(s: Sizes): seq<nat> {
    [s.stage1, s.stage2, s.kernel, s.initramfs, MeasuredCommandLine(s.commandLine)]
  }

  datatype Sum = Fits(marker: nat) | TooLong(part: nat)

  /** The running 32-bit marker; the first part that takes it past the largest ROM is at fault. */
  function AddUp(marker: nat, parts: seq<nat>, index: nat): Sum
    decreases |parts|
  {
    if parts == [] then Fits(marker)
    else
      var marker' := (marker + Align4(parts[0])) % U32;
      if marker' > MAX_ROM_BYTES then TooLong(index) else AddUp(marker', parts[1..], index + 1)
  }

  function TotalSpace(parts: seq<nat>): nat {
    if parts == [] then 0 else Space(parts[0]) + TotalSpace(parts[1..])
  }

  predicate AllSensible(parts: seq<nat>) {
    forall i :: 0 <= i < |parts| ==> parts[i] <= MAX_ROM_BYTES
  }

  lemma SumStep(marker: nat, part: nat)
    requires marker <= MAX_ROM_BYTES
    ensures part <= Space(part)
    ensures part <= MAX_ROM_BYTES ==> (marker + Align4(part)) % U32 == marker + Space(part)
  {
    SpaceOf(part);
  }

  /** A sum that is accepted is the true one exactly when no part by itself is longer than a ROM. */
  lemma {:induction false} AddUpIsExactIff(marker: nat, parts: seq<nat>, index: nat)
    requires marker <= MAX_ROM_BYTES && AddUp(marker, parts, index).Fits?
    ensures AddUp(marker, parts, index).marker <= MAX_ROM_BYTES
    ensures AddUp(marker, parts, index).marker == marker + TotalSpace(parts) <==> AllSensible(parts)
    decreases |parts|
  {
    if parts != [] {
      var part := parts[0];
      SumStep(marker, part);
      hide Align4;
      hide Space;
      AddUpIsExactIff((marker + Align4(part)) % U32, parts[1..], index + 1);
      assert AllSensible(parts) <==> part <= MAX_ROM_BYTES && AllSensible(parts[1..]) by {
        assert parts == [part] + parts[1..];
      }
    }
  }

  /** A sum that does not pass the largest ROM is accepted. */
  lemma {:induction false} ModestSumFits(marker: nat, parts: seq<nat>, index: nat)
    requires AllSensible(parts) && marker + TotalSpace(parts) <= MAX_ROM_BYTES
    ensures AddUp(marker, parts, index).Fits?
    decreases |parts|
  {
    if parts != [] {
      SumStep(marker, parts[0]);
      hide Align4;
      hide Space;
      ModestSumFits(marker + Space(parts[0]), parts[1..], index + 1);
    }
  }

  const FIRST_AT: nat := BOOT_HEADER_AT + BOOT_HEADER_BYTES

  /** Where the files begin, without wrapping. */
  function Stage2At(s: Sizes): nat {
    FIRST_AT + Space(s.stage1)
  }

  function KernelAt(s: Sizes): nat {
    Stage2At(s) + Space(s.stage2)
  }

  function InitramfsAt(s: Sizes): nat {
    KernelAt(s) + Space(s.kernel)
  }

  function CommandLineAt(s: Sizes): nat {
    InitramfsAt(s) + Space(s.initramfs)
  }

  function RomSize(s: Sizes): nat {
    AlignForward(CommandLineAt(s) + Space(MeasuredCommandLine(s.commandLine)), ROM_SIZE_ALIGNMENT)
  }

  lemma TotalSpaceStep(first: nat, rest: seq<nat>, parts: seq<nat>)
    requires parts == [first] + rest
    ensures TotalSpace(parts) == Space(first) + TotalSpace(rest)
  {
    assert parts[1..] == rest;
  }

  lemma PartsInOrder(s: Sizes)
    ensures FIRST_AT + TotalSpace(Parts(s)) == CommandLineAt(s) + Space(MeasuredCommandLine(s.commandLine))
    ensures MeasuredCommandLine(s.commandLine) <= MAX_ROM_BYTES ==> (AllSensible(Parts(s)) <==> s.Sensible())
  {
    hide Space;
    var p := Parts(s);
    var last := [MeasuredCommandLine(s.commandLine)];
    assert TotalSpace(last) == Space(last[0]) by { assert last[1..] == []; }
    TotalSpaceStep(s.initramfs, last, [s.initramfs] + last);
    TotalSpaceStep(s.kernel, [s.initramfs] + last, [s.kernel, s.initramfs] + last);
    TotalSpaceStep(s.stage2, [s.kernel, s.initramfs] + last, [s.stage2, s.kernel, s.initramfs] + last);
    TotalSpaceStep(s.stage1, [s.stage2, s.kernel, s.initramfs] + last, p);
    assert p[0] == s.stage1 && p[1] == s.stage2 && p[2] == s.kernel && p[3] == s.initramfs;
    assert p[4] == MeasuredCommandLine(s.commandLine) && |p| == 5;
    assert AllSensible(p) ==> s.Sensible();
    assert s.Sensible() && p[4] <= MAX_ROM_BYTES ==> AllSensible(p);
  }

  // ----- Measuring -----

  datatype Status =
    | Ok | BadLengthStage0 | BadLengthStage0Cic | BadLengthStage1 | BadLengthStage2
    | BadLengthKernel | BadLengthInitramfs | BadLengthCommandLine

  datatype Measure = Measure(status: Status, romBytes: nat)

  /** The marker after one more file, if the check for overflow lets it pass. */
  function Overflows(marker: nat, bytes: nat): bool {
    marker > Minus32(ALIGNMENT_MAX_VALUE, bytes)
  }

  function After(marker: nat, bytes: nat): nat {
    Align4((marker + bytes) % U32)
  }

  /** The overflow checks come in the order of the image; a long command line is blamed on the initramfs. */
  function OverflowStatus(s: Sizes): Status {
    var m0 := ROM_HEADER_BYTES;
    var m1 := After(After(m0, s.stage0), BOOT_HEADER_BYTES);
    var m2 := After(m1, s.stage0Cic);
    var m3 := After(m2, s.stage1);
    var m4 := After(m3, s.stage2);
    var m5 := After(m4, s.kernel);
    var m6 := After(m5, s.initramfs);
    if Overflows(m0, s.stage0) then BadLengthStage0
    else if Overflows(m1, s.stage0Cic) then BadLengthStage0Cic
    else if Overflows(m2, s.stage1) then BadLengthStage1
    else if Overflows(m3, s.stage2) then BadLengthStage2
    else if Overflows(m4, s.kernel) then BadLengthKernel
    else if Overflows(m5, s.initramfs) then BadLengthInitramfs
    else if s.commandLine > 0xffff then BadLengthInitramfs
    else if Overflows(m6, s.commandLine) then BadLengthInitramfs
    else Ok
  }

  function PartStatus(part: nat): Status {
    match part
    case 0 => BadLengthStage1
    case 1 => BadLengthStage2
    case 2 => BadLengthKernel
    case 3 => BadLengthInitramfs
    case _ => BadLengthCommandLine
  }

  function Measured(s: Sizes): Measure {
    if OverflowStatus(s) != Ok then Measure(OverflowStatus(s), 0)
    else
      match AddUp(FIRST_AT, Parts(s), 0)
      case TooLong(part) => Measure(PartStatus(part), 0)
      case Fits(marker) => Measure(Ok, AlignForward32(marker, ROM_SIZE_ALIGNMENT))
  }

  // ----- What the overflow checks catch -----

  /** The lengths that are checked, in the order of the checks. */
  function Lengths(s: Sizes): (lengths: seq<nat>)
    ensures |lengths| == 7
  {
    [s.stage0, s.stage0Cic, s.stage1, s.stage2, s.kernel, s.initramfs, s.commandLine]
  }

  /** The space of everything in front of a part, without wrapping; the boot header lies behind stage 0. */
  function SpaceBefore(s: Sizes, part: nat): nat
    requires part < 7
  {
    if part == 0 then ROM_HEADER_BYTES
    else SpaceBefore(s, part - 1) + Space(Lengths(s)[part - 1]) + if part == 1 then BOOT_HEADER_BYTES else 0
  }

  /** Everything together is short enough to be aligned inside 32 bits. */
  predicate FitsIn32Bits(s: Sizes) {
    SpaceBefore(s, 6) + s.commandLine <= ALIGNMENT_MAX_VALUE && s.commandLine <= 0xffff
  }

  /** No file is so long that aligning it wraps, and the boot header behind stage 0 does not wrap either. */
  predicate Tame(s: Sizes) {
    && (forall i :: 0 <= i < 7 ==> Lengths(s)[i] <= ALIGNMENT_MAX_VALUE)
    && ROM_HEADER_BYTES + Space(s.stage0) + BOOT_HEADER_BYTES <= ALIGNMENT_MAX_VALUE
  }

  /** One check is exact for any length that can itself be aligned inside 32 bits. */
  lemma CheckIsExact(marker: nat, bytes: nat)
    requires marker % 4 == 0 && marker <= ALIGNMENT_MAX_VALUE && bytes <= ALIGNMENT_MAX_VALUE
    ensures Overflows(marker, bytes) <==> marker + bytes > ALIGNMENT_MAX_VALUE
    ensures !Overflows(marker, bytes) ==>
              After(marker, bytes) == marker + Space(bytes) <= ALIGNMENT_MAX_VALUE && After(marker, bytes) % 4 == 0
  {
    hide Space;
    hide Align4;
    LimitIsExact(marker, bytes);
    SpaceOf(bytes);
    if marker + bytes <= ALIGNMENT_MAX_VALUE {
      AlignsTo(marker + bytes, marker + Space(bytes));
    }
  }

  lemma LimitIsExact(marker: nat, bytes: nat)
    requires marker <= ALIGNMENT_MAX_VALUE && bytes <= ALIGNMENT_MAX_VALUE
    ensures Overflows(marker, bytes) <==> marker + bytes > ALIGNMENT_MAX_VALUE
  {
  }

  lemma AlignsTo(value: nat, multiple: nat)
    requires multiple % 4 == 0 && value <= multiple < value + 4
    ensures Align4(value) == multiple % U32
  {
    SpaceOf(value);
    hide AlignForward;
    assert Space(value) == multiple;
  }

  lemma SpacesInOrder(s: Sizes)
    ensures SpaceBefore(s, 0) == ROM_HEADER_BYTES
    ensures SpaceBefore(s, 1) == SpaceBefore(s, 0) + Space(s.stage0) + BOOT_HEADER_BYTES
    ensures SpaceBefore(s, 2) == SpaceBefore(s, 1) + Space(s.stage0Cic)
    ensures SpaceBefore(s, 3) == SpaceBefore(s, 2) + Space(s.stage1)
    ensures SpaceBefore(s, 4) == SpaceBefore(s, 3) + Space(s.stage2)
    ensures SpaceBefore(s, 5) == SpaceBefore(s, 4) + Space(s.kernel)
    ensures SpaceBefore(s, 6) == SpaceBefore(s, 5) + Space(s.initramfs)
    ensures forall bytes {:trigger Space(bytes)} :: bytes in Lengths(s) ==> bytes <= Space(bytes)
  {
    hide Space;
    forall bytes | bytes in Lengths(s) ensures bytes <= Space(bytes) { SpaceOf(bytes); }
  }

  /** What the marker holds when a part is checked. */
  function Marker(s: Sizes, part: nat): nat
    requires part < 7
  {
    if part == 0 then ROM_HEADER_BYTES
    else
      var after := After(Marker(s, part - 1), Lengths(s)[part - 1]);
      if part == 1 then After(after, BOOT_HEADER_BYTES) else after
  }

  /** As long as everything has fitted, that is the exact space, and the next check is exact too. */
  lemma {:induction false} MarkerIsExact(s: Sizes, part: nat)
    requires Tame(s) && part < 7 && forall k :: 0 <= k < part ==> PartFits(s, k)
    ensures Marker(s, part) == SpaceBefore(s, part) <= ALIGNMENT_MAX_VALUE && Marker(s, part) % 4 == 0
    ensures Overflows(Marker(s, part), Lengths(s)[part]) <==>
            SpaceBefore(s, part) + Lengths(s)[part] > ALIGNMENT_MAX_VALUE
  {
    hide Overflows;
    hide After;
    hide Space;
    if part > 0 {
      assert PartFits(s, part - 1);
      MarkerIsExact(s, part - 1);
      CheckIsExact(Marker(s, part - 1), Lengths(s)[part - 1]);
      if part == 1 {
        CheckIsExact(ROM_HEADER_BYTES + Space(s.stage0), BOOT_HEADER_BYTES);
        SpaceOf(BOOT_HEADER_BYTES);
      }
    }
    CheckIsExact(Marker(s, part), Lengths(s)[part]);
  }

  /** Which status blames which part; a long command line is blamed on the initramfs. */
  function Blame(part: nat): Status {
    match part
    case 0 => BadLengthStage0
    case 1 => BadLengthStage0Cic
    case 2 => BadLengthStage1
    case 3 => BadLengthStage2
    case 4 => BadLengthKernel
    case _ => BadLengthInitramfs
  }

  predicate Fails(s: Sizes, part: nat)
    requires part < 7
  {
    (part == 6 && s.commandLine > 0xffff) || Overflows(Marker(s, part), Lengths(s)[part])
  }

  /** The status is the blame of the first check that fails. */
  lemma FirstFailureIsBlamed(s: Sizes)
    ensures (forall k :: 0 <= k < 7 ==> !Fails(s, k)) ==> OverflowStatus(s) == Ok
    ensures forall part ::
              0 <= part < 7 && Fails(s, part) && (forall k :: 0 <= k < part ==> !Fails(s, k)) ==>
                OverflowStatus(s) == Blame(part)
  {
    hide Overflows;
    hide After;
    hide Fails;
    UnfoldMarkers(s);
    assert OverflowStatus(s) ==
           if Fails(s, 0) then Blame(0)
           else if Fails(s, 1) then Blame(1)
           else if Fails(s, 2) then Blame(2)
           else if Fails(s, 3) then Blame(3)
           else if Fails(s, 4) then Blame(4)
           else if Fails(s, 5) then Blame(5)
           else if Fails(s, 6) then Blame(6)
           else Ok by {
      FailsUnfolds(s);
    }
  }

  lemma UnfoldMarkers(s: Sizes)
    ensures Marker(s, 0) == ROM_HEADER_BYTES
    ensures Marker(s, 1) == After(After(Marker(s, 0), s.stage0), BOOT_HEADER_BYTES)
    ensures Marker(s, 2) == After(Marker(s, 1), s.stage0Cic)
    ensures Marker(s, 3) == After(Marker(s, 2), s.stage1)
    ensures Marker(s, 4) == After(Marker(s, 3), s.stage2)
    ensures Marker(s, 5) == After(Marker(s, 4), s.kernel)
    ensures Marker(s, 6) == After(Marker(s, 5), s.initramfs)
  {
    hide After;
  }

  lemma FailsUnfolds(s: Sizes)
    ensures forall k :: 0 <= k < 6 ==> (Fails(s, k) <==> Overflows(Marker(s, k), Lengths(s)[k]))
    ensures Fails(s, 6) <==> s.commandLine > 0xffff || Overflows(Marker(s, 6), s.commandLine)
  {
    hide Overflows;
    hide Marker;
  }

  /** With everything in front of it, a part still fits. */
  predicate PartFits(s: Sizes, part: nat)
    requires part < 7
  {
    SpaceBefore(s, part) + Lengths(s)[part] <= ALIGNMENT_MAX_VALUE && (part == 6 ==> s.commandLine <= 0xffff)
  }

  /** Up to a part everything fits, and with it no more. */
  predicate FirstTooLong(s: Sizes, part: nat) {
    part < 7 && !PartFits(s, part) && forall k :: 0 <= k < part ==> PartFits(s, k)
  }

  lemma FailsIffTooLong(s: Sizes, part: nat)
    requires Tame(s) && part < 7 && forall k :: 0 <= k < part ==> PartFits(s, k)
    ensures Fails(s, part) <==> !PartFits(s, part)
  {
    hide Overflows;
    hide SpaceBefore;
    hide Marker;
    hide Tame;
    MarkerIsExact(s, part);
  }

  lemma FitsIffEveryPartFits(s: Sizes)
    ensures FitsIn32Bits(s) <==> forall k :: 0 <= k < 7 ==> PartFits(s, k)
  {
    hide Space;
    hide SpaceBefore;
    SpacesInOrder(s);
    forall k | 0 <= k < 7 ensures Lengths(s)[k] <= Space(Lengths(s)[k]) {
      assert Lengths(s)[k] in Lengths(s);
    }
    assert PartFits(s, 6) <==> FitsIn32Bits(s);
    if PartFits(s, 6) {
      assert PartFits(s, 5);
      assert PartFits(s, 4);
      assert PartFits(s, 3);
      assert PartFits(s, 2);
      assert PartFits(s, 1);
      assert PartFits(s, 0);
    }
  }

  /** On tame lengths the checks pass exactly if everything fits, and else blame the first part that does not. */
  lemma TameIsJudgedRight(s: Sizes)
    requires Tame(s)
    ensures OverflowStatus(s) == Ok <==> FitsIn32Bits(s)
    ensures forall part :: FirstTooLong(s, part) ==> OverflowStatus(s) == Blame(part)
    ensures OverflowStatus(s) == BadLengthStage0 <==> FirstTooLong(s, 0)
    ensures OverflowStatus(s) == BadLengthStage0Cic <==> FirstTooLong(s, 1)
    ensures OverflowStatus(s) == BadLengthStage1 <==> FirstTooLong(s, 2)
    ensures OverflowStatus(s) == BadLengthStage2 <==> FirstTooLong(s, 3)
    ensures OverflowStatus(s) == BadLengthKernel <==> FirstTooLong(s, 4)
    ensures OverflowStatus(s) == BadLengthInitramfs <==> FirstTooLong(s, 5) || FirstTooLong(s, 6)
  {
    hide OverflowStatus;
    hide PartFits;
    hide Fails;
    hide FitsIn32Bits;
    FirstFailureIsBlamed(s);
    FitsIffEveryPartFits(s);
    forall part: nat | part < 7 && forall k :: 0 <= k < part ==> PartFits(s, k)
      ensures Fails(s, part) <==> !PartFits(s, part)
    {
      FailsIffTooLong(s, part);
    }
    if !FitsIn32Bits(s) {
      var part := FirstMisfit(s, 0);
      assert FirstTooLong(s, part);
    }
  }

  lemma {:induction false} FirstMisfit(s: Sizes, from: nat) returns (part: nat)
    requires from < 7 && forall k :: 0 <= k < from ==> PartFits(s, k)
    requires exists k :: from <= k < 7 && !PartFits(s, k)
    ensures FirstTooLong(s, part)
    decreases 7 - from
  {
    hide PartFits;
    if PartFits(s, from) {
      part := FirstMisfit(s, from + 1);
    } else {
      part := from;
    }
  }

  lemma FittingIsTame(s: Sizes)
    requires FitsIn32Bits(s)
    ensures Tame(s)
  {
    hide Space;
    SpacesInOrder(s);
  }

  /**
   For all inputs: everything fits in 32 bits exactly when the checks pass and the lengths are tame.
   So the checks never reject what fits, and among what they accept, exactly the tame inputs do fit.
   */
  lemma OverflowIsCaughtIff(s: Sizes)
    ensures FitsIn32Bits(s) <==> OverflowStatus(s) == Ok && Tame(s)
  {
    hide OverflowStatus;
    hide FitsIn32Bits;
    hide Tame;
    if FitsIn32Bits(s) {
      FittingIsTame(s);
    }
    if Tame(s) {
      TameIsJudgedRight(s);
    }
  }

  const LONG_STAGE1 := Sizes(0, 0, 0xffff_fffd, 0, 0, 0, 1)
  const LONG_STAGE0 := Sizes(0xffff_ffbc, 0, 0, 0, 0, 0, 1)

  /**
   Both ways to fail occur. A length within three of 2^32 makes the limit itself wrap, and the ROM is even
   measured, as if there were no stage 1; a boot header behind a long stage 0 is added unchecked.
   */
  lemma OverflowEscapes()
    ensures LONG_STAGE1.Valid() && OverflowStatus(LONG_STAGE1) == Ok && !FitsIn32Bits(LONG_STAGE1)
    ensures Measured(LONG_STAGE1) == Measure(Ok, 0x1060) && RomSize(LONG_STAGE1) > U32
    ensures LONG_STAGE0.Valid() && OverflowStatus(LONG_STAGE0) == Ok && !FitsIn32Bits(LONG_STAGE0)
  {
    hide OverflowStatus;
    hide Measured;
    hide RomSize;
    hide FitsIn32Bits;
    LongStage1Passes();
    LongStage1IsMeasured();
    LongStage0Passes();
    LongStage1IsLong();
  }

  /** The marker after a part, when the sum has wrapped to something already aligned up to `multiple`. */
  lemma AfterIs(marker: nat, bytes: nat, multiple: nat)
    requires multiple % 4 == 0 && (marker + bytes) % U32 <= multiple < (marker + bytes) % U32 + 4
    ensures After(marker, bytes) == multiple % U32
  {
    AlignsTo((marker + bytes) % U32, multiple);
  }

  lemma LongStage1Passes()
    ensures OverflowStatus(LONG_STAGE1) == Ok
  {
    hide After;
    AfterIs(64, 0, 64);
    AfterIs(64, 84, 148);
    AfterIs(148, 0, 148);
    AfterIs(148, 0xffff_fffd, 148);
  }

  /** Parts that align to nothing do not move the marker. */
  lemma {:induction false} NothingAddsUp(marker: nat, parts: seq<nat>, index: nat)
    requires marker <= MAX_ROM_BYTES && forall i :: 0 <= i < |parts| ==> Align4(parts[i]) == 0
    ensures AddUp(marker, parts, index) == Fits(marker)
  {
    hide Align4;
    if parts != [] {
      NothingAddsUp(marker, parts[1..], index + 1);
    }
  }

  lemma LongStage1IsMeasured()
    ensures Measured(LONG_STAGE1) == Measure(Ok, 0x1060)
  {
    LongStage1Passes();
    hide OverflowStatus;
    hide AddUp;
    hide Align4;
    AlignsTo(0, 0);
    AlignsTo(0xffff_fffd, 0x1_0000_0000);
    NothingAddsUp(FIRST_AT, Parts(LONG_STAGE1), 0);
  }

  lemma LongStage0Passes()
    ensures OverflowStatus(LONG_STAGE0) == Ok && !FitsIn32Bits(LONG_STAGE0)
  {
    hide After;
    hide Space;
    AfterIs(64, 0xffff_ffbc, 0xffff_fffc);
    AfterIs(0xffff_fffc, 84, 80);
    AfterIs(80, 0, 80);
    SpacesInOrder(LONG_STAGE0);
    assert forall k :: 0 <= k < 7 ==> Lengths(LONG_STAGE0)[k] in Lengths(LONG_STAGE0);
    SpaceOf(0xffff_ffbc);
  }

  lemma LongStage1IsLong()
    ensures RomSize(LONG_STAGE1) > U32 && !FitsIn32Bits(LONG_STAGE1)
  {
  }

  method MeasureOverflow(s: Sizes) returns (status: Status)
    requires s.Valid()
    ensures status == OverflowStatus(s)
    ensures FitsIn32Bits(s) <==> status == Ok && Tame(s)
  {
    hide Align4;
    hide Minus32;
    hide FitsIn32Bits;
    hide Tame;
    OverflowIsCaughtIff(s);
    var marker := ROM_HEADER_BYTES;
    if marker > Minus32(ALIGNMENT_MAX_VALUE, s.stage0) {
      return BadLengthStage0;
    }
    marker := Align4((marker + s.stage0) % U32);
    marker := Align4((marker + BOOT_HEADER_BYTES) % U32);
    if marker > Minus32(ALIGNMENT_MAX_VALUE, s.stage0Cic) {
      return BadLengthStage0Cic;
    }
    marker := Align4((marker + s.stage0Cic) % U32);
    if marker > Minus32(ALIGNMENT_MAX_VALUE, s.stage1) {
      return BadLengthStage1;
    }
    marker := Align4((marker + s.stage1) % U32);
    if marker > Minus32(ALIGNMENT_MAX_VALUE, s.stage2) {
      return BadLengthStage2;
    }
    marker := Align4((marker + s.stage2) % U32);
    if marker > Minus32(ALIGNMENT_MAX_VALUE, s.kernel) {
      return BadLengthKernel;
    }
    marker := Align4((marker + s.kernel) % U32);
    if marker > Minus32(ALIGNMENT_MAX_VALUE, s.initramfs) {
      return BadLengthInitramfs;
    }
    marker := Align4((marker + s.initramfs) % U32);
    if s.commandLine > 0xffff {
      return BadLengthInitramfs;
    }
    if marker > Minus32(ALIGNMENT_MAX_VALUE, s.commandLine) {
      return BadLengthInitramfs;
    }
    status := Ok;
  }

  /** The checks of stage 0 set a status that is overwritten before it is returned. */
  method MeasureAndVerify(s: Sizes) returns (result: Measure)
    requires s.Valid()
    ensures result == Measured(s)
  {
    hide Align4;
    hide OverflowStatus;
    hide AddUp;
    hide AlignForward32;
    var status := MeasureOverflow(s);
    if status != Ok {
      return Measure(status, 0);
    }
    if s.stage0 > STAGE0_MAX_LENGTH {
      status := BadLengthStage0;
    }
    if (s.stage0 + s.stage0Cic) % U32 > STAGE0_MAX_LENGTH {
      status := BadLengthStage0Cic;
    }
    var commandLine := if s.commandLine == 1 then 0 else s.commandLine + 1;
    var marker := BOOT_HEADER_AT + BOOT_HEADER_BYTES;
    AddUpStep(marker, Parts(s), [s.stage2, s.kernel, s.initramfs, commandLine], 0);
    marker := (marker + Align4(s.stage1)) % U32;
    if marker > MAX_ROM_BYTES {
      return Measure(BadLengthStage1, 0);
    }
    AddUpStep(marker, [s.stage2, s.kernel, s.initramfs, commandLine], [s.kernel, s.initramfs, commandLine], 1);
    marker := (marker + Align4(s.stage2)) % U32;
    if marker > MAX_ROM_BYTES {
      return Measure(BadLengthStage2, 0);
    }
    AddUpStep(marker, [s.kernel, s.initramfs, commandLine], [s.initramfs, commandLine], 2);
    marker := (marker + Align4(s.kernel)) % U32;
    if marker > MAX_ROM_BYTES {
      return Measure(BadLengthKernel, 0);
    }
    AddUpStep(marker, [s.initramfs, commandLine], [commandLine], 3);
    marker := (marker + Align4(s.initramfs)) % U32;
    if marker > MAX_ROM_BYTES {
      return Measure(BadLengthInitramfs, 0);
    }
    AddUpStep(marker, [commandLine], [], 4);
    marker := (marker + Align4(commandLine)) % U32;
    if marker > MAX_ROM_BYTES {
      return Measure(BadLengthCommandLine, 0);
    }
    AddUpNothing(marker, 5);
    result := Measure(Ok, AlignForward32(marker, ROM_SIZE_ALIGNMENT));
  }

  lemma AddUpStep(marker: nat, parts: seq<nat>, rest: seq<nat>, index: nat)
    requires parts != [] && parts[1..] == rest
    ensures var marker' := (marker + Align4(parts[0])) % U32;
            AddUp(marker, parts, index) == if marker' > MAX_ROM_BYTES then TooLong(index) else AddUp(marker', rest,
                index + 1)
  {
  }

  lemma AddUpNothing(marker: nat, index: nat)
    ensures AddUp(marker, [], index) == Fits(marker)
  {
  }

  lemma RoundUpTo16(value: nat)
    requires value <= MAX_ROM_BYTES
    ensures AlignForward32(value, ROM_SIZE_ALIGNMENT) == AlignForward(value, ROM_SIZE_ALIGNMENT) <= MAX_ROM_BYTES
  {
    AlignForwardIsLeast(value, ROM_SIZE_ALIGNMENT);
    assert Aligned(MAX_ROM_BYTES, ROM_SIZE_ALIGNMENT);
  }

  /** The measured size of an accepted ROM is its true size exactly when every file is sensible. */
  lemma MeasureIsExactIff(s: Sizes)
    requires s.Valid() && Measured(s).status == Ok
    ensures Measured(s).romBytes <= MAX_ROM_BYTES
    ensures Measured(s).romBytes == RomSize(s) <==> s.Sensible()
  {
    hide AlignForward;
    AddUpIsExactIff(FIRST_AT, Parts(s), 0);
    var marker := AddUp(FIRST_AT, Parts(s), 0).marker;
    PartsInOrder(s);
    RoundUpTo16(marker);
    var total := CommandLineAt(s) + Space(MeasuredCommandLine(s.commandLine));
    if marker != total {
      NotSensibleIsLong(s);
      AlignForwardIsLeast(total, ROM_SIZE_ALIGNMENT);
    }
  }

  /**
   Who is blamed, for files that are no longer than the largest ROM by themselves: the first whose end,
   without wrapping, lies past it.
   */
  lemma TooLongIsBlamed(s: Sizes)
    requires s.Sensible() && OverflowStatus(s) == Ok && MeasuredCommandLine(s.commandLine) <= MAX_ROM_BYTES
    ensures Measured(s).status
         == if Stage2At(s) > MAX_ROM_BYTES then BadLengthStage1
            else if KernelAt(s) > MAX_ROM_BYTES then BadLengthStage2
            else if InitramfsAt(s) > MAX_ROM_BYTES then BadLengthKernel
            else if CommandLineAt(s) > MAX_ROM_BYTES then BadLengthInitramfs
            else if CommandLineAt(s) + Space(MeasuredCommandLine(s.commandLine)) > MAX_ROM_BYTES
                 then BadLengthCommandLine
            else Ok
  {
    hide OverflowStatus;
    hide Align4;
    hide Space;
    hide AddUp;
    hide AlignForward32;
    hide MeasuredCommandLine;
    var n := MeasuredCommandLine(s.commandLine);
    PartOfRom(FIRST_AT, s.stage1);
    AddUpStep(FIRST_AT, Parts(s), [s.stage2, s.kernel, s.initramfs, n], 0);
    if Stage2At(s) <= MAX_ROM_BYTES {
      PartOfRom(Stage2At(s), s.stage2);
      AddUpStep(Stage2At(s), [s.stage2, s.kernel, s.initramfs, n], [s.kernel, s.initramfs, n], 1);
    }
    if KernelAt(s) <= MAX_ROM_BYTES {
      PartOfRom(KernelAt(s), s.kernel);
      AddUpStep(KernelAt(s), [s.kernel, s.initramfs, n], [s.initramfs, n], 2);
    }
    if InitramfsAt(s) <= MAX_ROM_BYTES {
      PartOfRom(InitramfsAt(s), s.initramfs);
      AddUpStep(InitramfsAt(s), [s.initramfs, n], [n], 3);
    }
    if CommandLineAt(s) <= MAX_ROM_BYTES {
      PartOfRom(CommandLineAt(s), n);
      AddUpStep(CommandLineAt(s), [n], [], 4);
      AddUpNothing(CommandLineAt(s) + Space(n), 5);
    }
  }

  lemma PartOfRom(marker: nat, part: nat)
    requires part <= MAX_ROM_BYTES
    ensures marker <= MAX_ROM_BYTES ==> (marker + Align4(part)) % U32 == marker + Space(part)
  {
    if marker <= MAX_ROM_BYTES {
      SumStep(marker, part);
    }
  }

  lemma NotSensibleIsLong(s: Sizes)
    requires !s.Sensible()
    ensures CommandLineAt(s) > MAX_ROM_BYTES
  {
    hide Space;
    SpaceOf(s.stage1);
    SpaceOf(s.stage2);
    SpaceOf(s.kernel);
    SpaceOf(s.initramfs);
  }

  /** Lengths of stage 0 that the initial loader has no room for are accepted all the same. */
  lemma Stage0IsNotChecked(s: Sizes, stage0: nat, stage0Cic: nat)
    requires s.Valid() && Measured(s).status == Ok && s.Sensible()
    requires stage0 <= MAX_ROM_BYTES && stage0Cic <= MAX_ROM_BYTES
    ensures Measured(s.(stage0 := stage0, stage0Cic := stage0Cic)) == Measured(s)
  {
    var t := s.(stage0 := stage0, stage0Cic := stage0Cic);
    assert Parts(t) == Parts(s);
    SensibleNeverOverflows(t);
  }

  lemma AfterIsModest(marker: nat, bytes: nat, room: nat)
    requires marker <= room * 0x500_0000 && bytes <= MAX_ROM_BYTES && room < 10
    ensures !Overflows(marker, bytes) && After(marker, bytes) <= (room + 1) * 0x500_0000
  {
    SpaceOf(marker + bytes);
  }

  lemma SensibleNeverOverflows(s: Sizes)
    requires s.Sensible() && s.stage0 <= MAX_ROM_BYTES && s.stage0Cic <= MAX_ROM_BYTES && s.commandLine <= 0xffff
    ensures OverflowStatus(s) == Ok
  {
    hide Overflows;
    hide After;
    var m0 := ROM_HEADER_BYTES;
    AfterIsModest(m0, s.stage0, 1);
    var a0 := After(m0, s.stage0);
    AfterIsModest(a0, BOOT_HEADER_BYTES, 2);
    var m1 := After(a0, BOOT_HEADER_BYTES);
    AfterIsModest(m1, s.stage0Cic, 3);
    var m2 := After(m1, s.stage0Cic);
    AfterIsModest(m2, s.stage1, 4);
    var m3 := After(m2, s.stage1);
    AfterIsModest(m3, s.stage2, 5);
    var m4 := After(m3, s.stage2);
    AfterIsModest(m4, s.kernel, 6);
    var m5 := After(m4, s.kernel);
    AfterIsModest(m5, s.initramfs, 7);
    AfterIsModest(After(m5, s.initramfs), s.commandLine, 8);
  }

  /** What is written for the command line stays inside the ROM unless a lone terminator meets a full ROM. */
  lemma WritesStayInsideIff(s: Sizes)
    requires s.Valid() && s.Sensible() && Measured(s).status == Ok
    ensures CommandLineAt(s) + s.commandLine <= Measured(s).romBytes
       <==> !(s.commandLine == 1 && CommandLineAt(s) % ROM_SIZE_ALIGNMENT == 0)
  {
    MeasureIsExactIff(s);
    hide Measured;
    hide Parts;
    var n := MeasuredCommandLine(s.commandLine);
    SpaceOf(n);
    RomSizeBounds(CommandLineAt(s), Space(n));
    SpaceOf(0);
  }

  /**
   An accepted ROM of sensible files ends with the first sixteen bytes behind its command line and one more
   character, or behind its last file if the command line is a lone terminator.
   */
  lemma RomEndsBehindCommandLine(s: Sizes)
    requires s.Valid() && s.Sensible() && Measured(s).status == Ok
    ensures var end := CommandLineAt(s) + if s.commandLine == 1 then 0 else s.commandLine + 1;
            end <= Measured(s).romBytes < end + 16 && Measured(s).romBytes % 16 == 0
  {
    MeasureIsExactIff(s);
    SectionsAreWords(s);
    hide *;
    RomSizeIs(s);
    EndsInSixteen(CommandLineAt(s), if s.commandLine == 1 then 0 else s.commandLine + 1);
  }

  lemma RomSizeIs(s: Sizes)
    ensures RomSize(s)
         == AlignForward(CommandLineAt(s) + Space(if s.commandLine == 1 then 0 else s.commandLine + 1), 16)
  {
  }

  lemma EndsInSixteen(at: nat, bytes: nat)
    requires at % 4 == 0
    ensures var end := AlignForward(at + Space(bytes), 16);
            at + bytes <= end < at + bytes + 16 && end % 16 == 0
  {
    SpaceOf(bytes);
    AlignForwardIsLeast(at + Space(bytes), 16);
    hide *;
    WordsInSixteen(at, bytes, Space(bytes), AlignForward(at + Space(bytes), 16));
  }

  lemma WordsInSixteen(at: nat, bytes: nat, space: nat, end: nat)
    requires at % 4 == 0 && space % 4 == 0 && bytes <= space < bytes + 4
    requires at + space <= end < at + space + 16 && end % 16 == 0
    ensures end < at + bytes + 16
  {
    assert (end - at - space) % 4 == 0;
  }

  lemma SectionsAreWords(s: Sizes)
    ensures CommandLineAt(s) % 4 == 0
  {
    hide Space;
    WordsBehind(FIRST_AT, s.stage1);
    WordsBehind(Stage2At(s), s.stage2);
    WordsBehind(KernelAt(s), s.kernel);
    WordsBehind(InitramfsAt(s), s.initramfs);
  }

  lemma WordsBehind(at: nat, bytes: nat)
    requires at % 4 == 0
    ensures (at + Space(bytes)) % 4 == 0
  {
    SpaceOf(bytes);
    hide Space;
  }

  const LONE_TERMINATOR := Sizes(0, 0, 12, 0, 0, 0, 1)

  /** It does happen: the terminator is written right behind the end of the measured ROM. */
  lemma LoneTerminatorIsOutside()
    ensures Measured(LONE_TERMINATOR) == Measure(Ok, 0x1060)
    ensures CommandLineAt(LONE_TERMINATOR) == 0x1060 < CommandLineAt(LONE_TERMINATOR) + LONE_TERMINATOR.commandLine
  {
    var s := LONE_TERMINATOR;
    SensibleNeverOverflows(s);
    PartsInOrder(s);
    LoneTerminatorSections();
    hide *;
    LoneTerminatorIsMeasured();
  }

  lemma LoneTerminatorSections()
    ensures CommandLineAt(LONE_TERMINATOR) == 0x1060 && RomSize(LONE_TERMINATOR) == 0x1060
  {
    hide Space;
    SpaceOf(12);
    SpaceOf(0);
    RomSizeBounds(0x1060, 0);
  }

  lemma LoneTerminatorIsMeasured()
    requires OverflowStatus(LONE_TERMINATOR) == Ok && RomSize(LONE_TERMINATOR) == 0x1060
    requires FIRST_AT + TotalSpace(Parts(LONE_TERMINATOR)) <= MAX_ROM_BYTES && AllSensible(Parts(LONE_TERMINATOR))
    ensures Measured(LONE_TERMINATOR) == Measure(Ok, 0x1060)
  {
    hide OverflowStatus;
    hide RomSize;
    hide TotalSpace;
    hide AddUp;
    ModestSumFits(FIRST_AT, Parts(LONE_TERMINATOR), 0);
    MeasureIsExactIff(LONE_TERMINATOR);
  }

  lemma RomSizeBounds(at: nat, space: nat)
    ensures at + space <= AlignForward(at + space, ROM_SIZE_ALIGNMENT) < at + space + ROM_SIZE_ALIGNMENT
    ensures AlignForward(at, ROM_SIZE_ALIGNMENT) == at <==> at % ROM_SIZE_ALIGNMENT == 0
  {
    AlignForwardIsLeast(at + space, ROM_SIZE_ALIGNMENT);
    AlignForwardIsLeast(at, ROM_SIZE_ALIGNMENT);
  }
}
