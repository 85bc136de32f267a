/** The compressor of the boot logo (rescompiler/imagecompiler/src/tux64-imagecompiler/compressor.c, compressor.h). */
module Compressor {
  import opened Bytes
  import opened Common
  import opened Rle

  // ----- The compressor, as a function -----

  /** How many tuples at the front are equal, but no more than fit one command. */
  function RunLength(tuples: seq<Byte>): (r: nat)
    requires tuples != []
    ensures 1 <= r <= |tuples| && r <= MAX_RUN
    ensures forall i :: 0 <= i < r ==> tuples[i] == tuples[0]
    ensures r < |tuples| && r < MAX_RUN ==> tuples[r] != tuples[0]
  {
    RunFrom(tuples, 1)
  }

  function RunFrom(tuples: seq<Byte>, length: nat): (r: nat)
    requires 1 <= length <= |tuples| && length <= MAX_RUN
    requires forall i :: 0 <= i < length ==> tuples[i] == tuples[0]
    ensures length <= r <= |tuples| && r <= MAX_RUN
    ensures forall i :: 0 <= i < r ==> tuples[i] == tuples[0]
    ensures r < |tuples| && r < MAX_RUN ==> tuples[r] != tuples[0]
    decreases |tuples| - length
  {
    if length == |tuples| || tuples[length] != tuples[0] || length == MAX_RUN then length
    else RunFrom(tuples, length + 1)
  }

  /** The straight command for tuples that are still pending, if there are any. */
  function StraightCommand(pending: seq<Byte>): seq<Byte>
    requires |pending| <= MAX_RUN
  {
    if pending == [] then [] else [|pending| - 1] + pending
  }

  function RunCommand(count: nat, tuple: Byte): seq<Byte>
    requires 1 <= count <= MAX_RUN
  {
    [COMPRESSED + (count - 1), tuple]
  }

  /**
   The commands for `tuples` when `pending` tuples are collected for a straight command.
   A full straight command is written out without consuming anything.
   */
  function Encode(pending: seq<Byte>, tuples: seq<Byte>): seq<Byte>
    requires |pending| <= MAX_RUN
    decreases |tuples|, |pending|
  {
    if tuples == [] then StraightCommand(pending)
    else
      var n := RunLength(tuples);
      if n == 1 && |pending| != MAX_RUN then Encode(pending + [tuples[0]], tuples[1..])
      else if n == 1 then StraightCommand(pending) + Encode([], tuples)
      else StraightCommand(pending) + RunCommand(n, tuples[0]) + Encode([], tuples[n..])
  }

  // ----- Round trip -----

  lemma DecodeStraight(pending: seq<Byte>, rest: seq<Byte>)
    requires |pending| <= MAX_RUN && WellFormed(rest)
    ensures WellFormed(StraightCommand(pending) + rest)
    ensures Decode(StraightCommand(pending) + rest) == pending + Decode(rest)
  {
    if pending == [] {
      assert StraightCommand(pending) + rest == rest;
    } else {
      DecodeCommand(StraightCommand(pending), rest);
    }
  }

  lemma DecodeRun(count: nat, tuple: Byte, rest: seq<Byte>)
    requires 1 <= count <= MAX_RUN && WellFormed(rest)
    ensures WellFormed(RunCommand(count, tuple) + rest)
    ensures Decode(RunCommand(count, tuple) + rest) == Repeat(tuple, count) + Decode(rest)
  {
    DecodeCommand(RunCommand(count, tuple), rest);
  }

  lemma RunIsRepeated(tuples: seq<Byte>)
    requires tuples != []
    ensures Repeat(tuples[0], RunLength(tuples)) + tuples[RunLength(tuples)..] == tuples
  {
  }

  lemma MoveFirst(pending: seq<Byte>, tuples: seq<Byte>)
    requires tuples != []
    ensures pending + [tuples[0]] + tuples[1..] == pending + tuples
  {
  }

  lemma NothingPending(tuples: seq<Byte>)
    ensures [] + tuples == tuples
  {
  }

  lemma NothingAfter(tuples: seq<Byte>)
    ensures tuples + [] == tuples
  {
  }

  /** Decoding what the compressor writes gives the tuples back, whatever is pending. */
  lemma {:induction false} DecodeOfEncode(pending: seq<Byte>, tuples: seq<Byte>)
    requires |pending| <= MAX_RUN
    ensures WellFormed(Encode(pending, tuples))
    ensures Decode(Encode(pending, tuples)) == pending + tuples
    decreases |tuples|, |pending|
  {
    if tuples == [] {
      DecodeStraight(pending, []);
      NothingAfter(StraightCommand(pending));
    } else {
      var n := RunLength(tuples);
      if n == 1 && |pending| != MAX_RUN {
        DecodeOfEncode(pending + [tuples[0]], tuples[1..]);
        MoveFirst(pending, tuples);
      } else if n == 1 {
        DecodeOfEncode([], tuples);
        DecodeStraight(pending, Encode([], tuples));
        NothingPending(tuples);
      } else {
        DecodeOfEncode([], tuples[n..]);
        RunIsRepeated(tuples);
        NothingPending(tuples[n..]);
        DecodeStraightAndRun(pending, n, tuples[0], Encode([], tuples[n..]), tuples[n..], tuples);
      }
    }
  }

  lemma DecodeStraightAndRun(pending: seq<Byte>, count: nat, tuple: Byte, rest: seq<Byte>, after: seq<Byte>,
                             tuples: seq<Byte>)
    requires |pending| <= MAX_RUN && 1 <= count <= MAX_RUN
    requires WellFormed(rest) && Decode(rest) == after && tuples == Repeat(tuple, count) + after
    ensures WellFormed(StraightCommand(pending) + RunCommand(count, tuple) + rest)
    ensures Decode(StraightCommand(pending) + RunCommand(count, tuple) + rest) == pending + tuples
  {
    hide *;
    DecodeRun(count, tuple, rest);
    DecodeStraight(pending, RunCommand(count, tuple) + rest);
    Associate(StraightCommand(pending), RunCommand(count, tuple), rest);
    Associate(pending, Repeat(tuple, count), after);
  }

  // ----- Size -----

  /** No encoding of `n` tuples by the compressor is longer than this. */
  function WorstCase(n: nat): nat {
    (4 * n + 2) / 3
  }

  /** The output of a whole run of the compressor, in thirds of a byte per tuple. */
  lemma {:induction false} EncodeIsBounded(pending: seq<Byte>, tuples: seq<Byte>)
    requires |pending| <= MAX_RUN
    ensures 3 * |Encode(pending, tuples)| <= 4 * (|pending| + |tuples|) + 2
    decreases |tuples|, |pending|
  {
    if tuples != [] {
      var n := RunLength(tuples);
      if n == 1 && |pending| != MAX_RUN {
        EncodeIsBounded(pending + [tuples[0]], tuples[1..]);
      } else if n == 1 {
        EncodeIsBounded([], tuples);
      } else {
        EncodeIsBounded([], tuples[n..]);
      }
    }
  }

  /** One tuple, then two equal ones, and so on: straight and repeated runs alternate. */
  function Alternating(k: nat): seq<Byte> {
    if k == 0 then [0] else [0, 1, 1] + Alternating(k - 1)
  }

  /** The bound is attained, so a smaller buffer would not do. */
  lemma {:induction false} WorstCaseIsAttained(k: nat)
    ensures |Alternating(k)| == 3 * k + 1
    ensures |Encode([], Alternating(k))| == WorstCase(3 * k + 1)
  {
    var image := Alternating(k);
    if k == 0 {
      assert Encode([], image) == Encode([0], []);
    } else {
      var next := Alternating(k - 1);
      WorstCaseIsAttained(k - 1);
      assert next[0] == 0;
      assert image == [0, 1, 1] + next;
      assert RunLength(image) == 1;
      var rest := image[1..];
      assert rest[2] == next[0];
      assert RunLength(rest) == 2;
      assert rest[2..] == next;
      assert Encode([], image) == Encode([0], rest);
    }
  }

  /** The buffer of compressor.h, five bytes for every three tuples. */
  function MaxBytes(n: nat): nat {
    n * 5 / 3
  }

  /** The buffer holds every encoding of an image of `n` tuples exactly when there are two or more. */
  lemma BufferFitsIff(n: nat)
    requires n > 0
    ensures n >= 2 <==> forall image: seq<Byte> :: |image| == n ==> |Encode([], image)| <= MaxBytes(n)
  {
    forall image: seq<Byte> | |image| == n && n >= 2 ensures |Encode([], image)| <= MaxBytes(n) {
      EncodeIsBounded([], image);
    }
    if n == 1 {
      WorstCaseIsAttained(0);
    }
  }

  /** No decodable bytes are shorter than two, so for a single tuple no compressor would fit. */
  lemma OneTupleNeedsTwoBytes(input: seq<Byte>)
    requires WellFormed(input) && |Decode(input)| == 1
    ensures |input| > MaxBytes(1)
  {
    assert input != [];
  }

  function Ceil(n: nat): nat {
    (n + MAX_RUN - 1) / MAX_RUN
  }

  /** An image of one repeated tuple takes two bytes for every 128 tuples. */
  lemma {:induction false} RepeatsAreCompressed(tuple: Byte, n: nat)
    ensures |Encode([], Repeat(tuple, n))| == 2 * Ceil(n)
  {
    var image := Repeat(tuple, n);
    if n > MAX_RUN {
      RunOfRepeat(tuple, n);
      assert image[MAX_RUN..] == Repeat(tuple, n - MAX_RUN);
      RepeatsAreCompressed(tuple, n - MAX_RUN);
    } else if n == 1 {
      assert image[1..] == [] && [] + [image[0]] == [tuple];
      assert Encode([], image) == Encode([tuple], []);
    } else if n > 0 {
      RunOfRepeat(tuple, n);
      assert image[n..] == [];
    }
  }

  lemma RunOfRepeat(tuple: Byte, n: nat)
    requires n > 0
    ensures RunLength(Repeat(tuple, n)) == if n > MAX_RUN then MAX_RUN else n
  {
  }

  // ----- The compressor itself -----

  method NextRunLength(tuples: seq<Byte>) returns (length: nat)
    requires tuples != []
    ensures length == RunLength(tuples)
  {
    var last := tuples[0];
    var remaining := |tuples| - 1;
    length := 1;
    while remaining != 0
      invariant length + remaining == |tuples| && 1 <= length <= |tuples| && length <= MAX_RUN
      invariant last == tuples[0] && forall i :: 0 <= i < length ==> tuples[i] == tuples[0]
      invariant RunFrom(tuples, length) == RunFrom(tuples, 1)
    {
      var current := tuples[length];
      if current != last {
        break;
      }
      if length == MAX_RUN {
        break;
      }
      last := current;
      remaining := remaining - 1;
      length := length + 1;
    }
  }

  method FormatRunStraight(output: array<Byte>, at: nat, tuples: seq<Byte>) returns (bytes: nat)
    requires 1 <= |tuples| <= MAX_RUN && at + 1 + |tuples| <= output.Length
    modifies output
    ensures bytes == |StraightCommand(tuples)|
    ensures output[..at + bytes] == old(output[..at]) + StraightCommand(tuples)
  {
    output[at] := |tuples| - 1;
    forall i | 0 <= i < |tuples| {
      output[at + 1 + i] := tuples[i];
    }
    bytes := 1 + |tuples|;
  }

  method FormatRunCompressed(output: array<Byte>, at: nat, count: nat, tuple: Byte) returns (bytes: nat)
    requires 1 <= count <= MAX_RUN && at + 2 <= output.Length
    modifies output
    ensures bytes == |RunCommand(count, tuple)|
    ensures output[..at + bytes] == old(output[..at]) + RunCommand(count, tuple)
  {
    output[at] := COMPRESSED + (count - 1);
    output[at + 1] := tuple;
    bytes := 2;
  }

  /** The pending tuples, if any, and then the repeated ones; a single tuple is left for later. */
  function Runs(pending: seq<Byte>, count: nat, tuple: Byte): seq<Byte>
    requires |pending| <= MAX_RUN && 1 <= count <= MAX_RUN
  {
    StraightCommand(pending) + if count == 1 then [] else RunCommand(count, tuple)
  }

  lemma CommandLengths(tuples: seq<Byte>, count: nat, tuple: Byte)
    requires |tuples| <= MAX_RUN && 1 <= count <= MAX_RUN
    ensures |RunCommand(count, tuple)| == 2
    ensures tuples != [] ==> |StraightCommand(tuples)| == 1 + |tuples|
  {
  }

  method FormatRuns(output: array<Byte>, at: nat, pending: seq<Byte>, count: nat, tuple: Byte) returns (bytes: nat)
    requires |pending| <= MAX_RUN && 1 <= count <= MAX_RUN
    requires at + |Runs(pending, count, tuple)| <= output.Length
    modifies output
    ensures bytes == |Runs(pending, count, tuple)|
    ensures output[..at + bytes] == old(output[..at]) + Runs(pending, count, tuple)
  {
    CommandLengths(pending, count, tuple);
    hide StraightCommand;
    hide RunCommand;
    bytes := 0;
    if pending != [] {
      bytes := FormatRunStraight(output, at, pending);
    }
    if count != 1 {
      var more := FormatRunCompressed(output, at + bytes, count, tuple);
      bytes := bytes + more;
    }
  }

  /**
   What is written and what is left to encode, the pending tuples included, make up the whole;
   and what is written is at most four thirds of the tuples it stands for.
   */
  ghost predicate OnTrack(image: seq<Byte>, written: seq<Byte>, run: nat, position: nat) {
    && run <= position <= |image| && position - run <= MAX_RUN && 3 * |written| <= 4 * run
    && written + Encode(image[run..position], image[position..]) == Encode([], image)
  }

  lemma CollectStep(image: seq<Byte>, written: seq<Byte>, run: nat, position: nat)
    requires OnTrack(image, written, run, position)
    requires position < |image| && position - run < MAX_RUN && RunLength(image[position..]) == 1
    ensures OnTrack(image, written, run, position + 1)
  {
    assert image[run..position] + [image[position]] == image[run..position + 1];
    assert image[position..][1..] == image[position + 1..];
  }

  lemma WriteStep(image: seq<Byte>, written: seq<Byte>, run: nat, position: nat, n: nat, next: nat)
    requires OnTrack(image, written, run, position) && position < |image|
    requires n == RunLength(image[position..]) && (n != 1 || position - run == MAX_RUN)
    requires next == if n == 1 then position else position + n
    ensures |written + Runs(image[run..position], n, image[position])| <= |Encode([], image)|
    ensures OnTrack(image, written + Runs(image[run..position], n, image[position]), next, next)
  {
    hide Encode;
    hide Runs;
    hide RunLength;
    var pending, tuples := image[run..position], image[position..];
    var rest := Encode([], image[next..]);
    assert tuples[n..] == image[position + n..] && image[next..next] == [];
    EncodeWrites(pending, tuples, n);
    Associate(written, Runs(pending, n, tuples[0]), rest);
  }

  /** What is written first when the pending tuples can or need not be added to. */
  lemma EncodeWrites(pending: seq<Byte>, tuples: seq<Byte>, n: nat)
    requires tuples != [] && |pending| <= MAX_RUN && n == RunLength(tuples) && (n != 1 || |pending| == MAX_RUN)
    ensures 1 <= n <= MAX_RUN && n <= |tuples|
    ensures 3 * |Runs(pending, n, tuples[0])| <= 4 * (|pending| + if n == 1 then 0 else n)
    ensures Encode(pending, tuples) == Runs(pending, n, tuples[0]) + Encode([], if n == 1 then tuples else tuples[n..])
  {
  }

  lemma Start(image: seq<Byte>, written: seq<Byte>)
    requires written == []
    ensures OnTrack(image, written, 0, 0)
  {
    assert image[0..0] == [] && image[0..] == image;
  }

  lemma Finish(image: seq<Byte>, written: seq<Byte>, run: nat)
    requires OnTrack(image, written, run, |image|)
    ensures Encode([], image) == if run == |image| then written else written + StraightCommand(image[run..])
  {
    assert image[run..|image|] == image[run..] && image[|image|..] == [];
  }

  lemma EncodeIsNotEmpty(image: seq<Byte>)
    requires image != []
    ensures Encode([], image) != []
  {
    DecodeOfEncode([], image);
    assert [] + image == image;
  }

  /** Writes out what the tuples before `position` leave pending, then the run that starts there. */
  method Flush(image: seq<Byte>, output: array<Byte>, length: nat, run: nat, position: nat, count: nat, ghost next: nat)
    returns (bytes: nat)
    requires length <= output.Length && OnTrack(image, output[..length], run, position) && position < |image|
    requires count == RunLength(image[position..]) && (count != 1 || position - run == MAX_RUN)
    requires next == if count == 1 then position else position + count
    requires |Encode([], image)| <= output.Length
    modifies output
    ensures length + bytes <= output.Length && OnTrack(image, output[..length + bytes], next, next)
    ensures 3 * (length + bytes) <= 4 * next
  {
    WriteStep(image, output[..length], run, position, count, next);
    bytes := FormatRuns(output, length, image[run..position], count, image[position]);
  }

  lemma FourThirds(image: seq<Byte>, written: seq<Byte>, run: nat, position: nat)
    requires OnTrack(image, written, run, position)
    ensures 3 * |written| <= 4 * run <= 4 * position
  {
  }

  /** Compresses an image into a buffer; the output never leaves it. */
  method Compress(image: seq<Byte>, output: array<Byte>) returns (length: nat)
    requires 1 <= |image| && WorstCase(|image|) <= output.Length
    modifies output
    ensures 0 < length && 3 * length <= 4 * |image| + 2
    ensures output[..length] == Encode([], image)
  {
    hide OnTrack;
    hide Encode;
    EncodeIsBounded([], image);
    EncodeIsNotEmpty(image);
    var position: nat, run: nat, straightLength: nat := 0, 0, 0;
    var remaining: nat := |image|;
    length := 0;
    Start(image, output[..length]);
    while remaining != 0
      invariant remaining == |image| - position && straightLength == position - run
      invariant run <= position && straightLength <= MAX_RUN
      invariant length <= output.Length && OnTrack(image, output[..length], run, position)
      decreases remaining, straightLength
    {
      var n := NextRunLength(image[position..]);
      if n == 1 && straightLength != MAX_RUN {
        CollectStep(image, output[..length], run, position);
        straightLength := straightLength + 1;
        position := position + 1;
        remaining := remaining - 1;
      } else {
        var next: nat := if n == 1 then position else position + n;
        var bytes := Flush(image, output, length, run, position, n, next);
        length := length + bytes;
        straightLength := 0;
        remaining := remaining - (next - position);
        position, run := next, next;
      }
    }
    assert 3 * length <= 4 * run by { FourThirds(image, output[..length], run, position); }
    Finish(image, output[..length], run);
    if straightLength != 0 {
      var bytes := FormatRunStraight(output, length, image[run..]);
      length := length + bytes;
    }
  }
}
