/** The decoder of the boot logo (boot/src/tux64-boot/stage1/logo.c). */
module Logo {
  import opened Bytes
  import opened Rle

  const COLOR_TABLE_ENTRIES: nat := 16

  /** The two pixels of a tuple as one big-endian word: the pixel of the high nibble comes first. */
  function ColorWord(table: seq<nat>, tuple: Byte): nat
    requires |table| == COLOR_TABLE_ENTRIES
  {
    var t: int := tuple;
    table[t / 16] * 0x1_0000 + table[t % 16]
  }

  function Colored(table: seq<nat>, tuples: seq<Byte>): (r: seq<nat>)
    requires |table| == COLOR_TABLE_ENTRIES
    ensures |r| == |tuples| && forall i :: 0 <= i < |tuples| ==> r[i] == ColorWord(table, tuples[i])
  {
    seq(|tuples|, i requires 0 <= i < |tuples| => ColorWord(table, tuples[i]))
  }

  lemma ColoredAppend(table: seq<nat>, a: seq<Byte>, b: seq<Byte>)
    requires |table| == COLOR_TABLE_ENTRIES
    ensures Colored(table, a + b) == Colored(table, a) + Colored(table, b)
  {
  }

  /** What is coloured so far, and the colours of what is still to be read, make up the whole picture. */
  ghost predicate OnTrack(compressed: seq<Byte>, table: seq<nat>, done: seq<nat>, input: nat)
    requires |table| == COLOR_TABLE_ENTRIES && WellFormed(compressed)
  {
    && input <= |compressed| && WellFormed(compressed[input..])
    && done + Colored(table, Decode(compressed[input..])) == Colored(table, Decode(compressed))
  }

  /** Where in the input the output of a command comes from. */
  lemma OutputOfCommand(compressed: seq<Byte>, input: nat)
    requires input < |compressed| && CommandBytes(compressed[input]) <= |compressed| - input
    ensures var n := CommandTuples(compressed[input]);
            CommandOutput(compressed[input..])
            == if compressed[input] < COMPRESSED then compressed[input + 1..input + 1 + n]
                else Repeat(compressed[input + 1], n)
  {
    var n := CommandTuples(compressed[input]);
    if compressed[input] < COMPRESSED {
      assert compressed[input..][1..1 + n] == compressed[input + 1..input + 1 + n];
    }
  }

  lemma Start(compressed: seq<Byte>, table: seq<nat>, done: seq<nat>)
    requires done == [] && |table| == COLOR_TABLE_ENTRIES && WellFormed(compressed)
    ensures OnTrack(compressed, table, done, 0)
  {
    assert compressed[0..] == compressed;
  }

  lemma CommandStep(compressed: seq<Byte>, table: seq<nat>, done: seq<nat>, input: nat)
    requires |table| == COLOR_TABLE_ENTRIES && WellFormed(compressed)
    requires OnTrack(compressed, table, done, input) && input < |compressed|
    ensures 0 < CommandBytes(compressed[input]) <= |compressed| - input
    ensures |Colored(table, CommandOutput(compressed[input..]))| == CommandTuples(compressed[input])
    ensures |done| + CommandTuples(compressed[input]) <= |Decode(compressed)|
    ensures OnTrack(compressed, table, done + Colored(table, CommandOutput(compressed[input..])),
                    input + CommandBytes(compressed[input]))
  {
    var rest := compressed[input..];
    var next := rest[CommandBytes(rest[0])..];
    assert next == compressed[input + CommandBytes(compressed[input])..];
    ColoredParts(table, done, CommandOutput(rest), Decode(next), Decode(rest));
  }

  lemma ColoredParts(table: seq<nat>, done: seq<nat>, first: seq<Byte>, rest: seq<Byte>, all: seq<Byte>)
    requires |table| == COLOR_TABLE_ENTRIES && all == first + rest
    ensures done + Colored(table, all) == done + Colored(table, first) + Colored(table, rest)
  {
    ColoredAppend(table, first, rest);
  }

  lemma Finish(compressed: seq<Byte>, table: seq<nat>, done: seq<nat>)
    requires |table| == COLOR_TABLE_ENTRIES && WellFormed(compressed)
    requires OnTrack(compressed, table, done, |compressed|)
    ensures done == Colored(table, Decode(compressed))
  {
    assert compressed[|compressed|..] == [];
  }

  class Decoder {
    const compressed: seq<Byte>
    /** Entry 0 stands for transparency and is replaced by the background. */
    var colorTable: seq<nat>
    const pixels: array<nat>

    predicate Valid()
      reads this
    {
      && |colorTable| == COLOR_TABLE_ENTRIES
      && compressed != [] && WellFormed(compressed) && |Decode(compressed)| <= pixels.Length
    }

    constructor (compressed: seq<Byte>, imageColors: seq<nat>, pixels: array<nat>)
      requires |imageColors| == COLOR_TABLE_ENTRIES - 1
      requires compressed != [] && WellFormed(compressed) && |Decode(compressed)| <= pixels.Length
      ensures Valid() && colorTable == [0] + imageColors && this.compressed == compressed && this.pixels == pixels
    {
      this.compressed, this.pixels := compressed, pixels;
      colorTable := [0] + imageColors;
    }

    method DecompressColorTuple(at: nat, tuple: Byte)
      requires |colorTable| == COLOR_TABLE_ENTRIES && at < pixels.Length
      modifies pixels
      ensures pixels[..at + 1] == old(pixels[..at]) + [ColorWord(colorTable, tuple)]
    {
      var t: int := tuple;
      var left, right := colorTable[t % 16], colorTable[t / 16];
      pixels[at] := right * 0x1_0000 + left;
    }

    method DecompressStraight(input: nat, output: nat, pixelTuples: nat) returns (wordsInput: nat, wordsOutput: nat)
      requires |colorTable| == COLOR_TABLE_ENTRIES
      requires input + pixelTuples + 1 <= |compressed| && output + pixelTuples + 1 <= pixels.Length
      modifies pixels
      ensures wordsInput == wordsOutput == pixelTuples + 1
      ensures pixels[..output + wordsOutput]
           == old(pixels[..output]) + Colored(colorTable, compressed[input..input + pixelTuples + 1])
    {
      wordsInput, wordsOutput := pixelTuples + 1, pixelTuples + 1;
      var done, left := 0, pixelTuples;
      while true
        invariant done + left == pixelTuples
        invariant pixels[..output + done] == old(pixels[..output]) + Colored(colorTable,
                  compressed[input..input + done])
        decreases left
      {
        DecompressColorTuple(output + done, compressed[input + done]);
        done := done + 1;
        if left == 0 {
          break;
        }
        left := left - 1;
      }
    }

    method DecompressCompressed(input: nat, output: nat, pixelTuples: nat) returns (wordsInput: nat, wordsOutput: nat)
      requires |colorTable| == COLOR_TABLE_ENTRIES
      requires input < |compressed| && output + pixelTuples + 1 <= pixels.Length
      modifies pixels
      ensures wordsInput == 1 && wordsOutput == pixelTuples + 1
      ensures pixels[..output + wordsOutput]
           == old(pixels[..output]) + Colored(colorTable, Repeat(compressed[input], pixelTuples + 1))
    {
      wordsInput, wordsOutput := 1, pixelTuples + 1;
      var tuple := compressed[input];
      var done, left := 0, pixelTuples;
      while true
        invariant done + left == pixelTuples
        invariant pixels[..output + done] == old(pixels[..output]) + Colored(colorTable, Repeat(tuple, done))
        decreases left
      {
        DecompressColorTuple(output + done, tuple);
        done := done + 1;
        if left == 0 {
          break;
        }
        left := left - 1;
      }
    }

    method DecompressCommand(input: nat, output: nat) returns (wordsInput: nat, wordsOutput: nat)
      requires |colorTable| == COLOR_TABLE_ENTRIES && input < |compressed|
      requires CommandBytes(compressed[input]) <= |compressed| - input
      requires output + CommandTuples(compressed[input]) <= pixels.Length
      modifies pixels
      ensures wordsInput == CommandBytes(compressed[input]) && wordsOutput == CommandTuples(compressed[input])
      ensures pixels[..output + wordsOutput] == old(pixels[..output]) + Colored(colorTable,
              CommandOutput(compressed[input..]))
    {
      var command := compressed[input];
      var pixelTuples := command % 0x80;
      var more;
      OutputOfCommand(compressed, input);
      if command < COMPRESSED {
        more, wordsOutput := DecompressStraight(input + 1, output, pixelTuples);
      } else {
        more, wordsOutput := DecompressCompressed(input + 1, output, pixelTuples);
      }
      wordsInput := 1 + more;
    }

    /** One round of the loop: a command is read and its pixels are written. */
    method DecompressNext(input: nat, output: nat) returns (wordsInput: nat, wordsOutput: nat)
      requires Valid() && input < |compressed| && output <= pixels.Length
      requires OnTrack(compressed, colorTable, pixels[..output], input)
      modifies pixels
      ensures 0 < wordsInput <= |compressed| - input && output + wordsOutput <= pixels.Length
      ensures OnTrack(compressed, colorTable, pixels[..output + wordsOutput], input + wordsInput)
    {
      hide OnTrack;
      hide Colored;
      hide CommandOutput;
      CommandStep(compressed, colorTable, pixels[..output], input);
      wordsInput, wordsOutput := DecompressCommand(input, output);
    }

    /** Runs commands until the count of remaining bytes is exactly zero, which it always comes to. */
    method Decompress()
      requires Valid()
      modifies pixels
      ensures pixels[..|Decode(compressed)|] == Colored(colorTable, Decode(compressed))
    {
      hide OnTrack;
      var input: nat, output: nat, remaining: nat := 0, 0, |compressed|;
      Start(compressed, colorTable, pixels[..output]);
      while remaining != 0
        invariant input + remaining == |compressed| && output <= pixels.Length
        invariant OnTrack(compressed, colorTable, pixels[..output], input)
        decreases remaining
      {
        var wordsInput, wordsOutput := DecompressNext(input, output);
        input, output := input + wordsInput, output + wordsOutput;
        remaining := remaining - wordsInput;
      }
      Finish(compressed, colorTable, pixels[..output]);
    }

    /** Puts in the background for entry 0, then decompresses. */
    method Initialize(transparent: nat)
      requires Valid()
      modifies this`colorTable, pixels
      ensures Valid() && colorTable == old(colorTable)[0 := transparent]
      ensures pixels[..|Decode(compressed)|] == Colored(colorTable, Decode(compressed))
    {
      colorTable := colorTable[0 := transparent];
      Decompress();
    }
  }
}
