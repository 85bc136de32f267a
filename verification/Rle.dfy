/**
 The toggling run-length format of the boot logo, as the decoder reads it
 (boot/src/tux64-boot/stage1/logo.c).

 A command byte holds a tuple count minus one; its top bit says whether one tuple is
 repeated that often, or that many tuples follow as they are. Setting or clearing the top
 bit of a seven-bit count is written as adding 0x80 or nothing.
 */
module Rle {
  import opened Bytes

  const MAX_RUN: nat := 0x80
  const COMPRESSED: nat := 0x80

  // ----- The format -----

  function CommandTuples(command: Byte): nat {
    command % 0x80 + 1
  }

  /** Bytes a command takes, its own byte included. */
  function CommandBytes(command: Byte): nat {
    if command >= COMPRESSED then 2 else 1 + CommandTuples(command)
  }

  /** A sequence of complete commands. */
  predicate WellFormed(input: seq<Byte>) {
    input == [] || (CommandBytes(input[0]) <= |input| && WellFormed(input[CommandBytes(input[0])..]))
  }

  function Repeat(tuple: Byte, count: nat): (r: seq<Byte>)
    ensures |r| == count && forall i :: 0 <= i < count ==> r[i] == tuple
  {
    seq(count, _ => tuple)
  }

  function CommandOutput(input: seq<Byte>): (r: seq<Byte>)
    requires input != [] && CommandBytes(input[0]) <= |input|
    ensures |r| == CommandTuples(input[0])
  {
    var n := CommandTuples(input[0]);
    if input[0] >= COMPRESSED then Repeat(input[1], n) else input[1..1 + n]
  }

  /** The tuples that a command sequence stands for. */
  function Decode(input: seq<Byte>): seq<Byte>
    requires WellFormed(input)
  {
    if input == [] then [] else CommandOutput(input) + Decode(input[CommandBytes(input[0])..])
  }

  lemma DecodeCommand(command: seq<Byte>, rest: seq<Byte>)
    requires command != [] && |command| == CommandBytes(command[0]) && WellFormed(rest)
    ensures WellFormed(command + rest)
    ensures Decode(command + rest) == CommandOutput(command) + Decode(rest)
  {
    assert (command + rest)[|command|..] == rest;
    assert CommandOutput(command + rest) == CommandOutput(command);
  }
}
