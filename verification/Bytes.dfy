/** Bytes and the big-endian words made of them. */
module Bytes {
  type Byte = b: int | 0 <= b < 256

  /** Four bytes as a big-endian word. */
  function Word(bytes: seq<Byte>): nat
    requires |bytes| == 4
  {
    var b0: int, b1: int, b2: int, b3: int := bytes[0], bytes[1], bytes[2], bytes[3];
    b0 * 0x100_0000 + b1 * 0x1_0000 + b2 * 0x100 + b3
  }

  function Zeros(n: nat): (zeros: seq<Byte>)
    ensures |zeros| == n && forall i :: 0 <= i < n ==> zeros[i] == 0
  {
    seq(n, _ => 0)
  }

  /** Memory, or a buffer, after `data` is copied in at `at`. */
  function Store(memory: seq<Byte>, at: nat, data: seq<Byte>): (result: seq<Byte>)
    requires at + |data| <= |memory|
    ensures |result| == |memory|
  {
    memory[..at] + data + memory[at + |data|..]
  }

  function Concat(chunks: seq<seq<Byte>>): seq<Byte> {
    if chunks == [] then [] else chunks[0] + Concat(chunks[1..])
  }
}
