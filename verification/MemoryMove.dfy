/** The portable copy and move of the common library (lib/src/tux64/memory.c). */
module MemoryMove {
  import opened Arithmetic
  import opened Bytes

  /** Memory after `n` bytes went from `src` to `dest`, all of them read before any is written. */
  function Moved(memory: seq<Byte>, dest: nat, src: nat, n: nat): (r: seq<Byte>)
    requires dest + n <= |memory| && src + n <= |memory|
    ensures |r| == |memory|
  {
    Store(memory, dest, memory[src..src + n])
  }

  /** The two ranges have no byte in common. */
  predicate Disjoint(dest: nat, src: nat, n: nat) {
    dest + n <= src || src + n <= dest
  }

  lemma MovedAt(memory: seq<Byte>, dest: nat, src: nat, n: nat, i: nat)
    requires dest + n <= |memory| && src + n <= |memory| && i < |memory|
    ensures Moved(memory, dest, src, n)[i] == if dest <= i < dest + n then memory[src + (i - dest)] else memory[i]
  {
  }

  /** A move that has one more byte to its right. */
  lemma MovedOneMore(before: seq<Byte>, after: seq<Byte>, dest: nat, src: nat, n: nat)
    requires dest + n < |before| && src + n < |before| && |after| == |before|
    requires after == Moved(before, dest, src, n)[dest + n := before[src + n]]
    ensures after == Moved(before, dest, src, n + 1)
  {
    forall i | 0 <= i < |before| ensures after[i] == Moved(before, dest, src, n + 1)[i] {
      MovedAt(before, dest, src, n, i);
      MovedAt(before, dest, src, n + 1, i);
    }
  }

  /** A move that has one more byte to its left. */
  lemma MovedOneBefore(before: seq<Byte>, after: seq<Byte>, dest: nat, src: nat, n: nat)
    requires 0 < dest && dest + n <= |before| && 0 < src && src + n <= |before| && |after| == |before|
    requires after == Moved(before, dest, src, n)[dest - 1 := before[src - 1]]
    ensures after == Moved(before, dest - 1, src - 1, n + 1)
  {
    forall i | 0 <= i < |before| ensures after[i] == Moved(before, dest - 1, src - 1, n + 1)[i] {
      MovedAt(before, dest, src, n, i);
      MovedAt(before, dest - 1, src - 1, n + 1, i);
    }
  }

  lemma SameBytes(a: seq<Byte>, b: seq<Byte>)
    requires |a| == |b| && forall i :: 0 <= i < |a| ==> a[i] == b[i]
    ensures a == b
  {
  }

  /** To the left: the low part first, and nothing that is still to be read is written over. */
  lemma LowThenHigh(before: seq<Byte>, between: seq<Byte>, dest: nat, src: nat, low: nat, n: nat)
    requires low <= n && dest + n <= |before| && src + n <= |before| && dest <= src
    requires between == Moved(before, dest, src, low)
    ensures Moved(before, dest, src, n) == Moved(between, dest + low, src + low, n - low)
  {
    hide Moved;
    var result, goal := Moved(between, dest + low, src + low, n - low), Moved(before, dest, src, n);
    forall i | 0 <= i < |before| ensures result[i] == goal[i] {
      MovedAt(before, dest, src, n, i);
      MovedAt(between, dest + low, src + low, n - low, i);
      MovedAt(before, dest, src, low, i);
      if dest + low <= i < dest + n {
        MovedAt(before, dest, src, low, src + (i - dest));
      }
    }
    SameBytes(result, goal);
  }

  /** To the right: the high part first. */
  lemma HighThenLow(before: seq<Byte>, between: seq<Byte>, dest: nat, src: nat, low: nat, n: nat)
    requires low <= n && dest + n <= |before| && src + n <= |before| && src <= dest
    requires between == Moved(before, dest + low, src + low, n - low)
    ensures Moved(before, dest, src, n) == Moved(between, dest, src, low)
  {
    hide Moved;
    var result, goal := Moved(between, dest, src, low), Moved(before, dest, src, n);
    forall i | 0 <= i < |before| ensures result[i] == goal[i] {
      MovedAt(before, dest, src, n, i);
      MovedAt(between, dest, src, low, i);
      MovedAt(before, dest + low, src + low, n - low, i);
      if dest <= i < dest + low {
        MovedAt(before, dest + low, src + low, n - low, src + (i - dest));
      }
    }
    SameBytes(result, goal);
  }

  lemma MovedNothing(before: seq<Byte>, dest: nat, src: nat)
    requires dest <= |before| && src <= |before|
    ensures Moved(before, dest, src, 0) == before
  {
  }

  /** Its arguments may not overlap: both pointers are declared `restrict`. */
  method Copy(memory: array<Byte>, dest: nat, src: nat, bytes: nat)
    requires dest + bytes <= memory.Length && src + bytes <= memory.Length && Disjoint(dest, src, bytes)
    modifies memory
    ensures memory[..] == Moved(old(memory[..]), dest, src, bytes)
  {
    hide Moved;
    ghost var before := memory[..];
    var done, left := 0, bytes;
    MovedNothing(before, dest, src);
    while left != 0
      invariant done + left == bytes && memory[..] == Moved(before, dest, src, done)
    {
      MovedAt(before, dest, src, done, src + done);
      memory[dest + done] := memory[src + done];
      MovedOneMore(before, memory[..], dest, src, done);
      done := done + 1;
      left := left - 1;
    }
  }

  method MoveLeftward(memory: array<Byte>, dest: nat, src: nat, bytes: nat, overlap: nat)
    requires dest + bytes <= memory.Length && src + bytes <= memory.Length
    requires dest < src && 0 < overlap <= bytes && bytes - overlap <= src - dest
    modifies memory
    ensures memory[..] == Moved(old(memory[..]), dest, src, bytes)
  {
    hide Moved;
    ghost var before := memory[..];
    var done, left := 0, overlap;
    MovedNothing(before, dest, src);
    while left != 0
      invariant done + left == overlap && memory[..] == Moved(before, dest, src, done)
    {
      MovedAt(before, dest, src, done, src + done);
      memory[dest + done] := memory[src + done];
      MovedOneMore(before, memory[..], dest, src, done);
      done := done + 1;
      left := left - 1;
    }
    LowThenHigh(before, memory[..], dest, src, overlap, bytes);
    Copy(memory, dest + overlap, src + overlap, bytes - overlap);
  }

  method MoveRightward(memory: array<Byte>, dest: nat, src: nat, bytes: nat, overlap: nat)
    requires dest + bytes <= memory.Length && src + bytes <= memory.Length
    requires src < dest && 0 < overlap <= bytes && bytes - overlap <= dest - src
    modifies memory
    ensures memory[..] == Moved(old(memory[..]), dest, src, bytes)
  {
    hide Moved;
    ghost var before := memory[..];
    var rest, left := bytes, overlap;
    MovedNothing(before, dest + bytes, src + bytes);
    while left != 0
      invariant left <= rest <= bytes && rest - left == bytes - overlap
      invariant memory[..] == Moved(before, dest + rest, src + rest, bytes - rest)
    {
      MovedAt(before, dest + rest, src + rest, bytes - rest, src + rest - 1);
      memory[dest + rest - 1] := memory[src + rest - 1];
      MovedOneBefore(before, memory[..], dest + rest, src + rest, bytes - rest);
      rest := rest - 1;
      left := left - 1;
    }
    HighThenLow(before, memory[..], dest, src, rest, bytes);
    Copy(memory, dest, src, rest);
  }

  /**
   Moves between any two ranges, overlapping or not. The distance is cut to 32 bits, which
   at worst takes ranges that are far apart for overlapping ones.
   */
  method Move(memory: array<Byte>, dest: nat, src: nat, bytes: nat)
    requires dest + bytes <= memory.Length && src + bytes <= memory.Length && bytes < U32
    modifies memory
    ensures memory[..] == Moved(old(memory[..]), dest, src, bytes)
  {
    if dest == src {
      assert memory[..] == Moved(memory[..], dest, src, bytes);
      return;
    }
    var distance := AbsoluteDifference(dest, src) % U32;
    if distance >= bytes {
      DistanceKeepsApart(dest, src, bytes);
      Copy(memory, dest, src, bytes);
      return;
    }
    var overlap := bytes - distance;
    DistanceIsNotMore(AbsoluteDifference(dest, src));
    if src < dest {
      MoveRightward(memory, dest, src, bytes, overlap);
    } else {
      MoveLeftward(memory, dest, src, bytes, overlap);
    }
  }

  lemma DistanceIsNotMore(distance: nat)
    ensures distance % U32 <= distance
  {
  }

  lemma DistanceKeepsApart(dest: nat, src: nat, bytes: nat)
    requires AbsoluteDifference(dest, src) % U32 >= bytes
    ensures Disjoint(dest, src, bytes)
  {
    DistanceIsNotMore(AbsoluteDifference(dest, src));
  }
}
