/**
 The block-by-block file loader of stage 1 (boot/src/tux64-boot/stage1/file.c) and the
 whole-file loader of stage 2 (boot/src/tux64-boot/stage2/file.c).

 A DMA transfer is an abstract copy from the cartridge into RDRAM. Whether it succeeds,
 and what a failed one leaves behind, is decided by the environment.
 */
module FileLoad {
  import opened Arithmetic
  import opened Bytes
  import Checksum
  import opened BootPlan

  datatype Stage = Stage1 | Stage2

  /** One DMA transfer, as started by a stage. */
  datatype Transfer = Transfer(stage: Stage, cart: nat, rdram: nat, bytes: nat)

  /** How the environment answers one transfer, and whether a frame ends right after it. */
  datatype Answer = Answer(failed: bool, garbage: seq<Byte>, vblank: bool)

  type Environment = nat -> Answer

  /** Memory, the transfers made so far, and how often the environment was asked. */
  datatype Machine = Machine(rdram: seq<Byte>, log: seq<Transfer>, asked: nat)

  predicate InBounds(t: Transfer, rdramSize: nat, cartSize: nat) {
    t.rdram + t.bytes <= rdramSize && t.cart + t.bytes <= cartSize
  }

  /** A failed transfer leaves arbitrary bytes in its target range. */
  function Garbage(bytes: nat, garbage: seq<Byte>): (r: seq<Byte>)
    ensures |r| == bytes
  {
    if |garbage| >= bytes then garbage[..bytes] else garbage + Zeros(bytes - |garbage|)
  }

  function Copied(rdram: seq<Byte>, cart: seq<Byte>, t: Transfer): (r: seq<Byte>)
    requires InBounds(t, |rdram|, |cart|)
    ensures |r| == |rdram|
  {
    Store(rdram, t.rdram, cart[t.cart..t.cart + t.bytes])
  }

  function Dma(m: Machine, cart: seq<Byte>, t: Transfer, answer: Answer): (r: Machine)
    requires InBounds(t, |m.rdram|, |cart|)
    ensures |r.rdram| == |m.rdram| && r.log == m.log + [t] && r.asked == m.asked + 1
    ensures !answer.failed ==> r.rdram == Copied(m.rdram, cart, t)
  {
    Machine(if answer.failed then Store(m.rdram, t.rdram, Garbage(t.bytes, answer.garbage)) else Copied(m.rdram,
        cart, t),
            m.log + [t], m.asked + 1)
  }

  // ----- Stage 1: one block per poll -----

  const BLOCK_SIZE: nat := 4096

  datatype PollStatus = Busy | Complete | IoError | BadChecksum

  datatype LoadContext = LoadContext(cart: nat, rdram: nat, remaining: nat, expected: nat, checksum: Checksum.Context) {
    predicate Valid(rdramSize: nat, cartSize: nat) {
      0 < remaining && rdram + remaining <= rdramSize && cart + remaining <= cartSize && checksum.Valid()
    }
  }

  function LoadInitialize(file: File, address: nat): LoadContext {
    LoadContext(file.addrCart, address, file.length, file.checksum, Checksum.INITIAL)
  }

  function BlockOf(c: LoadContext): nat {
    if c.remaining >= BLOCK_SIZE then BLOCK_SIZE else c.remaining
  }

  function NextTransfer(c: LoadContext): Transfer {
    Transfer(Stage1, c.cart, c.rdram, BlockOf(c))
  }

  datatype PollResult = PollResult(context: LoadContext, machine: Machine, status: PollStatus)

  /** The checksum context after a block that delivered `data`. */
  function NextChecksum(c: LoadContext, data: seq<Byte>, checksums: bool): (r: Checksum.Context)
    requires c.checksum.Valid()
    ensures r.Valid()
  {
    if checksums then Checksum.Digest(c.checksum, data) else c.checksum
  }

  /** What a poll concludes once its block has been transferred. */
  function Conclude(c: LoadContext, m: Machine, failed: bool, next: Checksum.Context, checksums: bool): (r: PollResult)
    requires c.checksum.Valid() && next.Valid()
    ensures r.machine == m && r.context.checksum.Valid()
    ensures r.status == Busy ==> r.context.remaining != 0
  {
    var n := BlockOf(c);
    var c' := c.(cart := c.cart + n, rdram := c.rdram + n, remaining := c.remaining - n);
    if failed then PollResult(c', m, IoError)
    else
      var c'' := c'.(checksum := next);
      if c''.remaining != 0 then PollResult(c'', m, Busy)
      else if checksums && Checksum.Finalize(next) != c.expected then PollResult(c'', m, BadChecksum)
      else PollResult(c'', m, Complete)
  }

  function Poll(c: LoadContext, m: Machine, cart: seq<Byte>, env: Environment, checksums: bool): (r: PollResult)
    requires c.Valid(|m.rdram|, |cart|)
    ensures |r.machine.rdram| == |m.rdram|
    ensures r.status == Busy ==> r.context.Valid(|r.machine.rdram|, |cart|) && r.context.remaining < c.remaining
  {
    var answer := env(m.asked);
    var m' := Dma(m, cart, NextTransfer(c), answer);
    Conclude(c, m', answer.failed, NextChecksum(c, m'.rdram[c.rdram..c.rdram + BlockOf(c)], checksums), checksums)
  }

  /** Polls until the load ends or a frame does. */
  function PollUntilPreempted(c: LoadContext, m: Machine, cart: seq<Byte>, env: Environment,
                              checksums: bool): (r: PollResult)
    requires c.Valid(|m.rdram|, |cart|)
    ensures |r.machine.rdram| == |m.rdram|
    ensures r.status == Busy ==> r.context.Valid(|r.machine.rdram|, |cart|)
    decreases c.remaining
  {
    var r := Poll(c, m, cart, env, checksums);
    if r.status != Busy || env(m.asked).vblank then r
    else PollUntilPreempted(r.context, r.machine, cart, env, checksums)
  }

  /** A tick that does not finish a load has moved at least one full block. */
  lemma {:induction false} BusyMovesABlock(c: LoadContext, m: Machine, cart: seq<Byte>, env: Environment,
                                           checksums: bool)
    requires c.Valid(|m.rdram|, |cart|)
    ensures var r := PollUntilPreempted(c, m, cart, env, checksums);
            r.status == Busy ==> r.context.remaining + BLOCK_SIZE <= c.remaining
    decreases c.remaining
  {
    var r := Poll(c, m, cart, env, checksums);
    if r.status == Busy && !env(m.asked).vblank {
      BusyMovesABlock(r.context, r.machine, cart, env, checksums);
    }
  }

  /**
   The polls of one tick make one transfer each, and end with the first that ends a frame or the load: before
   the last one no frame has ended and no transfer has failed, and if the load goes on, a frame has ended.
   */
  ghost predicate EndsWithFrame(m: Machine, env: Environment, r: PollResult) {
    && m.asked < r.machine.asked && |r.machine.log| == |m.log| + (r.machine.asked - m.asked)
    && (forall i :: m.asked <= i < r.machine.asked - 1 ==> !env(i).vblank && !env(i).failed)
    && (r.status == Busy ==> env(r.machine.asked - 1).vblank)
    && (r.status == IoError <==> env(r.machine.asked - 1).failed)
  }

  /** So do all polls of a tick. */
  lemma {:induction false} PollsUntilFrameEnds(c: LoadContext, m: Machine, cart: seq<Byte>, env: Environment,
                                               checksums: bool)
    requires c.Valid(|m.rdram|, |cart|)
    ensures EndsWithFrame(m, env, PollUntilPreempted(c, m, cart, env, checksums))
    decreases c.remaining
  {
    PollAsksOnce(c, m, cart, env, checksums);
    var r := Poll(c, m, cart, env, checksums);
    hide Poll;
    if r.status == Busy && !env(m.asked).vblank {
      PollsUntilFrameEnds(r.context, r.machine, cart, env, checksums);
      hide PollUntilPreempted;
      OneMorePoll(m, r.machine, env, PollUntilPreempted(r.context, r.machine, cart, env, checksums));
    }
  }

  lemma OneMorePoll(m: Machine, m': Machine, env: Environment, r: PollResult)
    requires m'.asked == m.asked + 1 && |m'.log| == |m.log| + 1 && !env(m.asked).vblank && !env(m.asked).failed
    requires EndsWithFrame(m', env, r)
    ensures EndsWithFrame(m, env, r)
  {
    forall i | m.asked <= i < r.machine.asked - 1 ensures !env(i).vblank && !env(i).failed {
      if i > m.asked {
        assert m'.asked <= i;
      }
    }
  }

  lemma PollAsksOnce(c: LoadContext, m: Machine, cart: seq<Byte>, env: Environment, checksums: bool)
    requires c.Valid(|m.rdram|, |cart|)
    ensures var r := Poll(c, m, cart, env, checksums);
            && r.machine.asked == m.asked + 1 && |r.machine.log| == |m.log| + 1
            && (r.status == IoError <==> env(m.asked).failed)
  {
  }

  // ----- What a load does to memory and to the log -----

  /** The transfers stage 1 makes for `bytes` bytes: full blocks, then the rest. */
  function Blocks(cart: nat, rdram: nat, bytes: nat): seq<Transfer>
    decreases bytes
  {
    if bytes == 0 then []
    else
      var n := if bytes >= BLOCK_SIZE then BLOCK_SIZE else bytes;
      [Transfer(Stage1, cart, rdram, n)] + Blocks(cart + n, rdram + n, bytes - n)
  }

  predicate LogInBounds(log: seq<Transfer>, rdramSize: nat, cartSize: nat) {
    forall i :: 0 <= i < |log| ==> InBounds(log[i], rdramSize, cartSize)
  }

  /** Memory after a sequence of successful transfers. */
  function Replay(rdram: seq<Byte>, cart: seq<Byte>, log: seq<Transfer>): (r: seq<Byte>)
    requires LogInBounds(log, |rdram|, |cart|)
    ensures |r| == |rdram|
  {
    if log == [] then rdram
    else Copied(Replay(rdram, cart, log[..|log| - 1]), cart, log[|log| - 1])
  }

  /** The bytes of a file on the cartridge. */
  function Contents(cart: seq<Byte>, file: File): seq<Byte>
    requires file.addrCart + file.length <= |cart|
  {
    cart[file.addrCart..file.addrCart + file.length]
  }

  /** A load of `file` to `address` that has `c` left to do. */
  ghost predicate Loading(c: LoadContext, cart: seq<Byte>, file: File, address: nat, checksums: bool) {
    && file.addrCart + file.length <= |cart|
    && 0 < c.remaining <= file.length
    && c.cart == file.addrCart + (file.length - c.remaining)
    && c.rdram == address + (file.length - c.remaining)
    && c.expected == file.checksum
    && c.checksum.Valid()
    && (file.length - c.remaining) % BLOCK_SIZE == 0
    && (checksums ==> Checksum.Represents(c.checksum, cart[file.addrCart..c.cart]))
  }

  lemma LoadingStarts(cart: seq<Byte>, file: File, address: nat, checksums: bool)
    requires 0 < file.length && file.addrCart + file.length <= |cart|
    ensures Loading(LoadInitialize(file, address), cart, file, address, checksums)
  {
    Checksum.InitialRepresentsNothing();
    assert cart[file.addrCart..file.addrCart] == [];
  }

  lemma CopiedBytes(rdram: seq<Byte>, cart: seq<Byte>, t: Transfer)
    requires InBounds(t, |rdram|, |cart|)
    ensures Copied(rdram, cart, t)[t.rdram..t.rdram + t.bytes] == cart[t.cart..t.cart + t.bytes]
  {
  }

  /** The checksum context keeps up with the blocks because every earlier block was full. */
  lemma BlockIsDigested(c: Checksum.Context, cart: seq<Byte>, from: nat, middle: nat, to: nat)
    requires from <= middle <= to <= |cart| && (middle - from) % BLOCK_SIZE == 0
    requires Checksum.Represents(c, cart[from..middle])
    ensures Checksum.Represents(Checksum.Digest(c, cart[middle..to]), cart[from..to])
  {
    var before, block := cart[from..middle], cart[middle..to];
    assert |before| % 4 == 0;
    JoinSlices(cart, from, middle, to);
    Checksum.DigestAppendsIff(c, before, block);
  }

  lemma JoinSlices(cart: seq<Byte>, from: nat, middle: nat, to: nat)
    requires from <= middle <= to <= |cart|
    ensures cart[from..middle] + cart[middle..to] == cart[from..to]
  {
  }

  /** What one successful transfer of a running load does to memory and to the log. */
  ghost predicate Transfers(c: LoadContext, m: Machine, m': Machine, cart: seq<Byte>) {
    && InBounds(NextTransfer(c), |m.rdram|, |cart|)
    && m'.rdram == Copied(m.rdram, cart, NextTransfer(c))
    && m'.log == m.log + [NextTransfer(c)]
  }

  /** Where a load stands after a poll: on with the rest, or done with a verdict on the checksum. */
  ghost predicate Advances(c: LoadContext, r: PollResult, cart: seq<Byte>, file: File, address: nat, checksums: bool) {
    && file.addrCart + file.length <= |cart|
    && (r.status == Busy ==>
          && Loading(r.context, cart, file, address, checksums)
          && Blocks(c.cart, c.rdram, c.remaining)
             == [NextTransfer(c)] + Blocks(r.context.cart, r.context.rdram, r.context.remaining))
    && (r.status != Busy ==> Blocks(c.cart, c.rdram, c.remaining) == [NextTransfer(c)])
    && (r.status == Complete && checksums ==> Checksum.Fletcher(Contents(cart, file)) == file.checksum)
    && (r.status == BadChecksum ==> checksums && Checksum.Fletcher(Contents(cart, file)) != file.checksum)
  }

  lemma PollTransfers(c: LoadContext, m: Machine, cart: seq<Byte>, env: Environment, checksums: bool)
    requires c.Valid(|m.rdram|, |cart|)
    ensures var r := Poll(c, m, cart, env, checksums);
            && (r.status == IoError <==> env(m.asked).failed)
            && r.machine.asked == m.asked + 1
            && (r.status != IoError ==> Transfers(c, m, r.machine, cart))
  {
  }

  /** The next checksum context stands for everything loaded so far, this block included. */
  lemma BlockIsRepresented(c: LoadContext, cart: seq<Byte>, file: File, address: nat, data: seq<Byte>)
    requires Loading(c, cart, file, address, true) && data == cart[c.cart..c.cart + BlockOf(c)]
    ensures Checksum.Represents(NextChecksum(c, data, true), cart[file.addrCart..c.cart + BlockOf(c)])
  {
    hide Checksum.Digest;
    hide Checksum.Represents;
    BlockIsDigested(c.checksum, cart, file.addrCart, c.cart, c.cart + BlockOf(c));
  }

  lemma LastBlockCompletes(next: Checksum.Context, cart: seq<Byte>, file: File, loaded: seq<Byte>)
    requires file.addrCart + file.length <= |cart| && loaded == Contents(cart, file)
    requires Checksum.Represents(next, loaded)
    ensures next.Valid() && Checksum.Finalize(next) == Checksum.Fletcher(Contents(cart, file))
  {
    Checksum.FinalizeIsFletcher(next, loaded);
  }

  lemma PollInTermsOfCart(c: LoadContext, m: Machine, cart: seq<Byte>, env: Environment, checksums: bool)
    requires c.Valid(|m.rdram|, |cart|) && !env(m.asked).failed
    ensures Poll(c, m, cart, env, checksums)
         == Conclude(c, Dma(m, cart, NextTransfer(c), env(m.asked)), false,
                     NextChecksum(c, cart[c.cart..c.cart + BlockOf(c)], checksums), checksums)
  {
    BlockArrives(c, m, cart, env(m.asked));
  }

  lemma BlockArrives(c: LoadContext, m: Machine, cart: seq<Byte>, answer: Answer)
    requires c.Valid(|m.rdram|, |cart|) && !answer.failed
    ensures Dma(m, cart, NextTransfer(c), answer).rdram[c.rdram..c.rdram + BlockOf(c)]
            == cart[c.cart..c.cart + BlockOf(c)]
  {
    CopiedBytes(m.rdram, cart, NextTransfer(c));
  }

  lemma PollAdvances(c: LoadContext, m: Machine, cart: seq<Byte>, env: Environment, checksums: bool, file: File,
                     address: nat)
    requires Loading(c, cart, file, address, checksums) && address + file.length <= |m.rdram|
    requires !env(m.asked).failed
    ensures Advances(c, Poll(c, m, cart, env, checksums), cart, file, address, checksums)
  {
    var data := cart[c.cart..c.cart + BlockOf(c)];
    PollInTermsOfCart(c, m, cart, env, checksums);
    if checksums {
      BlockIsRepresented(c, cart, file, address, data);
    }
    ConcludeAdvances(c, Dma(m, cart, NextTransfer(c), env(m.asked)), NextChecksum(c, data, checksums), cart,
        checksums, file, address);
  }

  lemma ConcludeAdvances(c: LoadContext, m: Machine, next: Checksum.Context, cart: seq<Byte>, checksums: bool,
                         file: File, address: nat)
    requires Loading(c, cart, file, address, checksums) && next.Valid()
    requires checksums ==> Checksum.Represents(next, cart[file.addrCart..c.cart + BlockOf(c)])
    ensures Advances(c, Conclude(c, m, false, next, checksums), cart, file, address, checksums)
  {
    assert Blocks(c.cart + BlockOf(c), c.rdram + BlockOf(c), 0) == [];
    if checksums && c.remaining <= BLOCK_SIZE {
      LastBlockCompletes(next, cart, file, cart[file.addrCart..c.cart + BlockOf(c)]);
    }
  }

  // ----- Stage 2: the whole file at once -----

  /** A load either halts on a bad checksum or goes on; an I/O error by itself goes unnoticed. */
  datatype Stage2Result = Stage2Result(machine: Machine, halted: bool)

  function Stage2Load(m: Machine, cart: seq<Byte>, env: Environment, checksums: bool, file: File,
                      address: nat): (r: Stage2Result)
    requires address + file.length <= |m.rdram| && file.addrCart + file.length <= |cart|
    ensures |r.machine.rdram| == |m.rdram|
  {
    var m' := Dma(m, cart, Transfer(Stage2, file.addrCart, address, file.length), env(m.asked));
    Stage2Result(m', checksums && Checksum.OneShot(m'.rdram[address..address + file.length]) != file.checksum)
  }

  /** What a transfer leaves in its target range. */
  function Delivered(cart: seq<Byte>, file: File, answer: Answer): (r: seq<Byte>)
    requires file.addrCart + file.length <= |cart|
    ensures |r| == file.length
  {
    if answer.failed then Garbage(file.length, answer.garbage) else Contents(cart, file)
  }

  lemma StoredBytes(memory: seq<Byte>, at: nat, data: seq<Byte>)
    requires at + |data| <= |memory|
    ensures Store(memory, at, data)[at..at + |data|] == data
  {
  }

  /** A stage-2 load goes on exactly when checksums are off or the bytes delivered match. */
  lemma Stage2LoadEffect(m: Machine, cart: seq<Byte>, env: Environment, checksums: bool, file: File, address: nat)
    requires address + file.length <= |m.rdram| && file.addrCart + file.length <= |cart|
    ensures var r := Stage2Load(m, cart, env, checksums, file, address);
            var data := Delivered(cart, file, env(m.asked));
            && r.machine.rdram == Store(m.rdram, address, data)
            && r.machine.log == m.log + [Transfer(Stage2, file.addrCart, address, file.length)]
            && r.machine.asked == m.asked + 1
            && (r.halted <==> checksums && Checksum.Fletcher(data) != file.checksum)
  {
    var data := Delivered(cart, file, env(m.asked));
    var m' := Dma(m, cart, Transfer(Stage2, file.addrCart, address, file.length), env(m.asked));
    assert m'.rdram == Store(m.rdram, address, data);
    StoredBytes(m.rdram, address, data);
    Checksum.OneShotIsFletcher(data);
  }

  /** The environment answers as given, whatever it is asked. */
  function Always(answer: Answer): Environment {
    _ => answer
  }

  /**
   Without checksums stage 2 never halts, so it delivers the file for certain exactly when
   the transfer does not fail: the I/O status that the hardware reports is not looked at.
   */
  lemma Stage2MissesIoErrors(m: Machine, cart: seq<Byte>, file: File, address: nat, failed: bool)
    requires 0 < file.length && address + file.length <= |m.rdram| && file.addrCart + file.length <= |cart|
    ensures forall garbage :: !Stage2Load(m, cart, Always(Answer(failed, garbage, false)), false, file, address).halted
    ensures !failed <==>
            forall garbage :: Stage2Load(m, cart, Always(Answer(failed, garbage, false)), false, file,
                address).machine.rdram
                              == Store(m.rdram, address, Contents(cart, file))
  {
    var contents := Contents(cart, file);
    if failed {
      var wrong: Byte := if contents[0] == 0 then 1 else 0;
      var garbage := [wrong] + contents[1..];
      Stage2LoadEffect(m, cart, Always(Answer(failed, garbage, false)), false, file, address);
      assert Garbage(file.length, garbage) == garbage;
      StoredBytes(m.rdram, address, garbage);
      StoredBytes(m.rdram, address, contents);
      assert garbage[0] != contents[0];
    }
  }
}
