/**
 The boot protocol as a state machine: the tick-driven machine of stage 1
 (boot/src/tux64-boot/stage1/fsm.c) and the hand-over to stage 2
 (boot/src/tux64-boot/stage2/file.c, stage2.c).
 */
module LoadProtocol {
  import opened Arithmetic
  import opened Bytes
  import Checksum
  import opened BootPlan
  import opened FileLoad

  /** Compile-time and header options that steer the machine. */
  datatype Config = Config(delayCompiled: bool, delayEnabled: bool, delayTicks: nat, checksums: bool)

  /** Everything that is fixed while a boot runs. */
  datatype System = System(config: Config, header: Header, plan: Outcome, stage2Address: nat, cart: seq<Byte>,
                           rdramSize: nat) {
    predicate LoadedByStage1(id: FileId) {
      plan.placement.LoadedByStage1(id)
    }

    function AddressOf(id: FileId): nat {
      plan.placement.AddressOf(id)
    }

    predicate AllByStage1() {
      LoadedByStage1(Kernel) && LoadedByStage1(Initramfs) && LoadedByStage1(CommandLine)
    }

    predicate OnCart(file: File) {
      file.addrCart + file.length <= |cart|
    }

    /** An empty file sits at address zero with its bit set; any other lies inside memory. */
    predicate Placed(id: FileId) {
      var address, bytes := AddressOf(id), FileOf(header, id).length;
      if bytes == 0 then address == 0 && LoadedByStage1(id)
      else 0 < address && address + bytes <= rdramSize
    }

    predicate Valid() {
      && config.delayTicks < U32
      && 0 < header.kernel.length && 0 < header.stage2.length
      && OnCart(header.kernel) && OnCart(header.initramfs) && OnCart(header.commandLine) && OnCart(header.stage2)
      && stage2Address + header.stage2.length <= rdramSize
      && (plan.ok ==> Placed(Kernel) && Placed(Initramfs) && Placed(CommandLine))
    }
  }

  /** The transition functions, as the values the machine stores. */
  datatype Transition =
    | ToStart | ToKernel | ToInitramfs | ToCommandLine | ToStage2
    | ToBootKernel | ToBootKernelWait | ToBootStage2 | ToBootStage2Wait | ToHalt

  datatype State =
    | Delay(transition: Transition, ticks: nat)
    | LoadFile(context: LoadContext, next: Transition)
    | BootKernel
    | BootStage2
    | Halt

  function Rank(t: Transition): nat {
    match t
    case ToStart => 7
    case ToKernel => 6
    case ToInitramfs => 5
    case ToCommandLine => 4
    case ToStage2 => 3
    case ToBootKernel => 2
    case ToBootStage2 => 2
    case _ => 1
  }

  // ----- The transitions of stage 1 -----

  /** Reporting an error still takes one tick, so that the message is rendered. */
  function HaltState(sys: System): State {
    if sys.config.delayCompiled then Delay(ToHalt, 1) else Halt
  }

  function AfterCommandLine(sys: System): Transition {
    if sys.plan.placement.status.Mask() == STATUS_CONCURRENT_WITH_STAGE1 then ToBootKernel else ToStage2
  }

  /** The state a transition function leaves the machine in. */
  function Enter(sys: System, t: Transition): State
    decreases Rank(t), 0
  {
    match t
    case ToStart => if sys.plan.ok then Enter(sys, ToKernel) else HaltState(sys)
    case ToKernel => EnterLoad(sys, Kernel, ToInitramfs)
    case ToInitramfs => EnterLoad(sys, Initramfs, ToCommandLine)
    case ToCommandLine => EnterLoad(sys, CommandLine, AfterCommandLine(sys))
    case ToStage2 => LoadFile(LoadInitialize(sys.header.stage2, sys.stage2Address), ToBootStage2)
    case ToBootKernel => if sys.config.delayCompiled then Delay(ToBootKernelWait, 1) else Enter(sys, ToBootKernelWait)
    case ToBootKernelWait => BootKernel
    case ToBootStage2 => if sys.config.delayCompiled then Delay(ToBootStage2Wait, 1) else Enter(sys, ToBootStage2Wait)
    case ToBootStage2Wait => BootStage2
    case ToHalt => Halt
  }

  /** Loads a file now, or moves on at once when it is empty or left to stage 2. */
  function EnterLoad(sys: System, id: FileId, next: Transition): State
    decreases Rank(next), 1
  {
    if sys.AddressOf(id) == 0 || !sys.LoadedByStage1(id) then Enter(sys, next)
    else LoadFile(LoadInitialize(FileOf(sys.header, id), sys.AddressOf(id)), next)
  }

  function Schedule(sys: System, t: Transition): State {
    if sys.config.delayCompiled && sys.config.delayEnabled then Delay(t, sys.config.delayTicks) else Enter(sys, t)
  }

  function InitialState(sys: System): State {
    Schedule(sys, ToStart)
  }

  // ----- One tick -----

  datatype Phase = Running(state: State) | KernelStarted | Stage2Started | Halted

  datatype Run = Run(phase: Phase, machine: Machine)

  predicate Runnable(sys: System, run: Run) {
    && |run.machine.rdram| == sys.rdramSize
    && (run.phase.Running? && run.phase.state.LoadFile? ==>
          run.phase.state.context.Valid(sys.rdramSize, |sys.cart|))
  }

  function AfterPoll(sys: System, r: PollResult, next: Transition): State {
    match r.status
    case Busy => LoadFile(r.context, next)
    case Complete => Schedule(sys, next)
    case IoError => HaltState(sys)
    case BadChecksum => HaltState(sys)
  }

  function Tick(sys: System, run: Run, env: Environment): (r: Run)
    requires Runnable(sys, run)
    ensures |r.machine.rdram| == sys.rdramSize
  {
    match run.phase
    case Running(Delay(t, ticks)) =>
      var ticks' := (ticks - 1) % U32;
      Run(Running(if ticks' != 0 then Delay(t, ticks') else Enter(sys, t)), run.machine)
    case Running(LoadFile(context, next)) =>
      var r := PollUntilPreempted(context, run.machine, sys.cart, env, sys.config.checksums);
      Run(Running(AfterPoll(sys, r, next)), r.machine)
    case Running(BootKernel) => run.(phase := KernelStarted)
    case Running(BootStage2) => run.(phase := Stage2Started)
    case Running(Halt) => run.(phase := Halted)
    case _ => run
  }

  // ----- The transfers still to come -----

  /** The transfers stage 1 makes for one boot file. */
  function Stage1Transfers(sys: System, id: FileId): seq<Transfer> {
    if sys.LoadedByStage1(id) then Blocks(FileOf(sys.header, id).addrCart, sys.AddressOf(id), FileOf(sys.header,
        id).length) else []
  }

  /** What stage 1 loads behind the boot files: the stage-2 image, unless it can boot directly. */
  function Stage2Image(sys: System): seq<Transfer> {
    if sys.AllByStage1() then [] else Blocks(sys.header.stage2.addrCart, sys.stage2Address, sys.header.stage2.length)
  }

  function FutureOf(sys: System, t: Transition): seq<Transfer> {
    match t
    case ToStart => Stage1Transfers(sys, Kernel) + Stage1Transfers(sys, Initramfs) + Stage1Transfers(sys,
        CommandLine) + Stage2Image(sys)
    case ToKernel => Stage1Transfers(sys, Kernel) + Stage1Transfers(sys, Initramfs) + Stage1Transfers(sys,
        CommandLine) + Stage2Image(sys)
    case ToInitramfs => Stage1Transfers(sys, Initramfs) + Stage1Transfers(sys, CommandLine) + Stage2Image(sys)
    case ToCommandLine => Stage1Transfers(sys, CommandLine) + Stage2Image(sys)
    case ToStage2 => Stage2Image(sys)
    case _ => []
  }

  /** The transfers an error-free run makes from a state on. */
  function Future(sys: System, s: State): seq<Transfer> {
    match s
    case Delay(t, _) => FutureOf(sys, t)
    case LoadFile(c, next) => Blocks(c.cart, c.rdram, c.remaining) + FutureOf(sys, next)
    case _ => []
  }

  /** Every transfer of an error-free stage 1, in order. */
  function Stage1Log(sys: System): seq<Transfer> {
    FutureOf(sys, ToStart)
  }

  // ----- The invariant -----

  predicate Halting(s: State) {
    s == Halt || (s.Delay? && s.transition == ToHalt)
  }

  /** Which decision about booting a stored transition already embodies. */
  predicate Decided(sys: System, t: Transition) {
    match t
    case ToStart => true
    case ToHalt => true
    case ToBootKernel => sys.plan.ok && sys.AllByStage1()
    case ToBootKernelWait => sys.plan.ok && sys.AllByStage1()
    case ToStage2 => sys.plan.ok && !sys.AllByStage1()
    case ToBootStage2 => sys.plan.ok && !sys.AllByStage1()
    case ToBootStage2Wait => sys.plan.ok && !sys.AllByStage1()
    case _ => sys.plan.ok
  }

  /** How many of kernel, initramfs, command line and stage-2 image lie behind a transition. */
  function Behind(t: Transition): nat {
    match t
    case ToStart => 0
    case ToKernel => 0
    case ToInitramfs => 1
    case ToCommandLine => 2
    case ToStage2 => 3
    case ToBootKernel => 3
    case ToBootKernelWait => 3
    case _ => 4
  }

  predicate Matches(sys: System, file: File)
    requires sys.OnCart(file)
  {
    Checksum.Fletcher(Contents(sys.cart, file)) == file.checksum
  }

  /** Of the first `count` files, those stage 1 loads have been checked. */
  predicate Verified(sys: System, count: nat)
    requires sys.Valid()
  {
    sys.config.checksums ==>
      && (count > 0 && sys.LoadedByStage1(Kernel) ==> Matches(sys, sys.header.kernel))
      && (count > 1 && sys.LoadedByStage1(Initramfs) && sys.header.initramfs.length > 0 ==> Matches(sys,
          sys.header.initramfs))
      && (count > 2 && sys.LoadedByStage1(CommandLine) && sys.header.commandLine.length > 0 ==> Matches(sys,
          sys.header.commandLine))
      && (count > 3 && !sys.AllByStage1() ==> Matches(sys, sys.header.stage2))
  }

  /** The file a load state is loading is told by where it goes next. */
  function TargetFile(sys: System, next: Transition): File {
    match next
    case ToInitramfs => sys.header.kernel
    case ToCommandLine => sys.header.initramfs
    case ToBootStage2 => sys.header.stage2
    case _ => sys.header.commandLine
  }

  function TargetAddress(sys: System, next: Transition): nat {
    match next
    case ToInitramfs => sys.AddressOf(Kernel)
    case ToCommandLine => sys.AddressOf(Initramfs)
    case ToBootStage2 => sys.stage2Address
    case _ => sys.AddressOf(CommandLine)
  }

  predicate LoadsBefore(sys: System, next: Transition) {
    match next
    case ToInitramfs => sys.LoadedByStage1(Kernel)
    case ToCommandLine => sys.LoadedByStage1(Initramfs)
    case ToStage2 => sys.LoadedByStage1(CommandLine)
    case ToBootKernel => sys.LoadedByStage1(CommandLine)
    case ToBootStage2 => true
    case _ => false
  }

  ghost predicate StateInvariant(sys: System, s: State)
    requires sys.Valid()
  {
    match s
    case Delay(t, _) => Decided(sys, t) && (t != ToHalt ==> Verified(sys, Behind(t)))
    case LoadFile(c, next) =>
      && sys.plan.ok && Decided(sys, next) && LoadsBefore(sys, next)
      && Behind(next) >= 1 && Verified(sys, Behind(next) - 1)
      && TargetAddress(sys, next) + TargetFile(sys, next).length <= sys.rdramSize
      && Loading(c, sys.cart, TargetFile(sys, next), TargetAddress(sys, next), sys.config.checksums)
    case BootKernel => Decided(sys, ToBootKernel) && Verified(sys, 3)
    case BootStage2 => Decided(sys, ToBootStage2) && Verified(sys, 4)
    case Halt => true
  }

  /** Memory is what replaying the log on the initial memory gives. */
  ghost predicate Faithful(sys: System, initial: seq<Byte>, m: Machine) {
    && |initial| == |m.rdram| == sys.rdramSize
    && LogInBounds(m.log, sys.rdramSize, |sys.cart|)
    && m.rdram == Replay(initial, sys.cart, m.log)
  }

  /** The transfers made and the transfers to come always add up to the same log. */
  ghost predicate Invariant(sys: System, initial: seq<Byte>, run: Run)
    requires sys.Valid()
  {
    && Runnable(sys, run)
    && match run.phase
       case Running(s) =>
         Halting(s) ||
         (StateInvariant(sys, s) && Faithful(sys, initial, run.machine)
             && run.machine.log + Future(sys, s) == Stage1Log(sys))
       case KernelStarted =>
         Decided(sys, ToBootKernel) && Verified(sys, 3) && Faithful(sys, initial, run.machine)
             && run.machine.log == Stage1Log(sys)
       case Stage2Started =>
         Decided(sys, ToBootStage2) && Verified(sys, 4) && Faithful(sys, initial, run.machine)
             && run.machine.log == Stage1Log(sys)
       case Halted => true
  }

  // ----- Transitions keep the invariant -----

  lemma BitsDecideBoot(sys: System)
    ensures AfterCommandLine(sys) == if sys.AllByStage1() then ToBootKernel else ToStage2
  {
    var status := sys.plan.placement.status;
    MaskIsFaithful(status, Kernel);
    if sys.AllByStage1() {
      forall f: FileId ensures status.Has(f) {
        match f case Kernel => case Initramfs => case CommandLine =>
      }
    }
  }

  /** What entering a transition must establish. */
  ghost predicate Entered(sys: System, t: Transition, s: State)
    requires sys.Valid()
  {
    && StateInvariant(sys, s)
    && (Halting(s) || Future(sys, s) == FutureOf(sys, t))
    && (s.LoadFile? ==> s.context.Valid(sys.rdramSize, |sys.cart|))
  }

  lemma {:induction false} EnterKeeps(sys: System, t: Transition)
    requires sys.Valid() && Decided(sys, t) && (t != ToHalt ==> Verified(sys, Behind(t)))
    ensures Entered(sys, t, Enter(sys, t))
    decreases Rank(t), 0
  {
    match t
    case ToStart =>
      if sys.plan.ok {
        EnterKeeps(sys, ToKernel);
      }
    case ToKernel => EnterLoadKeeps(sys, Kernel, t, ToInitramfs);
    case ToInitramfs => EnterLoadKeeps(sys, Initramfs, t, ToCommandLine);
    case ToCommandLine =>
      BitsDecideBoot(sys);
      EnterLoadKeeps(sys, CommandLine, t, AfterCommandLine(sys));
    case ToStage2 => LoadingStarts(sys.cart, sys.header.stage2, sys.stage2Address, sys.config.checksums);
    case _ =>
  }

  lemma {:induction false} EnterLoadKeeps(sys: System, id: FileId, t: Transition, next: Transition)
    requires sys.Valid() && sys.plan.ok && Decided(sys, t) && Decided(sys, next) && Verified(sys, Behind(t))
    requires match id
             case Kernel => t == ToKernel && next == ToInitramfs
             case Initramfs => t == ToInitramfs && next == ToCommandLine
             case CommandLine => t == ToCommandLine && next == AfterCommandLine(sys)
    ensures Entered(sys, t, EnterLoad(sys, id, next))
    decreases Rank(next), 1
  {
    BitsDecideBoot(sys);
    var file, address := FileOf(sys.header, id), sys.AddressOf(id);
    assert sys.Placed(id);
    assert FutureOf(sys, t) == Stage1Transfers(sys, id) + FutureOf(sys, next) by { FutureSplits(sys, id, t, next); }
    if address == 0 || !sys.LoadedByStage1(id) {
      EnterKeeps(sys, next);
      assert Stage1Transfers(sys, id) == [];
      assert [] + FutureOf(sys, next) == FutureOf(sys, next);
    } else {
      LoadingStarts(sys.cart, file, address, sys.config.checksums);
    }
  }

  lemma FutureSplits(sys: System, id: FileId, t: Transition, next: Transition)
    requires match id
             case Kernel => t == ToKernel && next == ToInitramfs
             case Initramfs => t == ToInitramfs && next == ToCommandLine
             case CommandLine => t == ToCommandLine && next == AfterCommandLine(sys)
    ensures FutureOf(sys, t) == Stage1Transfers(sys, id) + FutureOf(sys, next)
  {
    BitsDecideBoot(sys);
    var a, b, c, d := Stage1Transfers(sys, Kernel), Stage1Transfers(sys, Initramfs), Stage1Transfers(sys,
        CommandLine), Stage2Image(sys);
    assert a + b + c + d == a + (b + c + d);
    assert b + c + d == b + (c + d);
  }

  lemma ScheduleKeeps(sys: System, t: Transition)
    requires sys.Valid() && Decided(sys, t) && (t != ToHalt ==> Verified(sys, Behind(t)))
    ensures Entered(sys, t, Schedule(sys, t))
  {
    EnterKeeps(sys, t);
  }

  // ----- Polling keeps the invariant -----

  lemma FaithfulStep(sys: System, initial: seq<Byte>, m: Machine, m': Machine, t: Transfer)
    requires Faithful(sys, initial, m) && InBounds(t, sys.rdramSize, |sys.cart|)
    requires m'.log == m.log + [t] && m'.rdram == Copied(m.rdram, sys.cart, t)
    ensures Faithful(sys, initial, m')
  {
    assert m'.log[..|m'.log| - 1] == m.log;
  }

  /** Where a load stands when the polling loop of a tick ends. */
  ghost predicate LoadStands(sys: System, initial: seq<Byte>, c: LoadContext, m: Machine, r: PollResult, file: File,
                             address: nat)
    requires sys.OnCart(file)
  {
    && (r.status == Busy ==>
          && Loading(r.context, sys.cart, file, address, sys.config.checksums)
          && Faithful(sys, initial, r.machine)
          && r.machine.log + Blocks(r.context.cart, r.context.rdram, r.context.remaining)
             == m.log + Blocks(c.cart, c.rdram, c.remaining))
    && (r.status == Complete ==>
          && Faithful(sys, initial, r.machine)
          && r.machine.log == m.log + Blocks(c.cart, c.rdram, c.remaining)
          && (sys.config.checksums ==> Matches(sys, file)))
  }

  lemma PollStands(sys: System, initial: seq<Byte>, c: LoadContext, m: Machine, env: Environment, file: File,
                   address: nat)
    requires sys.OnCart(file) && address + file.length <= sys.rdramSize
    requires Loading(c, sys.cart, file, address, sys.config.checksums) && Faithful(sys, initial, m)
    ensures LoadStands(sys, initial, c, m, Poll(c, m, sys.cart, env, sys.config.checksums), file, address)
  {
    var checksums := sys.config.checksums;
    var r := Poll(c, m, sys.cart, env, checksums);
    PollTransfers(c, m, sys.cart, env, checksums);
    if r.status != IoError {
      PollAdvances(c, m, sys.cart, env, checksums, file, address);
      FaithfulStep(sys, initial, m, r.machine, NextTransfer(c));
      assert r.status == Busy ==>
          m.log + [NextTransfer(c)] + Blocks(r.context.cart, r.context.rdram, r.context.remaining)
          == m.log + Blocks(c.cart, c.rdram, c.remaining);
    }
  }

  lemma StandsOn(sys: System, initial: seq<Byte>, c: LoadContext, m: Machine, r: PollResult, r': PollResult,
                 file: File, address: nat)
    requires sys.OnCart(file) && r.status == Busy && LoadStands(sys, initial, c, m, r, file, address)
    requires LoadStands(sys, initial, r.context, r.machine, r', file, address)
    ensures LoadStands(sys, initial, c, m, r', file, address)
  {
    hide Loading;
    hide Faithful;
    hide Matches;
    hide Blocks;
  }

  lemma CanPoll(sys: System, initial: seq<Byte>, c: LoadContext, m: Machine, file: File, address: nat)
    requires sys.OnCart(file) && address + file.length <= sys.rdramSize
    requires Loading(c, sys.cart, file, address, sys.config.checksums) && Faithful(sys, initial, m)
    ensures c.Valid(|m.rdram|, |sys.cart|)
  {
  }

  lemma {:induction false} PollingStands(sys: System, initial: seq<Byte>, c: LoadContext, m: Machine,
                                         env: Environment, file: File, address: nat)
    requires sys.OnCart(file) && address + file.length <= sys.rdramSize
    requires Loading(c, sys.cart, file, address, sys.config.checksums) && Faithful(sys, initial, m)
    ensures var r := PollUntilPreempted(c, m, sys.cart, env, sys.config.checksums);
            LoadStands(sys, initial, c, m, r, file, address)
    decreases c.remaining
  {
    hide Poll;
    hide Faithful;
    hide Matches;
    hide Blocks;
    hide Loading;
    CanPoll(sys, initial, c, m, file, address);
    var r := Poll(c, m, sys.cart, env, sys.config.checksums);
    PollStands(sys, initial, c, m, env, file, address);
    if r.status == Busy && !env(m.asked).vblank {
      PollingStands(sys, initial, r.context, r.machine, env, file, address);
      var r' := PollUntilPreempted(r.context, r.machine, sys.cart, env, sys.config.checksums);
      StandsOn(sys, initial, c, m, r, r', file, address);
    }
  }

  lemma VerifiedNext(sys: System, next: Transition)
    requires sys.Valid() && LoadsBefore(sys, next) && Decided(sys, next) && sys.plan.ok
    requires Verified(sys, Behind(next) - 1)
    requires sys.config.checksums ==> Matches(sys, TargetFile(sys, next))
    ensures Verified(sys, Behind(next))
  {
  }

  lemma TickKeepsInvariant(sys: System, initial: seq<Byte>, run: Run, env: Environment)
    requires sys.Valid() && Invariant(sys, initial, run)
    ensures Invariant(sys, initial, Tick(sys, run, env))
  {
    if run.phase.Running? && !Halting(run.phase.state) {
      match run.phase.state
      case Delay(t, ticks) => EnterKeeps(sys, t);
      case LoadFile(c, next) => LoadTickKeepsInvariant(sys, initial, run, env, c, next);
      case BootKernel =>
      case BootStage2 =>
    }
  }

  lemma LoadTickKeepsInvariant(sys: System, initial: seq<Byte>, run: Run, env: Environment, c: LoadContext,
                               next: Transition)
    requires sys.Valid() && Invariant(sys, initial, run) && run.phase == Running(LoadFile(c, next))
    ensures Invariant(sys, initial, Tick(sys, run, env))
  {
    var file, address := TargetFile(sys, next), TargetAddress(sys, next);
    var r := PollUntilPreempted(c, run.machine, sys.cart, env, sys.config.checksums);
    PollingStands(sys, initial, c, run.machine, env, file, address);
    var ahead, blocks := FutureOf(sys, next), Blocks(c.cart, c.rdram, c.remaining);
    Regroup(run.machine.log, blocks, ahead);
    if r.status == Busy {
      Regroup(r.machine.log, Blocks(r.context.cart, r.context.rdram, r.context.remaining), ahead);
    } else if r.status == Complete {
      VerifiedNext(sys, next);
      ScheduleKeeps(sys, next);
    }
    AfterPollKeepsInvariant(sys, initial, r, next);
  }

  lemma Regroup(a: seq<Transfer>, b: seq<Transfer>, c: seq<Transfer>)
    ensures a + b + c == a + (b + c)
  {
  }

  lemma AfterPollKeepsInvariant(sys: System, initial: seq<Byte>, r: PollResult, next: Transition)
    requires sys.Valid() && |r.machine.rdram| == sys.rdramSize
    requires r.status == Busy ==>
               && StateInvariant(sys, LoadFile(r.context, next))
               && r.context.Valid(sys.rdramSize, |sys.cart|)
               && Faithful(sys, initial, r.machine)
               && r.machine.log + Future(sys, LoadFile(r.context, next)) == Stage1Log(sys)
    requires r.status == Complete ==>
               && Entered(sys, next, Schedule(sys, next))
               && Faithful(sys, initial, r.machine)
               && r.machine.log + FutureOf(sys, next) == Stage1Log(sys)
    ensures Invariant(sys, initial, Run(Running(AfterPoll(sys, r, next)), r.machine))
  {
  }

  // ----- Whole runs of stage 1 -----

  lemma StartKeepsInvariant(sys: System, initial: seq<Byte>)
    requires sys.Valid() && |initial| == sys.rdramSize
    ensures Invariant(sys, initial, Run(Running(InitialState(sys)), Machine(initial, [], 0)))
  {
    ScheduleKeeps(sys, ToStart);
    assert [] + Stage1Log(sys) == Stage1Log(sys);
  }

  /** Stage 1 after a number of ticks, from power-on. */
  function BootRun(sys: System, initial: seq<Byte>, ticks: nat, env: Environment): (r: Run)
    requires sys.Valid() && |initial| == sys.rdramSize
    ensures Invariant(sys, initial, r)
  {
    if ticks == 0 then
      StartKeepsInvariant(sys, initial);
      Run(Running(InitialState(sys)), Machine(initial, [], 0))
    else
      var before := BootRun(sys, initial, ticks - 1, env);
      TickKeepsInvariant(sys, initial, before, env);
      Tick(sys, before, env)
  }

  /** Stage 1 boots directly exactly when it loaded everything, and hands over otherwise. */
  lemma HandOverIffIncomplete(sys: System, initial: seq<Byte>, ticks: nat, env: Environment)
    requires sys.Valid() && |initial| == sys.rdramSize
    ensures var r := BootRun(sys, initial, ticks, env);
            && (r.phase == KernelStarted ==> sys.plan.ok && sys.AllByStage1() && Verified(sys, 3))
            && (r.phase == Stage2Started ==> sys.plan.ok && !sys.AllByStage1() && Verified(sys, 4))
            && (r.phase == KernelStarted || r.phase == Stage2Started ==> r.machine.log == Stage1Log(sys))
  {
  }

  // ----- Stage 2 -----

  function Stage2Loads(sys: System, id: FileId, before: Stage2Result, env: Environment): (r: Stage2Result)
    requires sys.Valid() && sys.plan.ok && |before.machine.rdram| == sys.rdramSize
    ensures |r.machine.rdram| == sys.rdramSize
  {
    var file := FileOf(sys.header, id);
    assert sys.Placed(id) && sys.OnCart(file);
    if before.halted || sys.plan.placement.status.Mask() & FlagOf(id) != 0 || file.length == 0 then before
    else Stage2Load(before.machine, sys.cart, env, sys.config.checksums, file, sys.AddressOf(id))
  }

  /** Stage 2 loads on demand what the status byte says stage 1 did not. */
  function LoadOnDemand(sys: System, m: Machine, env: Environment): (r: Stage2Result)
    requires sys.Valid() && sys.plan.ok && |m.rdram| == sys.rdramSize
    ensures |r.machine.rdram| == sys.rdramSize
  {
    Stage2Loads(sys, CommandLine, Stage2Loads(sys, Initramfs, Stage2Loads(sys, Kernel, Stage2Result(m, false), env),
        env), env)
  }

  /** Where a boot has got to: the kernel runs, or it does not (yet). */
  datatype Boot = KernelRuns(machine: Machine) | NotBooted

  function BootFor(sys: System, initial: seq<Byte>, ticks: nat, env: Environment): Boot
    requires sys.Valid() && |initial| == sys.rdramSize
  {
    var r := BootRun(sys, initial, ticks, env);
    match r.phase
    case KernelStarted => KernelRuns(r.machine)
    case Stage2Started =>
      var result := LoadOnDemand(sys, r.machine, env);
      if result.halted then NotBooted else KernelRuns(result.machine)
    case _ => NotBooted
  }

  function Stage2Transfers(sys: System, id: FileId): seq<Transfer> {
    var file := FileOf(sys.header, id);
    if sys.LoadedByStage1(id) || file.length == 0 then []
    else [Transfer(Stage2, file.addrCart, sys.AddressOf(id), file.length)]
  }

  /** Every transfer of a boot that starts the kernel, in order. */
  function FullLog(sys: System): seq<Transfer> {
    Stage1Log(sys) + Stage2Transfers(sys, Kernel) + Stage2Transfers(sys, Initramfs) + Stage2Transfers(sys, CommandLine)
  }

  // ----- What memory holds -----

  function RangeOf(sys: System, rdram: seq<Byte>, id: FileId): seq<Byte>
    requires sys.Valid() && sys.plan.ok && |rdram| == sys.rdramSize && FileOf(sys.header, id).length > 0
  {
    assert sys.Placed(id);
    rdram[sys.AddressOf(id)..sys.AddressOf(id) + FileOf(sys.header, id).length]
  }

  /** Memory holds the file, byte for byte. */
  ghost predicate InPlace(sys: System, rdram: seq<Byte>, id: FileId)
    requires sys.Valid() && sys.plan.ok && |rdram| == sys.rdramSize
  {
    FileOf(sys.header, id).length > 0 ==>
      assert sys.OnCart(FileOf(sys.header, id));
      RangeOf(sys, rdram, id) == Contents(sys.cart, FileOf(sys.header, id))
  }

  /** What memory holds at the file's address has the checksum that the header records. */
  ghost predicate Accepted(sys: System, rdram: seq<Byte>, id: FileId)
    requires sys.Valid() && sys.plan.ok && |rdram| == sys.rdramSize
  {
    FileOf(sys.header, id).length > 0 ==>
      Checksum.Fletcher(RangeOf(sys, rdram, id)) == FileOf(sys.header, id).checksum
  }

  /** No file overlaps another, nor the stage-2 image. */
  ghost predicate AllApart(sys: System) {
    && AllFilesApart(sys.plan.placement, sys.header)
    && (forall f: FileId :: FileOf(sys.header, f).length > 0 ==>
          Apart(sys.AddressOf(f), FileOf(sys.header, f).length, sys.stage2Address, sys.header.stage2.length))
  }

  lemma StoreTwice(rdram: seq<Byte>, at: nat, a: seq<Byte>, b: seq<Byte>)
    requires at + |a| + |b| <= |rdram|
    ensures Store(Store(rdram, at, a), at + |a|, b) == Store(rdram, at, a + b)
  {
    var once := Store(rdram, at, a);
    assert once[..at + |a|] == rdram[..at] + a;
    assert once[at + |a| + |b|..] == rdram[at + |a| + |b|..];
    assert rdram[..at] + a + b == rdram[..at] + (a + b);
  }

  lemma CopyInTwoParts(rdram: seq<Byte>, once: seq<Byte>, whole: seq<Byte>, cart: seq<Byte>, from: nat, at: nat,
                       n: nat, bytes: nat)
    requires n <= bytes && from + bytes <= |cart| && at + bytes <= |rdram|
    requires once == Copied(rdram, cart, Transfer(Stage1, from, at, n))
    requires whole == Store(once, at + n, cart[from + n..from + bytes])
    ensures whole == Store(rdram, at, cart[from..from + bytes])
  {
    StoreTwice(rdram, at, cart[from..from + n], cart[from + n..from + bytes]);
    assert cart[from..from + n] + cart[from + n..from + bytes] == cart[from..from + bytes];
  }

  lemma StoreElsewhere(rdram: seq<Byte>, at: nat, data: seq<Byte>, from: nat, n: nat)
    requires at + |data| <= |rdram| && from + n <= |rdram| && Apart(from, n, at, |data|)
    ensures Store(rdram, at, data)[from..from + n] == rdram[from..from + n]
  {
  }

  lemma ReplayNothing(rdram: seq<Byte>, cart: seq<Byte>)
    ensures Replay(rdram, cart, []) == rdram
  {
  }

  lemma ReplayLast(rdram: seq<Byte>, cart: seq<Byte>, log: seq<Transfer>, t: Transfer)
    requires LogInBounds(log, |rdram|, |cart|) && InBounds(t, |rdram|, |cart|)
    ensures LogInBounds(log + [t], |rdram|, |cart|)
    ensures Replay(rdram, cart, log + [t]) == Copied(Replay(rdram, cart, log), cart, t)
  {
    hide Copied;
    assert (log + [t])[..|log|] == log;
  }

  lemma LogSplits(log: seq<Transfer>, rdramSize: nat, cartSize: nat)
    requires log != [] && LogInBounds(log, rdramSize, cartSize)
    ensures LogInBounds(log[..|log| - 1], rdramSize, cartSize) && InBounds(log[|log| - 1], rdramSize, cartSize)
    ensures log == log[..|log| - 1] + [log[|log| - 1]]
  {
  }

  lemma {:induction false} ReplayAppend(rdram: seq<Byte>, cart: seq<Byte>, a: seq<Transfer>, b: seq<Transfer>)
    requires LogInBounds(a, |rdram|, |cart|) && LogInBounds(b, |rdram|, |cart|)
    ensures LogInBounds(a + b, |rdram|, |cart|)
    ensures Replay(rdram, cart, a + b) == Replay(Replay(rdram, cart, a), cart, b)
    decreases |b|
  {
    hide *;
    if b == [] {
      assert a + b == a;
      ReplayNothing(Replay(rdram, cart, a), cart);
    } else {
      var n := |b| - 1;
      LogSplits(b, |rdram|, |cart|);
      ReplayAppend(rdram, cart, a, b[..n]);
      ReplayLast(rdram, cart, a + b[..n], b[n]);
      ReplayLast(Replay(rdram, cart, a), cart, b[..n], b[n]);
      assert a + b == a + b[..n] + [b[n]];
    }
  }

  lemma FirstBlock(from: nat, at: nat, bytes: nat, log: seq<Transfer>) returns (n: nat, rest: seq<Transfer>)
    requires bytes > 0 && log == Blocks(from, at, bytes)
    ensures 0 < n <= bytes && rest == Blocks(from + n, at + n, bytes - n)
    ensures log == [Transfer(Stage1, from, at, n)] + rest
  {
    n := if bytes >= BLOCK_SIZE then BLOCK_SIZE else bytes;
    rest := Blocks(from + n, at + n, bytes - n);
  }

  /** Loading block by block is one big copy. */
  lemma {:induction false} ReplayBlocks(rdram: seq<Byte>, cart: seq<Byte>, from: nat, at: nat, bytes: nat,
                                        log: seq<Transfer>)
    requires from + bytes <= |cart| && at + bytes <= |rdram| && log == Blocks(from, at, bytes)
    ensures LogInBounds(log, |rdram|, |cart|)
    ensures Replay(rdram, cart, log) == Store(rdram, at, cart[from..from + bytes])
    decreases bytes
  {
    hide Blocks;
    hide Replay;
    if bytes > 0 {
      var n, rest := FirstBlock(from, at, bytes, log);
      var t := Transfer(Stage1, from, at, n);
      var once := Copied(rdram, cart, t);
      hide LogInBounds;
      hide Store;
      hide Copied;
      ReplayBlocks(once, cart, from + n, at + n, bytes - n, rest);
      ReplayFirst(rdram, once, cart, t, rest, log);
      assert Replay(once, cart, rest) == Store(rdram, at, cart[from..from + bytes]) by {
        CopyInTwoParts(rdram, once, Replay(once, cart, rest), cart, from, at, n, bytes);
      }
    } else {
      NoBlocks(from, at);
      ReplayNothing(rdram, cart);
      EmptyCopy(rdram, cart, from, at);
    }
  }

  lemma NoBlocks(from: nat, at: nat)
    ensures Blocks(from, at, 0) == []
  {
  }

  lemma EmptyCopy(rdram: seq<Byte>, cart: seq<Byte>, from: nat, at: nat)
    requires from <= |cart| && at <= |rdram|
    ensures Store(rdram, at, cart[from..from]) == rdram
  {
  }

  lemma ReplayOne(rdram: seq<Byte>, cart: seq<Byte>, t: Transfer)
    requires InBounds(t, |rdram|, |cart|)
    ensures LogInBounds([t], |rdram|, |cart|) && Replay(rdram, cart, [t]) == Copied(rdram, cart, t)
  {
    assert [t][..0] == [];
  }

  lemma ReplayFirst(rdram: seq<Byte>, once: seq<Byte>, cart: seq<Byte>, t: Transfer, rest: seq<Transfer>,
                    log: seq<Transfer>)
    requires InBounds(t, |rdram|, |cart|) && LogInBounds(rest, |rdram|, |cart|)
    requires once == Copied(rdram, cart, t) && log == [t] + rest
    ensures LogInBounds(log, |rdram|, |cart|)
    ensures Replay(rdram, cart, log) == Replay(once, cart, rest)
  {
    ReplayOne(rdram, cart, t);
    ReplayAppend(rdram, cart, [t], rest);
  }

  /** Writing a file puts it in place and leaves every file apart from it alone. */
  function WithFile(sys: System, rdram: seq<Byte>, file: File, address: nat): (r: seq<Byte>)
    requires sys.OnCart(file) && address + file.length <= |rdram|
    ensures |r| == |rdram|
  {
    Store(rdram, address, Contents(sys.cart, file))
  }

  function WithStage1File(sys: System, rdram: seq<Byte>, id: FileId): (r: seq<Byte>)
    requires sys.Valid() && sys.plan.ok && |rdram| == sys.rdramSize
    ensures |r| == sys.rdramSize
  {
    assert sys.Placed(id) && sys.OnCart(FileOf(sys.header, id));
    if sys.LoadedByStage1(id) then WithFile(sys, rdram, FileOf(sys.header, id), sys.AddressOf(id)) else rdram
  }

  lemma ReplayFile(sys: System, rdram: seq<Byte>, file: File, address: nat, log: seq<Transfer>)
    requires sys.OnCart(file) && address + file.length <= |rdram|
    requires log == Blocks(file.addrCart, address, file.length)
    ensures LogInBounds(log, |rdram|, |sys.cart|)
    ensures Replay(rdram, sys.cart, log) == WithFile(sys, rdram, file, address)
  {
    ReplayBlocks(rdram, sys.cart, file.addrCart, address, file.length, log);
  }

  lemma ReplayStage1File(sys: System, rdram: seq<Byte>, id: FileId)
    requires sys.Valid() && sys.plan.ok && |rdram| == sys.rdramSize
    ensures LogInBounds(Stage1Transfers(sys, id), sys.rdramSize, |sys.cart|)
    ensures Replay(rdram, sys.cart, Stage1Transfers(sys, id)) == WithStage1File(sys, rdram, id)
  {
    var file := FileOf(sys.header, id);
    assert sys.Placed(id) && sys.OnCart(file);
    if sys.LoadedByStage1(id) {
      ReplayFile(sys, rdram, file, sys.AddressOf(id), Stage1Transfers(sys, id));
    }
  }

  function WithStage2Image(sys: System, rdram: seq<Byte>): (r: seq<Byte>)
    requires sys.Valid() && |rdram| == sys.rdramSize
    ensures |r| == sys.rdramSize
  {
    if sys.AllByStage1() then rdram else WithFile(sys, rdram, sys.header.stage2, sys.stage2Address)
  }

  /** Memory when stage 1 is done. */
  function AfterStage1(sys: System, initial: seq<Byte>): (r: seq<Byte>)
    requires sys.Valid() && sys.plan.ok && |initial| == sys.rdramSize
    ensures |r| == sys.rdramSize
  {
    WithStage2Image(sys, WithStage1File(sys, WithStage1File(sys, WithStage1File(sys, initial, Kernel), Initramfs),
        CommandLine))
  }

  lemma ReplayStage1(sys: System, initial: seq<Byte>)
    requires sys.Valid() && sys.plan.ok && |initial| == sys.rdramSize
    ensures LogInBounds(Stage1Log(sys), sys.rdramSize, |sys.cart|)
    ensures Replay(initial, sys.cart, Stage1Log(sys)) == AfterStage1(sys, initial)
  {
    var a, b, c, d := Stage1Transfers(sys, Kernel), Stage1Transfers(sys, Initramfs), Stage1Transfers(sys,
        CommandLine), Stage2Image(sys);
    var m1 := WithStage1File(sys, initial, Kernel);
    var m2 := WithStage1File(sys, m1, Initramfs);
    var m3 := WithStage1File(sys, m2, CommandLine);
    ReplayStage1File(sys, initial, Kernel);
    ReplayStage1File(sys, m1, Initramfs);
    ReplayStage1File(sys, m2, CommandLine);
    ReplayStage2Image(sys, m3);
    ReplayFour(initial, sys.cart, a, b, c, d);
  }

  lemma ReplayStage2Image(sys: System, rdram: seq<Byte>)
    requires sys.Valid() && |rdram| == sys.rdramSize
    ensures LogInBounds(Stage2Image(sys), sys.rdramSize, |sys.cart|)
    ensures Replay(rdram, sys.cart, Stage2Image(sys)) == WithStage2Image(sys, rdram)
  {
    var file := sys.header.stage2;
    assert sys.OnCart(file);
    if !sys.AllByStage1() {
      ReplayFile(sys, rdram, file, sys.stage2Address, Stage2Image(sys));
    }
  }

  lemma ReplayFour(rdram: seq<Byte>, cart: seq<Byte>, a: seq<Transfer>, b: seq<Transfer>, c: seq<Transfer>,
                   d: seq<Transfer>)
    requires LogInBounds(a, |rdram|, |cart|) && LogInBounds(b, |rdram|, |cart|)
    requires LogInBounds(c, |rdram|, |cart|) && LogInBounds(d, |rdram|, |cart|)
    ensures LogInBounds(a + b + c + d, |rdram|, |cart|)
    ensures Replay(rdram, cart, a + b + c + d)
         == Replay(Replay(Replay(Replay(rdram, cart, a), cart, b), cart, c), cart, d)
  {
    hide *;
    ReplayAppend(rdram, cart, a, b);
    ReplayAppend(rdram, cart, a + b, c);
    ReplayAppend(rdram, cart, a + b + c, d);
  }

  /** Writing one file, seen from another file's range. */
  lemma WithFileSeenFrom(sys: System, rdram: seq<Byte>, file: File, address: nat, from: nat, n: nat)
    requires sys.OnCart(file) && address + file.length <= |rdram| && from + n <= |rdram|
    requires file.length > 0 ==> Apart(from, n, address, file.length)
    ensures WithFile(sys, rdram, file, address)[from..from + n] == rdram[from..from + n]
  {
    hide Store;
    if file.length > 0 {
      StoreElsewhere(rdram, address, Contents(sys.cart, file), from, n);
    } else {
      StoreNothing(rdram, address, Contents(sys.cart, file));
    }
  }

  lemma StoreNothing(rdram: seq<Byte>, at: nat, data: seq<Byte>)
    requires data == [] && at <= |rdram|
    ensures Store(rdram, at, data) == rdram
  {
  }

  predicate Untouched(sys: System, before: seq<Byte>, after: seq<Byte>, id: FileId)
    requires sys.Valid() && sys.plan.ok && |before| == |after| == sys.rdramSize
  {
    FileOf(sys.header, id).length > 0 ==> RangeOf(sys, after, id) == RangeOf(sys, before, id)
  }

  lemma Stage1FileKeeps(sys: System, rdram: seq<Byte>, written: FileId, id: FileId)
    requires sys.Valid() && sys.plan.ok && |rdram| == sys.rdramSize && AllApart(sys) && written != id
    ensures Untouched(sys, rdram, WithStage1File(sys, rdram, written), id)
  {
    var file, address := FileOf(sys.header, written), sys.AddressOf(written);
    assert sys.Placed(written) && sys.OnCart(file) && sys.Placed(id);
    assert FileOf(sys.header, id).length > 0 && file.length > 0 ==>
        Apart(sys.AddressOf(id), FileOf(sys.header, id).length, address, file.length);
    hide AllApart;
    hide Apart;
    hide WithFile;
    hide System.Valid;
    hide System.Placed;
    if FileOf(sys.header, id).length > 0 && sys.LoadedByStage1(written) {
      WithFileSeenFrom(sys, rdram, file, address, sys.AddressOf(id), FileOf(sys.header, id).length);
    }
  }

  lemma Stage1FilePuts(sys: System, rdram: seq<Byte>, id: FileId)
    requires sys.Valid() && sys.plan.ok && |rdram| == sys.rdramSize && sys.LoadedByStage1(id)
    ensures InPlace(sys, WithStage1File(sys, rdram, id), id)
  {
    assert sys.Placed(id) && sys.OnCart(FileOf(sys.header, id));
  }

  /** When stage 1 is done, every file it loaded is in place. */
  lemma Stage1PutsFilesInPlace(sys: System, initial: seq<Byte>, id: FileId)
    requires sys.Valid() && sys.plan.ok && |initial| == sys.rdramSize && AllApart(sys) && sys.LoadedByStage1(id)
    ensures InPlace(sys, AfterStage1(sys, initial), id)
  {
    var m1 := WithStage1File(sys, initial, Kernel);
    var m2 := WithStage1File(sys, m1, Initramfs);
    var m3 := WithStage1File(sys, m2, CommandLine);
    match id {
      case Kernel =>
        Stage1FilePuts(sys, initial, id);
        Stage1FileKeeps(sys, m1, Initramfs, id);
        Stage1FileKeeps(sys, m2, CommandLine, id);
      case Initramfs =>
        Stage1FilePuts(sys, m1, id);
        Stage1FileKeeps(sys, m2, CommandLine, id);
      case CommandLine =>
        Stage1FilePuts(sys, m2, id);
    }
    Stage2ImageKeeps(sys, m3, id);
  }

  lemma Stage2ImageKeeps(sys: System, rdram: seq<Byte>, id: FileId)
    requires sys.Valid() && sys.plan.ok && |rdram| == sys.rdramSize && AllApart(sys)
    ensures Untouched(sys, rdram, WithStage2Image(sys, rdram), id)
  {
    assert sys.Placed(id) && sys.OnCart(sys.header.stage2);
    if FileOf(sys.header, id).length > 0 && !sys.AllByStage1() {
      WithFileSeenFrom(sys, rdram, sys.header.stage2, sys.stage2Address, sys.AddressOf(id), FileOf(sys.header,
          id).length);
    }
  }

  // ----- What stage 2 adds -----

  /** One file on demand: what it transfers, what it leaves alone, and what it guarantees. */
  ghost predicate Stage2Step(sys: System, before: Stage2Result, after: Stage2Result, id: FileId, env: Environment)
    requires sys.Valid() && sys.plan.ok && |before.machine.rdram| == |after.machine.rdram| == sys.rdramSize
  {
    !after.halted ==>
      && !before.halted
      && before.machine.asked <= after.machine.asked <= before.machine.asked + 1
      && (forall other: FileId :: other != id || sys.LoadedByStage1(id) ==>
            Untouched(sys, before.machine.rdram, after.machine.rdram, other))
      && (!sys.LoadedByStage1(id) && sys.config.checksums ==> Accepted(sys, after.machine.rdram, id))
      && (!sys.LoadedByStage1(id) && !env(before.machine.asked).failed ==> InPlace(sys, after.machine.rdram, id))
  }

  lemma Stage2LoadsStep(sys: System, before: Stage2Result, id: FileId, env: Environment)
    requires sys.Valid() && sys.plan.ok && |before.machine.rdram| == sys.rdramSize && AllApart(sys)
    ensures Stage2Step(sys, before, Stage2Loads(sys, id, before, env), id, env)
  {
    var file, address, m := FileOf(sys.header, id), sys.AddressOf(id), before.machine;
    MaskIsFaithful(sys.plan.placement.status, id);
    assert sys.Placed(id) && sys.OnCart(file);
    if !before.halted && !sys.LoadedByStage1(id) && file.length > 0 {
      Stage2LoadEffect(m, sys.cart, env, sys.config.checksums, file, address);
      StoreIsLocal(sys, m.rdram, id, Delivered(sys.cart, file, env(m.asked)));
    }
  }

  /** Writing into one file's range shows there and nowhere else. */
  lemma StoreIsLocal(sys: System, rdram: seq<Byte>, id: FileId, data: seq<Byte>)
    requires sys.Valid() && sys.plan.ok && |rdram| == sys.rdramSize && AllApart(sys)
    requires 0 < |data| == FileOf(sys.header, id).length && sys.AddressOf(id) + |data| <= |rdram|
    ensures var after := Store(rdram, sys.AddressOf(id), data);
            && RangeOf(sys, after, id) == data
            && forall other: FileId :: other != id ==> Untouched(sys, rdram, after, other)
  {
    var after := Store(rdram, sys.AddressOf(id), data);
    StoredBytes(rdram, sys.AddressOf(id), data);
    forall other: FileId | other != id ensures Untouched(sys, rdram, after, other) {
      assert sys.Placed(other);
      if FileOf(sys.header, other).length > 0 {
        StoreElsewhere(rdram, sys.AddressOf(id), data, sys.AddressOf(other), FileOf(sys.header, other).length);
      }
    }
  }

  /** No transfer of stage 2 fails. */
  ghost predicate Stage2Clean(m: Machine, env: Environment) {
    forall k: nat :: m.asked <= k < m.asked + 3 ==> !env(k).failed
  }

  ghost predicate Good(sys: System, rdram: seq<Byte>, id: FileId, clean: bool)
    requires sys.Valid() && sys.plan.ok && |rdram| == sys.rdramSize
  {
    && (sys.LoadedByStage1(id) || clean ==> InPlace(sys, rdram, id))
    && (sys.config.checksums ==> Accepted(sys, rdram, id))
  }

  lemma UntouchedStaysGood(sys: System, before: seq<Byte>, after: seq<Byte>, id: FileId, clean: bool)
    requires sys.Valid() && sys.plan.ok && |before| == |after| == sys.rdramSize
    requires Good(sys, before, id, clean) && Untouched(sys, before, after, id)
    ensures Good(sys, after, id, clean)
  {
  }

  lemma StepMakesGood(sys: System, before: Stage2Result, after: Stage2Result, id: FileId, env: Environment, clean: bool)
    requires sys.Valid() && sys.plan.ok && |before.machine.rdram| == |after.machine.rdram| == sys.rdramSize
    requires Stage2Step(sys, before, after, id, env) && !after.halted
    requires sys.LoadedByStage1(id) ==> Good(sys, before.machine.rdram, id, clean)
    requires clean ==> !env(before.machine.asked).failed
    ensures Good(sys, after.machine.rdram, id, clean)
  {
    if sys.LoadedByStage1(id) {
      UntouchedStaysGood(sys, before.machine.rdram, after.machine.rdram, id, clean);
    }
  }

  lemma LoadOnDemandIsGood(sys: System, m: Machine, env: Environment)
    requires sys.Valid() && sys.plan.ok && |m.rdram| == sys.rdramSize && AllApart(sys)
    requires forall id: FileId :: sys.LoadedByStage1(id) ==> Good(sys, m.rdram, id, Stage2Clean(m, env))
    requires !LoadOnDemand(sys, m, env).halted
    ensures var r := LoadOnDemand(sys, m, env);
            forall id: FileId :: Good(sys, r.machine.rdram, id, Stage2Clean(m, env))
  {
    var clean := Stage2Clean(m, env);
    var r0 := Stage2Result(m, false);
    var r1 := Stage2Loads(sys, Kernel, r0, env);
    var r2 := Stage2Loads(sys, Initramfs, r1, env);
    var r3 := Stage2Loads(sys, CommandLine, r2, env);
    Stage2LoadsStep(sys, r0, Kernel, env);
    Stage2LoadsStep(sys, r1, Initramfs, env);
    Stage2LoadsStep(sys, r2, CommandLine, env);
    ThreeStepsAreGood(sys, r0, r1, r2, r3, env, clean);
  }

  lemma ThreeStepsAreGood(sys: System, r0: Stage2Result, r1: Stage2Result, r2: Stage2Result, r3: Stage2Result,
                          env: Environment, clean: bool)
    requires sys.Valid() && sys.plan.ok
    requires |r0.machine.rdram| == |r1.machine.rdram| == |r2.machine.rdram| == |r3.machine.rdram| == sys.rdramSize
    requires Stage2Step(sys, r0, r1, Kernel, env) && Stage2Step(sys, r1, r2, Initramfs, env)
             && Stage2Step(sys, r2, r3, CommandLine, env)
    requires !r3.halted
    requires clean ==> Stage2Clean(r0.machine, env)
    requires forall id: FileId :: sys.LoadedByStage1(id) ==> Good(sys, r0.machine.rdram, id, clean)
    ensures forall id: FileId :: Good(sys, r3.machine.rdram, id, clean)
  {
    var m0, m1, m2, m3 := r0.machine.rdram, r1.machine.rdram, r2.machine.rdram, r3.machine.rdram;
    forall id: FileId ensures Good(sys, m3, id, clean) {
      match id {
        case Kernel =>
          StepMakesGood(sys, r0, r1, id, env, clean);
          UntouchedStaysGood(sys, m1, m2, id, clean);
          UntouchedStaysGood(sys, m2, m3, id, clean);
        case Initramfs =>
          if sys.LoadedByStage1(id) { UntouchedStaysGood(sys, m0, m1, id, clean); }
          StepMakesGood(sys, r1, r2, id, env, clean);
          UntouchedStaysGood(sys, m2, m3, id, clean);
        case CommandLine =>
          if sys.LoadedByStage1(id) {
            UntouchedStaysGood(sys, m0, m1, id, clean);
            UntouchedStaysGood(sys, m1, m2, id, clean);
          }
          StepMakesGood(sys, r2, r3, id, env, clean);
      }
    }
  }

  /** Stage 2 transfers each file whose bit is clear once and whole, and no other, or it halts. */
  lemma Stage2LoadsLog(sys: System, before: Stage2Result, id: FileId, env: Environment)
    requires sys.Valid() && sys.plan.ok && |before.machine.rdram| == sys.rdramSize
    ensures var after := Stage2Loads(sys, id, before, env);
            !after.halted ==> !before.halted && after.machine.log == before.machine.log + Stage2Transfers(sys, id)
  {
    var file, address, m := FileOf(sys.header, id), sys.AddressOf(id), before.machine;
    MaskIsFaithful(sys.plan.placement.status, id);
    assert sys.Placed(id) && sys.OnCart(file);
    assert m.log + [] == m.log;
    if !before.halted && !sys.LoadedByStage1(id) && file.length > 0 {
      Stage2LoadEffect(m, sys.cart, env, sys.config.checksums, file, address);
    }
  }

  lemma LoadOnDemandLog(sys: System, m: Machine, env: Environment)
    requires sys.Valid() && sys.plan.ok && |m.rdram| == sys.rdramSize && !LoadOnDemand(sys, m, env).halted
    ensures LoadOnDemand(sys, m, env).machine.log
         == m.log + Stage2Transfers(sys, Kernel) + Stage2Transfers(sys, Initramfs) + Stage2Transfers(sys, CommandLine)
  {
    hide Stage2Loads;
    hide Stage2Transfers;
    var r0 := Stage2Result(m, false);
    var r1 := Stage2Loads(sys, Kernel, r0, env);
    var r2 := Stage2Loads(sys, Initramfs, r1, env);
    Stage2LoadsLog(sys, r0, Kernel, env);
    Stage2LoadsLog(sys, r1, Initramfs, env);
    Stage2LoadsLog(sys, r2, CommandLine, env);
  }

  /** On every run that starts the kernel, each file was transferred whole and exactly once. */
  lemma KernelStartsAfterFullLog(sys: System, initial: seq<Byte>, ticks: nat, env: Environment)
    requires sys.Valid() && |initial| == sys.rdramSize
    requires BootFor(sys, initial, ticks, env).KernelRuns?
    ensures sys.plan.ok && BootFor(sys, initial, ticks, env).machine.log == FullLog(sys)
  {
    hide LoadOnDemand;
    var run := BootRun(sys, initial, ticks, env);
    HandOverIffIncomplete(sys, initial, ticks, env);
    if run.phase == KernelStarted {
      assert Stage2Transfers(sys, Kernel) == [] && Stage2Transfers(sys, Initramfs) == []
          && Stage2Transfers(sys, CommandLine) == [];
      assert Stage1Log(sys) + [] + [] + [] == Stage1Log(sys);
    } else {
      LoadOnDemandLog(sys, run.machine, env);
    }
  }

  // ----- Main results -----

  /** What stage 1 verified on the cartridge is what it put into memory. */
  lemma Stage1FilesAreGood(sys: System, rdram: seq<Byte>, id: FileId, clean: bool)
    requires sys.Valid() && sys.plan.ok && |rdram| == sys.rdramSize && sys.LoadedByStage1(id)
    requires Verified(sys, 3) && InPlace(sys, rdram, id)
    ensures Good(sys, rdram, id, clean)
  {
    assert sys.OnCart(FileOf(sys.header, id));
    match id case Kernel => case Initramfs => case CommandLine =>
  }

  /**
   On every run that starts the kernel, through either stage: each file was transferred whole
   and exactly once, by stage 1 exactly when its bit is set; stage-1 files are in place, the
   others too unless a stage-2 transfer failed; and with checksums on, every file in memory
   has the checksum of its header entry.
   */
  lemma KernelStartsIntact(sys: System, initial: seq<Byte>, ticks: nat, env: Environment)
    requires sys.Valid() && |initial| == sys.rdramSize
    requires BootFor(sys, initial, ticks, env).KernelRuns?
    ensures sys.plan.ok
    ensures var m := BootFor(sys, initial, ticks, env).machine;
            && |m.rdram| == sys.rdramSize && m.log == FullLog(sys)
            && (AllApart(sys) ==>
                  forall id: FileId :: Good(sys, m.rdram, id, Stage2Clean(BootRun(sys, initial, ticks, env).machine,
                      env)))
  {
    var run := BootRun(sys, initial, ticks, env);
    var clean := Stage2Clean(run.machine, env);
    KernelStartsAfterFullLog(sys, initial, ticks, env);
    if AllApart(sys) {
      ReplayStage1(sys, initial);
      forall id: FileId | sys.LoadedByStage1(id) ensures Good(sys, run.machine.rdram, id, clean) {
        Stage1PutsFilesInPlace(sys, initial, id);
        Stage1FilesAreGood(sys, run.machine.rdram, id, clean);
      }
      if run.phase == KernelStarted {
        forall id: FileId ensures Good(sys, run.machine.rdram, id, clean) {
          match id case Kernel => case Initramfs => case CommandLine =>
        }
      } else {
        LoadOnDemandIsGood(sys, run.machine, env);
      }
    }
  }

  // ----- Progress -----

  /** Counting down from zero wraps, so a zero delay is the longest one. */
  function DelayCost(ticks: nat): nat {
    if ticks == 0 then U32 else ticks
  }

  function ScheduleCost(sys: System): nat {
    if sys.config.delayCompiled && sys.config.delayEnabled then DelayCost(sys.config.delayTicks) else 0
  }

  /** Ticks that loading takes when every frame ends after one block. */
  function BlockCount(bytes: nat): nat {
    CeilDivide(bytes, BLOCK_SIZE)
  }

  /** The most ticks from a transition to the end of stage 1. */
  function CostOf(sys: System, t: Transition): nat {
    var pause := ScheduleCost(sys);
    var stage2 := BlockCount(sys.header.stage2.length) + pause + 2;
    var commandLine := BlockCount(sys.header.commandLine.length) + pause + 2 + stage2;
    var initramfs := BlockCount(sys.header.initramfs.length) + pause + commandLine;
    var kernel := BlockCount(sys.header.kernel.length) + pause + initramfs;
    match t
    case ToStart => kernel
    case ToKernel => kernel
    case ToInitramfs => initramfs
    case ToCommandLine => commandLine
    case ToStage2 => stage2
    case ToBootKernel => 2
    case ToBootStage2 => 2
    case _ => 1
  }

  function Cost(sys: System, s: State): nat {
    match s
    case Delay(t, ticks) => DelayCost(ticks) + CostOf(sys, t)
    case LoadFile(c, next) => BlockCount(c.remaining) + ScheduleCost(sys) + CostOf(sys, next)
    case _ => 1
  }

  lemma {:induction false} EnterCost(sys: System, t: Transition)
    ensures Cost(sys, Enter(sys, t)) <= CostOf(sys, t)
    decreases Rank(t), 0
  {
    match t
    case ToStart => EnterCost(sys, ToKernel);
    case ToKernel => EnterLoadCost(sys, Kernel, ToInitramfs);
    case ToInitramfs => EnterLoadCost(sys, Initramfs, ToCommandLine);
    case ToCommandLine => EnterLoadCost(sys, CommandLine, AfterCommandLine(sys));
    case _ =>
  }

  lemma {:induction false} EnterLoadCost(sys: System, id: FileId, next: Transition)
    ensures Cost(sys, EnterLoad(sys, id, next)) <=
            BlockCount(FileOf(sys.header, id).length) + ScheduleCost(sys) + CostOf(sys, next)
    decreases Rank(next), 1
  {
    EnterCost(sys, next);
  }

  lemma FewerBlocks(before: nat, after: nat)
    requires after + BLOCK_SIZE <= before
    ensures BlockCount(after) < BlockCount(before)
  {
  }

  /** Every tick brings the machine strictly closer to leaving stage 1. */
  lemma TickMakesProgress(sys: System, initial: seq<Byte>, run: Run, env: Environment)
    requires sys.Valid() && Invariant(sys, initial, run) && run.phase.Running?
    ensures var r := Tick(sys, run, env);
            r.phase.Running? ==> Cost(sys, r.phase.state) < Cost(sys, run.phase.state)
  {
    match run.phase.state
    case Delay(t, ticks) =>
      EnterCost(sys, t);
      assert ticks > 0 ==> (ticks - 1) % U32 <= ticks - 1;
    case LoadFile(c, next) => LoadTickMakesProgress(sys, c, run.machine, next, env);
    case _ =>
  }

  lemma LoadTickMakesProgress(sys: System, c: LoadContext, m: Machine, next: Transition, env: Environment)
    requires |m.rdram| == sys.rdramSize && c.Valid(sys.rdramSize, |sys.cart|) && LoadsBefore(sys, next)
    ensures var r := PollUntilPreempted(c, m, sys.cart, env, sys.config.checksums);
            Cost(sys, AfterPoll(sys, r, next)) < Cost(sys, LoadFile(c, next))
  {
    var r := PollUntilPreempted(c, m, sys.cart, env, sys.config.checksums);
    BusyMovesABlock(c, m, sys.cart, env, sys.config.checksums);
    if r.status == Busy {
      FewerBlocks(c.remaining, r.context.remaining);
    }
    EnterCost(sys, next);
  }

  lemma {:induction false} TicksPayCost(sys: System, initial: seq<Byte>, ticks: nat, env: Environment)
    requires sys.Valid() && |initial| == sys.rdramSize
    ensures var r := BootRun(sys, initial, ticks, env);
            r.phase.Running? ==> Cost(sys, r.phase.state) + ticks <= Cost(sys, InitialState(sys))
  {
    if ticks > 0 {
      TicksPayCost(sys, initial, ticks - 1, env);
      var before := BootRun(sys, initial, ticks - 1, env);
      if before.phase.Running? {
        TickMakesProgress(sys, initial, before, env);
      }
    }
  }

  function TickBound(sys: System): nat {
    ScheduleCost(sys) + CostOf(sys, ToStart)
  }

  /**
   Whatever the environment does, stage 1 ends (in the kernel, in stage 2 or halted) within
   five pauses, one tick for each block of each file, and four ticks more.
   */
  lemma Stage1Terminates(sys: System, initial: seq<Byte>, env: Environment)
    requires sys.Valid() && |initial| == sys.rdramSize
    ensures !BootRun(sys, initial, TickBound(sys), env).phase.Running?
    ensures TickBound(sys) == 5 * ScheduleCost(sys) + 4
              + BlockCount(sys.header.kernel.length) + BlockCount(sys.header.initramfs.length)
              + BlockCount(sys.header.commandLine.length) + BlockCount(sys.header.stage2.length)
  {
    TicksPayCost(sys, initial, TickBound(sys), env);
    EnterCost(sys, ToStart);
  }

  // ----- How long pauses last -----

  lemma NextRun(sys: System, initial: seq<Byte>, k: nat, env: Environment)
    requires sys.Valid() && |initial| == sys.rdramSize
    ensures BootRun(sys, initial, k + 1, env) == Tick(sys, BootRun(sys, initial, k, env), env)
  {
  }

  /**
   On every run: a delay of `n` ticks, and one of 2^32 if `n` is zero, leaves memory and log alone for as
   many ticks, to the tick, and only then runs the transition it was for.
   */
  lemma {:induction false} DelayLasts(sys: System, initial: seq<Byte>, k: nat, env: Environment, t: Transition, n: nat)
    requires sys.Valid() && |initial| == sys.rdramSize && n < U32
    requires BootRun(sys, initial, k, env).phase == Running(Delay(t, n))
    ensures var lasts, m := if n == 0 then U32 else n, BootRun(sys, initial, k, env).machine;
            && (forall i: nat :: k <= i < k + lasts ==> IsDelayed(BootRun(sys, initial, i, env), t, m))
            && BootRun(sys, initial, k + lasts, env) == Run(Running(Enter(sys, t)), m)
    decreases if n == 0 then U32 else n
  {
    hide BootRun;
    hide Enter;
    var run := BootRun(sys, initial, k, env);
    var lasts, m := if n == 0 then U32 else n, run.machine;
    NextRun(sys, initial, k, env);
    var next := BootRun(sys, initial, k + 1, env);
    if lasts > 1 {
      DelayCounts(sys, run, env, t, n);
      DelayLasts(sys, initial, k + 1, env, t, lasts - 1);
      assert k + lasts == k + 1 + (lasts - 1);
    } else {
      DelayEnds(sys, run, env, t);
    }
  }

  /** The machine waits to run a transition, and nothing has happened to `m`. */
  predicate IsDelayed(run: Run, t: Transition, m: Machine) {
    run.machine == m && run.phase.Running? && run.phase.state.Delay? && run.phase.state.transition == t
  }

  lemma DelayCounts(sys: System, run: Run, env: Environment, t: Transition, n: nat)
    requires Runnable(sys, run) && run.phase == Running(Delay(t, n)) && n < U32 && n != 1
    ensures Tick(sys, run, env) == Run(Running(Delay(t, if n == 0 then U32 - 1 else n - 1)), run.machine)
  {
    hide Enter;
  }

  lemma DelayEnds(sys: System, run: Run, env: Environment, t: Transition)
    requires Runnable(sys, run) && run.phase == Running(Delay(t, 1))
    ensures Tick(sys, run, env) == Run(Running(Enter(sys, t)), run.machine)
  {
    hide Enter;
  }

  /** From tick `k` on the machine pauses, if pauses are compiled in and enabled, and then runs the transition. */
  ghost predicate Pauses(sys: System, initial: seq<Byte>, k: nat, env: Environment, t: Transition, m: Machine)
    requires sys.Valid() && |initial| == sys.rdramSize
  {
    var n := sys.config.delayTicks;
    var lasts := if !sys.config.delayCompiled || !sys.config.delayEnabled then 0 else if n == 0 then U32 else n;
    && (forall i: nat :: k <= i < k + lasts ==> IsDelayed(BootRun(sys, initial, i, env), t, m))
    && BootRun(sys, initial, k + lasts, env) == Run(Running(Enter(sys, t)), m)
  }

  lemma ScheduledPauses(sys: System, initial: seq<Byte>, k: nat, env: Environment, t: Transition)
    requires sys.Valid() && |initial| == sys.rdramSize
    requires BootRun(sys, initial, k, env).phase == Running(Schedule(sys, t))
    ensures Pauses(sys, initial, k, env, t, BootRun(sys, initial, k, env).machine)
  {
    hide BootRun;
    hide Enter;
    if sys.config.delayCompiled && sys.config.delayEnabled {
      DelayLasts(sys, initial, k, env, t, sys.config.delayTicks);
    }
  }

  /** The machine pauses before it plans and loads anything. */
  lemma StartPauses(sys: System, initial: seq<Byte>, env: Environment)
    requires sys.Valid() && |initial| == sys.rdramSize
    ensures Pauses(sys, initial, 0, env, ToStart, Machine(initial, [], 0))
  {
    ScheduledPauses(sys, initial, 0, env, ToStart);
  }

  /** Whenever a load is completed, the machine pauses before it goes on. */
  lemma CompletedLoadPauses(sys: System, initial: seq<Byte>, k: nat, env: Environment, c: LoadContext, next: Transition)
    requires sys.Valid() && |initial| == sys.rdramSize
    requires BootRun(sys, initial, k, env).phase == Running(LoadFile(c, next))
    requires PollUntilPreempted(c, BootRun(sys, initial, k, env).machine, sys.cart, env,
                                sys.config.checksums).status == Complete
    ensures Pauses(sys, initial, k + 1, env, next, BootRun(sys, initial, k + 1, env).machine)
  {
    hide BootRun;
    hide Enter;
    hide PollUntilPreempted;
    NextRun(sys, initial, k, env);
    ScheduledPauses(sys, initial, k + 1, env, next);
  }

  /** One tick is left for the screen, if delays are compiled in, before the machine does what it was going to. */
  ghost predicate ShowsFirst(sys: System, initial: seq<Byte>, k: nat, env: Environment, last: State, end: Phase)
    requires sys.Valid() && |initial| == sys.rdramSize
  {
    var m, shown := BootRun(sys, initial, k, env).machine, if sys.config.delayCompiled then 1 else 0;
    && (sys.config.delayCompiled ==> BootRun(sys, initial, k, env).phase.Running?
                                     && BootRun(sys, initial, k, env).phase.state.Delay?)
    && BootRun(sys, initial, k + shown, env) == Run(Running(last), m)
    && BootRun(sys, initial, k + shown + 1, env) == Run(end, m)
  }

  lemma OneTickShows(sys: System, initial: seq<Byte>, k: nat, env: Environment, t: Transition, last: State, end: Phase)
    requires sys.Valid() && |initial| == sys.rdramSize && Enter(sys, t) == last
    requires match last
             case BootKernel => end == KernelStarted
             case BootStage2 => end == Stage2Started
             case Halt => end == Halted
             case _ => false
    requires BootRun(sys, initial, k, env).phase == Running(if sys.config.delayCompiled then Delay(t, 1) else last)
    ensures ShowsFirst(sys, initial, k, env, last, end)
  {
    hide BootRun;
    hide Enter;
    hide Tick;
    var shown := if sys.config.delayCompiled then 1 else 0;
    if sys.config.delayCompiled {
      DelayLasts(sys, initial, k, env, t, 1);
    }
    NextRun(sys, initial, k + shown, env);
    LastTick(sys, BootRun(sys, initial, k + shown, env), env);
  }

  lemma LastTick(sys: System, run: Run, env: Environment)
    requires Runnable(sys, run)
    ensures run.phase == Running(BootKernel) ==> Tick(sys, run, env) == Run(KernelStarted, run.machine)
    ensures run.phase == Running(BootStage2) ==> Tick(sys, run, env) == Run(Stage2Started, run.machine)
    ensures run.phase == Running(Halt) ==> Tick(sys, run, env) == Run(Halted, run.machine)
  {
  }

  /** The kernel is started one tick after that is announced, or at once. */
  lemma KernelShowsFirst(sys: System, initial: seq<Byte>, k: nat, env: Environment)
    requires sys.Valid() && |initial| == sys.rdramSize
    requires BootRun(sys, initial, k, env).phase == Running(Enter(sys, ToBootKernel))
    ensures ShowsFirst(sys, initial, k, env, BootKernel, KernelStarted)
  {
    hide BootRun;
    OneTickShows(sys, initial, k, env, ToBootKernelWait, BootKernel, KernelStarted);
  }

  lemma Stage2ShowsFirst(sys: System, initial: seq<Byte>, k: nat, env: Environment)
    requires sys.Valid() && |initial| == sys.rdramSize
    requires BootRun(sys, initial, k, env).phase == Running(Enter(sys, ToBootStage2))
    ensures ShowsFirst(sys, initial, k, env, BootStage2, Stage2Started)
  {
    hide BootRun;
    OneTickShows(sys, initial, k, env, ToBootStage2Wait, BootStage2, Stage2Started);
  }

  /** A tick of a load that ends with a failed transfer or a wrong checksum. */
  predicate LoadErrs(sys: System, run: Run, env: Environment)
    requires Runnable(sys, run)
  {
    run.phase.Running? && run.phase.state.LoadFile?
    && PollUntilPreempted(run.phase.state.context, run.machine, sys.cart, env,
                          sys.config.checksums).status in {IoError, BadChecksum}
  }

  lemma ErrorTick(sys: System, run: Run, env: Environment)
    requires Runnable(sys, run) && LoadErrs(sys, run, env)
    ensures Tick(sys, run, env).phase == Running(HaltState(sys))
  {
    hide PollUntilPreempted;
  }

  lemma HaltingTransitions(sys: System)
    ensures Enter(sys, ToHalt) == Halt && HaltState(sys) == if sys.config.delayCompiled then Delay(ToHalt, 1) else Halt
    ensures !sys.plan.ok ==> Enter(sys, ToStart) == HaltState(sys)
  {
  }

  /** A plan without room, a failed transfer and a wrong checksum are shown for one tick, or not at all. */
  lemma ErrorShowsFirst(sys: System, initial: seq<Byte>, k: nat, env: Environment)
    requires sys.Valid() && |initial| == sys.rdramSize
    requires || (BootRun(sys, initial, k, env).phase == Running(Enter(sys, ToStart)) && !sys.plan.ok)
             || (k > 0 && LoadErrs(sys, BootRun(sys, initial, k - 1, env), env))
    ensures ShowsFirst(sys, initial, k, env, Halt, Halted)
  {
    hide BootRun;
    hide Enter;
    hide Tick;
    hide LoadErrs;
    hide ShowsFirst;
    hide HaltState;
    HaltingTransitions(sys);
    if k > 0 {
      NextRun(sys, initial, k - 1, env);
      if LoadErrs(sys, BootRun(sys, initial, k - 1, env), env) {
        ErrorTick(sys, BootRun(sys, initial, k - 1, env), env);
      }
    }
    OneTickShows(sys, initial, k, env, ToHalt, Halt, Halted);
  }

  // ----- Boots without transfer errors -----

  ghost predicate Clean(env: Environment) {
    forall k: nat :: !env(k).failed
  }

  /** Whatever a boot loads has the checksum that the header records. */
  predicate LoadsMatch(sys: System)
    requires sys.Valid()
  {
    && Matches(sys, sys.header.kernel)
    && (sys.header.initramfs.length > 0 ==> Matches(sys, sys.header.initramfs))
    && (sys.header.commandLine.length > 0 ==> Matches(sys, sys.header.commandLine))
    && (!sys.AllByStage1() ==> Matches(sys, sys.header.stage2))
  }

  lemma {:induction false} EnterGoesOn(sys: System, t: Transition)
    requires sys.plan.ok && t != ToHalt
    ensures !Halting(Enter(sys, t))
    decreases Rank(t), 0
  {
    match t
    case ToStart => EnterGoesOn(sys, ToKernel);
    case ToKernel => EnterLoadGoesOn(sys, Kernel, ToInitramfs);
    case ToInitramfs => EnterLoadGoesOn(sys, Initramfs, ToCommandLine);
    case ToCommandLine => EnterLoadGoesOn(sys, CommandLine, AfterCommandLine(sys));
    case _ =>
  }

  lemma {:induction false} EnterLoadGoesOn(sys: System, id: FileId, next: Transition)
    requires sys.plan.ok && next != ToHalt
    ensures !Halting(EnterLoad(sys, id, next))
    decreases Rank(next), 1
  {
    EnterGoesOn(sys, next);
  }

  /** Without transfer errors a load of a file that matches ends well. */
  lemma {:induction false} PollingGoesOn(sys: System, c: LoadContext, m: Machine, env: Environment, file: File,
                                         address: nat)
    requires sys.OnCart(file) && address + file.length <= |m.rdram|
    requires Loading(c, sys.cart, file, address, sys.config.checksums)
    requires Clean(env) && (sys.config.checksums ==> Matches(sys, file))
    ensures var r := PollUntilPreempted(c, m, sys.cart, env, sys.config.checksums);
            r.status == Busy || r.status == Complete
    decreases c.remaining
  {
    var checksums := sys.config.checksums;
    var r := Poll(c, m, sys.cart, env, checksums);
    PollTransfers(c, m, sys.cart, env, checksums);
    PollAdvances(c, m, sys.cart, env, checksums, file, address);
    if r.status == Busy && !env(m.asked).vblank {
      PollingGoesOn(sys, r.context, r.machine, env, file, address);
    }
  }

  ghost predicate OnTheWay(run: Run) {
    run.phase == KernelStarted || run.phase == Stage2Started || (run.phase.Running? && !Halting(run.phase.state))
  }

  lemma LoadTickGoesOn(sys: System, m: Machine, env: Environment, c: LoadContext, next: Transition)
    requires sys.Valid() && sys.plan.ok && |m.rdram| == sys.rdramSize && StateInvariant(sys, LoadFile(c, next))
    requires c.Valid(sys.rdramSize, |sys.cart|)
    requires Clean(env) && (sys.config.checksums ==> LoadsMatch(sys))
    ensures !Halting(AfterPoll(sys, PollUntilPreempted(c, m, sys.cart, env, sys.config.checksums), next))
  {
    PollingGoesOn(sys, c, m, env, TargetFile(sys, next), TargetAddress(sys, next));
    EnterGoesOn(sys, next);
  }

  lemma TickGoesOn(sys: System, initial: seq<Byte>, run: Run, env: Environment)
    requires sys.Valid() && sys.plan.ok && Invariant(sys, initial, run) && OnTheWay(run)
    requires Clean(env) && (sys.config.checksums ==> LoadsMatch(sys))
    ensures OnTheWay(Tick(sys, run, env))
  {
    if run.phase.Running? {
      match run.phase.state
      case Delay(t, ticks) => EnterGoesOn(sys, t);
      case LoadFile(c, next) => LoadTickGoesOn(sys, run.machine, env, c, next);
      case BootKernel =>
      case BootStage2 =>
    }
  }

  lemma {:induction false} BootGoesOn(sys: System, initial: seq<Byte>, ticks: nat, env: Environment)
    requires sys.Valid() && sys.plan.ok && |initial| == sys.rdramSize
    requires Clean(env) && (sys.config.checksums ==> LoadsMatch(sys))
    ensures OnTheWay(BootRun(sys, initial, ticks, env))
  {
    if ticks == 0 {
      EnterGoesOn(sys, ToStart);
    } else {
      BootGoesOn(sys, initial, ticks - 1, env);
      TickGoesOn(sys, initial, BootRun(sys, initial, ticks - 1, env), env);
    }
  }

  /** A file that stage 2 loads without a transfer error stops it exactly when its checksum is wrong. */
  lemma Stage2GoesOnIff(sys: System, before: Stage2Result, id: FileId, env: Environment)
    requires sys.Valid() && sys.plan.ok && |before.machine.rdram| == sys.rdramSize && Clean(env)
    ensures sys.OnCart(FileOf(sys.header, id))
    ensures !Stage2Loads(sys, id, before, env).halted <==>
            && !before.halted
            && (sys.config.checksums && !sys.LoadedByStage1(id) && FileOf(sys.header, id).length > 0 ==>
                  Matches(sys, FileOf(sys.header, id)))
  {
    var file, address, m := FileOf(sys.header, id), sys.AddressOf(id), before.machine;
    MaskIsFaithful(sys.plan.placement.status, id);
    assert sys.Placed(id) && sys.OnCart(file);
    if !before.halted && !sys.LoadedByStage1(id) && file.length > 0 {
      Stage2LoadEffect(m, sys.cart, env, sys.config.checksums, file, address);
    }
  }

  lemma LoadOnDemandGoesOnIff(sys: System, m: Machine, env: Environment)
    requires sys.Valid() && sys.plan.ok && |m.rdram| == sys.rdramSize && Clean(env)
    requires sys.config.checksums && !sys.AllByStage1() ==> Verified(sys, 4)
    ensures !sys.AllByStage1() ==>
              (!LoadOnDemand(sys, m, env).halted <==> sys.config.checksums ==> LoadsMatch(sys))
  {
    hide Stage2Loads;
    hide Matches;
    var r0 := Stage2Result(m, false);
    var r1 := Stage2Loads(sys, Kernel, r0, env);
    var r2 := Stage2Loads(sys, Initramfs, r1, env);
    Stage2GoesOnIff(sys, r0, Kernel, env);
    Stage2GoesOnIff(sys, r1, Initramfs, env);
    Stage2GoesOnIff(sys, r2, CommandLine, env);
  }

  /**
   Without transfer errors, wherever frames end: the kernel is running when the bound is reached exactly
   when the plan has room for every file and, with checksums on, each file loaded has its checksum.
   */
  lemma CleanBootRunsIff(sys: System, initial: seq<Byte>, env: Environment)
    requires sys.Valid() && |initial| == sys.rdramSize && Clean(env)
    ensures BootFor(sys, initial, TickBound(sys), env).KernelRuns? <==>
            sys.plan.ok && (sys.config.checksums ==> LoadsMatch(sys))
  {
    hide LoadOnDemand;
    hide TickBound;
    var run := BootRun(sys, initial, TickBound(sys), env);
    HandOverIffIncomplete(sys, initial, TickBound(sys), env);
    Stage1Terminates(sys, initial, env);
    if run.phase == Stage2Started {
      LoadOnDemandGoesOnIff(sys, run.machine, env);
    } else if sys.plan.ok && (sys.config.checksums ==> LoadsMatch(sys)) {
      BootGoesOn(sys, initial, TickBound(sys), env);
    }
  }

  // ----- From the plan to the kernel -----

  /** A system whose plan is the one the allocator makes. */
  function PlannedSystem(config: Config, layout: Layout, header: Header, stage2Address: nat, cart: seq<Byte>,
                         rdramSize: nat): System
    requires layout.Valid() && ValidHeader(header)
  {
    System(config, header, PlaceBootFiles(layout, header), stage2Address, cart, rdramSize)
  }

  /** What the memory map and the ROM builder promise. */
  predicate Sound(config: Config, layout: Layout, header: Header, stage2Address: nat, cart: seq<Byte>, rdramSize: nat) {
    && layout.Valid() && ValidHeader(header) && config.delayTicks < U32
    && layout.end <= rdramSize
    && stage2Address + header.stage2.length <= layout.stage2Start && 0 < header.stage2.length
    && header.kernel.addrCart + header.kernel.length <= |cart|
    && header.initramfs.addrCart + header.initramfs.length <= |cart|
    && header.commandLine.addrCart + header.commandLine.length <= |cart|
    && header.stage2.addrCart + header.stage2.length <= |cart|
  }

  lemma PlannedSystemIsValid(config: Config, layout: Layout, header: Header, stage2Address: nat, cart: seq<Byte>,
                             rdramSize: nat)
    requires Sound(config, layout, header, stage2Address, cart, rdramSize)
    ensures PlannedSystem(config, layout, header, stage2Address, cart, rdramSize).Valid()
  {
    var sys := PlannedSystem(config, layout, header, stage2Address, cart, rdramSize);
    if sys.plan.ok {
      PlanIsSafe(layout, header);
      forall id: FileId ensures sys.Placed(id) {
        assert IsPlaced(sys.plan.placement, layout, header, id);
      }
    }
  }

  lemma UnmixedIsApart(config: Config, layout: Layout, header: Header, stage2Address: nat, cart: seq<Byte>,
                       rdramSize: nat)
    requires Sound(config, layout, header, stage2Address, cart, rdramSize)
    requires var sys := PlannedSystem(config, layout, header, stage2Address, cart, rdramSize);
             sys.plan.ok && Unmixed(sys.plan.placement, header)
    ensures AllApart(PlannedSystem(config, layout, header, stage2Address, cart, rdramSize))
  {
    var sys := PlannedSystem(config, layout, header, stage2Address, cart, rdramSize);
    UnmixedPlanIsDisjoint(layout, header);
    PlanIsSafe(layout, header);
    forall f: FileId | FileOf(sys.header, f).length > 0
      ensures Apart(sys.AddressOf(f), FileOf(sys.header, f).length, sys.stage2Address, sys.header.stage2.length)
    {
      assert IsPlaced(sys.plan.placement, layout, header, f);
    }
  }

  /**
   End to end: whenever no file of the plan is mixed with one of the other heap, each boot that starts
   the kernel has the files in memory, up to undetected failures of stage-2 transfers, and
   no boot stays in stage 1 for longer than the bound.
   */
  lemma UnmixedBootIsIntact(config: Config, layout: Layout, header: Header, stage2Address: nat, cart: seq<Byte>,
                            initial: seq<Byte>, ticks: nat, env: Environment)
    requires Sound(config, layout, header, stage2Address, cart, |initial|)
    requires var sys := PlannedSystem(config, layout, header, stage2Address, cart, |initial|);
             Unmixed(sys.plan.placement, header)
    ensures var sys := PlannedSystem(config, layout, header, stage2Address, cart, |initial|);
            && sys.Valid()
            && !BootRun(sys, initial, TickBound(sys), env).phase.Running?
            && (BootFor(sys, initial, ticks, env).KernelRuns? ==>
                  && sys.plan.ok && sys.AddressOf(Kernel) == header.addrLoad
                  && BootFor(sys, initial, ticks, env).machine.log == FullLog(sys)
                  && |BootFor(sys, initial, ticks, env).machine.rdram| == |initial|
                  && forall id: FileId :: Good(sys, BootFor(sys, initial, ticks, env).machine.rdram, id,
                                               Stage2Clean(BootRun(sys, initial, ticks, env).machine, env)))
  {
    var sys := PlannedSystem(config, layout, header, stage2Address, cart, |initial|);
    PlannedSystemIsValid(config, layout, header, stage2Address, cart, |initial|);
    Stage1Terminates(sys, initial, env);
    if BootFor(sys, initial, ticks, env).KernelRuns? {
      KernelStartsIntact(sys, initial, ticks, env);
      UnmixedIsApart(config, layout, header, stage2Address, cart, |initial|);
      PlanIsSafe(layout, header);
    }
  }

  // ----- What overlapping files cost -----

  function WithChecksum(file: File, cart: seq<Byte>): File {
    if file.addrCart + file.length <= |cart| then file.(checksum := Checksum.Fletcher(Contents(cart, file))) else file
  }

  /** The header with the checksums that its files have on a cartridge. */
  function Rechecked(header: Header, cart: seq<Byte>): Header {
    Header(WithChecksum(header.kernel, cart), header.addrLoad, WithChecksum(header.initramfs, cart),
           WithChecksum(header.commandLine, cart), WithChecksum(header.stage2, cart))
  }

  predicate SamePlace(a: File, b: File) {
    a.addrCart == b.addrCart && a.length == b.length
  }

  lemma RecheckedKeepsPlaces(header: Header, cart: seq<Byte>)
    ensures forall id: FileId :: SamePlace(FileOf(header, id), FileOf(Rechecked(header, cart), id))
    ensures SamePlace(header.stage2, Rechecked(header, cart).stage2)
    ensures Rechecked(header, cart).addrLoad == header.addrLoad
    ensures Rechecked(Rechecked(header, cart), cart) == Rechecked(header, cart)
  {
    hide Checksum.Fletcher;
  }

  lemma StaysValid(sys: System, other: System)
    requires sys.Valid() && other.config == sys.config && other.plan == sys.plan && |other.cart| == |sys.cart|
    requires other.stage2Address == sys.stage2Address && other.rdramSize == sys.rdramSize
    requires forall id: FileId :: SamePlace(FileOf(sys.header, id), FileOf(other.header, id))
    requires SamePlace(sys.header.stage2, other.header.stage2)
    ensures other.Valid()
  {
    assert SamePlace(FileOf(sys.header, Kernel), FileOf(other.header, Kernel));
    assert SamePlace(FileOf(sys.header, Initramfs), FileOf(other.header, Initramfs));
    assert SamePlace(FileOf(sys.header, CommandLine), FileOf(other.header, CommandLine));
  }

  /** The same boot from another cartridge, with checksums to match. */
  function Refilled(sys: System, cart: seq<Byte>): (r: System)
    requires sys.Valid() && |cart| == |sys.cart|
    ensures r.Valid() && r.plan == sys.plan && r.rdramSize == sys.rdramSize
  {
    RecheckedKeepsPlaces(sys.header, cart);
    var r := sys.(cart := cart, header := Rechecked(sys.header, cart));
    StaysValid(sys, r);
    r
  }

  lemma RefilledMatches(sys: System, cart: seq<Byte>)
    requires sys.Valid() && |cart| == |sys.cart|
    ensures LoadsMatch(Refilled(sys, cart))
  {
    hide Checksum.Fletcher;
  }

  /** The boot files do not share bytes of the cartridge. */
  predicate CartApart(header: Header) {
    forall f: FileId, g: FileId ::
      f != g && FileOf(header, f).length > 0 && FileOf(header, g).length > 0 ==>
        Apart(FileOf(header, f).addrCart, FileOf(header, f).length, FileOf(header, g).addrCart,
              FileOf(header, g).length)
  }

  ghost predicate Stage2ImageApart(sys: System) {
    forall f: FileId :: FileOf(sys.header, f).length > 0 ==>
      Apart(sys.AddressOf(f), FileOf(sys.header, f).length, sys.stage2Address, sys.header.stage2.length)
  }

  /** When stage 1 must have ended, the kernel runs and finds every file in memory. */
  ghost predicate Delivers(sys: System, initial: seq<Byte>, env: Environment)
    requires sys.Valid() && sys.plan.ok && |initial| == sys.rdramSize
  {
    var boot := BootFor(sys, initial, TickBound(sys), env);
    boot.KernelRuns? && |boot.machine.rdram| == sys.rdramSize
    && forall id: FileId :: InPlace(sys, boot.machine.rdram, id)
  }

  lemma ApartIsDelivered(sys: System, initial: seq<Byte>, env: Environment)
    requires sys.Valid() && sys.plan.ok && |initial| == sys.rdramSize && Clean(env)
    requires AllFilesApart(sys.plan.placement, sys.header) && Stage2ImageApart(sys)
    requires sys.config.checksums ==> LoadsMatch(sys)
    ensures Delivers(sys, initial, env)
  {
    hide BootFor;
    hide BootRun;
    hide TickBound;
    hide InPlace;
    CleanBootRunsIff(sys, initial, env);
    KernelStartsIntact(sys, initial, TickBound(sys), env);
    var m := BootFor(sys, initial, TickBound(sys), env).machine;
    forall id: FileId ensures InPlace(sys, m.rdram, id) {
      assert Good(sys, m.rdram, id, Stage2Clean(BootRun(sys, initial, TickBound(sys), env).machine, env));
    }
  }

  /** A cartridge that is zero but for one byte of one file. */
  function OneByte(size: nat, at: nat): seq<Byte>
    requires at < size
  {
    Zeros(size)[at := 1]
  }

  /** A file in place, byte by byte. */
  lemma ByteInPlace(sys: System, rdram: seq<Byte>, f: FileId, at: nat)
    requires sys.Valid() && sys.plan.ok && |rdram| == sys.rdramSize && InPlace(sys, rdram, f)
    requires Within(sys, f, at)
    ensures CartOf(sys, f, at) < |sys.cart| && at < |rdram| && rdram[at] == sys.cart[CartOf(sys, f, at)]
  {
    var file, k := FileOf(sys.header, f), at - sys.AddressOf(f);
    assert sys.OnCart(file) && sys.Placed(f);
    assert RangeOf(sys, rdram, f)[k] == Contents(sys.cart, file)[k];
  }

  /** Where a byte of memory in a file's range comes from. */
  function CartOf(sys: System, f: FileId, at: nat): nat
    requires sys.AddressOf(f) <= at
  {
    FileOf(sys.header, f).addrCart + (at - sys.AddressOf(f))
  }

  predicate Within(sys: System, f: FileId, at: nat) {
    sys.AddressOf(f) <= at < sys.AddressOf(f) + FileOf(sys.header, f).length
  }

  /** Two overlapping files that are apart on the cartridge want different bytes of it in one place. */
  lemma OverlapWantsTwoBytes(sys: System) returns (f: FileId, g: FileId, at: nat)
    requires sys.Valid() && CartApart(sys.header) && !AllFilesApart(sys.plan.placement, sys.header)
    ensures Within(sys, f, at) && Within(sys, g, at)
    ensures CartOf(sys, f, at) < |sys.cart| && CartOf(sys, g, at) < |sys.cart|
    ensures CartOf(sys, f, at) != CartOf(sys, g, at)
  {
    f, g :|
      f != g && FileOf(sys.header, f).length > 0 && FileOf(sys.header, g).length > 0
      && !Apart(sys.AddressOf(f), FileOf(sys.header, f).length, sys.AddressOf(g), FileOf(sys.header, g).length);
    assert sys.OnCart(FileOf(sys.header, f)) && sys.OnCart(FileOf(sys.header, g));
    at := if sys.AddressOf(f) <= sys.AddressOf(g) then sys.AddressOf(g) else sys.AddressOf(f);
  }

  /** Files that overlap in memory are not all delivered from every cartridge. */
  lemma OverlapIsNotDelivered(sys: System, initial: seq<Byte>, env: Environment) returns (cart: seq<Byte>)
    requires sys.Valid() && sys.plan.ok && |initial| == sys.rdramSize && CartApart(sys.header)
    requires !AllFilesApart(sys.plan.placement, sys.header)
    ensures |cart| == |sys.cart| && !Delivers(Refilled(sys, cart), initial, env)
  {
    var f, g, at := OverlapWantsTwoBytes(sys);
    hide *;
    cart := OneByte(|sys.cart|, CartOf(sys, f, at));
    OneByteHolds(|sys.cart|, CartOf(sys, f, at), CartOf(sys, g, at));
    if Delivers(Refilled(sys, cart), initial, env) {
      DeliversBoth(sys, cart, initial, env, f, g, at);
      assert false;
    }
  }

  lemma OneByteHolds(size: nat, at: nat, other: nat)
    requires at < size && other < size && other != at
    ensures |OneByte(size, at)| == size && OneByte(size, at)[at] == 1 && OneByte(size, at)[other] == 0
  {
  }

  lemma DeliversBoth(sys: System, cart: seq<Byte>, initial: seq<Byte>, env: Environment, f: FileId, g: FileId, at: nat)
    requires sys.Valid() && sys.plan.ok && |initial| == sys.rdramSize && |cart| == |sys.cart|
    requires Delivers(Refilled(sys, cart), initial, env) && Within(sys, f, at) && Within(sys, g, at)
    ensures CartOf(sys, f, at) < |cart| && CartOf(sys, g, at) < |cart|
    ensures cart[CartOf(sys, f, at)] == cart[CartOf(sys, g, at)]
  {
    hide BootFor;
    hide TickBound;
    hide InPlace;
    hide Refilled;
    var sys' := Refilled(sys, cart);
    SameAddresses(sys, cart);
    assert SamePlace(FileOf(sys.header, f), FileOf(sys'.header, f));
    assert SamePlace(FileOf(sys.header, g), FileOf(sys'.header, g));
    var rdram := BootFor(sys', initial, TickBound(sys'), env).machine.rdram;
    ByteInPlace(sys', rdram, f, at);
    ByteInPlace(sys', rdram, g, at);
  }

  lemma SameAddresses(sys: System, cart: seq<Byte>)
    requires sys.Valid() && |cart| == |sys.cart|
    ensures Refilled(sys, cart).cart == cart
    ensures forall f: FileId :: Refilled(sys, cart).AddressOf(f) == sys.AddressOf(f)
    ensures forall f: FileId :: SamePlace(FileOf(sys.header, f), FileOf(Refilled(sys, cart).header, f))
    ensures Refilled(sys, cart).stage2Address == sys.stage2Address
    ensures Refilled(sys, cart).header.stage2.length == sys.header.stage2.length
  {
    RecheckedKeepsPlaces(sys.header, cart);
  }

  /**
   Without transfer errors, wherever frames end: whatever bytes the files have, the kernel starts and
   finds all of them, exactly when no two of them overlap. Otherwise some cartridge is booted to a
   kernel that misses a file, or to none, although all its checksums are right.
   */
  lemma FilesSurviveIff(sys: System, initial: seq<Byte>, env: Environment)
    requires sys.Valid() && sys.plan.ok && |initial| == sys.rdramSize && Clean(env)
    requires CartApart(sys.header) && Stage2ImageApart(sys)
    ensures AllFilesApart(sys.plan.placement, sys.header) <==>
            forall cart: seq<Byte> :: |cart| == |sys.cart| ==> Delivers(Refilled(sys, cart), initial, env)
  {
    hide Delivers;
    if AllFilesApart(sys.plan.placement, sys.header) {
      forall cart: seq<Byte> | |cart| == |sys.cart| ensures Delivers(Refilled(sys, cart), initial, env) {
        StillApart(sys, cart);
        RefilledMatches(sys, cart);
        ApartIsDelivered(Refilled(sys, cart), initial, env);
      }
    } else {
      var cart := OverlapIsNotDelivered(sys, initial, env);
    }
  }

  lemma StillApart(sys: System, cart: seq<Byte>)
    requires sys.Valid() && |cart| == |sys.cart|
    requires AllFilesApart(sys.plan.placement, sys.header) && Stage2ImageApart(sys)
    ensures AllFilesApart(Refilled(sys, cart).plan.placement, Refilled(sys, cart).header)
    ensures Stage2ImageApart(Refilled(sys, cart))
  {
    hide Refilled;
    SameAddresses(sys, cart);
    assert forall f: FileId :: SamePlace(FileOf(sys.header, f), FileOf(Refilled(sys, cart).header, f));
  }

  lemma SoundStage2ImageApart(config: Config, layout: Layout, header: Header, stage2Address: nat, cart: seq<Byte>,
                              rdramSize: nat)
    requires Sound(config, layout, header, stage2Address, cart, rdramSize) && PlaceBootFiles(layout, header).ok
    ensures Stage2ImageApart(PlannedSystem(config, layout, header, stage2Address, cart, rdramSize))
  {
    hide PlaceBootFiles;
    var sys := PlannedSystem(config, layout, header, stage2Address, cart, rdramSize);
    PlanIsSafe(layout, header);
    forall f: FileId | FileOf(sys.header, f).length > 0
      ensures Apart(sys.AddressOf(f), FileOf(sys.header, f).length, sys.stage2Address, sys.header.stage2.length)
    {
      assert IsPlaced(sys.plan.placement, layout, header, f);
    }
  }

  /** For one header, in terms of its load address and lengths: when every cartridge with these files boots well. */
  lemma HeaderDeliversIff(config: Config, layout: Layout, header: Header, stage2Address: nat, cart: seq<Byte>,
                          initial: seq<Byte>, env: Environment)
    requires Sound(config, layout, header, stage2Address, cart, |initial|) && PlaceBootFiles(layout, header).ok
    requires CartApart(header) && Clean(env)
    ensures var sys := PlannedSystem(config, layout, header, stage2Address, cart, |initial|);
            && sys.Valid()
            && (KernelStaysApart(layout, header) && OptionalsStayApart(layout, header) <==>
                forall cart': seq<Byte> :: |cart'| == |cart| ==> Delivers(Refilled(sys, cart'), initial, env))
  {
    hide PlaceBootFiles;
    hide Delivers;
    hide Refilled;
    hide KernelStaysApart;
    hide OptionalsStayApart;
    PlannedSystemIsValid(config, layout, header, stage2Address, cart, |initial|);
    SoundStage2ImageApart(config, layout, header, stage2Address, cart, |initial|);
    FilesSurviveIff(PlannedSystem(config, layout, header, stage2Address, cart, |initial|), initial, env);
    PlanIsApartIff(layout, header);
  }

  /** A header and a cartridge that belong together: files of their own, and checksums that match. */
  predicate Coherent(header: Header, cart: seq<Byte>) {
    CartApart(header) && Rechecked(header, cart) == header
  }

  /** A boot for this memory map that has a plan delivers. */
  ghost predicate PlannedDelivers(config: Config, layout: Layout, header: Header, stage2Address: nat, cart: seq<Byte>,
                                  initial: seq<Byte>, env: Environment)
    requires Sound(config, layout, header, stage2Address, cart, |initial|) && PlaceBootFiles(layout, header).ok
  {
    PlannedSystemIsValid(config, layout, header, stage2Address, cart, |initial|);
    Delivers(PlannedSystem(config, layout, header, stage2Address, cart, |initial|), initial, env)
  }

  /**
   For every memory map: every header with a plan, on every cartridge with the right checksums, boots to a
   kernel that finds all its files, exactly when the heaps begin together or stage 1 has no room for any file
   but the kernel.
   */
  lemma MapDeliversIff(config: Config, layout: Layout, stage2Address: nat, initial: seq<Byte>, env: Environment)
    requires layout.Valid() && config.delayTicks < U32 && layout.end <= |initial|
    requires stage2Address < layout.stage2Start && Clean(env)
    ensures (forall header: Header, cart: seq<Byte> ::
               && Sound(config, layout, header, stage2Address, cart, |initial|) && Coherent(header, cart)
               && PlaceBootFiles(layout, header).ok
               ==> PlannedDelivers(config, layout, header, stage2Address, cart, initial, env))
       <==> layout.stage1Start == layout.stage2Start || layout.end <= FirstDoubleWord(layout)
  {
    hide PlaceBootFiles;
    hide Delivers;
    PlanIsDisjointIff(layout);
    if layout.stage1Start == layout.stage2Start || layout.end <= FirstDoubleWord(layout) {
      forall header: Header, cart: seq<Byte> |
        && Sound(config, layout, header, stage2Address, cart, |initial|) && Coherent(header, cart)
        && PlaceBootFiles(layout, header).ok
        ensures PlannedDelivers(config, layout, header, stage2Address, cart, initial, env)
      {
        DisjointPlanDelivers(config, layout, header, stage2Address, cart, initial, env);
      }
    } else {
      var header, cart := MapFails(config, layout, stage2Address, initial, env);
    }
  }

  lemma DisjointPlanDelivers(config: Config, layout: Layout, header: Header, stage2Address: nat, cart: seq<Byte>,
                             initial: seq<Byte>, env: Environment)
    requires Sound(config, layout, header, stage2Address, cart, |initial|) && Coherent(header, cart)
    requires PlaceBootFiles(layout, header).ok && Clean(env)
    requires AllFilesApart(PlaceBootFiles(layout, header).placement, header)
    ensures PlannedDelivers(config, layout, header, stage2Address, cart, initial, env)
  {
    hide PlaceBootFiles;
    hide Delivers;
    PlannedSystemIsValid(config, layout, header, stage2Address, cart, |initial|);
    SoundStage2ImageApart(config, layout, header, stage2Address, cart, |initial|);
    var sys := PlannedSystem(config, layout, header, stage2Address, cart, |initial|);
    assert Refilled(sys, cart) == sys;
    RefilledMatches(sys, cart);
    ApartIsDelivered(sys, initial, env);
  }

  /** On any other map a kernel at the start of the stage-2 heap, one byte too long, with a tiny command line fails. */
  lemma MapFails(config: Config, layout: Layout, stage2Address: nat, initial: seq<Byte>, env: Environment)
    returns (header: Header, cart: seq<Byte>)
    requires layout.Valid() && config.delayTicks < U32 && layout.end <= |initial|
    requires stage2Address < layout.stage2Start
    requires layout.stage2Start < layout.stage1Start && FirstDoubleWord(layout) < layout.end
    ensures Sound(config, layout, header, stage2Address, cart, |initial|) && Coherent(header, cart)
    ensures PlaceBootFiles(layout, header).ok
    ensures !PlannedDelivers(config, layout, header, stage2Address, cart, initial, env)
  {
    hide PlaceBootFiles;
    hide Delivers;
    hide Checksum.Fletcher;
    var addrLoad, length := layout.stage2Start, FirstDoubleWord(layout) + 1 - layout.stage2Start;
    AlignForwardIsLeast(layout.stage1Start, ALIGNMENT_COMMAND_LINE);
    TinyCommandLineOverlaps(layout, addrLoad, length);
    var tiny := TinyCommandLine(addrLoad, length);
    TinyIsOverlapping(layout, addrLoad, length);
    TinyIsCartApart(addrLoad, length);
    var blank := Zeros(length + 2);
    PlannedSystemIsValid(config, layout, tiny, stage2Address, blank, |initial|);
    var sys := PlannedSystem(config, layout, tiny, stage2Address, blank, |initial|);
    cart := OverlapIsNotDelivered(sys, initial, env);
    header := Rechecked(tiny, cart);
    RecheckedKeepsPlaces(tiny, cart);
    PlanIgnoresFiles(layout, tiny, header);
    StaysCartApart(tiny, header);
    assert PlannedSystem(config, layout, header, stage2Address, cart, |initial|) == Refilled(sys, cart);
  }

  lemma StaysCartApart(header: Header, other: Header)
    requires CartApart(header) && forall id: FileId :: SamePlace(FileOf(header, id), FileOf(other, id))
    ensures CartApart(other)
  {
    forall f: FileId, g: FileId | f != g && FileOf(other, f).length > 0 && FileOf(other, g).length > 0
      ensures Apart(FileOf(other, f).addrCart, FileOf(other, f).length, FileOf(other, g).addrCart,
                    FileOf(other, g).length)
    {
      assert SamePlace(FileOf(header, f), FileOf(other, f)) && SamePlace(FileOf(header, g), FileOf(other, g));
    }
  }

  lemma TinyIsCartApart(addrLoad: nat, length: nat)
    ensures CartApart(TinyCommandLine(addrLoad, length))
  {
  }

  // ----- What a mixed plan does -----

  /** Stage 2 loads a file that is not empty and whose bit is clear. */
  lemma Stage2LoadsClearBit(sys: System, id: FileId, before: Stage2Result, env: Environment)
    requires sys.Valid() && sys.plan.ok && |before.machine.rdram| == sys.rdramSize && !before.halted
    requires !sys.LoadedByStage1(id) && FileOf(sys.header, id).length > 0
    ensures sys.OnCart(FileOf(sys.header, id)) && sys.Placed(id)
    ensures Stage2Loads(sys, id, before, env)
         == Stage2Load(before.machine, sys.cart, env, sys.config.checksums, FileOf(sys.header, id), sys.AddressOf(id))
  {
    MaskIsFaithful(sys.plan.placement.status, id);
    assert sys.Placed(id) && sys.OnCart(FileOf(sys.header, id));
  }

  /** A file that stage 2 loads over an earlier file replaces it. */
  lemma Stage2Replaces(sys: System, before: Stage2Result, id: FileId, covered: FileId, env: Environment)
    requires sys.Valid() && sys.plan.ok && |before.machine.rdram| == sys.rdramSize && !before.halted
    requires !sys.LoadedByStage1(id) && 0 < FileOf(sys.header, covered).length && !env(before.machine.asked).failed
    requires sys.AddressOf(id) <= sys.AddressOf(covered)
    requires sys.AddressOf(covered) + FileOf(sys.header, covered).length <= sys.AddressOf(id) + FileOf(sys.header,
             id).length
    ensures sys.OnCart(FileOf(sys.header, id))
    ensures var r := Stage2Loads(sys, id, before, env);
            var offset := sys.AddressOf(covered) - sys.AddressOf(id);
            RangeOf(sys, r.machine.rdram, covered)
            == Contents(sys.cart, FileOf(sys.header, id))[offset..offset + FileOf(sys.header, covered).length]
  {
    var file, address, m := FileOf(sys.header, id), sys.AddressOf(id), before.machine;
    Stage2LoadsClearBit(sys, id, before, env);
    assert sys.Placed(covered);
    var after := Stage2Load(m, sys.cart, env, sys.config.checksums, file, address).machine.rdram;
    assert after == Store(m.rdram, address, Contents(sys.cart, file)) by {
      Stage2LoadEffect(m, sys.cart, env, sys.config.checksums, file, address);
    }
    CoveredByStore(sys, m.rdram, after, id, covered);
  }

  lemma CoveredByStore(sys: System, rdram: seq<Byte>, after: seq<Byte>, id: FileId, covered: FileId)
    requires sys.Valid() && sys.plan.ok && |rdram| == |after| == sys.rdramSize
    requires 0 < FileOf(sys.header, covered).length && sys.AddressOf(id) <= sys.AddressOf(covered)
    requires sys.AddressOf(covered) + FileOf(sys.header, covered).length <= sys.AddressOf(id) + FileOf(sys.header,
             id).length
    requires sys.OnCart(FileOf(sys.header, id)) && sys.Placed(id)
    requires after == Store(rdram, sys.AddressOf(id), Contents(sys.cart, FileOf(sys.header, id)))
    ensures var offset := sys.AddressOf(covered) - sys.AddressOf(id);
            RangeOf(sys, after, covered)
            == Contents(sys.cart, FileOf(sys.header, id))[offset..offset + FileOf(sys.header, covered).length]
  {
    var address := sys.AddressOf(id);
    StoredPart(rdram, after, address, Contents(sys.cart, FileOf(sys.header, id)),
               sys.AddressOf(covered) - address, FileOf(sys.header, covered).length);
  }

  lemma StoredPart(memory: seq<Byte>, after: seq<Byte>, at: nat, data: seq<Byte>, offset: nat, n: nat)
    requires at + |data| <= |memory| && offset + n <= |data| && after == Store(memory, at, data)
    ensures after[at + offset..at + offset + n] == data[offset..offset + n]
  {
  }

  /** The command line lies inside the initramfs, but stage 1 loads it and stage 2 the initramfs. */
  predicate LosesCommandLine(sys: System) {
    && sys.plan.ok
    && sys.LoadedByStage1(Kernel) && !sys.LoadedByStage1(Initramfs) && sys.LoadedByStage1(CommandLine)
    && 0 < sys.header.commandLine.length && sys.AddressOf(Initramfs) <= sys.AddressOf(CommandLine)
    && sys.AddressOf(CommandLine) + sys.header.commandLine.length
       <= sys.AddressOf(Initramfs) + sys.header.initramfs.length
  }

  /** What is in memory in place of the command line: a part of the initramfs. */
  ghost predicate CommandLineIsLost(sys: System, rdram: seq<Byte>)
    requires sys.Valid() && LosesCommandLine(sys) && |rdram| == sys.rdramSize
  {
    var offset := sys.AddressOf(CommandLine) - sys.AddressOf(Initramfs);
    RangeOf(sys, rdram, CommandLine)
    == Contents(sys.cart, sys.header.initramfs)[offset..offset + sys.header.commandLine.length]
  }

  lemma Stage2LosesCommandLine(sys: System, m: Machine, env: Environment)
    requires sys.Valid() && LosesCommandLine(sys) && |m.rdram| == sys.rdramSize && !env(m.asked).failed
    ensures CommandLineIsLost(sys, LoadOnDemand(sys, m, env).machine.rdram)
  {
    MaskIsFaithful(sys.plan.placement.status, Kernel);
    MaskIsFaithful(sys.plan.placement.status, CommandLine);
    var start := Stage2Result(m, false);
    assert Stage2Loads(sys, Kernel, start, env) == start;
    Stage2Replaces(sys, start, Initramfs, CommandLine, env);
  }

  /**
   Stage 2 loads the initramfs over the command line that stage 1 has put in place and checked. Nothing
   notices: without any transfer error, and with every checksum right, the kernel starts, and finds
   initramfs bytes for a command line.
   */
  lemma MixedBootLosesCommandLine(sys: System, initial: seq<Byte>, env: Environment)
    requires sys.Valid() && LosesCommandLine(sys) && |initial| == sys.rdramSize
    requires Clean(env) && (sys.config.checksums ==> LoadsMatch(sys))
    ensures var boot := BootFor(sys, initial, TickBound(sys), env);
            boot.KernelRuns? && |boot.machine.rdram| == sys.rdramSize && CommandLineIsLost(sys, boot.machine.rdram)
  {
    hide LoadOnDemand;
    hide TickBound;
    hide CommandLineIsLost;
    var run := BootRun(sys, initial, TickBound(sys), env);
    CleanBootRunsIff(sys, initial, env);
    HandOverIffIncomplete(sys, initial, TickBound(sys), env);
    Stage2LosesCommandLine(sys, run.machine, env);
  }

  /** It does happen: every boot of the header of `MixedPlanOverlaps` goes this way. */
  lemma MixedHeaderLosesCommandLine(config: Config, stage2Address: nat, cart: seq<Byte>, initial: seq<Byte>,
                                    env: Environment)
    requires config.delayTicks < U32 && !config.checksums && stage2Address + 8 <= MIXED_LAYOUT.stage2Start
    requires 0x381010 <= |cart| && MIXED_LAYOUT.end <= |initial| && Clean(env)
    ensures Sound(config, MIXED_LAYOUT, MIXED_HEADER, stage2Address, cart, |initial|)
    ensures var sys := PlannedSystem(config, MIXED_LAYOUT, MIXED_HEADER, stage2Address, cart, |initial|);
            && sys.Valid()
            && var boot := BootFor(sys, initial, TickBound(sys), env);
            && boot.KernelRuns? && |boot.machine.rdram| == |initial|
            && sys.AddressOf(CommandLine) == 0x80100000
            && Contents(cart, MIXED_HEADER.commandLine) == cart[0x381000..0x381008]
            && boot.machine.rdram[0x80100000..0x80100008] == cart[0x2fd000..0x2fd008]
  {
    hide PlaceBootFiles;
    MixedPlanOverlaps();
    PlannedSystemIsValid(config, MIXED_LAYOUT, MIXED_HEADER, stage2Address, cart, |initial|);
    var sys := PlannedSystem(config, MIXED_LAYOUT, MIXED_HEADER, stage2Address, cart, |initial|);
    MixedBootLosesCommandLine(sys, initial, env);
    hide BootFor;
    hide TickBound;
    SliceOfSlice(cart, 0x201000, 0x381000, 0xfc000, 0xfc008);
  }

  lemma SliceOfSlice(data: seq<Byte>, from: nat, to: nat, a: nat, b: nat)
    requires from <= to <= |data| && a <= b <= to - from
    ensures data[from..to][a..b] == data[from + a..from + b]
  {
    assert forall k :: 0 <= k < b - a ==> data[from..to][a..b][k] == data[from + a..from + b][k];
  }
}
