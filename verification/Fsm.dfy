/** The stage-1 machine as an object (boot/src/tux64-boot/stage1/fsm.c). */
module Fsm {
  import opened Arithmetic
  import opened Bytes
  import opened BootPlan
  import opened FileLoad
  import opened LoadProtocol

  class Stage1Fsm {
    const config: Config
    const header: Header
    const stage2Address: nat
    const cart: seq<Byte>
    const planner: Planner
    ghost const layout: Layout
    ghost const rdramSize: nat
    /** What the planner will answer: the plan for this header and memory map. */
    ghost const plan: Outcome
    var phase: Phase
    var rdram: seq<Byte>
    var log: seq<Transfer>
    var asked: nat
    /** Whether the boot files have been allocated yet. */
    ghost var planned: bool

    ghost function Sys(): System {
      System(config, header, plan, stage2Address, cart, rdramSize)
    }

    function TheMachine(): Machine
      reads this
    {
      Machine(rdram, log, asked)
    }

    function TheRun(): Run
      reads this
    {
      Run(phase, TheMachine())
    }

    /** The fixed parts fit together. */
    ghost predicate Fixed() {
      Sound(config, layout, header, stage2Address, cart, rdramSize) && plan == PlaceBootFiles(layout, header)
    }

    ghost predicate BeforePlanning()
      reads this, planner, planner.memory, planner.memory.stage1, planner.memory.stage2
    {
      && !planned && planner.Valid(layout) && |rdram| == rdramSize
      && planner.Snapshot(layout) == NOTHING_PLACED && planner.HasRoomFor(3)
    }

    /** The planner has run, and its placement is the plan. */
    ghost predicate AfterPlanning()
      reads this, planner, planner.memory, planner.memory.stage1, planner.memory.stage2
    {
      && planned && planner.Valid(layout) && |rdram| == rdramSize
      && planner.Snapshot(layout) == plan.placement
    }

    predicate AtStart()
      reads this
    {
      phase.Running? && match phase.state
                        case Delay(t, _) => t == ToStart
                        case LoadFile(_, next) => next == ToStart
                        case _ => false
    }

    ghost predicate Valid()
      reads this, planner, planner.memory, planner.memory.stage1, planner.memory.stage2
    {
      && Fixed() && Runnable(Sys(), TheRun())
      && (if AtStart() then BeforePlanning() && phase.state.Delay? else AfterPlanning())
    }

    constructor (config: Config, header: Header, stage2Address: nat, cart: seq<Byte>, planner: Planner,
                 rdram: seq<Byte>, ghost layout: Layout)
      requires Sound(config, layout, header, stage2Address, cart, |rdram|)
      requires planner.Valid(layout) && planner.Snapshot(layout) == NOTHING_PLACED && planner.HasRoomFor(3)
      modifies planner, planner.memory`free, planner.memory.stage1, planner.memory.stage2
      ensures Valid()
      ensures this.config == config && this.header == header && this.layout == layout && this.rdramSize == |rdram|
      ensures this.stage2Address == stage2Address && this.cart == cart && this.planner == planner
      ensures Sys() == PlannedSystem(config, layout, header, stage2Address, cart, |rdram|)
      ensures TheRun() == Run(Running(InitialState(Sys())), Machine(rdram, [], 0))
    {
      this.config, this.header, this.stage2Address, this.cart := config, header, stage2Address, cart;
      this.planner, this.layout, this.rdramSize := planner, layout, |rdram|;
      plan := PlaceBootFiles(layout, header);
      this.rdram, log, asked := rdram, [], 0;
      phase := Running(Delay(ToStart, config.delayTicks));
      planned := false;
      new;
      PlannedSystemIsValid(config, layout, header, stage2Address, cart, |rdram|);
      EnterKeeps(Sys(), ToStart);
      if !(config.delayCompiled && config.delayEnabled) {
        TransitionStart();
      }
    }

    method SetHalt()
      modifies this`phase
      ensures phase == Running(HaltState(Sys())) && !AtStart()
    {
      if config.delayCompiled {
        phase := Running(Delay(ToHalt, 1));
      } else {
        phase := Running(Halt);
      }
    }

    method StartLoad(file: File, address: nat, next: Transition)
      modifies this`phase
      ensures phase == Running(LoadFile(LoadInitialize(file, address), next))
    {
      phase := Running(LoadFile(LoadContext(file.addrCart, address, file.length, file.checksum, Checksum.INITIAL),
          next));
    }

    method StartLoadOptional(id: FileId, next: Transition)
      requires AfterPlanning() && next != ToStart
      modifies this`phase
      ensures phase == Running(EnterLoad(Sys(), id, next)) && !AtStart()
      decreases Rank(next), 1
    {
      var address := match id
                     case Kernel => planner.kernel
                     case Initramfs => planner.initramfs
                     case CommandLine => planner.commandLine;
      if address == 0 || !planner.status.Has(id) {
        RunTransition(next);
      } else {
        StartLoad(FileOf(header, id), address, next);
      }
    }

    /** The transition functions behind the start of the machine. */
    method RunTransition(t: Transition)
      requires AfterPlanning() && t != ToStart
      modifies this`phase
      ensures phase == Running(Enter(Sys(), t)) && !AtStart()
      decreases Rank(t), 0
    {
      match t {
        case ToKernel => StartLoadOptional(Kernel, ToInitramfs);
        case ToInitramfs => StartLoadOptional(Initramfs, ToCommandLine);
        case ToCommandLine =>
          var next := if planner.status.Mask() == STATUS_CONCURRENT_WITH_STAGE1 then ToBootKernel else ToStage2;
          StartLoadOptional(CommandLine, next);
        case ToStage2 => StartLoad(header.stage2, stage2Address, ToBootStage2);
        case ToBootKernel =>
          if config.delayCompiled {
            phase := Running(Delay(ToBootKernelWait, 1));
          } else {
            RunTransition(ToBootKernelWait);
          }
        case ToBootKernelWait => phase := Running(BootKernel);
        case ToBootStage2 =>
          if config.delayCompiled {
            phase := Running(Delay(ToBootStage2Wait, 1));
          } else {
            RunTransition(ToBootStage2Wait);
          }
        case ToBootStage2Wait => phase := Running(BootStage2);
        case ToHalt => phase := Running(Halt);
      }
    }

    /** Allocates the boot files, then goes on to the kernel without another pause. */
    method TransitionStart()
      requires Fixed() && BeforePlanning()
      modifies this`phase, this`planned, planner, planner.memory`free, planner.memory.stage1, planner.memory.stage2
      ensures AfterPlanning()
      ensures phase == Running(Enter(Sys(), ToStart)) && !AtStart()
    {
      var ok := planner.AllocateBootFiles(layout, header);
      planned := true;
      if !ok {
        SetHalt();
        return;
      }
      RunTransition(ToKernel);
    }

    method ScheduleTransition(t: Transition)
      requires AfterPlanning() && t != ToStart
      modifies this`phase
      ensures phase == Running(Schedule(Sys(), t)) && !AtStart()
    {
      if config.delayCompiled && config.delayEnabled {
        phase := Running(Delay(t, config.delayTicks));
      } else {
        RunTransition(t);
      }
    }

    method StateDelay(ghost env: Environment)
      requires Valid() && phase.Running? && phase.state.Delay?
      modifies this`phase, this`planned, planner, planner.memory`free, planner.memory.stage1, planner.memory.stage2
      ensures if AtStart() then BeforePlanning() && phase.state.Delay? else AfterPlanning()
      ensures TheRun() == Tick(Sys(), old(TheRun()), env)
    {
      var transition, ticks := phase.state.transition, (phase.state.ticks - 1) % U32;
      if ticks != 0 {
        phase := Running(Delay(transition, ticks));
      } else if transition == ToStart {
        TransitionStart();
      } else {
        RunTransition(transition);
      }
    }

    /** Transfers one block and digests what arrived. */
    method LoadBlock(context: LoadContext, bytes: nat, env: Environment) returns (context': LoadContext,
                     status: PollStatus)
      requires context.Valid(|rdram|, |cart|) && bytes == BlockOf(context)
      modifies this`rdram, this`log, this`asked
      ensures TheMachine() == Dma(old(TheMachine()), cart, NextTransfer(context), env(old(asked)))
      ensures status == if env(old(asked)).failed then IoError else Complete
      ensures context' == LoadContext(context.cart + bytes, context.rdram + bytes, context.remaining - bytes,
              context.expected,
                                      if status == Complete && config.checksums
                                      then Checksum.Digest(context.checksum,
                                          rdram[context.rdram..context.rdram + bytes])
                                      else context.checksum)
    {
      var answer := env(asked);
      var m := Dma(TheMachine(), cart, NextTransfer(context), answer);
      rdram, log, asked := m.rdram, m.log, m.asked;
      context' := context.(cart := context.cart + bytes, rdram := context.rdram + bytes,
          remaining := context.remaining - bytes);
      if answer.failed {
        return context', IoError;
      }
      if config.checksums {
        context' := context'.(checksum := Checksum.Digest(context'.checksum,
            rdram[context.rdram..context.rdram + bytes]));
      }
      status := Complete;
    }

    method LoadFinalize(context: LoadContext) returns (status: PollStatus)
      requires context.checksum.Valid()
      ensures status == if config.checksums && Checksum.Finalize(context.checksum) != context.expected
              then BadChecksum else Complete
    {
      if !config.checksums {
        return Complete;
      }
      status := if Checksum.Finalize(context.checksum) != context.expected then BadChecksum else Complete;
    }

    /** One block of the current file. */
    method LoadPoll(context: LoadContext, env: Environment) returns (context': LoadContext, status: PollStatus)
      requires context.Valid(|rdram|, |cart|)
      modifies this`rdram, this`log, this`asked
      ensures PollResult(context', TheMachine(), status) == Poll(context, old(TheMachine()), cart, env,
              config.checksums)
    {
      ghost var result := Poll(context, TheMachine(), cart, env, config.checksums);
      var bytes := if context.remaining >= BLOCK_SIZE then BLOCK_SIZE else context.remaining;
      context', status := LoadBlock(context, bytes, env);
      if status != Complete {
        return;
      }
      if context'.remaining != 0 {
        status := Busy;
        return;
      }
      status := LoadFinalize(context');
    }

    /** Polls until the load is over or the frame is. */
    method PollLoop(context: LoadContext, env: Environment) returns (context': LoadContext, status: PollStatus)
      requires context.Valid(|rdram|, |cart|)
      modifies this`rdram, this`log, this`asked
      ensures PollResult(context', TheMachine(), status)
           == PollUntilPreempted(context, old(TheMachine()), cart, env, config.checksums)
    {
      ghost var result := PollUntilPreempted(context, TheMachine(), cart, env, config.checksums);
      context' := context;
      while true
        invariant context'.Valid(|rdram|, |cart|)
        invariant PollUntilPreempted(context', TheMachine(), cart, env, config.checksums) == result
        decreases context'.remaining
      {
        var vblank := env(asked).vblank;
        context', status := LoadPoll(context', env);
        if status != Busy || vblank {
          return;
        }
      }
    }

    method StateLoadFile(env: Environment)
      requires Valid() && phase.Running? && phase.state.LoadFile?
      modifies this`phase, this`rdram, this`log, this`asked
      ensures AfterPlanning() && !AtStart()
      ensures TheRun() == Tick(Sys(), old(TheRun()), env)
    {
      var context, next := phase.state.context, phase.state.next;
      var status;
      context, status := PollLoop(context, env);
      match status
      case Busy => phase := Running(LoadFile(context, next));
      case Complete => ScheduleTransition(next);
      case IoError => SetHalt();
      case BadChecksum => SetHalt();
    }

    /** The state functions that only say where the machine ends. */
    method Leave(ghost env: Environment)
      requires Valid() && phase.Running? && (phase.state.BootKernel? || phase.state.BootStage2? || phase.state.Halt?)
      modifies this`phase
      ensures AfterPlanning() && !AtStart()
      ensures TheRun() == Tick(Sys(), old(TheRun()), env)
    {
      phase := match phase.state case BootKernel => KernelStarted case BootStage2 => Stage2Started case _ => Halted;
    }

    /** Calls the function of the current state. */
    method CallState(env: Environment)
      requires Valid()
      modifies this, planner, planner.memory`free, planner.memory.stage1, planner.memory.stage2
      ensures if AtStart() then BeforePlanning() && phase.state.Delay? else AfterPlanning()
      ensures TheRun() == Tick(Sys(), old(TheRun()), env)
    {
      if phase.Running? {
        match phase.state
        case Delay(_, _) => StateDelay(env);
        case LoadFile(_, _) => StateLoadFile(env);
        case _ => Leave(env);
      }
    }

    /** One tick of the machine. */
    method Execute(env: Environment, ghost initial: seq<Byte>)
      requires Valid() && Sys().Valid() && Invariant(Sys(), initial, TheRun())
      modifies this, planner, planner.memory`free, planner.memory.stage1, planner.memory.stage2
      ensures Valid() && Invariant(Sys(), initial, TheRun())
      ensures TheRun() == Tick(Sys(), old(TheRun()), env)
    {
      TickKeepsInvariant(Sys(), initial, TheRun(), env);
      CallState(env);
    }
  }
}
