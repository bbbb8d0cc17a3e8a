/**
 The init monitor's handlers as they update its fields. The ghost `events` are what has happened since the
 start, and the monitor is `Valid` if that is a run that leads to its fields: so all that is proved of
 runs holds of it.
 */
module InitMonitor {
  import opened MonitorState
  import opened MonitorAnswers

  // ----- telling programs apart -----

  const DELETED: string := " (deleted)"
  const STUB: string := "stub_zygote"

  predicate Found(text: string, part: string, i: int) {
    0 <= i <= |text| - |part| && text[i..i + |part|] == part
  }

  predicate Contains(text: string, part: string) {
    exists i :: 0 <= i <= |text| - |part| && Found(text, part, i)
  }

  predicate EndsWith(text: string, part: string) {
    |part| <= |text| && text[|text| - |part|..] == part
  }

  function Clean(program: string): string {
    if EndsWith(program, DELETED) then program[..|program| - |DELETED|] else program
  }

  predicate IsSpawner(clean: string, lp64: bool) {
    lp64 && (clean == "/system_ext/bin/hyos_spawner" || EndsWith(clean, "/hyos_spawner"))
  }

  function Classify(program: string, zygotePath: string, lp64: bool): Program {
    if Contains(program, STUB) then StubZygote
    else if IsSpawner(Clean(program), lp64) then Spawner
    else if Clean(program) == zygotePath then Zygote
    else Irrelevant
  }

  lemma StubElsewhere(program: string)
    ensures Contains(program + DELETED, STUB) <==> Contains(program, STUB)
  {
    var whole := program + DELETED;
    forall i | 0 <= i <= |whole| - |STUB|
      ensures Found(whole, STUB, i) <==> Found(program, STUB, i)
    {
      if i + |STUB| <= |program| {
        assert whole[i..i + |STUB|] == program[i..i + |STUB|];
      } else {
        NotAcross(program, i);
      }
    }
  }

  /** The name of a stub has no blank, which the shorter suffix for deleted files begins with. */
  lemma NotAcross(program: string, i: nat)
    requires |program| < i + |STUB| <= |program + DELETED|
    ensures (program + DELETED)[i..i + |STUB|] != STUB
  {
    var part := (program + DELETED)[i..i + |STUB|];
    assert forall k :: 0 <= k < |STUB| ==> STUB[k] != ' ';
    assert part[|program| - i] == ' ';
  }

  /** A program whose file was replaced while it ran is still told for what it is. */
  lemma ReplacedProgram(program: string, zygotePath: string, lp64: bool)
    requires !EndsWith(program, DELETED)
    ensures Classify(program + DELETED, zygotePath, lp64) == Classify(program, zygotePath, lp64)
  {
    StubElsewhere(program);
    assert (program + DELETED)[..|program|] == program && (program + DELETED)[|program|..] == DELETED;
  }

  // ----- the handlers -----

  class AppMonitor {
    var tracingState: Tracing
    var process: set<int>
    var stubProcesses: set<int>
    var supported: bool
    var zygoteInjected: bool
    var daemonRunning: bool
    var daemonPid: int
    var lastStart: int
    var count: int
    const zygotePath: string
    const lp64: bool
    ghost var kernel: Kernel
    ghost var events: seq<Event>

    ghost predicate Valid()
      reads this
    {
      Run(events) && State() == After(events)
    }

    ghost function State(): Monitor
      reads this
    {
      Monitor(tracingState, process, stubProcesses,
              Abi(supported, zygoteInjected, daemonRunning, daemonPid, lastStart, count), kernel)
    }

    /** Starts out tracing, with init seized. */
    constructor (zygotePath: string, lp64: bool)
      ensures Valid() && events == []
    {
      tracingState, process, stubProcesses := TRACING, {}, {};
      supported, zygoteInjected, daemonRunning, daemonPid := false, false, false, -1;
      lastStart, count := 0, 0;
      this.zygotePath, this.lp64 := zygotePath, lp64;
      kernel := Initial().kernel;
      events := [];
    }

    /** In every state the monitor can be in, the invariant of runs holds. */
    lemma Sound()
      requires Valid()
      ensures Inv(State())
    {
      RunsKeepInv(events);
    }

    ghost method Happened(e: Event)
      requires Run(events) && Possible(After(events), e) && State() == Next(After(events), e)
      modifies this`events
      ensures Valid() && events == old(events) + [e] && Inv(State())
    {
      hide Next, Possible, Inv;
      assert (events + [e])[..|events|] == events;
      events := events + [e];
      RunsKeepInv(events);
    }

    // What happens: commands, reports of the kernel, and forks of what is traced.

    /** A command from the control socket, carried out as it says. */
    method HandleCommand(command: Event)
      requires Valid() && !command.Child? && !command.Forked? && Possible(State(), command)
      modifies this
      ensures Valid() && events == old(events) + [command] && Inv(State())
      ensures CarriedOut(old(State()), command, State())
    {
      hide Inv, Possible, CarriedOut;
      Sound();
      CommandCarriedOut(State(), command);
      match command {
        case Start => RequestStart();
        case Stop => RequestStop();
        case Exit => RequestExit();
        case Rearm(fork, zygotes, injected) => RequestRearm(fork, zygotes, injected);
        case ZygoteInjected => NotifyInjected();
        case DaemonError => SetDaemonCrashed();
      }
      Happened(command);
    }

    /**
     One report of the kernel, from the wait that brought it to the answer: a stop is the next one to be
     answered, as it is to be answered, no stop is left unanswered, and an exit of the monitor is not forgotten.
     */
    method HandleReport(pid: int, status: Status, program: string, now: int, fork: int, halted: Status)
      requires Valid()
      requires Possible(State(), Child(pid, status, World(Classify(program, zygotePath, lp64), now, fork, halted)))
      modifies this
      ensures Valid() && Inv(State()) && Harmless(kernel.answers)
      ensures events
              == old(events) + [Child(pid, status, World(Classify(program, zygotePath, lp64), now, fork, halted))]
      ensures status.Stopped? ==> NextAnswers(old(kernel.answers), kernel.answers, pid)
      ensures status.Gone? ==> kernel.answers == old(kernel.answers)
      ensures kernel.answers
              == old(kernel.answers) + Expected(old(State()), pid, status,
                                                World(Classify(program, zygotePath, lp64), now, fork, halted))
      ensures old(tracingState) == EXITING ==> tracingState == EXITING
    {
      hide Inv, Possible, Harmless, NextAnswers, Classify, ChildEvent, Report, Expected;
      ghost var world := World(Classify(program, zygotePath, lp64), now, fork, halted);
      Sound();
      StopAnswered(State(), pid, status, world);
      AnswersExactly(State(), pid, status, world);
      EventKeeps(State(), Child(pid, status, world));
      Reported(pid, status);
      HandleChildEvent(pid, status, program, now, fork, halted);
      Happened(Child(pid, status, world));
      NeverFrozen(events);
    }

    /** A traced process forks; the child is traced from the start. */
    ghost method ProcessForked(child: int)
      requires Valid() && Possible(State(), Forked(child))
      modifies this`kernel, this`events
      ensures Valid() && events == old(events) + [Forked(child)] && Inv(State())
    {
      hide Inv;
      kernel := kernel.(traced := kernel.traced + {child});
      Happened(Forked(child));
    }

    // The calls of ptrace, wait and fork that reach the kernel.

    ghost method Answer(a: Answer)
      modifies this`kernel
      ensures State() == Respond(old(State()), a)
    {
      if a.pid in kernel.stopped {
        kernel := kernel.(stopped := kernel.stopped - {a.pid},
                          traced := if a.Detach? then kernel.traced - {a.pid} else kernel.traced,
                          answers := kernel.answers + [a]);
      }
    }

    ghost method Reported(pid: int, status: Status)
      modifies this`kernel
      ensures State() == Report(old(State()), pid, status)
    {
      kernel := Report(State(), pid, status).kernel;
    }

    // Commands.

    method RequestStart()
      modifies this`tracingState, this`kernel
      ensures State() == MonitorState.RequestStart(old(State()))
    {
      if tracingState == STOPPING {
        tracingState := TRACING;
      } else if tracingState == STOPPED {
        kernel := kernel.(traced := kernel.traced + {1});
        tracingState := TRACING;
      }
    }

    method RequestStop()
      modifies this`tracingState
      ensures State() == MonitorState.RequestStop(old(State()))
    {
      if tracingState == TRACING {
        tracingState := STOPPING;
      }
    }

    method RequestExit()
      modifies this`tracingState
      ensures State() == Next(old(State()), Exit)
    {
      tracingState := EXITING;
    }

    method RequestRearm(fork: int, zygotes: bool, injected: bool)
      modifies this
      ensures events == old(events)
      ensures State() == Next(old(State()), Rearm(fork, zygotes, injected))
    {
      if tracingState != TRACING {
        RequestStart();
      }
      var ready := EnsureDaemonCreated(fork);
      if !ready {
        RequestStop();
        return;
      }
      if zygotes {
        supported := true;
        if injected {
          zygoteInjected := true;
        }
      }
    }

    method NotifyInjected()
      modifies this`zygoteInjected
      ensures State() == Next(old(State()), ZygoteInjected)
    {
      zygoteInjected := true;
    }

    // The daemon.

    method SetDaemonCrashed()
      modifies this`daemonRunning
      ensures State() == Next(old(State()), DaemonError)
    {
      daemonRunning := false;
    }

    method EnsureDaemonCreated(fork: int) returns (running: bool)
      modifies this`supported, this`daemonPid, this`daemonRunning, this`kernel
      ensures State() == EnsureDaemon(old(State()), fork) && running == DaemonReady(old(State()), fork)
    {
      if daemonPid == -1 {
        if fork < 0 {
          return false;
        }
        kernel := kernel.(daemons := kernel.daemons + {fork});
        supported := true;
        daemonPid := fork;
        daemonRunning := true;
      }
      return daemonRunning;
    }

    method IsInCrashLoop(now: int) returns (looping: bool)
      modifies this`lastStart, this`count
      ensures State() == old(State()).(abi := CountStart(old(State()).abi, now))
      ensures looping <==> count >= CRASH_LOOP_RETRY_COUNT
    {
      if now - lastStart < CRASH_LOOP_WINDOW_SECONDS {
        count := count + 1;
      } else {
        count := 1;
      }
      lastStart := now;
      return count >= CRASH_LOOP_RETRY_COUNT;
    }

    method CheckAndPrepareInjection(now: int, fork: int) returns (ok: bool)
      modifies this
      ensures events == old(events)
      ensures (State(), ok) == PrepareZygote(old(State()), now, fork)
    {
      var looping := IsInCrashLoop(now);
      if looping {
        RequestStop();
        return false;
      }
      zygoteInjected := false;
      ok := EnsureDaemonCreated(fork);
      if !ok {
        RequestStop();
      }
    }

    method HandleDaemonExitIfMatch(pid: int) returns (matched: bool)
      modifies this`daemonRunning, this`daemonPid
      ensures matched <==> old(supported && pid == daemonPid)
      ensures State()
              == if !matched then old(State())
                 else old(State()).(abi := old(State()).abi.(daemonRunning := false, daemonPid := -1))
    {
      if supported && pid == daemonPid {
        daemonRunning := false;
        daemonPid := -1;
        return true;
      }
      return false;
    }

    // Processes.

    method HandleChildEvent(pid: int, status: Status, program: string, now: int, fork: int, halted: Status)
      modifies this
      ensures events == old(events)
      ensures State()
              == ChildEvent(old(State()), pid, status, World(Classify(program, zygotePath, lp64), now, fork, halted))
    {
      if pid == 1 || pid in stubProcesses {
        HandleParentEvent(pid, status);
        return;
      }
      var matched := HandleDaemonExitIfMatch(pid);
      if matched {
        return;
      }
      if pid in process {
        HandleTracedProcess(pid, status, program, now, fork, halted);
      } else {
        HandleNewProcess(pid);
      }
    }

    method HandleParentEvent(pid: int, status: Status)
      modifies this`tracingState, this`stubProcesses, this`kernel
      ensures State() == ParentEvent(old(State()), pid, status)
      ensures status.Stopped? && pid in old(kernel.stopped) ==>
                kernel.answers == old(kernel.answers) +
                  if pid == 1 && old(tracingState) == STOPPING && status == Stopped(SIGTRAP, EVENT_STOP)
                  then [Detach(1, 0)] else [Cont(pid, PassedOn(pid, status.sig, status.event))]
    {
      if status == Stopped(SIGTRAP, EVENT_FORK) {
      } else if pid == 1 && status == Stopped(SIGTRAP, EVENT_STOP) && tracingState == STOPPING {
        Answer(Detach(1, 0));
        tracingState := STOPPED;
        return;
      } else if pid != 1 && status.Gone? {
        stubProcesses := stubProcesses - {pid};
        return;
      }
      if status.Stopped? {
        if status.event == 0 {
          var sig := status.sig;
          if sig == SIGSTOP || sig == SIGTSTP || sig == SIGTTIN || sig == SIGTTOU {
          } else if pid != 1 && sig == SIGCHLD {
          } else {
            Answer(Cont(pid, sig));
            return;
          }
        }
        Answer(Cont(pid, 0));
      }
    }

    method HandleNewProcess(pid: int)
      modifies this`process, this`kernel
      ensures State() == NewProcess(old(State()), pid)
    {
      process := process + {pid};
      Answer(Cont(pid, 0));
    }

    method HandleTracedProcess(pid: int, status: Status, program: string, now: int, fork: int, halted: Status)
      modifies this
      ensures events == old(events)
      ensures State()
              == TracedEvent(old(State()), pid, status, World(Classify(program, zygotePath, lp64), now, fork, halted))
    {
      var keepAttached, last := false, status;
      if status == Stopped(SIGTRAP, EVENT_EXEC) {
        keepAttached, last := HandleExecEvent(pid, status, program, now, fork, halted);
      } else if status == Stopped(SIGTRAP, EVENT_STOP) {
        Answer(Cont(pid, 0));
        keepAttached := true;
      }
      if keepAttached {
        if last == Stopped(SIGTRAP, EVENT_EXEC) {
          process := process - {pid};
        }
        return;
      }
      process := process - {pid};
      if last.Stopped? {
        Answer(Detach(pid, 0));
      }
    }

    /** Tells what a process has become, and takes it on or not; the status is the one waited for last. */
    method HandleExecEvent(pid: int, status: Status, program: string, now: int, fork: int,
        halted: Status) returns (handled: bool, last: Status)
      modifies this
      ensures events == old(events)
      ensures (State(), handled, last) ==
              ExecEvent(old(State()), pid, status, World(Classify(program, zygotePath, lp64), now, fork, halted))
    {
      hide Contains, EndsWith, Clean, IsSpawner;
      handled, last := false, status;
      if Contains(program, STUB) {
        stubProcesses := stubProcesses + {pid};
        Answer(Cont(pid, 0));
        return true, last;
      }
      if tracingState != TRACING {
        return;
      }
      var clean := Clean(program);
      var isZygote, isSpawner := clean == zygotePath, IsSpawner(clean, lp64);
      if !isZygote && !isSpawner {
        return;
      }
      var ok;
      if isSpawner {
        ok := EnsureDaemonCreated(fork);
      } else {
        ok := CheckAndPrepareInjection(now, fork);
      }
      if !ok {
        return;
      }
      Answer(Cont(pid, 0));
      Reported(pid, halted);
      last := halted;
      if last == Stopped(SIGSTOP, 0) {
        Answer(Detach(pid, SIGSTOP));
        handled := true;
      }
    }
  }
}
