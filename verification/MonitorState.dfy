/**
 The init monitor as a state machine over events: commands on its control socket, and what the
 kernel reports about the processes it traces. Part of the state stands for the kernel: who is
 traced, who sits in a reported stop, which daemons have not been reaped, and the answers given.
 Calls of ptrace are assumed to succeed where the kernel allows them.
 */
module MonitorState {

  const SIGTRAP: int := 5
  const SIGCHLD: int := 17
  const SIGSTOP: int := 19
  const SIGTSTP: int := 20
  const SIGTTIN: int := 21
  const SIGTTOU: int := 22

  const EVENT_FORK: int := 1
  const EVENT_EXEC: int := 4
  const EVENT_STOP: int := 128

  const CRASH_LOOP_RETRY_COUNT: int := 5
  const CRASH_LOOP_WINDOW_SECONDS: int := 30

  /** Why a process was reported. An event of 0 means an ordinary signal. */
  datatype Status = Stopped(sig: int, event: int) | Gone

  datatype Tracing = TRACING | STOPPING | STOPPED | EXITING

  /** How a stop was answered: with the signal passed on to the process. */
  datatype Answer = Cont(pid: int, sig: int) | Detach(pid: int, sig: int)

  datatype Kernel = Kernel(traced: set<int>, stopped: set<int>, daemons: set<int>, reported: seq<int>,
      answers: seq<Answer>)

  /** The daemon and the start counter; a pid of -1 means that none is recorded. */
  datatype Abi = Abi(supported: bool, injected: bool, daemonRunning: bool, daemonPid: int, lastStart: int, count: int)

  datatype Monitor = Monitor(tracing: Tracing, process: set<int>, stubs: set<int>, abi: Abi, kernel: Kernel)

  /** What a program is to the monitor. */
  datatype Program = StubZygote | Zygote | Spawner | Irrelevant

  /** What an exec leads to, as far as the world decides it: the clock, a fork's result, the stop after SIGSTOP. */
  datatype World = World(program: Program, now: int, fork: int, halted: Status)

  datatype Event =
    | Start
    | Stop
    | Exit
    | Rearm(fork: int, zygotes: bool, injected: bool)
    | ZygoteInjected
    | DaemonError
    | Forked(child: int)
    | Child(pid: int, status: Status, world: World)

  // ----- the kernel -----

  /** A stop is reported: the process waits for an answer. */
  function Report(m: Monitor, pid: int, status: Status): Monitor {
    match status
    case Stopped(_, _) =>
      m.(kernel := m.kernel.(stopped := m.kernel.stopped + {pid}, reported := m.kernel.reported + [pid]))
    case Gone => m.(kernel := m.kernel.(traced := m.kernel.traced - {pid}, daemons := m.kernel.daemons - {pid}))
  }

  /** An answer; for a process that is not stopped the call fails and changes nothing. */
  function Respond(m: Monitor, a: Answer): Monitor {
    if a.pid !in m.kernel.stopped then m
    else
      m.(kernel := m.kernel.(
           stopped := m.kernel.stopped - {a.pid},
           traced := if a.Detach? then m.kernel.traced - {a.pid} else m.kernel.traced,
           answers := m.kernel.answers + [a]))
  }

  /** A pid that the kernel may give to a new process. */
  predicate Free(k: Kernel, pid: int) {
    pid > 1 && pid !in k.traced && pid !in k.daemons
  }

  // ----- commands -----

  function RequestStart(m: Monitor): Monitor {
    match m.tracing
    case STOPPING => m.(tracing := TRACING)
    case STOPPED => m.(tracing := TRACING, kernel := m.kernel.(traced := m.kernel.traced + {1}))
    case _ => m
  }

  function RequestStop(m: Monitor): Monitor {
    if m.tracing == TRACING then m.(tracing := STOPPING) else m
  }

  function RequestRearm(m: Monitor, fork: int, zygotes: bool, injected: bool): Monitor {
    var started := if m.tracing != TRACING then RequestStart(m) else m;
    var ready := EnsureDaemon(started, fork);
    if !DaemonReady(started, fork) then RequestStop(ready)
    else if !zygotes then ready
    else ready.(abi := ready.abi.(supported := true, injected := ready.abi.injected || injected))
  }

  // ----- the daemon -----

  /** Starts a daemon unless one is recorded; `fork` is the new pid, or -1. */
  function EnsureDaemon(m: Monitor, fork: int): Monitor {
    if m.abi.daemonPid != -1 || fork < 0 then m
    else
      m.(abi := m.abi.(supported := true, daemonPid := fork, daemonRunning := true),
         kernel := m.kernel.(daemons := m.kernel.daemons + {fork}))
  }

  /** May an injection go ahead now? The daemon runs, or has just been started. */
  predicate DaemonReady(m: Monitor, fork: int) {
    if m.abi.daemonPid == -1 then fork >= 0 else m.abi.daemonRunning
  }

  function CountStart(abi: Abi, now: int): Abi {
    abi.(lastStart := now, count := if now - abi.lastStart < CRASH_LOOP_WINDOW_SECONDS then abi.count + 1 else 1)
  }

  /** Prepares to inject into a zygote, unless zygotes crash in a loop or there is no daemon. */
  function PrepareZygote(m: Monitor, now: int, fork: int): (Monitor, bool) {
    var counted := m.(abi := CountStart(m.abi, now));
    if counted.abi.count >= CRASH_LOOP_RETRY_COUNT then (RequestStop(counted), false)
    else
      var cleared := counted.(abi := counted.abi.(injected := false));
      if DaemonReady(cleared, fork) then (EnsureDaemon(cleared, fork), true)
      else (RequestStop(EnsureDaemon(cleared, fork)), false)
  }

  function Prepare(m: Monitor, w: World): (Monitor, bool) {
    if w.program == Spawner then (EnsureDaemon(m, w.fork), DaemonReady(m, w.fork)) else PrepareZygote(m, w.now, w.fork)
  }

  // ----- processes -----

  /** Signals that are kept from a parent: those that would freeze it, and SIGCHLD from a stub. */
  predicate Suppressed(pid: int, sig: int) {
    sig in {SIGSTOP, SIGTSTP, SIGTTIN, SIGTTOU} || (pid != 1 && sig == SIGCHLD)
  }

  function ParentEvent(m: Monitor, pid: int, status: Status): Monitor {
    match status
    case Gone => if pid == 1 then m else m.(stubs := m.stubs - {pid})
    case Stopped(sig, event) =>
      if pid == 1 && sig == SIGTRAP && event == EVENT_STOP && m.tracing == STOPPING then
        Respond(m, Detach(1, 0)).(tracing := STOPPED)
      else Respond(m, Cont(pid, if event == 0 && !Suppressed(pid, sig) then sig else 0))
  }

  function NewProcess(m: Monitor, pid: int): Monitor {
    Respond(m.(process := m.process + {pid}), Cont(pid, 0))
  }

  /** A process has executed a program: the state, whether it was taken on, and the status last seen. */
  function ExecEvent(m: Monitor, pid: int, status: Status, w: World): (Monitor, bool, Status) {
    if w.program == StubZygote then (Respond(m.(stubs := m.stubs + {pid}), Cont(pid, 0)), true, status)
    else if m.tracing != TRACING || w.program == Irrelevant then (m, false, status)
    else
      var (ready, ok) := Prepare(m, w);
      if !ok then (ready, false, status)
      else
        var halted := Report(Respond(ready, Cont(pid, 0)), pid, w.halted);
        if w.halted == Stopped(SIGSTOP, 0) then (Respond(halted, Detach(pid, SIGSTOP)), true, w.halted)
        else (halted, false, w.halted)
  }

  /** Lets go of a process that is of no interest. */
  function LetGo(m: Monitor, pid: int, status: Status): Monitor {
    var dropped := m.(process := m.process - {pid});
    if status.Stopped? then Respond(dropped, Detach(pid, 0)) else dropped
  }

  function TracedEvent(m: Monitor, pid: int, status: Status, w: World): Monitor {
    if status == Stopped(SIGTRAP, EVENT_EXEC) then
      var (after, kept, last) := ExecEvent(m, pid, status, w);
      if !kept then LetGo(after, pid, last)
      else if last == Stopped(SIGTRAP, EVENT_EXEC) then after.(process := after.process - {pid})
      else after
    else if status == Stopped(SIGTRAP, EVENT_STOP) then Respond(m, Cont(pid, 0))
    else LetGo(m, pid, status)
  }

  function ChildEvent(m: Monitor, pid: int, status: Status, w: World): Monitor {
    if pid == 1 || pid in m.stubs then ParentEvent(m, pid, status)
    else if m.abi.supported && pid == m.abi.daemonPid then m.(abi := m.abi.(daemonRunning := false, daemonPid := -1))
    else if pid in m.process then TracedEvent(m, pid, status, w)
    else NewProcess(m, pid)
  }

  function Next(m: Monitor, e: Event): Monitor {
    match e
    case Start => RequestStart(m)
    case Stop => RequestStop(m)
    case Exit => m.(tracing := EXITING)
    case Rearm(fork, zygotes, injected) => RequestRearm(m, fork, zygotes, injected)
    case ZygoteInjected => m.(abi := m.abi.(injected := true))
    case DaemonError => m.(abi := m.abi.(daemonRunning := false))
    case Forked(child) => m.(kernel := m.kernel.(traced := m.kernel.traced + {child}))
    case Child(pid, status, w) => ChildEvent(Report(m, pid, status), pid, status, w)
  }

  /** What the kernel may do: fresh pids, stops of traced processes only, and init never exits. */
  predicate Possible(m: Monitor, e: Event) {
    match e
    case Rearm(fork, _, _) => fork == -1 || Free(m.kernel, fork)
    case Forked(child) => Free(m.kernel, child)
    case Child(pid, status, w) =>
      && (status.Stopped? ==> pid in m.kernel.traced) && (status.Gone? ==> pid > 1)
      && (w.fork == -1 || Free(m.kernel, w.fork))
    case _ => true
  }

  function Initial(): Monitor {
    Monitor(TRACING, {}, {}, Abi(false, false, false, -1, 0, 0), Kernel({1}, {}, {}, [], []))
  }

  /** The state after a run of events. */
  function After(events: seq<Event>): Monitor {
    if events == [] then Initial() else Next(After(events[..|events| - 1]), events[|events| - 1])
  }

  /** A run in which the kernel does only what it may. */
  ghost predicate Run(events: seq<Event>) {
    events != [] ==> Run(events[..|events| - 1]) && Possible(After(events[..|events| - 1]), events[|events| - 1])
  }

  // ----- what every run keeps -----

  function Answered(answers: seq<Answer>): (pids: seq<int>)
    ensures |pids| == |answers|
  {
    seq(|answers|, i requires 0 <= i < |answers| => answers[i].pid)
  }

  predicate TracingOk(m: Monitor) {
    && (m.tracing == TRACING || m.tracing == STOPPING ==> 1 in m.kernel.traced)
    && (m.tracing == STOPPED ==> 1 !in m.kernel.traced)
  }

  predicate SetsOk(m: Monitor) {
    && m.process !! m.stubs && 1 !in m.process && 1 !in m.stubs && m.stubs <= m.kernel.traced
    && (forall pid :: pid in m.kernel.traced ==> pid >= 1)
  }

  predicate DaemonOk(m: Monitor) {
    && m.kernel.daemons == (if m.abi.daemonPid == -1 then {} else {m.abi.daemonPid})
    && (m.abi.daemonPid != -1 ==> m.abi.supported && m.abi.daemonPid > 1 && m.abi.daemonPid !in m.kernel.traced)
    && (m.abi.daemonRunning ==> m.abi.daemonPid != -1)
  }

  /** Every stop reported so far has been answered, in order, once. */
  predicate AnswersOk(m: Monitor) {
    m.kernel.stopped == {} && Answered(m.kernel.answers) == m.kernel.reported
  }

  predicate Inv(m: Monitor) {
    TracingOk(m) && SetsOk(m) && DaemonOk(m) && AnswersOk(m)
  }

  /** During an event: the process reported is the only one waiting, if it is stopped. */
  predicate Owing(m: Monitor, pid: int, status: Status) {
    && m.kernel.stopped == (if status.Stopped? then {pid} else {})
    && m.kernel.reported == Answered(m.kernel.answers) + (if status.Stopped? then [pid] else [])
    && (status.Stopped? ==> pid in m.kernel.traced)
  }

  lemma RespondSettles(m: Monitor, pid: int, status: Status, a: Answer)
    requires Owing(m, pid, status) && status.Stopped? && a.pid == pid
    ensures AnswersOk(Respond(m, a))
  {
    var k := Respond(m, a).kernel;
    assert Answered(k.answers) == Answered(m.kernel.answers) + [pid];
  }

  lemma ReportOwes(m: Monitor, pid: int, status: Status)
    requires AnswersOk(m) && (status.Stopped? ==> pid in m.kernel.traced)
    ensures Owing(Report(m, pid, status), pid, status)
  {
  }

  lemma ParentKeeps(m: Monitor, pid: int, status: Status)
    requires Inv(m) && (pid == 1 || pid in m.stubs)
    requires (status.Stopped? ==> pid in m.kernel.traced) && (status.Gone? ==> pid > 1)
    ensures Inv(ParentEvent(Report(m, pid, status), pid, status))
  {
    hide Answered;
    ReportOwes(m, pid, status);
    var owing := Report(m, pid, status);
    if status.Stopped? {
      RespondSettles(owing, pid, status, Detach(1, 0).(pid := pid));
      RespondSettles(owing, pid, status,
          Cont(pid, if status.event == 0 && !Suppressed(pid, status.sig) then status.sig else 0));
    }
  }

  /** Preparing an injection concerns only the daemon, and may ask tracing to stop. */
  lemma PrepareKeeps(m: Monitor, w: World)
    requires TracingOk(m) && DaemonOk(m) && m.tracing == TRACING && (w.fork == -1 || Free(m.kernel, w.fork))
    ensures var (ready, ok) := Prepare(m, w);
            && TracingOk(ready) && DaemonOk(ready) && ready.process == m.process && ready.stubs == m.stubs
            && ready.kernel == m.kernel.(daemons := ready.kernel.daemons)
            && (ok ==> ready.tracing == TRACING && ready.abi.daemonRunning)
  {
  }

  /** A state in which `pid` waits for an answer, or is gone. */
  predicate Busy(m: Monitor, pid: int, status: Status) {
    TracingOk(m) && SetsOk(m) && DaemonOk(m) && Owing(m, pid, status) && pid > 1 && pid !in m.stubs
  }

  lemma LetGoKeeps(m: Monitor, pid: int, status: Status)
    requires Busy(m, pid, status)
    ensures Inv(LetGo(m, pid, status))
  {
    hide Answered;
    if status.Stopped? {
      RespondSettles(m.(process := m.process - {pid}), pid, status, Detach(pid, 0));
    } else {
      assert m.kernel.reported == Answered(m.kernel.answers);
    }
  }

  /** Handing a target over: it is resumed, halted again, and released. */
  lemma HandOver(m: Monitor, pid: int, status: Status, next: Status)
    requires Busy(m, pid, status) && status.Stopped?
    ensures Busy(Report(Respond(m, Cont(pid, 0)), pid, next), pid, next)
  {
    hide Answered;
    RespondSettles(m, pid, status, Cont(pid, 0));
    var resumed := Respond(m, Cont(pid, 0));
    ReportOwes(resumed, pid, next);
  }

  lemma ExecKeeps(m: Monitor, pid: int, status: Status, w: World)
    requires Busy(m, pid, status) && status.Stopped? && pid in m.process && (w.fork == -1 || Free(m.kernel, w.fork))
    ensures var (after, kept, last) := ExecEvent(m, pid, status, w);
            if kept then Inv(after.(process := if last == status then after.process - {pid} else after.process))
            else Busy(after, pid, last)
  {
    hide Answered;
    if w.program == StubZygote {
      RespondSettles(m.(stubs := m.stubs + {pid}), pid, status, Cont(pid, 0));
    } else if m.tracing == TRACING && w.program != Irrelevant {
      PrepareKeeps(m, w);
      var (ready, ok) := Prepare(m, w);
      if ok {
        HandOver(ready, pid, status, w.halted);
        var halted := Report(Respond(ready, Cont(pid, 0)), pid, w.halted);
        if w.halted == Stopped(SIGSTOP, 0) {
          RespondSettles(halted, pid, w.halted, Detach(pid, SIGSTOP));
        }
      }
    }
  }

  lemma TracedKeeps(m: Monitor, pid: int, status: Status, w: World)
    requires Busy(m, pid, status) && pid in m.process && (w.fork == -1 || Free(m.kernel, w.fork))
    ensures Inv(TracedEvent(m, pid, status, w))
  {
    hide Answered;
    if status == Stopped(SIGTRAP, EVENT_EXEC) {
      ExecKeeps(m, pid, status, w);
      var (after, kept, last) := ExecEvent(m, pid, status, w);
      if !kept {
        LetGoKeeps(after, pid, last);
      }
    } else if status == Stopped(SIGTRAP, EVENT_STOP) {
      RespondSettles(m, pid, status, Cont(pid, 0));
    } else {
      LetGoKeeps(m, pid, status);
    }
  }

  lemma ChildKeeps(m: Monitor, pid: int, status: Status, w: World)
    requires Inv(m) && Possible(m, Child(pid, status, w))
    ensures Inv(Next(m, Child(pid, status, w)))
  {
    hide Answered;
    var owing := Report(m, pid, status);
    if pid == 1 || pid in m.stubs {
      ParentKeeps(m, pid, status);
    } else {
      ReportOwes(m, pid, status);
      if !(m.abi.supported && pid == m.abi.daemonPid) {
        OnlyTracedStop(m, pid, status);
        if pid in m.process {
          TracedKeeps(owing, pid, status, w);
        } else if status.Stopped? {
          RespondSettles(owing.(process := owing.process + {pid}), pid, status, Cont(pid, 0));
        }
      }
    }
  }

  lemma OnlyTracedStop(m: Monitor, pid: int, status: Status)
    requires Inv(m) && pid != 1 && pid !in m.stubs && !(m.abi.supported && pid == m.abi.daemonPid)
    requires (status.Stopped? ==> pid in m.kernel.traced) && (status.Gone? ==> pid > 1)
    ensures Busy(Report(m, pid, status), pid, status)
  {
    hide Answered;
    ReportOwes(m, pid, status);
  }

  lemma EventKeeps(m: Monitor, e: Event)
    requires Inv(m) && Possible(m, e)
    ensures Inv(Next(m, e)) && (m.tracing == EXITING ==> Next(m, e).tracing == EXITING)
  {
    hide Answered;
    match e
    case Child(pid, status, w) => ChildKeeps(m, pid, status, w);
    case _ =>
  }

  /** What a command has brought about when it has been carried out. */
  predicate CarriedOut(m: Monitor, e: Event, n: Monitor) {
    && n.kernel.answers == m.kernel.answers && n.process == m.process && n.stubs == m.stubs
    && (m.tracing == EXITING ==> n.tracing == EXITING)
    && (e.Start? && m.tracing != EXITING ==> n.tracing == TRACING)
    && (e.Stop? ==> n.tracing == if m.tracing == TRACING then STOPPING else m.tracing)
    && (e.Exit? ==> n.tracing == EXITING)
    && (e.Rearm? && m.tracing != EXITING ==> (n.tracing == TRACING <==> n.abi.daemonRunning))
  }

  /** Commands do what they say, answer no stop, and a rearm leaves tracing on exactly if a daemon runs. */
  lemma CommandCarriedOut(m: Monitor, e: Event)
    requires Inv(m) && Possible(m, e) && !e.Child? && !e.Forked?
    ensures CarriedOut(m, e, Next(m, e))
  {
    hide Answered;
  }

  /** Over every run: tracing and seizing agree, the sets are apart, one daemon at most, every stop answered once. */
  lemma {:induction false} RunsKeepInv(events: seq<Event>)
    requires Run(events)
    ensures Inv(After(events))
  {
    hide Next, Possible;
    if events == [] {
      assert Answered([]) == [];
    } else {
      RunsKeepInv(events[..|events| - 1]);
      EventKeeps(After(events[..|events| - 1]), events[|events| - 1]);
    }
  }

  /** Once exiting, the monitor stays so, whatever follows. */
  lemma {:induction false} ExitingForEver(events: seq<Event>, more: seq<Event>)
    requires Run(events + more) && After(events).tracing == EXITING
    ensures After(events + more).tracing == EXITING
    decreases |more|
  {
    hide Next, Possible;
    if more == [] {
      assert events + more == events;
    } else {
      var n := |more| - 1;
      assert (events + more)[..|events| + n] == events + more[..n];
      ExitingForEver(events, more[..n]);
      RunsKeepInv(events + more[..n]);
      EventKeeps(After(events + more[..n]), more[n]);
    }
  }

  /** `later` are the answers `sooner` with more behind them, the first of those to `pid`. */
  predicate NextAnswers(sooner: seq<Answer>, later: seq<Answer>, pid: int) {
    |sooner| < |later| && sooner == later[..|sooner|] && later[|sooner|].pid == pid
  }

  lemma RespondAnswers(m: Monitor, a: Answer, sooner: seq<Answer>)
    requires a.pid in m.kernel.stopped
    requires m.kernel.answers == sooner || NextAnswers(sooner, m.kernel.answers, a.pid)
    ensures NextAnswers(sooner, Respond(m, a).kernel.answers, a.pid)
  {
  }

  /** A stop that is reported is the next one to be answered; without a stop there is no answer. */
  lemma StopAnswered(m: Monitor, pid: int, status: Status, w: World)
    requires Inv(m) && Possible(m, Child(pid, status, w))
    ensures var n := Next(m, Child(pid, status, w));
            if status.Stopped? then NextAnswers(m.kernel.answers, n.kernel.answers, pid)
            else n.kernel.answers == m.kernel.answers
  {
    hide Answered, NextAnswers, CountStart;
    var sooner := m.kernel.answers;
    var owing := Report(m, pid, status);
    ReportOwes(m, pid, status);
    if status.Stopped? {
      RespondAnswers(owing, Detach(pid, 0), sooner);
      RespondAnswers(owing, Cont(pid, if status.event == 0 && !Suppressed(pid, status.sig) then status.sig else 0),
          sooner);
      RespondAnswers(owing, Cont(pid, 0), sooner);
      RespondAnswers(owing.(process := owing.process + {pid}), Cont(pid, 0), sooner);
      if pid in m.process && pid != 1 && pid !in m.stubs && pid != m.abi.daemonPid {
        TracedAnswers(owing, pid, status, w);
      }
    }
  }

  lemma TracedAnswers(m: Monitor, pid: int, status: Status, w: World)
    requires m.kernel.stopped == {pid} && status.Stopped?
    ensures NextAnswers(m.kernel.answers, TracedEvent(m, pid, status, w).kernel.answers, pid)
  {
    hide NextAnswers, CountStart;
    var sooner := m.kernel.answers;
    RespondAnswers(m, Cont(pid, 0), sooner);
    RespondAnswers(m.(process := m.process - {pid}), Detach(pid, 0), sooner);
    RespondAnswers(m.(stubs := m.stubs + {pid}), Cont(pid, 0), sooner);
    if m.tracing == TRACING && w.program in {Zygote, Spawner} {
      PrepareExactly(m, w);
      var ready := Prepare(m, w).0;
      assert ready.kernel == m.kernel.(daemons := ready.kernel.daemons);
      RespondAnswers(ready, Cont(pid, 0), sooner);
      RespondAnswers(ready.(process := ready.process - {pid}), Detach(pid, 0), sooner);
      var halted := Report(Respond(ready, Cont(pid, 0)), pid, w.halted);
      if w.halted.Stopped? {
        RespondAnswers(halted, Detach(pid, SIGSTOP), sooner);
        RespondAnswers(halted.(process := halted.process - {pid}), Detach(pid, 0), sooner);
      }
    }
  }

  /** An answer that lets a process go on does so without a signal that would freeze it; only init gets SIGCHLD. */
  ghost predicate Harmless(answers: seq<Answer>) {
    forall i :: 0 <= i < |answers| && answers[i].Cont? ==> !Suppressed(answers[i].pid, answers[i].sig)
  }

  lemma RespondHarmless(m: Monitor, a: Answer)
    requires Harmless(m.kernel.answers) && (a.Cont? ==> !Suppressed(a.pid, a.sig))
    ensures Harmless(Respond(m, a).kernel.answers)
  {
  }

  lemma EventHarmless(m: Monitor, e: Event)
    requires Harmless(m.kernel.answers)
    ensures Harmless(Next(m, e).kernel.answers)
  {
    hide Harmless, CountStart;
    if e.Child? {
      ChildHarmless(Report(m, e.pid, e.status), e.pid, e.status, e.world);
    }
  }

  lemma ChildHarmless(m: Monitor, pid: int, status: Status, w: World)
    requires Harmless(m.kernel.answers)
    ensures Harmless(ChildEvent(m, pid, status, w).kernel.answers)
  {
    hide Harmless, CountStart;
    RespondHarmless(m, Detach(1, 0));
    RespondHarmless(m, Cont(pid, 0));
    RespondHarmless(m.(process := m.process + {pid}), Cont(pid, 0));
    if status.Stopped? && !(status.event == 0 && Suppressed(pid, status.sig)) {
      RespondHarmless(m, Cont(pid, if status.event == 0 then status.sig else 0));
    }
    if pid in m.process {
      TracedHarmless(m, pid, status, w);
    }
  }

  lemma TracedHarmless(m: Monitor, pid: int, status: Status, w: World)
    requires Harmless(m.kernel.answers)
    ensures Harmless(TracedEvent(m, pid, status, w).kernel.answers)
  {
    hide Harmless, CountStart;
    RespondHarmless(m, Cont(pid, 0));
    if status == Stopped(SIGTRAP, EVENT_EXEC) {
      ExecHarmless(m, pid, status, w);
      var (after, kept, last) := ExecEvent(m, pid, status, w);
      RespondHarmless(after.(process := after.process - {pid}), Detach(pid, 0));
    } else {
      RespondHarmless(m.(process := m.process - {pid}), Detach(pid, 0));
    }
  }

  lemma ExecHarmless(m: Monitor, pid: int, status: Status, w: World)
    requires Harmless(m.kernel.answers)
    ensures Harmless(ExecEvent(m, pid, status, w).0.kernel.answers)
  {
    hide Harmless, CountStart;
    RespondHarmless(m.(stubs := m.stubs + {pid}), Cont(pid, 0));
    var ready := Prepare(m, w).0;
    assert ready.kernel.answers == m.kernel.answers;
    RespondHarmless(ready, Cont(pid, 0));
    RespondHarmless(Report(Respond(ready, Cont(pid, 0)), pid, w.halted), Detach(pid, SIGSTOP));
  }

  /** Over every run, no process is resumed with a stop signal, and none but init with SIGCHLD. */
  lemma {:induction false} NeverFrozen(events: seq<Event>)
    ensures Harmless(After(events).kernel.answers)
  {
    hide Next;
    if events != [] {
      NeverFrozen(events[..|events| - 1]);
      EventHarmless(After(events[..|events| - 1]), events[|events| - 1]);
    }
  }

  /** The answers to an exec that hand a target over to an injector. */
  function HandOverAnswers(pid: int): seq<Answer> {
    [Cont(pid, 0), Detach(pid, SIGSTOP)]
  }

  /** When a target is handed over: while tracing, with a daemon, and not in a crash loop. */
  predicate HandsOver(m: Monitor, w: World) {
    && m.tracing == TRACING && w.program in {Zygote, Spawner} && w.halted == Stopped(SIGSTOP, 0)
    && DaemonReady(m, w.fork)
    && (w.program == Zygote ==> CountStart(m.abi, w.now).count < CRASH_LOOP_RETRY_COUNT)
  }

  lemma PrepareExactly(m: Monitor, w: World)
    requires w.program in {Zygote, Spawner}
    ensures Prepare(m, w).1 <==>
            DaemonReady(m, w.fork) && (w.program == Zygote ==> CountStart(m.abi, w.now).count < CRASH_LOOP_RETRY_COUNT)
    ensures Prepare(m, w).0.kernel.answers == m.kernel.answers
  {
  }

  /**
   An exec hands its process over exactly then. The process is let go of but stays among the candidates,
   which after every other exec it does not.
   */
  lemma HandedOver(m: Monitor, pid: int, w: World)
    requires Inv(m) && pid in m.process && Possible(m, Child(pid, Stopped(SIGTRAP, EVENT_EXEC), w))
    ensures var n := Next(m, Child(pid, Stopped(SIGTRAP, EVENT_EXEC), w));
            && (n.kernel.answers == m.kernel.answers + HandOverAnswers(pid) <==> HandsOver(m, w))
            && (pid in n.process <==> HandsOver(m, w))
            && (HandsOver(m, w) ==> n.tracing == TRACING && n.abi.daemonRunning && pid !in n.kernel.traced)
  {
    hide Answered;
    var status := Stopped(SIGTRAP, EVENT_EXEC);
    var owing := Report(m, pid, status);
    OnlyTracedStop(m, pid, status);
    ReportOwes(m, pid, status);
    if w.program in {Zygote, Spawner} {
      PrepareExactly(owing, w);
      if m.tracing == TRACING && Prepare(owing, w).1 {
        PrepareKeeps(owing, w);
        var ready := Prepare(owing, w).0;
        HandOver(ready, pid, status, w.halted);
        var a, b := Cont(pid, 0), if w.halted == Stopped(SIGSTOP, 0) then Detach(pid, SIGSTOP) else Detach(pid, 0);
        assert (m.kernel.answers + [a]) + [b] == m.kernel.answers + [a, b];
        assert (m.kernel.answers + [a, b])[|m.kernel.answers| + 1] == b;
      }
    }
  }

  /** A zygote that is found, executes and is handed over: no longer traced, but still a candidate. */
  lemma StaleCandidate()
    ensures var found := World(Zygote, 100, -1, Stopped(SIGSTOP, 0));
            var es := [Forked(7), Child(7, Stopped(SIGTRAP, EVENT_STOP), found),
                       Child(7, Stopped(SIGTRAP, EVENT_EXEC), found.(fork := 9))];
            Run(es) && 7 in After(es).process && 7 !in After(es).kernel.traced
  {
    var found := World(Zygote, 100, -1, Stopped(SIGSTOP, 0));
    var es := [Forked(7), Child(7, Stopped(SIGTRAP, EVENT_STOP), found),
               Child(7, Stopped(SIGTRAP, EVENT_EXEC), found.(fork := 9))];
    assert es[..2] == [es[0], es[1]] && es[..2][..1] == es[..1] == [es[0]] && es[..1][..0] == [];
    assert After([]) == Initial() && Run([]);
    assert After(es[..1]) == Next(Initial(), es[0]) && Run(es[..1]);
    assert After(es[..2]) == Next(After(es[..1]), es[1]) && Run(es[..2]);
  }

  // ----- who the candidates are -----

  /** An event that leaves `pid` a candidate though it is not traced: a hand-over, or the exit of a stranger. */
  predicate LeavesBehind(m: Monitor, e: Event, pid: int) {
    && e.Child? && e.pid == pid && pid != 1 && pid !in m.stubs && !(m.abi.supported && pid == m.abi.daemonPid)
    && if pid in m.process then e.status == Stopped(SIGTRAP, EVENT_EXEC) && HandsOver(m, e.world) else e.status.Gone?
  }

  lemma CandidateStep(m: Monitor, e: Event, pid: int)
    requires Inv(m) && Possible(m, e)
    ensures var n := Next(m, e);
            && (LeavesBehind(m, e, pid) ==> pid in n.process && pid !in n.kernel.traced)
            && (pid in n.process && pid !in n.kernel.traced ==>
                  LeavesBehind(m, e, pid) || (pid in m.process && pid !in m.kernel.traced))
  {
    hide Answered, CountStart;
    if e.Child? {
      if e.pid == pid && pid in m.process && pid != 1 && pid !in m.stubs && e.status.Stopped? {
        ProcessStep(m, pid, e.status, e.world);
      } else if e.pid != pid {
        OthersKept(Report(m, e.pid, e.status), e.pid, e.status, e.world, pid);
      }
    }
  }

  /** A candidate that stops stays one if it is handed over or only acknowledges that it is traced. */
  lemma ProcessStep(m: Monitor, pid: int, status: Status, w: World)
    requires Inv(m) && Possible(m, Child(pid, status, w)) && pid in m.process && status.Stopped?
    ensures var n := Next(m, Child(pid, status, w));
            && (status == Stopped(SIGTRAP, EVENT_EXEC) ==> (pid in n.process <==> HandsOver(m, w)))
            && (pid in n.process && pid !in n.kernel.traced <==>
                  status == Stopped(SIGTRAP, EVENT_EXEC) && HandsOver(m, w))
  {
    hide Answered, CountStart;
    ReportOwes(m, pid, status);
    if status == Stopped(SIGTRAP, EVENT_EXEC) {
      HandedOver(m, pid, w);
    }
  }

  /** What is reported of one process changes nothing about another. */
  lemma OthersKept(m: Monitor, pid: int, status: Status, w: World, other: int)
    requires other != pid
    ensures var n := ChildEvent(m, pid, status, w);
            (other in n.process <==> other in m.process) && (other in n.kernel.traced <==> other in m.kernel.traced)
  {
    hide CountStart;
  }

  /**
   In every run a candidate is traced, or there is an event that left it behind, a hand-over or the exit of
   a process unknown till then, and it has not been traced since.
   */
  lemma {:induction false} CandidateExplained(events: seq<Event>, pid: int) returns (k: nat)
    requires Run(events) && pid in After(events).process
    ensures pid in After(events).kernel.traced ||
            (k < |events| && LeavesBehind(After(events[..k]), events[k], pid) &&
             forall j :: k < j <= |events| ==> pid !in After(events[..j]).kernel.traced)
    decreases |events|
  {
    hide Next, Possible, LeavesBehind, Inv;
    k := 0;
    if events == [] {
      NoCandidates();
    } else if pid !in After(events).kernel.traced {
      var n := |events| - 1;
      var front := events[..n];
      RunsKeepInv(front);
      CandidateStep(After(front), events[n], pid);
      assert events[..n + 1] == events;
      if LeavesBehind(After(front), events[n], pid) {
        k := n;
      } else {
        k := CandidateExplained(front, pid);
        assert front[..k] == events[..k];
        forall j | k < j <= |events|
          ensures pid !in After(events[..j]).kernel.traced
        {
          if j <= n {
            assert front[..j] == events[..j];
          }
        }
      }
    }
  }

  lemma NoCandidates()
    ensures After([]).process == {}
  {
  }

  // ----- crash loops -----

  /** The start counter after starts at these times. */
  function Counted(times: seq<int>): Abi {
    if times == [] then Initial().abi else CountStart(Counted(times[..|times| - 1]), times[|times| - 1])
  }

  /** Each of the last n starts came within the window of the one before. */
  ghost predicate Rapid(times: seq<int>, n: nat) {
    |times| > n && forall i :: |times| - n <= i < |times| ==> times[i] - times[i - 1] < 30
  }

  lemma {:induction false} CountIsRapid(times: seq<int>, n: nat)
    ensures Counted(times).count >= n + 1 <==> Rapid(times, n)
    ensures times != [] ==> Counted(times).lastStart == times[|times| - 1] && Counted(times).count >= 1
    decreases |times|
  {
    if times != [] {
      var front := times[..|times| - 1];
      CountIsRapid(front, 0);
      if n > 0 {
        CountIsRapid(front, n - 1);
        RapidStep(times, n);
      }
    }
  }

  lemma RapidStep(times: seq<int>, n: nat)
    requires times != [] && n > 0
    ensures Rapid(times, n) <==>
            && Rapid(times[..|times| - 1], n - 1) && |times| > 1
            && times[|times| - 1] - times[|times| - 2] < CRASH_LOOP_WINDOW_SECONDS
  {
    var front := times[..|times| - 1];
    if Rapid(times, n) {
      forall i | |front| - (n - 1) <= i < |front|
        ensures front[i] - front[i - 1] < CRASH_LOOP_WINDOW_SECONDS
      {
        assert front[i] == times[i] && front[i - 1] == times[i - 1];
      }
    }
    if Rapid(front, n - 1) && |times| > 1 && times[|times| - 1] - times[|times| - 2] < CRASH_LOOP_WINDOW_SECONDS {
      forall i | |times| - n <= i < |times|
        ensures times[i] - times[i - 1] < CRASH_LOOP_WINDOW_SECONDS
      {
        if i < |front| {
          assert front[i] == times[i] && front[i - 1] == times[i - 1];
        }
      }
    }
  }

  /** Does this event report the start of a zygote that the monitor is to inject into? */
  predicate StartsZygote(m: Monitor, e: Event) {
    && e.Child? && e.status == Stopped(SIGTRAP, EVENT_EXEC) && e.world.program == Zygote && m.tracing == TRACING
    && e.pid in m.process && e.pid != 1 && e.pid !in m.stubs && !(m.abi.supported && e.pid == m.abi.daemonPid)
  }

  /** When zygotes started in a run. */
  function StartTimes(events: seq<Event>): seq<int> {
    if events == [] then []
    else
      var front, last := events[..|events| - 1], events[|events| - 1];
      StartTimes(front) + if StartsZygote(After(front), last) then [last.world.now] else []
  }

  predicate SameCount(a: Abi, b: Abi) {
    a.lastStart == b.lastStart && a.count == b.count
  }

  lemma EventCounts(m: Monitor, e: Event)
    ensures SameCount(Next(m, e).abi, if StartsZygote(m, e) then CountStart(m.abi, e.world.now) else m.abi)
  {
    if e.Child? && e.pid in m.process {
      hide CountStart;
      TracedCounts(Report(m, e.pid, e.status), e.pid, e.status, e.world);
    }
  }

  lemma TracedCounts(m: Monitor, pid: int, status: Status, w: World)
    ensures var starts := status == Stopped(SIGTRAP, EVENT_EXEC) && w.program == Zygote && m.tracing == TRACING;
            SameCount(TracedEvent(m, pid, status, w).abi, if starts then CountStart(m.abi, w.now) else m.abi)
  {
    hide CountStart;
  }

  /** In every run the counter is that of the zygotes' starts. */
  lemma {:induction false} RunCounts(events: seq<Event>)
    ensures SameCount(After(events).abi, Counted(StartTimes(events)))
    decreases |events|
  {
    hide Next, Counted;
    if events == [] {
      NoStarts();
    } else {
      var front, last := events[..|events| - 1], events[|events| - 1];
      RunCounts(front);
      EventCounts(After(front), last);
      if StartsZygote(After(front), last) {
        OneMoreStart(StartTimes(front), last.world.now);
      } else {
        assert StartTimes(events) == StartTimes(front);
      }
    }
  }

  lemma NoStarts()
    ensures Counted([]) == Initial().abi
  {
  }

  lemma OneMoreStart(times: seq<int>, now: int)
    ensures Counted(times + [now]) == CountStart(Counted(times), now)
  {
    assert (times + [now])[..|times|] == times;
  }

  lemma LoopStops(m: Monitor, e: Event)
    requires Inv(m) && Possible(m, e) && StartsZygote(m, e) && Next(m, e).abi.count >= CRASH_LOOP_RETRY_COUNT
    ensures var n := Next(m, e);
            n.tracing == STOPPING && n.kernel.answers == m.kernel.answers + [Detach(e.pid, 0)] && e.pid !in n.process
  {
    hide Answered;
    EventCounts(m, e);
    ReportOwes(m, e.pid, e.status);
  }

  /**
   In every run a zygote's start is taken for a crash loop exactly if each of the last four starts came
   within 30 seconds of the one before. Then tracing is told to stop and the zygote is let go of.
   */
  lemma CrashLoopExactly(events: seq<Event>)
    requires events != [] && Run(events) && StartsZygote(After(events[..|events| - 1]), events[|events| - 1])
    ensures After(events).abi.count >= CRASH_LOOP_RETRY_COUNT <==> Rapid(StartTimes(events), 4)
    ensures var m, n, e := After(events[..|events| - 1]), After(events), events[|events| - 1];
            Rapid(StartTimes(events), 4) ==>
              n.tracing == STOPPING && n.kernel.answers == m.kernel.answers + [Detach(e.pid, 0)] && e.pid !in n.process
  {
    hide Next, Possible, Rapid, StartsZygote, Inv, StartTimes;
    RunCounts(events);
    CountIsRapid(StartTimes(events), 4);
    RunsKeepInv(events[..|events| - 1]);
    if Rapid(StartTimes(events), 4) {
      LoopStops(After(events[..|events| - 1]), events[|events| - 1]);
    }
  }
}
