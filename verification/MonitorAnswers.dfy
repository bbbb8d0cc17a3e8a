/**
 What the monitor makes of each report, said without its handlers: the answers to every stop, complete and
 in order, and what becomes of the sets, the tracing state and the daemon.
 */
module MonitorAnswers {
  import opened MonitorState

  // ----- the answers to one report -----

  /** The signal that a parent is resumed with: none for SIGSTOP, SIGTSTP, SIGTTIN and SIGTTOU, nor a stub's SIGCHLD. */
  function PassedOn(pid: int, sig: int, event: int): int {
    if event != 0 then 0
    else if sig == 19 || sig == 20 || sig == 21 || sig == 22 then 0
    else if sig == 17 && pid != 1 then 0
    else sig
  }

  predicate Parent(m: Monitor, pid: int) {
    pid == 1 || pid in m.stubs
  }

  predicate Daemon(m: Monitor, pid: int) {
    m.abi.supported && pid == m.abi.daemonPid
  }

  predicate Candidate(m: Monitor, pid: int) {
    pid in m.process && !Parent(m, pid) && !Daemon(m, pid)
  }

  /** A program that is to be injected into, and may be now. */
  predicate Injectable(m: Monitor, w: World) {
    && m.tracing == TRACING && w.program in {Zygote, Spawner} && DaemonReady(m, w.fork)
    && (w.program == Zygote ==> CountStart(m.abi, w.now).count < CRASH_LOOP_RETRY_COUNT)
  }

  function ToExec(m: Monitor, pid: int, w: World): seq<Answer> {
    if w.program == StubZygote then [Cont(pid, 0)]
    else if !Injectable(m, w) then [Detach(pid, 0)]
    else
      match w.halted
      case Gone => [Cont(pid, 0)]
      case Stopped(sig, event) => [Cont(pid, 0), Detach(pid, if sig == 19 && event == 0 then 19 else 0)]
  }

  /** Every answer that a report calls for. SIGTRAP is 5; ptrace's events for exec and for stops are 4 and 128. */
  function Expected(m: Monitor, pid: int, status: Status, w: World): seq<Answer> {
    match status
    case Gone => []
    case Stopped(sig, event) =>
      var trapped := sig == 5 && event == 128;
      if pid == 1 && m.tracing == STOPPING && trapped then [Detach(1, 0)]
      else if Parent(m, pid) then [Cont(pid, PassedOn(pid, sig, event))]
      else if !Candidate(m, pid) || trapped then [Cont(pid, 0)]
      else if sig == 5 && event == 4 then ToExec(m, pid, w)
      else [Detach(pid, 0)]
  }

  lemma ToldToExec(m: Monitor, pid: int, w: World)
    requires Inv(m) && Candidate(m, pid) && Possible(m, Child(pid, Stopped(SIGTRAP, EVENT_EXEC), w))
    ensures Next(m, Child(pid, Stopped(SIGTRAP, EVENT_EXEC), w)).kernel.answers == m.kernel.answers + ToExec(m, pid, w)
  {
    hide Answered, CountStart;
    var status := Stopped(SIGTRAP, EVENT_EXEC);
    var owing := Report(m, pid, status);
    OnlyTracedStop(m, pid, status);
    if m.tracing == TRACING && w.program in {Zygote, Spawner} {
      PrepareExactly(owing, w);
      PrepareKeeps(owing, w);
      if Prepare(owing, w).1 {
        var ready := Prepare(owing, w).0;
        HandOver(ready, pid, status, w.halted);
        var a := Cont(pid, 0);
        if w.halted.Stopped? {
          var b := Detach(pid, if w.halted == Stopped(SIGSTOP, 0) then SIGSTOP else 0);
          assert (m.kernel.answers + [a]) + [b] == m.kernel.answers + [a, b];
        }
      }
    }
  }

  /** A report is answered so, and not otherwise. */
  lemma AnswersExactly(m: Monitor, pid: int, status: Status, w: World)
    requires Inv(m) && Possible(m, Child(pid, status, w))
    ensures Next(m, Child(pid, status, w)).kernel.answers == m.kernel.answers + Expected(m, pid, status, w)
  {
    hide Answered, CountStart;
    if status.Gone? {
      StopAnswered(m, pid, status, w);
    } else if Parent(m, pid) {
      ParentTold(m, pid, status);
    } else if Candidate(m, pid) && status == Stopped(SIGTRAP, EVENT_EXEC) {
      ToldToExec(m, pid, w);
    }
  }

  /** What is passed on are the signals that are not kept from a parent. */
  lemma ParentTold(m: Monitor, pid: int, status: Status)
    requires Inv(m) && Parent(m, pid) && status.Stopped? && pid in m.kernel.traced
    ensures var n := ParentEvent(Report(m, pid, status), pid, status);
            n.kernel.answers == m.kernel.answers +
              if pid == 1 && m.tracing == STOPPING && status == Stopped(SIGTRAP, EVENT_STOP) then [Detach(1, 0)]
              else [Cont(pid, PassedOn(pid, status.sig, status.event))]
  {
    hide Answered;
  }

  // ----- over every run -----

  /** The answers that the reports of a run call for. */
  function AllExpected(events: seq<Event>): seq<Answer> {
    if events == [] then []
    else
      var front, last := events[..|events| - 1], events[|events| - 1];
      AllExpected(front) + if last.Child? then Expected(After(front), last.pid, last.status, last.world) else []
  }

  /** In every run the answers given are those called for, all of them and in order. */
  lemma {:induction false} RunAnswers(events: seq<Event>)
    requires Run(events)
    ensures After(events).kernel.answers == AllExpected(events)
    decreases |events|
  {
    hide Next, Possible, Inv, Expected;
    if events == [] {
      NoAnswers();
    } else {
      var front, last := events[..|events| - 1], events[|events| - 1];
      RunAnswers(front);
      RunsKeepInv(front);
      EventAnswers(After(front), last);
    }
  }

  lemma NoAnswers()
    ensures After([]).kernel.answers == []
  {
  }

  lemma EventAnswers(m: Monitor, e: Event)
    requires Inv(m) && Possible(m, e)
    ensures Next(m, e).kernel.answers ==
            m.kernel.answers + if e.Child? then Expected(m, e.pid, e.status, e.world) else []
  {
    hide Answered, Expected;
    if e.Child? {
      AnswersExactly(m, e.pid, e.status, e.world);
    }
  }

  /** The signals, other than ptrace events, that init was reported stopped by. */
  function SentToInit(events: seq<Event>): seq<int> {
    if events == [] then []
    else
      var front, last := events[..|events| - 1], events[|events| - 1];
      SentToInit(front) +
      if last.Child? && last.pid == 1 && last.status.Stopped? && last.status.event == 0 then [last.status.sig] else []
  }

  /** Signals that freeze a process are dropped. */
  function Unfrozen(sigs: seq<int>): seq<int> {
    if sigs == [] then []
    else
      var front, sig := Unfrozen(sigs[..|sigs| - 1]), sigs[|sigs| - 1];
      if sig in {0, SIGSTOP, SIGTSTP, SIGTTIN, SIGTTOU} then front else front + [sig]
  }

  /** The signals that init was resumed with. */
  function Delivered(answers: seq<Answer>): seq<int> {
    if answers == [] then []
    else
      var front, a := Delivered(answers[..|answers| - 1]), answers[|answers| - 1];
      if a.pid == 1 && a.Cont? && a.sig != 0 then front + [a.sig] else front
  }

  lemma DeliveredOne(answers: seq<Answer>, a: Answer)
    ensures Delivered(answers + [a]) ==
            Delivered(answers) + if a.pid == 1 && a.Cont? && a.sig != 0 then [a.sig] else []
  {
    assert (answers + [a])[..|answers|] == answers;
  }

  lemma UnfrozenOne(sigs: seq<int>, sig: int)
    ensures Unfrozen(sigs + [sig]) ==
            Unfrozen(sigs) + if sig in {0, SIGSTOP, SIGTSTP, SIGTTIN, SIGTTOU} then [] else [sig]
  {
    assert (sigs + [sig])[..|sigs|] == sigs;
  }

  lemma DeliveredMore(m: Monitor, answers: seq<Answer>, pid: int, status: Status, w: World)
    ensures Delivered(answers + Expected(m, pid, status, w)) == Delivered(answers) +
            if pid == 1 && status.Stopped? && PassedOn(1, status.sig, status.event) != 0
            then [PassedOn(1, status.sig, status.event)] else []
  {
    hide Delivered, Injectable;
    var more := Expected(m, pid, status, w);
    if |more| == 0 {
      assert answers + more == answers;
    } else if |more| == 1 {
      assert answers + more == answers + [more[0]];
      DeliveredOne(answers, more[0]);
    } else {
      assert answers + more == (answers + [more[0]]) + [more[1]];
      DeliveredOne(answers, more[0]);
      DeliveredOne(answers + [more[0]], more[1]);
    }
  }

  /** In every run init gets the signals that were sent to it, in order, less those that would freeze it. */
  lemma {:induction false} InitSignals(events: seq<Event>)
    requires Run(events)
    ensures Delivered(After(events).kernel.answers) == Unfrozen(SentToInit(events))
    decreases |events|
  {
    hide Next, Possible, Inv, Expected, Delivered, Unfrozen;
    if events == [] {
      NoAnswers();
      NothingDelivered();
    } else {
      var front, last := events[..|events| - 1], events[|events| - 1];
      InitSignals(front);
      RunsKeepInv(front);
      var m := After(front);
      EventAnswers(m, last);
      if last.Child? {
        DeliveredMore(m, m.kernel.answers, last.pid, last.status, last.world);
        if last.pid == 1 && last.status.Stopped? && last.status.event == 0 {
          UnfrozenOne(SentToInit(front), last.status.sig);
        } else {
          assert SentToInit(events) == SentToInit(front);
        }
      } else {
        assert m.kernel.answers + [] == m.kernel.answers && SentToInit(events) == SentToInit(front);
      }
    }
  }

  lemma NothingDelivered()
    ensures Delivered([]) == Unfrozen([]) == []
  {
  }

  // ----- what else a report changes -----

  /** The sets after an event: who becomes a stub or a candidate, and who is one no longer. */
  lemma SetsTold(m: Monitor, e: Event, pid: int)
    requires Inv(m) && Possible(m, e)
    ensures var n, mine := Next(m, e), e.Child? && e.pid == pid;
            var exec := mine && Candidate(m, pid) && e.status == Stopped(SIGTRAP, EVENT_EXEC);
            && (pid in n.stubs <==>
                (exec && e.world.program == StubZygote) || (pid in m.stubs && !(mine && e.status.Gone?)))
            && (pid in n.process <==>
                if pid in m.process
                then !mine || Daemon(m, pid) || e.status == Stopped(SIGTRAP, EVENT_STOP) ||
                     (exec && HandsOver(m, e.world))
                else mine && !Parent(m, pid) && !Daemon(m, pid))
  {
    hide Answered, CountStart;
    if e.Child? {
      if e.pid != pid {
        OthersInSets(Report(m, e.pid, e.status), e.pid, e.status, e.world, pid);
      } else if Candidate(m, pid) && e.status == Stopped(SIGTRAP, EVENT_EXEC) {
        HandedOver(m, pid, e.world);
      }
    }
  }

  lemma OthersInSets(m: Monitor, pid: int, status: Status, w: World, other: int)
    requires other != pid
    ensures var n := ChildEvent(m, pid, status, w);
            (other in n.process <==> other in m.process) && (other in n.stubs <==> other in m.stubs)
  {
    hide CountStart;
  }

  /** Does the event report a target that is to be injected into while tracing? */
  predicate Targets(m: Monitor, e: Event) {
    && e.Child? && Candidate(m, e.pid) && e.status == Stopped(SIGTRAP, EVENT_EXEC) && m.tracing == TRACING
    && e.world.program in {Zygote, Spawner}
  }

  /** Has a zygote just started too often? */
  predicate Loops(m: Monitor, e: Event) {
    Targets(m, e) && e.world.program == Zygote && CountStart(m.abi, e.world.now).count >= CRASH_LOOP_RETRY_COUNT
  }

  /** A daemon is wanted for a target, or by a rearm. */
  predicate WantsDaemon(m: Monitor, e: Event) {
    e.Rearm? || (Targets(m, e) && !Loops(m, e))
  }

  function ForkOf(e: Event): int {
    if e.Rearm? then e.fork else if e.Child? then e.world.fork else -1
  }

  /** Tracing and the daemon after an event. */
  lemma RestTold(m: Monitor, e: Event)
    requires Inv(m) && Possible(m, e)
    ensures var n := Next(m, e);
            var fork := ForkOf(e);
            var started := WantsDaemon(m, e) && m.abi.daemonPid == -1 && fork >= 0;
            var ends := e.Child? && !Parent(m, e.pid) && Daemon(m, e.pid);
            && n.abi.daemonPid == (if ends then -1 else if started then fork else m.abi.daemonPid)
            && (n.abi.daemonRunning <==> started || (m.abi.daemonRunning && !ends && !e.DaemonError?))
            && (n.abi.supported <==> m.abi.supported || started || (e.Rearm? && e.zygotes && DaemonReady(m, fork)))
            && (e.Child? ==>
                  n.tracing ==
                  if e.pid == 1 && m.tracing == STOPPING && e.status == Stopped(SIGTRAP, EVENT_STOP) then STOPPED
                  else if Loops(m, e) || (Targets(m, e) && e.world.program == Zygote && !DaemonReady(m, fork))
                  then STOPPING else m.tracing)
            && (n.abi.injected <==>
                e.ZygoteInjected? || (e.Rearm? && e.zygotes && e.injected && DaemonReady(m, fork)) ||
                (m.abi.injected && !(Targets(m, e) && e.world.program == Zygote && !Loops(m, e))))
  {
    hide Answered, CountStart;
    if e.Child? && Candidate(m, e.pid) {
      TargetTold(Report(m, e.pid, e.status), e.pid, e.status, e.world);
    }
  }

  lemma TargetTold(m: Monitor, pid: int, status: Status, w: World)
    ensures var n := TracedEvent(m, pid, status, w);
            var exec := status == Stopped(SIGTRAP, EVENT_EXEC);
            var targets := exec && m.tracing == TRACING && w.program in {Zygote, Spawner};
            var loops := w.program == Zygote && CountStart(m.abi, w.now).count >= CRASH_LOOP_RETRY_COUNT;
            var started := targets && !loops && m.abi.daemonPid == -1 && w.fork >= 0;
            && n.abi.daemonPid == (if started then w.fork else m.abi.daemonPid)
            && (n.abi.daemonRunning <==> started || m.abi.daemonRunning)
            && (n.abi.supported <==> started || m.abi.supported)
            && n.tracing == (if targets && (loops || (w.program == Zygote && !DaemonReady(m, w.fork))) then STOPPING
                             else m.tracing)
            && n.abi.injected == (m.abi.injected && !(targets && w.program == Zygote && !loops))
  {
  }
}
