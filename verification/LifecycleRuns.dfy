/** What holds in every run of the lifecycle, and two runs that show what does not. */
module LifecycleRuns {
  import opened Lifecycle
  import opened LifecycleProofs

  predicate Safe(s: State) {
    Servers(s) && Signals(s) && Sockets(s) && Closing(s) && Wakeup(s) && Watched(s) && Reported(s)
  }

  lemma SafeStep(s: State, a: Action)
    requires Safe(s) && !s.restarted
    ensures Step(s, a).restarted || Safe(Step(s, a))
  {
    match a
    case OrchStep(ok) => SafeOrch(s, ok);
    case TaskStep(g, ok, fd) => if g < |s.tasks| { SafeTask(s, g, ok, fd); }
    case HandlerStep(ok) => SafeHandler(s, ok);
    case CloserStep(i, ok) => if i < |s.closers| { SafeCloser(s, i, ok); }
    case _ => SafeOther(s, a);
  }

  lemma SafeOrch(s: State, ok: bool)
    requires Safe(s)
    ensures OrchNext(s, ok).restarted || Safe(OrchNext(s, ok))
  {
    ServersOrch(s, ok);
    SignalsOrch(s, ok);
    SocketsOrch(s, ok);
    ClosingOrch(s, ok);
    WakeupOrch(s, ok);
    WatchedOrch(s, ok);
    ReportedOrch(s, ok);
    hide Servers, Signals, Sockets, Closing, Wakeup, Watched, Reported, OrchNext;
  }

  lemma SafeTask(s: State, g: nat, ok: bool, fd: nat)
    requires Safe(s) && g < |s.tasks|
    ensures Safe(TaskNext(s, g, ok, fd))
  {
    TaskFrame(s, g, ok, fd);
    ServersKept(s, TaskNext(s, g, ok, fd));
    SignalsTask(s, g, ok, fd);
    SocketsTask(s, g, ok, fd);
    ClosingTask(s, g, ok, fd);
    WakeupTask(s, g, ok, fd);
    WatchedTask(s, g, ok, fd);
    ReportedTask(s, g, ok, fd);
    hide Servers, Signals, Sockets, Closing, Wakeup, Watched, Reported, TaskNext;
  }

  lemma SafeHandler(s: State, ok: bool)
    requires Safe(s)
    ensures Safe(HandlerNext(s, ok))
  {
    HandlerFrame(s, ok);
    ServersKept(s, HandlerNext(s, ok));
    SignalsKept(s, HandlerNext(s, ok));
    SocketsKept(s, HandlerNext(s, ok));
    ClosingHandler(s, ok);
    WakeupHandler(s, ok);
    WatchedHandler(s, ok);
    ReportedHandler(s, ok);
    hide Servers, Signals, Sockets, Closing, Wakeup, Watched, Reported, HandlerNext;
  }

  lemma SafeCloser(s: State, i: nat, ok: bool)
    requires Safe(s) && i < |s.closers|
    ensures CloserNext(s, i, ok).restarted || Safe(CloserNext(s, i, ok))
  {
    var r := CloserNext(s, i, ok);
    CloserFrame(s, i, ok);
    if !r.restarted {
      ServersKept(s, r);
      SignalsKept(s, r);
      SocketsKept(s, r);
      ClosingCloser(s, i, ok);
      WakeupCloser(s, i, ok);
      WatchedCloser(s, i, ok);
    ReportedCloser(s, i, ok);
    }
    hide Servers, Signals, Sockets, Closing, Wakeup, Watched, Reported, CloserNext;
  }

  lemma SafeOther(s: State, a: Action)
    requires Safe(s)
    ensures Safe(OtherNext(s, a))
  {
    var r := OtherNext(s, a);
    OtherFrame(s, a);
    ServersKept(s, r);
    SocketsOther(s, a);
    ClosingOther(s, a);
    WakeupOther(s, a);
    WatchedOther(s, a);
    ReportedOther(s, a);
    hide Servers, Sockets, Closing, Wakeup, Watched, Reported;
  }

  lemma {:induction false} SafeRun(actions: seq<Action>)
    ensures Run(actions).restarted || Safe(Run(actions))
  {
    if actions != [] {
      var n := |actions| - 1;
      SafeRun(actions[..n]);
      if !Run(actions[..n]).restarted {
        SafeStep(Run(actions[..n]), actions[n]);
      }
    }
  }

  lemma {:induction false} RunOn(before: seq<Action>, after: seq<Action>)
    ensures after != [] ==>
              Run(before + after) == Step(Run(before + after[..|after| - 1]), after[|after| - 1])
    ensures after == [] ==> Run(before + after) == Run(before)
  {
    if after == [] {
      assert before + after == before;
    } else {
      var all := before + after;
      assert all[..|all| - 1] == before + after[..|after| - 1];
    }
  }

  // ----- The main results -----

  /** Between two commands the bits, the handle of the DNS task and the web server tell one story. */
  lemma TopOfLoop(actions: seq<Action>)
    requires Run(actions).orch == Receive && !Run(actions).restarted
    ensures var s := Run(actions);
            && (SERVERS_RUNNING in s.bits <==> DNS_RUNNING in s.bits)
            && (DNS_RUNNING in s.bits <==> s.ctx.dnsTask != -1)
            && (s.ctx.web ==> SERVERS_RUNNING in s.bits)
  {
    SafeRun(actions);
  }

  /** A stop that finds the bit set finds the bit of the DNS task it is stopping, set by that one. */
  lemma StopsItsOwn(actions: seq<Action>)
    requires var s := Run(actions); !s.restarted && s.orch.AwaitStopped? && DNS_STOPPED in s.bits
    ensures var s := Run(actions);
            && 0 <= s.ctx.dnsTask < |s.tasks| && s.past.stoppedBy == s.ctx.dnsTask
            && forall g | 0 <= g < |s.tasks| :: Signalled(s.tasks[g])
  {
    SafeRun(actions);
  }

  /** No descriptor is closed but an open one that a DNS task opened: none twice, none of anybody else. */
  lemma {:induction false} NoStrayClose(actions: seq<Action>)
    ensures !Run(actions).fds.stray
  {
    if actions != [] {
      var n := |actions| - 1;
      NoStrayClose(actions[..n]);
      SafeRun(actions[..n]);
      var s := Run(actions[..n]);
      if !s.restarted {
        SafeStep(s, actions[n]);
        if Step(s, actions[n]).restarted {
          RestartLeavesFds(s, actions[n]);
        }
        hide Step;
      }
    }
  }

  lemma RestartLeavesFds(s: State, a: Action)
    requires Step(s, a).restarted && !s.restarted
    ensures Step(s, a).fds == s.fds
  {
    match a
    case OrchStep(ok) => OrchRestart(s, ok);
    case TaskStep(g, ok, fd) => if g < |s.tasks| { TaskFrame(s, g, ok, fd); }
    case HandlerStep(ok) => HandlerFrame(s, ok);
    case CloserStep(i, ok) => if i < |s.closers| { CloserFrame(s, i, ok); }
    case _ => OtherFrame(s, a);
  }

  lemma OrchRestart(s: State, ok: bool)
    requires OrchNext(s, ok).restarted && !s.restarted
    ensures OrchNext(s, ok).fds == s.fds
  {
  }

  /** The socket of a DNS task is open for as long as it is used. */
  lemma SocketOpenWhileUsed(actions: seq<Action>, g: nat)
    requires var s := Run(actions);
             !s.restarted && s.orch != Hung && g < |s.tasks| && Using(s.tasks[g])
    ensures var s := Run(actions);
            s.tasks[g].sock in s.fds.open && g == s.ctx.dnsTask
  {
    SafeRun(actions);
  }

  /** At most one caller of free_proc() gets past the semaphore. */
  lemma OneShutdown(actions: seq<Action>, i: nat, j: nat)
    requires var s := Run(actions);
             !s.restarted && i < |s.closers| && j < |s.closers| && Passed(s.closers[i]) && Passed(s.closers[j])
    ensures i == j
  {
    SafeRun(actions);
  }

  /** The teardown finds the orchestrator gone and the servers with it. */
  lemma TeardownFindsAllDown(actions: seq<Action>, i: nat)
    requires var s := Run(actions); !s.restarted && i < |s.closers| && s.closers[i] == Teardown
    ensures var s := Run(actions);
            && ORCHESTRATOR_DONE in s.bits && AP_DONE in s.bits
            && s.orch == Exited && Down(s) && SHUTDOWN_SET in s.bits
            && forall g | 0 <= g < |s.tasks| :: Signalled(s.tasks[g])
  {
    SafeRun(actions);
  }

  /** And nothing starts them again. */
  lemma {:induction false} DownForGood(before: seq<Action>, after: seq<Action>)
    requires !Run(before).restarted && ORCHESTRATOR_DONE in Run(before).bits
    ensures var s := Run(before + after);
            Down(s) && s.orch == Exited && (s.restarted || (ORCHESTRATOR_DONE in s.bits && Safe(s)))
    decreases |after|
  {
    RunOn(before, after);
    if after == [] {
      SafeRun(before);
    } else {
      var n := |after| - 1;
      DownForGood(before, after[..n]);
      var s := Run(before + after[..n]);
      if !s.restarted {
        SafeStep(s, after[n]);
        ExitedStays(s, after[n]);
        hide Step, Safe;
      }
    }
  }

  lemma ExitedStays(s: State, a: Action)
    requires s.orch == Exited && Down(s) && ORCHESTRATOR_DONE in s.bits && !s.restarted
    ensures var r := Step(s, a);
            Down(r) && r.orch == Exited && ORCHESTRATOR_DONE in r.bits
  {
    match a
    case OrchStep(ok) =>
    case TaskStep(g, ok, fd) => if g < |s.tasks| { TaskFrame(s, g, ok, fd); }
    case HandlerStep(ok) => HandlerFrame(s, ok);
    case CloserStep(i, ok) => if i < |s.closers| { ExitedCloser(s, i, ok); }
    case _ => OtherFrame(s, a);
  }

  lemma ExitedCloser(s: State, i: nat, ok: bool)
    requires i < |s.closers|
    ensures var r := CloserNext(s, i, ok);
            && r.orch == s.orch && r.ctx.dnsTask == s.ctx.dnsTask && r.ctx.web == s.ctx.web
            && r.bits - {SHUTDOWN_SET} == s.bits - {SHUTDOWN_SET}
  {
  }

  /**
   No lost wakeup: as long as no command was dropped, no station list failed, nothing is shutting
   down, and no Connected event was missed in the orchestrator's window, whoever should be woken is
   being woken.
   */
  lemma NoLostWakeup(actions: seq<Action>)
    requires var s := Run(actions); !s.restarted && Lucky(s)
    ensures Answered(Run(actions))
  {
    SafeRun(actions);
  }

  /** Nothing is under way. */
  predicate Quiet(s: State) {
    s.orch == Receive && s.queue == [] && s.wifi.events == [] && s.wifi.handler == Idle
  }

  /** Once everything has settled, the servers are up exactly when there are stations, with a live DNS task. */
  lemma SettledRight(actions: seq<Action>)
    requires var s := Run(actions); !s.restarted && Lucky(s) && Quiet(s)
    ensures var s := Run(actions);
            && (s.wifi.stations > 0 <==> Up(s))
            && (s.wifi.stations == 0 <==> Down(s))
            && (Up(s) ==> 0 <= s.ctx.dnsTask < |s.tasks| && s.tasks[s.ctx.dnsTask].at != Gone)
  {
    SafeRun(actions);
  }

  /**
   The window is real.  A Connected event handled inside it is lost exactly when it counts as missed,
   that is, when there is a station, no other event is waiting and no START is queued: the servers
   then stop with a station connected.
   */
  lemma MissedIsLost(s: State, answer: bool)
    requires Servers(s) && !s.restarted && s.orch == StopClear && s.wifi.handler == SawJoin
    ensures var r := Step(Step(s, HandlerStep(true)), OrchStep(answer));
            && Stopping(r, ForStop)
            && (!Answered(r) <==> s.wifi.stations > 0 && START !in s.queue && Joined !in s.wifi.events)
            && (r.past.missed <==> s.past.missed || !Answered(r))
  {
  }

  /**
   A restart after an error is on account of a task that has died of one.  It is that task that is
   stopped exactly when no other has been created since; so a task that has not died in error is
   stopped only if it is a successor.
   */
  lemma RestartIsForTheSender(actions: seq<Action>)
    requires var s := Run(actions); !s.restarted && s.orch == MayStop(ForError)
    ensures var s := Run(actions);
            && DiedInError(s.tasks, s.past.sender)
            && (s.ctx.dnsTask == s.past.sender <==> |s.tasks| == s.past.sender + 1)
            && (!DiedInError(s.tasks, s.ctx.dnsTask) ==> s.past.sender < s.ctx.dnsTask)
  {
    SafeRun(actions);
  }

  /** And it is: whichever task's error is received while the DNS server should run, the current one is
      stopped for it, however well it is. */
  lemma LateErrorStopsSuccessor(s: State, first: bool, second: bool)
    requires !s.restarted && s.orch == Receive && s.queue != [] && s.queue[0].DNS_ERROR? && DNS_RUNNING in s.bits
    ensures var r := Step(Step(s, OrchStep(first)), OrchStep(second));
            && r.orch == MayStop(ForError) && r.past.sender == s.queue[0].sender
            && r.ctx.dnsTask == s.ctx.dnsTask && r.tasks == s.tasks
  {
    hide DnsNext;
  }

  // ----- The pause before a restart -----

  /** The restarts of the DNS server after an error since the servers were last started. */
  ghost function RestartsInARow(actions: seq<Action>): nat {
    if actions == [] then 0 else
      var before, a := actions[..|actions| - 1], actions[|actions| - 1];
      var s, n := Run(before), RestartsInARow(before);
      if s.restarted || !a.OrchStep? then n
      else if s.orch == SetRunning then 0
      else if s.orch == ErrCheck && Run(actions).orch == MayStop(ForError) then n + 1
      else n
  }

  /** That is what the error counter counts, in every run. */
  lemma {:induction false} ErrorsAreRestarts(actions: seq<Action>)
    ensures Run(actions).ctx.errors == RestartsInARow(actions)
  {
    if actions != [] {
      var n := |actions| - 1;
      ErrorsAreRestarts(actions[..n]);
      ErrorsStep(Run(actions[..n]), actions[n]);
      hide Step;
    }
  }

  lemma ErrorsStep(s: State, a: Action)
    ensures var r := Step(s, a);
            r.ctx.errors ==
            if s.restarted || !a.OrchStep? then s.ctx.errors
            else if s.orch == SetRunning then 0
            else if s.orch == ErrCheck && r.orch == MayStop(ForError) then s.ctx.errors + 1
            else s.ctx.errors
  {
    match a
    case OrchStep(ok) => OrchErrors(s, ok);
    case TaskStep(g, ok, fd) => if g < |s.tasks| { TaskFrame(s, g, ok, fd); }
    case HandlerStep(ok) => HandlerFrame(s, ok);
    case CloserStep(i, ok) => if i < |s.closers| { CloserErrors(s, i, ok); }
    case _ => OtherFrame(s, a);
  }

  lemma OrchErrors(s: State, ok: bool)
    ensures var r := OrchNext(s, ok);
            r.ctx.errors ==
            if s.orch == SetRunning then 0
            else if s.orch == ErrCheck && r.orch == MayStop(ForError) then s.ctx.errors + 1
            else s.ctx.errors
  {
    DnsErrors(s, ok);
    hide DnsNext;
  }

  lemma DnsErrors(s: State, ok: bool)
    ensures DnsNext(s, ok).ctx.errors == s.ctx.errors
  {
  }

  lemma CloserErrors(s: State, i: nat, ok: bool)
    requires i < |s.closers|
    ensures CloserNext(s, i, ok).ctx.errors == s.ctx.errors
  {
  }

  function Pow2(n: nat): (p: nat)
    ensures p > 0
  {
    if n == 0 then 1 else 2 * Pow2(n - 1)
  }

  /** The delay computed for the n-th error in a row, with the shift capped at 31. */
  function DelaySeconds(errors: nat, max: nat): nat
    requires errors > 0
  {
    var shift := if errors - 1 > 31 then 31 else errors - 1;
    if Pow2(shift) > max then max else Pow2(shift)
  }

  /**
   The pause before the n-th restart in a row doubles from one second up to the maximum, at every
   pause of every run; the cap on the shift never shows.
   */
  lemma PausesDouble(actions: seq<Action>, max: nat)
    requires Run(actions).orch == Delay && !Run(actions).restarted && max <= 0x8000_0000
    ensures var n := RestartsInARow(actions);
            && n > 0 && Run(actions).ctx.errors == n
            && DelaySeconds(Run(actions).ctx.errors, max) == if Pow2(n - 1) > max then max else Pow2(n - 1)
  {
    SafeRun(actions);
    ErrorsAreRestarts(actions);
    assert Run(actions).ctx.errors > 0;
    hide Run, Servers, Signals, Sockets, Closing, Wakeup, Watched, Reported;
    DelayDoubles(Run(actions).ctx.errors, max);
  }

  lemma DelayDoubles(n: nat, max: nat)
    requires n > 0 && max <= 0x8000_0000
    ensures DelaySeconds(n, max) == if Pow2(n - 1) > max then max else Pow2(n - 1)
  {
    Pow2At31();
    if n - 1 > 31 {
      Pow2Grows(31, n - 1);
    }
    hide Pow2;
  }

  lemma Pow2At31()
    ensures Pow2(31) == 0x8000_0000
  {
    assert Pow2(8) == 256 by {
      assert Pow2(4) == 16;
    }
    Pow2Adds(8, 8);
    Pow2Adds(16, 8);
    Pow2Adds(24, 7);
    assert Pow2(7) == 128 by {
      assert Pow2(3) == 8;
    }
  }

  lemma {:induction false} Pow2Adds(a: nat, b: nat)
    ensures Pow2(a + b) == Pow2(a) * Pow2(b)
  {
    if b > 0 {
      Pow2Adds(a, b - 1);
    }
  }

  lemma {:induction false} Pow2Grows(a: nat, b: nat)
    requires a < b
    ensures Pow2(a) < Pow2(b)
  {
    if a + 1 < b {
      Pow2Grows(a, b - 1);
    }
  }

  // ----- Two runs -----

  ghost predicate Reachable(s: State) {
    exists actions :: Run(actions) == s
  }

  lemma ReachableStep(s: State, a: Action)
    requires Reachable(s)
    ensures Reachable(Step(s, a))
  {
    var actions :| Run(actions) == s;
    var longer := actions + [a];
    assert longer[..|longer| - 1] == actions;
    assert Run(longer) == Step(s, a);
  }

  lemma Reaches(s: State, a: Action, r: State)
    requires Reachable(s) && Step(s, a) == r
    ensures Reachable(r)
  {
    ReachableStep(s, a);
  }

  /** A station comes, and the handler asks for a start. */
  lemma Announced(s: State)
    requires Reachable(s) && !s.restarted && s.wifi.events == [] && s.wifi.handler == Idle
    requires SERVERS_RUNNING !in s.bits && SHUTDOWN_SET !in s.bits
    ensures Reachable(s.(wifi := Wifi(s.wifi.stations + 1, [], Idle), queue := s.queue + [START]))
  {
    hide OrchNext, Reachable;
    var n := s.wifi.stations + 1;
    Reaches(s, Join, s.(wifi := Wifi(n, [Joined], Idle)));
    Reaches(s.(wifi := Wifi(n, [Joined], Idle)), HandlerStep(true), s.(wifi := Wifi(n, [], SawJoin)));
    Reaches(s.(wifi := Wifi(n, [], SawJoin)), HandlerStep(true), s.(wifi := Wifi(n, [], JoinCheck)));
    Reaches(s.(wifi := Wifi(n, [], JoinCheck)), HandlerStep(true), s.(wifi := Wifi(n, [], SendStart)));
    Reaches(s.(wifi := Wifi(n, [], SendStart)), HandlerStep(true),
            s.(wifi := Wifi(n, [], Idle), queue := s.queue + [START]));
  }

  /** The last station goes, and the handler asks for a stop. */
  lemma Deserted(s: State)
    requires Reachable(s) && !s.restarted && s.wifi == Wifi(1, [], Idle) && SHUTDOWN_SET !in s.bits
    ensures Reachable(s.(wifi := Wifi(0, [], Idle), queue := s.queue + [STOP]))
  {
    hide OrchNext, Reachable;
    Reaches(s, Leave, s.(wifi := Wifi(0, [Left], Idle)));
    Reaches(s.(wifi := Wifi(0, [Left], Idle)), HandlerStep(true), s.(wifi := Wifi(0, [], SawLeave)));
    Reaches(s.(wifi := Wifi(0, [], SawLeave)), HandlerStep(true), s.(wifi := Wifi(0, [], LeaveCheck)));
    Reaches(s.(wifi := Wifi(0, [], LeaveCheck)), HandlerStep(true), s.(wifi := Wifi(0, [], SendStop)));
    Reaches(s.(wifi := Wifi(0, [], SendStop)), HandlerStep(true),
            s.(wifi := Wifi(0, [], Idle), queue := s.queue + [STOP]));
  }

  /** A START with a station connected brings the servers up. */
  lemma Started(s: State)
    requires Reachable(s) && !s.restarted && s.orch == Receive && s.queue == [START] && s.wifi.stations > 0
    requires s.bits == {} && s.ctx.dnsTask == -1
    ensures Reachable(s.(queue := [], bits := {DNS_RUNNING, SERVERS_RUNNING},
                         tasks := s.tasks + [Task(Fresh, -1, false)],
                         ctx := s.ctx.(dnsTask := |s.tasks|, web := true, errors := 0)))
  {
    hide HandlerNext, Reachable;
    var s0 := s.(queue := []);
    Reaches(s, OrchStep(true), s0.(orch := StartCheck));
    Reaches(s0.(orch := StartCheck), OrchStep(true), s0.(orch := StartCount));
    Reaches(s0.(orch := StartCount), OrchStep(true), s0.(orch := MayStart(ForStart)));
    Reaches(s0.(orch := MayStart(ForStart)), OrchStep(true), s0.(orch := ClearStopped(ForStart)));
    Reaches(s0.(orch := ClearStopped(ForStart)), OrchStep(true), s0.(orch := SetDnsRunning(ForStart)));
    var s1 := s0.(bits := {DNS_RUNNING});
    Reaches(s0.(orch := SetDnsRunning(ForStart)), OrchStep(true), s1.(orch := Create(ForStart)));
    var s2 := s1.(ctx := s.ctx.(dnsTask := |s.tasks|), tasks := s.tasks + [Task(Fresh, -1, false)]);
    Reaches(s1.(orch := Create(ForStart)), OrchStep(true), s2.(orch := StartWeb));
    var s3 := s2.(ctx := s2.ctx.(web := true));
    Reaches(s2.(orch := StartWeb), OrchStep(true), s3.(orch := SetRunning));
    var s4 := s3.(bits := {DNS_RUNNING, SERVERS_RUNNING}, ctx := s3.ctx.(errors := 0));
    Reaches(s3.(orch := SetRunning), OrchStep(true), s4.(orch := LookForShutdown));
    Reaches(s4.(orch := LookForShutdown), OrchStep(true), s4.(orch := Receive));
  }

  /** A STOP with no station connected gets as far as the count. */
  lemma CountedZero(s: State)
    requires Reachable(s) && !s.restarted && s.orch == Receive && s.queue == [STOP] && s.wifi.stations == 0
    requires SERVERS_RUNNING in s.bits
    ensures Reachable(s.(queue := [], orch := StopClear))
  {
    hide HandlerNext, DnsNext, Reachable;
    var s0 := s.(queue := []);
    Reaches(s, OrchStep(true), s0.(orch := StopCheck));
    Reaches(s0.(orch := StopCheck), OrchStep(true), s0.(orch := StopCount));
    Reaches(s0.(orch := StopCount), OrchStep(true), s0.(orch := StopClear));
  }

  /** From there to the wait for the DNS task, */
  lemma Cleared(s: State)
    requires Reachable(s) && !s.restarted && s.orch == StopClear && s.ctx.dnsTask != -1
    ensures Reachable(s.(bits := s.bits - {SERVERS_RUNNING} - {DNS_RUNNING}, ctx := s.ctx.(dnsSocket := -1),
                         orch := AwaitStopped(ForStop, s.ctx.dnsSocket)))
  {
    hide HandlerNext, Reachable;
    var s1 := s.(bits := s.bits - {SERVERS_RUNNING});
    Reaches(s, OrchStep(true), s1.(orch := MayStop(ForStop)));
    Reaches(s1.(orch := MayStop(ForStop)), OrchStep(true), s1.(orch := ClearDnsRunning(ForStop)));
    var s2 := s1.(bits := s1.bits - {DNS_RUNNING});
    Reaches(s1.(orch := ClearDnsRunning(ForStop)), OrchStep(true), s2.(orch := TakeSocket(ForStop)));
    Reaches(s2.(orch := TakeSocket(ForStop)), OrchStep(true),
            s2.(ctx := s.ctx.(dnsSocket := -1), orch := AwaitStopped(ForStop, s.ctx.dnsSocket)));
  }

  /** and from that, once it has said it stopped, back to the queue. */
  lemma Stopped(s: State)
    requires Reachable(s) && !s.restarted && s.orch == AwaitStopped(ForStop, -1) && s.bits == {DNS_STOPPED}
    ensures Reachable(s.(bits := {}, ctx := s.ctx.(dnsTask := -1, web := false), orch := Receive))
  {
    hide HandlerNext, Reachable;
    var s1 := s.(bits := {});
    Reaches(s, OrchStep(true), s1.(orch := CloseSocket(ForStop, -1)));
    Reaches(s1.(orch := CloseSocket(ForStop, -1)), OrchStep(true), s1.(orch := ForgetTask(ForStop)));
    var s2 := s1.(ctx := s.ctx.(dnsTask := -1));
    Reaches(s1.(orch := ForgetTask(ForStop)), OrchStep(true), s2.(orch := StopWeb(ForStop)));
    var s3 := s2.(ctx := s2.ctx.(web := false));
    Reaches(s2.(orch := StopWeb(ForStop)), OrchStep(true), s3.(orch := LookForShutdown));
    Reaches(s3.(orch := LookForShutdown), OrchStep(true), s3.(orch := Receive));
  }

  /** One station is connected and everything has settled; the DNS task has yet to take its first step. */
  function Served(): State {
    Init().(bits := {DNS_RUNNING, SERVERS_RUNNING}, ctx := Ctx(0, -1, true, true, 0), tasks := [Task(Fresh, -1, false)],
            wifi := Wifi(1, [], Idle))
  }

  lemma ServedReachable()
    ensures Reachable(Served())
  {
    assert Run([]) == Init();
    Announced(Init());
    Started(Init().(wifi := Wifi(1, [], Idle), queue := [START]));
  }

  /** The station has gone, the orchestrator has counted zero, and the station is back. */
  function InTheWindow(): State {
    Served().(wifi := Wifi(1, [], SawJoin), orch := StopClear)
  }

  lemma WindowReachable()
    ensures Reachable(InTheWindow())
  {
    ServedReachable();
    hide Reachable;
    var s := Served();
    Deserted(s);
    assert s.queue + [STOP] == [STOP];
    CountedZero(s.(wifi := Wifi(0, [], Idle), queue := [STOP]));
    var s1 := s.(wifi := Wifi(0, [], Idle), orch := StopClear);
    Reaches(s1, Join, s1.(wifi := Wifi(1, [Joined], Idle)));
    Reaches(s1.(wifi := Wifi(1, [Joined], Idle)), HandlerStep(true), InTheWindow());
  }

  /** Everything has settled, a station is connected, and the servers are down. */
  function Forgotten(): State {
    Init().(ctx := Ctx(-1, -1, false, true, 0), tasks := [Task(Gone, -1, false)], wifi := Wifi(1, [], Idle),
            past := Past(0, false, false, true, -1))
  }

  lemma WakeupCanBeLost()
    ensures Reachable(Forgotten()) && Quiet(Forgotten()) && Forgotten().wifi.stations == 1 && Down(Forgotten())
  {
    WindowReachable();
    hide Reachable;
    var s := InTheWindow();
    var s1 := s.(wifi := Wifi(1, [], Idle), past := s.past.(missed := true));
    Reaches(s, HandlerStep(true), s1);
    Cleared(s1);
    var s2 := s1.(bits := {}, orch := AwaitStopped(ForStop, -1));
    assert s1.bits - {SERVERS_RUNNING} - {DNS_RUNNING} == {};
    Reaches(s2, TaskStep(0, true, 0), s2.(tasks := [Task(Cleanup, -1, false)]));
    var s3 := s2.(tasks := [Task(Gone, -1, false)], bits := {DNS_STOPPED}, past := Past(0, false, false, true, -1));
    Reaches(s2.(tasks := [Task(Cleanup, -1, false)]), TaskStep(0, true, 0), s3);
    Stopped(s3);
  }

  /** A DNS task has failed and said it stopped, and has not told the orchestrator why yet. */
  function Failed(): State {
    Served().(bits := {DNS_RUNNING, SERVERS_RUNNING, DNS_STOPPED}, tasks := [Task(Report, -1, true)],
              past := Past(0, false, false, false, -1))
  }

  lemma FailedReachable()
    ensures Reachable(Failed())
  {
    ServedReachable();
    hide Reachable;
    var s := Served();
    Reaches(s, TaskStep(0, true, 0), s.(tasks := [Task(Open, -1, false)]));
    Reaches(s.(tasks := [Task(Open, -1, false)]), TaskStep(0, false, 0), s.(tasks := [Task(Cleanup, -1, true)]));
    Reaches(s.(tasks := [Task(Cleanup, -1, true)]), TaskStep(0, true, 0), Failed());
  }

  /** The servers were stopped and started again meanwhile: a second DNS task is there. */
  function Replaced(second: Task): State {
    Served().(tasks := [Task(Report, -1, true), second], ctx := Ctx(1, -1, true, true, 0),
              past := Past(0, false, false, false, -1))
  }

  lemma ReplacedReachable()
    ensures Reachable(Replaced(Task(Fresh, -1, false)))
  {
    FailedReachable();
    hide Reachable;
    var s := Failed();
    Deserted(s);
    assert s.queue + [STOP] == [STOP];
    CountedZero(s.(wifi := Wifi(0, [], Idle), queue := [STOP]));
    var s1 := s.(wifi := Wifi(0, [], Idle), orch := StopClear);
    Cleared(s1);
    assert s1.bits - {SERVERS_RUNNING} - {DNS_RUNNING} == {DNS_STOPPED};
    Stopped(s1.(bits := {DNS_STOPPED}, orch := AwaitStopped(ForStop, -1)));
    var s2 := s1.(bits := {}, ctx := Ctx(-1, -1, false, true, 0), orch := Receive);
    Announced(s2);
    assert s2.queue + [START] == [START];
    Started(s2.(wifi := Wifi(1, [], Idle), queue := [START]));
    assert s2.tasks + [Task(Fresh, -1, false)] == [Task(Report, -1, true), Task(Fresh, -1, false)];
  }

  /** The second task is serving, and the error of the first makes the orchestrator stop it. */
  function StoppedForAnother(): State {
    Replaced(Task(Loop, 5, false)).(
      tasks := [Task(Gone, -1, true), Task(Loop, 5, false)], ctx := Ctx(1, 5, true, true, 1),
      fds := Fds({5}, {5}, false),
      past := Past(0, false, false, false, 0), orch := MayStop(ForError))
  }

  lemma HealthyTaskCanBeStopped()
    ensures Reachable(StoppedForAnother())
    ensures var s := StoppedForAnother();
            s.tasks[s.ctx.dnsTask].at == Loop && !s.tasks[s.ctx.dnsTask].err && s.orch == MayStop(ForError)
  {
    ReplacedReachable();
    hide Reachable;
    var first, inUse := Task(Report, -1, true), Fds({5}, {5}, false);
    var s := Replaced(Task(Fresh, -1, false));
    Reaches(s, TaskStep(1, true, 5), s.(tasks := [first, Task(Open, -1, false)]));
    var s1 := s.(fds := inUse);
    Reaches(s.(tasks := [first, Task(Open, -1, false)]), TaskStep(1, true, 5),
            s1.(tasks := [first, Task(Publish, 5, false)]));
    var s2 := s1.(ctx := Ctx(1, 5, true, true, 0));
    Reaches(s1.(tasks := [first, Task(Publish, 5, false)]), TaskStep(1, true, 5),
            s2.(tasks := [first, Task(Bind, 5, false)]));
    Reaches(s2.(tasks := [first, Task(Bind, 5, false)]), TaskStep(1, true, 5),
            s2.(tasks := [first, Task(Loop, 5, false)]));
    StaleReport(s2.(tasks := [first, Task(Loop, 5, false)]));
  }

  lemma StaleReport(s: State)
    requires Reachable(s) && !s.restarted && s.orch == Receive && s.queue == [] && DNS_RUNNING in s.bits
    requires |s.tasks| == 2 && s.tasks[0] == Task(Report, -1, true)
    ensures Reachable(s.(tasks := [Task(Gone, -1, true), s.tasks[1]], orch := MayStop(ForError),
                         ctx := s.ctx.(errors := s.ctx.errors + 1), past := s.past.(sender := 0)))
  {
    hide Reachable, HandlerNext;
    var second := s.tasks[1];
    Reaches(s, TaskStep(0, true, 0), s.(tasks := [Task(Send, -1, true), second]));
    var s1 := s.(tasks := [Task(Gone, -1, true), second]);
    Reaches(s.(tasks := [Task(Send, -1, true), second]), TaskStep(0, true, 0), s1.(queue := [DNS_ERROR(0)]));
    var s2 := s1.(past := s.past.(sender := 0));
    Reaches(s1.(queue := [DNS_ERROR(0)]), OrchStep(true), s2.(orch := ErrCheck));
    Reaches(s2.(orch := ErrCheck), OrchStep(true),
            s2.(orch := MayStop(ForError), ctx := s.ctx.(errors := s.ctx.errors + 1)));
  }
}
