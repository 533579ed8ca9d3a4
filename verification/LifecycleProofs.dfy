/** What every run of the lifecycle keeps. */
module LifecycleProofs {
  import opened Lifecycle

  // ----- What the parties other than the orchestrator leave alone -----

  predicate OrchKept(s: State, r: State) {
    && r.orch == s.orch && r.restarted == s.restarted && |r.tasks| == |s.tasks|
    && (SERVERS_RUNNING in r.bits <==> SERVERS_RUNNING in s.bits)
    && (DNS_RUNNING in r.bits <==> DNS_RUNNING in s.bits)
    && (ORCHESTRATOR_DONE in r.bits <==> ORCHESTRATOR_DONE in s.bits)
    && r.ctx.dnsTask == s.ctx.dnsTask && r.ctx.web == s.ctx.web && r.ctx.errors == s.ctx.errors
  }

  predicate WifiKept(s: State, r: State) {
    r.wifi == s.wifi && r.past.listFailed == s.past.listFailed && r.past.missed == s.past.missed
  }

  predicate ClosingKept(s: State, r: State) {
    && r.closers == s.closers && r.ctx.sem == s.ctx.sem
    && (SHUTDOWN_SET in r.bits <==> SHUTDOWN_SET in s.bits) && (AP_DONE in r.bits <==> AP_DONE in s.bits)
  }

  predicate DnsKept(s: State, r: State) {
    && r.tasks == s.tasks && r.fds == s.fds && r.ctx.dnsSocket == s.ctx.dnsSocket
    && (DNS_STOPPED in r.bits <==> DNS_STOPPED in s.bits) && r.past.stoppedBy == s.past.stoppedBy
  }

  lemma TaskFrame(s: State, g: nat, ok: bool, fd: nat)
    requires g < |s.tasks|
    ensures var r := TaskNext(s, g, ok, fd);
            OrchKept(s, r) && WifiKept(s, r) && ClosingKept(s, r)
    ensures forall i | 0 <= i < |s.tasks| && i != g :: TaskNext(s, g, ok, fd).tasks[i] == s.tasks[i]
  {
  }

  lemma HandlerFrame(s: State, ok: bool)
    ensures var r := HandlerNext(s, ok);
            OrchKept(s, r) && ClosingKept(s, r) && DnsKept(s, r)
  {
    HandlerLeavesOrch(s, ok);
    HandlerLeavesRest(s, ok);
    hide HandlerNext;
  }

  lemma HandlerLeavesOrch(s: State, ok: bool)
    ensures OrchKept(s, HandlerNext(s, ok))
  {
  }

  lemma HandlerLeavesRest(s: State, ok: bool)
    ensures ClosingKept(s, HandlerNext(s, ok)) && DnsKept(s, HandlerNext(s, ok))
  {
  }

  lemma HandlerQueue(s: State, ok: bool)
    ensures var r := HandlerNext(s, ok);
            && (r.queue == s.queue || r.queue == s.queue + [START] || r.queue == s.queue + [STOP])
            && r.past.sender == s.past.sender && (r.past.dropped || !s.past.dropped)
  {
  }

  lemma CloserFrame(s: State, i: nat, ok: bool)
    requires i < |s.closers|
    ensures var r := CloserNext(s, i, ok);
            (r.restarted || OrchKept(s, r)) && WifiKept(s, r) && DnsKept(s, r) && r.past == s.past
  {
  }

  lemma OtherFrame(s: State, a: Action)
    ensures var r := OtherNext(s, a);
            OrchKept(s, r) && r.queue == s.queue && r.past == s.past && r.tasks == s.tasks
    ensures a.OtherOpen? || a.OtherClose? || DnsKept(s, OtherNext(s, a))
  {
  }

  // ----- The servers as the orchestrator sees them -----

  predicate Up(s: State) {
    SERVERS_RUNNING in s.bits && DNS_RUNNING in s.bits && s.ctx.dnsTask != -1
  }

  predicate Down(s: State) {
    SERVERS_RUNNING !in s.bits && DNS_RUNNING !in s.bits && s.ctx.dnsTask == -1 && !s.ctx.web
  }

  /** Nothing of the DNS server is there; the web server goes with the servers' bit. */
  predicate Without(s: State, why: Why) {
    && s.ctx.dnsTask == -1
    && ((why == ForStart && SERVERS_RUNNING !in s.bits && !s.ctx.web)
        || (why == ForError && SERVERS_RUNNING in s.bits && s.ctx.errors > 0))
  }

  predicate Stopping(s: State, why: Why) {
    && why != ForStart && s.ctx.dnsTask != -1 && (SERVERS_RUNNING in s.bits <==> why == ForError)
    && (why == ForError ==> s.ctx.errors > 0)
  }

  /** At every point of the orchestrator: which of the bits, the DNS task and the web server are there. */
  predicate Servers(s: State) {
    && (s.ctx.dnsTask == -1 || s.ctx.dnsTask == |s.tasks| - 1)
    && match s.orch
       case StartCount | SetDone | Exited => Down(s)
       case StopCount | StopClear | ExitClear => Up(s)
       case MayStart(why) => Without(s, why) && DNS_RUNNING !in s.bits
       case ClearStopped(why) => Without(s, why) && DNS_RUNNING !in s.bits
       case SetDnsRunning(why) => Without(s, why) && DNS_RUNNING !in s.bits
       case Create(why) => Without(s, why) && DNS_RUNNING in s.bits
       case StartWeb | SetRunning => SERVERS_RUNNING !in s.bits && DNS_RUNNING in s.bits && s.ctx.dnsTask != -1
       case MayStop(why) => Stopping(s, why) && DNS_RUNNING in s.bits
       case ClearDnsRunning(why) => Stopping(s, why) && DNS_RUNNING in s.bits
       case TakeSocket(why) => Stopping(s, why) && DNS_RUNNING !in s.bits
       case AwaitStopped(why, _) => Stopping(s, why) && DNS_RUNNING !in s.bits
       case CloseSocket(why, _) => Stopping(s, why) && DNS_RUNNING !in s.bits
       case ForgetTask(why) => Stopping(s, why) && DNS_RUNNING !in s.bits
       case Delay => SERVERS_RUNNING in s.bits && DNS_RUNNING !in s.bits && s.ctx.dnsTask == -1 && s.ctx.errors > 0
       case StopWeb(why) =>
         && (why == ForStop || why == ForExit)
         && SERVERS_RUNNING !in s.bits && DNS_RUNNING !in s.bits && s.ctx.dnsTask == -1
       case Hung => true
       case _ => Up(s) || Down(s)
  }

  lemma ServersOrch(s: State, ok: bool)
    requires Servers(s)
    ensures OrchNext(s, ok).restarted || Servers(OrchNext(s, ok))
  {
    hide DnsNext;
    if OrchNext(s, ok) == DnsNext(s, ok) {
      ServersDns(s, ok);
    }
  }

  lemma ServersDns(s: State, ok: bool)
    requires Servers(s)
    ensures DnsNext(s, ok).restarted || Servers(DnsNext(s, ok))
  {
  }

  lemma ServersKept(s: State, r: State)
    requires Servers(s) && OrchKept(s, r)
    ensures Servers(r)
  {
  }

  // ----- The bit by which a DNS task says it stopped -----

  predicate Signalled(t: Task) {
    t.at == Report || t.at == Send || t.at == Gone
  }

  predicate Consumed(o: Orch) {
    o.CloseSocket? || o.ForgetTask?
  }

  /** Only the current task has yet to say it stopped, and a set bit is that task's own. */
  predicate Signals(s: State) {
    && (forall g: int | 0 <= g < |s.tasks| && g != s.ctx.dnsTask :: Signalled(s.tasks[g]))
    && (DNS_STOPPED in s.bits || Consumed(s.orch) ==>
        0 <= s.ctx.dnsTask < |s.tasks| && Signalled(s.tasks[s.ctx.dnsTask]))
    && (DNS_STOPPED in s.bits ==> s.past.stoppedBy == s.ctx.dnsTask && !Consumed(s.orch))
  }

  lemma SignalsOrch(s: State, ok: bool)
    requires Servers(s) && Signals(s)
    ensures OrchNext(s, ok).restarted || Signals(OrchNext(s, ok))
  {
    hide DnsNext;
    if OrchNext(s, ok) == DnsNext(s, ok) {
      SignalsDns(s, ok);
    }
  }

  lemma SignalsDns(s: State, ok: bool)
    requires Servers(s) && Signals(s)
    ensures DnsNext(s, ok).restarted || Signals(DnsNext(s, ok))
  {
  }

  lemma SignalsTask(s: State, g: nat, ok: bool, fd: nat)
    requires Signals(s) && g < |s.tasks|
    ensures Signals(TaskNext(s, g, ok, fd))
  {
    TaskFrame(s, g, ok, fd);
  }

  lemma SignalsKept(s: State, r: State)
    requires Signals(s) && OrchKept(s, r) && DnsKept(s, r)
    ensures Signals(r)
  {
  }

  // ----- The sockets -----

  predicate Using(t: Task) {
    t.at == Publish || t.at == Bind || t.at == Loop || t.at == Recv || t.at == RecvFailed
  }

  /** The descriptor that stop_dns_server() has taken and not closed yet. */
  function Held(o: Orch): int {
    if o.AwaitStopped? || o.CloseSocket? then o.sock else -1
  }

  /** Every way to reach a close() leads to a socket a DNS task opened; a task's own stays open as it is used. */
  predicate Sockets(s: State) {
    && s.fds.dns <= s.fds.open && -1 !in s.fds.dns && !s.fds.stray
    && (s.ctx.dnsSocket == -1 || s.ctx.dnsSocket in s.fds.dns)
    && (Held(s.orch) == -1 || (Held(s.orch) in s.fds.dns && Held(s.orch) != s.ctx.dnsSocket))
    && Unpublished(s.tasks, s.fds.dns, s.ctx.dnsSocket, Held(s.orch))
    && (s.orch != Hung ==> InUse(s.tasks, s.fds.dns))
  }

  predicate Unpublished(tasks: seq<Task>, dns: set<int>, published: int, held: int) {
    forall g | 0 <= g < |tasks| && tasks[g].at == Publish ::
      tasks[g].sock in dns && tasks[g].sock != published && tasks[g].sock != held
  }

  predicate InUse(tasks: seq<Task>, dns: set<int>) {
    forall g | 0 <= g < |tasks| && Using(tasks[g]) :: tasks[g].sock in dns
  }

  lemma SocketsOrch(s: State, ok: bool)
    requires Signals(s) && Sockets(s)
    ensures OrchNext(s, ok).restarted || Sockets(OrchNext(s, ok))
  {
    hide DnsNext;
    if OrchNext(s, ok) == DnsNext(s, ok) {
      SocketsDns(s, ok);
    }
  }

  lemma SocketsDns(s: State, ok: bool)
    requires Signals(s) && Sockets(s)
    ensures DnsNext(s, ok).restarted || Sockets(DnsNext(s, ok))
  {
  }

  lemma SocketsTask(s: State, g: nat, ok: bool, fd: nat)
    requires Signals(s) && Sockets(s) && g < |s.tasks|
    ensures Sockets(TaskNext(s, g, ok, fd))
  {
    TaskFrame(s, g, ok, fd);
    if s.orch != Hung {
      InUseTask(s, g, ok, fd);
    }
    UnpublishedTask(s, g, ok, fd);
    hide Signals, InUse, Unpublished;
  }

  lemma InUseTask(s: State, g: nat, ok: bool, fd: nat)
    requires g < |s.tasks| && InUse(s.tasks, s.fds.dns)
    ensures InUse(TaskNext(s, g, ok, fd).tasks, TaskNext(s, g, ok, fd).fds.dns)
  {
    var r := TaskNext(s, g, ok, fd);
    TaskFrame(s, g, ok, fd);
    forall i | 0 <= i < |r.tasks| && Using(r.tasks[i]) ensures r.tasks[i].sock in r.fds.dns {
      assert i != g ==> r.tasks[i] == s.tasks[i];
    }
  }

  lemma UnpublishedTask(s: State, g: nat, ok: bool, fd: nat)
    requires Signals(s) && Sockets(s) && g < |s.tasks|
    ensures var r := TaskNext(s, g, ok, fd);
            Unpublished(r.tasks, r.fds.dns, r.ctx.dnsSocket, Held(r.orch))
  {
    var r := TaskNext(s, g, ok, fd);
    TaskFrame(s, g, ok, fd);
    if s.tasks[g].at == Publish {
      OnlyOneUnsignalled(s, g);
    }
    hide Signals;
    forall i | 0 <= i < |r.tasks| && r.tasks[i].at == Publish
      ensures r.tasks[i].sock in r.fds.dns && r.tasks[i].sock != r.ctx.dnsSocket && r.tasks[i].sock != Held(r.orch)
    {
      assert i != g ==> r.tasks[i] == s.tasks[i];
    }
  }

  lemma OnlyOneUnsignalled(s: State, g: nat)
    requires Signals(s) && g < |s.tasks| && !Signalled(s.tasks[g])
    ensures forall i | 0 <= i < |s.tasks| && i != g :: Signalled(s.tasks[i])
  {
  }

  lemma SocketsKept(s: State, r: State)
    requires Sockets(s) && OrchKept(s, r) && DnsKept(s, r)
    ensures Sockets(r)
  {
  }

  lemma SocketsOther(s: State, a: Action)
    requires Sockets(s)
    ensures Sockets(OtherNext(s, a))
  {
    OtherFrame(s, a);
  }

  // ----- Shutting down -----

  predicate Passed(c: Closer) {
    c != Try && c != Refused
  }

  predicate Leaving(o: Orch) {
    match o
    case ExitCheck | ExitClear | SetDone | Exited => true
    case MayStop(why) => why == ForExit
    case ClearDnsRunning(why) => why == ForExit
    case TakeSocket(why) => why == ForExit
    case AwaitStopped(why, _) => why == ForExit
    case CloseSocket(why, _) => why == ForExit
    case ForgetTask(why) => why == ForExit
    case StopWeb(why) => why == ForExit
    case _ => false
  }

  /** One caller at most gets past the semaphore, and only then does anything shut down. */
  predicate Callers(closers: seq<Closer>, sem: bool, shutdown: bool, bothDone: bool) {
    && (forall i, j | 0 <= i < j < |closers| :: !Passed(closers[i]) || !Passed(closers[j]))
    && (sem ==> !shutdown && forall i | 0 <= i < |closers| :: !Passed(closers[i]))
    && (forall i | 0 <= i < |closers| :: closers[i] == Teardown ==> bothDone)
    && (forall i | 0 <= i < |closers| :: Passed(closers[i]) && closers[i] != SetShutdown ==> shutdown)
  }

  predicate Closing(s: State) {
    && Callers(s.closers, s.ctx.sem, SHUTDOWN_SET in s.bits, ORCHESTRATOR_DONE in s.bits && AP_DONE in s.bits)
    && (SHUTDOWN in s.queue || Leaving(s.orch) ==> SHUTDOWN_SET in s.bits)
    && (ORCHESTRATOR_DONE in s.bits ==> s.orch == Exited)
  }

  lemma CallersOnceDone(closers: seq<Closer>, sem: bool, shutdown: bool, was: bool, now: bool)
    requires Callers(closers, sem, shutdown, was) && (was ==> now)
    ensures Callers(closers, sem, shutdown, now)
  {
  }

  lemma ClosingOrch(s: State, ok: bool)
    requires Closing(s)
    ensures OrchNext(s, ok).restarted || Closing(OrchNext(s, ok))
  {
    hide Callers;
    var r := OrchNext(s, ok);
    if s.orch == Receive {
      hide Leaving;
      assert s.queue != [] ==> s.queue[0] in s.queue && forall c | c in s.queue[1..] :: c in s.queue;
      assert Leaving(r.orch) ==> r.orch == ExitCheck;
    } else if s.orch == SetDone {
      CallersOnceDone(s.closers, s.ctx.sem, SHUTDOWN_SET in s.bits,
                      ORCHESTRATOR_DONE in s.bits && AP_DONE in s.bits, AP_DONE in r.bits);
    } else if s.orch != Exited {
      OrchQueue(s, ok);
      LeavingOrch(s, ok);
      DoneOrch(s, ok);
      hide OrchNext, Leaving;
    }
  }

  lemma OrchQueue(s: State, ok: bool)
    requires s.orch != Receive
    ensures var r := OrchNext(s, ok);
            && r.queue == s.queue && r.closers == s.closers && r.ctx.sem == s.ctx.sem
            && (SHUTDOWN_SET in r.bits <==> SHUTDOWN_SET in s.bits)
  {
  }

  lemma LeavingOrch(s: State, ok: bool)
    requires s.orch != Receive
    ensures Leaving(OrchNext(s, ok).orch) ==> Leaving(s.orch) || SHUTDOWN_SET in s.bits
  {
  }

  lemma DoneOrch(s: State, ok: bool)
    requires s.orch != SetDone
    ensures var r := OrchNext(s, ok);
            (AP_DONE in r.bits <==> AP_DONE in s.bits) && (ORCHESTRATOR_DONE in r.bits <==> ORCHESTRATOR_DONE in s.bits)
  {
    hide DnsNext;
    DoneDns(s, ok);
  }

  lemma DoneDns(s: State, ok: bool)
    ensures var r := DnsNext(s, ok);
            (AP_DONE in r.bits <==> AP_DONE in s.bits) && (ORCHESTRATOR_DONE in r.bits <==> ORCHESTRATOR_DONE in s.bits)
  {
  }

  lemma ClosingTask(s: State, g: nat, ok: bool, fd: nat)
    requires Closing(s) && g < |s.tasks|
    ensures Closing(TaskNext(s, g, ok, fd))
  {
    TaskFrame(s, g, ok, fd);
    hide Callers, Leaving;
  }

  lemma ClosingHandler(s: State, ok: bool)
    requires Closing(s)
    ensures Closing(HandlerNext(s, ok))
  {
    HandlerFrame(s, ok);
    hide Callers, Leaving;
  }

  lemma ClosingCloser(s: State, i: nat, ok: bool)
    requires Closing(s) && i < |s.closers|
    ensures CloserNext(s, i, ok).restarted || Closing(CloserNext(s, i, ok))
  {
    CloserFrame(s, i, ok);
    hide Leaving;
  }

  lemma ClosingOther(s: State, a: Action)
    requires Closing(s)
    ensures Closing(OtherNext(s, a))
  {
    OtherFrame(s, a);
    hide Leaving;
  }

  // ----- Joining and leaving stations -----

  /** No command was dropped, every station list could be read, no shutdown, and no START was missed. */
  predicate Lucky(s: State) {
    !s.past.dropped && !s.past.listFailed && !s.past.missed && SHUTDOWN_SET !in s.bits
  }

  predicate StartComing(s: State) {
    || START in s.queue || Joined in s.wifi.events
    || s.wifi.handler == SawJoin || s.wifi.handler == JoinCheck || s.wifi.handler == SendStart
  }

  predicate StopComing(s: State) {
    || STOP in s.queue || Left in s.wifi.events
    || s.wifi.handler == SawLeave || s.wifi.handler == LeaveCheck || s.wifi.handler == SendStop
  }

  /** The orchestrator is past the count of a START and will set the bit. */
  predicate WillRun(o: Orch) {
    match o
    case StartWeb | SetRunning => true
    case MayStart(why) => why == ForStart
    case ClearStopped(why) => why == ForStart
    case SetDnsRunning(why) => why == ForStart
    case Create(why) => why == ForStart
    case _ => false
  }

  predicate Starting(o: Orch) {
    o == StartCheck || o == StartCount || WillRun(o)
  }

  predicate Deciding(o: Orch) {
    o == StopCheck || o == StopCount || o == StopClear
  }

  /** Stations with the servers down are answered by a START under way, servers without stations by a STOP. */
  predicate Answered(s: State) {
    && (s.wifi.stations > 0 && (SERVERS_RUNNING !in s.bits || s.orch == StopClear) ==>
        StartComing(s) || Starting(s.orch))
    && (s.wifi.stations == 0 && (SERVERS_RUNNING in s.bits || WillRun(s.orch)) ==> StopComing(s) || Deciding(s.orch))
  }

  predicate Wakeup(s: State) {
    Lucky(s) ==> Answered(s)
  }

  lemma WakeupReceive(s: State, ok: bool)
    requires Servers(s) && Wakeup(s) && s.orch == Receive
    ensures Wakeup(OrchNext(s, ok))
  {
    if s.queue != [] {
      assert s.queue == [s.queue[0]] + s.queue[1..];
      assert forall c | c in s.queue :: c == s.queue[0] || c in s.queue[1..];
    }
  }

  lemma WakeupOrch(s: State, ok: bool)
    requires Servers(s) && Closing(s) && Wakeup(s)
    ensures OrchNext(s, ok).restarted || Wakeup(OrchNext(s, ok))
  {
    if s.orch == Receive {
      WakeupReceive(s, ok);
    } else if OrchNext(s, ok) == DnsNext(s, ok) {
      WakeupDns(s, ok);
    } else {
      OrchQueue(s, ok);
      OrchWifi(s, ok);
      hide DnsNext, Callers;
    }
  }

  lemma OrchWifi(s: State, ok: bool)
    ensures var r := OrchNext(s, ok);
            r.wifi == s.wifi && (Lucky(r) ==> Lucky(s))
  {
    hide DnsNext;
    DnsWifi(s, ok);
  }

  lemma DnsWifi(s: State, ok: bool)
    ensures var r := DnsNext(s, ok);
            r.wifi == s.wifi && r.past == s.past && (SHUTDOWN_SET in r.bits <==> SHUTDOWN_SET in s.bits)
  {
  }

  lemma WakeupDns(s: State, ok: bool)
    requires Servers(s) && Wakeup(s)
    ensures DnsNext(s, ok).restarted || Wakeup(DnsNext(s, ok))
  {
  }

  lemma WakeupHandler(s: State, ok: bool)
    requires Servers(s) && Wakeup(s)
    ensures Wakeup(HandlerNext(s, ok))
  {
    hide WillRun;
    if s.wifi.handler == Idle {
      hide Servers;
      if s.wifi.events != [] {
        assert s.wifi.events == [s.wifi.events[0]] + s.wifi.events[1..];
        assert forall e | e in s.wifi.events :: e == s.wifi.events[0] || e in s.wifi.events[1..];
      }
    } else if s.wifi.handler == SawJoin {
      hide Servers;
    } else if s.wifi.handler == SawLeave {
      hide Servers;
    } else {
      HandlerFrame(s, ok);
      hide Servers;
    }
  }

  lemma WakeupTask(s: State, g: nat, ok: bool, fd: nat)
    requires Wakeup(s) && g < |s.tasks|
    ensures Wakeup(TaskNext(s, g, ok, fd))
  {
    TaskFrame(s, g, ok, fd);
    hide WillRun;
  }

  lemma WakeupCloser(s: State, i: nat, ok: bool)
    requires Wakeup(s) && i < |s.closers|
    ensures CloserNext(s, i, ok).restarted || Wakeup(CloserNext(s, i, ok))
  {
    CloserFrame(s, i, ok);
    hide WillRun;
  }

  lemma WakeupOther(s: State, a: Action)
    requires Wakeup(s)
    ensures Wakeup(OtherNext(s, a))
  {
    OtherFrame(s, a);
    hide WillRun;
  }

  // ----- A DNS task that ends by itself -----

  predicate Restarting(o: Orch) {
    o == ErrCheck || o.MayStop? || o.ClearDnsRunning?
  }

  /** While it is supposed to run, the current task ends only in error, and its error is on the way. */
  predicate Watched(s: State) {
    !s.past.dropped && DNS_RUNNING in s.bits && 0 <= s.ctx.dnsTask < |s.tasks| ==>
      var t := s.tasks[s.ctx.dnsTask];
      && (t.at == Cleanup || t.at == Report || t.at == Send ==> t.err)
      && (t.at == Gone ==> DNS_ERROR(s.ctx.dnsTask) in s.queue || Restarting(s.orch))
  }

  lemma WatchedReceive(s: State, ok: bool)
    requires Watched(s) && s.orch == Receive
    ensures Watched(OrchNext(s, ok))
  {
    if s.queue != [] {
      assert s.queue == [s.queue[0]] + s.queue[1..];
      assert forall c | c in s.queue :: c == s.queue[0] || c in s.queue[1..];
    }
  }

  lemma WatchedOrch(s: State, ok: bool)
    requires Servers(s) && Watched(s)
    ensures OrchNext(s, ok).restarted || Watched(OrchNext(s, ok))
  {
    hide DnsNext;
    if s.orch == Receive {
      WatchedReceive(s, ok);
    } else if OrchNext(s, ok) == DnsNext(s, ok) {
      WatchedDns(s, ok);
    }
  }

  lemma WatchedDns(s: State, ok: bool)
    requires Servers(s) && Watched(s)
    ensures DnsNext(s, ok).restarted || Watched(DnsNext(s, ok))
  {
  }

  lemma WatchedTask(s: State, g: nat, ok: bool, fd: nat)
    requires Watched(s) && g < |s.tasks|
    ensures Watched(TaskNext(s, g, ok, fd))
  {
    TaskFrame(s, g, ok, fd);
  }

  lemma WatchedHandler(s: State, ok: bool)
    requires Watched(s)
    ensures Watched(HandlerNext(s, ok))
  {
    HandlerFrame(s, ok);
    HandlerQueue(s, ok);
    hide HandlerNext;
  }

  lemma WatchedCloser(s: State, i: nat, ok: bool)
    requires Watched(s) && i < |s.closers|
    ensures CloserNext(s, i, ok).restarted || Watched(CloserNext(s, i, ok))
  {
    CloserFrame(s, i, ok);
  }

  lemma WatchedOther(s: State, a: Action)
    requires Watched(s)
    ensures Watched(OtherNext(s, a))
  {
    OtherFrame(s, a);
  }

  // ----- Whose error it is -----

  predicate DiedInError(tasks: seq<Task>, g: int) {
    0 <= g < |tasks| && tasks[g].at == Gone && tasks[g].err
  }

  predicate OnError(o: Orch) {
    match o
    case ErrCheck => true
    case MayStop(why) => why == ForError
    case _ => false
  }

  /** Every error on the way, and the one being handled, is that of a task that has died of it. */
  predicate Reported(s: State) {
    && (forall c | c in s.queue :: c.DNS_ERROR? ==> DiedInError(s.tasks, c.sender))
    && (OnError(s.orch) ==> DiedInError(s.tasks, s.past.sender))
    && (forall g | 0 <= g < |s.tasks| :: s.tasks[g].at == Report || s.tasks[g].at == Send ==> s.tasks[g].err)
  }

  lemma ReportedOrch(s: State, ok: bool)
    requires Reported(s)
    ensures OrchNext(s, ok).restarted || Reported(OrchNext(s, ok))
  {
    hide DnsNext;
    if s.orch == Receive {
      ReportedReceive(s, ok);
    } else if OrchNext(s, ok) == DnsNext(s, ok) {
      ReportedDns(s, ok);
    }
  }

  lemma ReportedReceive(s: State, ok: bool)
    requires Reported(s) && s.orch == Receive
    ensures Reported(OrchNext(s, ok))
  {
    if s.queue != [] {
      assert s.queue[0] in s.queue && forall c | c in s.queue[1..] :: c in s.queue;
    }
  }

  lemma ReportedDns(s: State, ok: bool)
    requires Reported(s)
    ensures DnsNext(s, ok).restarted || Reported(DnsNext(s, ok))
  {
    DnsTasks(s, ok);
    hide DnsNext;
  }

  lemma DnsTasks(s: State, ok: bool)
    ensures var r := DnsNext(s, ok);
            && r.queue == s.queue && r.past == s.past
            && (r.tasks == s.tasks || r.tasks == s.tasks + [Task(Fresh, -1, false)])
            && (OnError(r.orch) ==> r.orch == s.orch)
  {
  }

  lemma ReportedTask(s: State, g: nat, ok: bool, fd: nat)
    requires Reported(s) && g < |s.tasks|
    ensures Reported(TaskNext(s, g, ok, fd))
  {
    hide TaskNext;
    TaskFrame(s, g, ok, fd);
    TaskReports(s, g, ok, fd);
  }

  /** A step of a task as far as errors go. */
  lemma TaskReports(s: State, g: nat, ok: bool, fd: nat)
    requires g < |s.tasks|
    ensures var t, r := s.tasks[g], TaskNext(s, g, ok, fd);
            && |r.tasks| == |s.tasks| && r.past.sender == s.past.sender && (t.err ==> r.tasks[g].err)
            && r.queue <= s.queue + [DNS_ERROR(g)] && s.queue <= r.queue
            && (r.queue != s.queue ==> t.at == Send)
            && (t.at == Send || t.at == Gone ==> r.tasks[g].at == Gone)
            && (r.tasks[g].at == Report || r.tasks[g].at == Send ==> r.tasks[g].err || t.at == Report)
  {
  }

  lemma ReportedHandler(s: State, ok: bool)
    requires Reported(s)
    ensures Reported(HandlerNext(s, ok))
  {
    HandlerFrame(s, ok);
    HandlerQueue(s, ok);
    hide HandlerNext;
  }

  lemma ReportedCloser(s: State, i: nat, ok: bool)
    requires Reported(s) && i < |s.closers|
    ensures CloserNext(s, i, ok).restarted || Reported(CloserNext(s, i, ok))
  {
    CloserFrame(s, i, ok);
  }

  lemma ReportedOther(s: State, a: Action)
    requires Reported(s)
    ensures Reported(OtherNext(s, a))
  {
    OtherFrame(s, a);
  }
}
