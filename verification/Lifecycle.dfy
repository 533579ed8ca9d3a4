/**
 The tasks that start and stop the servers, as interleaved steps: the orchestrator
 (main/orchestrator.c), the DNS tasks it creates (main/dns_server.c), the WiFi event handler
 (main/wifi_ap.c), and the callers of free_proc() (main/power_mgmt.c).

 Every read or write of the shared context, of an event bit or of the command queue is a step of
 its own.  The state mutex is left out: the sections it guards are single steps here, but for the
 one in start_dns_server(), which is left interruptible.  Both only add runs.
 */
module Lifecycle {

  /** The commands; a DNS_ERROR is marked here with the task that sent it, which the code does not do. */
  datatype Cmd = START | STOP | DNS_ERROR(sender: int) | SHUTDOWN

  /** On whose behalf the orchestrator starts or stops the DNS server. */
  datatype Why = ForStart | ForStop | ForError | ForExit

  /** Where the orchestrator is: what it does next. */
  datatype Orch =
    | Receive
    | LookForShutdown
    | StartCheck | StartCount | StartWeb | SetRunning
    | StopCheck | StopCount | StopClear | StopWeb(why: Why)
    | ErrCheck | Delay
    | ExitCheck | ExitClear | SetDone | Exited
    // start_dns_server()
    | MayStart(why: Why) | ClearStopped(why: Why) | SetDnsRunning(why: Why) | Create(why: Why)
    // stop_dns_server()
    | MayStop(why: Why) | ClearDnsRunning(why: Why) | TakeSocket(why: Why)
    | AwaitStopped(why: Why, sock: int) | CloseSocket(why: Why, sock: int) | ForgetTask(why: Why)
    | Hung

  /** Where a DNS task is. */
  datatype At = Fresh | Open | Publish | Bind | Loop | Recv | RecvFailed | Cleanup | Report | Send | Gone

  datatype Task = Task(at: At, sock: int, err: bool)

  /** Where the WiFi event handler is. */
  datatype Handler = Idle | SawJoin | JoinCheck | SendStart | SawLeave | LeaveCheck | SendStop

  datatype Event = Joined | Left

  /** Where a caller of free_proc() is. */
  datatype Closer = Try | Refused | SetShutdown | SendShutdown | AwaitDone | Teardown

  /** The event bits. */
  datatype Bit =
    | SERVERS_RUNNING | DNS_RUNNING | DNS_STOPPED | SHUTDOWN_SET | ORCHESTRATOR_DONE | AP_DONE | OTHERS_DONE

  /** The shared context; a task is known by its place among all created, -1 stands for none. */
  datatype Ctx = Ctx(dnsTask: int, dnsSocket: int, web: bool, sem: bool, errors: nat)

  /** Open descriptors, those opened by DNS tasks among them, and whether any other was closed. */
  datatype Fds = Fds(open: set<int>, dns: set<int>, stray: bool)

  datatype Wifi = Wifi(stations: nat, events: seq<Event>, handler: Handler)

  /** What has happened: the last task to say it stopped, three kinds of bad luck, and the task whose
      error was received last. */
  datatype Past = Past(stoppedBy: int, dropped: bool, listFailed: bool, missed: bool, sender: int)

  datatype State = State(
    orch: Orch, queue: seq<Cmd>, bits: set<Bit>, ctx: Ctx, tasks: seq<Task>, fds: Fds, wifi: Wifi,
    closers: seq<Closer>, past: Past, restarted: bool)

  function Init(): State {
    State(Receive, [], {}, Ctx(-1, -1, false, true, 0), [],
          Fds({}, {}, false), Wifi(0, [], Idle), [], Past(-1, false, false, false, -1), false)
  }

  /** Who moves, with what the environment answers. */
  datatype Action =
    | OrchStep(ok: bool)
    | TaskStep(task: nat, ok: bool, fd: nat)
    | HandlerStep(ok: bool)
    | Join
    | Leave
    | Call
    | CloserStep(caller: nat, ok: bool)
    | ApDone
    | OthersDone
    | OtherOpen(fd: nat)
    | OtherClose(fd: nat)

  /** A step that is not possible changes nothing; after a restart none is. */
  function Step(s: State, a: Action): State {
    if s.restarted then s else
      match a
      case OrchStep(ok) => OrchNext(s, ok)
      case TaskStep(g, ok, fd) => if g < |s.tasks| then TaskNext(s, g, ok, fd) else s
      case HandlerStep(ok) => HandlerNext(s, ok)
      case CloserStep(i, ok) => if i < |s.closers| then CloserNext(s, i, ok) else s
      case _ => OtherNext(s, a)
  }

  function Run(actions: seq<Action>): State {
    if actions == [] then Init() else Step(Run(actions[..|actions| - 1]), actions[|actions| - 1])
  }

  function OtherNext(s: State, a: Action): State {
    match a
    case Join => s.(wifi := s.wifi.(stations := s.wifi.stations + 1, events := s.wifi.events + [Joined]))
    case Leave =>
      if s.wifi.stations == 0 then s else
        s.(wifi := s.wifi.(stations := s.wifi.stations - 1, events := s.wifi.events + [Left]))
    case Call => s.(closers := s.closers + [Try])
    case ApDone => s.(bits := s.bits + {AP_DONE})
    case OthersDone => s.(bits := s.bits + {OTHERS_DONE})
    case OtherOpen(fd) => s.(fds := s.fds.(open := s.fds.open + {fd}))
    case OtherClose(fd) => if fd in s.fds.dns then s else s.(fds := s.fds.(open := s.fds.open - {fd}))
    case _ => s
  }

  // ----- The orchestrator -----

  /** server_orchestrator_task() */
  function OrchNext(s: State, ok: bool): State {
    match s.orch
    case Receive =>
      if s.queue == [] then s.(orch := LookForShutdown)
      else s.(queue := s.queue[1..], orch := Handling(s.queue[0]), past := Received(s.past, s.queue[0]))
    case LookForShutdown => s.(orch := if SHUTDOWN_SET in s.bits then ExitCheck else Receive)

    case StartCheck => s.(orch := if SERVERS_RUNNING in s.bits then LookForShutdown else StartCount)
    case StartCount => StartCounted(s, ok)
    case StartWeb => s.(ctx := s.ctx.(web := s.ctx.web || ok), orch := SetRunning)
    case SetRunning =>
      s.(bits := s.bits + {SERVERS_RUNNING}, ctx := s.ctx.(errors := 0), orch := LookForShutdown)

    case StopCheck => s.(orch := if SERVERS_RUNNING in s.bits then StopCount else LookForShutdown)
    case StopCount => StopCounted(s, ok)
    case StopClear => s.(bits := s.bits - {SERVERS_RUNNING}, orch := MayStop(ForStop))
    case StopWeb(why) =>
      s.(ctx := s.ctx.(web := false), orch := if why == ForExit then SetDone else LookForShutdown)

    case ErrCheck =>
      if DNS_RUNNING in s.bits then s.(ctx := s.ctx.(errors := s.ctx.errors + 1), orch := MayStop(ForError))
      else s.(orch := LookForShutdown)
    case Delay => s.(orch := MayStart(ForError))

    case ExitCheck => s.(orch := if SERVERS_RUNNING in s.bits then ExitClear else SetDone)
    case ExitClear => s.(bits := s.bits - {SERVERS_RUNNING}, orch := MayStop(ForExit))
    case SetDone => s.(bits := s.bits + {ORCHESTRATOR_DONE}, orch := Exited)
    case Exited => s
    case _ => DnsNext(s, ok)
  }

  function Handling(c: Cmd): Orch {
    match c
    case START => StartCheck
    case STOP => StopCheck
    case DNS_ERROR(_) => ErrCheck
    case SHUTDOWN => ExitCheck
  }

  function Received(p: Past, c: Cmd): Past {
    if c.DNS_ERROR? then p.(sender := c.sender) else p
  }

  /** A START is dropped when the station list can be read and is empty. */
  function StartCounted(s: State, ok: bool): State {
    s.(past := s.past.(listFailed := s.past.listFailed || !ok),
       orch := if ok && s.wifi.stations == 0 then LookForShutdown else MayStart(ForStart))
  }

  /** A STOP is dropped unless the station list can be read and is empty. */
  function StopCounted(s: State, ok: bool): State {
    s.(past := s.past.(listFailed := s.past.listFailed || !ok),
       orch := if !ok || s.wifi.stations > 0 then LookForShutdown else StopClear)
  }

  /** start_dns_server() and stop_dns_server() */
  function DnsNext(s: State, ok: bool): State {
    match s.orch
    case MayStart(why) => s.(orch := if s.ctx.dnsTask == -1 then ClearStopped(why) else AfterStart(why))
    case ClearStopped(why) => s.(bits := s.bits - {DNS_STOPPED}, orch := SetDnsRunning(why))
    case SetDnsRunning(why) => s.(bits := s.bits + {DNS_RUNNING}, orch := Create(why))
    case Create(why) =>
      if ok then
        s.(ctx := s.ctx.(dnsTask := |s.tasks|), tasks := s.tasks + [Task(Fresh, -1, false)], orch := AfterStart(why))
      else
        s.(bits := s.bits - {DNS_RUNNING}, restarted := true)

    case MayStop(why) => s.(orch := if s.ctx.dnsTask == -1 then AfterStop(why) else ClearDnsRunning(why))
    case ClearDnsRunning(why) => s.(bits := s.bits - {DNS_RUNNING}, orch := TakeSocket(why))
    case TakeSocket(why) => s.(ctx := s.ctx.(dnsSocket := -1), orch := AwaitStopped(why, s.ctx.dnsSocket))
    case AwaitStopped(why, sock) =>
      if DNS_STOPPED in s.bits then s.(bits := s.bits - {DNS_STOPPED}, orch := CloseSocket(why, sock))
      else if ok then s // still waiting
      else s.(fds := Close(s.fds, sock), orch := Hung)
    case CloseSocket(why, sock) => s.(fds := Close(s.fds, sock), orch := ForgetTask(why))
    case ForgetTask(why) => s.(ctx := s.ctx.(dnsTask := -1), orch := AfterStop(why))
    case Hung => s.(restarted := true)
    case _ => s
  }

  function AfterStart(why: Why): Orch {
    if why == ForStart then StartWeb else LookForShutdown
  }

  function AfterStop(why: Why): Orch {
    if why == ForError then Delay else StopWeb(why)
  }

  /** close(), unless there is nothing to close; closing what no DNS task has open goes astray. */
  function Close(f: Fds, fd: int): Fds {
    if fd == -1 then f else Fds(f.open - {fd}, f.dns - {fd}, f.stray || fd !in f.dns)
  }

  // ----- A DNS task -----

  /** dns_server_task() */
  function TaskNext(s: State, g: nat, ok: bool, fd: nat): State
    requires g < |s.tasks|
  {
    var t := s.tasks[g];
    match t.at
    case Open =>
      if ok && fd in s.fds.open then s else
        s.(fds := if ok then s.fds.(open := s.fds.open + {fd}, dns := s.fds.dns + {fd}) else s.fds,
           tasks := s.tasks[g := if ok then t.(at := Publish, sock := fd) else t.(at := Cleanup, err := true)])
    case Publish => s.(ctx := s.ctx.(dnsSocket := t.sock), tasks := s.tasks[g := t.(at := Bind)])
    case Cleanup =>
      s.(bits := s.bits + {DNS_STOPPED}, past := s.past.(stoppedBy := g),
         tasks := s.tasks[g := t.(at := if t.err then Report else Gone)])
    case Send => Enqueue(s, DNS_ERROR(g), ok).(tasks := s.tasks[g := t.(at := Gone)])
    case _ => s.(tasks := s.tasks[g := Alone(t, DNS_RUNNING in s.bits, ok)])
  }

  /** The steps of a DNS task that touch nothing else. */
  function Alone(t: Task, running: bool, ok: bool): Task {
    match t.at
    case Fresh => t.(at := if running then Open else Cleanup)
    case Bind => if ok then t.(at := Loop) else t.(at := Cleanup, err := true)
    case Loop => t.(at := if running then Recv else Cleanup)
    case Recv => t.(at := if ok then Loop else RecvFailed)
    case RecvFailed =>
      if !running then t.(at := Cleanup) else if ok then t.(at := Loop) else t.(at := Cleanup, err := true)
    case Report => t.(at := if running then Send else Gone)
    case _ => t
  }

  /** xQueueSend(): a full queue drops the command. */
  function Enqueue(s: State, c: Cmd, ok: bool): State {
    s.(queue := if ok then s.queue + [c] else s.queue, past := s.past.(dropped := s.past.dropped || !ok))
  }

  // ----- The event handler -----

  /** wifi_event_handler(), for stations that come and go. */
  function HandlerNext(s: State, ok: bool): State {
    var w := s.wifi;
    match w.handler
    case Idle =>
      if w.events == [] then s else
        s.(wifi := w.(events := w.events[1..], handler := if w.events[0] == Joined then SawJoin else SawLeave))
    case SawJoin =>
      s.(wifi := w.(handler := if SERVERS_RUNNING in s.bits then Idle else JoinCheck),
         past := s.past.(missed := s.past.missed || Misses(s)))
    case JoinCheck => s.(wifi := w.(handler := if SHUTDOWN_SET in s.bits then Idle else SendStart))
    case SendStart => Enqueue(s, START, ok).(wifi := w.(handler := Idle))
    case SawLeave =>
      s.(wifi := w.(handler := if ok && w.stations == 0 then LeaveCheck else Idle),
         past := s.past.(listFailed := s.past.listFailed || !ok))
    case LeaveCheck => s.(wifi := w.(handler := if SHUTDOWN_SET in s.bits then Idle else SendStop))
    case SendStop => Enqueue(s, STOP, ok).(wifi := w.(handler := Idle))
  }

  /** A Connected event is handled between the orchestrator's count of zero and its clearing of the bit,
      and there is a station that nothing else asks a START for. */
  predicate Misses(s: State) {
    && SERVERS_RUNNING in s.bits && s.orch == StopClear
    && s.wifi.stations > 0 && START !in s.queue && Joined !in s.wifi.events
  }

  // ----- free_proc() -----

  function CloserNext(s: State, i: nat, ok: bool): State
    requires i < |s.closers|
  {
    match s.closers[i]
    case Try =>
      s.(ctx := s.ctx.(sem := false), closers := s.closers[i := if s.ctx.sem then SetShutdown else Refused])
    case SetShutdown => s.(bits := s.bits + {SHUTDOWN_SET}, closers := s.closers[i := SendShutdown])
    // a failed send is not a lost command: the orchestrator looks at the bit as well
    case SendShutdown =>
      s.(queue := if ok then s.queue + [SHUTDOWN] else s.queue, closers := s.closers[i := AwaitDone])
    case AwaitDone =>
      if ORCHESTRATOR_DONE in s.bits && AP_DONE in s.bits && (OTHERS_DONE in s.bits || !ok) then
        s.(closers := s.closers[i := Teardown])
      else s.(restarted := s.restarted || !ok)
    case _ => s
  }
}
