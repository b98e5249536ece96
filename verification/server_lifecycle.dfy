/** The launcher's two server flags, `server_running` and `server_starting`,
    and the handlers that write them. Each handler is one atomic transition
    on an immutable pair of flags; the threads and deferred callbacks that
    run them in the launcher are not modelled. */
module ServerLifecycle {
  import opened Text

  /** The line of backend output that announces the server is ready. */
  const ReadinessMarker: string := "AIAgent.ini Network Settings:"

  datatype Flags = Flags(running: bool, starting: bool)

  const Idle: Flags := Flags(false, false)
  const Starting: Flags := Flags(false, true)
  const Running: Flags := Flags(true, false)

  /** The two flags are never set together. */
  predicate Consistent(f: Flags)
  {
    !(f.running && f.starting)
  }

  /** The message box a rejected request shows. */
  datatype Notice =
    | NoNotice
    | AlreadyRunningOrStarting  // "The server is already running or starting."
    | NotCurrentlyRunning       // "The server is not currently running."

  datatype Step = Step(flags: Flags, notice: Notice)

  /** `start_wsl`: refused while either flag is set; otherwise the server
      is starting and the backend thread is launched. */
  function Start(f: Flags): (r: Step)
    ensures r.notice == NoNotice <==> !f.running && !f.starting
    ensures r.notice != NoNotice ==> r == Step(f, AlreadyRunningOrStarting)
    ensures r.notice == NoNotice ==> r.flags.starting && r.flags.running == f.running
  {
    if f.running || f.starting then Step(f, AlreadyRunningOrStarting)
    else Step(Flags(f.running, true), NoNotice)
  }

  /** One line read from the backend's output in `run_wsl_silently`: the
      readiness marker anywhere in the raw line marks the server running. */
  function OnOutputLine(f: Flags, line: string): (r: Flags)
    ensures Contains(line, ReadinessMarker) ==> r.running && !r.starting
    ensures !Contains(line, ReadinessMarker) ==> r == f
  {
    if Contains(line, ReadinessMarker) then Flags(true, false) else f
  }

  /** `update_buttons_after_process`: the output stream ended, or reading it
      raised. */
  function OnProcessEnd(f: Flags): (r: Flags)
    ensures !r.running && !r.starting
  {
    Idle
  }

  /** `stop_wsl` followed by `stop_wsl_thread`: refused when neither flag is
      set; otherwise the backend is stopped and `server_running` cleared,
      while `server_starting` is left as it was. */
  function StopGraceful(f: Flags): (r: Step)
    ensures r.notice == NotCurrentlyRunning <==> !f.running && !f.starting
    ensures r.notice != NoNotice ==> r == Step(f, NotCurrentlyRunning)
    ensures r.notice == NoNotice ==> !r.flags.running && r.flags.starting == f.starting
  {
    if !f.running && !f.starting then Step(f, NotCurrentlyRunning)
    else Step(Flags(false, f.starting), NoNotice)
  }

  /** `force_stop_wsl_thread`: unconditional, clears both flags. */
  function ForceStop(f: Flags): (r: Flags)
    ensures !r.running && !r.starting
  {
    Flags(false, false)
  }

  /* ---------- runs of events ---------- */

  datatype Event =
    | PressStart
    | OutputLine(text: string)
    | ProcessEnded
    | PressStop
    | PressForceStop

  function Apply(f: Flags, e: Event): Flags
  {
    match e
    case PressStart => Start(f).flags
    case OutputLine(text) => OnOutputLine(f, text)
    case ProcessEnded => OnProcessEnd(f)
    case PressStop => StopGraceful(f).flags
    case PressForceStop => ForceStop(f)
  }

  function Run(f: Flags, events: seq<Event>): Flags
    decreases |events|
  {
    if events == [] then f else Run(Apply(f, events[0]), events[1..])
  }

  /** Every single transition keeps the flags consistent. */
  lemma ApplyKeepsConsistent(f: Flags, e: Event)
    requires Consistent(f)
    ensures Consistent(Apply(f, e))
    ensures Apply(f, e) in {Idle, Starting, Running}
  {
  }

  /** Under any run of events the two flags are never both set, so the
      launcher is always idle, starting or running. */
  lemma {:induction false} RunKeepsConsistent(f: Flags, events: seq<Event>)
    requires Consistent(f)
    ensures Consistent(Run(f, events))
    ensures Run(f, events) in {Idle, Starting, Running}
    decreases |events|
  {
    if events != [] {
      ApplyKeepsConsistent(f, events[0]);
      RunKeepsConsistent(Apply(f, events[0]), events[1..]);
    }
  }

  lemma {:induction false} RunAppend(f: Flags, events: seq<Event>, e: Event)
    ensures Run(f, events + [e]) == Apply(Run(f, events), e)
    decreases |events|
  {
    if events != [] {
      assert (events + [e])[1..] == events[1..] + [e];
      RunAppend(Apply(f, events[0]), events[1..], e);
    }
  }

  /** A force stop at the end of any run leaves the launcher idle. */
  lemma ForceStopEndsIdle(f: Flags, events: seq<Event>)
    ensures Run(f, events + [PressForceStop]) == Idle
    ensures ForceStop(Idle) == Idle
  {
    RunAppend(f, events, PressForceStop);
  }

  /** Start is accepted exactly when the launcher is idle. */
  lemma StartAcceptedOnlyWhenIdle(f: Flags)
    requires Consistent(f)
    ensures Start(f).notice == NoNotice <==> f == Idle
    ensures f == Running ==> Start(f) == Step(Running, AlreadyRunningOrStarting)
  {
  }

  /** A graceful stop during startup leaves `server_starting` set: a start
      right after it is refused with the notice, and only once the backend's
      output has ended is a new start accepted. */
  lemma GracefulStopDuringStartup()
    ensures StopGraceful(Starting) == Step(Starting, NoNotice)
    ensures Start(StopGraceful(Starting).flags) == Step(Starting, AlreadyRunningOrStarting)
    ensures Start(OnProcessEnd(StopGraceful(Starting).flags)) == Step(Starting, NoNotice)
    ensures Run(Running, [PressStop]) == Idle
  {
  }

  /** The normal life of one session: start, output until the marker, end. */
  lemma NormalSession(before: string, after: string)
    requires !Contains(before, ReadinessMarker)
    ensures Run(Idle, [PressStart, OutputLine(before)]) == Starting
    ensures Run(Idle, [PressStart, OutputLine(before), OutputLine(ReadinessMarker + "\n")]) == Running
    ensures Run(Idle, [PressStart, OutputLine(ReadinessMarker + "\n"), OutputLine(after)]) == Running
    ensures Run(Idle, [PressStart, OutputLine(ReadinessMarker + "\n"), ProcessEnded]) == Idle
  {
    var ready := ReadinessMarker + "\n";
    assert ReadinessMarker <= ready;
    assert OnOutputLine(Starting, ready) == Running;
    assert Run(Idle, [PressStart, OutputLine(before)]) == Run(Starting, [OutputLine(before)]);
    var e := [PressStart, OutputLine(before), OutputLine(ready)];
    assert Run(Idle, e) == Run(Starting, e[1..]);
    assert Run(Starting, e[1..]) == Run(Starting, e[2..]);
    var g := [PressStart, OutputLine(ready), OutputLine(after)];
    assert Run(Idle, g) == Run(Starting, g[1..]);
    assert Run(Starting, g[1..]) == Run(Running, g[2..]);
    var h := [PressStart, OutputLine(ready), ProcessEnded];
    assert Run(Idle, h) == Run(Starting, h[1..]);
    assert Run(Starting, h[1..]) == Run(Running, h[2..]);
  }
}
