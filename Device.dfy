/**
 * The device as the sketch runs it: the globals as fields of one object,
 * `sendCmd` with its two transmissions and its receive loop, and `setup` with
 * the button loop, the Physical-Mode path and the Interactive-Mode service
 * loop. Each method is proved against the value-level definitions of
 * `Session`; `Startup` is the whole boot sequence as a value.
 */
module Device {
  import opened Wrappers
  import opened Clock
  import opened Protocol
  import opened Radio
  import opened Boot
  import opened Session

  const ENTRY_PULSES: nat := 1
  const INIT_FAIL_PULSES: nat := 10

  /**
   * Everything `setup` reads from the outside world: the clock read `start`,
   * the button loop's samples, whether the radio initialises, the clock reads
   * of the Physical-Mode tests, the receive window of the first `sendCmd`, the
   * clock read that sets `lastActivityTime` after it, and the iterations of
   * the service loop.
   */
  datatype Env = Env(
    start: u32,
    button: seq<ButtonSample>,
    radioOk: bool,
    modeClock: u32,
    choiceClock: u32,
    firstWindow: Window,
    firstDoneClock: u32,
    service: seq<Tick>)

  /** The clock keeps running: the button loop and every receive window end. */
  predicate EnvLive(env: Env)
  {
    ButtonDecides(env.start, env.button) &&
    ReachesDeadline(env.firstWindow.start, env.firstWindow.polls) &&
    TicksLive(env.service)
  }

  /** Which way `setup` went, and for Physical Mode the command it sent. */
  datatype Path = InteractivePath | PhysicalPath(cmd: Option<Command>)

  function StartupPath(env: Env): Path
    requires ButtonDecides(env.start, env.button)
  {
    match SelectMode(env.start, env.button)
    case Interactive => InteractivePath
    case Physical =>
      if env.radioOk then PhysicalPath(PhysicalCommand(Elapsed(env.modeClock, env.start), Elapsed(env.choiceClock, env.start)))
      else PhysicalPath(None)
  }

  /** The state `setup` leaves behind (asleep, or still serving after the given service iterations). */
  function Startup(g: Globals, env: Env): Globals
    requires EnvLive(env)
  {
    match SelectMode(env.start, env.button)
    case Interactive =>
      var lit := g.(pulses := g.pulses + [ENTRY_PULSES]);
      if !env.radioOk then lit.(pulses := lit.pulses + [INIT_FAIL_PULSES], phase := Asleep)
      else
        var ready := AfterSendCmd(lit.(phase := Serving), GetStatus, env.firstWindow).(lastActivity := env.firstDoneClock);
        Serve(ready, env.service)
    case Physical =>
      if Elapsed(env.modeClock, env.start) <= RADIO_FLOOR_MS then g.(phase := Asleep)
      else if !env.radioOk then g.(pulses := g.pulses + [INIT_FAIL_PULSES], phase := Asleep)
      else
        var cmd := PhysicalCommand(Elapsed(env.modeClock, env.start), Elapsed(env.choiceClock, env.start));
        AfterSendCmd(g, cmd.value, env.firstWindow).(phase := Asleep)
  }

  /**
   * Physical Mode always ends in deep sleep, having sent at most one command:
   * the one the thresholds choose, or none when the radio does not start.
   */
  lemma PhysicalPathSleeps(g: Globals, env: Env)
    requires EnvLive(env)
    requires SelectMode(env.start, env.button) == Physical
    ensures StartupPath(env).PhysicalPath?
    ensures Startup(g, env).phase == Asleep
    ensures Startup(g, env).issued == g.issued + Issued(StartupPath(env).cmd)
    ensures Startup(g, env).lastActivity == g.lastActivity
  {
  }

  /**
   * Interactive Mode with a working radio sends exactly one `GetStatus` first;
   * every later command is the command of a handled request, in order, and
   * the device ends asleep or still serving.
   */
  lemma InteractiveEntry(g: Globals, env: Env)
    requires EnvLive(env)
    requires SelectMode(env.start, env.button) == Interactive
    requires env.radioOk
    ensures StartupPath(env) == InteractivePath
    ensures exists n :: RanFor(env.firstDoneClock, env.service, n) &&
              Startup(g, env).issued == g.issued + [GetStatus] + Requested(env.service[..n])
    ensures Startup(g, env).phase == Serving ==>
              Startup(g, env).issued == g.issued + [GetStatus] + Requested(env.service)
    ensures Startup(g, env).phase == Serving || Startup(g, env).phase == Asleep
  {
    var lit := g.(pulses := g.pulses + [ENTRY_PULSES]);
    var ready := AfterSendCmd(lit.(phase := Serving), GetStatus, env.firstWindow).(lastActivity := env.firstDoneClock);
    assert ready.issued == g.issued + [GetStatus];
    assert Startup(g, env) == Serve(ready, env.service);
    var n := ServeRunIssued(ready, env.service);
    ServeIssuesAllRequested(ready, env.service);
    ServeSleepsIff(ready, env.service);
    assert RanFor(env.firstDoneClock, env.service, n);
    assert Startup(g, env).issued == g.issued + [GetStatus] + Requested(env.service[..n]);
  }

  /** A radio that fails to initialise sends nothing and puts the device to sleep. */
  lemma InitFailureSleeps(g: Globals, env: Env)
    requires EnvLive(env)
    requires !env.radioOk
    ensures Startup(g, env).phase == Asleep
    ensures Startup(g, env).issued == g.issued
    ensures Startup(g, env).air == g.air
    ensures Startup(g, env).webStatus == g.webStatus
  {
  }

  class Device {
    var phase: Phase
    var webStatus: string
    var lastActivityTime: u32
    var air: seq<seq<byte>>
    var issued: seq<Command>
    var pulses: seq<nat>

    function State(): Globals
      reads this
    {
      Globals(phase, webStatus, lastActivityTime, air, issued, pulses)
    }

    /** The device just after reset, with the globals' initial values. */
    constructor ()
      ensures State() == Globals(Booting, STATUS_INITIAL, 0, [], [], [])
    {
      phase := Booting;
      webStatus := STATUS_INITIAL;
      lastActivityTime := 0;
      air := [];
      issued := [];
      pulses := [];
    }

    /**
     * `sendCmd`: two transmissions of `[DEVICE_ID, cmd]`, then the receive
     * window; the result is true exactly when the status becomes a relay state.
     */
    method SendCmd(cmd: Command, w: Window) returns (ok: bool)
      requires ReachesDeadline(w.start, w.polls)
      modifies this
      ensures State() == AfterSendCmd(old(State()), cmd, w)
      ensures ok == Await(w.start, w.polls).Some?
      ensures ok <==> (webStatus == STATUS_ON || webStatus == STATUS_OFF)
    {
      issued := issued + [cmd];
      for i := 0 to 2
        invariant air == old(air) + seq(i, _ => CommandFrame(cmd))
        invariant issued == old(issued) + [cmd]
        invariant phase == old(phase) && webStatus == old(webStatus)
        invariant lastActivityTime == old(lastActivityTime) && pulses == old(pulses)
      {
        air := air + [CommandFrame(cmd)];
      }
      assert air == old(air) + [CommandFrame(cmd), CommandFrame(cmd)];
      var ack := ReceiveWindow(w.start, w.polls);
      webStatus := StatusText(ack);
      pulses := pulses + [AckPulses(ack)];
      ok := ack.Some?;
    }

    /** `goToDeepSleep`: the device stops; resumption is a new boot. */
    method GoToDeepSleep()
      modifies this
      ensures State() == old(State()).(phase := Asleep)
    {
      phase := Asleep;
    }

    /** `initLoRa`: on failure, ten pulses and deep sleep. */
    method InitLoRa(radioOk: bool) returns (ok: bool)
      modifies this
      ensures ok == radioOk
      ensures State() == if radioOk then old(State())
                         else old(State()).(pulses := old(pulses) + [INIT_FAIL_PULSES], phase := Asleep)
    {
      ok := radioOk;
      if !ok {
        pulses := pulses + [INIT_FAIL_PULSES];
        GoToDeepSleep();
      }
    }

    /** One handled request: its route's command, if any, then `lastActivityTime = millis()`. */
    method Handle(q: Request)
      requires RequestLive(q)
      modifies this
      ensures State() == Session.Handle(old(State()), q)
    {
      var cmd := RouteCommand(q.route);
      if cmd.Some? {
        var _ := SendCmd(cmd.value, q.window);
      }
      lastActivityTime := q.doneClock;
    }

    /** The service loop, over the iterations the environment provides. */
    method ServiceLoop(ticks: seq<Tick>)
      requires TicksLive(ticks)
      requires phase == Serving
      modifies this
      ensures State() == Serve(old(State()), ticks)
    {
      var i := 0;
      while i < |ticks|
        invariant 0 <= i <= |ticks|
        invariant phase == Serving
        invariant Serve(State(), ticks[i..]) == Serve(old(State()), ticks)
      {
        TailLive(ticks[i..]);
        assert ticks[i..][0] == ticks[i] && ticks[i..][1..] == ticks[i + 1..];
        var t := ticks[i];
        if t.request.Some? {
          Handle(t.request.value);
        }
        if Elapsed(t.checkClock, lastActivityTime) > SLEEP_AFTER_MS {
          GoToDeepSleep();
          return;
        }
        i := i + 1;
      }
    }

    /** `setup`: select the mode, then run the Physical path or Interactive Mode. */
    method Setup(env: Env) returns (path: Path)
      requires EnvLive(env)
      modifies this
      ensures State() == Startup(old(State()), env)
      ensures path == StartupPath(env)
    {
      var mode := PollButton(env.start, env.button);
      if mode == Interactive {
        path := InteractivePath;
        pulses := pulses + [ENTRY_PULSES];
        var ok := InitLoRa(env.radioOk);
        if !ok {
          return;
        }
        phase := Serving;
        var _ := SendCmd(GetStatus, env.firstWindow);
        lastActivityTime := env.firstDoneClock;
        ServiceLoop(env.service);
      } else {
        path := PhysicalPath(None);
        if Elapsed(env.modeClock, env.start) > RADIO_FLOOR_MS {
          var ok := InitLoRa(env.radioOk);
          if !ok {
            return;
          }
          var cmd := if Elapsed(env.choiceClock, env.start) > OFF_AFTER_MS then RelayOff else RelayOn;
          path := PhysicalPath(Some(cmd));
          var _ := SendCmd(cmd, env.firstWindow);
        }
        GoToDeepSleep();
      }
    }
  }
}
