/**
 * The sketch's global state and how each operation changes it, as values.
 * `webStatus` and `lastActivityTime` are the sketch's own globals; `air`
 * (frames transmitted), `issued` (commands sent) and `pulses` (LED signal
 * counts) record its observable outputs.
 */
module Session {
  import opened Wrappers
  import opened Clock
  import opened Protocol
  import opened Radio

  datatype Phase = Booting | Serving | Asleep

  datatype Globals = Globals(
    phase: Phase,
    webStatus: string,
    lastActivity: u32,
    air: seq<seq<byte>>,
    issued: seq<Command>,
    pulses: seq<nat>)

  /** One `sendCmd(cmd)`: the frame goes out twice, then the receive window decides the status. */
  function AfterSendCmd(g: Globals, cmd: Command, w: Window): Globals
    requires ReachesDeadline(w.start, w.polls)
  {
    var r := Await(w.start, w.polls);
    g.(webStatus := StatusText(r),
       air := g.air + [CommandFrame(cmd), CommandFrame(cmd)],
       issued := g.issued + [cmd],
       pulses := g.pulses + [AckPulses(r)])
  }

  /**
   * Every exchange overwrites the status with a value that depends only on its
   * own receive window: repeating a command against the same replies gives
   * the same status, whatever came before.
   */
  lemma StatusIgnoresHistory(g1: Globals, g2: Globals, c1: Command, c2: Command, w: Window)
    requires ReachesDeadline(w.start, w.polls)
    ensures AfterSendCmd(g1, c1, w).webStatus == AfterSendCmd(g2, c2, w).webStatus
    ensures AfterSendCmd(g1, c1, w).webStatus != STATUS_INITIAL
  {
  }

  /** The routes of the web page. */
  datatype Route = Root | On | Off | Status

  /** The command a route's handler sends, if any. */
  function RouteCommand(r: Route): Option<Command>
  {
    match r
    case Root => None
    case On => Some(RelayOn)
    case Off => Some(RelayOff)
    case Status => Some(GetStatus)
  }

  function Issued(c: Option<Command>): seq<Command>
  {
    match c
    case None => []
    case Some(cmd) => [cmd]
  }

  /**
   * One handled HTTP request: the route, the receive window of its `sendCmd`
   * (unused for `/`), and the clock read that becomes `lastActivityTime`.
   */
  datatype Request = Request(route: Route, window: Window, doneClock: u32)

  /** One iteration of the service loop: maybe a request, then the clock read of the sleep test. */
  datatype Tick = Tick(request: Option<Request>, checkClock: u32)

  predicate RequestLive(q: Request)
  {
    RouteCommand(q.route).Some? ==> ReachesDeadline(q.window.start, q.window.polls)
  }

  predicate TickLive(t: Tick)
  {
    t.request.Some? ==> RequestLive(t.request.value)
  }

  predicate TicksLive(ticks: seq<Tick>)
  {
    forall i :: 0 <= i < |ticks| ==> TickLive(ticks[i])
  }

  /** A handler sends at most its route's one command and then resets the activity time. */
  function Handle(g: Globals, q: Request): (h: Globals)
    requires RequestLive(q)
    ensures h.lastActivity == q.doneClock
    ensures h.issued == g.issued + Issued(RouteCommand(q.route))
    ensures h.phase == g.phase
  {
    var sent := match RouteCommand(q.route)
      case None => g
      case Some(c) => AfterSendCmd(g, c, q.window);
    sent.(lastActivity := q.doneClock)
  }

  function AfterTick(g: Globals, t: Tick): Globals
    requires TickLive(t)
  {
    if t.request.Some? then Handle(g, t.request.value) else g
  }

  const SLEEP_AFTER_MS: int := 300000

  /** The test `millis() - lastActivityTime > 300000`. */
  predicate SleepDue(now: u32, last: u32)
  {
    Elapsed(now, last) > SLEEP_AFTER_MS
  }

  /**
   * A finite prefix of the (endless) service loop: handle the tick's request,
   * then fall asleep if the inactivity timeout has passed.
   */
  function Serve(g: Globals, ticks: seq<Tick>): Globals
    requires TicksLive(ticks)
    decreases |ticks|
  {
    if ticks == [] then g
    else
      var h := AfterTick(g, ticks[0]);
      if SleepDue(ticks[0].checkClock, h.lastActivity) then h.(phase := Asleep)
      else Serve(h, ticks[1..])
  }

  /** The activity time after one tick. */
  function TickLast(last: u32, t: Tick): u32
  {
    if t.request.Some? then t.request.value.doneClock else last
  }

  /** The activity time after some ticks: the clock read of the latest handled request. */
  function LastActivity(last: u32, ticks: seq<Tick>): u32
    decreases |ticks|
  {
    if ticks == [] then last
    else LastActivity(TickLast(last, ticks[0]), ticks[1..])
  }

  /** A sleep test of the service loop that fires at tick `i`. */
  predicate SleepsAt(last: u32, ticks: seq<Tick>, i: int)
  {
    0 <= i < |ticks| && SleepDue(ticks[i].checkClock, LastActivity(last, ticks[..i + 1]))
  }

  lemma SleepsAtShift(last: u32, ticks: seq<Tick>, i: int)
    requires 0 < i < |ticks|
    ensures SleepsAt(last, ticks, i) <==> SleepsAt(TickLast(last, ticks[0]), ticks[1..], i - 1)
  {
    assert ticks[..i + 1][1..] == ticks[1..][..i];
    assert ticks[1..][i - 1] == ticks[i];
  }

  lemma AfterTickLast(g: Globals, t: Tick)
    requires TickLive(t)
    ensures AfterTick(g, t).lastActivity == TickLast(g.lastActivity, t)
    ensures AfterTick(g, t).phase == g.phase
  {
  }

  lemma TailLive(ticks: seq<Tick>)
    requires TicksLive(ticks) && ticks != []
    ensures TickLive(ticks[0]) && TicksLive(ticks[1..])
  {
    forall i | 0 <= i < |ticks| - 1 ensures TickLive(ticks[1..][i]) {
      assert ticks[1..][i] == ticks[i + 1];
    }
  }

  /**
   * The device falls asleep in the service loop exactly when some sleep test
   * reads more than 300000 ms after the latest handled request (or after the
   * activity time on entry, if none was handled yet).
   */
  lemma {:induction false} ServeSleepsIff(g: Globals, ticks: seq<Tick>)
    requires TicksLive(ticks)
    requires g.phase == Serving
    ensures Serve(g, ticks).phase == Asleep || Serve(g, ticks).phase == Serving
    ensures Serve(g, ticks).phase == Asleep <==> exists i :: SleepsAt(g.lastActivity, ticks, i)
    decreases |ticks|
  {
    if ticks != [] {
      TailLive(ticks);
      var h := AfterTick(g, ticks[0]);
      AfterTickLast(g, ticks[0]);
      assert SleepsAt(g.lastActivity, ticks, 0) <==> SleepDue(ticks[0].checkClock, h.lastActivity) by {
        var one := ticks[..1];
        assert one[0] == ticks[0] && one[1..] == [];
        assert LastActivity(g.lastActivity, one) == LastActivity(TickLast(g.lastActivity, ticks[0]), []);
      }
      if !SleepDue(ticks[0].checkClock, h.lastActivity) {
        var rest := ticks[1..];
        ServeSleepsIff(h, rest);
        if Serve(g, ticks).phase == Asleep {
          var i :| SleepsAt(h.lastActivity, rest, i);
          SleepsAtShift(g.lastActivity, ticks, i + 1);
        }
        if exists i :: SleepsAt(g.lastActivity, ticks, i) {
          var i :| SleepsAt(g.lastActivity, ticks, i);
          SleepsAtShift(g.lastActivity, ticks, i);
        }
      } else {
        assert SleepsAt(g.lastActivity, ticks, 0);
      }
    }
  }

  /** The commands one service iteration sends: its request's route command, if any. */
  function TickIssued(t: Tick): (r: seq<Command>)
    ensures |r| <= 1
    ensures t.request.None? ==> r == []
    ensures t.request.Some? && t.request.value.route == Root ==> r == []
  {
    if t.request.Some? then Issued(RouteCommand(t.request.value.route)) else []
  }

  /** The commands the requests among some service iterations send, in order. */
  function Requested(ticks: seq<Tick>): (r: seq<Command>)
    ensures |r| <= |ticks|
    decreases |ticks|
  {
    if ticks == [] then [] else TickIssued(ticks[0]) + Requested(ticks[1..])
  }

  lemma AfterTickIssued(g: Globals, t: Tick)
    requires TickLive(t)
    ensures AfterTick(g, t).issued == g.issued + TickIssued(t)
  {
  }

  lemma RequestedPrefix(ticks: seq<Tick>, n: nat)
    requires n < |ticks|
    ensures Requested(ticks[..n + 1]) == TickIssued(ticks[0]) + Requested(ticks[1..][..n])
  {
    var pre := ticks[..n + 1];
    assert pre[0] == ticks[0] && pre[1..] == ticks[1..][..n];
  }

  /** What the first iteration of the service loop does to the commands sent. */
  lemma ServeIssuedUnfold(g: Globals, ticks: seq<Tick>)
    requires TicksLive(ticks) && ticks != []
    ensures TicksLive(ticks[1..])
    ensures SleepDue(ticks[0].checkClock, TickLast(g.lastActivity, ticks[0])) ==>
              Serve(g, ticks).issued == g.issued + TickIssued(ticks[0]) &&
              Serve(g, ticks).phase == Asleep
    ensures !SleepDue(ticks[0].checkClock, TickLast(g.lastActivity, ticks[0])) ==>
              Serve(g, ticks) == Serve(AfterTick(g, ticks[0]), ticks[1..])
    ensures AfterTick(g, ticks[0]).issued == g.issued + TickIssued(ticks[0])
    ensures AfterTick(g, ticks[0]).phase == g.phase
  {
    TailLive(ticks);
    AfterTickLast(g, ticks[0]);
    AfterTickIssued(g, ticks[0]);
  }

  /**
   * The service loop ran exactly `n` iterations: no sleep test fired before
   * the last of them, and if iterations remain, the test of the `n`-th fired.
   */
  predicate RanFor(last: u32, ticks: seq<Tick>, n: int)
  {
    0 <= n <= |ticks| &&
    (forall i :: 0 <= i < n - 1 ==> !SleepsAt(last, ticks, i)) &&
    (n < |ticks| ==> 0 < n && SleepsAt(last, ticks, n - 1))
  }

  lemma SleepsAtZero(last: u32, ticks: seq<Tick>)
    requires ticks != []
    ensures SleepsAt(last, ticks, 0) <==> SleepDue(ticks[0].checkClock, TickLast(last, ticks[0]))
  {
    var one := ticks[..1];
    assert one[0] == ticks[0] && one[1..] == [];
    assert LastActivity(last, one) == LastActivity(TickLast(last, ticks[0]), []);
  }

  lemma RanForShift(last: u32, ticks: seq<Tick>, m: int)
    requires ticks != []
    requires !SleepsAt(last, ticks, 0)
    requires RanFor(TickLast(last, ticks[0]), ticks[1..], m)
    ensures RanFor(last, ticks, m + 1)
  {
    forall i | 0 < i <= m
      ensures SleepsAt(last, ticks, i) <==> SleepsAt(TickLast(last, ticks[0]), ticks[1..], i - 1)
    {
      SleepsAtShift(last, ticks, i);
    }
  }

  /**
   * The number `n` of iterations the service loop ran (up to and including the
   * first sleep test that fires), and the commands it sent: exactly those of
   * the requests handled in those iterations, in order.
   */
  lemma {:induction false} ServeRunIssued(g: Globals, ticks: seq<Tick>) returns (n: nat)
    requires TicksLive(ticks)
    ensures RanFor(g.lastActivity, ticks, n)
    ensures Serve(g, ticks).issued == g.issued + Requested(ticks[..n])
    decreases |ticks|
  {
    if ticks == [] {
      n := 0;
      assert ticks[..0] == [];
    } else {
      ServeIssuedUnfold(g, ticks);
      SleepsAtZero(g.lastActivity, ticks);
      var head := TickIssued(ticks[0]);
      if SleepDue(ticks[0].checkClock, TickLast(g.lastActivity, ticks[0])) {
        n := 1;
        RequestedPrefix(ticks, 0);
        assert ticks[1..][..0] == [];
      } else {
        var h, rest := AfterTick(g, ticks[0]), ticks[1..];
        AfterTickLast(g, ticks[0]);
        var m := ServeRunIssued(h, rest);
        RanForShift(g.lastActivity, ticks, m);
        RequestedPrefix(ticks, m);
        n := m + 1;
        assert Serve(g, ticks).issued == g.issued + head + Requested(rest[..m]);
      }
    }
  }

  /**
   * The service loop appends exactly the commands of the requests it handled,
   * in order, over the iterations it ran.
   */
  lemma ServeIssuesRequested(g: Globals, ticks: seq<Tick>)
    requires TicksLive(ticks)
    ensures exists n :: RanFor(g.lastActivity, ticks, n) && Serve(g, ticks).issued == g.issued + Requested(ticks[..n])
  {
    var n := ServeRunIssued(g, ticks);
  }

  /** A service loop that is still serving has sent the commands of every request handled. */
  lemma {:induction false} ServeIssuesAllRequested(g: Globals, ticks: seq<Tick>)
    requires TicksLive(ticks)
    requires g.phase == Serving
    ensures Serve(g, ticks).phase == Serving ==> Serve(g, ticks).issued == g.issued + Requested(ticks)
    decreases |ticks|
  {
    if ticks != [] {
      ServeIssuedUnfold(g, ticks);
      if !SleepDue(ticks[0].checkClock, TickLast(g.lastActivity, ticks[0])) {
        var h, rest := AfterTick(g, ticks[0]), ticks[1..];
        ServeIssuesAllRequested(h, rest);
        assert Requested(ticks) == TickIssued(ticks[0]) + Requested(rest);
        if Serve(h, rest).phase == Serving {
          calc {
            Serve(g, ticks).issued;
            Serve(h, rest).issued;
            h.issued + Requested(rest);
            (g.issued + TickIssued(ticks[0])) + Requested(rest);
            g.issued + Requested(ticks);
          }
        }
      }
    }
  }

  /** The inactivity timeout measured in real milliseconds, across a clock wrap-around. */
  lemma SleepDueInRealTime(last: nat, now: nat)
    requires last <= now < last + MODULUS
    ensures SleepDue(Millis(now), Millis(last)) <==> now > last + SLEEP_AFTER_MS
  {
    ElapsedOfReal(last, now);
  }
}
