/**
 * The receive side of the command/acknowledgement exchange: after sending,
 * the device polls the radio until an accepted acknowledgement arrives or
 * 4000 ms have passed since the start of the receive window.
 *
 * The radio and the clock are injected as a trace: each poll is one read of
 * the clock (the loop condition) followed by what the radio delivered at that
 * iteration (nothing, or the bytes of one packet).
 */
module Radio {
  import opened Wrappers
  import opened Clock
  import opened Protocol

  const WINDOW_MS: int := 4000

  datatype Poll = Poll(clock: u32, packet: Option<seq<byte>>)

  /** One receive window: the clock read that starts it and the polls that follow. */
  datatype Window = Window(start: u32, polls: seq<Poll>)

  /** The acknowledgement a poll delivers, if its packet passes the acceptance test. */
  function Received(p: Poll): Option<Ack>
  {
    match p.packet
    case None => None
    case Some(bytes) => AcceptFrame(bytes)
  }

  /** The loop condition `millis() - s < 4000`, evaluated at this poll. */
  predicate Open(start: u32, p: Poll)
  {
    Elapsed(p.clock, start) < WINDOW_MS
  }

  /** The clock keeps running: some poll of the trace is read after the deadline. */
  predicate ReachesDeadline(start: u32, polls: seq<Poll>)
  {
    exists i :: 0 <= i < |polls| && !Open(start, polls[i])
  }

  /** The outcome of a receive window; `None` is the timeout. */
  function Await(start: u32, polls: seq<Poll>): Option<Ack>
    requires ReachesDeadline(start, polls)
    decreases |polls|
  {
    if !Open(start, polls[0]) then None
    else if Received(polls[0]).Some? then Received(polls[0])
    else
      assert ReachesDeadline(start, polls[1..]) by {
        var i :| 0 <= i < |polls| && !Open(start, polls[i]);
        assert polls[1..][i - 1] == polls[i];
      }
      Await(start, polls[1..])
  }

  /** Poll `i` carries the first accepted frame, and the window was open at every poll up to it. */
  predicate AcceptedAt(start: u32, polls: seq<Poll>, i: int)
  {
    0 <= i < |polls| &&
    (forall j :: 0 <= j <= i ==> Open(start, polls[j])) &&
    (forall j :: 0 <= j < i ==> Received(polls[j]).None?) &&
    Received(polls[i]).Some?
  }

  /** Poll `k` is the first one read after the deadline, and nothing was accepted before it. */
  predicate ExpiredAt(start: u32, polls: seq<Poll>, k: int)
  {
    0 <= k < |polls| &&
    !Open(start, polls[k]) &&
    (forall j :: 0 <= j < k ==> Open(start, polls[j]) && Received(polls[j]).None?)
  }

  /** The first accepted frame inside the window decides the outcome. */
  lemma {:induction false} AcceptedDecides(start: u32, polls: seq<Poll>, i: int)
    requires ReachesDeadline(start, polls)
    requires AcceptedAt(start, polls, i)
    ensures Await(start, polls) == Received(polls[i])
  {
    if i > 0 {
      assert Open(start, polls[0]) && Received(polls[0]).None?;
      assert AcceptedAt(start, polls[1..], i - 1) by {
        forall j | 0 <= j <= i - 1 ensures Open(start, polls[1..][j]) {
          assert polls[1..][j] == polls[j + 1];
        }
        forall j | 0 <= j < i - 1 ensures Received(polls[1..][j]).None? {
          assert polls[1..][j] == polls[j + 1];
        }
      }
      AcceptedDecides(start, polls[1..], i - 1);
    } else {
      assert Open(start, polls[0]);
    }
  }

  /** With no accepted frame before the first poll past the deadline, the window times out. */
  lemma {:induction false} ExpiredTimesOut(start: u32, polls: seq<Poll>, k: int)
    requires ExpiredAt(start, polls, k)
    ensures ReachesDeadline(start, polls) && Await(start, polls) == None
  {
    assert !Open(start, polls[k]);
    if k > 0 {
      assert Open(start, polls[0]) && Received(polls[0]).None?;
      assert ExpiredAt(start, polls[1..], k - 1) by {
        assert polls[1..][k - 1] == polls[k];
        forall j | 0 <= j < k - 1 ensures Open(start, polls[1..][j]) && Received(polls[1..][j]).None? {
          assert polls[1..][j] == polls[j + 1];
        }
      }
      ExpiredTimesOut(start, polls[1..], k - 1);
    }
  }

  /** Every window ends in exactly one of the two ways above. */
  lemma {:induction false} AwaitOutcome(start: u32, polls: seq<Poll>)
    requires ReachesDeadline(start, polls)
    ensures Await(start, polls).Some? ==> exists i :: AcceptedAt(start, polls, i) && Await(start, polls) == Received(polls[i])
    ensures Await(start, polls).None? ==> exists k :: ExpiredAt(start, polls, k)
  {
    if !Open(start, polls[0]) {
      assert ExpiredAt(start, polls, 0);
    } else if Received(polls[0]).Some? {
      assert AcceptedAt(start, polls, 0);
    } else {
      var rest := polls[1..];
      assert ReachesDeadline(start, rest) by {
        var i :| 0 <= i < |polls| && !Open(start, polls[i]);
        assert rest[i - 1] == polls[i];
      }
      AwaitOutcome(start, rest);
      if Await(start, rest).Some? {
        var i :| AcceptedAt(start, rest, i) && Await(start, rest) == Received(rest[i]);
        assert AcceptedAt(start, polls, i + 1) by {
          forall j | 0 <= j <= i + 1 ensures Open(start, polls[j]) {
            if j > 0 { assert polls[j] == rest[j - 1]; }
          }
          forall j | 0 <= j < i + 1 ensures Received(polls[j]).None? {
            if j > 0 { assert polls[j] == rest[j - 1]; }
          }
          assert polls[i + 1] == rest[i];
        }
        assert polls[i + 1] == rest[i];
      } else {
        var k :| ExpiredAt(start, rest, k);
        assert ExpiredAt(start, polls, k + 1) by {
          assert polls[k + 1] == rest[k];
          forall j | 0 <= j < k + 1 ensures Open(start, polls[j]) && Received(polls[j]).None? {
            if j > 0 { assert polls[j] == rest[j - 1]; }
          }
        }
      }
    }
  }

  /**
   * Packets that fail the acceptance test (wrong length, foreign device,
   * unknown code) are skipped: they neither end the wait nor move its deadline.
   */
  lemma {:induction false} RejectedPollsIgnored(start: u32, skipped: seq<Poll>, rest: seq<Poll>)
    requires forall j :: 0 <= j < |skipped| ==> Open(start, skipped[j]) && Received(skipped[j]).None?
    requires ReachesDeadline(start, rest)
    ensures ReachesDeadline(start, skipped + rest)
    ensures Await(start, skipped + rest) == Await(start, rest)
    decreases |skipped|
  {
    var all := skipped + rest;
    assert ReachesDeadline(start, all) by {
      var i :| 0 <= i < |rest| && !Open(start, rest[i]);
      assert all[|skipped| + i] == rest[i];
    }
    if skipped != [] {
      assert all[0] == skipped[0];
      assert all[1..] == skipped[1..] + rest;
      RejectedPollsIgnored(start, skipped[1..], rest);
    } else {
      assert all == rest;
    }
  }

  /**
   * A packet of the wrong length, or a two-byte packet from another device
   * (even one carrying an acknowledgement code), inside the window is skipped.
   */
  lemma MalformedOrForeignIgnored(start: u32, p: Poll, rest: seq<Poll>)
    requires Open(start, p)
    requires p.packet.Some? && (|p.packet.value| != 2 || p.packet.value[0] != DEVICE_ID)
    requires ReachesDeadline(start, rest)
    ensures ReachesDeadline(start, [p] + rest)
    ensures Await(start, [p] + rest) == Await(start, rest)
  {
    RejectedPollsIgnored(start, [p], rest);
  }

  /** The receive-window deadline measured in real milliseconds, across a clock wrap-around. */
  lemma WindowInRealTime(s: nat, t: nat, packet: Option<seq<byte>>)
    requires s <= t < s + MODULUS
    ensures Open(Millis(s), Poll(Millis(t), packet)) <==> t < s + WINDOW_MS
  {
    ElapsedOfReal(s, t);
  }

  const STATUS_INITIAL: string := "EN ATTENTE..."
  const STATUS_ON: string := "ALLUME"
  const STATUS_OFF: string := "ETEINT"
  const STATUS_TIMEOUT: string := "ERREUR: Pas de Reponse"

  /**
   * The status string a finished exchange leaves behind: always freshly
   * written, and one of the two relay states exactly when an acknowledgement
   * arrived.
   */
  function StatusText(r: Option<Ack>): (s: string)
    ensures s == STATUS_ON <==> r == Some(RelayIsOn)
    ensures s == STATUS_OFF <==> r == Some(RelayIsOff)
    ensures s == STATUS_TIMEOUT <==> r.None?
    ensures s != STATUS_INITIAL
  {
    match r
    case Some(RelayIsOn) => STATUS_ON
    case Some(RelayIsOff) => STATUS_OFF
    case None => STATUS_TIMEOUT
  }

  /** LED pulses after an exchange: 2 for on, 3 for off, 5 for a timeout. */
  function AckPulses(r: Option<Ack>): nat
  {
    match r
    case Some(RelayIsOn) => 2
    case Some(RelayIsOff) => 3
    case None => 5
  }

  /**
   * The polling loop of `sendCmd`: one clock read per iteration, then the
   * packet test written out as the sketch does it.
   */
  method ReceiveWindow(start: u32, polls: seq<Poll>) returns (ack: Option<Ack>)
    requires ReachesDeadline(start, polls)
    ensures ack == Await(start, polls)
  {
    ghost var k :| 0 <= k < |polls| && !Open(start, polls[k]);
    var i := 0;
    while Elapsed(polls[i].clock, start) < WINDOW_MS
      invariant 0 <= i <= k
      invariant ReachesDeadline(start, polls[i..])
      invariant Await(start, polls[i..]) == Await(start, polls)
      decreases k - i
    {
      assert polls[i..][0] == polls[i] && polls[i..][1..] == polls[i + 1..];
      var packet := polls[i].packet;
      if packet.Some? && |packet.value| == 2 {
        var id, r := packet.value[0], packet.value[1];
        if id == DEVICE_ID {
          if r == ACK_RELAY_IS_ON {
            return Some(RelayIsOn);
          }
          if r == ACK_RELAY_IS_OFF {
            return Some(RelayIsOff);
          }
        }
      }
      i := i + 1;
    }
    assert polls[i..][0] == polls[i];
    return None;
  }
}
