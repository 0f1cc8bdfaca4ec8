/**
 * Boot-mode selection. Right after reset the sketch reads the clock once
 * (`start`) and then polls the button: while it reads LOW (pressed), each
 * iteration reads the clock again and enters Interactive Mode once more than
 * 5000 ms have elapsed. Releasing the button first leads to Physical Mode,
 * where two further clock reads choose between no radio activity,
 * "relay on" and "relay off".
 */
module Boot {
  import opened Wrappers
  import opened Clock
  import opened Protocol

  const HOLD_MS: int := 5000
  const RADIO_FLOOR_MS: int := 50
  const OFF_AFTER_MS: int := 1500

  /** One iteration of the button loop: the level read, and the clock read made if it was LOW. */
  datatype ButtonSample = ButtonSample(low: bool, clock: u32)

  datatype Mode = Interactive | Physical

  /** The inner test `millis() - start > 5000`, reached only while the button reads LOW. */
  predicate HoldExpired(start: u32, s: ButtonSample)
  {
    s.low && Elapsed(s.clock, start) > HOLD_MS
  }

  /** A sample at which the button loop stops. */
  predicate Decisive(start: u32, s: ButtonSample)
  {
    !s.low || HoldExpired(start, s)
  }

  /** The loop ends: the button is released, or the clock passes the hold threshold. */
  predicate ButtonDecides(start: u32, samples: seq<ButtonSample>)
  {
    exists i :: 0 <= i < |samples| && Decisive(start, samples[i])
  }

  /** Sample `i` is the first at which the button loop stops. */
  predicate FirstDecisiveAt(start: u32, samples: seq<ButtonSample>, i: int)
  {
    0 <= i < |samples| &&
    Decisive(start, samples[i]) &&
    forall j :: 0 <= j < i ==> !Decisive(start, samples[j])
  }

  /** The mode the button loop selects. */
  function SelectMode(start: u32, samples: seq<ButtonSample>): Mode
    requires ButtonDecides(start, samples)
    decreases |samples|
  {
    if !samples[0].low then Physical
    else if HoldExpired(start, samples[0]) then Interactive
    else
      assert ButtonDecides(start, samples[1..]) by {
        var i :| 0 <= i < |samples| && Decisive(start, samples[i]);
        assert samples[1..][i - 1] == samples[i];
      }
      SelectMode(start, samples[1..])
  }

  /** Every terminating button loop has a first stopping sample. */
  lemma {:induction false} FirstDecisiveExists(start: u32, samples: seq<ButtonSample>)
    requires ButtonDecides(start, samples)
    ensures exists i :: FirstDecisiveAt(start, samples, i)
    decreases |samples|
  {
    if Decisive(start, samples[0]) {
      assert FirstDecisiveAt(start, samples, 0);
    } else {
      var rest := samples[1..];
      assert ButtonDecides(start, rest) by {
        var i :| 0 <= i < |samples| && Decisive(start, samples[i]);
        assert rest[i - 1] == samples[i];
      }
      FirstDecisiveExists(start, rest);
      var i :| FirstDecisiveAt(start, rest, i);
      assert FirstDecisiveAt(start, samples, i + 1) by {
        assert samples[i + 1] == rest[i];
        forall j | 0 <= j < i + 1 ensures !Decisive(start, samples[j]) {
          if j > 0 { assert samples[j] == rest[j - 1]; }
        }
      }
    }
  }

  /**
   * The first stopping sample decides the mode: Interactive Mode exactly when
   * the button still reads LOW there, i.e. it was LOW at every sample so far
   * and this read is more than 5000 ms after `start`; otherwise the button was
   * released first and the mode is Physical.
   */
  lemma {:induction false} SelectModeAtFirstDecisive(start: u32, samples: seq<ButtonSample>, i: int)
    requires FirstDecisiveAt(start, samples, i)
    ensures ButtonDecides(start, samples)
    ensures SelectMode(start, samples) == Interactive <==> HoldExpired(start, samples[i])
    ensures SelectMode(start, samples) == Physical <==> !samples[i].low
    decreases |samples|
  {
    assert Decisive(start, samples[i]);
    if i > 0 {
      var rest := samples[1..];
      assert !Decisive(start, samples[0]);
      assert FirstDecisiveAt(start, rest, i - 1) by {
        assert rest[i - 1] == samples[i];
        forall j | 0 <= j < i - 1 ensures !Decisive(start, rest[j]) {
          assert rest[j] == samples[j + 1];
        }
      }
      SelectModeAtFirstDecisive(start, rest, i - 1);
      assert rest[i - 1] == samples[i];
    }
  }

  /** Interactive Mode needs the button held LOW up to a clock read more than 5000 ms after `start`. */
  lemma InteractiveNeedsLongHold(start: u32, samples: seq<ButtonSample>)
    requires ButtonDecides(start, samples)
    requires SelectMode(start, samples) == Interactive
    ensures exists i :: 0 <= i < |samples| && HoldExpired(start, samples[i]) &&
                        forall j :: 0 <= j <= i ==> samples[j].low
  {
    FirstDecisiveExists(start, samples);
    var i :| FirstDecisiveAt(start, samples, i);
    SelectModeAtFirstDecisive(start, samples, i);
    assert forall j :: 0 <= j <= i ==> samples[j].low;
  }

  /** The 5000 ms hold measured in real milliseconds, across a clock wrap-around. */
  lemma HoldInRealTime(s: nat, t: nat)
    requires s <= t < s + MODULUS
    ensures HoldExpired(Millis(s), ButtonSample(true, Millis(t))) <==> t > s + HOLD_MS
  {
    ElapsedOfReal(s, t);
  }

  /** The button loop of `setup`. */
  method PollButton(start: u32, samples: seq<ButtonSample>) returns (mode: Mode)
    requires ButtonDecides(start, samples)
    ensures mode == SelectMode(start, samples)
  {
    ghost var k :| 0 <= k < |samples| && Decisive(start, samples[k]);
    var i := 0;
    while samples[i].low
      invariant 0 <= i <= k
      invariant ButtonDecides(start, samples[i..])
      invariant SelectMode(start, samples[i..]) == SelectMode(start, samples)
      decreases k - i
    {
      assert samples[i..][0] == samples[i] && samples[i..][1..] == samples[i + 1..];
      if Elapsed(samples[i].clock, start) > HOLD_MS {
        return Interactive;
      }
      i := i + 1;
    }
    assert samples[i..][0] == samples[i];
    return Physical;
  }

  /**
   * The Physical-Mode choice. `modeElapsed` is `millis() - start` read before
   * the radio is initialised, `choiceElapsed` the separate read after it.
   */
  function PhysicalCommand(modeElapsed: u32, choiceElapsed: u32): Option<Command>
  {
    if modeElapsed <= RADIO_FLOOR_MS then None
    else if choiceElapsed > OFF_AFTER_MS then Some(RelayOff)
    else Some(RelayOn)
  }

  /** When both tests see the same elapsed time: none up to 50 ms, "on" up to 1500 ms, "off" beyond. */
  lemma PhysicalCommandSingleRead(e: u32)
    ensures PhysicalCommand(e, e).None? <==> e <= RADIO_FLOOR_MS
    ensures PhysicalCommand(e, e) == Some(RelayOn) <==> RADIO_FLOOR_MS < e <= OFF_AFTER_MS
    ensures PhysicalCommand(e, e) == Some(RelayOff) <==> OFF_AFTER_MS < e
  {
  }

  /**
   * With reads taken in real time `s <= t1 <= t2` (less than 2^32 ms apart):
   * no radio activity exactly when the first read is at most 50 ms after
   * `start`; otherwise the second read alone picks "relay on" (at most
   * 1500 ms) or "relay off" (later), so "off" is certain once the first read
   * is already past 1500 ms.
   */
  lemma PhysicalCommandInRealTime(s: nat, t1: nat, t2: nat)
    requires s <= t1 <= t2 < s + MODULUS
    ensures PhysicalCommand(Elapsed(Millis(t1), Millis(s)), Elapsed(Millis(t2), Millis(s))).None? <==> t1 <= s + RADIO_FLOOR_MS
    ensures PhysicalCommand(Elapsed(Millis(t1), Millis(s)), Elapsed(Millis(t2), Millis(s))) == Some(RelayOn) <==>
              s + RADIO_FLOOR_MS < t1 && t2 <= s + OFF_AFTER_MS
    ensures PhysicalCommand(Elapsed(Millis(t1), Millis(s)), Elapsed(Millis(t2), Millis(s))) == Some(RelayOff) <==>
              s + RADIO_FLOOR_MS < t1 && s + OFF_AFTER_MS < t2
    ensures t1 > s + OFF_AFTER_MS ==> PhysicalCommand(Elapsed(Millis(t1), Millis(s)), Elapsed(Millis(t2), Millis(s))) == Some(RelayOff)
  {
    ElapsedOfReal(s, t1);
    ElapsedOfReal(s, t2);
  }
}
