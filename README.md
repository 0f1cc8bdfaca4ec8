# Relay remote control: radio command exchange and boot/power modes

This project models the core of a battery-powered field device (an ESP32-C6
sketch) that switches a remote relay over a LoRa radio link and then returns to
deep sleep. Two parts of the sketch make decisions, and both are modelled here.

* **Command/acknowledgement exchange (`sendCmd`).** The device sends the frame
  `[0x77, cmd]` twice. It then polls the radio until a 4000 ms receive window
  closes. It accepts a packet only if the packet is exactly two bytes long,
  starts with the device identifier 0x77, and carries `ACK_RELAY_IS_ON` (0xD4)
  or `ACK_RELAY_IS_OFF` (0xE5). The outcome is written to the global
  `webStatus` ("ALLUME", "ETEINT" or "ERREUR: Pas de Reponse") and returned as a
  bool.
* **Boot-mode selection and power decisions (`setup`).** While the button reads
  LOW, the device waits for more than 5000 ms to pass since `start`. If they
  do, it enters Interactive Mode: one `GetStatus`, then a web service loop that
  sleeps once more than 300000 ms have passed since the last activity (the
  entry `GetStatus` or the latest handled request).
  If the button is released first, the device takes the Physical path: no radio
  activity up to 50 ms, `RelayOn` up to 1500 ms, `RelayOff` beyond. Then it
  sleeps.

Modules:

* `Clock`: `millis()` values as 32-bit numbers. `Elapsed` is the `unsigned long`
  subtraction, modulo 2^32.
* `Protocol`: byte codes, frames, and the acceptance test `AcceptFrame`.
* `Radio`: the receive window as a trace of polls. Each poll is a clock read
  plus an optional packet. `Await` specifies the window and `ReceiveWindow` is
  the polling loop.
* `Boot`: the button loop (`SelectMode`, `PollButton`) and the Physical-Mode
  thresholds (`PhysicalCommand`).
* `Session`: the globals as a value (`Globals`), plus what `sendCmd`, each HTTP
  handler and the service loop do to them.
* `Device`: the `Device` class. Its fields are the sketch's globals, and its
  methods `SendCmd`, `Handle`, `ServiceLoop` and `Setup` are proved against the
  value-level definitions. `Startup` is the whole boot sequence as a value.

The clock, the button level, the radio's received packets and whether the radio
initialises are inputs (traces and booleans). Besides `webStatus` and
`lastActivityTime`, the model records these observable outputs: the frames
transmitted (`air`), the commands sent (`issued`) and the LED pulse counts
(`pulses`: 1 on entering Interactive Mode, 2 for on, 3 for off, 5 for a
timeout, 10 for a radio that does not start).

The clock reads in the traces are arbitrary 32-bit values: nothing requires
them to increase. The properties of the receive window, the button loop and the
service loop therefore hold for any sequence of reads. A real clock that only
moves forward is a special case, covered by the lemmas whose names end in
`InRealTime` and by `ElapsedOfReal`.

Points of the timing logic that are easy to misread:

* In Physical Mode one might expect a single elapsed-time value to feed both
  the "radio at all" decision and the on/off decision. The code reads
  `millis()` twice: once at line 114, and again at line 116 after the radio has
  been initialised. `PhysicalCommand` therefore takes two elapsed values.
  `PhysicalCommandInRealTime` shows what this means for monotone reads. The
  first read alone decides whether any command is sent. The second read alone
  then picks "on" (at most 1500 ms) or "off" (later). So "off" is certain once
  the first read is past 1500 ms.
* Interactive Mode is not timed from reset. The code measures from the clock
  read `start` (line 97), needs a read strictly greater than 5000 ms, and checks
  only while the button reads LOW.
* If the radio fails to start in Interactive Mode, the device has already given
  its one entry pulse. It then gives ten pulses and sleeps without sending
  anything (lines 102 and 67).

## Model

| member | source | states |
|---|---|---|
| Clock.Elapsed | src/main.cpp:78 | `now - since` on 32-bit unsigned values is the unique forward distance `d < 2^32` with `since + d ≡ now`; it is the plain difference without a wrap and `2^32 - since + now` across one |
| Clock.ElapsedOfReal | src/main.cpp:77-78 | when two clock reads are less than 2^32 ms apart in real time, the unsigned subtraction gives their real distance, even across a wrap-around of `millis()` |
| Protocol.CommandCode | src/main.cpp:16-20 | no command code equals an acknowledgement code |
| Protocol.AcceptFrame | src/main.cpp:79-84 | a packet is accepted iff it has length 2, its first byte is 0x77 and its second byte is 0xD4 or 0xE5; an accepted packet is exactly the acknowledgement frame of the state it reports |
| Protocol.AckFrameAccepted | src/main.cpp:79-83 | every acknowledgement frame `[0x77, 0xD4]` / `[0x77, 0xE5]` is accepted as "on" / "off" |
| Protocol.CommandEchoRejected | src/main.cpp:74-84 | an echo of the device's own command frame is never taken for an acknowledgement |
| Protocol.CommandFrameInjective | src/main.cpp:74-76 | different commands are sent as different frames |
| Radio.AcceptedDecides | src/main.cpp:78-84 | if the first accepted packet arrives while `millis() - s < 4000`, the window ends with that packet's acknowledgement |
| Radio.ExpiredTimesOut | src/main.cpp:78-87 | if the clock passes 4000 ms before any packet is accepted, the window ends in the timeout |
| Radio.AwaitOutcome | src/main.cpp:77-87 | every window ends in exactly one of these two ways: the first accepted packet inside the window, or the timeout at the first read past the deadline |
| Radio.RejectedPollsIgnored | src/main.cpp:78-86 | any run of polls inside the window with no packet, or with packets failing the acceptance test, neither ends the wait nor changes its outcome or deadline |
| Radio.MalformedOrForeignIgnored | src/main.cpp:79-81 | a packet of length other than 2, or a 2-byte packet from another device even carrying 0xD4 or 0xE5, is skipped |
| Radio.WindowInRealTime | src/main.cpp:77-78 | a poll falls inside the receive window iff it is less than 4000 real ms after the window starts, across a clock wrap-around |
| Radio.StatusText | src/main.cpp:82-87 | the status is "ALLUME" iff the ack is "on", "ETEINT" iff "off", the error string iff timeout, and it is never the initial "EN ATTENTE..." |
| Radio.ReceiveWindow | src/main.cpp:77-87 | the polling loop returns exactly the outcome `Await` defines for its trace |
| Session.StatusIgnoresHistory | src/main.cpp:82-87 | the status after `sendCmd` depends only on that call's receive window, so repeating a command against the same replies gives the same status |
| Session.Handle | src/main.cpp:104-107 | a handler sends at most its route's one command (none for `/`, on/off/status for the others), leaves the phase unchanged and resets `lastActivityTime` to its own clock read |
| Session.ServeSleepsIff | src/main.cpp:109 | the service loop puts the device to sleep iff some sleep test reads more than 300000 ms after the latest handled request; otherwise it keeps serving |
| Session.TickIssued | src/main.cpp:104-109 | one service iteration sends at most one command, and none when no request arrives or the request is `/` |
| Session.Requested | src/main.cpp:104-109 | the handled requests of some iterations send at most one command per iteration in all |
| Session.ServeRunIssued | src/main.cpp:104-109 | gives the number `n` of iterations the service loop ran (`RanFor`: no sleep test fired before the `n`-th, and the `n`-th fired unless all iterations ran), and the loop appends exactly the route commands of the requests handled in those `n` iterations, in order |
| Session.ServeIssuesRequested | src/main.cpp:104-109 | for the `n` with `RanFor` (the iterations up to and including the first sleep test that fires, or all of them), the service loop appends exactly the route commands of the requests handled in those iterations, in order |
| Session.ServeIssuesAllRequested | src/main.cpp:104-109 | a service loop still serving at the end has appended the route commands of every request in its iterations, in order |
| Session.SleepDueInRealTime | src/main.cpp:109 | the sleep test fires iff more than 300000 real ms passed since the last activity, across a clock wrap-around |
| Boot.FirstDecisiveExists | src/main.cpp:100-111 | a button loop that ends has a first sample at which it stops |
| Boot.SelectModeAtFirstDecisive | src/main.cpp:100-111 | the first stopping sample decides: Interactive iff the button still reads LOW there with elapsed > 5000, Physical iff it reads released |
| Boot.InteractiveNeedsLongHold | src/main.cpp:100-101 | Interactive Mode is entered only if the button read LOW at every sample up to one whose clock read is more than 5000 ms after `start` |
| Boot.HoldInRealTime | src/main.cpp:101 | a LOW sample passes the hold test iff it is more than 5000 real ms after `start`, across a clock wrap-around |
| Boot.PollButton | src/main.cpp:97-111 | the button loop returns the mode `SelectMode` defines for its samples |
| Boot.PhysicalCommandSingleRead | src/main.cpp:114-117 | with one elapsed value: no command iff ≤ 50, `RelayOn` iff 50 < e ≤ 1500, `RelayOff` iff e > 1500 |
| Boot.PhysicalCommandInRealTime | src/main.cpp:114-117 | with two monotone reads: no command iff the first is ≤ 50 ms after `start`; `RelayOn` iff the first is > 50 ms and the second ≤ 1500 ms; `RelayOff` iff the first is > 50 ms and the second > 1500 ms, hence whenever the first is already > 1500 ms |
| Device.PhysicalPathSleeps | src/main.cpp:113-119 | the Physical path always ends asleep, sends at most one command (the thresholds' choice, or none when the radio fails) and leaves the activity time alone |
| Device.InteractiveEntry | src/main.cpp:101-109 | with a working radio, Interactive Mode sends exactly `GetStatus` followed by the route commands of the requests handled in the service iterations it ran (`RanFor`, timed from the activity read after `GetStatus`; all of them if still serving), and ends serving or asleep |
| Device.InitFailureSleeps | src/main.cpp:67 | a radio that does not start leads to sleep with no command sent, no frame transmitted and the status unchanged |
| Device.Device.constructor | src/main.cpp:35-36 | the globals start as `lastActivityTime = 0` and `webStatus = "EN ATTENTE..."`, with nothing sent yet |
| Device.Device.SendCmd | src/main.cpp:73-88 | appends exactly two frames `[0x77, cmd]`, writes the status and pulses of the window's outcome, changes nothing else, and returns true iff the status is "ALLUME" or "ETEINT" |
| Device.Device.GoToDeepSleep | src/main.cpp:54-58 | the device enters the terminal sleep phase and nothing else changes |
| Device.Device.InitLoRa | src/main.cpp:62-71 | a working radio changes nothing; a failing one adds ten pulses and puts the device to sleep |
| Device.Device.Handle | src/main.cpp:104-107 | a handled request changes the state exactly as `Session.Handle` says |
| Device.Device.ServiceLoop | src/main.cpp:109 | the loop leaves the state `Serve` defines: requests handled in order until the first sleep test that fires |
| Device.Device.Setup | src/main.cpp:90-120 | `setup` leaves the state `Startup` defines and reports the path taken |

## Left out

- LoRa configuration (SPI pins, frequency, spreading factor, bandwidth, coding rate, sync word, transmit power): these are calls into the radio library. Only whether `LoRa.begin` succeeds is kept, as a boolean input.
- WiFi access point, `WebServer` routing, HTTP 200/303 responses and the HTML template: these are network and UI glue. Each handler keeps only its command and its reset of `lastActivityTime`.
- `ledSignal` timing and GPIO writes: only the pulse count of each signal is recorded.
- `goToDeepSleep` internals (radio sleep, WiFi off, GPIO wake source): these are modelled as the terminal `Asleep` phase. Waking is a new boot.
- `getBattery`, `Serial.begin`, the `delay` calls and the empty `loop`: they make no decisions. Delays only show up as later clock reads in the traces.
- The `volatile` qualifier on `lastActivityTime`: the program is single-threaded.
- Device.Device.ServiceLoop: the sketch's service loop never ends on its own. The model runs it over a finite prefix of iterations, and a prefix that ends before the sleep test fires leaves the device serving.
- Radio.ReceiveWindow: the clock is assumed to keep running. The trace must contain a read past the deadline (`ReachesDeadline`). This is stronger than the loop needs, because the loop also ends on an accepted packet. It costs nothing, since any real trace can be extended with later clock reads. On real hardware `millis()` always advances; without it the loop need not end.
- Boot.PollButton: the button samples must contain one at which the loop stops, either a release or a LOW read more than 5000 ms after `start` (`ButtonDecides`). This is exactly the loop's termination condition.
- Device.Device.Setup: `EnvLive` asks for a receive window that reaches its deadline and for service iterations whose windows do too, even on paths that never use them: the Physical path, the path with no radio activity (50 ms or less), and a failed radio start. This costs nothing, because any environment can supply such values (an empty service list, a window whose first read is past the deadline), and those paths never read them.
- Device.Device.SendCmd: "both frames go out before polling starts" is shown by the order of statements in the method, not stated in its postcondition.
