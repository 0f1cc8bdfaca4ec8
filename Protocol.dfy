/**
 * The radio wire format shared with the relay unit: every frame is exactly two
 * bytes, the device identifier followed by one command or acknowledgement code.
 * There is no length field, checksum or sequence number.
 */
module Protocol {
  import opened Wrappers

  type byte = x: int | 0 <= x < 256

  const DEVICE_ID: byte := 0x77

  const CMD_RELAY_ON: byte := 0xA1
  const CMD_RELAY_OFF: byte := 0xB2
  const CMD_GET_STATUS: byte := 0xC3
  const ACK_RELAY_IS_ON: byte := 0xD4
  const ACK_RELAY_IS_OFF: byte := 0xE5

  /** What the remote control can ask the relay unit to do. */
  datatype Command = RelayOn | RelayOff | GetStatus

  /** What the relay unit reports back. */
  datatype Ack = RelayIsOn | RelayIsOff

  /** The payload byte of a command; no command code can be mistaken for an acknowledgement. */
  function CommandCode(c: Command): (b: byte)
    ensures b != ACK_RELAY_IS_ON && b != ACK_RELAY_IS_OFF
  {
    match c
    case RelayOn => CMD_RELAY_ON
    case RelayOff => CMD_RELAY_OFF
    case GetStatus => CMD_GET_STATUS
  }

  function AckCode(a: Ack): byte
  {
    match a
    case RelayIsOn => ACK_RELAY_IS_ON
    case RelayIsOff => ACK_RELAY_IS_OFF
  }

  /** The frame sent for a command. */
  function CommandFrame(c: Command): seq<byte>
  {
    [DEVICE_ID, CommandCode(c)]
  }

  /** The frame by which the relay unit acknowledges a state. */
  function AckFrame(a: Ack): seq<byte>
  {
    [DEVICE_ID, AckCode(a)]
  }

  /**
   * The acceptance test applied to every received packet while waiting for an
   * acknowledgement: exactly two bytes, addressed to this device, carrying one
   * of the two acknowledgement codes. Everything else is discarded.
   */
  function AcceptFrame(p: seq<byte>): (r: Option<Ack>)
    ensures r.Some? <==> |p| == 2 && p[0] == DEVICE_ID && (p[1] == ACK_RELAY_IS_ON || p[1] == ACK_RELAY_IS_OFF)
    ensures r.Some? ==> p == AckFrame(r.value)
  {
    if |p| != 2 then None
    else if p[0] != DEVICE_ID then None
    else if p[1] == ACK_RELAY_IS_ON then Some(RelayIsOn)
    else if p[1] == ACK_RELAY_IS_OFF then Some(RelayIsOff)
    else None
  }

  /** Every acknowledgement frame the relay unit can send is accepted as itself. */
  lemma AckFrameAccepted(a: Ack)
    ensures AcceptFrame(AckFrame(a)) == Some(a)
  {
  }

  /** An echo of our own command, heard on the shared channel, never passes as an acknowledgement. */
  lemma CommandEchoRejected(c: Command)
    ensures AcceptFrame(CommandFrame(c)) == None
  {
  }

  /** Distinct commands go out as distinct frames. */
  lemma CommandFrameInjective(c: Command, d: Command)
    ensures CommandFrame(c) == CommandFrame(d) ==> c == d
  {
    if CommandFrame(c) == CommandFrame(d) {
      assert CommandFrame(c)[1] == CommandFrame(d)[1];
    }
  }
}
