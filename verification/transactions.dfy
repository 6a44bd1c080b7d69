/** The transaction layer: a command is "clear stale input, write the frame,
    require the acknowledgement `07 F3`"; a request additionally reads the
    response frame, and only once the acknowledgement was received. */
module Transactions {
  import opened Bytes
  import opened Packets
  import opened Uart
  import opened Responses

  const AckMarker: seq<byte> := [0x07, 0xF3]

  /** The serial link seen from the controller: bytes waiting to be read and
      everything written so far. */
  datatype Link = Link(input: seq<byte>, sent: seq<byte>)

  /** `uart_received_ack`: the next two bytes must be `07 F3`; the second is
      only checked when the first matched. */
  function ReceivedAck(input: seq<byte>): (r: Step)
    ensures r.ok <==> AckMarker <= input
    ensures r.ok ==> r.rest == input[2..]
    ensures !r.ok && |input| > 0 && input[0] == StopByte ==> r.rest == input[1..]
    ensures !r.ok && (|input| == 0 || input[0] != StopByte) ==> r.rest == input
  {
    VerifyAll(input, AckMarker)
  }

  /** `uart_clear_buffer`: every byte waiting to be read is read and
      discarded; what was written is not affected. */
  function ClearBuffer(link: Link): (l: Link)
    ensures l.input == [] && l.sent == link.sent
  {
    Link([], link.sent)
  }

  /** `uart_send_command`: stale input is discarded before the frame for
      `command` and `data` goes out. */
  function SendCommand(link: Link, command: byte, data: seq<byte>): (l: Link)
    requires |data| <= MaxDataLength
    ensures l.input == []
    ensures l.sent == link.sent + Packet(command, data)
  {
    var cleared := ClearBuffer(link);
    Link(cleared.input, cleared.sent + Packet(command, data))
  }

  /** The unit's reply arriving after the write. */
  function Deliver(link: Link, reply: seq<byte>): Link
  {
    Link(link.input + reply, link.sent)
  }

  datatype CommandOutcome = CommandOutcome(ok: bool, link: Link)

  /** `uart_execute_command`, with the unit answering `reply`: succeeds
      exactly when the reply starts with the acknowledgement. Bytes that were
      waiting before the call play no part. */
  function ExecuteCommand(link: Link, command: byte, data: seq<byte>, reply: seq<byte>): (r: CommandOutcome)
    requires |data| <= MaxDataLength
    ensures r.ok <==> AckMarker <= reply
    ensures r.link.sent == link.sent + Packet(command, data)
    ensures r.ok ==> r.link.input == reply[2..]
  {
    var waiting := Deliver(SendCommand(link, command, data), reply);
    assert waiting.input == reply;
    var ack := ReceivedAck(waiting.input);
    CommandOutcome(ack.ok, Link(ack.rest, waiting.sent))
  }

  datatype RequestOutcome = RequestOutcome(ok: bool, dest: seq<byte>, link: Link)

  /** `uart_execute_request`, with the unit answering `reply` and `dest` the
      caller's data buffer: without the acknowledgement the response is not
      read and `dest` is untouched; with it, the outcome is exactly what
      `uart_process_response` makes of the bytes after the acknowledgement. */
  function ExecuteRequest(link: Link, command: byte, data: seq<byte>, expected: byte,
                          reply: seq<byte>, dest: seq<byte>): (r: RequestOutcome)
    requires |data| <= MaxDataLength && |dest| >= MaxResponseData
    ensures r.link.sent == link.sent + Packet(command, data)
    ensures !(AckMarker <= reply) ==> !r.ok && r.dest == dest
    ensures AckMarker <= reply ==>
      var t := ProcessResponse(expected, reply[2..], dest);
      r.ok == t.ok && r.dest == t.dest && r.link.input == t.rest
  {
    var waiting := Deliver(SendCommand(link, command, data), reply);
    assert waiting.input == reply;
    var ack := ReceivedAck(waiting.input);
    if !ack.ok then RequestOutcome(false, dest, Link(ack.rest, waiting.sent))
    else
      var t := ProcessResponse(expected, ack.rest, dest);
      RequestOutcome(t.ok, t.dest, Link(t.rest, waiting.sent))
  }

  /** Bytes left over from an earlier exchange never influence a command or
      a request: only what was sent before matters, not what was waiting. */
  lemma StaleInputIgnored(a: Link, b: Link, command: byte, data: seq<byte>, expected: byte,
                          reply: seq<byte>, dest: seq<byte>)
    requires a.sent == b.sent
    requires |data| <= MaxDataLength && |dest| >= MaxResponseData
    ensures ExecuteCommand(a, command, data, reply) == ExecuteCommand(b, command, data, reply)
    ensures ExecuteRequest(a, command, data, expected, reply, dest)
         == ExecuteRequest(b, command, data, expected, reply, dest)
  {
  }

  /** A request answered with the acknowledgement and a well-formed response
      whose data fits succeeds, hands the data to the caller, and leaves
      exactly the bytes after the frame unread. */
  lemma RequestRoundTrip(link: Link, command: byte, data: seq<byte>, expected: byte,
                         response: seq<byte>, rest: seq<byte>, dest: seq<byte>)
    requires |data| <= MaxDataLength && |dest| >= MaxResponseData
    requires |response| <= MaxResponseData
    ensures var r := ExecuteRequest(link, command, data, expected,
                                    AckMarker + ResponseFrame(expected, response) + rest, dest);
      && r.ok
      && r.dest[..|response|] == response
      && r.dest[|response|..] == dest[|response|..]
      && r.link.input == rest
  {
    var reply := AckMarker + ResponseFrame(expected, response) + rest;
    assert reply[2..] == ResponseFrame(expected, response) + rest;
    ParseFrameComplete(expected, response, rest, MaxResponseData);
  }

  /** After the acknowledgement, a successful transfer consumed exactly one
      response frame. */
  lemma AckedTransferIsFramed(expected: byte, reply: seq<byte>, dest: seq<byte>)
    requires |dest| >= MaxResponseData && |reply| >= 2 && reply[..2] == AckMarker
    ensures var t := ProcessResponse(expected, reply[2..], dest);
      t.ok ==>
        var response := ParseResponse(expected, reply[2..]).data;
        && |response| <= MaxResponseData
        && t.dest[..|response|] == response
        && reply == AckMarker + ResponseFrame(expected, response) + t.rest
  {
    var input := reply[2..];
    TransferIsFramed(expected, input, dest);
    assert reply == AckMarker + input;
  }

  /** Conversely, a successful request was answered with the acknowledgement
      followed by a response frame for `expected`, whose data now sits at the
      front of `dest`, and nothing after that frame was consumed. */
  lemma RequestSuccessIsFramed(link: Link, command: byte, data: seq<byte>, expected: byte,
                               reply: seq<byte>, dest: seq<byte>)
    requires |data| <= MaxDataLength && |dest| >= MaxResponseData
    ensures var r := ExecuteRequest(link, command, data, expected, reply, dest);
      r.ok ==>
        var response := ParseResponse(expected, reply[2..]).data;
        && |response| <= MaxResponseData
        && r.dest[..|response|] == response
        && reply == AckMarker + ResponseFrame(expected, response) + r.link.input
  {
    if AckMarker <= reply {
      AckedTransferIsFramed(expected, reply, dest);
    }
  }
}
