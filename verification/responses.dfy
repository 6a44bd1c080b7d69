/** Response frames `07 F0 00 <command> n <n bytes> checksum 07 0F` and the
    fail-fast reader `uart_process_response`. */
module Responses {
  import opened Bytes
  import opened Checksums
  import opened Packets
  import opened Uart

  /** The reader's scratch buffer holds 20 bytes: the two command bytes, the
      length, and the data. */
  const ResponseBufferSize := 20
  const MaxResponseData := ResponseBufferSize - 3

  /** Why a response was rejected, in the order the reader checks. */
  datatype Error =
    | BadStart      // start marker missing or wrong
    | BadCommand    // command pair other than 00, expected
    | NoLength      // no length byte available
    | Oversize      // declared length does not fit the scratch buffer
    | Incomplete    // fewer data bytes available than declared
    | BadChecksum   // checksum byte missing or wrong
    | BadEnd        // end marker missing or wrong

  datatype Parse =
    | Parsed(data: seq<byte>, rest: seq<byte>)
    | Failed(error: Error, rest: seq<byte>)

  /** The frame a device sends in reply: the request layout with the command
      written as the two bytes `00, command`. */
  function ResponseFrame(command: byte, data: seq<byte>): seq<byte>
    requires |data| <= MaxDataLength
  {
    TwoByteCommandPacket(command, data)
  }

  /** The reader's checksum covers `[00, command, n, data...]`; the zero
      high command byte adds nothing, so it equals the request checksum. */
  lemma ResponseChecksum(command: byte, data: seq<byte>)
    requires |data| <= MaxDataLength
    ensures Checksum([0x00, command, |data|] + data) == Checksum([command, |data|] + data)
  {
    var tail := [command, |data|] + data;
    ZeroByteNeutral([], tail);
    assert [] + [0x00] + tail == [0x00, command, |data|] + data;
    assert [] + tail == tail;
  }

  /** Last stage of the reader: the checksum byte `sum`, then the end marker. */
  function ParseTrailer(sum: byte, data: seq<byte>, input: seq<byte>): (r: Parse)
    ensures r.Parsed? <==> 3 <= |input| && input[0] == sum && input[1..3] == EndMarker
    ensures r.Parsed? ==> r.data == data && r.rest == input[3..]
    ensures r.Failed? ==> (r.error == BadChecksum <==> |input| == 0 || input[0] != sum)
  {
    var check := VerifyByte(input, sum);
    if !check.ok then Failed(BadChecksum, check.rest)
    else
      var end := VerifyAll(check.rest, EndMarker);
      if !end.ok then Failed(BadEnd, end.rest)
      else Parsed(data, end.rest)
  }

  lemma TrailerComplete(sum: byte, data: seq<byte>, rest: seq<byte>)
    ensures ParseTrailer(sum, data, [sum] + EndMarker + rest) == Parsed(data, rest)
  {
    var input := [sum] + EndMarker + rest;
    assert input[1..] == EndMarker + rest;
    assert (EndMarker + rest)[2..] == rest;
  }

  lemma TrailerSound(sum: byte, data: seq<byte>, input: seq<byte>)
    requires ParseTrailer(sum, data, input).Parsed?
    ensures input == [sum] + EndMarker + ParseTrailer(sum, data, input).rest
  {
    var rest1 := input[1..];
    assert rest1[..2] == EndMarker;
    assert rest1 == EndMarker + rest1[2..];
  }

  /** Middle stage of the reader, after the command pair: the length byte
      `n` (taken as it comes), then `n` data bytes when `n > 0`, checked
      against the capacity of the scratch buffer first. */
  function ParseLength(expected: byte, input: seq<byte>, capacity: nat): (r: Parse)
    ensures r.Parsed? ==> |r.data| <= capacity
  {
    if |input| == 0 then Failed(NoLength, input)
    else
      var n := input[0];
      var body := input[1..];
      if n > capacity then Failed(Oversize, body)
      else if n > 0 && |body| < n then Failed(Incomplete, body)
      else ParseTrailer(Checksum([0x00, expected, n] + body[..n]), body[..n], body[n..])
  }

  lemma LengthComplete(expected: byte, data: seq<byte>, rest: seq<byte>, capacity: nat)
    requires |data| <= MaxDataLength && |data| <= capacity
    ensures var sum := Checksum([expected, |data|] + data);
      ParseLength(expected, [|data|] + data + [sum] + EndMarker + rest, capacity) == Parsed(data, rest)
  {
    var n: byte := |data|;
    var sum := Checksum([expected, n] + data);
    var tail := [sum] + EndMarker + rest;
    var input: seq<byte> := [n] + data + [sum] + EndMarker + rest;
    assert input == [n] + (data + tail);
    var body := input[1..];
    assert body == data + tail;
    assert body[..n] == data;
    assert body[n..] == tail;
    ResponseChecksum(expected, data);
    TrailerComplete(sum, data, rest);
    assert ParseLength(expected, input, capacity) == ParseTrailer(sum, data, tail);
  }

  lemma LengthSound(expected: byte, input: seq<byte>, capacity: nat)
    requires ParseLength(expected, input, capacity).Parsed?
    ensures var r := ParseLength(expected, input, capacity);
      && |r.data| <= MaxDataLength
      && input == [|r.data|] + r.data + [Checksum([expected, |r.data|] + r.data)] + EndMarker + r.rest
  {
    var r := ParseLength(expected, input, capacity);
    var n := input[0];
    var body := input[1..];
    assert n <= capacity && |body| >= n;
    var data := body[..n];
    var sum := Checksum([0x00, expected, n] + data);
    assert r == ParseTrailer(sum, data, body[n..]);
    TrailerSound(sum, data, body[n..]);
    ResponseChecksum(expected, data);
    assert body == data + ([sum] + EndMarker + r.rest);
    assert input == [n] + body;
    assert [n] + (data + ([sum] + EndMarker + r.rest)) == [n] + data + [sum] + EndMarker + r.rest;
  }

  /** First stages of the reader, for a data capacity of `capacity` bytes:
      start marker, then the command pair `00, expected`, then the rest as
      `ParseLength`. The first failure ends the read. */
  function ParseFrame(expected: byte, input: seq<byte>, capacity: nat): (r: Parse)
    ensures r.Parsed? ==> |r.data| <= capacity
  {
    var start := VerifyAll(input, StartMarker);
    if !start.ok then Failed(BadStart, start.rest)
    else
      var command := VerifyAll(start.rest, [0x00, expected]);
      if !command.ok then Failed(BadCommand, command.rest)
      else ParseLength(expected, command.rest, capacity)
  }

  /** Past a correct start marker and command pair, the reader continues
      with the length byte. */
  lemma HeaderAccepted(expected: byte, afterCommand: seq<byte>, capacity: nat)
    ensures ParseFrame(expected, StartMarker + [0x00, expected] + afterCommand, capacity)
         == ParseLength(expected, afterCommand, capacity)
  {
    var afterStart := [0x00, expected] + afterCommand;
    var input := StartMarker + afterStart;
    assert StartMarker + [0x00, expected] + afterCommand == input;
    assert input[2..] == afterStart;
    assert VerifyAll(input, StartMarker) == Step(true, afterStart);
    assert afterStart[2..] == afterCommand;
    assert VerifyAll(afterStart, [0x00, expected]) == Step(true, afterCommand);
  }

  /** The reader as written: the length byte is trusted, so any length up to
      255 is read into the 20-byte scratch buffer. */
  function ParseResponseAsWritten(expected: byte, input: seq<byte>): (r: Parse)
    ensures r.Parsed? ==> |r.data| <= MaxDataLength
  {
    ParseFrame(expected, input, MaxDataLength)
  }

  /** The reader with the scratch buffer's bound enforced: a declared length
      above 17 is rejected before any data is read. */
  function ParseResponse(expected: byte, input: seq<byte>): (r: Parse)
    ensures r.Parsed? ==> 3 + |r.data| <= ResponseBufferSize
  {
    ParseFrame(expected, input, MaxResponseData)
  }

  /** Size of a response frame and position of its length byte. */
  lemma ResponseFrameLayout(command: byte, data: seq<byte>)
    requires |data| <= MaxDataLength
    ensures |ResponseFrame(command, data)| == |data| + 8
    ensures ResponseFrame(command, data)[4] == |data|
  {
  }

  /** The frame as the stages see it. */
  lemma ResponseFrameSplit(command: byte, data: seq<byte>, rest: seq<byte>)
    requires |data| <= MaxDataLength
    ensures ResponseFrame(command, data) + rest
         == StartMarker + ([0x00, command] + ([|data|] + data + [Checksum([command, |data|] + data)] + EndMarker + rest))
  {
  }

  /** A response frame followed by anything is accepted and yields its data
      and exactly the bytes after it. */
  lemma ParseFrameComplete(command: byte, data: seq<byte>, rest: seq<byte>, capacity: nat)
    requires |data| <= MaxDataLength && |data| <= capacity
    ensures ParseFrame(command, ResponseFrame(command, data) + rest, capacity) == Parsed(data, rest)
  {
    var afterCommand := [|data|] + data + [Checksum([command, |data|] + data)] + EndMarker + rest;
    ResponseFrameSplit(command, data, rest);
    assert ResponseFrame(command, data) + rest == StartMarker + [0x00, command] + afterCommand;
    HeaderAccepted(command, afterCommand, capacity);
    LengthComplete(command, data, rest, capacity);
  }

  /** Whatever the reader accepts is a response frame followed by the
      remaining input. */
  lemma ParseFrameSound(expected: byte, input: seq<byte>, capacity: nat)
    requires ParseFrame(expected, input, capacity).Parsed?
    ensures |ParseFrame(expected, input, capacity).data| <= MaxDataLength
    ensures var r := ParseFrame(expected, input, capacity);
      input == ResponseFrame(expected, r.data) + r.rest
  {
    var r := ParseFrame(expected, input, capacity);
    var afterStart := input[2..];
    var afterCommand := afterStart[2..];
    LengthSound(expected, afterCommand, capacity);
    assert afterStart == [0x00, expected] + afterCommand;
    assert input == StartMarker + afterStart;
    ResponseFrameSplit(expected, r.data, r.rest);
  }

  /** The corrected reader accepts exactly the response frames whose data
      fits the scratch buffer, followed by anything. */
  lemma ParseResponseCharacterised(expected: byte, input: seq<byte>, data: seq<byte>, rest: seq<byte>)
    ensures ParseResponse(expected, input) == Parsed(data, rest)
        <==> |data| <= MaxResponseData && input == ResponseFrame(expected, data) + rest
  {
    if ParseResponse(expected, input) == Parsed(data, rest) {
      ParseFrameSound(expected, input, MaxResponseData);
    }
    if |data| <= MaxResponseData && input == ResponseFrame(expected, data) + rest {
      ParseFrameComplete(expected, data, rest, MaxResponseData);
    }
  }

  /** The reader as written accepts exactly the response frames, whatever
      length up to 255 they declare, followed by anything. */
  lemma ParseResponseAsWrittenCharacterised(expected: byte, input: seq<byte>, data: seq<byte>, rest: seq<byte>)
    ensures ParseResponseAsWritten(expected, input) == Parsed(data, rest)
        <==> |data| <= MaxDataLength && input == ResponseFrame(expected, data) + rest
  {
    if ParseResponseAsWritten(expected, input) == Parsed(data, rest) {
      ParseFrameSound(expected, input, MaxDataLength);
    }
    if |data| <= MaxDataLength && input == ResponseFrame(expected, data) + rest {
      ParseFrameComplete(expected, data, rest, MaxDataLength);
    }
  }

  /** The reader as written accepts a well-formed frame declaring 18 data
      bytes, which it copies to positions 3 to 20 of its 20-byte buffer. */
  lemma AsWrittenOverrunsBuffer(expected: byte)
    ensures var data: seq<byte> := seq(MaxResponseData + 1, _ => 0);
      && ParseResponseAsWritten(expected, ResponseFrame(expected, data)) == Parsed(data, [])
      && 3 + |data| > ResponseBufferSize
      && ParseResponse(expected, ResponseFrame(expected, data)).Failed?
      && ParseResponse(expected, ResponseFrame(expected, data)).error == Oversize
  {
    var data: seq<byte> := seq(MaxResponseData + 1, _ => 0);
    ParseFrameComplete(expected, data, [], MaxDataLength);
    assert ResponseFrame(expected, data) + [] == ResponseFrame(expected, data);
    assert ResponseFrame(expected, data)[4] == |data|;
  }

  /** Frames are self-delimiting: no proper prefix of a valid frame is
      accepted, so a response cut short always fails. */
  lemma TruncatedFrameRejected(expected: byte, data: seq<byte>, k: nat)
    requires |data| <= MaxResponseData && k < |ResponseFrame(expected, data)|
    ensures ParseResponse(expected, ResponseFrame(expected, data)[..k]).Failed?
  {
    var cut := ResponseFrame(expected, data)[..k];
    if ParseResponse(expected, cut).Parsed? {
      var r := ParseResponse(expected, cut);
      ParseFrameSound(expected, cut, MaxResponseData);
      LengthByteFixesSize(expected, data, r.data, r.rest, k);
    }
  }

  /** The length byte fixes the size of a frame: a frame followed by
      anything that sits inside a prefix of another frame for the same
      command has the same size, and the prefix is that whole frame. */
  lemma LengthByteFixesSize(command: byte, data: seq<byte>, other: seq<byte>, rest: seq<byte>, k: nat)
    requires |data| <= MaxDataLength && |other| <= MaxDataLength
    requires k <= |ResponseFrame(command, data)|
    requires ResponseFrame(command, data)[..k] == ResponseFrame(command, other) + rest
    ensures |other| == |data| && k == |ResponseFrame(command, data)|
  {
    var frame := ResponseFrame(command, data);
    ResponseFrameLayout(command, data);
    ResponseFrameLayout(command, other);
    assert frame[..k][4] == frame[4];
    assert (ResponseFrame(command, other) + rest)[4] == ResponseFrame(command, other)[4];
  }

  /** A response for a different command is rejected at the command pair,
      after the start marker and the zero high byte were consumed. */
  lemma WrongCommandRejected(expected: byte, actual: byte, data: seq<byte>, rest: seq<byte>)
    requires expected != actual && |data| <= MaxDataLength
    ensures ParseResponse(expected, ResponseFrame(actual, data) + rest)
         == Failed(BadCommand, (ResponseFrame(actual, data) + rest)[3..])
  {
    var afterCommand := [|data|] + data + [Checksum([actual, |data|] + data)] + EndMarker + rest;
    var afterStart := [0x00, actual] + afterCommand;
    ResponseFrameSplit(actual, data, rest);
    var input := StartMarker + afterStart;
    assert input[2..] == afterStart;
    assert VerifyAll(input, StartMarker) == Step(true, afterStart);
    var pair: seq<byte> := [0x00, expected];
    assert afterStart[0] == 0x00 && afterStart[1] == actual;
    assert VerifyByte(afterStart, 0x00) == Step(true, afterStart[1..]);
    assert VerifyByte(afterStart[1..], expected) == Step(false, afterStart[1..]);
    assert pair[1..] == [expected];
    assert VerifyAll(afterStart[1..], pair[1..]) == Step(false, afterStart[1..]);
    assert VerifyAll(afterStart, pair) == Step(false, afterStart[1..]);
    assert input[3..] == afterStart[1..];
  }

  /** A frame whose checksum byte is wrong is rejected at the checksum, the
      bad byte left unread. */
  lemma CorruptChecksumRejected(expected: byte, data: seq<byte>, wrong: byte, rest: seq<byte>)
    requires |data| <= MaxResponseData
    requires wrong != Checksum([expected, |data|] + data)
    ensures var tail := [wrong] + EndMarker + rest;
      ParseResponse(expected, StartMarker + [0x00, expected] + ([|data|] + data + tail))
      == Failed(BadChecksum, tail)
  {
    var tail := [wrong] + EndMarker + rest;
    HeaderAccepted(expected, [|data|] + data + tail, MaxResponseData);
    LengthRejectsWrongSum(expected, data, tail, MaxResponseData);
  }

  lemma LengthRejectsWrongSum(expected: byte, data: seq<byte>, tail: seq<byte>, capacity: nat)
    requires |data| <= MaxDataLength && |data| <= capacity
    requires |tail| > 0 && tail[0] != Checksum([expected, |data|] + data)
    ensures ParseLength(expected, [|data|] + data + tail, capacity) == Failed(BadChecksum, tail)
  {
    var n: byte := |data|;
    var input := [n] + data + tail;
    var body := input[1..];
    assert body == data + tail;
    assert body[..n] == data;
    assert body[n..] == tail;
    ResponseChecksum(expected, data);
    var sum := Checksum([0x00, expected, n] + data);
    assert ParseLength(expected, input, capacity) == ParseTrailer(sum, data, tail);
    assert VerifyByte(tail, sum) == Step(false, tail);
  }

  /** The response of the worked example: command 0x01 without data. */
  lemma EmptyResponseExample()
    ensures ParseResponse(0x01, [0x07, 0xF0, 0x00, 0x01, 0x00, 0xAE, 0x07, 0x0F]) == Parsed([], [])
  {
    var empty: seq<byte> := [];
    EmptyCommandPacket();
    assert FrameBody(0x01, empty) == Packet(0x01, empty)[2..];
    assert ResponseFrame(0x01, empty) + empty == [0x07, 0xF0, 0x00, 0x01, 0x00, 0xAE, 0x07, 0x0F];
    ParseFrameComplete(0x01, empty, empty, MaxResponseData);
  }

  /** Outcome of `uart_process_response` seen by its caller: the verdict,
      the caller's data buffer afterwards, and the remaining input. */
  datatype Transfer = Transfer(ok: bool, dest: seq<byte>, rest: seq<byte>)

  /** `uart_process_response`: the caller's buffer receives the data only
      once every check has passed; on failure it is left untouched. */
  function ProcessResponse(expected: byte, input: seq<byte>, dest: seq<byte>): (r: Transfer)
    requires |dest| >= MaxResponseData
    ensures |r.dest| == |dest|
    ensures r.ok <==> ParseResponse(expected, input).Parsed?
    ensures !r.ok ==> r.dest == dest
    ensures r.ok ==> var data := ParseResponse(expected, input).data;
      r.dest[..|data|] == data && r.dest[|data|..] == dest[|data|..]
    ensures r.rest == ParseResponse(expected, input).rest
  {
    match ParseResponse(expected, input)
    case Parsed(data, rest) => Transfer(true, data + dest[|data|..], rest)
    case Failed(_, rest) => Transfer(false, dest, rest)
  }

  /** A successful transfer consumed exactly one response frame, whose data
      it copied. */
  lemma TransferIsFramed(expected: byte, input: seq<byte>, dest: seq<byte>)
    requires |dest| >= MaxResponseData
    ensures var t := ProcessResponse(expected, input, dest);
      t.ok ==>
        var data := ParseResponse(expected, input).data;
        && |data| <= MaxResponseData
        && t.dest[..|data|] == data
        && input == ResponseFrame(expected, data) + t.rest
  {
    if ProcessResponse(expected, input, dest).ok {
      ParseFrameSound(expected, input, MaxResponseData);
    }
  }
}
