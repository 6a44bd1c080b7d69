/** Request frames: `07 F0 | command | length | data... | checksum | 07 0F`,
    and the buffer the device actually hands to the transport. */
module Packets {
  import opened Bytes
  import opened Checksums

  const StartMarker: seq<byte> := [0x07, 0xF0]
  const EndMarker: seq<byte> := [0x07, 0x0F]

  /** The length field is one byte wide. */
  const MaxDataLength := 255

  /** Everything after the start marker(s): one command byte, the length, the
      data verbatim, the checksum over `[command, length, data...]`, and the
      end marker. Shared by request and response frames. */
  function FrameBody(command: byte, data: seq<byte>): seq<byte>
    requires |data| <= MaxDataLength
  {
    [command, |data|] + data + [Checksum([command, |data|] + data)] + EndMarker
  }

  /** The request frame `create_packet` lays out: exactly `|data| + 7` bytes,
      the checksum covering only the bytes between the markers. */
  function Packet(command: byte, data: seq<byte>): (p: seq<byte>)
    requires |data| <= MaxDataLength
    ensures |p| == |data| + 7
    ensures p[..2] == StartMarker
    ensures p[2] == command && p[3] == |data|
    ensures p[4..4 + |data|] == data
    ensures p[4 + |data|] == Checksum(p[2..4 + |data|])
    ensures p[|data| + 5..] == EndMarker
  {
    var p := StartMarker + FrameBody(command, data);
    assert p[2..4 + |data|] == [command, |data|] + data;
    p
  }

  /** The frame with a two-byte command, high byte 0x00, as the comment on
      `create_packet` describes it and as the device's responses carry it:
      `|data| + 8` bytes, which fills the send buffer exactly. Its checksum
      may be taken over the high byte too, a zero adding nothing. */
  function TwoByteCommandPacket(command: byte, data: seq<byte>): (p: seq<byte>)
    requires |data| <= MaxDataLength
    ensures |p| == |data| + 8
    ensures p[..2] == StartMarker
    ensures p[2] == 0x00 && p[3] == command && p[4] == |data|
    ensures p[5..5 + |data|] == data
    ensures p[5 + |data|] == Checksum(p[2..5 + |data|])
    ensures p[|data| + 6..] == EndMarker
  {
    var p := StartMarker + [0x00] + FrameBody(command, data);
    var tail := [command, |data|] + data;
    assert p[2..5 + |data|] == [] + [0x00] + tail;
    assert [] + tail == tail;
    ZeroByteNeutral([], tail);
    p
  }

  /** The two-byte-command frame is the one-byte frame with the zero high
      byte inserted after the start marker. */
  lemma TwoByteCommandPacketInsertsHighByte(command: byte, data: seq<byte>)
    requires |data| <= MaxDataLength
    ensures TwoByteCommandPacket(command, data)
         == Packet(command, data)[..2] + [0x00] + Packet(command, data)[2..]
  {
  }

  /** The frame of the worked example: command 0x01 with no data. */
  lemma EmptyCommandPacket()
    ensures Packet(0x01, []) == [0x07, 0xF0, 0x01, 0x00, 0xAE, 0x07, 0x0F]
  {
    assert Checksum([0x01, 0x00]) == 0xAE by {
      assert OtherSum([0x01, 0x00]) == 1;
    }
    var empty: seq<byte> := [];
    assert [0x01, |empty|] + empty == [0x01, 0x00];
  }

  /** Sequential writes into a stack buffer through a `uint8_t` index: the
      k-th value goes to position `(index + k) mod 256`. */
  function WriteWrapped(buf: seq<byte>, index: nat, vals: seq<byte>): (r: seq<byte>)
    requires index + |vals| <= |buf|
    ensures |r| == |buf|
    ensures forall i :: 256 <= i < |buf| ==> r[i] == buf[i]
    decreases |vals|
  {
    if vals == [] then buf
    else WriteWrapped(buf[index % 256 := vals[0]], index + 1, vals[1..])
  }

  /** While the index stays below 256, the writes lay the values down in place. */
  lemma {:induction false} WriteWrappedInPlace(buf: seq<byte>, index: nat, vals: seq<byte>)
    requires index + |vals| <= 256 && index + |vals| <= |buf|
    ensures WriteWrapped(buf, index, vals) == buf[..index] + vals + buf[index + |vals|..]
    decreases |vals|
  {
    if vals != [] {
      var buf' := buf[index % 256 := vals[0]];
      WriteWrappedInPlace(buf', index + 1, vals[1..]);
      assert buf'[..index + 1] == buf[..index] + [vals[0]];
      assert buf'[index + 1 + |vals[1..]|..] == buf[index + |vals|..];
      assert [vals[0]] + vals[1..] == vals;
    }
  }

  /** What the source writes before the checksum: start marker, command,
      the length truncated to a byte, and the data. */
  function HeadAsWritten(command: byte, data: seq<byte>): (h: seq<byte>)
    ensures |h| == |data| + 4
  {
    [StopByte, 0xF0, command, |data| % 256] + data
  }

  /** The `8 + |data|` byte buffer `uart_send_command` writes to the
      transport, as written: `stack` is the uninitialised content of the
      buffer, the packet is built through a byte-wide index, and the
      checksum is read back from the buffer. */
  function SendBufferAsWritten(command: byte, data: seq<byte>, stack: seq<byte>): (buf: seq<byte>)
    requires |stack| == |data| + 8
    ensures |buf| == |data| + 8
    ensures forall i :: 256 <= i < |buf| ==> buf[i] == stack[i]
  {
    var n := |data|;
    var filled := WriteWrapped(stack, 0, HeadAsWritten(command, data));
    WriteWrapped(filled, n + 4, [Checksum(filled[2..n + 4]), StopByte, 0x0F])
  }

  /** Below the wrap, the first phase leaves the head in place and the
      checksum is computed over `[command, length, data...]`. */
  lemma HeadInPlace(command: byte, data: seq<byte>, stack: seq<byte>)
    requires |data| <= 249 && |stack| == |data| + 8
    ensures var filled := WriteWrapped(stack, 0, HeadAsWritten(command, data));
      && filled == HeadAsWritten(command, data) + stack[|data| + 4..]
      && filled[2..|data| + 4] == [command, |data|] + data
  {
    var head := HeadAsWritten(command, data);
    var filled := WriteWrapped(stack, 0, head);
    WriteWrappedInPlace(stack, 0, head);
    assert stack[..0] == [];
    assert filled == head + stack[|head|..];
    assert filled[2..|head|] == head[2..];
    assert head[2..] == [command, |data|] + data;
  }

  /** For data up to 249 bytes the buffer is the packet followed by one
      byte nobody wrote: the buffer is one byte longer than the frame. */
  lemma SendBufferIsPacketPlusStray(command: byte, data: seq<byte>, stack: seq<byte>)
    requires |data| <= 249 && |stack| == |data| + 8
    ensures SendBufferAsWritten(command, data, stack) == Packet(command, data) + [stack[|data| + 7]]
  {
    var n := |data|;
    var head := HeadAsWritten(command, data);
    HeadInPlace(command, data, stack);
    var filled := head + stack[n + 4..];
    var tail: seq<byte> := [Checksum([command, n] + data), StopByte, 0x0F];
    WriteWrappedInPlace(filled, n + 4, tail);
    assert filled[..n + 4] == head;
    assert filled[n + 7] == stack[n + 7];
    assert filled[n + 7..] == [stack[n + 7]];
    assert n % 256 == n;
    assert head == [StopByte, 0xF0, command, n] + data;
    assert head == StartMarker + ([command, n] + data);
    assert tail == [Checksum([command, n] + data)] + EndMarker;
    assert head + tail == StartMarker + FrameBody(command, data);
  }

  /** The last two of three wrapped writes land where the byte-wide index
      points, whatever the earlier writes did. */
  lemma WriteWrappedTail(buf: seq<byte>, index: nat, a: byte, b: byte, c: byte)
    requires index + 3 <= |buf|
    ensures var r := WriteWrapped(buf, index, [a, b, c]);
      r[(index + 1) % 256] == b && r[(index + 2) % 256] == c
  {
    var vals: seq<byte> := [a, b, c];
    var r1 := buf[index % 256 := a];
    var r2 := r1[(index + 1) % 256 := b];
    var r3 := r2[(index + 2) % 256 := c];
    assert vals[1..][1..][1..] == [];
    assert WriteWrapped(r2, index + 2, vals[1..][1..]) == WriteWrapped(r3, index + 3, []);
    assert (index + 1) % 256 != (index + 2) % 256;
  }

  /** For data of 250 bytes or more the index wraps before the frame is
      complete. The last end byte is never written where it belongs: the
      byte sent there is stack content. For 250 to 254 data bytes the end
      marker's two bytes overwrite the start marker or the length byte, so
      the frame on the wire is never the packet, whatever the stack held. */
  lemma SendBufferLosesEndByte(command: byte, data: seq<byte>, stack: seq<byte>)
    requires 250 <= |data| <= MaxDataLength && |stack| == |data| + 8
    ensures SendBufferAsWritten(command, data, stack)[|data| + 6] == stack[|data| + 6]
    ensures var buf := SendBufferAsWritten(command, data, stack);
      buf[(|data| + 5) % 256] == StopByte && buf[(|data| + 6) % 256] == 0x0F
    ensures |data| <= 254 || stack[|data| + 6] != 0x0F ==>
      SendBufferAsWritten(command, data, stack)[..|data| + 7] != Packet(command, data)
  {
    var n := |data|;
    var buf := SendBufferAsWritten(command, data, stack);
    var filled := WriteWrapped(stack, 0, HeadAsWritten(command, data));
    WriteWrappedTail(filled, n + 4, Checksum(filled[2..n + 4]), StopByte, 0x0F);
    var p := Packet(command, data);
    var sent := buf[..n + 7];
    if n == 250 {
      assert sent[0] == 0x0F != p[0];
    } else if n == 251 {
      assert sent[1] == 0x0F != p[1];
    } else if n == 252 {
      assert sent[1] == StopByte != p[1];
    } else if n == 253 {
      assert sent[3] == 0x0F != p[3];
    } else if n == 254 {
      assert sent[3] == StopByte != p[3];
    } else if stack[n + 6] != 0x0F {
      assert sent[n + 6] == buf[n + 6];
      assert p[n + 5..][1] == p[n + 6];
    }
  }
}
