/** The WHR930 checksum: a byte-wide sum seeded with 0xAD in which only the
    first occurrence of the stop byte 0x07 is counted. */
module Checksums {
  import opened Bytes

  /** Initial value of the accumulator. */
  const Seed: byte := 0xAD

  /** The device's left-to-right scan, one byte per step: `acc` is the byte
      accumulator and `seen` records whether a stop byte has been met. A byte
      is added (modulo 256, the accumulator being a byte) unless it is a stop
      byte and one was met before. */
  function ChecksumFrom(acc: byte, seen: bool, bs: seq<byte>): byte
    decreases |bs|
  {
    if bs == [] then acc
    else
      var b := bs[0];
      var acc' := if b != StopByte || !seen then (acc + b) % 256 else acc;
      ChecksumFrom(acc', seen || b == StopByte, bs[1..])
  }

  /** The checksum of a span of bytes: (0xAD + the sum with the stop byte
      counted at most once) mod 256. The source's `checksum > 0xFF`
      correction can never fire, the accumulator being a byte, so this is
      plain byte wraparound. */
  function Checksum(bs: seq<byte>): (r: byte)
    ensures r == (Seed + DedupSum(bs)) % 256
  {
    ChecksumFromClosedForm(Seed, false, bs);
    ChecksumFrom(Seed, false, bs)
  }

  /** Sum of the bytes other than the stop byte. */
  function OtherSum(bs: seq<byte>): nat
    decreases |bs|
  {
    if bs == [] then 0
    else (if bs[0] == StopByte then 0 else bs[0]) + OtherSum(bs[1..])
  }

  /** Sum of the bytes in which the stop byte counts once if it occurs at all. */
  function DedupSum(bs: seq<byte>): nat
  {
    OtherSum(bs) + (if StopByte in bs then StopByte else 0)
  }

  lemma {:induction false} OtherSumAppend(a: seq<byte>, b: seq<byte>)
    ensures OtherSum(a + b) == OtherSum(a) + OtherSum(b)
    decreases |a|
  {
    if a != [] {
      assert (a + b)[1..] == a[1..] + b;
      OtherSumAppend(a[1..], b);
    } else {
      assert a + b == b;
    }
  }

  /** Reducing a partial sum modulo 256 early does not change the final byte. */
  lemma ModAbsorbs(x: nat, y: nat)
    ensures (x % 256 + y) % 256 == (x + y) % 256
  {
    var q := x / 256;
    assert x == 256 * q + x % 256;
    assert x + y == 256 * q + (x % 256 + y);
  }

  /** The scan agrees with the closed form: the accumulator plus every byte
      other than the stop byte, plus one stop byte if one occurs and none
      was met before, all modulo 256. */
  lemma {:induction false} ChecksumFromClosedForm(acc: byte, seen: bool, bs: seq<byte>)
    ensures ChecksumFrom(acc, seen, bs)
         == (acc + OtherSum(bs) + (if !seen && StopByte in bs then StopByte else 0)) % 256
    decreases |bs|
  {
    if bs != [] {
      var b, tail := bs[0], bs[1..];
      var seen' := seen || b == StopByte;
      var extra := if !seen' && StopByte in tail then StopByte else 0;
      assert bs == [b] + tail;
      assert (StopByte in bs) <==> (b == StopByte || StopByte in tail);
      if b != StopByte {
        ChecksumFromClosedForm((acc + b) % 256, seen', tail);
        ModAbsorbs(acc + b, OtherSum(tail) + extra);
      } else if !seen {
        ChecksumFromClosedForm((acc + b) % 256, seen', tail);
        ModAbsorbs(acc + b, OtherSum(tail));
      } else {
        ChecksumFromClosedForm(acc, seen', tail);
      }
    }
  }

  /** A stop byte after the first one contributes nothing. */
  lemma DuplicateStopByteIgnored(a: seq<byte>, b: seq<byte>)
    requires StopByte in a
    ensures Checksum(a + [StopByte] + b) == Checksum(a + b)
  {
    OtherSumAppend(a + [StopByte], b);
    OtherSumAppend(a, [StopByte]);
    OtherSumAppend(a, b);
    assert StopByte in a + [StopByte] + b;
    assert StopByte in a + b;
  }

  /** The first stop byte does count. */
  lemma FirstStopByteCounted(a: seq<byte>, b: seq<byte>)
    requires StopByte !in a && StopByte !in b
    ensures Checksum(a + [StopByte] + b) == (Checksum(a + b) + StopByte) % 256
  {
    var sum := OtherSum(a) + OtherSum(b);
    OtherSumAppend(a + [StopByte], b);
    OtherSumAppend(a, [StopByte]);
    OtherSumAppend(a, b);
    assert StopByte in a + [StopByte] + b;
    assert StopByte !in a + b;
    assert DedupSum(a + [StopByte] + b) == sum + StopByte;
    assert DedupSum(a + b) == sum;
    ModAbsorbs(Seed + sum, StopByte);
  }

  /** A zero byte anywhere leaves the checksum unchanged. */
  lemma ZeroByteNeutral(a: seq<byte>, b: seq<byte>)
    ensures Checksum(a + [0] + b) == Checksum(a + b)
  {
    OtherSumAppend(a + [0], b);
    OtherSumAppend(a, [0]);
    OtherSumAppend(a, b);
    assert (StopByte in a + [0] + b) <==> (StopByte in a + b);
  }

  /** Worked instances of the stop-byte rule. */
  lemma StopByteExamples()
    ensures Checksum([0x07, 0x07, 0x05]) == Checksum([0x07, 0x05]) == 0xB9
    ensures Checksum([0x01, 0x00]) == 0xAE
  {
    DuplicateStopByteIgnored([0x07], [0x05]);
    assert [0x07] + [StopByte] + [0x05] == [0x07, 0x07, 0x05];
    assert [0x07] + [0x05] == [0x07, 0x05];
  }

  /** The device's checksum loop over a span, as written: a byte accumulator
      and a stop-byte flag. */
  method ComputeChecksum(bytes: seq<byte>) returns (checksum: byte)
    ensures checksum == Checksum(bytes)
    ensures checksum == (Seed + DedupSum(bytes)) % 256
  {
    checksum := Seed;
    var foundStopByte := false;
    var i := 0;
    while i < |bytes|
      invariant 0 <= i <= |bytes|
      invariant ChecksumFrom(checksum, foundStopByte, bytes[i..]) == Checksum(bytes)
    {
      var b := bytes[i];
      assert bytes[i..][1..] == bytes[i + 1..];
      if (b == StopByte && !foundStopByte) || b != StopByte {
        checksum := (checksum + b) % 256;
      }
      if b == StopByte {
        foundStopByte := true;
      }
      i := i + 1;
    }
  }
}
