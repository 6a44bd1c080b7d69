/** The serial transport as a pure input queue: bytes available to read are
    a sequence, peeking looks at its head, reading drops it. Every primitive
    returns whether it succeeded and the input left afterwards. */
module Uart {
  import opened Bytes

  /** Outcome of one primitive: success flag and remaining input. */
  datatype Step = Step(ok: bool, rest: seq<byte>)

  /** `uart_wait_and_verify_byte`: succeeds when a byte is available and
      equals `expected`, and only then consumes it. A missing byte (the
      polling budget running out) and a different byte both fail without
      consuming anything. */
  function VerifyByte(input: seq<byte>, expected: byte): (r: Step)
    ensures |input| == 0 ==> !r.ok && r.rest == input
    ensures |input| > 0 && input[0] != expected ==> !r.ok && r.rest == input
    ensures |input| > 0 && input[0] == expected ==> r.ok && r.rest == input[1..]
  {
    if |input| < 1 then Step(false, input)
    else if input[0] != expected then Step(false, input)
    else Step(true, input[1..])
  }

  /** A short-circuit chain of `VerifyByte` calls, one per expected byte, as
      the source checks its two-byte markers. It succeeds exactly when the
      input starts with `expected`, consuming it. */
  function VerifyAll(input: seq<byte>, expected: seq<byte>): (r: Step)
    ensures r.ok <==> |expected| <= |input| && input[..|expected|] == expected
    ensures r.ok ==> r.rest == input[|expected|..]
    ensures |r.rest| <= |input|
    decreases |expected|
  {
    if expected == [] then Step(true, input)
    else
      var first := VerifyByte(input, expected[0]);
      if !first.ok then first
      else VerifyAll(first.rest, expected[1..])
  }

  /** On failure the chain has consumed the `k` bytes of `expected` that
      matched, and stopped at the first byte that was missing or different. */
  lemma {:induction false} VerifyAllStopsAtMismatch(input: seq<byte>, expected: seq<byte>) returns (k: nat)
    requires !VerifyAll(input, expected).ok
    ensures k < |expected| && k <= |input|
    ensures VerifyAll(input, expected).rest == input[k..]
    ensures forall i :: 0 <= i < k ==> input[i] == expected[i]
    ensures k == |input| || input[k] != expected[k]
    decreases |expected|
  {
    if |input| > 0 && input[0] == expected[0] {
      var tail := input[1..];
      assert VerifyAll(input, expected) == VerifyAll(tail, expected[1..]);
      var k' := VerifyAllStopsAtMismatch(tail, expected[1..]);
      k := k' + 1;
      assert tail[k'..] == input[k..];
      forall i | 0 < i < k
        ensures input[i] == expected[i]
      {
        assert input[i] == tail[i - 1] && expected[i] == expected[1..][i - 1];
      }
    } else {
      k := 0;
    }
  }
}
