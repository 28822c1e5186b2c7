/** The byte cursor of pkg/util/bytes.go. */
module Bytes {

  /** Go's `byte` (`uint8`). */
  type byte = b: int | 0 <= b < 0x100

  /** The three results of ShiftNBytes: the requested prefix, the buffer left after it,
      and whether the "requested more bytes than available" error was returned. */
  datatype Shifted = Shifted(taken: seq<byte>, rest: seq<byte>, failed: bool)

  /** Takes `numBytes` bytes from the front of `bytes`. On underflow the prefix is Go's nil
      slice (modelled as the empty sequence) and the buffer is handed back untouched. */
  function ShiftNBytes(numBytes: nat, bytes: seq<byte>): (r: Shifted)
    ensures r.failed <==> |bytes| < numBytes
    ensures r.failed ==> r.taken == [] && r.rest == bytes
    ensures !r.failed ==> |r.taken| == numBytes && r.taken + r.rest == bytes
    ensures !r.failed ==> |r.rest| == |bytes| - numBytes
    ensures numBytes == 0 ==> r == Shifted([], bytes, false)
  {
    if |bytes| < numBytes then Shifted([], bytes, true)
    else Shifted(bytes[..numBytes], bytes[numBytes..], false)
  }

  /** Shifting exactly the length of a known prefix splits the buffer there. */
  lemma ShiftPrefix(a: seq<byte>, b: seq<byte>)
    ensures ShiftNBytes(|a|, a + b) == Shifted(a, b, false)
  {
    assert (a + b)[..|a|] == a && (a + b)[|a|..] == b;
  }
}
