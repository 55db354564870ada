/** LZ4 as the pipeline uses it: a pair of functions about which only the round trip and the size bounds
    are known. They are passed in, so nothing is postulated about the library. */
module Codec {
  import opened Options
  import opened Bytes
  import opened Irsdk

  datatype Codec = Codec(compress: seq<byte> -> seq<byte>, decompress: seq<byte> -> Option<seq<byte>>)

  /** `decompress_into` writes at most the 2 MiB staging buffer. */
  ghost predicate Bounded(c: Codec) {
    forall z {:trigger c.decompress(z)} | c.decompress(z).Some? :: |c.decompress(z).value| <= MAX_TELEMETRY_SIZE
  }

  /** What fits the staging buffer compresses to something non-empty within the receiver's limit and comes back. */
  ghost predicate Faithful(c: Codec, maxPayload: nat) {
    forall d {:trigger c.compress(d)} | |d| <= MAX_TELEMETRY_SIZE ::
      c.decompress(c.compress(d)) == Some(d) && 0 < |c.compress(d)| <= maxPayload
  }

  /** Storing the data behind one byte: a codec of this kind, so the two assumptions can be met together. */
  function Stored(): Codec {
    Codec(d => [0] + d, z => if 0 < |z| <= MAX_TELEMETRY_SIZE + 1 then Some(z[1..]) else None)
  }

  lemma StoredIsFaithful(maxPayload: nat)
    requires maxPayload > MAX_TELEMETRY_SIZE
    ensures Bounded(Stored()) && Faithful(Stored(), maxPayload)
  {
    var c := Stored();
    forall d: seq<byte> | |d| <= MAX_TELEMETRY_SIZE
      ensures c.decompress(c.compress(d)) == Some(d) && 0 < |c.compress(d)| <= maxPayload
    {
      assert ([0] + d)[1..] == d;
    }
  }
}
