/**
 * Conversion of the captured bytes into signed 16-bit samples (the first
 * loop of `TimeCode.process`).
 *
 * A Java `byte` is signed; a sample is `(high << 8) | (low & 0xFF)`, where
 * `high << 8` has its low eight bits clear, so the `|` is an addition. Big-
 * endian data has the high byte first, little-endian data second.
 */
module Pcm {

  /** A Java `byte`. */
  type JByte = b: int | -128 <= b < 128

  /** The encodings a Java audio format can declare. */
  datatype Encoding = PcmSigned | PcmUnsigned | PcmFloat | ULaw | ALaw

  datatype AudioFormat = AudioFormat(encoding: Encoding, bigEndian: bool, channels: int, frameSize: int)

  /** The only format the reader decodes: signed PCM, mono, two bytes per frame. */
  predicate Supported(f: AudioFormat)
  {
    f.encoding == PcmSigned && f.channels == 1 && f.frameSize == 2
  }

  /** `(high << 8) | (low & 0xFF)` on Java bytes. */
  function Combine(high: JByte, low: JByte): int
  {
    high * 256 + low % 256
  }

  /** The unsigned 16-bit number whose bytes, as unsigned octets, are high and low. */
  function Unsigned16(high: JByte, low: JByte): int
  {
    (high % 256) * 256 + low % 256
  }

  /** Two's-complement reading of an unsigned 16-bit number. */
  function Signed16(u: int): int
  {
    if u >= 0x8000 then u - 0x10000 else u
  }

  /** A combined sample is a 16-bit value: the two's-complement reading of the byte pair. */
  lemma CombineIsSigned16(high: JByte, low: JByte)
    ensures -0x8000 <= Combine(high, low) < 0x8000
    ensures Combine(high, low) == Signed16(Unsigned16(high, low))
  {
  }

  /** The samples of a block: one per byte pair, in the declared byte order. */
  function Samples(bytes: seq<JByte>, bigEndian: bool): (r: seq<int>)
    requires |bytes| % 2 == 0
    ensures |r| == |bytes| / 2
  {
    seq(|bytes| / 2, k requires 0 <= k < |bytes| / 2 =>
      if bigEndian then Combine(bytes[2 * k], bytes[2 * k + 1]) else Combine(bytes[2 * k + 1], bytes[2 * k]))
  }

  /** Each sample is the two's-complement reading of its byte pair, in the declared order. */
  lemma SamplesAreReadings(bytes: seq<JByte>, k: nat)
    requires |bytes| % 2 == 0 && k < |bytes| / 2
    ensures Samples(bytes, true)[k] == Signed16(Unsigned16(bytes[2 * k], bytes[2 * k + 1]))
    ensures Samples(bytes, false)[k] == Signed16(Unsigned16(bytes[2 * k + 1], bytes[2 * k]))
  {
    var high, low := bytes[2 * k], bytes[2 * k + 1];
    assert Samples(bytes, true)[k] == Combine(high, low);
    assert Samples(bytes, false)[k] == Combine(low, high);
    CombineIsSigned16(high, low);
    CombineIsSigned16(low, high);
  }

  /** The little-endian reading of a block is the big-endian reading of the block with every pair swapped. */
  lemma LittleIsSwappedBig(bytes: seq<JByte>, k: nat)
    requires |bytes| % 2 == 0 && k < |bytes| / 2
    ensures Samples(bytes, false)[k] == Samples(SwapPairs(bytes), true)[k]
  {
    var i := 2 * k;
    var swapped := SwapPairs(bytes);
    assert i % 2 == 0 && (i + 1) % 2 == 1;
    assert swapped[i] == bytes[i + 1] && swapped[i + 1] == bytes[i];
  }

  /** Every sample of a block is a signed 16-bit value. */
  lemma SamplesInRange(bytes: seq<JByte>, bigEndian: bool)
    requires |bytes| % 2 == 0
    ensures forall k :: 0 <= k < |bytes| / 2 ==> -0x8000 <= Samples(bytes, bigEndian)[k] < 0x8000
  {
    forall k | 0 <= k < |bytes| / 2
      ensures -0x8000 <= Samples(bytes, bigEndian)[k] < 0x8000
    {
      var high, low := if bigEndian then bytes[2 * k] else bytes[2 * k + 1], if bigEndian then bytes[2 * k + 1] else bytes[2 * k];
      assert Samples(bytes, bigEndian)[k] == Combine(high, low);
      CombineIsSigned16(high, low);
    }
  }

  /** The block with the two bytes of every pair exchanged. */
  function SwapPairs(bytes: seq<JByte>): (r: seq<JByte>)
    requires |bytes| % 2 == 0
    ensures |r| == |bytes|
  {
    seq(|bytes|, i requires 0 <= i < |bytes| => if i % 2 == 0 then bytes[i + 1] else bytes[i - 1])
  }

  /** The conversion loop of `process`: the samples of the first `count` bytes, into a new array. */
  method ToSamples(buffer: array<JByte>, count: int, bigEndian: bool) returns (samples: array<int>)
    requires 0 <= count <= buffer.Length && count % 2 == 0
    ensures fresh(samples)
    ensures samples[..] == Samples(buffer[..count], bigEndian)
  {
    ghost var expected := Samples(buffer[..count], bigEndian);
    samples := new int[count / 2];
    var ii := 0;
    while ii < count
      invariant 0 <= ii <= count && ii % 2 == 0
      invariant forall k :: 0 <= k < ii / 2 ==> samples[k] == expected[k]
    {
      if bigEndian {
        samples[ii / 2] := Combine(buffer[ii], buffer[ii + 1]);
      } else {
        samples[ii / 2] := Combine(buffer[ii + 1], buffer[ii]);
      }
      ii := ii + 2;
    }
    assert samples[..] == expected;
  }
}
