/** Decoding of the Polar H10 ECG notification (the PMD data characteristic):
    byte 0 is the measurement type, bytes 1..8 a device timestamp, byte 9 the
    frame type, and from byte 10 on 3-byte signed little-endian samples. */
module EcgPacket {
  import opened LittleEndian

  /** Measurement type tag of an ECG packet. */
  const TYPE_ECG: byte := 0x00
  /** Samples start at this offset (`data[10:]`). */
  const HEADER_LEN: nat := 10
  /** Bytes per sample (`step = 3`). */
  const SAMPLE_LEN: nat := 3
  /** The signed 24-bit range: every sample lies in [-SAMPLE_BOUND, SAMPLE_BOUND). */
  const SAMPLE_BOUND: int := 0x80_0000

  predicate InSampleRange(v: int)
  {
    -SAMPLE_BOUND <= v < SAMPLE_BOUND
  }

  /** The samples of a sample area: consecutive 3-byte groups, each a signed
      little-endian value; trailing bytes that do not make a whole group are dropped. */
  function DecodeSamples(s: seq<byte>): (r: seq<int>)
    ensures |r| == |s| / SAMPLE_LEN
    ensures forall i :: 0 <= i < |r| ==> r[i] == Signed(s[3 * i .. 3 * i + 3])
    decreases |s|
  {
    if |s| < SAMPLE_LEN then []
    else
      var rest := DecodeSamples(s[3..]);
      assert forall i :: 1 <= i <= |rest| ==> s[3..][3 * (i - 1) .. 3 * (i - 1) + 3] == s[3 * i .. 3 * i + 3];
      [Signed(s[..3])] + rest
  }

  /** Decoding group by group, as the handlers' loops do, builds up the samples. */
  lemma DecodedPrefix(s: seq<byte>, n: nat)
    requires 3 * n + 3 <= |s|
    ensures n < |DecodeSamples(s)|
    ensures DecodeSamples(s)[..n + 1] == DecodeSamples(s)[..n] + [Signed(s[3 * n .. 3 * n + 3])]
  {
    var d := DecodeSamples(s);
    assert d[..n + 1] == d[..n] + [d[n]];
  }

  /** Every decoded sample is a signed 24-bit value. */
  lemma SamplesInRange(s: seq<byte>)
    ensures forall i :: 0 <= i < |DecodeSamples(s)| ==> InSampleRange(DecodeSamples(s)[i])
  {
    ThreeBytes();
  }

  /** The samples one notification contributes: none for an empty payload or a
      payload whose type tag is not ECG, otherwise the decoded `data[10:]`. */
  function DecodeEcgPacket(data: seq<byte>): (r: seq<int>)
    ensures |r| == if data != [] && data[0] == TYPE_ECG && |data| >= HEADER_LEN
                   then (|data| - HEADER_LEN) / SAMPLE_LEN else 0
    ensures forall i :: 0 <= i < |r| ==> r[i] == Signed(data[HEADER_LEN + 3 * i .. HEADER_LEN + 3 * i + 3])
    ensures forall i :: 0 <= i < |r| ==> InSampleRange(r[i])
  {
    if data == [] || data[0] != TYPE_ECG then []
    else
      var samples := Slice(data, HEADER_LEN, |data|);
      SamplesInRange(samples);
      assert forall i :: 0 <= i < |samples| / 3 ==>
        samples[3 * i .. 3 * i + 3] == data[HEADER_LEN + 3 * i .. HEADER_LEN + 3 * i + 3];
      DecodeSamples(samples)
  }

  /** The sample area that encodes the given samples, three bytes each. */
  function EncodeSamples(vs: seq<int>): (s: seq<byte>)
    requires forall i :: 0 <= i < |vs| ==> InSampleRange(vs[i])
    ensures |s| == SAMPLE_LEN * |vs|
  {
    if vs == [] then []
    else
      ThreeBytes();
      assert InSampleRange(vs[0]);
      EncodeSigned(vs[0], 3) + EncodeSamples(vs[1..])
  }

  /** Decoding inverts encoding, whatever partial sample trails the whole ones. */
  lemma {:induction false} DecodeEncodeSamples(vs: seq<int>, tail: seq<byte>)
    requires forall i :: 0 <= i < |vs| ==> InSampleRange(vs[i])
    requires |tail| < SAMPLE_LEN
    ensures DecodeSamples(EncodeSamples(vs) + tail) == vs
  {
    if vs != [] {
      var s := EncodeSamples(vs) + tail;
      ThreeBytes();
      SignedEncode(vs[0], 3);
      assert s[..3] == EncodeSigned(vs[0], 3);
      assert s[3..] == EncodeSamples(vs[1..]) + tail;
      DecodeEncodeSamples(vs[1..], tail);
    }
  }

  /** A whole ECG notification: type tag, nine header bytes, the encoded
      samples and a partial trailing group decode to exactly the samples. */
  lemma EcgPacketRoundTrip(header: seq<byte>, vs: seq<int>, tail: seq<byte>)
    requires |header| == HEADER_LEN - 1
    requires forall i :: 0 <= i < |vs| ==> InSampleRange(vs[i])
    requires |tail| < SAMPLE_LEN
    ensures DecodeEcgPacket([TYPE_ECG] + header + EncodeSamples(vs) + tail) == vs
  {
    var data := [TYPE_ECG] + header + EncodeSamples(vs) + tail;
    AfterFront([TYPE_ECG] + header, EncodeSamples(vs), tail);
    EcgSampleArea(data);
    DecodeEncodeSamples(vs, tail);
  }

  /** What follows a front part of a three-part concatenation. */
  lemma AfterFront(front: seq<byte>, a: seq<byte>, b: seq<byte>)
    ensures (front + a + b)[|front|..] == a + b
    ensures |front| > 0 ==> (front + a + b)[0] == front[0]
  {
    assert front + a + b == front + (a + b);
  }

  /** An ECG packet's samples are those of its sample area. */
  lemma EcgSampleArea(data: seq<byte>)
    requires |data| >= HEADER_LEN && data[0] == TYPE_ECG
    ensures DecodeEcgPacket(data) == DecodeSamples(data[HEADER_LEN..])
  {
    assert Slice(data, HEADER_LEN, |data|) == data[HEADER_LEN..];
  }

  /** Three samples 100, -50, 200 after a ten-byte header. */
  lemma ThreeSamplePacket()
    ensures DecodeEcgPacket([0, 0, 0, 0, 0, 0, 0, 0, 0, 0, 100, 0, 0, 206, 255, 255, 200, 0, 0]) == [100, -50, 200]
  {
    var header: seq<byte> := [0, 0, 0, 0, 0, 0, 0, 0, 0];
    var samples: seq<byte> := [100, 0, 0, 206, 255, 255, 200, 0, 0];
    assert EncodeSamples([100, -50, 200]) == samples by {
      ThreeBytes();
      assert EncodeSigned(100, 3) == [100, 0, 0];
      assert EncodeSigned(-50, 3) == [206, 255, 255] by {
        assert Encode(65535, 2) == [255, 255];
      }
      assert EncodeSigned(200, 3) == [200, 0, 0];
      assert EncodeSamples([200]) == [200, 0, 0];
      assert EncodeSamples([-50, 200]) == [206, 255, 255, 200, 0, 0];
    }
    assert [TYPE_ECG] + header + samples + [] == [0, 0, 0, 0, 0, 0, 0, 0, 0, 0, 100, 0, 0, 206, 255, 255, 200, 0, 0];
    EcgPacketRoundTrip(header, [100, -50, 200], []);
  }
}
