/** The earlier single-stream recorder: ECG samples collected for a fixed
    time, every sample of a packet stamped with the packet's own device
    timestamp instead of a running sample counter. */
module Capture {
  import opened LittleEndian
  import opened EcgPacket

  /** Offset and width of the device timestamp: bytes 1..8. */
  const TIMESTAMP_OFFSET: nat := 1
  const TIMESTAMP_LEN: nat := 8

  /** `convert_to_unsigned_long(data, 1, 8)`: the device timestamp; a packet
      shorter than nine bytes gives the value of the bytes that are there. */
  function PacketTimestamp(data: seq<byte>): (ts: nat)
    ensures ts < Pow256(TIMESTAMP_LEN)
    ensures |data| >= TIMESTAMP_OFFSET + TIMESTAMP_LEN ==> ts == Unsigned(data[1..9])
  {
    ConvertToUnsignedLong(data, TIMESTAMP_OFFSET, TIMESTAMP_LEN)
  }

  /** The timestamp written into bytes 1..8 is the one read back. */
  lemma PacketTimestampRoundTrip(tag: byte, ts: nat, rest: seq<byte>)
    requires ts < Pow256(TIMESTAMP_LEN)
    ensures PacketTimestamp([tag] + Encode(ts, TIMESTAMP_LEN) + rest) == ts
  {
    var data := [tag] + Encode(ts, TIMESTAMP_LEN) + rest;
    assert data[1..9] == Encode(ts, TIMESTAMP_LEN);
    UnsignedEncode(ts, TIMESTAMP_LEN);
  }

  /** n copies of a timestamp. */
  function Repeat(ts: nat, n: nat): (r: seq<nat>)
    ensures |r| == n
    ensures forall i :: 0 <= i < n ==> r[i] == ts
  {
    if n == 0 then [] else Repeat(ts, n - 1) + [ts]
  }

  class EcgCapture {
    /** Sample values (`ecg_session_data`). */
    var ecgSessionData: seq<int>
    /** Device timestamp of the packet each sample came in (`ecg_session_time`). */
    var ecgSessionTime: seq<nat>

    ghost predicate Valid()
      reads this
    {
      |ecgSessionData| == |ecgSessionTime|
    }

    constructor ()
      ensures Valid() && ecgSessionData == [] && ecgSessionTime == []
    {
      ecgSessionData, ecgSessionTime := [], [];
    }

    /** `pmd_data_handler`: an ECG packet appends its samples, all stamped
        with the packet timestamp; any other packet changes nothing. */
    method PmdDataHandler(data: seq<byte>)
      requires Valid()
      modifies this
      ensures Valid()
      ensures ecgSessionData == old(ecgSessionData) + DecodeEcgPacket(data)
      ensures ecgSessionTime == old(ecgSessionTime) + Repeat(PacketTimestamp(data), |DecodeEcgPacket(data)|)
    {
      if |data| == 0 {
        return;
      }
      if data[0] == TYPE_ECG {
        var timestamp := ConvertToUnsignedLong(data, TIMESTAMP_OFFSET, TIMESTAMP_LEN);
        var samples := Slice(data, HEADER_LEN, |data|);
        assert DecodeEcgPacket(data) == DecodeSamples(samples);
        AppendSamples(samples, timestamp);
      }
    }

    /** The handler's loop over the sample area `data[10:]`: each whole
        3-byte group is decoded and appended with the packet timestamp. */
    method AppendSamples(samples: seq<byte>, timestamp: nat)
      requires Valid()
      modifies this
      ensures Valid()
      ensures ecgSessionData == old(ecgSessionData) + DecodeSamples(samples)
      ensures ecgSessionTime == old(ecgSessionTime) + Repeat(timestamp, |DecodeSamples(samples)|)
    {
      ghost var decoded := DecodeSamples(samples);
      var offset := 0;
      ghost var taken := 0;
      while offset + SAMPLE_LEN <= |samples|
        invariant offset == 3 * taken && taken <= |decoded|
        invariant Valid()
        invariant ecgSessionData == old(ecgSessionData) + decoded[..taken]
        invariant ecgSessionTime == old(ecgSessionTime) + Repeat(timestamp, taken)
        decreases |samples| - offset
      {
        var ecgValue := ConvertArrayToSignedInt(samples, offset, SAMPLE_LEN);
        offset := offset + SAMPLE_LEN;
        DecodedPrefix(samples, taken);
        assert old(ecgSessionData) + decoded[..taken + 1] == ecgSessionData + [ecgValue];
        ecgSessionData := ecgSessionData + [ecgValue];
        ecgSessionTime := ecgSessionTime + [timestamp];
        taken := taken + 1;
      }
      assert taken == |decoded|;
    }
  }
}
