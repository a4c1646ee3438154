/** Parsing of the Heart Rate Measurement characteristic (0x2A37) as the
    notification handler does it, and the entries of the heart-rate log.
    Flags bit 0 is the "Heart Rate Value Format" bit of section 3.1 of the
    Bluetooth Heart Rate Service specification: clear means an 8-bit value,
    set means a 16-bit little-endian value. */
module HeartRate {
  import opened LittleEndian
  import opened Outcome

  predicate IsUint16Format(flags: byte)
  {
    flags % 2 == 1
  }

  /** Python raises IndexError when the payload is indexed past its end. */
  datatype ParseError = IndexOutOfRange(index: nat)

  /** `parse_heart_rate_measurement`: byte 0 is always read; on the 8-bit path
      `data[1]` is read, on the 16-bit path the clamped slice `data[1:3]` is
      decoded, so a short 16-bit payload yields the bytes that are there. */
  function ParseHeartRate(data: seq<byte>): (r: Result<nat, ParseError>)
    ensures r.Failure? <==> data == [] || (!IsUint16Format(data[0]) && |data| < 2)
    ensures r.Success? && !IsUint16Format(data[0]) ==> r.value == data[1]
    ensures r.Success? && IsUint16Format(data[0]) ==>
      r.value == (if |data| >= 2 then data[1] as int else 0) + (if |data| >= 3 then 256 * data[2] as int else 0)
    ensures r.Success? ==> r.value < 0x1_0000
  {
    if data == [] then Failure(IndexOutOfRange(0))
    else if !IsUint16Format(data[0]) then
      if |data| < 2 then Failure(IndexOutOfRange(1)) else Success(data[1])
    else
      var v := Slice(data, 1, 3);
      assert |v| == 2 ==> v[1..][1..] == [] && Unsigned(v) == data[1] as int + 256 * data[2] as int;
      assert |v| == 1 ==> v[1..] == [] && Unsigned(v) == data[1];
      assert Pow256(2) == 0x1_0000;
      Success(Unsigned(v))
  }

  /** A measurement as the sensor sends it: the flags byte, the value in the
      width that flags bit 0 selects, then the fields the other flags announce. */
  function MeasurementBytes(flags: byte, bpm: nat, rest: seq<byte>): (s: seq<byte>)
    requires bpm < Pow256(if IsUint16Format(flags) then 2 else 1)
    ensures |s| == (if IsUint16Format(flags) then 3 else 2) + |rest|
  {
    [flags] + Encode(bpm, if IsUint16Format(flags) then 2 else 1) + rest
  }

  /** Parsing a measurement gives back its value, in either width, whatever follows it. */
  lemma ParseMeasurement(flags: byte, bpm: nat, rest: seq<byte>)
    requires bpm < Pow256(if IsUint16Format(flags) then 2 else 1)
    ensures ParseHeartRate(MeasurementBytes(flags, bpm, rest)) == Success(bpm)
  {
    var n := if IsUint16Format(flags) then 2 else 1;
    var s := MeasurementBytes(flags, bpm, rest);
    UnsignedEncode(bpm, n);
    assert s[1..1 + n] == Encode(bpm, n);
    if n == 1 {
      assert Encode(bpm, 1)[1..] == [];
    } else {
      assert Slice(s, 1, 3) == Encode(bpm, 2);
    }
  }

  /** One entry of the heart-rate log: when it arrived and the value. */
  datatype HrEntry = HrEntry(timestamp: real, hr: nat)

  /** The log stores `datetime.now()` formatted to whole seconds, so the
      fraction of the second is cut off. */
  function WholeSeconds(now: real): (r: real)
    ensures r <= now < r + 1.0
    ensures r == r.Floor as real
  {
    now.Floor as real
  }
}
