/** The acquisition state shared by the BLE notification handlers and the
    display and export code: module-level globals guarded by `data_lock` in
    the application. Each handler runs entirely under the lock, so each is
    modelled as one atomic method of the store. */
module Session {
  import opened LittleEndian
  import opened Outcome
  import opened Settings
  import opened EcgPacket
  import opened HeartRate
  import opened Window
  import opened Export

  class SessionStore {
    /** ECG sample values (`ecg_session_data`). */
    var ecgSessionData: seq<int>
    /** Relative time in seconds of each sample (`ecg_session_time`). */
    var ecgSessionTime: seq<real>
    /** Sequence number of the next sample (`sample_counter`). */
    var sampleCounter: nat
    /** Latest heart rate from the sensor (`current_ble_hr`), None before the first. */
    var currentBleHr: Option<nat>
    /** Heart-rate notifications in arrival order (`hr_log`). */
    var hrLog: seq<HrEntry>
    /** Absolute session start (`session_start_time`), fixed at start-up. */
    const sessionStartTime: real

    /** Both ECG lists hold one entry per sample counted so far, and the i-th
        time is i / SAMPLING_RATE. */
    ghost predicate Valid()
      reads this
    {
      |ecgSessionData| == sampleCounter &&
      |ecgSessionTime| == sampleCounter &&
      forall i :: 0 <= i < |ecgSessionTime| ==> ecgSessionTime[i] == RelativeTime(i)
    }

    /** The state at start-up; `now` stands for `datetime.now()`. */
    constructor (now: real)
      ensures Valid()
      ensures ecgSessionData == [] && ecgSessionTime == [] && sampleCounter == 0
      ensures currentBleHr == None && hrLog == []
      ensures sessionStartTime == now
    {
      ecgSessionData, ecgSessionTime, sampleCounter := [], [], 0;
      currentBleHr, hrLog := None, [];
      sessionStartTime := now;
    }

    /** `pmd_data_handler`: an ECG packet appends its samples, each stamped
        with its sequence number's relative time; any other packet changes nothing. */
    method PmdDataHandler(data: seq<byte>)
      requires Valid()
      modifies this
      ensures Valid()
      ensures ecgSessionData == old(ecgSessionData) + DecodeEcgPacket(data)
      ensures sampleCounter == old(sampleCounter) + |DecodeEcgPacket(data)|
      ensures ecgSessionTime[..old(sampleCounter)] == old(ecgSessionTime)
      ensures currentBleHr == old(currentBleHr) && hrLog == old(hrLog)
    {
      if |data| == 0 {
        return;
      }
      if data[0] == TYPE_ECG {
        var samples := Slice(data, HEADER_LEN, |data|);
        ghost var decoded := DecodeSamples(samples);
        assert DecodeEcgPacket(data) == decoded;
        var offset := 0;
        ghost var taken := 0;
        while offset + SAMPLE_LEN <= |samples|
          invariant offset == 3 * taken && taken <= |decoded|
          invariant Valid()
          invariant sampleCounter == old(sampleCounter) + taken
          invariant ecgSessionData == old(ecgSessionData) + decoded[..taken]
          invariant currentBleHr == old(currentBleHr) && hrLog == old(hrLog)
          decreases |samples| - offset
        {
          var ecgValue := Signed(samples[offset..offset + SAMPLE_LEN]);
          DecodedPrefix(samples, taken);
          assert old(ecgSessionData) + decoded[..taken + 1] == ecgSessionData + [ecgValue];
          AppendSample(ecgValue);
          offset := offset + SAMPLE_LEN;
          taken := taken + 1;
        }
        assert taken == |decoded|;
        assert forall i :: 0 <= i < old(sampleCounter) ==> ecgSessionTime[i] == old(ecgSessionTime)[i];
      }
    }

    /** One step of the handler's loop: the value is appended, its relative
        time is appended and the counter moves on. */
    method AppendSample(ecgValue: int)
      requires Valid()
      modifies this
      ensures Valid()
      ensures ecgSessionData == old(ecgSessionData) + [ecgValue]
      ensures ecgSessionTime == old(ecgSessionTime) + [RelativeTime(old(sampleCounter))]
      ensures sampleCounter == old(sampleCounter) + 1
      ensures currentBleHr == old(currentBleHr) && hrLog == old(hrLog)
    {
      ecgSessionData := ecgSessionData + [ecgValue];
      ecgSessionTime := ecgSessionTime + [RelativeTime(sampleCounter)];
      sampleCounter := sampleCounter + 1;
    }

    /** `heart_rate_notification_handler`: a parsed value becomes the latest
        heart rate and is logged with the arrival time cut to whole seconds;
        a payload the parser rejects raises before the lock is taken, so the
        state stays as it was. `now` stands for `datetime.now()`. */
    method HeartRateNotificationHandler(data: seq<byte>, now: real) returns (parsed: Result<nat, ParseError>)
      requires Valid()
      modifies this
      ensures Valid()
      ensures parsed == ParseHeartRate(data)
      ensures parsed.Success? ==> currentBleHr == Some(parsed.value) &&
                                  hrLog == old(hrLog) + [HrEntry(WholeSeconds(now), parsed.value)]
      ensures parsed.Failure? ==> currentBleHr == old(currentBleHr) && hrLog == old(hrLog)
      ensures ecgSessionData == old(ecgSessionData) && ecgSessionTime == old(ecgSessionTime)
      ensures sampleCounter == old(sampleCounter)
    {
      parsed := ParseHeartRate(data);
      if parsed.Success? {
        currentBleHr := Some(parsed.value);
        hrLog := hrLog + [HrEntry(WholeSeconds(now), parsed.value)];
      }
    }

    /** The data path of the display refresh: a copy of the buffers and the
        latest heart rate, cut to the last WINDOW_SIZE samples. */
    method UpdatePlotData() returns (data: seq<int>, times: seq<real>, bleHr: Option<nat>)
      requires Valid()
      ensures |data| == |times| == if sampleCounter > WINDOW_SIZE then WINDOW_SIZE else sampleCounter
      ensures forall i :: 0 <= i < |data| ==> data[i] == ecgSessionData[sampleCounter - |data| + i]
      ensures forall i :: 0 <= i < |times| ==> times[i] == RelativeTime(sampleCounter - |times| + i)
      ensures bleHr == currentBleHr
    {
      data, times, bleHr := ecgSessionData, ecgSessionTime, currentBleHr;
      var window := ExtractRecent(data, times);
      data, times := window.0, window.1;
    }

    /** The rows of the combined CSV export, built from copies of the buffers
        and the log: ECG rows at session start plus relative time, then the
        heart-rate rows, stably sorted by timestamp. */
    method ExportCsvRows() returns (rows: seq<Row>)
      requires Valid()
      ensures |rows| == sampleCounter + |hrLog|
      ensures SortedByTime(rows)
      ensures multiset(rows) == multiset(CombinedRows(sessionStartTime, ecgSessionTime, ecgSessionData, hrLog))
      ensures forall t :: AtTime(rows, t) == AtTime(EcgRows(sessionStartTime, ecgSessionTime, ecgSessionData), t)
                                             + AtTime(HrRows(hrLog), t)
      ensures forall i :: 0 <= i < sampleCounter ==>
                Row(sessionStartTime + RelativeTime(i), Ecg, ecgSessionData[i]) in rows
    {
      var ecgTimes, ecgValues, hrDataLocal := ecgSessionTime, ecgSessionData, hrLog;
      rows := ExportRows(sessionStartTime, ecgTimes, ecgValues, hrDataLocal);
    }
  }

  /** A store fed one packet with the samples 100, -50 and 200, then one
      16-bit heart-rate notification of 72 bpm at 12.7 seconds. */
  method ThreeSampleSession() returns (store: SessionStore, bpm: Result<nat, ParseError>)
    ensures store.sampleCounter == 3
    ensures store.ecgSessionData == [100, -50, 200]
    ensures store.ecgSessionTime == [0.0, 0.01, 0.02]
    ensures bpm == Success(72)
    ensures store.currentBleHr == Some(72) && store.hrLog == [HrEntry(12.0, 72)]
  {
    store := new SessionStore(0.0);
    ThreeSamplePacket();
    store.PmdDataHandler([0, 0, 0, 0, 0, 0, 0, 0, 0, 0, 100, 0, 0, 206, 255, 255, 200, 0, 0]);
    assert store.ecgSessionTime == [0.0, 0.01, 0.02];
    bpm := store.HeartRateNotificationHandler([0x01, 0x48, 0x00], 12.7);
  }
}
