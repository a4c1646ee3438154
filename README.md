# Polar H10 acquisition pipeline, modelled in Dafny

This project models the data path of a Polar H10 heart-rate strap reader:

- decoding of ECG notifications from the PMD data characteristic. Byte 0 is a
  type tag, bytes 1..8 are a device timestamp, byte 9 is the frame type, and
  from byte 10 on come 3-byte signed little-endian samples;
- parsing of Heart Rate Measurement notifications (characteristic 0x2A37).
  Bit 0 of the flags byte (the "Heart Rate Value Format" flag of the
  Bluetooth Heart Rate Service) selects an 8-bit or a 16-bit little-endian
  value;
- the session store that the two notification handlers append to: the sample
  values, their relative times, the sample counter, the latest heart rate and
  the heart-rate log;
- the ten-second display window cut from the store;
- the rows of the combined CSV export: ECG rows at absolute times, then
  heart-rate rows, stably sorted by timestamp;
- the earlier recorder, which stamps every sample of a packet with the
  packet's device timestamp.

The application keeps its state in module-level globals guarded by one lock.
Here that state is the class `Session.SessionStore`. Each handler holds the
lock for its whole update, so each handler is one atomic method. app.py
(desktop version) and main.py (web version) contain the same core code at
different lines. One model covers both:

| core code | app.py | main.py |
|---|---|---|
| globals | 26-41 | 20-37 |
| `pmd_data_handler` | 47-69 | 41-63 |
| `parse_heart_rate_measurement` | 71-81 | 66-76 |
| `heart_rate_notification_handler` | 83-92 | 79-88 |
| window slice | 164-167 (`update_plot`) | 149-152 (`update_graph`) |
| export rows and sort | 198-215 (`export_csv`) | 186-203 (`generate_combined_csv`) |

The earlier recorder in health-rate-temp.py is the class `Capture.EcgCapture`.

Modules, one file each:

- `LittleEndian` (bytes.dfy): `int.from_bytes` and Python's clamping slice.
- `EcgPacket` (ecg_packet.dfy): the ECG packet layout.
- `HeartRate` (heart_rate.dfy): the heart-rate parser and the log entry.
- `Settings` (settings.dfy): the sampling rate and window constants.
- `Window` (window.dfy): the display window.
- `Export` (export.dfy): export rows and the stable sort.
- `Session` (session.dfy): the session store class.
- `Capture` (capture.dfy): the recorder class.
- `Outcome` (outcome.dfy): `Option` and `Result`.

Timestamps are `real` seconds, passed in as parameters where the code calls
`datetime.now()`.

Behaviour of the code worth knowing. The model follows it:

- `parse_heart_rate_measurement` reads `data[1]` only on the 8-bit path. On
  the 16-bit path it decodes the slice `data[1:3]`, and a Python slice never
  fails. So `[0x01]` parses as 0 and `[0x01, b]` parses as `b`. Only an empty
  payload, or an 8-bit payload shorter than 2 bytes, raises `IndexError`. When
  it raises, the store stays unchanged.
- The heart-rate log stores `datetime.now()` formatted to whole seconds. The
  fraction of a second is dropped (`HeartRate.WholeSeconds`), and the export
  sorts on that truncated time.
- Exporting an empty session gives an empty list of rows, not an error.
- The window size is the integer `SAMPLING_RATE * 10`, with no rounding step.
  The window test looks at the length of the value list only.

## Model

| member | source | states |
|---|---|---|
| `LittleEndian.Unsigned` | health-rate-temp.py:50-54 | An unsigned little-endian value of n bytes lies in [0, 256^n). |
| `LittleEndian.Signed` | health-rate-temp.py:44-48 | A signed little-endian value of n > 0 bytes lies in [-2^(8n-1), 2^(8n-1)). It is negative exactly when the top bit of the last byte is set. It equals the unsigned value or that value minus 256^n. Empty bytes decode to 0. |
| `LittleEndian.UnsignedEncode` | health-rate-temp.py:52-54 | Decoding the n-byte little-endian encoding of any v < 256^n gives v back. |
| `LittleEndian.EncodeUnsigned` | health-rate-temp.py:52-54 | Encoding the decoded value of a byte string in the same width gives the bytes back. |
| `LittleEndian.SignedEncode` | app.py:63-64 | Signed decoding inverts two's-complement encoding for every value representable in n bytes. |
| `LittleEndian.EncodeSignedOf` | health-rate-temp.py:46-48 | Two's-complement encoding of a signed decode gives back the original non-empty bytes. |
| `LittleEndian.Signed24` | main.py:57-58 | A 3-byte sample is b0 + 256*b1 + 65536*b2, minus 2^24 when b2 >= 128. It lies in [-2^23, 2^23). |
| `LittleEndian.Slice` | health-rate-temp.py:47 | `data[lo:hi]` clamps both ends to the length. It has the clamped length, and it is `data[lo..hi]` when the bounds fit. |
| `LittleEndian.ConvertToUnsignedLong` | health-rate-temp.py:50-54 | The result is below 256^length. It is the unsigned value of the bytes when the whole range is present. |
| `LittleEndian.ConvertArrayToSignedInt` | health-rate-temp.py:44-48 | The result lies in the signed range of `length` bytes, or is 0 for length 0. It is the signed value of the bytes when the whole range is present. |
| `EcgPacket.DecodeSamples` | app.py:60-69 | The sample area yields floor(len / 3) samples. Sample i is the signed value of bytes 3i..3i+2. Trailing partial bytes are dropped. |
| `EcgPacket.DecodeEcgPacket` | app.py:52-69 | An empty payload or a tag other than 0x00 yields no samples. Otherwise the payload yields (len - 10) div 3 samples when len >= 10, and none when shorter. Sample i comes from bytes 10+3i..12+3i. Every sample is a signed 24-bit value. |
| `EcgPacket.SamplesInRange` | main.py:57-58 | Every decoded sample lies in [-2^23, 2^23). |
| `EcgPacket.DecodeEncodeSamples` | main.py:55-63 | Decoding the 3-byte encodings of any in-range samples, followed by fewer than 3 stray bytes, gives back exactly those samples. |
| `EcgPacket.EcgPacketRoundTrip` | main.py:46-63 | A packet made of tag 0x00, any 9 header bytes, encoded samples and a partial trailing group decodes to exactly those samples. |
| `EcgPacket.ThreeSamplePacket` | app.py:55-69 | A packet with ten header bytes and the encodings of 100, -50 and 200 decodes to [100, -50, 200]. |
| `HeartRate.ParseHeartRate` | app.py:71-81 | Parsing fails exactly for an empty payload or an 8-bit payload shorter than 2 bytes. With bit 0 clear the value is `data[1]`. With bit 0 set it is `data[1] + 256*data[2]`, using only the bytes present. The value is always below 65536. |
| `HeartRate.ParseMeasurement` | main.py:66-76 | A measurement encoded in the width its flags byte selects parses back to its value, whatever fields follow. |
| `HeartRate.WholeSeconds` | app.py:92 | The logged time is the arrival time cut to a whole second: an integer t with t <= now < t + 1. |
| `Settings.RelativeTime` | app.py:67 | The relative time of sample i is i / SAMPLING_RATE: non-negative, and times the rate gives i. |
| `Window.RecentWindow` | app.py:164-167 | `xs[-n:]` keeps min(len, n) elements, and they are the last ones of xs. |
| `Window.ExtractRecent` | main.py:149-152 | The values are cut to their last min(len, 1000). For lists of equal length, the times are cut to the same length at the same offset, so the two stay index-aligned. |
| `Window.WindowOfAppend` | app.py:164-167 | The window after an append depends only on the previous window and the new values. |
| `Export.EcgRows` | app.py:200-206 | There is one ECG row per pair of `zip(times, values)`, with timestamp start + relative time and the sample as value. |
| `Export.HrRows` | app.py:208-213 | There is one heart-rate row per log entry, in log order, carrying the entry's time and value. |
| `Export.SortByTime` | app.py:215 | The sort result is ordered by timestamp, is a permutation of its input and has the input's length. |
| `Export.InsertKeepsSorted` | main.py:203 | Inserting a row into rows ordered by timestamp keeps them ordered. |
| `Export.InsertAtTime` | main.py:203 | An inserted row comes before every row that has its timestamp. |
| `Export.SortStable` | main.py:203 | The sort is stable: for every timestamp, the rows with that timestamp keep their input order. |
| `Export.ExportOrderAtTime` | app.py:198-215 | At every timestamp the export lists the ECG rows first, in sample order, then the heart-rate rows, in log order. |
| `Export.EcgRowExported` | main.py:186-194 | Every ECG sample appears in the export at start + relative time. |
| `Export.EcgBeforeHeartRate` | main.py:186-203 | In the sorted export, any row before an ECG row with the same timestamp is also an ECG row. |
| `Export.BuildEcgRows` | main.py:186-194 | The first loop builds exactly the ECG rows of `zip(times, values)`: one per pair, at start + relative time, in sample order. |
| `Export.BuildHrRows` | main.py:195-201 | The second loop builds exactly one heart-rate row per log entry, in log order. |
| `Export.ExportFacts` | app.py:198-215 | For every timestamp, the sorted export lists the ECG rows first and then the heart-rate rows, each in input order. Every ECG sample is present. |
| `Export.ExportRows` | main.py:186-203 | The export has min(len(times), len(values)) + len(log) rows. They are sorted by timestamp and are a permutation of the ECG rows followed by the heart-rate rows. At each timestamp the ECG rows come first. Every ECG row is at start + relative time. |
| `Session.SessionStore.constructor` | app.py:26-41 | The session starts empty, with no heart rate yet and start time now, and satisfies the store invariant. |
| `Session.SessionStore.PmdDataHandler` | app.py:47-69 | Keeps the invariant: both ECG lists have length `sample_counter`, and time i is i / SAMPLING_RATE. Appends exactly the packet's decoded samples. Advances the counter by their number. Leaves the earlier times as a prefix. Does not touch the heart-rate state. |
| `Session.SessionStore.AppendSample` | app.py:65-68 | Appends one value and its relative time, advances the counter and keeps the invariant. |
| `Session.SessionStore.HeartRateNotificationHandler` | app.py:83-92 | On a parsed value, sets the latest heart rate and appends exactly one log entry with the time cut to whole seconds. On a parse error nothing changes. The ECG lists and the counter are never touched. |
| `Session.SessionStore.UpdatePlotData` | app.py:157-167 | Returns the last min(counter, 1000) values and times, index-aligned, with time k equal to the sample number over the rate. Also returns the latest heart rate. |
| `Session.SessionStore.ExportCsvRows` | main.py:181-203 | The export has counter + log length rows, sorted by timestamp. They are a permutation of the ECG rows followed by the heart-rate rows. At each timestamp the ECG rows come first. Every sample i appears at start + i / SAMPLING_RATE. |
| `Session.ThreeSampleSession` | app.py:47-92 | One ECG packet with samples 100, -50 and 200 leaves the counter at 3, the values [100, -50, 200] and the times [0.0, 0.01, 0.02]. Then the 16-bit payload [0x01, 0x48, 0x00] arriving at 12.7 s parses as 72, sets the latest heart rate to 72 and logs the single entry (12.0, 72). |
| `Capture.PacketTimestamp` | health-rate-temp.py:30-31 | The packet timestamp is below 2^64. It is the unsigned value of bytes 1..8 when they are present. |
| `Capture.PacketTimestampRoundTrip` | health-rate-temp.py:50-54 | A timestamp written into bytes 1..8 reads back unchanged. |
| `Capture.EcgCapture.constructor` | health-rate-temp.py:16-18 | The recorder starts with two empty lists. |
| `Capture.EcgCapture.PmdDataHandler` | health-rate-temp.py:20-41 | Appends exactly the packet's decoded samples. Stamps every one of them with the packet timestamp. Keeps the two lists the same length. Any other packet changes nothing. |
| `Capture.EcgCapture.AppendSamples` | health-rate-temp.py:32-41 | The loop over `data[10:]` appends one decoded value and one copy of the timestamp per whole 3-byte group. |

## Left out

- R-peak detection (`find_peaks` with a prominence of half the standard deviation): the algorithm belongs to an outside numerical library, and it works on floating-point statistics.
- The Bluetooth transport: connecting, the ECG start command, `start_notify` and `stop_notify`, the asyncio loops and device scanning. This is I/O. The handlers are modelled as methods that receive the payload bytes.
- Threads and `data_lock`: each handler, and each copy taken under the lock, is one atomic method. Interleavings are not modelled.
- The clock: `datetime.now()` is a `now` parameter, and `session_start_time` is the constructor's argument.
- Text formatting and parsing of timestamps (`strftime`, `pd.to_datetime`). Timestamps are real seconds and are compared as numbers. Only the whole-second truncation of the heart-rate log is kept.
- Floating point: `sample_counter / SAMPLING_RATE` and `timedelta(seconds=...)` are exact reals here. Binary rounding and microsecond rounding are not modelled.
- The GUI and web layers (PyQt5, pyqtgraph, Dash, Plotly), the connection label, the file dialog, `DataFrame.to_csv`, `np.savetxt` and `print`.
- `ble_connected` and the status text built from it: UI only.
