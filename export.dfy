/** The combined CSV export: one row per ECG sample at its absolute time, one
    row per heart-rate log entry, all ordered by timestamp with a stable sort. */
module Export {
  import opened HeartRate

  datatype Source = Ecg | HeartRateSource

  /** One exported row: `timestamp`, `source`, `value`. */
  datatype Row = Row(timestamp: real, source: Source, value: int)

  /** The ECG rows, built over `zip(ecg_times, ecg_values)`: the shorter list decides the count. */
  function EcgRows(start: real, times: seq<real>, values: seq<int>): (rows: seq<Row>)
    ensures |rows| == if |times| < |values| then |times| else |values|
    ensures forall i :: 0 <= i < |rows| ==> rows[i] == Row(start + times[i], Ecg, values[i])
  {
    if times == [] || values == [] then []
    else [Row(start + times[0], Ecg, values[0])] + EcgRows(start, times[1..], values[1..])
  }

  /** The heart-rate rows, one per log entry, in log order. */
  function HrRows(log: seq<HrEntry>): (rows: seq<Row>)
    ensures |rows| == |log|
    ensures forall i :: 0 <= i < |rows| ==> rows[i] == Row(log[i].timestamp, HeartRateSource, log[i].hr)
  {
    if log == [] then [] else [Row(log[0].timestamp, HeartRateSource, log[0].hr)] + HrRows(log[1..])
  }

  ghost predicate SortedByTime(rows: seq<Row>)
  {
    forall i, j :: 0 <= i < j < |rows| ==> rows[i].timestamp <= rows[j].timestamp
  }

  /** The rows carrying timestamp t, in their order. A sort is stable exactly
      when it keeps this subsequence for every t. */
  function AtTime(rows: seq<Row>, t: real): (r: seq<Row>)
    ensures |r| <= |rows|
    ensures forall i :: 0 <= i < |r| ==> r[i].timestamp == t && r[i] in rows
  {
    if rows == [] then []
    else (if rows[0].timestamp == t then [rows[0]] else []) + AtTime(rows[1..], t)
  }

  lemma {:induction false} AtTimeAppend(a: seq<Row>, b: seq<Row>, t: real)
    ensures AtTime(a + b, t) == AtTime(a, t) + AtTime(b, t)
  {
    if a != [] {
      assert (a + b)[0] == a[0];
      assert (a + b)[1..] == a[1..] + b;
      AtTimeAppend(a[1..], b, t);
      var h := if a[0].timestamp == t then [a[0]] else [];
      assert AtTime(a + b, t) == h + AtTime(a[1..] + b, t);
    } else {
      assert a + b == b;
    }
  }

  /** Inserts x in front of the first row whose timestamp is not smaller. */
  function InsertByTime(x: Row, rows: seq<Row>): (r: seq<Row>)
    ensures |r| == |rows| + 1
    ensures multiset(r) == multiset(rows) + multiset{x}
  {
    if rows == [] || x.timestamp <= rows[0].timestamp then
      [x] + rows
    else
      assert rows == [rows[0]] + rows[1..];
      [rows[0]] + InsertByTime(x, rows[1..])
  }

  /** Inserting into sorted rows keeps them sorted. */
  lemma {:induction false} InsertKeepsSorted(x: Row, rows: seq<Row>)
    requires SortedByTime(rows)
    ensures SortedByTime(InsertByTime(x, rows))
  {
    if rows != [] && x.timestamp > rows[0].timestamp {
      var tail := InsertByTime(x, rows[1..]);
      InsertKeepsSorted(x, rows[1..]);
      forall j | 0 <= j < |tail|
        ensures rows[0].timestamp <= tail[j].timestamp
      {
        assert tail[j] in multiset(rows[1..]) + multiset{x};
      }
      assert InsertByTime(x, rows) == [rows[0]] + tail;
    }
  }

  /** x lands after every row with a smaller timestamp and before every row
      with its own timestamp, so among the rows at x's timestamp it comes first. */
  lemma {:induction false} InsertAtTime(x: Row, rows: seq<Row>, t: real)
    ensures AtTime(InsertByTime(x, rows), t) == if x.timestamp == t then [x] + AtTime(rows, t) else AtTime(rows, t)
  {
    var r := InsertByTime(x, rows);
    if rows == [] || x.timestamp <= rows[0].timestamp {
      assert r[1..] == rows;
    } else {
      var tail := InsertByTime(x, rows[1..]);
      assert r[1..] == tail;
      InsertAtTime(x, rows[1..], t);
    }
  }

  /** Stable sort by timestamp (Python's `list.sort` with a key), as an insertion sort. */
  function SortByTime(rows: seq<Row>): (r: seq<Row>)
    ensures |r| == |rows|
    ensures SortedByTime(r)
    ensures multiset(r) == multiset(rows)
  {
    if rows == [] then []
    else
      assert rows == [rows[0]] + rows[1..];
      InsertKeepsSorted(rows[0], SortByTime(rows[1..]));
      InsertByTime(rows[0], SortByTime(rows[1..]))
  }

  /** The sort is stable: the rows sharing any one timestamp keep their input order. */
  lemma {:induction false} SortStable(rows: seq<Row>, t: real)
    ensures AtTime(SortByTime(rows), t) == AtTime(rows, t)
  {
    if rows != [] {
      SortStable(rows[1..], t);
      InsertAtTime(rows[0], SortByTime(rows[1..]), t);
    }
  }

  /** The rows of the export before sorting: the ECG rows, then the heart-rate rows. */
  function CombinedRows(start: real, times: seq<real>, values: seq<int>, log: seq<HrEntry>): (rows: seq<Row>)
  {
    EcgRows(start, times, values) + HrRows(log)
  }

  /** At every timestamp the sorted export lists the ECG rows first, in sample
      order, then the heart-rate rows, in log order. */
  lemma ExportOrderAtTime(start: real, times: seq<real>, values: seq<int>, log: seq<HrEntry>, t: real)
    ensures AtTime(SortByTime(CombinedRows(start, times, values, log)), t)
         == AtTime(EcgRows(start, times, values), t) + AtTime(HrRows(log), t)
  {
    SortStable(CombinedRows(start, times, values, log), t);
    AtTimeAppend(EcgRows(start, times, values), HrRows(log), t);
  }

  /** Every ECG sample appears in the export at session start plus its relative time. */
  lemma EcgRowExported(start: real, times: seq<real>, values: seq<int>, log: seq<HrEntry>, k: nat)
    requires k < |times| && k < |values|
    ensures Row(start + times[k], Ecg, values[k]) in SortByTime(CombinedRows(start, times, values, log))
  {
    var pre := CombinedRows(start, times, values, log);
    assert pre[k] == Row(start + times[k], Ecg, values[k]);
    assert pre[k] in multiset(pre);
  }

  /** A row at timestamp t splits the rows at t into those before it, itself, and those after it. */
  lemma AtTimeAround(rows: seq<Row>, i: nat, t: real)
    requires i < |rows| && rows[i].timestamp == t
    ensures AtTime(rows, t) == AtTime(rows[..i], t) + [rows[i]] + AtTime(rows[i + 1..], t)
  {
    assert rows == rows[..i] + ([rows[i]] + rows[i + 1..]);
    AtTimeAppend(rows[..i], [rows[i]] + rows[i + 1..], t);
    AtTimeAppend([rows[i]], rows[i + 1..], t);
    assert AtTime([rows[i]], t) == [rows[i]] by {
      assert [rows[i]][1..] == [];
    }
  }

  /** Two rows at the same timestamp keep their relative order in the
      subsequence of rows at that timestamp. */
  lemma AtTimePositions(rows: seq<Row>, i: nat, j: nat) returns (p: nat, q: nat)
    requires i < j < |rows| && rows[i].timestamp == rows[j].timestamp
    ensures p < q < |AtTime(rows, rows[i].timestamp)|
    ensures AtTime(rows, rows[i].timestamp)[p] == rows[i]
    ensures AtTime(rows, rows[i].timestamp)[q] == rows[j]
  {
    var t := rows[i].timestamp;
    AtTimeAround(rows, i, t);
    AtTimeAround(rows, j, t);
    AtTimeAround(rows[..j], i, t);
    assert rows[..j][..i] == rows[..i];
    p, q := |AtTime(rows[..i], t)|, |AtTime(rows[..j], t)|;
  }

  /** Among rows sharing a timestamp in the sorted export, every row before an
      ECG row is an ECG row: the stable sort keeps the ECG rows, listed first,
      ahead of the heart-rate rows. */
  lemma EcgBeforeHeartRate(start: real, times: seq<real>, values: seq<int>, log: seq<HrEntry>, i: nat, j: nat)
    requires i < j < |SortByTime(CombinedRows(start, times, values, log))|
    requires SortByTime(CombinedRows(start, times, values, log))[i].timestamp
          == SortByTime(CombinedRows(start, times, values, log))[j].timestamp
    requires SortByTime(CombinedRows(start, times, values, log))[j].source == Ecg
    ensures SortByTime(CombinedRows(start, times, values, log))[i].source == Ecg
  {
    var rows := SortByTime(CombinedRows(start, times, values, log));
    var t := rows[i].timestamp;
    var ecg, hr := AtTime(EcgRows(start, times, values), t), AtTime(HrRows(log), t);
    ExportOrderAtTime(start, times, values, log, t);
    var p, q := AtTimePositions(rows, i, j);
    assert forall k :: 0 <= k < |hr| ==> hr[k] in HrRows(log);
    assert q < |ecg|;
    assert ecg[p] in EcgRows(start, times, values);
  }

  /** The data path of the CSV export over copies of the buffers: build the
      ECG rows over `zip(times, values)`, append the heart-rate rows, sort. */
  method ExportRows(start: real, times: seq<real>, values: seq<int>, log: seq<HrEntry>) returns (rows: seq<Row>)
    ensures |rows| == (if |times| < |values| then |times| else |values|) + |log|
    ensures SortedByTime(rows)
    ensures multiset(rows) == multiset(CombinedRows(start, times, values, log))
    ensures forall t :: AtTime(rows, t) == AtTime(EcgRows(start, times, values), t) + AtTime(HrRows(log), t)
    ensures forall k :: 0 <= k < |times| && k < |values| ==> Row(start + times[k], Ecg, values[k]) in rows
  {
    var ecgRows := BuildEcgRows(start, times, values);
    var hrRows := BuildHrRows(log);
    assert ecgRows + hrRows == CombinedRows(start, times, values, log);
    rows := SortByTime(ecgRows + hrRows);
    ExportFacts(start, times, values, log);
  }

  /** The export's first loop: one ECG row per pair of `zip(times, values)`. */
  method BuildEcgRows(start: real, times: seq<real>, values: seq<int>) returns (ecgRows: seq<Row>)
    ensures ecgRows == EcgRows(start, times, values)
  {
    ecgRows := [];
    var i := 0;
    while i < |times| && i < |values|
      invariant i <= |times| && i <= |values| && |ecgRows| == i
      invariant forall k :: 0 <= k < i ==> ecgRows[k] == Row(start + times[k], Ecg, values[k])
    {
      ecgRows := ecgRows + [Row(start + times[i], Ecg, values[i])];
      i := i + 1;
    }
  }

  /** The export's second loop: one heart-rate row per log entry. */
  method BuildHrRows(log: seq<HrEntry>) returns (hrRows: seq<Row>)
    ensures hrRows == HrRows(log)
  {
    hrRows := [];
    var j := 0;
    while j < |log|
      invariant j <= |log| && |hrRows| == j
      invariant forall k :: 0 <= k < j ==> hrRows[k] == Row(log[k].timestamp, HeartRateSource, log[k].hr)
    {
      hrRows := hrRows + [Row(log[j].timestamp, HeartRateSource, log[j].hr)];
      j := j + 1;
    }
  }

  /** The per-timestamp order and the completeness of the export, for all
      timestamps and all samples at once. */
  lemma ExportFacts(start: real, times: seq<real>, values: seq<int>, log: seq<HrEntry>)
    ensures forall t :: AtTime(SortByTime(CombinedRows(start, times, values, log)), t)
                     == AtTime(EcgRows(start, times, values), t) + AtTime(HrRows(log), t)
    ensures forall k :: 0 <= k < |times| && k < |values| ==>
              Row(start + times[k], Ecg, values[k]) in SortByTime(CombinedRows(start, times, values, log))
  {
    forall t
      ensures AtTime(SortByTime(CombinedRows(start, times, values, log)), t)
           == AtTime(EcgRows(start, times, values), t) + AtTime(HrRows(log), t)
    {
      ExportOrderAtTime(start, times, values, log, t);
    }
    forall k | 0 <= k < |times| && k < |values|
      ensures Row(start + times[k], Ecg, values[k]) in SortByTime(CombinedRows(start, times, values, log))
    {
      EcgRowExported(start, times, values, log, k);
    }
  }
}
