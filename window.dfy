/** Extraction of the most recent part of the ECG buffers for display. */
module Window {
  import opened Settings

  /** Python's `xs[-n:]` for n > 0: the last n elements, or all of xs when it
      is not longer than n. */
  function RecentWindow<T>(xs: seq<T>, n: nat): (r: seq<T>)
    requires n > 0
    ensures |r| == if |xs| > n then n else |xs|
    ensures forall i :: 0 <= i < |r| ==> r[i] == xs[|xs| - |r| + i]
  {
    if |xs| > n then xs[|xs| - n..] else xs
  }

  /** The slicing in the display refresh: when there are more values than
      the window holds, both lists are cut to their last WINDOW_SIZE entries;
      the test looks at the value list only. */
  function ExtractRecent<A, B>(data: seq<A>, times: seq<B>): (r: (seq<A>, seq<B>))
    ensures |r.0| == if |data| > WINDOW_SIZE then WINDOW_SIZE else |data|
    ensures forall i :: 0 <= i < |r.0| ==> r.0[i] == data[|data| - |r.0| + i]
    ensures |data| == |times| ==> |r.1| == |r.0|
    ensures |data| == |times| ==> forall i :: 0 <= i < |r.1| ==> r.1[i] == times[|times| - |r.1| + i]
  {
    if |data| > WINDOW_SIZE then (RecentWindow(data, WINDOW_SIZE), RecentWindow(times, WINDOW_SIZE))
    else (data, times)
  }

  /** The window after new values arrive depends only on the previous window
      and the new values: older values can never reappear in it. */
  lemma WindowOfAppend<T>(xs: seq<T>, ys: seq<T>, n: nat)
    requires n > 0
    ensures RecentWindow(xs + ys, n) == RecentWindow(RecentWindow(xs, n) + ys, n)
  {
    var w := RecentWindow(xs, n);
    var a, b := RecentWindow(xs + ys, n), RecentWindow(w + ys, n);
    assert |a| == |b|;
    forall i | 0 <= i < |a|
      ensures a[i] == b[i]
    {
      var k := |w + ys| - |b| + i;
      if k >= |w| {
        assert b[i] == ys[k - |w|];
      } else {
        assert b[i] == w[k] == xs[|xs| - |w| + k];
      }
    }
  }
}
