/** The sliding window behind the bandwidth columns. */
module Rates {
  import opened Bytes
  import opened Clock

  /** Bytes sent and received since the previous sample. */
  datatype Sample = Sample(timestamp: int, sent: nat, received: nat)

  datatype Way = Sent | Received

  datatype Tracker = Tracker(samples: seq<Sample>, lastUpdate: int, lastSent: nat, lastReceived: nat)

  const WINDOW: int := 10 * SECOND
  const MAX_SAMPLES: nat := 20_000

  // ---------------------------------------------------------------- specification functions

  function SaturatingSub(a: nat, b: nat): nat {
    if a < b then 0 else a - b
  }

  function Capped(ss: seq<Sample>): seq<Sample> {
    if |ss| > MAX_SAMPLES then ss[|ss| - MAX_SAMPLES..] else ss
  }

  function DropOld(ss: seq<Sample>, cutoff: int): seq<Sample> {
    if ss != [] && ss[0].timestamp < cutoff then DropOld(ss[1..], cutoff) else ss
  }

  /** `update_at`. */
  function UpdateAt(t: Tracker, now: int, sent: nat, received: nat): Tracker {
    var x := Sample(now, SaturatingSub(sent, t.lastSent), SaturatingSub(received, t.lastReceived));
    Tracker(Capped(t.samples + [x]), now, sent, received)
  }

  /** `prune`: the window ends at the last update, not at the present. */
  function Prune(t: Tracker): Tracker {
    t.(samples := Capped(DropOld(t.samples, t.lastUpdate - WINDOW)))
  }

  function Delta(s: Sample, way: Way): nat {
    if way == Sent then s.sent else s.received
  }

  function Sum(ss: seq<Sample>, way: Way): nat {
    if ss == [] then 0 else Sum(ss[..|ss| - 1], way) + Delta(ss[|ss| - 1], way)
  }

  /** Time from the oldest to the newest sample. */
  function Span(ss: seq<Sample>): nat {
    if ss == [] then 0 else Since(ss[|ss| - 1].timestamp, ss[0].timestamp)
  }

  /** `calculate_rate_from_deltas_at`: bytes per second, or zero when the window is too short or stale. */
  function RawRate(t: Tracker, now: int, way: Way): real {
    var ss := t.samples;
    if |ss| <= 1 then 0.0
    else if 10 * Since(now, ss[|ss| - 1].timestamp) > 11 * WINDOW then 0.0
    else if Span(ss) < SECOND then 0.0
    else Sum(ss, way) as real / (Span(ss) as real / SECOND as real)
  }

  /** `smooth_rate`. */
  function SmoothRate(raw: real, prev: real): real {
    var smoothed := if raw >= prev then raw
                    else if raw == 0.0 then prev * 0.15
                    else 0.6 * raw + 0.4 * prev;
    if smoothed < 1.0 then 0.0 else smoothed
  }

  // ---------------------------------------------------------------- a tracker and its history

  ghost predicate Sorted(ss: seq<Sample>) {
    forall i, j | 0 <= i <= j < |ss| :: ss[i].timestamp <= ss[j].timestamp
  }

  predicate IsSuffix(s: seq<Sample>, h: seq<Sample>) {
    |s| <= |h| && s == h[|h| - |s|..]
  }

  /** The samples of `t` are the last so many of the updates `h`, within the cap. */
  ghost predicate Follows(t: Tracker, h: seq<Sample>) {
    IsSuffix(t.samples, h) && |t.samples| <= MAX_SAMPLES
  }

  /** `t` has seen the updates `h`, in order of time, and been pruned at whatever moments: nothing
      of the current window is missing but by the cap. */
  ghost predicate Tracks(t: Tracker, h: seq<Sample>) {
    && Sorted(h) && Follows(t, h)
    && (h != [] ==> h[|h| - 1].timestamp == t.lastUpdate)
    && Min(MAX_SAMPLES, |DropOld(h, t.lastUpdate - WINDOW)|) <= |t.samples|
  }

  lemma SuffixOfSuffix(a: seq<Sample>, b: seq<Sample>, c: seq<Sample>)
    requires IsSuffix(a, b) && IsSuffix(b, c)
    ensures IsSuffix(a, c)
  {
  }

  lemma {:induction false} DropOldIsEnd(s: seq<Sample>, cutoff: int)
    ensures IsSuffix(DropOld(s, cutoff), s)
  {
    if s == [] {
    } else if s[0].timestamp < cutoff {
      DropOldIsEnd(s[1..], cutoff);
    }
  }

  /** Whatever the clock does, pruning keeps the last so many updates. */
  lemma PruneFollows(t: Tracker, h: seq<Sample>)
    requires Follows(t, h)
    ensures Follows(Prune(t), h)
  {
    hide DropOld, IsSuffix, Capped;
    var d := DropOld(t.samples, t.lastUpdate - WINDOW);
    DropOldIsEnd(t.samples, t.lastUpdate - WINDOW);
    SuffixOfSuffix(d, t.samples, h);
    CappedSuffix(d, h);
  }

  lemma PrunedIsEnd(t: Tracker)
    ensures IsSuffix(Prune(t).samples, t.samples)
  {
    hide DropOld;
    DropOldIsEnd(t.samples, t.lastUpdate - WINDOW);
  }

  lemma UpdateFollows(t: Tracker, h: seq<Sample>, x: Sample, sent: nat, received: nat)
    requires Follows(t, h)
    requires sent == t.lastSent + x.sent && received == t.lastReceived + x.received
    ensures Follows(UpdateAt(t, x.timestamp, sent, received), h + [x])
  {
    hide IsSuffix, Capped, UpdateAt;
    UpdateFields(t, x, sent, received);
    SuffixAppend(t.samples, h, x);
    CappedSuffix(t.samples + [x], h + [x]);
  }

  lemma {:induction false} DropOldIsSuffix(h: seq<Sample>, cutoff: int)
    requires Sorted(h)
    ensures var d := DropOld(h, cutoff);
      && IsSuffix(d, h)
      && (forall i | 0 <= i < |d| :: d[i].timestamp >= cutoff)
      && (forall i | 0 <= i < |h| - |d| :: h[i].timestamp < cutoff)
  {
    if h == [] {
    } else if h[0].timestamp < cutoff {
      DropOldIsSuffix(h[1..], cutoff);
    }
  }

  lemma SuffixTail(s: seq<Sample>, h: seq<Sample>)
    requires Sorted(h) && IsSuffix(s, h) && |s| < |h|
    ensures Sorted(h[1..]) && IsSuffix(s, h[1..])
    ensures s != [] ==> h[0].timestamp <= s[0].timestamp
  {
    assert h[1..][|h[1..]| - |s|..] == h[|h| - |s|..];
    assert s != [] ==> s[0] == h[|h| - |s|];
  }

  /** A suffix is determined by its length. */
  lemma {:induction false} DropOldOfSuffix(s: seq<Sample>, h: seq<Sample>, cutoff: int)
    requires Sorted(h) && IsSuffix(s, h)
    ensures DropOld(s, cutoff) == if |s| <= |DropOld(h, cutoff)| then s else DropOld(h, cutoff)
  {
    DropOldIsSuffix(h, cutoff);
    if |s| == |h| {
      assert s == h;
    } else {
      hide Sorted, IsSuffix;
      SuffixTail(s, h);
      if h[0].timestamp < cutoff {
        DropOldOfSuffix(s, h[1..], cutoff);
      }
    }
  }

  lemma CappedSuffix(d: seq<Sample>, h: seq<Sample>)
    requires IsSuffix(d, h)
    ensures IsSuffix(Capped(d), h) && |Capped(d)| == Min(MAX_SAMPLES, |d|)
  {
  }

  lemma {:induction false} DropOldAppend(h: seq<Sample>, x: Sample, cutoff: int)
    requires x.timestamp >= cutoff
    ensures DropOld(h + [x], cutoff) == DropOld(h, cutoff) + [x]
  {
    if h == [] {
    } else if h[0].timestamp < cutoff {
      assert (h + [x])[1..] == h[1..] + [x];
      DropOldAppend(h[1..], x, cutoff);
    }
  }

  lemma {:induction false} DropOldLater(h: seq<Sample>, early: int, late: int)
    requires early <= late
    ensures |DropOld(h, late)| <= |DropOld(h, early)| <= |h|
  {
    if h == [] {
    } else {
      DropOldLater(h[1..], early, late);
    }
  }

  lemma PrunedWindow(s: seq<Sample>, h: seq<Sample>, cutoff: int)
    requires Sorted(h) && IsSuffix(s, h) && |s| <= MAX_SAMPLES
    requires Min(MAX_SAMPLES, |DropOld(h, cutoff)|) <= |s|
    ensures Capped(DropOld(s, cutoff)) == Capped(DropOld(h, cutoff))
  {
    var d := DropOld(h, cutoff);
    DropOldIsSuffix(h, cutoff);
    DropOldOfSuffix(s, h, cutoff);
    if |s| <= |d| {
      CappedSuffix(d, h);
      assert |s| == |Capped(d)|;
    }
  }

  lemma WindowBounds(h: seq<Sample>, cutoff: int, i: nat)
    requires Sorted(h) && i < |Capped(DropOld(h, cutoff))|
    ensures cutoff <= Capped(DropOld(h, cutoff))[i].timestamp <= h[|h| - 1].timestamp
  {
    DropOldIsSuffix(h, cutoff);
    var d := DropOld(h, cutoff);
    CappedSuffix(d, h);
    var c := Capped(d);
    assert c[i] == d[|d| - |c| + i];
    assert d[|d| - |c| + i] == h[|h| - |c| + i];
  }

  /** Pruning leaves one and the same window, whatever was pruned before. */
  lemma PruneIsCanonical(t: Tracker, h: seq<Sample>)
    requires Tracks(t, h)
    ensures Prune(t).samples == Capped(DropOld(h, t.lastUpdate - WINDOW))
    ensures Tracks(Prune(t), h)
  {
    hide DropOld, Capped, Sorted;
    var cutoff := t.lastUpdate - WINDOW;
    PrunedWindow(t.samples, h, cutoff);
    DropOldIsSuffix(h, cutoff);
    CappedSuffix(DropOld(h, cutoff), h);
  }

  lemma PrunedIsRecent(t: Tracker, h: seq<Sample>)
    requires Tracks(t, h)
    ensures forall x :: x in Prune(t).samples ==> t.lastUpdate - WINDOW <= x.timestamp <= t.lastUpdate
  {
    PruneIsCanonical(t, h);
    var c := Prune(t).samples;
    forall x | x in c ensures t.lastUpdate - WINDOW <= x.timestamp <= t.lastUpdate {
      var i: nat :| i < |c| && c[i] == x;
      WindowBounds(h, t.lastUpdate - WINDOW, i);
    }
  }

  /** One sample more, and a later cutoff: the window grows by at most that sample. */
  lemma WindowGrows(h: seq<Sample>, x: Sample, early: int, cutoff: int, n: nat)
    requires early <= cutoff <= x.timestamp && Min(MAX_SAMPLES, |DropOld(h, early)|) <= n
    ensures Min(MAX_SAMPLES, |DropOld(h + [x], cutoff)|) <= Min(MAX_SAMPLES, n + 1)
  {
    hide DropOld;
    DropOldAppend(h, x, cutoff);
    DropOldLater(h, early, cutoff);
  }

  lemma UpdateTracks(t: Tracker, h: seq<Sample>, x: Sample, sent: nat, received: nat)
    requires Tracks(t, h) && t.lastUpdate <= x.timestamp
    requires sent == t.lastSent + x.sent && received == t.lastReceived + x.received
    ensures Tracks(UpdateAt(t, x.timestamp, sent, received), h + [x])
  {
    hide DropOld, Sorted, Follows, Capped, UpdateAt;
    var u := UpdateAt(t, x.timestamp, sent, received);
    UpdateFollows(t, h, x, sent, received);
    UpdateLength(t, x, sent, received);
    WindowGrows(h, x, t.lastUpdate - WINDOW, u.lastUpdate - WINDOW, |t.samples|);
    SortedAppend(h, x);
    LastOf(h, x);
  }

  lemma UpdateLength(t: Tracker, x: Sample, sent: nat, received: nat)
    requires sent == t.lastSent + x.sent && received == t.lastReceived + x.received
    ensures var u := UpdateAt(t, x.timestamp, sent, received);
      u.lastUpdate == x.timestamp && |u.samples| == Min(MAX_SAMPLES, |t.samples| + 1)
  {
    UpdateFields(t, x, sent, received);
  }

  lemma LastOf(h: seq<Sample>, x: Sample)
    ensures |h + [x]| == |h| + 1 && (h + [x])[|h + [x]| - 1] == x
  {
  }

  lemma UpdateFields(t: Tracker, x: Sample, sent: nat, received: nat)
    requires sent == t.lastSent + x.sent && received == t.lastReceived + x.received
    ensures UpdateAt(t, x.timestamp, sent, received)
         == Tracker(Capped(t.samples + [x]), x.timestamp, sent, received)
  {
    hide Capped;
  }

  /** The newest sample is what each counter gained; a counter that was set back gained nothing. */
  lemma UpdateGains(t: Tracker, now: int, sent: nat, received: nat)
    ensures var ss := UpdateAt(t, now, sent, received).samples;
      && ss != [] && var x := ss[|ss| - 1];
      && x.timestamp == now
      && (if sent >= t.lastSent then t.lastSent + x.sent == sent else x.sent == 0)
      && (if received >= t.lastReceived then t.lastReceived + x.received == received else x.received == 0)
  {
  }

  lemma SuffixAppend(s: seq<Sample>, h: seq<Sample>, x: Sample)
    requires IsSuffix(s, h)
    ensures IsSuffix(s + [x], h + [x])
  {
  }

  lemma SortedAppend(h: seq<Sample>, x: Sample)
    requires Sorted(h) && (h != [] ==> h[|h| - 1].timestamp <= x.timestamp)
    ensures Sorted(h + [x])
  {
  }

  lemma {:induction false} SumConcat(a: seq<Sample>, b: seq<Sample>, way: Way)
    ensures Sum(a + b, way) == Sum(a, way) + Sum(b, way)
  {
    if b == [] {
      assert a + b == a;
    } else {
      assert (a + b)[..|a + b| - 1] == a + b[..|b| - 1];
      SumConcat(a, b[..|b| - 1], way);
    }
  }

  lemma SumOneMore(h: seq<Sample>, x: Sample, way: Way)
    ensures Sum(h + [x], way) == Sum(h, way) + Delta(x, way)
  {
    assert (h + [x])[..|h|] == h;
  }

  /** The window at the end of the history `h` holds `n` updates: those of the ten seconds before the last
      one, or the newest 20,000 of them. */
  ghost predicate IsWindow(n: nat, h: seq<Sample>) {
    && h != [] && n <= |h| && n <= 20_000
    && (forall i | |h| - n <= i < |h| :: h[i].timestamp >= h[|h| - 1].timestamp - 10 * SECOND)
    && (n == |h| || n == 20_000 || h[|h| - n - 1].timestamp < h[|h| - 1].timestamp - 10 * SECOND)
  }

  /** Which is what pruning leaves. */
  lemma PruneLeavesWindow(t: Tracker, h: seq<Sample>, n: nat)
    requires Tracks(t, h) && IsWindow(n, h)
    ensures Prune(t).samples == h[|h| - n..]
  {
    hide DropOld, Prune, Capped, IsWindow, Sorted;
    var cutoff := t.lastUpdate - WINDOW;
    PruneIsCanonical(t, h);
    DropOldIsSuffix(h, cutoff);
    var d := DropOld(h, cutoff);
    WindowLength(d, h, n);
    CappedSuffix(d, h);
  }

  lemma WindowLength(d: seq<Sample>, h: seq<Sample>, n: nat)
    requires IsWindow(n, h) && IsSuffix(d, h)
    requires forall i | 0 <= i < |d| :: d[i].timestamp >= h[|h| - 1].timestamp - WINDOW
    requires forall i | 0 <= i < |h| - |d| :: h[i].timestamp < h[|h| - 1].timestamp - WINDOW
    ensures Min(MAX_SAMPLES, |d|) == n
  {
    assert n == 0 || h[|h| - n].timestamp >= h[|h| - 1].timestamp - WINDOW;
    if n < |d| {
      assert d[|d| - n - 1] == h[|h| - n - 1];
    }
  }

  /** The newest sample left by pruning is that of the last update. */
  lemma NewestIsLast(t: Tracker, h: seq<Sample>)
    requires Tracks(t, h) && Prune(t).samples != []
    ensures t.samples != [] && Prune(t).samples[|Prune(t).samples| - 1].timestamp == t.lastUpdate
  {
    hide DropOld, Capped;
    PruneIsCanonical(t, h);
    PrunedIsEnd(t);
    var c := Prune(t).samples;
    assert c[|c| - 1] == h[|h| - 1];
  }

  /** A rate more than eleven seconds after the last update is zero. */
  lemma StaleIsZero(t: Tracker, h: seq<Sample>, now: int, way: Way)
    requires Tracks(t, h) && (t.samples != [] ==> now > t.lastUpdate + 11 * SECOND)
    ensures RawRate(Prune(t), now, way) == 0.0
  {
    hide Prune, Tracks, Sum;
    if Prune(t).samples != [] {
      NewestIsLast(t, h);
    }
  }

  /** A rate that is not zero, times the time the samples span, is `bytes`. */
  ghost predicate RateAccounts(t: Tracker, now: int, way: Way, bytes: int) {
    RawRate(t, now, way) != 0.0 ==>
      && Span(t.samples) >= SECOND
      && RawRate(t, now, way) * (Span(t.samples) as real / SECOND as real) == bytes as real
  }

  /** A rate that shows is traffic over time. */
  lemma RateTimesSpan(t: Tracker, now: int, way: Way)
    ensures RateAccounts(t, now, way, Sum(t.samples, way))
  {
  }

  /** Smoothing never shows more than the larger of the raw and the previous rate, takes a rise at
      once, shows less than before on a fall but no less than the raw rate, and never shows a
      fraction of a byte per second. */
  lemma SmoothRateBounds(raw: real, prev: real)
    requires raw >= 0.0 && prev >= 0.0
    ensures var s := SmoothRate(raw, prev);
      && 0.0 <= s <= (if raw >= prev then raw else prev)
      && (raw >= prev && raw >= 1.0 ==> s == raw)
      && (raw < prev ==> s < prev)
      && (s > 0.0 ==> s >= 1.0 && s >= raw)
      && (raw == 0.0 && prev == 0.0 ==> s == 0.0)
  {
  }

  /** The rate shown after `n` refreshes of a connection whose raw rate is zero. */
  function Decayed(prev: real, n: nat): real {
    if n == 0 then prev else SmoothRate(0.0, Decayed(prev, n - 1))
  }

  function Power(base: real, n: nat): real {
    if n == 0 then 1.0 else base * Power(base, n - 1)
  }

  /** A stopped rate shrinks geometrically and vanishes exactly when it falls below one byte per
      second; the "about three refreshes" of the source's comment holds for small rates only. */
  lemma {:induction false} StoppedRateVanishes(prev: real, n: nat)
    requires prev >= 0.0 && n > 0
    ensures Decayed(prev, n) == if prev * Power(0.15, n) < 1.0 then 0.0 else prev * Power(0.15, n)
    ensures Decayed(prev, 3) == 0.0 <==> prev * 0.003375 < 1.0
  {
    DecayIsGeometric(prev, n);
    DecayIsGeometric(prev, 3);
    assert Power(0.15, 2) == 0.15 * Power(0.15, 1);
    assert Power(0.15, 3) == 0.003375;
  }

  lemma {:induction false} DecayIsGeometric(prev: real, n: nat)
    requires prev >= 0.0 && n > 0
    ensures Decayed(prev, n) == if prev * Power(0.15, n) < 1.0 then 0.0 else prev * Power(0.15, n)
  {
    var before := Decayed(prev, n - 1);
    var x := prev * Power(0.15, n - 1);
    assert prev * Power(0.15, n) == 0.15 * x by {
      assert Power(0.15, n) == 0.15 * Power(0.15, n - 1);
    }
    if n > 1 {
      DecayIsGeometric(prev, n - 1);
      assert before == if x < 1.0 then 0.0 else x;
    } else {
      assert before == x == prev;
    }
    SmoothStopped(before);
  }

  lemma SmoothStopped(prev: real)
    requires prev >= 0.0
    ensures SmoothRate(0.0, prev) == if 0.15 * prev < 1.0 then 0.0 else 0.15 * prev
  {
  }

  /** The rate shown after `n` refreshes at one and the same raw rate. */
  function Settling(raw: real, prev: real, n: nat): real {
    if n == 0 then prev else SmoothRate(raw, Settling(raw, prev, n - 1))
  }

  /** A fall to a lower rate is gentle: each refresh leaves four tenths of the distance. */
  lemma {:induction false} FallIsGentle(raw: real, prev: real, n: nat)
    requires prev >= raw >= 1.0
    ensures Settling(raw, prev, n) - raw == (prev - raw) * Power(0.4, n) >= 0.0
  {
    if n > 0 {
      hide SmoothRate;
      FallIsGentle(raw, prev, n - 1);
      SmoothFall(raw, Settling(raw, prev, n - 1));
      OnePowerMore(prev - raw, n);
    } else {
      assert Power(0.4, 0) == 1.0;
    }
  }

  lemma OnePowerMore(d: real, n: nat)
    requires n > 0
    ensures d * Power(0.4, n) == 0.4 * (d * Power(0.4, n - 1))
  {
    var x := Power(0.4, n - 1);
    assert Power(0.4, n) == 0.4 * x;
    assert d * (0.4 * x) == 0.4 * (d * x);
  }

  lemma SmoothFall(raw: real, prev: real)
    requires prev >= raw >= 1.0
    ensures SmoothRate(raw, prev) - raw == 0.4 * (prev - raw)
  {
  }

  // ---------------------------------------------------------------- the object

  /** `RateTracker`, updated in place. */
  class RateTracker {
    var samples: seq<Sample>
    var lastUpdate: int
    var lastBytesSent: nat
    var lastBytesReceived: nat

    ghost function State(): Tracker
      reads this
    {
      Tracker(samples, lastUpdate, lastBytesSent, lastBytesReceived)
    }

    constructor (now: int)
      ensures State() == Tracker([], now, 0, 0)
    {
      samples, lastUpdate, lastBytesSent, lastBytesReceived := [], now, 0, 0;
    }

    method InitializeWithCounts(bytesSent: nat, bytesReceived: nat)
      modifies this
      ensures State() == old(State()).(lastSent := bytesSent, lastReceived := bytesReceived)
    {
      lastBytesSent, lastBytesReceived := bytesSent, bytesReceived;
    }

    method Update(now: int, bytesSent: nat, bytesReceived: nat)
      modifies this
      ensures State() == UpdateAt(old(State()), now, bytesSent, bytesReceived)
    {
      var deltaSent := SaturatingSub(bytesSent, lastBytesSent);
      var deltaReceived := SaturatingSub(bytesReceived, lastBytesReceived);
      samples := samples + [Sample(now, deltaSent, deltaReceived)];
      DropToCap();
      lastBytesSent, lastBytesReceived, lastUpdate := bytesSent, bytesReceived, now;
    }

    method DropToCap()
      modifies this`samples
      ensures samples == Capped(old(samples))
    {
      while |samples| > MAX_SAMPLES
        invariant Capped(samples) == Capped(old(samples))
      {
        samples := samples[1..];
      }
    }

    method PruneSamples()
      modifies this`samples
      ensures State() == Prune(old(State()))
    {
      var cutoff := lastUpdate - WINDOW;
      while samples != [] && samples[0].timestamp < cutoff
        invariant DropOld(samples, cutoff) == DropOld(old(samples), cutoff)
        decreases |samples|
      {
        samples := samples[1..];
      }
      DropToCap();
    }

    method CalculateRate(now: int, way: Way) returns (rate: real)
      ensures rate == RawRate(State(), now, way)
    {
      if |samples| <= 1 {
        return 0.0;
      }
      var newest, oldest := samples[|samples| - 1], samples[0];
      var ageOfNewest := Since(now, newest.timestamp);
      if 10 * ageOfNewest > 11 * WINDOW {
        return 0.0;
      }
      var timeSpan := Since(newest.timestamp, oldest.timestamp);
      if timeSpan < SECOND {
        return 0.0;
      }
      var totalBytes := 0;
      for i := 0 to |samples|
        invariant totalBytes == Sum(samples[..i], way)
      {
        assert samples[..i + 1][..i] == samples[..i];
        totalBytes := totalBytes + Delta(samples[i], way);
      }
      assert samples[..|samples|] == samples;
      return totalBytes as real / (timeSpan as real / SECOND as real);
    }
  }
}
