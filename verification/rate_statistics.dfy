/** `RateStatistics`: counts kept in a circular buffer of one-millisecond
    buckets, culled as the window slides forward, from which a rate over
    the active window is computed. The rate itself is a floating-point
    product and is left out; the model gives the count and window it is
    computed from. */
module RateStatistics {
  import opened Wrappers

  /** The counts of one millisecond. */
  datatype Bucket = Bucket(sum: nat, samples: nat)

  const EMPTY := Bucket(0, 0)

  /** The largest window the model admits: below 2^31 buckets the 32-bit
      bucket index of `update` cannot wrap round. */
  const MAX_WINDOW := 0x7FFF_FFFF

  /** The object's state. `oldestIndex` is the bucket of `oldestTime`; the
      bucket k places after it (round the buffer) holds time
      oldestTime + k. */
  datatype RateStats = RateStats(
    buckets: seq<Bucket>,
    accumulatedCount: nat,
    numSamples: nat,
    oldestTime: int,
    oldestIndex: nat,
    maxWindow: nat,
    currentWindow: int)

  /** The total count of the buckets. */
  function Sum(bs: seq<Bucket>): nat {
    if |bs| == 0 then 0 else bs[0].sum + Sum(bs[1..])
  }

  /** The number of samples in the buckets. */
  function Samples(bs: seq<Bucket>): nat {
    if |bs| == 0 then 0 else bs[0].samples + Samples(bs[1..])
  }

  /** The invariant every operation keeps: a buffer of `maxWindow` buckets,
      an active window within it, running totals that agree with the
      buckets, and no count in a bucket without a sample. */
  predicate Valid(r: RateStats) {
    0 < r.maxWindow <= MAX_WINDOW && |r.buckets| == r.maxWindow &&
    r.oldestIndex < r.maxWindow && 0 < r.currentWindow <= r.maxWindow &&
    r.accumulatedCount == Sum(r.buckets) && r.numSamples == Samples(r.buckets) &&
    forall i :: 0 <= i < |r.buckets| ==> r.buckets[i].samples == 0 ==> r.buckets[i].sum == 0
  }

  /** Replacing one bucket changes the totals by the difference. */
  lemma {:induction false} SumsUpdate(bs: seq<Bucket>, i: nat, b: Bucket)
    requires i < |bs|
    ensures Sum(bs[i := b]) == Sum(bs) - bs[i].sum + b.sum
    ensures Samples(bs[i := b]) == Samples(bs) - bs[i].samples + b.samples
  {
    if i > 0 {
      SumsUpdate(bs[1..], i - 1, b);
      assert bs[i := b][1..] == bs[1..][i - 1 := b];
    }
  }

  lemma {:induction false} EmptySums(n: nat)
    ensures Sum(seq(n, _ => EMPTY)) == 0 && Samples(seq(n, _ => EMPTY)) == 0
  {
    if n > 0 {
      EmptySums(n - 1);
      assert seq(n, _ => EMPTY)[1..] == seq(n - 1, _ => EMPTY);
    }
  }

  /** With no samples, every bucket is empty. */
  lemma {:induction false} NoSamplesAllEmpty(bs: seq<Bucket>)
    requires Samples(bs) == 0
    requires forall i :: 0 <= i < |bs| ==> bs[i].samples == 0 ==> bs[i].sum == 0
    ensures forall i :: 0 <= i < |bs| ==> bs[i] == EMPTY
  {
    if |bs| > 0 {
      NoSamplesAllEmpty(bs[1..]);
      assert forall i :: 1 <= i < |bs| ==> bs[i] == bs[1..][i - 1];
    }
  }

  /** The constructor: `window` empty buckets, the whole window active,
      and the oldest time set to the "not yet initialised" mark -window. */
  function NewRateStats(window: int): (r: RateStats)
    requires 0 < window <= MAX_WINDOW
    ensures Valid(r) && !IsInitialized(r)
    ensures r.numSamples == 0 && r.maxWindow == r.currentWindow == window
  {
    EmptySums(window);
    RateStats(seq(window, _ => EMPTY), 0, 0, -window, 0, window, window)
  }

  /** `is_initialized`: a sample has been recorded since construction or
      the last reset. */
  predicate IsInitialized(r: RateStats) {
    r.oldestTime != -(r.maxWindow as int)
  }

  /** The bucket `k` places after `start`, round a buffer of `m`. */
  function Slot(start: nat, k: nat, m: nat): (i: nat)
    requires start < m && k < m
    ensures i < m && (i + m - start) % m == k
  {
    if start + k >= m then start + k - m else start + k
  }

  /** The buckets in time order: element k holds time oldestTime + k. */
  function View(r: RateStats): (v: seq<Bucket>)
    requires Valid(r)
    ensures |v| == r.maxWindow
  {
    seq(r.maxWindow, k requires 0 <= k < r.maxWindow => r.buckets[Slot(r.oldestIndex, k, r.maxWindow)])
  }

  /** One pass of the culling loop: empty the oldest bucket, subtract it
      from the totals and move on to the next millisecond. */
  function CullStep(r: RateStats): (r': RateStats)
    requires Valid(r)
    ensures Valid(r') && r'.oldestTime == r.oldestTime + 1
    ensures r'.maxWindow == r.maxWindow && r'.currentWindow == r.currentWindow
    ensures r'.numSamples == r.numSamples - r.buckets[r.oldestIndex].samples
  {
    var b := r.buckets[r.oldestIndex];
    SumsUpdate(r.buckets, r.oldestIndex, EMPTY);
    var next := if r.oldestIndex + 1 >= r.maxWindow then 0 else r.oldestIndex + 1;
    r.(buckets := r.buckets[r.oldestIndex := EMPTY],
       accumulatedCount := r.accumulatedCount - b.sum,
       numSamples := r.numSamples - b.samples,
       oldestIndex := next,
       oldestTime := r.oldestTime + 1)
  }

  /** `v` is `w` moved on by `s` places: element k of `v` is element
      k + s of `w`, and empty past the end of `w`. */
  predicate Shifted(v: seq<Bucket>, w: seq<Bucket>, s: nat) {
    |v| == |w| && forall k :: 0 <= k < |v| ==> v[k] == if k + s < |w| then w[k + s] else EMPTY
  }

  lemma ShiftedCompose(a: seq<Bucket>, b: seq<Bucket>, c: seq<Bucket>, s: nat, t: nat)
    requires Shifted(b, a, s) && Shifted(c, b, t)
    ensures Shifted(c, a, s + t)
  {
    forall k | 0 <= k < |c|
      ensures c[k] == if k + s + t < |a| then a[k + s + t] else EMPTY
    {
      if k + t < |b| {
        assert c[k] == b[k + t];
      }
    }
  }

  /** An all-empty sequence moved on by `s` places is also moved on by any
      more. */
  lemma ShiftedFurther(c: seq<Bucket>, a: seq<Bucket>, s: nat, d: nat)
    requires Shifted(c, a, s) && s <= d
    requires forall k :: 0 <= k < |c| ==> c[k] == EMPTY
    ensures Shifted(c, a, d)
  {
    forall k | 0 <= k < |c|
      ensures c[k] == if k + d < |a| then a[k + d] else EMPTY
    {
      if k + d < |a| {
        assert c[k + d - s] == a[k + d];
      }
    }
  }

  /** One pass moves the window on by one bucket: the oldest bucket leaves
      and an empty one enters at the newest end. */
  lemma CullStepShifts(r: RateStats)
    requires Valid(r)
    ensures Shifted(View(CullStep(r)), View(r), 1)
  {
    var c := CullStep(r);
    forall k | 0 <= k < r.maxWindow
      ensures View(c)[k] == if k + 1 < r.maxWindow then View(r)[k + 1] else EMPTY
    {
      if k + 1 < r.maxWindow {
        assert Slot(c.oldestIndex, k, r.maxWindow) == Slot(r.oldestIndex, k + 1, r.maxWindow);
      }
    }
  }

  /** The culling loop of `erase_old`: passes while samples remain and the
      oldest time is before `newOldest`. */
  function Cull(r: RateStats, newOldest: int): (r': RateStats)
    requires Valid(r)
    ensures Valid(r')
    ensures r'.maxWindow == r.maxWindow && r'.currentWindow == r.currentWindow
    ensures r'.oldestTime >= r.oldestTime
    ensures r'.oldestTime >= newOldest || r'.numSamples == 0
    ensures r.oldestTime <= newOldest ==> r'.oldestTime <= newOldest
    decreases newOldest - r.oldestTime
  {
    if r.numSamples > 0 && r.oldestTime < newOldest then Cull(CullStep(r), newOldest) else r
  }

  /** The loop leaves the buckets shifted by the milliseconds it passed
      over, empty ones entering at the newest end. */
  lemma {:induction false} CullShifts(r: RateStats, newOldest: int)
    requires Valid(r)
    ensures Shifted(View(Cull(r, newOldest)), View(r), Cull(r, newOldest).oldestTime - r.oldestTime)
    decreases newOldest - r.oldestTime
  {
    if r.numSamples > 0 && r.oldestTime < newOldest {
      var r1 := CullStep(r);
      CullShifts(r1, newOldest);
      CullStepShifts(r);
      var c := Cull(r, newOldest);
      assert c == Cull(r1, newOldest);
      hide *;
      ShiftedCompose(View(r), View(r1), View(c), 1, c.oldestTime - r1.oldestTime);
    } else {
      assert Cull(r, newOldest) == r;
      hide *;
      ShiftedZero(View(r));
    }
  }

  lemma ShiftedZero(v: seq<Bucket>)
    ensures Shifted(v, v, 0)
  {
  }

  /** Culling to one time and then to a later one is culling to the later
      one. */
  lemma {:induction false} CullSplit(r: RateStats, a: int, b: int)
    requires Valid(r) && a <= b
    ensures Cull(Cull(r, a), b) == Cull(r, b)
    decreases a - r.oldestTime
  {
    if r.numSamples > 0 && r.oldestTime < a {
      CullSplit(CullStep(r), a, b);
    }
  }

  /** `erase_old`: on an initialised window, drop the data older than
      now - window + 1 and make that the oldest time, unless the window
      already starts later. */
  function EraseOld(r: RateStats, now: int): (e: RateStats)
    requires Valid(r)
    ensures Valid(e)
    ensures e.maxWindow == r.maxWindow && e.currentWindow == r.currentWindow
    ensures !IsInitialized(r) ==> e == r
    ensures IsInitialized(r) ==>
              e.oldestTime == if now - r.currentWindow + 1 <= r.oldestTime then r.oldestTime
                              else now - r.currentWindow + 1
  {
    if !IsInitialized(r) then r
    else
      var newOldest := now - r.currentWindow + 1;
      if newOldest <= r.oldestTime then r
      else Cull(r, newOldest).(oldestTime := newOldest)
  }

  /** The window slides: after `erase_old`, the bucket of each time still
      in the window holds what it held before, and the times that newly
      entered it are empty. */
  lemma EraseOldSlides(r: RateStats, now: int)
    requires Valid(r) && IsInitialized(r)
    ensures EraseOld(r, now).oldestTime >= r.oldestTime
    ensures Shifted(View(EraseOld(r, now)), View(r), EraseOld(r, now).oldestTime - r.oldestTime)
  {
    var newOldest := now - r.currentWindow + 1;
    if newOldest > r.oldestTime {
      var c := Cull(r, newOldest);
      CullShifts(r, newOldest);
      var e := c.(oldestTime := newOldest);
      assert e == EraseOld(r, now);
      assert View(e) == View(c);
      if c.oldestTime < newOldest {
        NoSamplesAllEmpty(c.buckets);
        assert forall k :: 0 <= k < r.maxWindow ==> View(c)[k] == EMPTY;
        hide *;
        ShiftedFurther(View(c), View(r), c.oldestTime - r.oldestTime, newOldest - r.oldestTime);
      }
    }
  }

  /** `update`: a sample older than the window is ignored; otherwise the
      window is slid to `now`, the first sample ever starts it at `now`,
      and the count goes into the bucket of `now`. */
  function Update(r: RateStats, count: nat, now: int): (r': RateStats)
    requires Valid(r)
    ensures Valid(r')
    ensures r'.maxWindow == r.maxWindow && r'.currentWindow == r.currentWindow
    ensures now < r.oldestTime ==> r' == r
    ensures now >= r.oldestTime ==>
              r'.oldestTime <= now < r'.oldestTime + r'.currentWindow &&
              r'.numSamples == EraseOld(r, now).numSamples + 1 &&
              r'.accumulatedCount == EraseOld(r, now).accumulatedCount + count
  {
    if now < r.oldestTime then r
    else
      var e := EraseOld(r, now);
      var started := if !IsInitialized(e) then e.(oldestTime := now) else e;
      var offset := now - started.oldestTime;
      var index := started.oldestIndex + offset;
      var index := if index >= started.maxWindow then index - started.maxWindow else index;
      var b := started.buckets[index];
      SumsUpdate(started.buckets, index, Bucket(b.sum + count, b.samples + 1));
      started.(buckets := started.buckets[index := Bucket(b.sum + count, b.samples + 1)],
               accumulatedCount := started.accumulatedCount + count,
               numSamples := started.numSamples + 1)
  }

  /** The sample lands in the bucket of its own time, and no other bucket
      changes. */
  lemma UpdateAddsSample(r: RateStats, count: nat, now: int)
    requires Valid(r) && now >= r.oldestTime
    ensures var e := EraseOld(r, now);
            var u := Update(r, count, now);
            var t := now - u.oldestTime;
            u.oldestIndex == e.oldestIndex &&
            (IsInitialized(e) ==> u.oldestTime == e.oldestTime) &&
            View(u)[t] == Bucket(View(e)[t].sum + count, View(e)[t].samples + 1) &&
            forall k :: 0 <= k < r.maxWindow && k != t ==> View(u)[k] == View(e)[k]
  {
    var e := EraseOld(r, now);
    var u := Update(r, count, now);
    var t := now - u.oldestTime;
    forall k | 0 <= k < r.maxWindow && k != t
      ensures View(u)[k] == View(e)[k]
    {
      assert Slot(u.oldestIndex, k, r.maxWindow) != Slot(u.oldestIndex, t, r.maxWindow);
    }
  }

  /** `reset`: the constructor's state. */
  function Reset(r: RateStats): (r': RateStats)
    requires Valid(r)
    ensures r' == NewRateStats(r.maxWindow)
  {
    EmptySums(r.maxWindow);
    r.(accumulatedCount := 0, numSamples := 0, oldestTime := -(r.maxWindow as int), oldestIndex := 0,
       currentWindow := r.maxWindow, buckets := seq(r.maxWindow, _ => EMPTY))
  }

  /** `set_window_size`: a size outside (0, maxWindow] is refused and
      changes nothing; otherwise it becomes the active window and the data
      that fell out of it is dropped. */
  function SetWindowSize(r: RateStats, window: int, now: int): (p: (bool, RateStats))
    requires Valid(r)
    ensures Valid(p.1)
    ensures p.0 <==> 0 < window <= r.maxWindow
    ensures !p.0 ==> p.1 == r
    ensures p.0 ==> p.1.currentWindow == window && p.1 == EraseOld(r.(currentWindow := window), now)
  {
    if window <= 0 || window > r.maxWindow then (false, r)
    else (true, EraseOld(r.(currentWindow := window), now))
  }

  /** What the rate is computed from: the count in the window and the
      active window's length in milliseconds. */
  datatype RateInputs = RateInputs(count: nat, activeWindow: int)

  /** `rate`: the window is slid to `now` first (a change to the state);
      there is no rate without samples, with an active window of one
      millisecond or less, or with a single sample in a window that has
      not yet grown to full size. */
  function Rate(r: RateStats, now: int): (q: (RateStats, Option<RateInputs>))
    requires Valid(r)
    ensures q.0 == EraseOld(r, now)
    ensures q.1.None? <==>
              q.0.numSamples == 0 || now - q.0.oldestTime + 1 <= 1 ||
              (q.0.numSamples <= 1 && now - q.0.oldestTime + 1 < q.0.currentWindow)
    ensures q.1.Some? ==> q.1.value == RateInputs(q.0.accumulatedCount, now - q.0.oldestTime + 1)
  {
    var e := EraseOld(r, now);
    var active := now - e.oldestTime + 1;
    if e.numSamples == 0 || active <= 1 || (e.numSamples <= 1 && active < e.currentWindow) then (e, None)
    else (e, Some(RateInputs(e.accumulatedCount, active)))
  }

  /** A rate is only given for at least one sample over at least two
      milliseconds, and for two samples or more once the window spans two
      milliseconds or more and is full. */
  lemma RateAvailable(r: RateStats, now: int)
    requires Valid(r)
    ensures var q := Rate(r, now);
            q.1.Some? ==> q.0.numSamples >= 1 && q.1.value.activeWindow >= 2 &&
                          (q.0.numSamples >= 2 || q.1.value.activeWindow >= q.0.currentWindow)
  {
  }

  /** Sliding the window twice, to a time and then to a later one, is
      sliding it once to the later one, for times from a clock that starts
      at 0. */
  lemma EraseOldTwice(r: RateStats, a: int, b: int)
    requires Valid(r) && 0 <= a <= b
    ensures EraseOld(EraseOld(r, a), b) == EraseOld(r, b)
  {
    if IsInitialized(r) {
      var n1 := a - r.currentWindow + 1;
      var n2 := b - r.currentWindow + 1;
      if n1 > r.oldestTime {
        var c := Cull(r, n1);
        var e1 := c.(oldestTime := n1);
        assert EraseOld(r, a) == e1;
        assert IsInitialized(e1);
        if n2 > n1 {
          assert EraseOld(e1, b) == Cull(e1, n2).(oldestTime := n2);
          assert EraseOld(r, b) == Cull(r, n2).(oldestTime := n2);
          CullSplit(r, n1, n2);
          if c.oldestTime < n1 {
            assert Cull(e1, n2) == e1;
            assert Cull(c, n2) == c;
          } else {
            assert e1 == c;
          }
        } else {
          assert EraseOld(e1, b) == e1;
          assert EraseOld(r, b) == e1;
        }
      }
    }
  }

  /** As the header of `rate` promises: for times from 0 on a clock that
      never goes back, asking for the rate changes nothing the other
      operations can observe. */
  lemma RateUnobservable(r: RateStats, now: int, later: int, count: nat)
    requires Valid(r) && 0 <= now <= later
    ensures Update(Rate(r, now).0, count, later) == Update(r, count, later)
    ensures Rate(Rate(r, now).0, later) == Rate(r, later)
  {
    EraseOldTwice(r, now, later);
  }
}
