/** `MovingMedianFilter<T>` for integer samples: the lower median of the
    latest `window` samples, kept in a percentile filter at one half next
    to the list of samples in arrival order. */
module MovingMedianFilter {
  import PercentileFilter

  const HALF := PercentileFilter.Percentile(1, 2)

  /** The filter: the percentile filter, the samples oldest first, their
      count and the window size. */
  datatype Filter = Filter(percentile: PercentileFilter.Filter, samples: seq<int>, samplesStored: nat, window: nat)

  /** What every operation keeps: a positive window holding at most that
      many samples, a count that is the list's length, and a percentile
      filter at one half over exactly the listed samples. */
  predicate Valid(m: Filter) {
    0 < m.window && m.samplesStored == |m.samples| <= m.window &&
    PercentileFilter.Valid(m.percentile) && m.percentile.p == HALF &&
    multiset(m.percentile.values) == multiset(m.samples)
  }

  /** The constructor; the window must be positive. */
  function NewFilter(window: nat): (m: Filter)
    requires 0 < window
    ensures Valid(m) && m.samples == [] && m.window == window
  {
    Filter(PercentileFilter.NewFilter(HALF), [], 0, window)
  }

  /** `insert`: the sample goes into the percentile filter and at the end of
      the list; once the list is longer than the window, its first sample
      leaves both. */
  function Insert(m: Filter, v: int): (m': Filter)
    requires Valid(m)
    ensures m'.window == m.window
    ensures |m.samples| < m.window ==> m'.samples == m.samples + [v]
    ensures |m.samples| == m.window ==> m'.samples == m.samples[1..] + [v]
  {
    var f := PercentileFilter.Insert(m.percentile, v);
    if m.samplesStored + 1 > m.window then
      InsertEvicts(m, v);
      var f' := PercentileFilter.Erase(f, m.samples[0]).1;
      Filter(f', m.samples[1..] + [v], m.samplesStored, m.window)
    else
      Filter(f, m.samples + [v], m.samplesStored + 1, m.window)
  }

  /** Insertion keeps the filter valid: the percentile filter still holds
      exactly the listed samples, at most a window of them. */
  lemma InsertValid(m: Filter, v: int)
    requires Valid(m)
    ensures Valid(Insert(m, v))
  {
    var m' := Insert(m, v);
    if |m.samples| < m.window {
      InsertKeeps(m, v);
      assert m'.percentile == PercentileFilter.Insert(m.percentile, v);
    } else {
      InsertEvicts(m, v);
      var f := PercentileFilter.Insert(m.percentile, v);
      assert m'.percentile == PercentileFilter.Erase(f, m.samples[0]).1;
    }
  }

  /** Below the window, the percentile filter gains the new sample. */
  lemma InsertKeeps(m: Filter, v: int)
    requires Valid(m)
    ensures multiset(PercentileFilter.Insert(m.percentile, v).values) == multiset(m.samples + [v])
  {
  }

  /** At the window, the oldest sample is in the percentile filter after
      the insertion, and erasing it leaves exactly the latest samples. */
  lemma InsertEvicts(m: Filter, v: int)
    requires Valid(m) && |m.samples| == m.window
    ensures var f := PercentileFilter.Insert(m.percentile, v);
            m.samples[0] in multiset(f.values) &&
            multiset(PercentileFilter.Erase(f, m.samples[0]).1.values) == multiset(m.samples[1..] + [v])
  {
    var f := PercentileFilter.Insert(m.percentile, v);
    assert multiset(f.values) == multiset(m.samples) + multiset{v};
    var e := PercentileFilter.Erase(f, m.samples[0]);
    Rotate(m.samples, v);
  }

  /** Dropping the first element and appending one changes the multiset by
      exactly those two. */
  lemma Rotate(s: seq<int>, v: int)
    requires s != []
    ensures s[0] in multiset(s) + multiset{v}
    ensures multiset(s[1..] + [v]) == multiset(s) + multiset{v} - multiset{s[0]}
  {
    assert s == [s[0]] + s[1..];
  }

  /** `get_filtered_value`: the percentile filter's value. */
  function GetFilteredValue(m: Filter): (r: int)
    requires Valid(m)
    ensures m.samples == [] ==> r == 0
    ensures m.samples != [] ==> r in multiset(m.samples)
  {
    PercentileFilter.GetPercentileValue(m.percentile)
  }

  /** `reset`: no samples. */
  function Reset(m: Filter): (m': Filter)
    requires Valid(m)
    ensures Valid(m') && m' == NewFilter(m.window)
  {
    Filter(PercentileFilter.Reset(m.percentile), [], 0, m.window)
  }

  /** The filtered value is the lower median of the samples held: with n
      samples, at most (n - 1) / 2 are smaller than it and more than that
      are no larger. */
  lemma FilteredIsLowerMedian(m: Filter)
    requires Valid(m) && m.samples != []
    ensures var r := GetFilteredValue(m);
            var n := |m.samples|;
            PercentileFilter.CountBelow(m.samples, r) <= (n - 1) / 2 < PercentileFilter.CountAtMost(m.samples, r)
  {
    var f := m.percentile;
    assert |f.values| == |m.samples| by {
      assert |multiset(f.values)| == |multiset(m.samples)|;
    }
    PercentileFilter.PercentileRank(f);
    PercentileFilter.CountsOfPermutation(f.values, m.samples, GetFilteredValue(m));
  }

  /** The samples after inserting a sequence of values, one by one. */
  function InsertAll(m: Filter, vs: seq<int>): (m': Filter)
    requires Valid(m)
    ensures Valid(m') && m'.window == m.window
    decreases |vs|
  {
    if |vs| == 0 then m else InsertValid(m, vs[0]); InsertAll(Insert(m, vs[0]), vs[1..])
  }

  /** The last `w` elements of a sequence, or all of them when there are
      fewer. */
  function Latest(all: seq<int>, w: nat): (r: seq<int>)
    ensures |r| == if |all| < w then |all| else w
    ensures all == all[..|all| - |r|] + r
  {
    var k := if |all| < w then |all| else w;
    assert all == all[..|all| - k] + all[|all| - k..];
    all[|all| - k..]
  }

  /** One insertion keeps the latest window of everything seen. */
  lemma LatestStep(s: seq<int>, vs: seq<int>, w: nat, s1: seq<int>)
    requires |vs| > 0 && 0 < w && |s| <= w
    requires s1 == if |s| < w then s + [vs[0]] else s[1..] + [vs[0]]
    ensures Latest(s1 + vs[1..], w) == Latest(s + vs, w)
  {
    var all := s + vs;
    if |s| < w {
      assert s1 + vs[1..] == all;
    } else {
      assert s1 + vs[1..] == all[1..];
      assert all[1..][|all| - 1 - w..] == all[|all| - w..];
    }
  }

  /** The oldest sample leaves first: a filter fed a stream of values holds
      the latest `window` of them, in order. */
  lemma {:induction false} HoldsLatest(m: Filter, vs: seq<int>)
    requires Valid(m)
    ensures InsertAll(m, vs).samples == Latest(m.samples + vs, m.window)
    decreases |vs|
  {
    if |vs| == 0 {
      assert m.samples + vs == m.samples;
    } else {
      var m1 := Insert(m, vs[0]);
      InsertValid(m, vs[0]);
      assert InsertAll(m, vs) == InsertAll(m1, vs[1..]);
      HoldsLatest(m1, vs[1..]);
      LatestStep(m.samples, vs, m.window, m1.samples);
    }
  }

  /** A new filter fed a stream of values reports the lower median of the
      latest `window` of them (0 before the first value). */
  lemma MedianOfLatest(window: nat, vs: seq<int>)
    requires 0 < window
    ensures var m := InsertAll(NewFilter(window), vs);
            var latest := Latest(vs, window);
            var r := GetFilteredValue(m);
            (vs == [] ==> r == 0) &&
            (vs != [] ==> PercentileFilter.CountBelow(latest, r) <= (|latest| - 1) / 2 < PercentileFilter.CountAtMost(latest, r))
  {
    var m0 := NewFilter(window);
    HoldsLatest(m0, vs);
    assert m0.samples + vs == vs;
    if vs != [] {
      FilteredIsLowerMedian(InsertAll(m0, vs));
    }
  }
}
