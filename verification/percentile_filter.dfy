/** `PercentileFilter<T>` for integer observations: a sorted multiset
    with an iterator kept on the element at the target percentile. The
    multiset is a sorted sequence; the iterator is its position in that
    sequence, kept next to the index the source maintains for it, so that
    the source's bookkeeping of that index can be checked. The percentile
    is a rational number in [0, 1]. */
module PercentileFilter {
  import opened Ints

  /** A percentile num/den with 0 <= num <= den. */
  datatype Percentile = Percentile(num: nat, den: nat)

  predicate ValidPercentile(p: Percentile) {
    0 < p.den && p.num <= p.den
  }

  predicate Sorted(s: seq<int>) {
    forall i, j :: 0 <= i < j < |s| ==> s[i] <= s[j]
  }

  /** The filter: the observations in order, the iterator's position and
      the source's `_percentile_index`. */
  datatype Filter = Filter(p: Percentile, values: seq<int>, pos: int, index: int)

  /** The index of the percentile value among n > 0 observations: the
      percentile times n - 1, rounded down. */
  function Target(p: Percentile, n: nat): (t: nat)
    requires ValidPercentile(p) && n > 0
    ensures t < n
  {
    MulLe(p.num, p.den, n - 1);
    DivUnique(p.den * (n - 1), p.den, n - 1, 0);
    DivMonotone(p.num * (n - 1), p.den * (n - 1), p.den);
    p.num * (n - 1) / p.den
  }

  lemma DivMonotone(x: nat, y: nat, d: nat)
    requires x <= y && d > 0
    ensures x / d <= y / d
  {
    if x / d > y / d {
      MulLe(y / d + 1, x / d, d);
      assert false;
    }
  }

  /** What every operation keeps: the observations sorted and the iterator
      on the target element, with the source's index agreeing; an empty
      filter has both at 0. */
  predicate Valid(f: Filter) {
    ValidPercentile(f.p) && Sorted(f.values) &&
    (|f.values| == 0 ==> f.pos == 0 && f.index == 0) &&
    (|f.values| > 0 ==> f.pos == f.index == Target(f.p, |f.values|))
  }

  /** The constructor: no observations, the iterator at the beginning. */
  function NewFilter(p: Percentile): (f: Filter)
    requires ValidPercentile(p)
    ensures Valid(f) && f.values == []
  {
    Filter(p, [], 0, 0)
  }

  /** `update_percentile_iterator`: on a non-empty set, move the iterator by
      the difference between the target index and the recorded one. */
  function Advance(f: Filter): (f': Filter)
    requires ValidPercentile(f.p)
    ensures f'.values == f.values && f'.p == f.p
    ensures |f.values| > 0 ==> f'.index == Target(f.p, |f.values|)
    ensures |f.values| > 0 && f.pos == f.index ==> f'.pos == f'.index
  {
    if |f.values| == 0 then f
    else
      var t := Target(f.p, |f.values|);
      f.(pos := f.pos + (t - f.index), index := t)
  }

  /** The number of observations no larger than `v`: where the multiset
      inserts `v`, after the equal ones. */
  function UpperBound(s: seq<int>, v: int): (ub: nat)
    requires Sorted(s)
    ensures ub <= |s|
    ensures forall i :: 0 <= i < ub ==> s[i] <= v
    ensures forall i :: ub <= i < |s| ==> s[i] > v
  {
    if |s| == 0 || s[0] > v then 0 else 1 + UpperBound(s[1..], v)
  }

  /** The position of the first observation no smaller than `v`. */
  function LowerBound(s: seq<int>, v: int): (lb: nat)
    requires Sorted(s)
    ensures lb <= |s|
    ensures forall i :: 0 <= i < lb ==> s[i] < v
    ensures forall i :: lb <= i < |s| ==> s[i] >= v
  {
    if |s| == 0 || s[0] >= v then 0 else 1 + LowerBound(s[1..], v)
  }

  /** `insert`: the value goes in after the observations no larger than
      it; a first value puts the iterator on it, and a value smaller than
      the iterator's moves the recorded index on by one. */
  function Insert(f: Filter, v: int): (f': Filter)
    requires Valid(f)
    ensures Valid(f') && f'.p == f.p
    ensures multiset(f'.values) == multiset(f.values) + multiset{v}
  {
    var s := f.values;
    var ub := UpperBound(s, v);
    var vals := s[..ub] + [v] + s[ub..];
    assert s == s[..ub] + s[ub..];
    InsertSorted(s, ub, v);
    if |vals| == 1 then Advance(f.(values := vals, pos := 0, index := 0))
    else
      var pos := if ub <= f.pos then f.pos + 1 else f.pos;
      var index := if v < s[f.pos] then f.index + 1 else f.index;
      Advance(f.(values := vals, pos := pos, index := index))
  }

  lemma InsertSorted(s: seq<int>, ub: nat, v: int)
    requires Sorted(s) && ub <= |s|
    requires forall i :: 0 <= i < ub ==> s[i] <= v
    requires forall i :: ub <= i < |s| ==> s[i] > v
    ensures Sorted(s[..ub] + [v] + s[ub..])
  {
    var t := s[..ub] + [v] + s[ub..];
    assert forall i :: 0 <= i < |t| ==> t[i] == if i < ub then s[i] else if i == ub then v else s[i - 1];
  }

  /** The iterator stays on its element through an insertion, and the
      source's index follows it: it moves exactly when the new value goes
      in before the iterator. */
  lemma InsertKeepsIterator(f: Filter, v: int)
    requires Valid(f) && |f.values| > 0
    ensures var ub := UpperBound(f.values, v);
            var vals := f.values[..ub] + [v] + f.values[ub..];
            var pos := if ub <= f.pos then f.pos + 1 else f.pos;
            vals[pos] == f.values[f.pos] && (ub <= f.pos <==> v < f.values[f.pos])
  {
  }

  /** `erase`: false, and nothing changes, when the value is not there;
      otherwise its first occurrence goes. If that was the iterator's
      element, the iterator passes to the next one at the same index;
      otherwise the recorded index drops by one when the value was no
      larger than the iterator's. */
  function Erase(f: Filter, v: int): (r: (bool, Filter))
    requires Valid(f)
    ensures Valid(r.1) && r.1.p == f.p
    ensures r.0 <==> v in multiset(f.values)
    ensures !r.0 ==> r.1 == f
    ensures r.0 ==> multiset(r.1.values) == multiset(f.values) - multiset{v}
  {
    var s := f.values;
    var lb := LowerBound(s, v);
    if lb == |s| || s[lb] != v then
      AbsentValue(s, v, lb);
      (false, f)
    else
      var vals := s[..lb] + s[lb + 1..];
      EraseSorted(s, lb);
      assert s == s[..lb] + [v] + s[lb + 1..];
      if lb == f.pos then (true, Advance(f.(values := vals)))
      else
        var pos := if lb < f.pos then f.pos - 1 else f.pos;
        var index := if v <= s[f.pos] then f.index - 1 else f.index;
        (true, Advance(f.(values := vals, pos := pos, index := index)))
  }

  lemma AbsentValue(s: seq<int>, v: int, lb: nat)
    requires Sorted(s) && lb == LowerBound(s, v)
    requires lb == |s| || s[lb] != v
    ensures v !in multiset(s)
  {
  }

  lemma EraseSorted(s: seq<int>, lb: nat)
    requires Sorted(s) && lb < |s|
    ensures Sorted(s[..lb] + s[lb + 1..])
  {
    var t := s[..lb] + s[lb + 1..];
    assert forall i :: 0 <= i < |t| ==> t[i] == if i < lb then s[i] else s[i + 1];
  }

  /** The source's index follows the iterator through an erasure: it drops
      exactly when the erased element was before the iterator's. */
  lemma EraseKeepsIterator(f: Filter, v: int)
    requires Valid(f) && v in multiset(f.values)
    ensures var lb := LowerBound(f.values, v);
            lb < |f.values| && f.values[lb] == v &&
            (lb != f.pos ==> (lb < f.pos <==> v <= f.values[f.pos]))
  {
    var s := f.values;
    var lb := LowerBound(s, v);
    var k :| 0 <= k < |s| && s[k] == v;
    assert lb <= k;
  }

  /** `get_percentile_value`: 0 for an empty filter, otherwise the
      iterator's element. */
  function GetPercentileValue(f: Filter): (r: int)
    requires Valid(f)
    ensures |f.values| == 0 ==> r == 0
    ensures |f.values| > 0 ==> r in multiset(f.values)
  {
    if |f.values| == 0 then 0 else f.values[f.pos]
  }

  /** `reset`: no observations, the iterator at the beginning. */
  function Reset(f: Filter): (f': Filter)
    requires Valid(f)
    ensures Valid(f') && f' == NewFilter(f.p)
  {
    Filter(f.p, [], 0, 0)
  }

  /** The number of observations below `x`, and no larger than `x`. */
  function CountBelow(s: seq<int>, x: int): nat {
    if |s| == 0 then 0 else (if s[0] < x then 1 else 0) + CountBelow(s[1..], x)
  }

  function CountAtMost(s: seq<int>, x: int): nat {
    if |s| == 0 then 0 else (if s[0] <= x then 1 else 0) + CountAtMost(s[1..], x)
  }

  lemma {:induction false} CountBelowBound(s: seq<int>, x: int, k: nat)
    requires forall i :: k <= i < |s| ==> s[i] >= x
    ensures CountBelow(s, x) <= k
  {
    if |s| > 0 {
      CountBelowBound(s[1..], x, if k > 0 then k - 1 else 0);
    }
  }

  lemma {:induction false} CountAtMostBound(s: seq<int>, x: int, k: nat)
    requires k <= |s| && forall i :: 0 <= i < k ==> s[i] <= x
    ensures CountAtMost(s, x) >= k
  {
    if k > 0 {
      CountAtMostBound(s[1..], x, k - 1);
    }
  }

  /** The percentile value is the value below which the percentile of the
      observations falls: with t the target index, at most t observations
      are smaller than it and more than t are no larger. */
  lemma PercentileRank(f: Filter)
    requires Valid(f) && |f.values| > 0
    ensures var r := GetPercentileValue(f);
            var t := Target(f.p, |f.values|);
            r == f.values[t] && CountBelow(f.values, r) <= t < CountAtMost(f.values, r)
  {
    var t := Target(f.p, |f.values|);
    CountBelowBound(f.values, f.values[t], t);
    CountAtMostBound(f.values, f.values[t], t + 1);
  }

  /** The counts depend only on the multiset of observations. */
  lemma {:induction false} CountsOfPermutation(s: seq<int>, t: seq<int>, x: int)
    requires multiset(s) == multiset(t)
    ensures CountBelow(s, x) == CountBelow(t, x) && CountAtMost(s, x) == CountAtMost(t, x)
  {
    if |s| > 0 {
      assert s == [s[0]] + s[1..];
      assert s[0] in multiset(t);
      var j :| 0 <= j < |t| && t[j] == s[0];
      RemoveAt(t, j, x);
      var t' := t[..j] + t[j + 1..];
      assert multiset(s[1..]) == multiset(t');
      CountsOfPermutation(s[1..], t', x);
    } else {
      assert |t| == |multiset(t)|;
    }
  }

  /** Taking one element out of a sequence takes it out of the multiset and
      the counts. */
  lemma RemoveAt(t: seq<int>, j: nat, x: int)
    requires j < |t|
    ensures multiset(t[..j] + t[j + 1..]) == multiset(t) - multiset{t[j]}
    ensures CountBelow(t, x) == CountBelow(t[..j] + t[j + 1..], x) + (if t[j] < x then 1 else 0)
    ensures CountAtMost(t, x) == CountAtMost(t[..j] + t[j + 1..], x) + (if t[j] <= x then 1 else 0)
  {
    assert t == t[..j] + ([t[j]] + t[j + 1..]);
    CountsConcat(t[..j], [t[j]] + t[j + 1..], x);
    CountsConcat([t[j]], t[j + 1..], x);
    CountsConcat(t[..j], t[j + 1..], x);
  }

  lemma {:induction false} CountsConcat(a: seq<int>, b: seq<int>, x: int)
    ensures CountBelow(a + b, x) == CountBelow(a, x) + CountBelow(b, x)
    ensures CountAtMost(a + b, x) == CountAtMost(a, x) + CountAtMost(b, x)
  {
    if |a| > 0 {
      CountsConcat(a[1..], b, x);
      assert (a + b)[1..] == a[1..] + b;
    } else {
      assert a + b == b;
    }
  }
}
