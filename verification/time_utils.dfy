/** `time_utils`: the difference of two times, the conversion of a
    broken-down UTC time (`std::tm`) to seconds since 1970-01-01T00:00:00Z,
    and the handler that unwraps 32-bit timestamps into 64-bit ones. The
    clock readers are left out. */
module TimeUtils {
  import opened Ints

  // ---------------------------------------------------------------------
  // Differences

  /** `time_diff`: how much later `later` is than `earlier`. A difference
      that does not fit 64 bits is undefined behaviour in the source and is
      excluded. */
  function TimeDiff(later: i64, earlier: i64): (d: i64)
    requires -0x8000_0000_0000_0000 <= later - earlier < 0x8000_0000_0000_0000
    ensures earlier + d == later
  {
    later - earlier
  }

  /** Swapping the arguments of `time_diff` negates the difference. */
  lemma TimeDiffAntisymmetric(a: i64, b: i64)
    requires -0x8000_0000_0000_0000 < a - b < 0x8000_0000_0000_0000
    ensures TimeDiff(a, b) == -TimeDiff(b, a)
  {
  }

  /** `time_diff32`: the unsigned 32-bit difference read as a signed 32-bit
      value. Adding it back to `earlier` modulo 2^32 gives `later`; when the
      true difference fits a signed 32-bit value it is returned exactly. */
  function TimeDiff32(later: u32, earlier: u32): (d: i32)
    ensures (earlier + d) % TWO_32 == later
    ensures -0x8000_0000 <= later - earlier < 0x8000_0000 ==> d == later - earlier
  {
    ToSigned32(U32(later - earlier))
  }

  /** Across a wrap of the 32-bit counter a small forward step is still
      seen as a small positive difference. */
  lemma TimeDiff32AcrossWrap(later: u32, earlier: u32, step: nat)
    requires step < 0x8000_0000 && earlier + step >= TWO_32
    requires later == earlier + step - TWO_32
    ensures TimeDiff32(later, earlier) == step
  {
  }

  /** Swapping the arguments of `time_diff32` negates the difference,
      except for the one difference (-2^31) whose negation does not fit. */
  lemma TimeDiff32Antisymmetric(a: u32, b: u32)
    requires TimeDiff32(a, b) != -0x8000_0000
    ensures TimeDiff32(b, a) == -TimeDiff32(a, b)
  {
  }

  // ---------------------------------------------------------------------
  // tm_to_seconds

  /** The fields of `std::tm` the conversion reads: years since 1900, the
      0-based month, the 1-based day of the month, and the time of day. */
  datatype Tm = Tm(tmYear: i32, tmMon: i32, tmMday: i32, tmHour: i32, tmMin: i32, tmSec: i32)

  function Year(tm: Tm): int {
    tm.tmYear + 1900
  }

  /** The Gregorian leap-year rule. */
  predicate IsLeap(year: int) {
    year % 4 == 0 && (year % 100 != 0 || year % 400 == 0)
  }

  /** The number of days in a 0-based month of a year. */
  function MonthLength(year: int, month: int): (n: int)
    requires 0 <= month < 12
    ensures 28 <= n <= 31
    ensures n == 29 <==> month == 1 && IsLeap(year)
  {
    var mdays := [31, 28, 31, 30, 31, 30, 31, 31, 30, 31, 30, 31];
    mdays[month] + (if IsLeap(year) && month == 1 then 1 else 0)
  }

  /** A date and time the conversion accepts: a year from 1970 on, a
      month, a day of that month and a time of day with no leap second. */
  predicate ValidTm(tm: Tm) {
    Year(tm) >= 1970 &&
    0 <= tm.tmMon <= 11 &&
    1 <= tm.tmMday <= MonthLength(Year(tm), tm.tmMon) &&
    0 <= tm.tmHour <= 23 && 0 <= tm.tmMin <= 59 && 0 <= tm.tmSec <= 59
  }

  /** The leap years from 1970 up to and including `year`, counted the way
      the source counts them: by the multiples of 4, 100 and 400. */
  function LeapDaysThrough(year: int): int {
    (year / 4 - 1970 / 4) - (year / 100 - 1970 / 100) + (year / 400 - 1970 / 400)
  }

  /** `tm_to_seconds`: -1 for a field out of range, otherwise the seconds
      since the epoch. */
  function TmToSeconds(tm: Tm): (r: int)
    ensures r >= 0 <==> ValidTm(tm)
    ensures !ValidTm(tm) ==> r == -1
  {
    var mdays := [31, 28, 31, 30, 31, 30, 31, 31, 30, 31, 30, 31];
    var cumulMdays := [0, 31, 59, 90, 120, 151, 181, 212, 243, 273, 304, 334];
    var year := tm.tmYear + 1900;
    var month := tm.tmMon;
    var day := tm.tmMday - 1;
    var leap := year % 4 == 0 && (year % 100 != 0 || year % 400 == 0);
    if year < 1970 then -1
    else if month < 0 || month > 11 then -1
    else if day < 0 || day >= mdays[month] + (if leap && month == 1 then 1 else 0) then -1
    else if tm.tmHour < 0 || tm.tmHour > 23 then -1
    else if tm.tmMin < 0 || tm.tmMin > 59 then -1
    else if tm.tmSec < 0 || tm.tmSec > 59 then -1
    else
      var day1 := day + cumulMdays[month];
      var day2 := day1 + LeapDaysThrough(year);
      var day3 := if leap && month <= 1 then day2 - 1 else day2;
      LeapDaysNonNegative(year);
      ((((year - 1970) * 365 + day3) * 24 + tm.tmHour) * 60 + tm.tmMin) * 60 + tm.tmSec
  }

  lemma LeapDaysNonNegative(year: int)
    requires year >= 1970
    ensures LeapDaysThrough(year) >= 0
    ensures IsLeap(year) ==> LeapDaysThrough(year) >= 1
  {
  }

  // Reference definition: count the days one year and one month at a time.

  function YearLength(year: int): (n: int)
    ensures n == 365 || n == 366
  {
    if IsLeap(year) then 366 else 365
  }

  /** The days from 1970-01-01 to the first day of `year`. */
  function DaysBeforeYear(year: int): (n: nat)
    requires year >= 1970
    decreases year - 1970
  {
    if year == 1970 then 0 else DaysBeforeYear(year - 1) + YearLength(year - 1)
  }

  /** The days from the first of January to the first day of `month`. */
  function DaysBeforeMonth(year: int, month: int): (n: nat)
    requires 0 <= month <= 12
  {
    if month == 0 then 0 else DaysBeforeMonth(year, month - 1) + MonthLength(year, month - 1)
  }

  /** The seconds from the epoch to a valid date and time, counted day by
      day. */
  function EpochSeconds(tm: Tm): (r: nat)
    requires ValidTm(tm)
  {
    var days := DaysBeforeYear(Year(tm)) + DaysBeforeMonth(Year(tm), tm.tmMon) + tm.tmMday - 1;
    ((days * 24 + tm.tmHour) * 60 + tm.tmMin) * 60 + tm.tmSec
  }

  /** Counting by multiples of 4, 100 and 400 adds one exactly in a leap
      year. */
  lemma LeapDaysStep(year: int)
    requires year >= 1970
    ensures LeapDaysThrough(year + 1) == LeapDaysThrough(year) + (if IsLeap(year + 1) then 1 else 0)
  {
    DivStep(year, 4);
    DivStep(year, 100);
    DivStep(year, 400);
    var y := year + 1;
    if y % 400 == 0 {
      DivUnique(y, 100, 4 * (y / 400), 0);
    }
    if y % 100 == 0 {
      DivUnique(y, 4, 25 * (y / 100), 0);
    }
  }

  /** Adding one to a natural number adds one to its quotient exactly when
      the sum is a multiple of the divisor. */
  lemma DivStep(x: nat, m: nat)
    requires m > 0
    ensures (x + 1) / m == x / m + (if (x + 1) % m == 0 then 1 else 0)
  {
    if x % m + 1 == m {
      DivUnique(x + 1, m, x / m + 1, 0);
    } else {
      DivUnique(x + 1, m, x / m, x % m + 1);
    }
  }

  /** The days before a year are 365 per year plus one per leap year
      before it. */
  lemma {:induction false} DaysBeforeYearByLeapCount(year: int)
    requires year >= 1970
    ensures DaysBeforeYear(year) == (year - 1970) * 365 + LeapDaysThrough(year) - (if IsLeap(year) then 1 else 0)
    decreases year - 1970
  {
    if year > 1970 {
      DaysBeforeYearByLeapCount(year - 1);
      LeapDaysStep(year - 1);
    }
  }

  /** The source's table of cumulative month lengths agrees with adding
      the months up, with the leap day counted from March on. */
  lemma DaysBeforeMonthTable(year: int, month: int)
    requires 0 <= month < 12
    ensures DaysBeforeMonth(year, month) ==
            [0, 31, 59, 90, 120, 151, 181, 212, 243, 273, 304, 334][month] +
            (if IsLeap(year) && month >= 2 then 1 else 0)
  {
    var d0 := DaysBeforeMonth(year, 0);
    var d1 := DaysBeforeMonth(year, 1);
    var d2 := DaysBeforeMonth(year, 2);
    var d3 := DaysBeforeMonth(year, 3);
    var d4 := DaysBeforeMonth(year, 4);
    var d5 := DaysBeforeMonth(year, 5);
    var d6 := DaysBeforeMonth(year, 6);
    var d7 := DaysBeforeMonth(year, 7);
    var d8 := DaysBeforeMonth(year, 8);
    var d9 := DaysBeforeMonth(year, 9);
    var d10 := DaysBeforeMonth(year, 10);
    var d11 := DaysBeforeMonth(year, 11);
  }

  /** A whole year of months is a year. */
  lemma DaysBeforeMonthYear(year: int)
    ensures DaysBeforeMonth(year, 12) == YearLength(year)
  {
    DaysBeforeMonthTable(year, 11);
  }

  /** The conversion computes the seconds since the epoch counted day by
      day. */
  lemma TmToSecondsIsEpochSeconds(tm: Tm)
    requires ValidTm(tm)
    ensures TmToSeconds(tm) == EpochSeconds(tm)
  {
    DaysBeforeYearByLeapCount(Year(tm));
    DaysBeforeMonthTable(Year(tm), tm.tmMon);
  }

  /** The epoch itself is second 0. */
  lemma EpochIsZero()
    ensures TmToSeconds(Tm(70, 0, 1, 0, 0, 0)) == 0
  {
  }

  /** The date and time one second later, carrying into the minute, hour,
      day, month and year. */
  function NextSecond(tm: Tm): (n: Tm)
    requires ValidTm(tm) && Year(tm) < 0x7fff_ffff
  {
    if tm.tmSec < 59 then tm.(tmSec := tm.tmSec + 1)
    else if tm.tmMin < 59 then tm.(tmMin := tm.tmMin + 1, tmSec := 0)
    else if tm.tmHour < 23 then tm.(tmHour := tm.tmHour + 1, tmMin := 0, tmSec := 0)
    else if tm.tmMday < MonthLength(Year(tm), tm.tmMon) then
      tm.(tmMday := tm.tmMday + 1, tmHour := 0, tmMin := 0, tmSec := 0)
    else if tm.tmMon < 11 then
      tm.(tmMon := tm.tmMon + 1, tmMday := 1, tmHour := 0, tmMin := 0, tmSec := 0)
    else Tm(tm.tmYear + 1, 0, 1, 0, 0, 0)
  }

  /** Successive seconds differ by one, across every boundary of the
      calendar: the end of a minute, an hour, a day, a month (February
      included) and a year. */
  lemma SuccessiveSeconds(tm: Tm)
    requires ValidTm(tm) && Year(tm) < 0x7fff_ffff
    ensures ValidTm(NextSecond(tm))
    ensures TmToSeconds(NextSecond(tm)) == TmToSeconds(tm) + 1
  {
    var n := NextSecond(tm);
    NextSecondFacts(tm);
    TmToSecondsIsEpochSeconds(tm);
    TmToSecondsIsEpochSeconds(n);
    if tm.tmSec == 59 && tm.tmMin == 59 && tm.tmHour == 23 {
      NextDay(tm);
    } else {
    }
  }

  /** The last second of a day is followed by the first second of the next
      day, which may open a new month or a new year. */
  lemma NextDay(tm: Tm)
    requires ValidTm(tm) && Year(tm) < 0x7fff_ffff
    requires tm.tmSec == 59 && tm.tmMin == 59 && tm.tmHour == 23
    ensures ValidTm(NextSecond(tm)) && EpochSeconds(NextSecond(tm)) == EpochSeconds(tm) + 1
  {
    var n := NextSecond(tm);
    NextSecondFacts(tm);
    var y := Year(tm);
    var days := DaysBeforeYear(y) + DaysBeforeMonth(y, tm.tmMon) + tm.tmMday - 1;
    assert EpochSeconds(tm) + 1 == (days + 1) * 24 * 60 * 60;
    if tm.tmMday < MonthLength(y, tm.tmMon) {
    } else if tm.tmMon < 11 {
      assert DaysBeforeMonth(y, tm.tmMon + 1) == DaysBeforeMonth(y, tm.tmMon) + MonthLength(y, tm.tmMon);
    } else {
      DaysBeforeMonthYear(y);
      assert DaysBeforeYear(y + 1) == DaysBeforeYear(y) + YearLength(y);
    }
  }

  /** Later dates and times give larger results: the conversion is
      strictly increasing, hence one-to-one on valid inputs. */
  lemma {:induction false} TmToSecondsIncreasing(tm: Tm, k: nat)
    requires ValidTm(tm) && Year(tm) + k < 0x7fff_ffff
    ensures ValidTm(Later(tm, k))
    ensures TmToSeconds(Later(tm, k)) == TmToSeconds(tm) + k
  {
    if k > 0 {
      TmToSecondsIncreasing(tm, k - 1);
      SuccessiveSeconds(Later(tm, k - 1));
    }
  }

  /** The date and time `k` seconds later. */
  function Later(tm: Tm, k: nat): (n: Tm)
    requires ValidTm(tm) && Year(tm) + k < 0x7fff_ffff
    ensures ValidTm(n) && Year(tm) <= Year(n) <= Year(tm) + k
  {
    if k == 0 then tm
    else
      var p := Later(tm, k - 1);
      NextSecondFacts(p);
      NextSecond(p)
  }

  lemma NextSecondFacts(tm: Tm)
    requires ValidTm(tm) && Year(tm) < 0x7fff_ffff
    ensures ValidTm(NextSecond(tm)) && Year(tm) <= Year(NextSecond(tm)) <= Year(tm) + 1
  {
  }

  // ---------------------------------------------------------------------
  // TimestampWrapAroundHandler

  /** The handler's state: the last timestamp kept and the number of
      wrap-arounds seen, -1 before the first timestamp. */
  datatype WrapHandler = WrapHandler(lastTs: u32, numWrap: int)

  /** The constructor. */
  const NEW_HANDLER := WrapHandler(0, -1)

  ghost predicate HandlerValid(h: WrapHandler) {
    h.numWrap >= -1
  }

  datatype Unwrapped = Unwrapped(value: int, handler: WrapHandler)

  /** A step from `last` to `ts` is a backward wrap: `ts` is so far ahead
      of `last` that it must lie just behind it, on the far side of a
      wrap. */
  predicate BackwardWrap(last: u32, ts: u32) {
    ts >= last && ts - last > 0xf000_0000
  }

  /** A step from `last` to `ts` is a forward wrap: the counter went from
      near its top to near zero. */
  predicate ForwardWrap(last: u32, ts: u32) {
    ts < last && last >= 0xf000_0000 && ts < 0x0fff_ffff
  }

  /** `unwrap`: the first timestamp is returned as it is and starts the
      count at 0. A backward wrap is unwrapped with one wrap fewer and
      leaves the state alone; otherwise a forward wrap adds one to the
      count, the timestamp becomes the last one, and it is unwrapped with
      the count. */
  function Unwrap(h: WrapHandler, ts: u32): (r: Unwrapped)
    requires HandlerValid(h)
    ensures HandlerValid(r.handler) && r.handler.numWrap >= 0
    ensures r.value % TWO_32 == ts
    ensures h.numWrap == -1 ==> r == Unwrapped(ts, WrapHandler(ts, 0))
    ensures h.numWrap >= 0 && BackwardWrap(h.lastTs, ts) ==>
              r.handler == h && r.value == ts + (h.numWrap - 1) * TWO_32
    ensures h.numWrap >= 0 && !BackwardWrap(h.lastTs, ts) ==>
              r.handler.lastTs == ts &&
              r.handler.numWrap == h.numWrap + (if ForwardWrap(h.lastTs, ts) then 1 else 0) &&
              r.value == ts + r.handler.numWrap * TWO_32
  {
    if h.numWrap == -1 then Unwrapped(ts, WrapHandler(ts, 0))
    else
      if ts < h.lastTs then
        var numWrap := if h.lastTs >= 0xf000_0000 && ts < 0x0fff_ffff then h.numWrap + 1 else h.numWrap;
        Unwrapped(ts + numWrap * TWO_32, WrapHandler(ts, numWrap))
      else if ts - h.lastTs > 0xf000_0000 then
        Unwrapped(ts + (h.numWrap - 1) * TWO_32, h)
      else
        Unwrapped(ts + h.numWrap * TWO_32, WrapHandler(ts, h.numWrap))
  }

  /** The 64-bit value the handler last produced for its last timestamp. */
  function LastValue(h: WrapHandler): int {
    h.lastTs + h.numWrap * TWO_32
  }

  /** How far `ts` lies ahead of `last` going forward round the 32-bit
      counter. */
  function Ahead(last: u32, ts: u32): (d: u32)
    ensures (last + d) % TWO_32 == ts
  {
    U32(ts - last)
  }

  /** The unwrapped timeline is continuous: a timestamp a short step (less
      than 0x0fffffff) ahead of the last one, across a wrap or not, lands
      that step after the last value; one a short step behind lands that
      step before it. */
  lemma UnwrapIsContinuous(h: WrapHandler, ts: u32)
    requires h.numWrap >= 0
    ensures Ahead(h.lastTs, ts) < 0x0fff_ffff ==>
              Unwrap(h, ts).value == LastValue(h) + Ahead(h.lastTs, ts)
    ensures 0 < Ahead(ts, h.lastTs) < 0x0fff_ffff ==>
              Unwrap(h, ts).value == LastValue(h) - Ahead(ts, h.lastTs)
  {
  }

  /** Unwrapping a sequence of timestamps with one handler. */
  function UnwrapAll(h: WrapHandler, stamps: seq<u32>): (r: (seq<int>, WrapHandler))
    requires HandlerValid(h)
    ensures |r.0| == |stamps| && HandlerValid(r.1)
    decreases |stamps|
  {
    if stamps == [] then ([], h)
    else
      var u := Unwrap(h, stamps[0]);
      var rest := UnwrapAll(u.handler, stamps[1..]);
      ([u.value] + rest.0, rest.1)
  }

  /** Timestamps that only ever step forward by less than 0x0fffffff,
      wrapping round the counter as often as they like, unwrap to the last
      value plus the steps taken: the 64-bit timeline never jumps. */
  lemma {:induction false} UnwrapAllForward(h: WrapHandler, stamps: seq<u32>)
    requires h.numWrap >= 0
    requires |stamps| > 0 ==> Ahead(h.lastTs, stamps[0]) < 0x0fff_ffff
    requires forall i :: 0 < i < |stamps| ==> Ahead(stamps[i - 1], stamps[i]) < 0x0fff_ffff
    ensures |stamps| > 0 ==> UnwrapAll(h, stamps).0[0] == LastValue(h) + Ahead(h.lastTs, stamps[0])
    ensures forall i :: 0 < i < |stamps| ==>
              UnwrapAll(h, stamps).0[i] == UnwrapAll(h, stamps).0[i - 1] + Ahead(stamps[i - 1], stamps[i])
    decreases |stamps|
  {
    if stamps != [] {
      var u := Unwrap(h, stamps[0]);
      UnwrapIsContinuous(h, stamps[0]);
      var tail := stamps[1..];
      assert u.handler.lastTs == stamps[0] && u.value == LastValue(u.handler);
      assert forall i :: 0 < i < |tail| ==> tail[i - 1] == stamps[i] && tail[i] == stamps[i + 1];
      UnwrapAllForward(u.handler, tail);
      var all := UnwrapAll(h, stamps).0;
      var rest := UnwrapAll(u.handler, tail).0;
      assert all == [u.value] + rest;
      forall i | 0 < i < |stamps|
        ensures all[i] == all[i - 1] + Ahead(stamps[i - 1], stamps[i])
      {
        assert all[i] == rest[i - 1] && stamps[i] == tail[i - 1];
        if i > 1 {
          assert all[i - 1] == rest[i - 2] && stamps[i - 1] == tail[i - 2];
        }
      }
    }
  }
}
