/**
 Calendar days and the display window. A day is an integer day number (one more
 than the day before), which is all the arithmetic the tracker does on `date`
 values: `timedelta(days=n)` is `+ n` and `(d1 - d0).days` is `d1 - d0`.
 */
module Dates {

  /** `daterange(d0, d1)`: every day from `d0` to `d1`, both included. */
  function DateRange(d0: int, d1: int): (days: seq<int>)
    ensures d1 < d0 ==> days == []
    ensures d0 <= d1 ==> |days| == d1 - d0 + 1 && days[0] == d0 && days[|days| - 1] == d1
    ensures forall i :: 0 < i < |days| ==> days[i] == days[i - 1] + 1
  {
    var n := if d1 - d0 + 1 > 0 then d1 - d0 + 1 else 0;
    seq(n, i => d0 + i)
  }

  /** Exactly the days from `d0` to `d1` are in `daterange(d0, d1)`. */
  lemma {:induction false} DateRangeMembers(d0: int, d1: int)
    ensures forall x :: x in DateRange(d0, d1) <==> d0 <= x <= d1
  {
    var days := DateRange(d0, d1);
    forall x | d0 <= x <= d1 ensures x in days {
      if x > d0 {
        StrictlyAscendingFrom(days, 0, x - d0);
      }
    }
    forall x | x in days ensures d0 <= x <= d1 {
      var i :| 0 <= i < |days| && days[i] == x;
      if i > 0 {
        StrictlyAscendingFrom(days, 0, i);
      }
    }
  }

  /** Consecutive days are strictly ascending, so no day is listed twice. */
  lemma {:induction false} DateRangeStrictlyAscending(d0: int, d1: int)
    ensures forall i, j :: 0 <= i < j < |DateRange(d0, d1)| ==>
              DateRange(d0, d1)[i] < DateRange(d0, d1)[j]
  {
    var days := DateRange(d0, d1);
    forall i, j | 0 <= i < j < |days| ensures days[i] < days[j] {
      StrictlyAscendingFrom(days, i, j);
    }
  }

  lemma {:induction false} StrictlyAscendingFrom(days: seq<int>, i: nat, j: nat)
    requires forall k :: 0 < k < |days| ==> days[k] == days[k - 1] + 1
    requires i < j < |days|
    ensures days[j] == days[i] + (j - i)
  {
    if j > i + 1 {
      StrictlyAscendingFrom(days, i, j - 1);
    }
  }

  /** `min(...)` over a non-empty list of days. */
  function Earliest(ds: seq<int>): (m: int)
    requires ds != []
    ensures m in ds
    ensures forall i :: 0 <= i < |ds| ==> m <= ds[i]
  {
    if |ds| == 1 then ds[0]
    else
      var rest := Earliest(ds[1..]);
      assert forall i :: 1 <= i < |ds| ==> ds[i] == ds[1..][i - 1];
      if ds[0] <= rest then ds[0] else rest
  }

  /**
   The window presets of the sidebar. The calendar-month presets subtract 6 or 12
   months with calendar arithmetic; that shifted day is supplied by the caller.
   */
  datatype Preset =
    | Last30Days
    | Last60Days
    | Last90Days
    | CalendarMonths(shiftedEnd: int)
    | AllTime

  /** The start day a preset gives for the chosen end day, before normalisation. */
  function PresetStart(preset: Preset, end: int, entryDates: seq<int>): (start: int)
    ensures preset == AllTime && entryDates != [] ==>
              start in entryDates && forall i :: 0 <= i < |entryDates| ==> start <= entryDates[i]
  {
    match preset
    case Last30Days => end - 29
    case Last60Days => end - 59
    case Last90Days => end - 89
    case CalendarMonths(shiftedEnd) => shiftedEnd + 1
    case AllTime => if entryDates != [] then Earliest(entryDates) else end - 179
  }

  /** The inclusive window `[start, end]` the chart shows. */
  datatype Window = Window(start: int, end: int)

  /** `start_date = min(start_date, end_date)`. */
  function Normalize(start: int, end: int): (w: Window)
    ensures w.end == end && w.start <= w.end
    ensures start <= end ==> w.start == start
    ensures end < start ==> w.start == end
  {
    Window(if start < end then start else end, end)
  }

  /** Number of days in a window. */
  function DayCount(w: Window): (n: nat)
    ensures n == if w.start <= w.end then w.end - w.start + 1 else 0
  {
    |DateRange(w.start, w.end)|
  }

  /** The window selected in the sidebar, normalised as the chart code does. */
  function SelectWindow(preset: Preset, end: int, entryDates: seq<int>): (w: Window)
    ensures w.end == end && w.start <= w.end && DayCount(w) >= 1
    ensures preset == Last30Days ==> DayCount(w) == 30
    ensures preset == Last60Days ==> DayCount(w) == 60
    ensures preset == Last90Days ==> DayCount(w) == 90
    ensures preset == AllTime && entryDates == [] ==> DayCount(w) == 180
    ensures preset.CalendarMonths? ==> w == Normalize(preset.shiftedEnd + 1, end)
  {
    Normalize(PresetStart(preset, end, entryDates), end)
  }

  /** "All time" shows every recorded day up to the chosen end day. */
  lemma AllTimeCoversEveryEntry(end: int, entryDates: seq<int>)
    ensures forall i :: 0 <= i < |entryDates| && entryDates[i] <= end ==>
              SelectWindow(AllTime, end, entryDates).start <= entryDates[i]
    ensures entryDates != [] && Earliest(entryDates) <= end ==>
              SelectWindow(AllTime, end, entryDates).start == Earliest(entryDates)
  {
  }
}
