/** Calendar availability: the overlap test of `check_availability`, slot
    durations, merging busy periods, the free-gap scan over working hours,
    natural-language constraints and the recommendation message. Instants
    are integer seconds on the user's local clock; day `d` starts at
    `d * 86400`. */
module Calendar {
  import opened Wrappers
  import opened Text
  import Sorting
  import Triggers
  import Organizer

  datatype TimeSlot = TimeSlot(start: int, end: int)

  datatype ScheduleItem = ScheduleItem(status: string, start: int, end: int)

  /** One user's getSchedule answer. */
  datatype AvailabilityResult = AvailabilityResult(email: string, items: seq<ScheduleItem>)

  function Min(a: int, b: int): int {
    if a <= b then a else b
  }

  function Max(a: int, b: int): int {
    if a >= b then a else b
  }

  // ------------------------------------------------------------ durations

  /** `int(seconds / 60)`: Python's `int` truncates toward zero. */
  function TruncMinutes(seconds: int): int {
    if seconds >= 0 then seconds / 60 else -((-seconds) / 60)
  }

  /** `TimeSlot.duration_minutes`: whole minutes from start to end. */
  function DurationMinutes(s: TimeSlot): (m: int)
    ensures s.start <= s.end ==> 0 <= m && m * 60 <= s.end - s.start < (m + 1) * 60
    ensures s.end < s.start ==> m <= 0 && -m * 60 <= s.start - s.end < (-m + 1) * 60
  {
    TruncMinutes(s.end - s.start)
  }

  // ------------------------------------------------------------ availability

  /** Graph statuses that make a period busy; 'free' and 'workingElsewhere' do not. */
  predicate IsBusy(status: string) {
    status == "busy" || status == "oof" || status == "tentative"
  }

  /** The half-open overlap test of `check_availability`. */
  predicate Blocks(item: ScheduleItem, start: int, end: int) {
    IsBusy(item.status) && item.start < end && item.end > start
  }

  predicate AnyBlocks(results: seq<AvailabilityResult>, start: int, end: int) {
    exists i, j :: 0 <= i < |results| && 0 <= j < |results[i].items| && Blocks(results[i].items[j], start, end)
  }

  function ItemsFree(items: seq<ScheduleItem>, start: int, end: int): (free: bool)
    ensures free <==> forall j :: 0 <= j < |items| ==> !Blocks(items[j], start, end)
  {
    if |items| == 0 then true
    else if Blocks(items[0], start, end) then false
    else ItemsFree(items[1..], start, end)
  }

  /** `check_availability` on the schedule fetched for `[start, end)`: free
      unless some busy, out-of-office or tentative item overlaps it. An empty
      answer counts as free. */
  function CheckAvailability(results: seq<AvailabilityResult>, start: int, end: int): (free: bool)
    ensures |results| == 0 ==> free
    ensures !free <==> AnyBlocks(results, start, end)
  {
    if |results| == 0 then true
    else
      var restFree := CheckAvailability(results[1..], start, end);
      if !ItemsFree(results[0].items, start, end) then false
      else
        assert forall i :: 1 <= i < |results| ==> results[i] == results[1..][i - 1];
        if !restFree then
          var i, j :| 0 <= i < |results[1..]| && 0 <= j < |results[1..][i].items|
                      && Blocks(results[1..][i].items[j], start, end);
          assert Blocks(results[i + 1].items[j], start, end);
          false
        else
          true
  }

  /** Free items, and busy items that only touch the slot, never make it busy. */
  lemma TouchingOrFreeNeverBlocks(results: seq<AvailabilityResult>, start: int, end: int)
    requires forall i, j :: 0 <= i < |results| && 0 <= j < |results[i].items| ==>
      !IsBusy(results[i].items[j].status) || results[i].items[j].end <= start || results[i].items[j].start >= end
    ensures CheckAvailability(results, start, end)
  {
  }

  // ------------------------------------------------------------ merging

  predicate In(s: TimeSlot, t: int) {
    s.start <= t < s.end
  }

  predicate Covered(slots: seq<TimeSlot>, t: int) {
    exists i :: 0 <= i < |slots| && In(slots[i], t)
  }

  predicate Within(s: TimeSlot, o: TimeSlot) {
    o.start <= s.start && s.end <= o.end
  }

  function SlotStart(s: TimeSlot): real {
    s.start as real
  }

  /** Starts ascend and each slot ends strictly before the next begins. */
  predicate Separated(r: seq<TimeSlot>) {
    Sorting.SortedBy(r, SlotStart) && forall i :: 0 <= i < |r| - 1 ==> r[i].end < r[i + 1].start
  }

  /** The loop of `_merge_time_slots`: `merged` so far, `rest` still to come. */
  function MergeFrom(merged: seq<TimeSlot>, rest: seq<TimeSlot>): (r: seq<TimeSlot>)
    requires |merged| > 0
    ensures 0 < |r| <= |merged| + |rest|
    decreases |rest|
  {
    if |rest| == 0 then merged
    else
      var last := merged[|merged| - 1];
      var s := rest[0];
      if s.start <= last.end then
        MergeFrom(merged[..|merged| - 1] + [TimeSlot(last.start, Max(last.end, s.end))], rest[1..])
      else
        MergeFrom(merged + [s], rest[1..])
  }

  /** `_merge_time_slots`: sort by start, then fuse overlapping or touching slots. */
  function MergeTimeSlots(slots: seq<TimeSlot>): (r: seq<TimeSlot>)
    ensures |r| <= |slots|
    ensures |slots| == 0 <==> |r| == 0
  {
    if |slots| == 0 then []
    else
      var sorted := Sorting.SortBy(slots, SlotStart);
      MergeFrom([sorted[0]], sorted[1..])
  }

  /** Every start still to come is no earlier than the last merged start. */
  predicate StartsAfterLast(merged: seq<TimeSlot>, rest: seq<TimeSlot>)
    requires |merged| > 0
  {
    forall j :: 0 <= j < |rest| ==> merged[|merged| - 1].start <= rest[j].start
  }

  lemma {:induction false} MergeFromSeparated(merged: seq<TimeSlot>, rest: seq<TimeSlot>)
    requires |merged| > 0 && Separated(merged) && Sorting.SortedBy(rest, SlotStart) && StartsAfterLast(merged, rest)
    ensures Separated(MergeFrom(merged, rest))
    decreases |rest|
  {
    if |rest| > 0 {
      var last := merged[|merged| - 1];
      var s := rest[0];
      if s.start <= last.end {
        var m' := merged[..|merged| - 1] + [TimeSlot(last.start, Max(last.end, s.end))];
        assert forall i :: 0 <= i < |merged| - 1 ==> m'[i] == merged[i];
        assert Separated(m') by {
          forall i, j | 0 <= i < j < |m'|
            ensures SlotStart(m'[i]) <= SlotStart(m'[j])
          {
            assert SlotStart(merged[i]) <= SlotStart(merged[j]);
          }
        }
        MergeFromSeparated(m', rest[1..]);
      } else {
        var m' := merged + [s];
        assert Separated(m') by {
          forall i, j | 0 <= i < j < |m'|
            ensures SlotStart(m'[i]) <= SlotStart(m'[j])
          {
            if j == |merged| {
              assert SlotStart(merged[i]) <= SlotStart(last);
            }
          }
        }
        assert StartsAfterLast(m', rest[1..]) by {
          forall j | 0 <= j < |rest[1..]|
            ensures s.start <= rest[1..][j].start
          {
            assert SlotStart(rest[0]) <= SlotStart(rest[j + 1]);
          }
        }
        MergeFromSeparated(m', rest[1..]);
      }
    }
  }

  /** Merging covers exactly the instants the inputs cover. */
  lemma {:induction false} MergeFromCovers(merged: seq<TimeSlot>, rest: seq<TimeSlot>, t: int)
    requires |merged| > 0 && Sorting.SortedBy(rest, SlotStart) && StartsAfterLast(merged, rest)
    ensures Covered(MergeFrom(merged, rest), t) <==> Covered(merged, t) || Covered(rest, t)
    decreases |rest|
  {
    if |rest| > 0 {
      var last := merged[|merged| - 1];
      var s := rest[0];
      assert forall j :: 1 <= j < |rest| ==> rest[j] == rest[1..][j - 1];
      assert Covered(rest, t) <==> In(s, t) || Covered(rest[1..], t);
      if s.start <= last.end {
        var fused := TimeSlot(last.start, Max(last.end, s.end));
        var m' := merged[..|merged| - 1] + [fused];
        assert StartsAfterLast(m', rest[1..]) by {
          forall j | 0 <= j < |rest[1..]|
            ensures fused.start <= rest[1..][j].start
          {
          }
        }
        MergeFromCovers(m', rest[1..], t);
        assert In(fused, t) <==> In(last, t) || In(s, t);
        assert Covered(m', t) <==> Covered(merged[..|merged| - 1], t) || In(fused, t) by {
          assert forall i :: 0 <= i < |merged| - 1 ==> m'[i] == merged[i];
        }
        assert Covered(merged, t) <==> Covered(merged[..|merged| - 1], t) || In(last, t) by {
          assert forall i :: 0 <= i < |merged| - 1 ==> merged[..|merged| - 1][i] == merged[i];
        }
      } else {
        var m' := merged + [s];
        assert StartsAfterLast(m', rest[1..]) by {
          forall j | 0 <= j < |rest[1..]|
            ensures s.start <= rest[1..][j].start
          {
            assert SlotStart(rest[0]) <= SlotStart(rest[j + 1]);
          }
        }
        MergeFromCovers(m', rest[1..], t);
        assert Covered(m', t) <==> Covered(merged, t) || In(s, t) by {
          assert forall i :: 0 <= i < |merged| ==> m'[i] == merged[i];
        }
      }
    }
  }

  /** After a merge step whose last start is at most the next start, the
      remaining slots are still sorted and start after it. */
  lemma TailKeepsOrder(merged: seq<TimeSlot>, rest: seq<TimeSlot>)
    requires |merged| > 0 && |rest| > 0 && Sorting.SortedBy(rest, SlotStart)
    requires merged[|merged| - 1].start <= rest[0].start
    ensures Sorting.SortedBy(rest[1..], SlotStart) && StartsAfterLast(merged, rest[1..])
  {
    assert forall j :: 0 <= j < |rest[1..]| ==> SlotStart(rest[0]) <= SlotStart(rest[1..][j]);
  }

  /** Every slot, merged so far or still to come, lies within some output slot. */
  lemma {:induction false} MergeFromContains(merged: seq<TimeSlot>, rest: seq<TimeSlot>, x: TimeSlot)
    requires |merged| > 0 && Sorting.SortedBy(rest, SlotStart) && StartsAfterLast(merged, rest)
    requires x in merged || x in rest
    ensures exists o :: o in MergeFrom(merged, rest) && Within(x, o)
    decreases |rest|
  {
    if |rest| == 0 {
      assert Within(x, x);
    } else {
      var last := merged[|merged| - 1];
      var s := rest[0];
      if s.start <= last.end {
        var fused := TimeSlot(last.start, Max(last.end, s.end));
        var m' := merged[..|merged| - 1] + [fused];
        var y := if x == last || x == s then fused else x;
        if x in merged && x != last {
          var i :| 0 <= i < |merged| && merged[i] == x;
          assert m'[i] == x;
        } else if x !in merged && x != s {
          var j :| 0 <= j < |rest| && rest[j] == x;
          assert rest[1..][j - 1] == x;
        }
        assert y in m' || y in rest[1..];
        TailKeepsOrder(m', rest);
        MergeFromContains(m', rest[1..], y);
        var o :| o in MergeFrom(m', rest[1..]) && Within(y, o);
        assert Within(x, o);
      } else {
        var m' := merged + [s];
        if x !in merged && x != s {
          var j :| 0 <= j < |rest| && rest[j] == x;
          assert rest[1..][j - 1] == x;
        }
        TailKeepsOrder(m', rest);
        MergeFromContains(m', rest[1..], x);
      }
    }
  }

  /** The output of `_merge_time_slots` is sorted by start with gaps between
      consecutive slots, covers exactly the union of its input, and contains
      every input slot. */
  lemma MergeTimeSlotsSpec(slots: seq<TimeSlot>)
    ensures Separated(MergeTimeSlots(slots))
    ensures forall t :: Covered(MergeTimeSlots(slots), t) <==> Covered(slots, t)
    ensures forall x :: x in slots ==> exists o :: o in MergeTimeSlots(slots) && Within(x, o)
  {
    if |slots| > 0 {
      var sorted := Sorting.SortBy(slots, SlotStart);
      SortedSplit(slots);
      MergeFromSeparated([sorted[0]], sorted[1..]);
      forall t
        ensures Covered(MergeTimeSlots(slots), t) <==> Covered(slots, t)
      {
        MergeFromCovers([sorted[0]], sorted[1..], t);
        CoveredSplit(sorted, t);
        CoveredSameMembers(sorted, slots, t);
      }
      forall x | x in slots
        ensures exists o :: o in MergeTimeSlots(slots) && Within(x, o)
      {
        assert x in sorted;
        assert sorted == [sorted[0]] + sorted[1..];
        MergeFromContains([sorted[0]], sorted[1..], x);
      }
    }
  }

  /** The sorted slots split into the first one and an ordered rest that
      starts no earlier, holding the same slots as the input. */
  lemma SortedSplit(slots: seq<TimeSlot>)
    requires |slots| > 0
    ensures var sorted := Sorting.SortBy(slots, SlotStart);
            StartsAfterLast([sorted[0]], sorted[1..]) && Sorting.SortedBy(sorted[1..], SlotStart)
            && forall x :: x in sorted <==> x in slots
  {
    var sorted := Sorting.SortBy(slots, SlotStart);
    Sorting.SortByMembers(slots, SlotStart);
    assert StartsAfterLast([sorted[0]], sorted[1..]) by {
      forall j | 0 <= j < |sorted[1..]|
        ensures sorted[0].start <= sorted[1..][j].start
      {
        assert SlotStart(sorted[0]) <= SlotStart(sorted[j + 1]);
      }
    }
    assert Sorting.SortedBy(sorted[1..], SlotStart) by {
      forall i, j | 0 <= i < j < |sorted[1..]|
        ensures SlotStart(sorted[1..][i]) <= SlotStart(sorted[1..][j])
      {
        assert SlotStart(sorted[i + 1]) <= SlotStart(sorted[j + 1]);
      }
    }
  }

  lemma CoveredSplit(s: seq<TimeSlot>, t: int)
    requires |s| > 0
    ensures Covered(s, t) <==> Covered([s[0]], t) || Covered(s[1..], t)
  {
    assert forall j :: 1 <= j < |s| ==> s[j] == s[1..][j - 1];
    if Covered(s, t) {
      var i :| 0 <= i < |s| && In(s[i], t);
      if i > 0 {
        assert In(s[1..][i - 1], t);
      } else {
        assert In([s[0]][0], t);
      }
    }
    if Covered([s[0]], t) {
      assert In(s[0], t);
    }
    if Covered(s[1..], t) {
      var i :| 0 <= i < |s[1..]| && In(s[1..][i], t);
      assert In(s[i + 1], t);
    }
  }

  lemma CoveredSameMembers(a: seq<TimeSlot>, b: seq<TimeSlot>, t: int)
    requires forall x :: x in a <==> x in b
    ensures Covered(a, t) <==> Covered(b, t)
  {
    if Covered(a, t) {
      var i :| 0 <= i < |a| && In(a[i], t);
      assert a[i] in b;
    }
    if Covered(b, t) {
      var i :| 0 <= i < |b| && In(b[i], t);
      assert b[i] in a;
    }
  }

  // ------------------------------------------------------------ free gaps

  datatype WorkingHours = WorkingHours(startHour: int, endHour: int, days: set<string>)

  /** Used when the mailbox settings cannot be read. */
  const DefaultHours := WorkingHours(9, 17, {"monday", "tuesday", "wednesday", "thursday", "friday"})

  /** `strftime("%A").lower()` by weekday number, Monday first. */
  const DayNames: seq<string> := ["monday", "tuesday", "wednesday", "thursday", "friday", "saturday", "sunday"]

  function DayName(day: int): string {
    DayNames[Organizer.Weekday(day)]
  }

  lemma DayNamesAgree(day: int)
    ensures Organizer.WeekdayIndex(DayName(day)) == Some(Organizer.Weekday(day))
  {
  }

  /** Hours outside 0..23 make `datetime(...)` raise. */
  predicate ValidHours(h: WorkingHours) {
    0 <= h.startHour <= 23 && 0 <= h.endHour <= 23
  }

  /** Every item of a busy, out-of-office or tentative status, as a slot,
      and nothing else. */
  function BusyPeriods(results: seq<AvailabilityResult>): (r: seq<TimeSlot>)
    ensures forall i, j :: 0 <= i < |results| && 0 <= j < |results[i].items| && IsBusy(results[i].items[j].status)
                           ==> TimeSlot(results[i].items[j].start, results[i].items[j].end) in r
    ensures forall p :: p in r ==>
      exists i, j :: 0 <= i < |results| && 0 <= j < |results[i].items| && IsBusy(results[i].items[j].status)
                     && p == TimeSlot(results[i].items[j].start, results[i].items[j].end)
  {
    if |results| == 0 then []
    else
      var rest := BusyPeriods(results[1..]);
      assert forall i :: 1 <= i < |results| ==> results[i] == results[1..][i - 1];
      ItemPeriods(results[0].items) + rest
  }

  function ItemPeriods(items: seq<ScheduleItem>): (r: seq<TimeSlot>)
    ensures forall j :: 0 <= j < |items| && IsBusy(items[j].status) ==> TimeSlot(items[j].start, items[j].end) in r
    ensures forall p :: p in r ==>
      exists j :: 0 <= j < |items| && IsBusy(items[j].status) && p == TimeSlot(items[j].start, items[j].end)
  {
    if |items| == 0 then []
    else
      (if IsBusy(items[0].status) then [TimeSlot(items[0].start, items[0].end)] else [])
      + ItemPeriods(items[1..])
  }

  datatype ScanState = ScanState(gaps: seq<TimeSlot>, cur: int)

  /** A gap `[from, to)` is kept when it lasts at least the minimum. */
  function GapIfLong(from: int, to: int, minMinutes: int): (r: seq<TimeSlot>)
    ensures forall g :: g in r ==> g == TimeSlot(from, to) && DurationMinutes(g) >= minMinutes
  {
    if DurationMinutes(TimeSlot(from, to)) >= minMinutes then [TimeSlot(from, to)] else []
  }

  /** The inner loop of `_extract_free_slots` over the merged busy periods,
      walking `cur` forward through one day's window. */
  function Scan(busy: seq<TimeSlot>, cur: int, windowEnd: int, minMinutes: int): (r: ScanState)
    ensures r.cur >= cur
    ensures forall j :: 0 <= j < |busy| ==> busy[j].end <= r.cur || busy[j].start >= windowEnd
    ensures forall g :: g in r.gaps ==>
      cur <= g.start < g.end <= windowEnd && DurationMinutes(g) >= minMinutes
  {
    if |busy| == 0 then ScanState([], cur)
    else
      var b := busy[0];
      assert forall j :: 1 <= j < |busy| ==> busy[j] == busy[1..][j - 1];
      if b.end <= cur || b.start >= windowEnd then
        Scan(busy[1..], cur, windowEnd, minMinutes)
      else
        var gap := if cur < b.start then GapIfLong(cur, Min(b.start, windowEnd), minMinutes) else [];
        var rest := Scan(busy[1..], Max(cur, b.end), windowEnd, minMinutes);
        ScanState(gap + rest.gaps, rest.cur)
  }

  /** With busy periods sorted by start, no gap the scan emits shares an
      instant with any of them. */
  lemma {:induction false} ScanAvoidsBusy(busy: seq<TimeSlot>, cur: int, windowEnd: int, minMinutes: int)
    requires Sorting.SortedBy(busy, SlotStart)
    ensures forall g, j :: g in Scan(busy, cur, windowEnd, minMinutes).gaps && 0 <= j < |busy| ==>
      g.end <= busy[j].start || busy[j].end <= g.start
  {
    if |busy| > 0 {
      var b := busy[0];
      assert Sorting.SortedBy(busy[1..], SlotStart) by {
        forall i, j | 0 <= i < j < |busy[1..]|
          ensures SlotStart(busy[1..][i]) <= SlotStart(busy[1..][j])
        {
          assert SlotStart(busy[i + 1]) <= SlotStart(busy[j + 1]);
        }
      }
      assert forall j :: 1 <= j < |busy| ==> busy[j] == busy[1..][j - 1];
      assert forall j :: 0 <= j < |busy| ==> b.start <= busy[j].start by {
        forall j | 0 <= j < |busy|
          ensures b.start <= busy[j].start
        {
          if j > 0 {
            assert SlotStart(busy[0]) <= SlotStart(busy[j]);
          }
        }
      }
      if b.end <= cur || b.start >= windowEnd {
        ScanAvoidsBusy(busy[1..], cur, windowEnd, minMinutes);
      } else {
        ScanAvoidsBusy(busy[1..], Max(cur, b.end), windowEnd, minMinutes);
      }
    }
  }

  /** Working hours of `day`, clipped to the requested range. */
  function DayWindow(day: int, hours: WorkingHours, start: int, end: int): TimeSlot {
    TimeSlot(Max(day * Triggers.SecondsPerDay + hours.startHour * Triggers.SecondsPerHour, start),
             Min(day * Triggers.SecondsPerDay + hours.endHour * Triggers.SecondsPerHour, end))
  }

  predicate WorkingDay(day: int, hours: WorkingHours) {
    DayName(day) in hours.days
  }

  /** The free gaps of one day. */
  function DaySlots(busy: seq<TimeSlot>, day: int, hours: WorkingHours, start: int, end: int, minMinutes: int)
    : (r: seq<TimeSlot>)
    ensures forall g :: g in r ==>
      WorkingDay(day, hours) && DayWindow(day, hours, start, end).start <= g.start < g.end
      && g.end <= DayWindow(day, hours, start, end).end && DurationMinutes(g) >= minMinutes
  {
    if !WorkingDay(day, hours) then []
    else
      var w := DayWindow(day, hours, start, end);
      if w.start >= w.end then []
      else
        var s := Scan(busy, w.start, w.end, minMinutes);
        s.gaps + (if s.cur < w.end then GapIfLong(s.cur, w.end, minMinutes) else [])
  }

  lemma DaySlotsAvoidBusy(busy: seq<TimeSlot>, day: int, hours: WorkingHours, start: int, end: int,
                          minMinutes: int)
    requires Sorting.SortedBy(busy, SlotStart)
    ensures forall g, j :: g in DaySlots(busy, day, hours, start, end, minMinutes) && 0 <= j < |busy| ==>
      g.end <= busy[j].start || busy[j].end <= g.start
  {
    var w := DayWindow(day, hours, start, end);
    if WorkingDay(day, hours) && w.start < w.end {
      ScanAvoidsBusy(busy, w.start, w.end, minMinutes);
    }
  }

  /** The day loop, from `day` through `lastDay`. */
  function SlotsFrom(busy: seq<TimeSlot>, day: int, lastDay: int, hours: WorkingHours, start: int, end: int,
                     minMinutes: int): (r: seq<TimeSlot>)
    ensures forall g :: g in r ==>
      (start <= g.start < g.end <= end && DurationMinutes(g) >= minMinutes
       && exists d :: day <= d <= lastDay && g in DaySlots(busy, d, hours, start, end, minMinutes))
    decreases lastDay - day + 1
  {
    if day > lastDay then []
    else DaySlots(busy, day, hours, start, end, minMinutes) + SlotsFrom(busy, day + 1, lastDay, hours, start, end, minMinutes)
  }

  /** Some day in `day..lastDay` is a working day. */
  predicate AnyWorkingDay(day: int, lastDay: int, hours: WorkingHours) {
    exists d :: day <= d <= lastDay && WorkingDay(d, hours)
  }

  /** `_extract_free_slots`. `hours` is None when the mailbox settings could
      not be read. None as the result stands for the ValueError that hours
      outside 0..23 raise once a working day is reached. */
  function ExtractFreeSlots(results: seq<AvailabilityResult>, start: int, end: int, minMinutes: int,
                            hours: Option<WorkingHours>): (r: Option<seq<TimeSlot>>)
    ensures |results| == 0 ==> r == Some([])
    ensures r.None? <==> |results| > 0 && !ValidHours(hours.UnwrapOr(DefaultHours))
                         && AnyWorkingDay(start / Triggers.SecondsPerDay, end / Triggers.SecondsPerDay, hours.UnwrapOr(DefaultHours))
  {
    if |results| == 0 then Some([])
    else
      var h := hours.UnwrapOr(DefaultHours);
      var firstDay := start / Triggers.SecondsPerDay;
      var lastDay := end / Triggers.SecondsPerDay;
      if !ValidHours(h) && AnyWorkingDay(firstDay, lastDay, h) then None
      else Some(SlotsFrom(MergeTimeSlots(BusyPeriods(results)), firstDay, lastDay, h, start, end, minMinutes))
  }

  /** An instant of `g` is in none of the slots `g` keeps apart from. */
  lemma ApartNotCovered(busy: seq<TimeSlot>, g: TimeSlot, t: int)
    requires forall j :: 0 <= j < |busy| ==> g.end <= busy[j].start || busy[j].end <= g.start
    requires In(g, t)
    ensures !Covered(busy, t)
  {
  }

  /** Every free slot lies inside the requested range and inside the working
      hours of a working day, lasts at least the minimum, and shares no
      instant with any busy, out-of-office or tentative item. */
  lemma FreeSlotsSound(results: seq<AvailabilityResult>, start: int, end: int, minMinutes: int,
                       hours: Option<WorkingHours>, g: TimeSlot)
    requires ExtractFreeSlots(results, start, end, minMinutes, hours).Some?
    requires g in ExtractFreeSlots(results, start, end, minMinutes, hours).value
    ensures start <= g.start < g.end <= end && DurationMinutes(g) >= minMinutes
    ensures exists d ::
      (WorkingDay(d, hours.UnwrapOr(DefaultHours))
       && d * Triggers.SecondsPerDay + hours.UnwrapOr(DefaultHours).startHour * Triggers.SecondsPerHour <= g.start
       && g.end <= d * Triggers.SecondsPerDay + hours.UnwrapOr(DefaultHours).endHour * Triggers.SecondsPerHour)
    ensures forall i, j, t ::
      (0 <= i < |results| && 0 <= j < |results[i].items| && IsBusy(results[i].items[j].status) && In(g, t))
      ==> !(results[i].items[j].start <= t < results[i].items[j].end)
  {
    var h := hours.UnwrapOr(DefaultHours);
    var periods := BusyPeriods(results);
    var busy := MergeTimeSlots(periods);
    var firstDay := start / Triggers.SecondsPerDay;
    var lastDay := end / Triggers.SecondsPerDay;
    var d :| firstDay <= d <= lastDay && g in DaySlots(busy, d, h, start, end, minMinutes);
    MergeTimeSlotsSpec(periods);
    DaySlotsAvoidBusy(busy, d, h, start, end, minMinutes);
    forall i, j, t | 0 <= i < |results| && 0 <= j < |results[i].items| && IsBusy(results[i].items[j].status)
                     && In(g, t)
      ensures !(results[i].items[j].start <= t < results[i].items[j].end)
    {
      var item := TimeSlot(results[i].items[j].start, results[i].items[j].end);
      ApartNotCovered(busy, g, t);
      assert !Covered(periods, t);
      assert item in periods;
    }
  }

  // ------------------------------------------------------------ constraints

  function HourOf(t: int): int {
    (t % Triggers.SecondsPerDay) / Triggers.SecondsPerHour
  }

  function WeekdayOf(t: int): int {
    Organizer.Weekday(t / Triggers.SecondsPerDay)
  }

  /** The per-slot test of `_apply_constraints`; `c` is already lowercased. */
  predicate Keep(slot: TimeSlot, c: string) {
    var weekday := WeekdayOf(slot.start);
    var hour := HourOf(slot.start);
    !Contains(c, "no " + DayName(slot.start / Triggers.SecondsPerDay))
    && !(Contains(c, "no friday") && weekday == 4)
    && !(Contains(c, "no monday") && weekday == 0)
    && !(Contains(c, "weekdays only") && weekday >= 5)
    && !(Contains(c, "avoid mornings") && hour < 12)
    && !(Contains(c, "afternoon only") && (hour < 12 || hour >= 17))
    && !(Contains(c, "mornings only") && hour >= 12)
    && !(Contains(c, "after lunch") && hour < 13)
  }

  /** `r` is `s` with some elements dropped, order kept. */
  predicate IsSubsequence(r: seq<TimeSlot>, s: seq<TimeSlot>)
    decreases |s|
  {
    if |r| == 0 then true
    else if |s| == 0 then false
    else if r[0] == s[0] then IsSubsequence(r[1..], s[1..])
    else IsSubsequence(r, s[1..])
  }

  function FilterKept(slots: seq<TimeSlot>, c: string): (r: seq<TimeSlot>)
    ensures IsSubsequence(r, slots)
    ensures forall x :: x in r <==> x in slots && Keep(x, c)
  {
    if |slots| == 0 then []
    else if Keep(slots[0], c) then [slots[0]] + FilterKept(slots[1..], c)
    else FilterKept(slots[1..], c)
  }

  /** `_apply_constraints`: keep the slots the lowercased constraints allow. */
  function ApplyConstraints(slots: seq<TimeSlot>, constraints: string): (r: seq<TimeSlot>)
    ensures IsSubsequence(r, slots)
    ensures forall x :: x in r <==> x in slots && Keep(x, Lower(constraints))
  {
    FilterKept(slots, Lower(constraints))
  }

  /** "weekdays only" drops weekend slots and "avoid mornings" drops slots
      starting before noon, whatever the case of the text. */
  lemma ConstraintExamples(slots: seq<TimeSlot>, constraints: string)
    ensures Contains(Lower(constraints), "weekdays only") ==>
      forall x :: x in ApplyConstraints(slots, constraints) ==> WeekdayOf(x.start) < 5
    ensures Contains(Lower(constraints), "avoid mornings") ==>
      forall x :: x in ApplyConstraints(slots, constraints) ==> HourOf(x.start) >= 12
  {
  }

  // ------------------------------------------------------------ recommendation

  function CountTrue(flags: seq<bool>): (n: nat)
    ensures n <= |flags|
    ensures n == 0 <==> forall i :: 0 <= i < |flags| ==> !flags[i]
  {
    if |flags| == 0 then 0 else (if flags[0] then 1 else 0) + CountTrue(flags[1..])
  }

  /** `_generate_recommendation`: proposed times that work come first, then
      findMeetingTimes suggestions, then free slots, then the fallback. */
  function Recommendation(freeSlots: nat, proposedAvailable: seq<bool>, suggestions: nat, constraints: string)
    : string
  {
    var available := CountTrue(proposedAvailable);
    if available > 0 then NatToString(available) + " of the proposed time(s) work. Can confirm any of those."
    else if suggestions > 0 then
      "Found " + NatToString(suggestions) + " times that work for both parties via findMeetingTimes."
    else if freeSlots > 0 then
      "None of the proposed times work. " + NatToString(freeSlots) + " alternative slots available."
    else
      "No available times found" + (if |constraints| > 0 then " with constraints '" + constraints + "'" else "")
      + ". Consider expanding the search range."
  }

  /** Each tier decides the message on its own: nothing below it matters. */
  lemma RecommendationPriority(f1: nat, f2: nat, a: seq<bool>, m1: nat, m2: nat, c1: string, c2: string)
    ensures CountTrue(a) > 0 ==> Recommendation(f1, a, m1, c1) == Recommendation(f2, a, m2, c2)
    ensures CountTrue(a) == 0 && m1 > 0 && m1 == m2 ==> Recommendation(f1, a, m1, c1) == Recommendation(f2, a, m2, c2)
    ensures CountTrue(a) == 0 && m1 == 0 && m2 == 0 && f1 > 0 && f1 == f2 ==>
      Recommendation(f1, a, m1, c1) == Recommendation(f2, a, m2, c2)
  {
  }

  // ------------------------------------------------------------ the answer

  const SuggestedSlotLimit: nat := 10

  /** The slots the constraints keep: all of them when no constraints are given. */
  function KeptSlots(free: seq<TimeSlot>, constraints: string): (r: seq<TimeSlot>)
    ensures |constraints| == 0 ==> r == free
    ensures |constraints| > 0 ==> r == ApplyConstraints(free, constraints)
  {
    if |constraints| > 0 then ApplyConstraints(free, constraints) else free
  }

  /** The free-slot part of `enhance_availability_trigger`: a failed schedule
      fetch, or the error hours outside 0..23 raise, leaves no free slots;
      constraints filter only when given; the first ten kept slots are offered. */
  function OfferedSlots(schedule: Result<seq<AvailabilityResult>>, start: int, end: int, minMinutes: int,
                        hours: Option<WorkingHours>, constraints: string): (r: seq<TimeSlot>)
    ensures |r| <= SuggestedSlotLimit
    ensures schedule.Failure? ==> r == []
    ensures forall g :: g in r ==>
      (schedule.Success?
       && ExtractFreeSlots(schedule.value, start, end, minMinutes, hours).Some?
       && g in ExtractFreeSlots(schedule.value, start, end, minMinutes, hours).value)
    ensures schedule.Success? && ExtractFreeSlots(schedule.value, start, end, minMinutes, hours).None? ==> r == []
    ensures schedule.Success? && ExtractFreeSlots(schedule.value, start, end, minMinutes, hours).Some? ==>
      var kept := KeptSlots(ExtractFreeSlots(schedule.value, start, end, minMinutes, hours).value, constraints);
      |r| == (if |kept| < SuggestedSlotLimit then |kept| else SuggestedSlotLimit) && r == kept[..|r|]
  {
    match schedule
    case Failure(_) => []
    case Success(results) =>
      match ExtractFreeSlots(results, start, end, minMinutes, hours)
      case None => []
      case Some(free) =>
        var kept := KeptSlots(free, constraints);
        var r := Sorting.Take(kept, SuggestedSlotLimit);
        assert forall i :: 0 <= i < |r| ==> r[i] == kept[i] && r[i] in kept;
        r
  }

  /** Without constraints the offer is the first ten free slots. */
  lemma OfferedWithoutConstraints(results: seq<AvailabilityResult>, start: int, end: int, minMinutes: int,
                                  hours: Option<WorkingHours>)
    requires ExtractFreeSlots(results, start, end, minMinutes, hours).Some?
    ensures var free := ExtractFreeSlots(results, start, end, minMinutes, hours).value;
      OfferedSlots(Success(results), start, end, minMinutes, hours, "")
      == free[..if |free| < SuggestedSlotLimit then |free| else SuggestedSlotLimit]
  {
  }
}
