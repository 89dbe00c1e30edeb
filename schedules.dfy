/**
 * The schedule builder (`shiftsToSchedule` in ScheduleViewModel.kt): informal shifts are placed on
 * calendar dates by a rolling anchor that moves forward to the next date with each shift's weekday.
 * Dates are epoch days (days since 1970-01-01, which was a Thursday).
 */
module Schedules {
  import opened Shifts

  /** A LocalDate, as its epoch day. */
  type Date = int

  /** `LocalDate.getDayOfWeek` */
  function WeekdayOf(d: Date): DayOfWeek {
    DayOfWeekOf((d + 3) % 7 + 1)
  }

  /** Two dates fall on the same weekday exactly when they are a whole number of weeks apart. */
  lemma SameWeekday(a: Date, b: Date)
    ensures WeekdayOf(a) == WeekdayOf(b) <==> (b - a) % 7 == 0
  {
    var x, y := (a + 3) % 7, (b + 3) % 7;
    assert a + 3 == 7 * ((a + 3) / 7) + x;
    assert b + 3 == 7 * ((b + 3) / 7) + y;
    assert b - a == 7 * ((b + 3) / 7 - (a + 3) / 7) + (y - x);
    if x == y {
      assert (b - a) % 7 == 0;
    } else {
      assert WeekdayOf(a).Value() != WeekdayOf(b).Value();
      assert -7 < y - x < 7 && y - x != 0;
    }
  }

  /**
   * `date.with(TemporalAdjusters.next(dayOfWeek))`: the first date strictly after `d` that falls
   * on `dayOfWeek`, one to seven days later.
   */
  function NextWeekday(d: Date, dayOfWeek: DayOfWeek): (r: Date)
    ensures d < r <= d + 7
    ensures WeekdayOf(r) == dayOfWeek
    ensures forall x :: d < x < r ==> WeekdayOf(x) != dayOfWeek
  {
    var daysDiff := WeekdayOf(d).Value() - dayOfWeek.Value();
    var r := d + (if daysDiff >= 0 then 7 - daysDiff else -daysDiff);
    SameWeekday(r, d);
    assert WeekdayOf(r) == dayOfWeek by {
      assert (r + 3) % 7 + 1 == dayOfWeek.Value();
    }
    forall x | d < x < r ensures WeekdayOf(x) != dayOfWeek {
      SameWeekday(x, r);
    }
    r
  }

  /** A LocalDateTime: a date and a time of day. */
  datatype DateTime = DateTime(date: Date, time: TimeOfDay)

  /** Minutes since the epoch: LocalDateTime's order. */
  function Instant(t: DateTime): int {
    t.date * 1440 + t.time
  }

  /** `ScheduleEntry(startTime, endTime)` */
  datatype ScheduleEntry = ScheduleEntry(startTime: DateTime, endTime: DateTime)

  /** `Schedule(shifts)`: entries in the order their shifts were typed. */
  datatype Schedule = Schedule(shifts: seq<ScheduleEntry>)

  /**
   * Lines 111-114 of the source: a shift placed on its work date starts there at its start time
   * and ends at its end time, on the next day when the end time is earlier than the start time.
   * The entry never ends before it starts and lasts less than a day: exactly the clock-time
   * difference from start to end, modulo a day.
   */
  function EntryOn(workDay: Date, shift: Shift): (e: ScheduleEntry)
    ensures e.startTime == DateTime(workDay, shift.startTime) && e.endTime.time == shift.endTime
    ensures Instant(e.endTime) - Instant(e.startTime) == (shift.endTime - shift.startTime) % 1440
  {
    ScheduleEntry(
      DateTime(workDay, shift.startTime),
      DateTime(if shift.endTime >= shift.startTime then workDay else workDay + 1, shift.endTime))
  }

  /**
   * An entry ends on its work date exactly when its end time is not before its start time, and
   * on the following date otherwise; its end equals its start only for a zero-length shift such
   * as `m8-8`.
   */
  lemma EntryEnd(workDay: Date, shift: Shift)
    ensures var e := EntryOn(workDay, shift);
            && (e.endTime.date == workDay <==> shift.endTime >= shift.startTime)
            && (e.endTime.date != workDay ==> e.endTime.date == workDay + 1)
            && Instant(e.startTime) <= Instant(e.endTime) < Instant(e.startTime) + 1440
            && (Instant(e.endTime) == Instant(e.startTime) <==> shift.endTime == shift.startTime)
  {
  }

  /** The informal shift an entry came from: the weekday of its start date and its two clock times. */
  function ShiftOf(e: ScheduleEntry): Shift {
    Shift(WeekdayOf(e.startTime.date), e.startTime.time, e.endTime.time)
  }

  /** Placing a shift on a date with its weekday loses nothing: the shift can be read back. */
  lemma ShiftOfEntryOn(workDay: Date, shift: Shift)
    requires WeekdayOf(workDay) == shift.dayOfWeek
    ensures ShiftOf(EntryOn(workDay, shift)) == shift
  {
  }

  /** The anchor after placing `shifts`: the last one's work date, or `startingDate` if there are none. */
  function AnchorAfter(shifts: seq<Shift>, startingDate: Date): (r: Date)
    ensures startingDate + |shifts| <= r <= startingDate + 7 * |shifts|
  {
    if shifts == [] then startingDate
    else NextWeekday(AnchorAfter(shifts[..|shifts| - 1], startingDate), shifts[|shifts| - 1].dayOfWeek)
  }

  /** The date the `i`-th shift is placed on. */
  function WorkDate(shifts: seq<Shift>, startingDate: Date, i: nat): Date
    requires i < |shifts|
  {
    AnchorAfter(shifts[..i + 1], startingDate)
  }

  /** What `shiftsToSchedule` returns: each shift, in order, placed on its work date. */
  function BuildSchedule(shifts: seq<Shift>, startingDate: Date): (entries: seq<ScheduleEntry>)
    ensures |entries| == |shifts|
  {
    if shifts == [] then []
    else BuildSchedule(shifts[..|shifts| - 1], startingDate) + [EntryOn(AnchorAfter(shifts, startingDate), shifts[|shifts| - 1])]
  }

  /** A single shift is placed on the first date after the start that has its weekday. */
  lemma BuildScheduleOne(shift: Shift, startingDate: Date)
    ensures BuildSchedule([shift], startingDate) == [EntryOn(NextWeekday(startingDate, shift.dayOfWeek), shift)]
  {
    assert [shift][..0] == [];
  }

  /** Entry `i` of the schedule is shift `i` placed on its work date. */
  lemma {:induction false} BuildScheduleAt(shifts: seq<Shift>, startingDate: Date, i: nat)
    requires i < |shifts|
    ensures BuildSchedule(shifts, startingDate)[i] == EntryOn(WorkDate(shifts, startingDate, i), shifts[i])
  {
    var n := |shifts|;
    if i < n - 1 {
      var prefix := shifts[..n - 1];
      BuildScheduleAt(prefix, startingDate, i);
      assert prefix[..i + 1] == shifts[..i + 1];
    } else {
      assert shifts[..i + 1] == shifts;
    }
  }

  /**
   * Line 109: each work date is the first date strictly after the previous anchor that has the
   * shift's weekday, so one to seven days after it.
   */
  lemma WorkDateStep(shifts: seq<Shift>, startingDate: Date, i: nat)
    requires i < |shifts|
    ensures var previous := AnchorAfter(shifts[..i], startingDate);
            var w := WorkDate(shifts, startingDate, i);
            && previous < w <= previous + 7
            && WeekdayOf(w) == shifts[i].dayOfWeek
            && forall x :: previous < x < w ==> WeekdayOf(x) != shifts[i].dayOfWeek
  {
    assert shifts[..i + 1][..i] == shifts[..i];
  }

  /** Each shift is placed on a date with its weekday. */
  lemma WorkDateWeekday(shifts: seq<Shift>, startingDate: Date, i: nat)
    requires i < |shifts|
    ensures WeekdayOf(WorkDate(shifts, startingDate, i)) == shifts[i].dayOfWeek
  {
    assert shifts[..i + 1][..i] == shifts[..i];
  }

  /** The anchor is never reset: work dates strictly increase along the schedule, at least a day per shift. */
  lemma {:induction false} WorkDatesIncrease(shifts: seq<Shift>, startingDate: Date, i: nat, j: nat)
    requires i < j < |shifts|
    ensures WorkDate(shifts, startingDate, i) + (j - i) <= WorkDate(shifts, startingDate, j)
  {
    WorkDateStep(shifts, startingDate, j);
    if i < j - 1 {
      WorkDatesIncrease(shifts, startingDate, i, j - 1);
    }
  }

  /** Two shifts on the same weekday land in different weeks: the later one at least seven days after. */
  lemma SameWeekdayAWeekApart(shifts: seq<Shift>, startingDate: Date, i: nat, j: nat)
    requires i < j < |shifts| && shifts[i].dayOfWeek == shifts[j].dayOfWeek
    ensures WorkDate(shifts, startingDate, i) + 7 <= WorkDate(shifts, startingDate, j)
  {
    var wi, wj := WorkDate(shifts, startingDate, i), WorkDate(shifts, startingDate, j);
    WorkDateWeekday(shifts, startingDate, i);
    WorkDateWeekday(shifts, startingDate, j);
    WorkDatesIncrease(shifts, startingDate, i, j);
    SameWeekday(wi, wj);
    var k := (wj - wi) / 7;
    assert wj - wi == 7 * k;
  }

  /** Because the anchor only moves forward, the entries come out in order of their start times. */
  lemma ScheduleStartsIncrease(shifts: seq<Shift>, startingDate: Date, i: nat, j: nat)
    requires i < j < |shifts|
    ensures var entries := BuildSchedule(shifts, startingDate);
            Instant(entries[i].startTime) < Instant(entries[j].startTime)
  {
    BuildScheduleAt(shifts, startingDate, i);
    BuildScheduleAt(shifts, startingDate, j);
    WorkDatesIncrease(shifts, startingDate, i, j);
  }

  /**
   * `shiftsToSchedule`: walks the shifts in order, moving the work day forward to each shift's
   * weekday and appending the entry it gives.
   */
  method ShiftsToSchedule(shiftsInformal: seq<Shift>, startingDate: Date) returns (schedule: Schedule)
    ensures schedule.shifts == BuildSchedule(shiftsInformal, startingDate)
  {
    var workDay := startingDate;
    var shifts: seq<ScheduleEntry> := [];
    for i := 0 to |shiftsInformal|
      invariant workDay == AnchorAfter(shiftsInformal[..i], startingDate)
      invariant shifts == BuildSchedule(shiftsInformal[..i], startingDate)
    {
      var shift := shiftsInformal[i];
      assert shiftsInformal[..i + 1][..i] == shiftsInformal[..i];
      workDay := NextWeekday(workDay, shift.dayOfWeek);

      var startTime := DateTime(workDay, shift.startTime);
      var endTime := if shift.endTime >= shift.startTime
        then DateTime(workDay, shift.endTime)
        else DateTime(workDay + 1, shift.endTime);

      shifts := shifts + [ScheduleEntry(startTime, endTime)];
    }
    assert shiftsInformal[..|shiftsInformal|] == shiftsInformal;
    schedule := Schedule(shifts);
  }
}
