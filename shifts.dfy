/**
 * The shift interpreter: one shorthand match such as `w10-6` or `f10pm-6am` becomes an informal
 * shift (a weekday, a start time and an end time), or is rejected (`matchToShift` in
 * ScheduleViewModel.kt). Times of day are whole minutes since midnight.
 */
module Shifts {
  import opened Wrappers
  import opened TimeCodes

  /** java.time.DayOfWeek */
  datatype DayOfWeek = Monday | Tuesday | Wednesday | Thursday | Friday | Saturday | Sunday {
    /** The ISO number of the day, Monday = 1 ... Sunday = 7 (`DayOfWeek.getValue`). */
    function Value(): (v: int)
      ensures 1 <= v <= 7
    {
      match this
      case Monday => 1
      case Tuesday => 2
      case Wednesday => 3
      case Thursday => 4
      case Friday => 5
      case Saturday => 6
      case Sunday => 7
    }
  }

  /** `DayOfWeek.of(v)` */
  function DayOfWeekOf(v: int): (d: DayOfWeek)
    requires 1 <= v <= 7
    ensures d.Value() == v
  {
    if v == 1 then Monday
    else if v == 2 then Tuesday
    else if v == 3 then Wednesday
    else if v == 4 then Thursday
    else if v == 5 then Friday
    else if v == 6 then Saturday
    else Sunday
  }

  /** A LocalTime with zero seconds, as minutes since midnight. */
  type TimeOfDay = t: int | 0 <= t < 1440

  const Dawn: TimeOfDay := 7 * 60
  const Noon: TimeOfDay := 12 * 60

  /** `LocalTime.plusHours(12)`: half a day later, wrapping past midnight. */
  function PlusHours12(t: TimeOfDay): (r: TimeOfDay)
    ensures r == t + 720 || r == t - 720
  {
    if t < 720 then t + 720 else t - 720
  }

  /** `Shift(dayOfWeek, startTime, endTime)` */
  datatype Shift = Shift(dayOfWeek: DayOfWeek, startTime: TimeOfDay, endTime: TimeOfDay)

  /** Kotlin's IntRange: the inclusive character offsets of a match. */
  datatype IntRange = IntRange(first: int, last: int)

  /**
   * One match of the shift pattern, as the regex engine reports it: the `day` and `timeCode1`
   * groups always take part; `period1`, `timeCode2` and `period2` are optional.
   */
  datatype Match = Match(
    day: string,
    timeCode1: string,
    period1: Option<string>,
    timeCode2: Option<string>,
    period2: Option<string>,
    range: IntRange)

  /** One call of the flagger callback: a match's range and whether it was understood. */
  datatype Flag = Flag(range: IntRange, valid: bool)

  /** Kotlin's Int. */
  newtype int32 = x: int | -0x8000_0000 <= x < 0x8000_0000

  /** The two preferences the interpreter reads: `assumeDaytime` and `defaultDuration` (hours). */
  datatype Config = Config(assumeDaytime: bool, defaultDuration: int32)

  /** The NumberFormatExceptions `matchToShift` throws, in the order it checks for them. */
  datatype ShiftError =
    | InvalidDayCode
    | MalformedTimeCode
    | StartHourOutOfRange
    | EndHourOutOfRange
    | StartMinuteOutOfRange
    | EndMinuteOutOfRange
    | MeridiemOn24HourStart
    | MeridiemOn24HourEnd

  function LowerChar(c: char): char {
    if 'A' <= c <= 'Z' then ((c as int) + 32) as char else c
  }

  /** `String.lowercase()` on ASCII letters; other characters are kept. */
  function Lowercase(s: string): string {
    seq(|s|, i requires 0 <= i < |s| => LowerChar(s[i]))
  }

  /** The day code of each weekday, Thursday being `r` so as not to clash with Tuesday. */
  function DayLetters(d: DayOfWeek): string {
    match d
    case Monday => "m"
    case Tuesday => "t"
    case Wednesday => "w"
    case Thursday => "r"
    case Friday => "f"
    case Saturday => "sa"
    case Sunday => "su"
  }

  /** The `when (dayString.lowercase())` of `matchToShift`: a day code in any letter case names its weekday. */
  function DayCode(dayString: string): (r: Option<DayOfWeek>)
    ensures r.Some? ==> Lowercase(dayString) == DayLetters(r.value)
  {
    var code := Lowercase(dayString);
    if code == "m" then Some(Monday)
    else if code == "t" then Some(Tuesday)
    else if code == "w" then Some(Wednesday)
    else if code == "r" then Some(Thursday)
    else if code == "f" then Some(Friday)
    else if code == "sa" then Some(Saturday)
    else if code == "su" then Some(Sunday)
    else None
  }

  /**
   * `ſa` and `ſu`, with the long s that case-insensitive matching takes for `s`, keep their `ſ` when
   * lower-cased and so name no weekday.
   */
  lemma LongSIsNoDayCode(second: char)
    ensures DayCode(['\U{017F}', second]).None?
  {
    assert Lowercase(['\U{017F}', second])[0] == '\U{017F}';
  }

  /** A string is a weekday's code, in any letter case, exactly when `DayCode` names that weekday. */
  lemma DayCodeNamesWeekday(dayString: string, d: DayOfWeek)
    ensures DayCode(dayString) == Some(d) <==> Lowercase(dayString) == DayLetters(d)
  {
    if Lowercase(dayString) == DayLetters(d) {
      match d
      case Monday =>
      case Tuesday =>
      case Wednesday =>
      case Thursday =>
      case Friday =>
      case Saturday =>
      case Sunday =>
    }
  }

  /** Kotlin's `a + b` on Int: the exact sum, wrapped into 32 bits. */
  function AddInt32(a: int32, b: int32): (r: int32)
    ensures var sum := a as int + b as int;
            r as int == sum || r as int == sum - 0x1_0000_0000 || r as int == sum + 0x1_0000_0000
    ensures -0x8000_0000 <= a as int + b as int < 0x8000_0000 ==> r as int == a as int + b as int
  {
    var sum := a as int + b as int;
    if sum >= 0x8000_0000 then (sum - 0x1_0000_0000) as int32
    else if sum < -0x8000_0000 then (sum + 0x1_0000_0000) as int32
    else sum as int32
  }

  /** Kotlin's `a % 24` on Int: it truncates toward zero, so the remainder takes the sign of `a`. */
  function Rem24(a: int): (r: int)
    ensures -24 < r < 24 && (a - r) % 24 == 0
    ensures a >= 0 ==> r >= 0
    ensures a <= 0 ==> r <= 0
  {
    if a >= 0 then a % 24 else -((-a) % 24)
  }

  /** The end when no end time is typed: `defaultDuration` hours after the start hour, same minute. */
  function DefaultEnd(startHour: nat, startMinute: nat, defaultDuration: int32): (r: (int, int))
    requires startHour < 100
    ensures r.1 == startMinute && -24 < r.0 < 24
    ensures 0 <= startHour + defaultDuration as int < 0x8000_0000 ==> r.0 == (startHour + defaultDuration as int) % 24
    ensures -0x8000_0000 <= startHour + defaultDuration as int < 0x8000_0000 ==> r.0 == Rem24(startHour + defaultDuration as int)
  {
    (Rem24(AddInt32(startHour as int32, defaultDuration) as int), startMinute)
  }

  /**
   * A negative duration gives Kotlin's signed remainder: from 8 o'clock, -32 hours is hour 0,
   * which the range check accepts, while -10 hours is hour -2, which it rejects.
   */
  lemma DefaultEndNegativeDuration(startHour: nat, defaultDuration: int32)
    requires startHour < 100 && startHour + defaultDuration as int < 0
    ensures var end := DefaultEnd(startHour, 0, defaultDuration).0;
            && -24 < end <= 0
            && (end == 0 <==> (startHour + defaultDuration as int) % 24 == 0)
            && end == (startHour + defaultDuration as int) + 24 * ((-(startHour + defaultDuration as int)) / 24)
  {
    var sum := startHour + defaultDuration as int;
    var q := (-sum) / 24;
    assert -sum == 24 * q + (-sum) % 24;
  }

  /**
   * Start hour, start minute, end hour and end minute as lines 170-173 of the source hold them,
   * before any range check; None when a time code does not break down.
   */
  function DecodeTimes(m: Match, cfg: Config): Option<(int, int, int, int)> {
    var start :- BreakdownTimeCode(Clean(m.timeCode1));
    var end: (int, int) :- if m.timeCode2.None? then Some(DefaultEnd(start.0, start.1, cfg.defaultDuration))
                      else match BreakdownTimeCode(Clean(m.timeCode2.value))
                        case None => None
                        case Some(e) => Some((e.0 as int, e.1 as int));
    Some((start.0, start.1, end.0, end.1))
  }

  /** The range and meridiem checks of lines 177-189, all of which must pass. */
  predicate ComponentsAccepted(t: (int, int, int, int), period1: Option<string>, period2: Option<string>) {
    && 0 <= t.0 <= 24 && 0 <= t.2 <= 24
    && 0 <= t.1 <= 59 && 0 <= t.3 <= 59
    && !(t.0 > 12 && period1.Some?)
    && !(t.2 > 12 && period2.Some?)
  }

  /** `"pm".equals(period, ignoreCase = true)` */
  predicate IsPm(period: Option<string>) {
    period.Some? && |period.value| == 2 && LowerChar(period.value[0]) == 'p' && LowerChar(period.value[1]) == 'm'
  }

  /** `LocalTime.of(hour % 24, minute, 0)`: an hour of 24 is midnight. */
  function BaseTime(hour: int, minute: int): TimeOfDay
    requires 0 <= hour <= 24 && 0 <= minute <= 59
  {
    (hour % 24) * 60 + minute
  }

  /** A `pm` marker, in any letter case, adds 12 hours; `am` or no marker changes nothing. */
  function WithPeriod(t: TimeOfDay, period: Option<string>): TimeOfDay {
    if IsPm(period) then PlusHours12(t) else t
  }

  /**
   * The daytime heuristic (lines 197-206): an unmarked start before 07:00 is taken as afternoon;
   * an unmarked end before that start is moved 12 hours later when that puts it after the start
   * and it was before noon.
   */
  function AssumeDaytime(start: TimeOfDay, end: TimeOfDay, period1: Option<string>, period2: Option<string>)
    : (TimeOfDay, TimeOfDay)
  {
    var start' := if period1.None? && start < Dawn then PlusHours12(start) else start;
    var end' := if period2.None? && end < start' && PlusHours12(end) > start' && end < Noon then PlusHours12(end) else end;
    (start', end')
  }

  /**
   * Lines 177-206 on the decoded components: the range and meridiem checks in the source's order,
   * then the clock times with `pm` applied and, when enabled, the daytime heuristic.
   */
  function CheckedTimes(t: (int, int, int, int), period1: Option<string>, period2: Option<string>, assumeDaytime: bool)
    : (r: Result<(TimeOfDay, TimeOfDay), ShiftError>)
    ensures r.Success? <==> ComponentsAccepted(t, period1, period2)
  {
    var (startHour, startMinute, endHour, endMinute) := t;
    if !(0 <= startHour <= 24) then Failure(StartHourOutOfRange)
    else if !(0 <= endHour <= 24) then Failure(EndHourOutOfRange)
    else if !(0 <= startMinute <= 59) then Failure(StartMinuteOutOfRange)
    else if !(0 <= endMinute <= 59) then Failure(EndMinuteOutOfRange)
    else if startHour > 12 && period1.Some? then Failure(MeridiemOn24HourStart)
    else if endHour > 12 && period2.Some? then Failure(MeridiemOn24HourEnd)
    else
      var start := WithPeriod(BaseTime(startHour, startMinute), period1);
      var end := WithPeriod(BaseTime(endHour, endMinute), period2);
      if assumeDaytime then Success(AssumeDaytime(start, end, period1, period2)) else Success((start, end))
  }

  /** What `matchToShift` computes for one match: the shift, or the first check that failed. */
  function Interpret(m: Match, cfg: Config): (r: Result<Shift, ShiftError>)
    ensures r.Success? <==>
      && DayCode(m.day).Some?
      && DecodeTimes(m, cfg).Some?
      && ComponentsAccepted(DecodeTimes(m, cfg).value, m.period1, m.period2)
    ensures r.Success? ==> r.value.dayOfWeek == DayCode(m.day).value
  {
    match DayCode(m.day)
    case None => Failure(InvalidDayCode)
    case Some(day) =>
      match DecodeTimes(m, cfg)
      case None => Failure(MalformedTimeCode)
      case Some(t) =>
        match CheckedTimes(t, m.period1, m.period2, cfg.assumeDaytime)
        case Failure(e) => Failure(e)
        case Success((start, end)) => Success(Shift(day, start, end))
  }

  /**
   * `matchToShift`: interprets one match, reassigning the start and end times step by step, and
   * reports the match's range to the flagger exactly once, as valid exactly when a shift results.
   */
  method MatchToShift(m: Match, cfg: Config) returns (shift: Option<Shift>, flag: Flag)
    ensures shift == Interpret(m, cfg).ToOption()
    ensures flag == Flag(m.range, shift.Some?)
  {
    var day := DayCode(m.day);
    if day.None? {
      return None, Flag(m.range, false);
    }
    var startCode := BreakdownTimeCode(Clean(m.timeCode1));
    if startCode.None? {
      return None, Flag(m.range, false);
    }
    var startHour: int, startMinute: int := startCode.value.0, startCode.value.1;
    var endHour: int, endMinute: int;
    if m.timeCode2.None? {
      endHour, endMinute := DefaultEnd(startHour, startMinute, cfg.defaultDuration).0, startMinute;
    } else {
      var endCode := BreakdownTimeCode(Clean(m.timeCode2.value));
      if endCode.None? {
        return None, Flag(m.range, false);
      }
      endHour, endMinute := endCode.value.0, endCode.value.1;
    }
    assert DecodeTimes(m, cfg) == Some((startHour, startMinute, endHour, endMinute));

    var times := ClockTimes(startHour, startMinute, endHour, endMinute, m.period1, m.period2, cfg.assumeDaytime);
    if times.Failure? {
      return None, Flag(m.range, false);
    }
    return Some(Shift(day.value, times.value.0, times.value.1)), Flag(m.range, true);
  }

  /**
   * Lines 177-206 of `matchToShift` as written: check the components, then build the start and
   * end times and adjust them in place, first for `pm`, then for the daytime heuristic.
   */
  method ClockTimes(startHour: int, startMinute: int, endHour: int, endMinute: int,
                    period1: Option<string>, period2: Option<string>, assumeDaytime: bool)
    returns (times: Result<(TimeOfDay, TimeOfDay), ShiftError>)
    ensures times == CheckedTimes((startHour, startMinute, endHour, endMinute), period1, period2, assumeDaytime)
  {
    if !(0 <= startHour <= 24) {
      return Failure(StartHourOutOfRange);
    } else if !(0 <= endHour <= 24) {
      return Failure(EndHourOutOfRange);
    } else if !(0 <= startMinute <= 59) {
      return Failure(StartMinuteOutOfRange);
    } else if !(0 <= endMinute <= 59) {
      return Failure(EndMinuteOutOfRange);
    } else if startHour > 12 && period1.Some? {
      return Failure(MeridiemOn24HourStart);
    } else if endHour > 12 && period2.Some? {
      return Failure(MeridiemOn24HourEnd);
    }

    var start := BaseTime(startHour, startMinute);
    var end := BaseTime(endHour, endMinute);

    if IsPm(period1) { start := PlusHours12(start); }
    if IsPm(period2) { end := PlusHours12(end); }

    if assumeDaytime {
      if period1.None? && start < Dawn { start := PlusHours12(start); }
      if period2.None? && end < start && PlusHours12(end) > start && end < Noon { end := PlusHours12(end); }
    }
    return Success((start, end));
  }

  /** A marker other than `pm` on a start hour of at most 12 changes nothing: `9am` reads as `9`. */
  lemma NonPmMarkerIsNeutral(m: Match, cfg: Config, marker: string)
    requires !cfg.assumeDaytime && !IsPm(Some(marker))
    requires DecodeTimes(m, cfg).Some? ==> DecodeTimes(m, cfg).value.0 <= 12
    ensures Interpret(m.(period1 := Some(marker)), cfg) == Interpret(m.(period1 := None), cfg)
  {
    assert DecodeTimes(m.(period1 := Some(marker)), cfg) == DecodeTimes(m, cfg);
    assert DecodeTimes(m.(period1 := None), cfg) == DecodeTimes(m, cfg);
  }

  /** A `pm` marker, in any letter case, on a start hour of at most 12 moves the start 12 hours later, wrapping at midnight. */
  lemma PmAddsTwelveHours(m: Match, cfg: Config, marker: string)
    requires !cfg.assumeDaytime && IsPm(Some(marker))
    requires Interpret(m.(period1 := None), cfg).Success?
    requires DecodeTimes(m, cfg).Some? && DecodeTimes(m, cfg).value.0 <= 12
    ensures var plain := Interpret(m.(period1 := None), cfg).value;
            Interpret(m.(period1 := Some(marker)), cfg) == Success(plain.(startTime := PlusHours12(plain.startTime)))
  {
    assert DecodeTimes(m.(period1 := Some(marker)), cfg) == DecodeTimes(m, cfg);
    assert DecodeTimes(m.(period1 := None), cfg) == DecodeTimes(m, cfg);
  }

  /** `12pm` is midnight, not noon, whatever the configuration: 12:00 plus 12 hours wraps to 00:00. */
  lemma TwelvePmIsMidnight(m: Match, cfg: Config)
    requires Clean(m.timeCode1) == "12" && IsPm(m.period1)
    requires Interpret(m, cfg).Success?
    ensures Interpret(m, cfg).value.startTime == 0
  {
    AcceptedStart(m, cfg, 12);
  }

  /** `12am` is noon, not midnight: `am` changes nothing, so the hour 12 stays 12:00. */
  lemma TwelveAmIsNoon(m: Match, cfg: Config)
    requires Clean(m.timeCode1) == "12" && m.period1.Some? && !IsPm(m.period1)
    requires Interpret(m, cfg).Success?
    ensures Interpret(m, cfg).value.startTime == 12 * 60
  {
    AcceptedStart(m, cfg, 12);
  }

  /**
   * An unmarked start hour of 24 is midnight; with the daytime heuristic on, midnight is before
   * 07:00 and so becomes noon.
   */
  lemma Hour24Start(m: Match, cfg: Config)
    requires Clean(m.timeCode1) == "24" && m.period1.None?
    requires Interpret(m, cfg).Success?
    ensures Interpret(m, cfg).value.startTime == if cfg.assumeDaytime then 12 * 60 else 0
  {
    AcceptedStart(m, cfg, 24);
  }

  /** The start time of an accepted match whose start code is the two-digit hour `hour`. */
  lemma AcceptedStart(m: Match, cfg: Config, hour: nat)
    requires hour <= 24 && Interpret(m, cfg).Success?
    requires Clean(m.timeCode1) == [DigitChar(hour / 10), DigitChar(hour % 10)]
    ensures var base := BaseTime(hour, 0);
            Interpret(m, cfg).value.startTime ==
              if cfg.assumeDaytime && m.period1.None? && base < Dawn then PlusHours12(base)
              else WithPeriod(base, m.period1)
  {
    BreakdownTwoDigits(DigitChar(hour / 10), DigitChar(hour % 10));
    var t := DecodeTimes(m, cfg).value;
    assert t.0 == hour && t.1 == 0;
    var times := CheckedTimes(t, m.period1, m.period2, cfg.assumeDaytime);
    assert Interpret(m, cfg).value.startTime == times.value.0;
  }

  /**
   * With no end time typed, the shift ends `defaultDuration` hours after its start, wrapping at
   * midnight (for an unmarked start, the heuristic off, and a non-negative duration whose sum with
   * the start hour fits in an `Int`).
   */
  lemma DefaultDurationEnd(m: Match, cfg: Config)
    requires m.timeCode2.None? && m.period1.None? && m.period2.None? && !cfg.assumeDaytime
    requires Interpret(m, cfg).Success? && BreakdownTimeCode(Clean(m.timeCode1)).Some?
    requires 0 <= cfg.defaultDuration && BreakdownTimeCode(Clean(m.timeCode1)).value.0 + cfg.defaultDuration as int < 0x8000_0000
    ensures var shift := Interpret(m, cfg).value;
            shift.endTime == (shift.startTime + 60 * (cfg.defaultDuration as int)) % 1440
  {
    var start := BreakdownTimeCode(Clean(m.timeCode1)).value;
    DefaultEndTimes(m, cfg);
    HoursLater(start.0, cfg.defaultDuration as int, start.1);
  }

  lemma DefaultEndTimes(m: Match, cfg: Config)
    requires m.timeCode2.None? && m.period1.None? && m.period2.None? && !cfg.assumeDaytime
    requires Interpret(m, cfg).Success? && BreakdownTimeCode(Clean(m.timeCode1)).Some?
    requires 0 <= BreakdownTimeCode(Clean(m.timeCode1)).value.0 + cfg.defaultDuration as int < 0x8000_0000
    ensures var start := BreakdownTimeCode(Clean(m.timeCode1)).value;
            var shift := Interpret(m, cfg).value;
            && start.0 <= 24 && start.1 < 60
            && shift.startTime == BaseTime(start.0, start.1)
            && shift.endTime == BaseTime((start.0 + cfg.defaultDuration as int) % 24, start.1)
  {
    var start := BreakdownTimeCode(Clean(m.timeCode1)).value;
    var endHour := (start.0 + cfg.defaultDuration as int) % 24;
    assert DecodeTimes(m, cfg) == Some((start.0, start.1, endHour, start.1)) by {
      DecodeWithDefaultEnd(m, cfg);
    }
    PlainTimes(m, cfg, start.0, start.1, endHour, start.1);
  }

  lemma DecodeWithDefaultEnd(m: Match, cfg: Config)
    requires m.timeCode2.None? && BreakdownTimeCode(Clean(m.timeCode1)).Some?
    requires 0 <= BreakdownTimeCode(Clean(m.timeCode1)).value.0 + cfg.defaultDuration as int < 0x8000_0000
    ensures var start := BreakdownTimeCode(Clean(m.timeCode1)).value;
            DecodeTimes(m, cfg) == Some((start.0, start.1, (start.0 + cfg.defaultDuration as int) % 24, start.1))
  {
  }

  /** With the heuristic off, an accepted match's times are its hours modulo 24, then `pm` applied. */
  lemma PlainTimes(m: Match, cfg: Config, startHour: int, startMinute: int, endHour: int, endMinute: int)
    requires !cfg.assumeDaytime && Interpret(m, cfg).Success?
    requires DecodeTimes(m, cfg) == Some((startHour, startMinute, endHour, endMinute))
    ensures 0 <= startHour <= 24 && 0 <= endHour <= 24 && 0 <= startMinute < 60 && 0 <= endMinute < 60
    ensures Interpret(m, cfg).value.startTime == WithPeriod(BaseTime(startHour, startMinute), m.period1)
    ensures Interpret(m, cfg).value.endTime == WithPeriod(BaseTime(endHour, endMinute), m.period2)
  {
  }

  /** The clock time of hour `(h + d) % 24` is `d` hours after that of hour `h`, modulo a day. */
  lemma HoursLater(h: nat, d: nat, m: nat)
    requires h <= 24 && m < 60
    ensures BaseTime((h + d) % 24, m) == (BaseTime(h, m) + 60 * d) % 1440
  {
    var q, r := (h + d) / 24, (h + d) % 24;
    assert h + d == 24 * q + r;
    assert BaseTime(r, m) == r * 60 + m by {
      assert 0 <= r < 24;
      assert r % 24 == r;
    }
    var c := if h == 24 then 1 else 0;
    assert h % 24 == h - 24 * c;
    var x := BaseTime(h, m) + 60 * d;
    assert x == 1440 * (q - c) + (r * 60 + m);
    MinutesModDay(q - c, r * 60 + m);
    assert x % 1440 == r * 60 + m;
  }

  /** Whole days drop out of a minute count taken modulo a day. */
  lemma MinutesModDay(k: int, y: int)
    requires 0 <= y < 1440
    ensures (1440 * k + y) % 1440 == y
  {
  }

  /**
   * What the daytime heuristic does, compared with the same match read with the heuristic off: it
   * never decides whether a match is accepted; it leaves marked times alone; an unmarked start
   * ends up at 07:00 or later; and it moves an end only to turn an overnight shift into a
   * same-day one, never the other way round.
   */
  lemma DaytimeHeuristic(m: Match, cfg: Config)
    ensures var plain := Interpret(m, cfg.(assumeDaytime := false));
            var daytime := Interpret(m, cfg.(assumeDaytime := true));
            && plain.Failure? == daytime.Failure?
            && (plain.Failure? ==> plain.error == daytime.error)
            && (plain.Success? ==>
                && daytime.value.dayOfWeek == plain.value.dayOfWeek
                && (m.period1.Some? ==> daytime.value.startTime == plain.value.startTime)
                && (m.period1.None? ==>
                      daytime.value.startTime >= Dawn
                      && (daytime.value.startTime == plain.value.startTime
                          || daytime.value.startTime == plain.value.startTime + 720))
                && (m.period1.None? && plain.value.startTime >= Dawn ==> daytime.value.startTime == plain.value.startTime)
                && (daytime.value.endTime == plain.value.endTime
                    || (m.period2.None? && daytime.value.endTime == plain.value.endTime + 720
                        && plain.value.endTime < daytime.value.startTime < daytime.value.endTime))
                && (plain.value.endTime >= daytime.value.startTime ==> daytime.value.endTime == plain.value.endTime)
                && (m.period2.None? && plain.value.endTime < daytime.value.startTime
                    && PlusHours12(plain.value.endTime) > daytime.value.startTime && plain.value.endTime < Noon
                    ==> daytime.value.endTime == plain.value.endTime + 720))
  {
    var plain := Interpret(m, cfg.(assumeDaytime := false));
    var daytime := Interpret(m, cfg.(assumeDaytime := true));
    assert DecodeTimes(m, cfg.(assumeDaytime := false)) == DecodeTimes(m, cfg.(assumeDaytime := true));
    if plain.Success? {
      var (start', end') := AssumeDaytime(plain.value.startTime, plain.value.endTime, m.period1, m.period2);
      assert daytime.value == plain.value.(startTime := start', endTime := end');
      AssumeDaytimeMoves(plain.value.startTime, plain.value.endTime, m.period1, m.period2);
    }
  }

  /** The heuristic on its own: what it does to a start and an end time. */
  lemma AssumeDaytimeMoves(start: TimeOfDay, end: TimeOfDay, period1: Option<string>, period2: Option<string>)
    ensures var (start', end') := AssumeDaytime(start, end, period1, period2);
            && (period1.Some? ==> start' == start)
            && (period1.None? ==> start' >= Dawn && (start' == start || start' == start + 720))
            && (period1.None? && start >= Dawn ==> start' == start)
            && (end' == end || (period2.None? && end' == end + 720 && end < start' < end'))
            && (end >= start' ==> end' == end)
            && (period2.None? && end < start' && PlusHours12(end) > start' && end < Noon ==> end' == end + 720)
  {
  }

  /** A match as typed, with a placeholder range. */
  function Typed(day: string, timeCode1: string, period1: Option<string>, timeCode2: Option<string>, period2: Option<string>): Match {
    Match(day, timeCode1, period1, timeCode2, period2, IntRange(0, 0))
  }

  /** The settings' defaults: assume daytime, eight hours. */
  const Defaults := Config(true, 8)

  /** An accepted match is its day code's weekday with the checked clock times. */
  lemma InterpretAccepted(m: Match, cfg: Config, day: DayOfWeek, t: (int, int, int, int), times: (TimeOfDay, TimeOfDay))
    requires DayCode(m.day) == Some(day) && DecodeTimes(m, cfg) == Some(t)
    requires CheckedTimes(t, m.period1, m.period2, cfg.assumeDaytime) == Success(times)
    ensures Interpret(m, cfg) == Success(Shift(day, times.0, times.1))
  {
  }

  /** A match whose day code and time codes are understood is rejected with the first failing check. */
  lemma InterpretRejected(m: Match, cfg: Config, day: DayOfWeek, t: (int, int, int, int), e: ShiftError)
    requires DayCode(m.day) == Some(day) && DecodeTimes(m, cfg) == Some(t)
    requires CheckedTimes(t, m.period1, m.period2, cfg.assumeDaytime) == Failure(e)
    ensures Interpret(m, cfg) == Failure(e)
  {
  }

  /** The day codes of the examples below. */
  lemma ExampleDayCodes()
    ensures DayCode("m") == Some(Monday) && DayCode("w") == Some(Wednesday) && DayCode("f") == Some(Friday)
  {
    assert Lowercase("m") == "m" && Lowercase("w") == "w" && Lowercase("f") == "f";
  }

  /** The clock times of the examples below, checked. */
  lemma ExampleClockTimes(assumeDaytime: bool)
    ensures CheckedTimes((8, 0, 4, 0), None, None, true) == Success((8 * 60, 16 * 60))
    ensures CheckedTimes((10, 0, 6, 0), None, None, true) == Success((10 * 60, 18 * 60))
    ensures CheckedTimes((10, 0, 6, 0), Some("pm"), Some("am"), assumeDaytime) == Success((22 * 60, 6 * 60))
    ensures CheckedTimes((8, 0, 16, 0), None, None, true) == Success((8 * 60, 16 * 60))
  {
    assert IsPm(Some("pm")) && !IsPm(Some("am"));
  }

  /** `m8-4`: with the daytime heuristic, Monday 08:00 to 16:00. */
  lemma MondayEightToFour()
    ensures Interpret(Typed("m", "8", None, Some("4"), None), Defaults) == Success(Shift(Monday, 8 * 60, 16 * 60))
  {
    ExampleDayCodes();
    assert DecodeTimes(Typed("m", "8", None, Some("4"), None), Defaults) == Some((8, 0, 4, 0)) by {
      BreakdownOneDigit('8');
      BreakdownOneDigit('4');
    }
    ExampleClockTimes(true);
    InterpretAccepted(Typed("m", "8", None, Some("4"), None), Defaults, Monday, (8, 0, 4, 0), (8 * 60, 16 * 60));
  }

  /** `w10-6`: the heuristic reads the end as 18:00, not as an overnight 06:00. */
  lemma WednesdayTenToSix()
    ensures Interpret(Typed("w", "10", None, Some("6"), None), Defaults) == Success(Shift(Wednesday, 10 * 60, 18 * 60))
  {
    ExampleDayCodes();
    assert DecodeTimes(Typed("w", "10", None, Some("6"), None), Defaults) == Some((10, 0, 6, 0)) by {
      assert "10" == ['1', '0'];
      BreakdownTwoDigits('1', '0');
      BreakdownOneDigit('6');
    }
    ExampleClockTimes(true);
    InterpretAccepted(Typed("w", "10", None, Some("6"), None), Defaults, Wednesday, (10, 0, 6, 0), (10 * 60, 18 * 60));
  }

  /** `f10pm-6am`: Friday 22:00 to 06:00, the same with or without the heuristic. */
  lemma FridayNightShift(assumeDaytime: bool)
    ensures Interpret(Typed("f", "10", Some("pm"), Some("6"), Some("am")), Config(assumeDaytime, 8))
              == Success(Shift(Friday, 22 * 60, 6 * 60))
  {
    ExampleDayCodes();
    assert DecodeTimes(Typed("f", "10", Some("pm"), Some("6"), Some("am")), Config(assumeDaytime, 8)) == Some((10, 0, 6, 0)) by {
      assert "10" == ['1', '0'];
      BreakdownTwoDigits('1', '0');
      BreakdownOneDigit('6');
    }
    ExampleClockTimes(assumeDaytime);
    InterpretAccepted(Typed("f", "10", Some("pm"), Some("6"), Some("am")), Config(assumeDaytime, 8),
                      Friday, (10, 0, 6, 0), (22 * 60, 6 * 60));
  }

  /** `m8` with the default duration of eight hours: Monday 08:00 to 16:00. */
  lemma MondayEightDefault()
    ensures Interpret(Typed("m", "8", None, None, None), Defaults) == Success(Shift(Monday, 8 * 60, 16 * 60))
  {
    ExampleDayCodes();
    assert DefaultEnd(8, 0, 8) == (16, 0);
    assert DecodeTimes(Typed("m", "8", None, None, None), Defaults) == Some((8, 0, 16, 0)) by {
      BreakdownOneDigit('8');
    }
    ExampleClockTimes(true);
    InterpretAccepted(Typed("m", "8", None, None, None), Defaults, Monday, (8, 0, 16, 0), (8 * 60, 16 * 60));
  }

  /** `m25-4`: hour 25 is out of range, so the match gives no shift. */
  lemma HourTwentyFiveRejected()
    ensures Interpret(Typed("m", "25", None, Some("4"), None), Defaults) == Failure(StartHourOutOfRange)
  {
    ExampleDayCodes();
    assert DecodeTimes(Typed("m", "25", None, Some("4"), None), Defaults) == Some((25, 0, 4, 0)) by {
      assert "25" == ['2', '5'];
      BreakdownTwoDigits('2', '5');
      BreakdownOneDigit('4');
    }
    assert CheckedTimes((25, 0, 4, 0), None, None, true) == Failure(StartHourOutOfRange);
    InterpretRejected(Typed("m", "25", None, Some("4"), None), Defaults, Monday, (25, 0, 4, 0), StartHourOutOfRange);
  }
}
