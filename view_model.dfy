/**
 * The view model's state and its two entry points, `parseText` and `clear`. Finding the shift
 * matches in the text and deciding whether the whole text fits the schedule pattern are the job of
 * the regular-expression engine; here their results are inputs: the matches in order, and one
 * boolean for the whole-text match.
 */
module ViewModel {
  import opened Wrappers
  import opened Shifts
  import opened Schedules

  /** Kotlin's `Char.isWhitespace`: Java whitespace or a Unicode space separator. */
  predicate IsWhitespace(c: char) {
    var v := c as int;
    || 0x09 <= v <= 0x0D || 0x1C <= v <= 0x20
    || v == 0xA0 || v == 0x1680 || 0x2000 <= v <= 0x200A
    || v == 0x2028 || v == 0x2029 || v == 0x202F || v == 0x205F || v == 0x3000
  }

  /** `CharSequence.isBlank`: empty, or nothing but whitespace. */
  predicate IsBlank(text: string) {
    forall i :: 0 <= i < |text| ==> IsWhitespace(text[i])
  }

  /** What `matchToShift` gives for each match, in order: a shift, or nothing. */
  function Outcomes(matches: seq<Match>, cfg: Config): (outcomes: seq<Option<Shift>>)
    ensures |outcomes| == |matches|
  {
    if matches == [] then []
    else Outcomes(matches[..|matches| - 1], cfg) + [Interpret(matches[|matches| - 1], cfg).ToOption()]
  }

  /** Every outcome holds a value. */
  predicate AllPresent<T>(outcomes: seq<Option<T>>) {
    forall i :: 0 <= i < |outcomes| ==> outcomes[i].Some?
  }

  /**
   * `mapNotNull`: the values present, in order. Nothing is dropped exactly when every outcome
   * holds a value, and then value `i` comes from outcome `i`.
   */
  function KeepPresent<T>(outcomes: seq<Option<T>>): (values: seq<T>)
    ensures |values| <= |outcomes|
    ensures |values| == |outcomes| <==> AllPresent(outcomes)
    ensures AllPresent(outcomes) ==> forall i :: 0 <= i < |outcomes| ==> values[i] == outcomes[i].value
  {
    if outcomes == [] then []
    else
      var init := outcomes[..|outcomes| - 1];
      assert forall i :: 0 <= i < |init| ==> init[i] == outcomes[i];
      match outcomes[|outcomes| - 1]
      case Some(v) => KeepPresent(init) + [v]
      case None => KeepPresent(init)
  }

  /**
   * Every value kept comes from the one outcome that has exactly `k` values kept before it, so no
   * value is kept twice.
   */
  lemma {:induction false} KeepPresentFrom<T>(outcomes: seq<Option<T>>, k: nat)
    requires k < |KeepPresent(outcomes)|
    ensures exists i :: 0 <= i < |outcomes| && outcomes[i] == Some(KeepPresent(outcomes)[k])
                        && |KeepPresent(outcomes[..i])| == k
  {
    var n := |outcomes|;
    var init := outcomes[..n - 1];
    assert init + [outcomes[n - 1]] == outcomes;
    KeepPresentStep(init, outcomes[n - 1]);
    if k < |KeepPresent(init)| {
      KeepPresentFrom(init, k);
      var i :| 0 <= i < |init| && init[i] == Some(KeepPresent(init)[k]) && |KeepPresent(init[..i])| == k;
      assert outcomes[i] == init[i] && init[..i] == outcomes[..i];
    } else {
      assert outcomes[..n - 1] == init;
    }
  }

  /** A match has an outcome exactly when it is understood, and then the outcome is its shift. */
  lemma {:induction false} OutcomeAt(matches: seq<Match>, cfg: Config, i: nat)
    requires i < |matches|
    ensures Outcomes(matches, cfg)[i] == Interpret(matches[i], cfg).ToOption()
  {
    var n := |matches|;
    var init := matches[..n - 1];
    assert Outcomes(matches, cfg) == Outcomes(init, cfg) + [Interpret(matches[n - 1], cfg).ToOption()];
    if i < n - 1 {
      OutcomeAt(init, cfg, i);
      assert init[i] == matches[i];
    }
  }

  /** `OutcomeAt` for every match. */
  lemma OutcomesUnderstood(matches: seq<Match>, cfg: Config)
    ensures forall i :: 0 <= i < |matches| ==>
              && (Outcomes(matches, cfg)[i].Some? <==> Interpret(matches[i], cfg).Success?)
              && (Outcomes(matches, cfg)[i].Some? ==> Outcomes(matches, cfg)[i].value == Interpret(matches[i], cfg).value)
  {
    forall i | 0 <= i < |matches|
      ensures Outcomes(matches, cfg)[i].Some? <==> Interpret(matches[i], cfg).Success?
      ensures Outcomes(matches, cfg)[i].Some? ==> Outcomes(matches, cfg)[i].value == Interpret(matches[i], cfg).value
    {
      OutcomeAt(matches, cfg, i);
    }
  }

  /** `matches.mapNotNull { matchToShift(it) }`: the shifts of the understood matches, in order. */
  function Interpreted(matches: seq<Match>, cfg: Config): seq<Shift> {
    KeepPresent(Outcomes(matches, cfg))
  }

  /**
   * Nothing is dropped exactly when every match is understood, and then shift `i` comes from
   * match `i`; whatever is kept is the shift of the understood match whose `EntryIndex` it sits at.
   */
  lemma InterpretedShifts(matches: seq<Match>, cfg: Config)
    ensures var shifts := Interpreted(matches, cfg);
            && |shifts| <= |matches|
            && (|shifts| == |matches| <==> forall i :: 0 <= i < |matches| ==> Interpret(matches[i], cfg).Success?)
            && ((forall i :: 0 <= i < |matches| ==> Interpret(matches[i], cfg).Success?) ==>
                  forall i :: 0 <= i < |matches| ==> shifts[i] == Interpret(matches[i], cfg).value)
            && forall k :: 0 <= k < |shifts| ==>
                 exists i :: 0 <= i < |matches| && Interpret(matches[i], cfg) == Success(shifts[k])
                             && EntryIndex(matches, cfg, i) == k
  {
    var outcomes := Outcomes(matches, cfg);
    OutcomesUnderstood(matches, cfg);
    forall k | 0 <= k < |Interpreted(matches, cfg)|
      ensures exists i :: 0 <= i < |matches| && Interpret(matches[i], cfg) == Success(Interpreted(matches, cfg)[k])
                          && EntryIndex(matches, cfg, i) == k
    {
      KeepPresentFrom(outcomes, k);
      var i :| 0 <= i < |outcomes| && outcomes[i] == Some(KeepPresent(outcomes)[k]) && |KeepPresent(outcomes[..i])| == k;
      OutcomesPrefix(matches, cfg, i);
      assert Interpret(matches[i], cfg) == Success(Interpreted(matches, cfg)[k]);
    }
  }

  /** Interpreting one more match appends its outcome. */
  lemma OutcomesStep(matches: seq<Match>, cfg: Config, i: nat)
    requires i < |matches|
    ensures Outcomes(matches[..i + 1], cfg) == Outcomes(matches[..i], cfg) + [Interpret(matches[i], cfg).ToOption()]
  {
    assert matches[..i + 1][..i] == matches[..i];
  }

  /** One more outcome adds its value, if it has one, at the end. */
  lemma KeepPresentStep<T>(outcomes: seq<Option<T>>, outcome: Option<T>)
    ensures KeepPresent(outcomes + [outcome]) == KeepPresent(outcomes) + (if outcome.Some? then [outcome.value] else [])
  {
    assert (outcomes + [outcome])[..|outcomes|] == outcomes;
  }

  /**
   * Nothing present is lost, and order is kept: the value of outcome `i` sits in the result just
   * after the values kept from the outcomes before it.
   */
  lemma {:induction false} KeepPresentKeepsEach<T>(outcomes: seq<Option<T>>, i: nat)
    requires i < |outcomes| && outcomes[i].Some?
    ensures |KeepPresent(outcomes[..i])| < |KeepPresent(outcomes)|
    ensures KeepPresent(outcomes)[|KeepPresent(outcomes[..i])|] == outcomes[i].value
  {
    var n := |outcomes|;
    var init := outcomes[..n - 1];
    assert init + [outcomes[n - 1]] == outcomes;
    KeepPresentStep(init, outcomes[n - 1]);
    if i == n - 1 {
      assert outcomes[..i] == init;
    } else {
      KeepPresentKeepsEach(init, i);
      assert init[..i] == outcomes[..i];
    }
  }

  /** A longer prefix of outcomes never keeps fewer values. */
  lemma {:induction false} KeepPresentPrefixGrows<T>(outcomes: seq<Option<T>>, i: nat, j: nat)
    requires i <= j <= |outcomes|
    ensures |KeepPresent(outcomes[..i])| <= |KeepPresent(outcomes[..j])|
  {
    if i < j {
      KeepPresentPrefixGrows(outcomes, i, j - 1);
      assert outcomes[..j - 1] + [outcomes[j - 1]] == outcomes[..j];
      KeepPresentStep(outcomes[..j - 1], outcomes[j - 1]);
    }
  }

  /** The outcomes of a prefix of the matches are that prefix of the outcomes. */
  lemma {:induction false} OutcomesPrefix(matches: seq<Match>, cfg: Config, i: nat)
    requires i <= |matches|
    ensures Outcomes(matches[..i], cfg) == Outcomes(matches, cfg)[..i]
  {
    var n := |matches|;
    if i == n {
      assert matches[..i] == matches;
    } else {
      var init := matches[..n - 1];
      OutcomesPrefix(init, cfg, i);
      assert init[..i] == matches[..i];
      var last := Interpret(matches[n - 1], cfg).ToOption();
      assert Outcomes(matches, cfg) == Outcomes(init, cfg) + [last];
      PrefixOfAppend(Outcomes(init, cfg), [last], i);
    }
  }

  /** A prefix no longer than the first part of a concatenation lies within that part. */
  lemma PrefixOfAppend<T>(a: seq<T>, b: seq<T>, i: nat)
    requires i <= |a|
    ensures (a + b)[..i] == a[..i]
  {
  }

  /** The number of understood matches before match `i`: where match `i`'s shift lands when it is understood. */
  function EntryIndex(matches: seq<Match>, cfg: Config, i: nat): nat
    requires i <= |matches|
  {
    |Interpreted(matches[..i], cfg)|
  }

  /**
   * Whatever else is rejected, every understood match keeps its shift, at its `EntryIndex`, and
   * the shifts of understood matches keep the matches' order.
   */
  lemma InterpretedKeepsEach(matches: seq<Match>, cfg: Config, i: nat, j: nat)
    requires i < j <= |matches| && Interpret(matches[i], cfg).Success?
    ensures EntryIndex(matches, cfg, i) < EntryIndex(matches, cfg, j) <= |Interpreted(matches, cfg)|
    ensures Interpreted(matches, cfg)[EntryIndex(matches, cfg, i)] == Interpret(matches[i], cfg).value
  {
    var outcomes := Outcomes(matches, cfg);
    OutcomesPrefix(matches, cfg, i);
    OutcomesPrefix(matches, cfg, i + 1);
    OutcomesPrefix(matches, cfg, j);
    OutcomeAt(matches, cfg, i);
    assert outcomes[..i + 1][..i] == outcomes[..i];
    KeepPresentKeepsEach(outcomes[..i + 1], i);
    KeepPresentKeepsEach(outcomes, i);
    KeepPresentPrefixGrows(outcomes, i + 1, j);
    KeepPresentPrefixGrows(outcomes, j, |outcomes|);
    assert outcomes[..|outcomes|] == outcomes;
  }

  /** The flagger saw each match's range once, in order, as valid exactly when the match was understood. */
  predicate ReportsEachMatch(flags: seq<Flag>, matches: seq<Match>, cfg: Config) {
    && |flags| == |matches|
    && forall i :: 0 <= i < |matches| ==> flags[i] == Flag(matches[i].range, Interpret(matches[i], cfg).Success?)
  }

  /**
   * The loop of `parseText`: `matchToShift` on every match in order, keeping the shifts it gives
   * and the flag it reports for each.
   */
  method InterpretAll(matches: seq<Match>, cfg: Config) returns (shiftsInformal: seq<Shift>, flags: seq<Flag>)
    ensures shiftsInformal == Interpreted(matches, cfg)
    ensures ReportsEachMatch(flags, matches, cfg)
  {
    ghost var outcomes: seq<Option<Shift>> := [];
    shiftsInformal := [];
    flags := [];
    for i := 0 to |matches|
      invariant InterpretedSoFar(matches, cfg, i, outcomes, shiftsInformal, flags)
    {
      var shift, flag := MatchToShift(matches[i], cfg);
      InterpretedOneMore(matches, cfg, i, outcomes, shiftsInformal, flags, shift, flag);
      outcomes := outcomes + [shift];
      flags := flags + [flag];
      if shift.Some? {
        shiftsInformal := shiftsInformal + [shift.value];
      }
    }
    assert matches[..|matches|] == matches;
    FlagsFromOutcomes(flags, matches, cfg);
  }

  /** What `InterpretAll` has built after looking at the first `i` matches. */
  ghost predicate InterpretedSoFar(matches: seq<Match>, cfg: Config, i: nat, outcomes: seq<Option<Shift>>,
                                   shiftsInformal: seq<Shift>, flags: seq<Flag>)
  {
    && i <= |matches|
    && outcomes == Outcomes(matches[..i], cfg)
    && shiftsInformal == KeepPresent(outcomes)
    && |flags| == i
    && forall k :: 0 <= k < i ==> flags[k] == Flag(matches[k].range, outcomes[k].Some?)
  }

  /** Interpreting match `i` and appending its outcome, shift and flag keeps `InterpretedSoFar`. */
  lemma InterpretedOneMore(matches: seq<Match>, cfg: Config, i: nat, outcomes: seq<Option<Shift>>,
                           shiftsInformal: seq<Shift>, flags: seq<Flag>, shift: Option<Shift>, flag: Flag)
    requires i < |matches|
    requires InterpretedSoFar(matches, cfg, i, outcomes, shiftsInformal, flags)
    requires shift == Interpret(matches[i], cfg).ToOption()
    requires flag == Flag(matches[i].range, shift.Some?)
    ensures InterpretedSoFar(matches, cfg, i + 1, outcomes + [shift],
                             shiftsInformal + (if shift.Some? then [shift.value] else []), flags + [flag])
  {
    OutcomesStep(matches, cfg, i);
    KeepPresentStep(outcomes, shift);
    forall k | 0 <= k < i + 1
      ensures (flags + [flag])[k] == Flag(matches[k].range, (outcomes + [shift])[k].Some?)
    {
      if k < i {
        assert (flags + [flag])[k] == flags[k];
      }
    }
  }

  /** Flags that record which outcomes hold a shift record which matches were understood. */
  lemma FlagsFromOutcomes(flags: seq<Flag>, matches: seq<Match>, cfg: Config)
    requires |flags| == |matches|
    requires forall k :: 0 <= k < |matches| ==> flags[k] == Flag(matches[k].range, Outcomes(matches, cfg)[k].Some?)
    ensures ReportsEachMatch(flags, matches, cfg)
  {
    OutcomesUnderstood(matches, cfg);
  }

  /** The view model's state: the schedule and whether the text had errors. */
  datatype ParseOutcome = ParseOutcome(schedule: Schedule, foundErrors: bool)

  /** The empty schedule without errors: the state after `clear`. */
  const Cleared := ParseOutcome(Schedule([]), false)

  /**
   * The state `parseText` leaves. Blank text clears it. Otherwise the schedule holds the
   * understood shifts placed from `startingDate`, and errors are recorded when the text as a whole
   * does not fit the schedule pattern or some match was dropped (see `ParseFindsErrors`).
   */
  function Parse(text: string, startingDate: Date, matches: seq<Match>, textMatchesSchedule: bool, cfg: Config)
    : (r: ParseOutcome)
    ensures IsBlank(text) ==> r == Cleared
    ensures |r.schedule.shifts| <= |matches|
  {
    if IsBlank(text) then Cleared
    else
      var shiftsInformal := Interpreted(matches, cfg);
      ParseOutcome(Schedule(BuildSchedule(shiftsInformal, startingDate)),
                   !textMatchesSchedule || |shiftsInformal| < |matches|)
  }

  /**
   * Errors are found in text that is not blank exactly when the text as a whole does not fit the
   * schedule pattern or some match is not understood.
   */
  lemma ParseFindsErrors(text: string, startingDate: Date, matches: seq<Match>, textMatchesSchedule: bool, cfg: Config)
    requires !IsBlank(text)
    ensures Parse(text, startingDate, matches, textMatchesSchedule, cfg).foundErrors <==>
              !textMatchesSchedule || exists i :: 0 <= i < |matches| && Interpret(matches[i], cfg).Failure?
  {
    InterpretedShifts(matches, cfg);
  }

  /** The state `parseText` leaves for text that is not blank. */
  lemma ParseNonBlank(text: string, startingDate: Date, matches: seq<Match>, textMatchesSchedule: bool, cfg: Config)
    requires !IsBlank(text)
    ensures var shiftsInformal := Interpreted(matches, cfg);
            Parse(text, startingDate, matches, textMatchesSchedule, cfg)
              == ParseOutcome(Schedule(BuildSchedule(shiftsInformal, startingDate)), !textMatchesSchedule || |shiftsInformal| < |matches|)
  {
  }

  /**
   * Without errors nothing was skipped: entry `i` of the schedule is match `i`'s shift, placed on a
   * date with its weekday.
   */
  lemma ErrorFreeKeepsEveryShift(text: string, startingDate: Date, matches: seq<Match>, textMatchesSchedule: bool, cfg: Config)
    requires !IsBlank(text) && !Parse(text, startingDate, matches, textMatchesSchedule, cfg).foundErrors
    ensures var entries := Parse(text, startingDate, matches, textMatchesSchedule, cfg).schedule.shifts;
            && |entries| == |matches|
            && forall i :: 0 <= i < |matches| ==> Interpret(matches[i], cfg) == Success(ShiftOf(entries[i]))
  {
    var shiftsInformal := Interpreted(matches, cfg);
    InterpretedShifts(matches, cfg);
    forall i | 0 <= i < |matches|
      ensures Interpret(matches[i], cfg) == Success(ShiftOf(BuildSchedule(shiftsInformal, startingDate)[i]))
    {
      BuildScheduleAt(shiftsInformal, startingDate, i);
      WorkDateWeekday(shiftsInformal, startingDate, i);
      ShiftOfEntryOn(WorkDate(shiftsInformal, startingDate, i), shiftsInformal[i]);
    }
  }

  /**
   * Whether or not there are errors, entry `k` of the schedule is the shift of the understood match
   * whose `EntryIndex` is `k`; with `ParseKeepsEachUnderstood`, entries and understood matches
   * correspond one to one.
   */
  lemma EntriesComeFromMatches(text: string, startingDate: Date, matches: seq<Match>, textMatchesSchedule: bool, cfg: Config, k: nat)
    requires !IsBlank(text) && k < |Parse(text, startingDate, matches, textMatchesSchedule, cfg).schedule.shifts|
    ensures exists i :: 0 <= i < |matches| && EntryIndex(matches, cfg, i) == k &&
              Interpret(matches[i], cfg) == Success(ShiftOf(Parse(text, startingDate, matches, textMatchesSchedule, cfg).schedule.shifts[k]))
  {
    var shiftsInformal := Interpreted(matches, cfg);
    InterpretedShifts(matches, cfg);
    var i :| 0 <= i < |matches| && Interpret(matches[i], cfg) == Success(shiftsInformal[k]) && EntryIndex(matches, cfg, i) == k;
    BuildScheduleAt(shiftsInformal, startingDate, k);
    WorkDateWeekday(shiftsInformal, startingDate, k);
    ShiftOfEntryOn(WorkDate(shiftsInformal, startingDate, k), shiftsInformal[k]);
    assert ShiftOf(Parse(text, startingDate, matches, textMatchesSchedule, cfg).schedule.shifts[k]) == shiftsInformal[k];
  }

  /**
   * However many other matches are rejected, an understood match keeps its place: the entry at
   * its `EntryIndex` (the number of understood matches before it) gives back its shift.
   */
  lemma ParseKeepsEachUnderstood(text: string, startingDate: Date, matches: seq<Match>, textMatchesSchedule: bool,
                                 cfg: Config, i: nat)
    requires !IsBlank(text) && i < |matches| && Interpret(matches[i], cfg).Success?
    ensures var entries := Parse(text, startingDate, matches, textMatchesSchedule, cfg).schedule.shifts;
            && EntryIndex(matches, cfg, i) < |entries|
            && ShiftOf(entries[EntryIndex(matches, cfg, i)]) == Interpret(matches[i], cfg).value
  {
    var shiftsInformal := Interpreted(matches, cfg);
    InterpretedKeepsEach(matches, cfg, i, |matches|);
    var k := EntryIndex(matches, cfg, i);
    BuildScheduleAt(shiftsInformal, startingDate, k);
    WorkDateWeekday(shiftsInformal, startingDate, k);
    ShiftOfEntryOn(WorkDate(shiftsInformal, startingDate, k), shiftsInformal[k]);
  }

  /** Understood matches keep their order in the schedule: an earlier match's entry starts earlier. */
  lemma ParseKeepsMatchOrder(text: string, startingDate: Date, matches: seq<Match>, textMatchesSchedule: bool,
                             cfg: Config, i: nat, j: nat)
    requires !IsBlank(text) && i < j < |matches|
    requires Interpret(matches[i], cfg).Success? && Interpret(matches[j], cfg).Success?
    ensures var entries := Parse(text, startingDate, matches, textMatchesSchedule, cfg).schedule.shifts;
            && EntryIndex(matches, cfg, i) < EntryIndex(matches, cfg, j) < |entries|
            && Instant(entries[EntryIndex(matches, cfg, i)].startTime) < Instant(entries[EntryIndex(matches, cfg, j)].startTime)
  {
    InterpretedKeepsEach(matches, cfg, i, j);
    InterpretedKeepsEach(matches, cfg, j, |matches|);
    ScheduleStartsIncrease(Interpreted(matches, cfg), startingDate, EntryIndex(matches, cfg, i), EntryIndex(matches, cfg, j));
  }

  /** Empty text and text of spaces clear the state, whatever the matches and settings. */
  lemma BlankTextClears(startingDate: Date, matches: seq<Match>, textMatchesSchedule: bool, cfg: Config)
    ensures Parse("", startingDate, matches, textMatchesSchedule, cfg) == Cleared
    ensures Parse("   ", startingDate, matches, textMatchesSchedule, cfg) == Cleared
  {
  }

  /** A single match leaves its own outcome, if it has a value, and nothing else. */
  lemma InterpretedOne(m: Match, cfg: Config)
    ensures Interpreted([m], cfg) == if Interpret(m, cfg).Success? then [Interpret(m, cfg).value] else []
  {
    var outcome := Interpret(m, cfg).ToOption();
    assert Interpreted([m], cfg) == KeepPresent([outcome]) by {
      OutcomesStep([m], cfg, 0);
      assert [m][..1] == [m] && [m][..0] == [];
    }
    KeepPresentStep<Shift>([], outcome);
    assert [] + [outcome] == [outcome];
  }

  /**
   * Text holding a single understood match that covers all of it: one entry, on the first date
   * after the start with the shift's weekday, and no errors.
   */
  lemma ParseOneUnderstood(text: string, startingDate: Date, m: Match, cfg: Config, shift: Shift)
    requires !IsBlank(text) && Interpret(m, cfg) == Success(shift)
    ensures Parse(text, startingDate, [m], true, cfg)
              == ParseOutcome(Schedule([EntryOn(NextWeekday(startingDate, shift.dayOfWeek), shift)]), false)
  {
    InterpretedOne(m, cfg);
    BuildScheduleOne(shift, startingDate);
  }

  /** Text holding a single rejected match that covers all of it: an empty schedule, with errors. */
  lemma ParseOneRejected(text: string, startingDate: Date, m: Match, cfg: Config, e: ShiftError)
    requires !IsBlank(text) && Interpret(m, cfg) == Failure(e)
    ensures Parse(text, startingDate, [m], true, cfg) == ParseOutcome(Schedule([]), true)
  {
    InterpretedOne(m, cfg);
  }

  /**
   * The non-blank branch of `parseText`: interprets the matches, places the understood shifts from
   * `startingDate` on, and records an error when the whole text was not one schedule or when a
   * match was dropped.
   */
  method ParseMatches(text: string, startingDate: Date, matches: seq<Match>, textMatchesSchedule: bool, cfg: Config)
    returns (outcome: ParseOutcome, flags: seq<Flag>)
    requires !IsBlank(text)
    ensures outcome == Parse(text, startingDate, matches, textMatchesSchedule, cfg)
    ensures ReportsEachMatch(flags, matches, cfg)
  {
    var shiftsInformal;
    shiftsInformal, flags := InterpretAll(matches, cfg);
    var schedule := ShiftsToSchedule(shiftsInformal, startingDate);
    outcome := ParseOutcome(schedule, !textMatchesSchedule || |shiftsInformal| < |matches|);
    ParseNonBlank(text, startingDate, matches, textMatchesSchedule, cfg);
  }

  /** `ScheduleViewModel`: holds the last parsed schedule and whether its text had errors. */
  class ScheduleViewModel {
    var schedule: Schedule
    var foundErrors: bool

    /** A new view model holds the empty schedule and no errors. */
    constructor ()
      ensures ParseOutcome(schedule, foundErrors) == Cleared
    {
      schedule := Schedule([]);
      foundErrors := false;
    }

    /** `clear`: back to the empty schedule without errors. */
    method Clear()
      modifies this
      ensures ParseOutcome(schedule, foundErrors) == Cleared
    {
      schedule := Schedule([]);
      foundErrors := false;
    }

    /**
     * `parseText`: blank text clears the state and reports nothing. Otherwise every match is
     * interpreted in order, its range reported once to the flagger (the returned flags, in call
     * order) as valid exactly when it was understood; the understood shifts are placed from
     * `dayOffset` days after `today`; and errors are recorded as `Parse` says. The new state
     * depends only on the arguments, never on the old state.
     */
    method ParseText(text: string, dayOffset: int32, today: Date, matches: seq<Match>, textMatchesSchedule: bool, cfg: Config)
      returns (flags: seq<Flag>)
      modifies this
      ensures ParseOutcome(schedule, foundErrors) == Parse(text, today + dayOffset as int, matches, textMatchesSchedule, cfg)
      ensures IsBlank(text) ==> flags == []
      ensures !IsBlank(text) ==> ReportsEachMatch(flags, matches, cfg)
    {
      if IsBlank(text) {
        Clear();
        return [];
      }
      var outcome;
      outcome, flags := ParseMatches(text, today + dayOffset as int, matches, textMatchesSchedule, cfg);
      schedule := outcome.schedule;
      foundErrors := outcome.foundErrors;
    }
  }

  /** Parsing the same arguments twice leaves the same state and reports the same flags. */
  method ReparseIsIdempotent(vm: ScheduleViewModel, text: string, dayOffset: int32, today: Date,
                             matches: seq<Match>, textMatchesSchedule: bool, cfg: Config)
    returns (first: ParseOutcome, second: ParseOutcome, firstFlags: seq<Flag>, secondFlags: seq<Flag>)
    modifies vm
    ensures first == second && firstFlags == secondFlags
  {
    firstFlags := vm.ParseText(text, dayOffset, today, matches, textMatchesSchedule, cfg);
    first := ParseOutcome(vm.schedule, vm.foundErrors);
    secondFlags := vm.ParseText(text, dayOffset, today, matches, textMatchesSchedule, cfg);
    second := ParseOutcome(vm.schedule, vm.foundErrors);
  }
}
