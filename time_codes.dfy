/**
 * Time codes: the digits a user types for a time of day ("8", "830", "8:30", "1745"),
 * cleaned of separators and broken down into an hour and a minute
 * (`timeCodeCleaner` and `breakdownTimeCode` in ScheduleViewModel.kt).
 */
module TimeCodes {
  import opened Wrappers

  /**
   * The characters the cleaner pattern `\s|[:.]` removes: `:`, `.` and whitespace, taken here as Java's
   * ASCII class. Android's engine also removes Unicode spaces, but a time-code group holds only
   * digits, `:` and `.`, so the choice makes no difference to a matched code.
   */
  predicate IsCleanedAway(c: char) {
    c == ' ' || c == '\t' || c == '\n' || c == '\U{0B}' || c == '\U{0C}' || c == '\r' || c == ':' || c == '.'
  }

  /** `replace(timeCodeCleaner, "")`: deletes whitespace, `:` and `.`, keeping every other character in order. */
  function Clean(s: string): (r: string)
    ensures |r| <= |s|
    ensures forall i :: 0 <= i < |r| ==> !IsCleanedAway(r[i])
  {
    if s == [] then []
    else Clean(s[..|s| - 1]) + (if IsCleanedAway(s[|s| - 1]) then [] else [s[|s| - 1]])
  }

  /** Cleaning works piecewise: the cleaned concatenation is the concatenation of the cleaned parts. */
  lemma {:induction false} CleanAppend(a: string, b: string)
    ensures Clean(a + b) == Clean(a) + Clean(b)
  {
    if b == [] {
      assert a + b == a;
    } else {
      var b' := b[..|b| - 1];
      assert (a + b)[..|a + b| - 1] == a + b';
      CleanAppend(a, b');
    }
  }

  /** A string with nothing to clean is left as it is. */
  lemma {:induction false} CleanIdentity(s: string)
    requires forall i :: 0 <= i < |s| ==> !IsCleanedAway(s[i])
    ensures Clean(s) == s
  {
    if s != [] {
      CleanIdentity(s[..|s| - 1]);
    }
  }

  /** Cleaning twice is cleaning once. */
  lemma CleanIdempotent(s: string)
    ensures Clean(Clean(s)) == Clean(s)
  {
    CleanIdentity(Clean(s));
  }

  predicate IsDigit(c: char) { '0' <= c <= '9' }

  predicate AllDigits(s: string) { forall i :: 0 <= i < |s| ==> IsDigit(s[i]) }

  function Pow10(n: nat): (p: nat)
    ensures p >= 1
  {
    if n == 0 then 1 else 10 * Pow10(n - 1)
  }

  /** The number a run of decimal digits denotes, most significant digit first. */
  function Value(s: string): (v: nat)
    requires AllDigits(s)
    ensures v < Pow10(|s|)
  {
    if s == [] then 0 else Value(s[..|s| - 1]) * 10 + ((s[|s| - 1] as int) - ('0' as int))
  }

  /** Positional notation: the digits of `b` written after those of `a` shift `a` by `|b|` places. */
  lemma {:induction false} ValueAppend(a: string, b: string)
    requires AllDigits(a) && AllDigits(b)
    ensures AllDigits(a + b)
    ensures Value(a + b) == Value(a) * Pow10(|b|) + Value(b)
  {
    if b == [] {
      assert a + b == a;
    } else {
      var b' := b[..|b| - 1];
      var d := (b[|b| - 1] as int) - ('0' as int);
      assert (a + b)[..|a + b| - 1] == a + b';
      ValueAppend(a, b');
      assert Value(a + b) == Value(a + b') * 10 + d;
      assert Pow10(|b|) == 10 * Pow10(|b'|);
      assert Value(b) == Value(b') * 10 + d;
      ShiftByOnePlace(Value(a), Pow10(|b'|), Value(b'), d);
    }
  }

  lemma ShiftByOnePlace(x: int, p: int, y: int, d: int)
    ensures (x * p + y) * 10 + d == x * (10 * p) + (y * 10 + d)
  {
  }

  /**
   * Kotlin's `String.toInt()` on a run of ASCII digits; anything else is None, as NumberFormatException.
   * Kotlin would also read other Unicode decimal digits, which this model rejects.
   */
  function ToInt(s: string): Option<nat> {
    if s != [] && AllDigits(s) then Some(Value(s)) else None
  }

  /** Hours and minutes are determined by `100 * hours + minutes` once minutes are below 100. */
  lemma SplitUnique(h: int, m: int, h': int, m': int)
    requires 0 <= m < 100 && 0 <= m' < 100
    requires 100 * h + m == 100 * h' + m'
    ensures h == h' && m == m'
  {
  }

  /**
   * `breakdownTimeCode`: one or two digits are whole hours; with three or four digits the last
   * two are the minutes and the rest the hours; any other length, or a non-digit, is an error.
   */
  function BreakdownTimeCode(timeCode: string): (r: Option<(nat, nat)>)
    ensures r.Some? <==> 1 <= |timeCode| <= 4 && AllDigits(timeCode)
    ensures r.Some? && |timeCode| <= 2 ==> r.value == (Value(timeCode), 0)
    ensures r.Some? && |timeCode| >= 3 ==> r.value.1 < 100 && 100 * r.value.0 + r.value.1 == Value(timeCode)
    ensures r.Some? ==> r.value.0 < 100 && r.value.1 < 100
  {
    if 1 <= |timeCode| <= 2 then
      var hours :- ToInt(timeCode);
      Some((hours, 0))
    else if |timeCode| == 3 || |timeCode| == 4 then
      var split := |timeCode| - 2;
      assert timeCode == timeCode[..split] + timeCode[split..];
      var hours :- ToInt(timeCode[..split]);
      var minutes :- ToInt(timeCode[split..]);
      ValueAppend(timeCode[..split], timeCode[split..]);
      assert Pow10(|timeCode[split..]|) == 100;
      Some((hours, minutes))
    else
      None
  }

  function DigitChar(d: nat): (c: char)
    requires d < 10
    ensures IsDigit(c) && (c as int) - ('0' as int) == d
  {
    (('0' as int) + d) as char
  }

  /** The four-digit time code `hhmm` of an hour and a minute. */
  function FourDigitCode(hours: nat, minutes: nat): (s: string)
    requires hours < 100 && minutes < 100
    ensures |s| == 4 && AllDigits(s)
  {
    [DigitChar(hours / 10), DigitChar(hours % 10), DigitChar(minutes / 10), DigitChar(minutes % 10)]
  }

  /** Writing an hour and a minute as `hhmm` and breaking the code down gives them back. */
  lemma BreakdownFourDigitCode(hours: nat, minutes: nat)
    requires hours < 100 && minutes < 100
    ensures BreakdownTimeCode(FourDigitCode(hours, minutes)) == Some((hours, minutes))
  {
    var s := FourDigitCode(hours, minutes);
    assert Value(s[..2]) == hours by {
      assert s[..2][..1] == [s[0]];
      assert Value([s[0]]) == hours / 10 by { assert [s[0]][..0] == []; }
    }
    assert Value(s[2..]) == minutes by {
      assert s[2..][..1] == [s[2]];
      assert Value([s[2]]) == minutes / 10 by { assert [s[2]][..0] == []; }
    }
    assert s == s[..2] + s[2..];
    ValueAppend(s[..2], s[2..]);
    var r := BreakdownTimeCode(s);
    SplitUnique(r.value.0, r.value.1, hours, minutes);
  }

  /** A single digit is an hour on the hour, and cleaning leaves it as it is. */
  lemma BreakdownOneDigit(c: char)
    requires IsDigit(c)
    ensures Clean([c]) == [c]
    ensures BreakdownTimeCode([c]) == Some(((c as int) - ('0' as int), 0))
  {
    assert [c][..0] == [];
    assert Clean([c]) == [c];
    assert Value([c]) == (c as int) - ('0' as int);
  }

  /** Two digits are read as a whole number of hours, tens first, and cleaning leaves them as they are. */
  lemma BreakdownTwoDigits(tens: char, units: char)
    requires IsDigit(tens) && IsDigit(units)
    ensures Clean([tens, units]) == [tens, units]
    ensures BreakdownTimeCode([tens, units]) == Some((10 * ((tens as int) - ('0' as int)) + ((units as int) - ('0' as int)), 0))
  {
    var code := [tens, units];
    assert code[..1] == [tens];
    assert [tens][..0] == [];
    assert Value(code[..1]) == (tens as int) - ('0' as int);
    CleanIdentity(code);
  }

  /** The strings the time-code group `\d{1,2}[:.]\d{2}|\d{1,4}` matches. */
  predicate IsTimeCodeToken(s: string) {
    || (1 <= |s| <= 4 && AllDigits(s))
    || (4 <= |s| <= 5 && (s[|s| - 3] == ':' || s[|s| - 3] == '.')
        && AllDigits(s[..|s| - 3]) && AllDigits(s[|s| - 2..]))
  }

  /**
   * Every time code the pattern admits decodes once cleaned: a code with a separator reads as
   * hours before it and minutes after it ("8:30" is 8 h 30 min), a plain run of digits as
   * `BreakdownTimeCode` says.
   */
  lemma TimeCodeTokenDecodes(s: string)
    requires IsTimeCodeToken(s)
    ensures BreakdownTimeCode(Clean(s)).Some?
    ensures AllDigits(s) ==> Clean(s) == s
    ensures !AllDigits(s) ==> BreakdownTimeCode(Clean(s)) == Some((Value(s[..|s| - 3]), Value(s[|s| - 2..])))
  {
    if AllDigits(s) {
      DigitTimeCodeDecodes(s);
    } else {
      SeparatedTokenDecodes(s);
    }
  }

  lemma SeparatedTokenDecodes(s: string)
    requires IsTimeCodeToken(s) && !AllDigits(s)
    ensures BreakdownTimeCode(Clean(s)) == Some((Value(s[..|s| - 3]), Value(s[|s| - 2..])))
  {
    var hh, sep, mm := s[..|s| - 3], s[|s| - 3], s[|s| - 2..];
    assert s == hh + [sep] + mm;
    SeparatedTimeCodeDecodes(hh, sep, mm);
  }

  /** The `\d{1,4}` alternative: nothing to clean, and one to four digits always break down. */
  lemma DigitTimeCodeDecodes(s: string)
    requires IsTimeCodeToken(s) && AllDigits(s)
    ensures Clean(s) == s
    ensures BreakdownTimeCode(Clean(s)).Some?
  {
    CleanIdentity(s);
  }

  /** The `\d{1,2}[:.]\d{2}` alternative: hours, one separator, two digits of minutes. */
  lemma SeparatedTimeCodeDecodes(hh: string, sep: char, mm: string)
    requires 1 <= |hh| <= 2 && AllDigits(hh) && |mm| == 2 && AllDigits(mm)
    requires sep == ':' || sep == '.'
    ensures BreakdownTimeCode(Clean(hh + [sep] + mm)) == Some((Value(hh), Value(mm)))
  {
    CleanDropsSeparator(hh, sep, mm);
    BreakdownHoursThenMinutes(hh, mm);
  }

  /** Cleaning deletes the separator between the hours and the minutes and nothing else. */
  lemma CleanDropsSeparator(hh: string, sep: char, mm: string)
    requires AllDigits(hh) && AllDigits(mm)
    requires sep == ':' || sep == '.'
    ensures Clean(hh + [sep] + mm) == hh + mm
  {
    CleanIdentity(hh);
    CleanIdentity(mm);
    assert Clean([sep]) == [] by {
      assert [sep][..0] == [];
    }
    CleanAppend(hh, [sep]);
    CleanAppend(hh + [sep], mm);
  }

  /** One or two digits of hours followed by two digits of minutes break down into exactly those. */
  lemma BreakdownHoursThenMinutes(hh: string, mm: string)
    requires 1 <= |hh| <= 2 && AllDigits(hh) && |mm| == 2 && AllDigits(mm)
    ensures BreakdownTimeCode(hh + mm) == Some((Value(hh), Value(mm)))
  {
    ValueAppend(hh, mm);
    assert Pow10(|mm|) == 100;
    var r := BreakdownTimeCode(hh + mm);
    SplitUnique(r.value.0, r.value.1, Value(hh), Value(mm));
  }
}
