/**
 * The elapsed-time text of the upload pipeline (data_processing.py:74-76) and
 * its parser (data_processing.py:103).
 *
 * The extractor subtracts the latest upload time from `now`, prints the whole
 * Timedelta column with `astype(str)` and keeps the first `\d+:\d+:\d+` match
 * of each value. pandas prints a column in its long form ("D days
 * HH:MM:SS[.ffffff]", negative values as "-1 days +23:50:00") unless every
 * value is a whole number of days; then it prints the short form "D days",
 * which has no match, and the value is missing. In the long form the match is
 * the time-of-day part: the day count and the fraction of a second are
 * dropped. The reconciler reads that text back with `to_timedelta`.
 */
module Duration {
  import opened Outcomes
  import opened Text

  /** Timestamps and durations are integer microseconds. */
  const MicrosPerSecond: nat := 1_000_000
  const SecondsPerDay: nat := 86_400
  const MicrosPerDay: nat := 86_400_000_000

  /** Whole seconds of an elapsed time (rounded down), reduced to one day: the time of day its text shows. */
  function ClockSeconds(elapsed: int): (s: nat)
    ensures s < SecondsPerDay
  {
    (elapsed / MicrosPerSecond) % SecondsPerDay
  }

  /** An elapsed time that is a whole number of days. */
  predicate WholeDays(elapsed: int)
  {
    elapsed % MicrosPerDay == 0
  }

  /** The components pandas prints for a Timedelta: a day count rounded down, then the rest of the day. */
  datatype TimedeltaParts = TimedeltaParts(days: int, clockSeconds: nat, micros: nat)

  function Parts(elapsed: int): TimedeltaParts
  {
    var days := elapsed / 86_400_000_000;
    var rest := elapsed - days * 86_400_000_000;
    TimedeltaParts(days, rest / 1_000_000, rest % 1_000_000)
  }

  /** The parts are in range and add up to the elapsed time. */
  lemma PartsSpec(elapsed: int)
    ensures var p := Parts(elapsed);
      && p.clockSeconds < SecondsPerDay && p.micros < MicrosPerSecond
      && elapsed == (p.days * SecondsPerDay + p.clockSeconds) * MicrosPerSecond + p.micros
  {
  }

  /** Two digits, zero-padded, as in the `HH`, `MM` and `SS` fields. */
  function Pad2(n: nat): (t: string)
    requires n < 100
    ensures |t| == 2 && AllDigits(t) && DigitsValue(t) == n
  {
    var t := [DigitChar(n / 10), DigitChar(n % 10)];
    assert t[..1][..0] == [];
    assert DigitsValue(t[..1]) == DigitValue(t[0]);
    assert DigitsValue(t) == 10 * DigitsValue(t[..1]) + DigitValue(t[1]);
    t
  }

  /** Hours, minutes and seconds of a time of day given in seconds, two digits each. */
  function ClockFieldsOf(s: nat): Fields
    requires s < SecondsPerDay
  {
    var minutes := s / 60;
    Fields(Pad2(minutes / 60), Pad2(minutes % 60), Pad2(s % 60))
  }

  /** `HH:MM:SS` text of a time of day given in seconds. */
  function ClockText(s: nat): string
    requires s < SecondsPerDay
  {
    ClockFieldsOf(s).Text()
  }

  /** The `HH:MM:SS` match in the long form of an elapsed time (data_processing.py:74-76). */
  function FormatElapsed(elapsed: int): string
  {
    var p := Parts(elapsed);
    PartsSpec(elapsed);
    ClockText(p.clockSeconds)
  }

  /**
   * The Time Difference kept for one value of the column: its `HH:MM:SS` match,
   * or nothing (a missing value) when the column is printed in the short form.
   */
  function ExtractClock(elapsed: int, shortForm: bool): Option<string>
  {
    if shortForm then None else Some(FormatElapsed(elapsed))
  }

  /**
   * The kept Time Difference is missing exactly in the short form; otherwise it
   * reads back as the whole seconds of the elapsed time modulo one day.
   */
  lemma ExtractClockParses(elapsed: int, shortForm: bool)
    ensures ExtractClock(elapsed, shortForm).None? <==> shortForm
    ensures ExtractClock(elapsed, shortForm).Some? ==>
      ParseClock(ExtractClock(elapsed, shortForm).value) == Ok(ClockSeconds(elapsed))
  {
    FormatElapsedParses(elapsed);
  }

  /** A leading non-empty run of digits followed by ':', and what comes after the ':'. */
  function SplitField(t: string): (r: Option<(string, string)>)
    ensures r.Some? ==> |r.value.0| > 0 && AllDigits(r.value.0) && t == r.value.0 + ":" + r.value.1
  {
    var n := DigitRunLength(t);
    if n == 0 || n == |t| || t[n] != ':' then None
    else
      assert t == t[..n] + ":" + t[n + 1..];
      Some((t[..n], t[n + 1..]))
  }

  lemma SplitFieldJoin(field: string, rest: string)
    requires |field| > 0 && AllDigits(field)
    ensures SplitField(field + ":" + rest) == Some((field, rest))
  {
    var t := field + ":" + rest;
    assert t == field + (":" + rest);
    DigitRunLengthOf(field, ":" + rest);
    assert t[..|field|] == field;
    assert t[|field| + 1..] == rest;
  }

  /** The three digit fields of `hh:mm:ss` text. */
  datatype Fields = Fields(hours: string, minutes: string, seconds: string)
  {
    predicate Valid()
    {
      && |hours| > 0 && |minutes| > 0 && |seconds| > 0
      && AllDigits(hours) && AllDigits(minutes) && AllDigits(seconds)
    }

    function Text(): string
    {
      hours + ":" + minutes + ":" + seconds
    }

    /** Total number of seconds the fields denote. */
    function Seconds(): nat
      requires Valid()
    {
      DigitsValue(hours) * 3600 + DigitsValue(minutes) * 60 + DigitsValue(seconds)
    }
  }

  /** Splits `h:m:s` into its three fields; each must be a non-empty run of digits. */
  function ClockFields(t: string): (r: Option<Fields>)
    ensures r.Some? ==> r.value.Valid() && t == r.value.Text()
  {
    match SplitField(t)
    case None => None
    case Some((h, rest)) =>
      match SplitField(rest)
      case None => None
      case Some((m, s)) =>
        if s != [] && AllDigits(s) then
          assert t == h + ":" + m + ":" + s by {
            assert t == h + ":" + (m + ":" + s);
          }
          Some(Fields(h, m, s))
        else None
  }

  /**
   * `pd.to_timedelta` on `hh:mm:ss` text, in whole seconds (data_processing.py:103).
   * Fields are not range-checked, as in pandas.
   */
  function ParseClock(t: string): Result<nat>
  {
    var fields := ClockFields(t);
    if fields.None? then Err(BadDuration) else Ok(fields.value.Seconds())
  }

  /** Joining three digit fields with ':' and splitting again gives the fields back. */
  lemma ClockFieldsJoin(f: Fields)
    requires f.Valid()
    ensures ClockFields(f.Text()) == Some(f)
  {
    var rest := f.minutes + ":" + f.seconds;
    assert f.Text() == f.hours + ":" + rest;
    SplitFieldJoin(f.hours, rest);
    SplitFieldJoin(f.minutes, f.seconds);
  }

  /** Text is read back as the sum of its hours, minutes and seconds. */
  lemma ParseClockOfFields(f: Fields)
    requires f.Valid()
    ensures ParseClock(f.Text()) == Ok(f.Seconds())
  {
    ClockFieldsJoin(f);
  }

  /** Round trip: for a time of day, format-then-parse returns the same number of seconds. */
  lemma ClockRoundTrip(s: nat)
    requires s < SecondsPerDay
    ensures ParseClock(ClockText(s)) == Ok(s)
  {
    ParseClockOfFields(ClockFieldsOf(s));
    ClockFieldsSeconds(s);
  }

  lemma ClockFieldsSeconds(s: nat)
    requires s < SecondsPerDay
    ensures ClockFieldsOf(s).Valid() && ClockFieldsOf(s).Seconds() == s
  {
    var minutes := s / 60;
    assert minutes * 60 + s % 60 == s;
    assert (minutes / 60) * 3600 + (minutes % 60) * 60 == minutes * 60;
  }

  /**
   * The text keeps exactly the whole seconds of the elapsed time modulo one day
   * (rounded down, so a negative elapsed time wraps to the previous day).
   */
  lemma FormatElapsedParses(elapsed: int)
    ensures ParseClock(FormatElapsed(elapsed)) == Ok(ClockSeconds(elapsed))
  {
    PartsSpec(elapsed);
    ClockRoundTrip(Parts(elapsed).clockSeconds);
    ClockSecondsOfParts(elapsed);
  }

  lemma ClockSecondsOfParts(elapsed: int)
    ensures Parts(elapsed).clockSeconds == ClockSeconds(elapsed)
  {
    var p := Parts(elapsed);
    PartsSpec(elapsed);
    var q := p.days * 86_400 + p.clockSeconds;
    assert elapsed == q * 1_000_000 + p.micros;
    assert elapsed / 1_000_000 == q;
    assert q % 86_400 == p.clockSeconds;
  }

  /** Two elapsed times a whole number of days apart print the same text. */
  lemma FormatElapsedDropsDays(elapsed: int, days: int)
    ensures FormatElapsed(elapsed + days * SecondsPerDay * MicrosPerSecond) == FormatElapsed(elapsed)
  {
    var p := Parts(elapsed);
    var p' := Parts(elapsed + days * SecondsPerDay * MicrosPerSecond);
    PartsSpec(elapsed);
    PartsSpec(elapsed + days * SecondsPerDay * MicrosPerSecond);
    assert elapsed + days * SecondsPerDay * MicrosPerSecond
        == ((p.days + days) * SecondsPerDay + p.clockSeconds) * MicrosPerSecond + p.micros;
    PartsUnique(elapsed + days * SecondsPerDay * MicrosPerSecond, p', TimedeltaParts(p.days + days, p.clockSeconds, p.micros));
  }

  lemma PartsUnique(elapsed: int, p: TimedeltaParts, p': TimedeltaParts)
    requires p.clockSeconds < SecondsPerDay && p.micros < MicrosPerSecond
    requires p'.clockSeconds < SecondsPerDay && p'.micros < MicrosPerSecond
    requires elapsed == (p.days * SecondsPerDay + p.clockSeconds) * MicrosPerSecond + p.micros
    requires elapsed == (p'.days * SecondsPerDay + p'.clockSeconds) * MicrosPerSecond + p'.micros
    ensures p == p'
  {
    var a := p.days * SecondsPerDay + p.clockSeconds;
    var a' := p'.days * SecondsPerDay + p'.clockSeconds;
    assert a == a';
  }
}
