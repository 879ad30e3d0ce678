/** Formatting a number of seconds as `HH:MM:SS`: the inverse of
    `time_to_seconds`, used to state its round trip. */
module TimeFormat {
  import opened Outcomes
  import opened ProcessVideos

  // ---------------------------------------------------------------------
  // HH:MM:SS formatting, the partner of time_to_seconds
  // ---------------------------------------------------------------------

  function DigitChar(d: nat): (c: char)
    requires d < 10
    ensures IsDigit(c) && DigitValue(c) == d
  {
    (d + '0' as nat) as char
  }

  /** `"%02d" % n` for n below 100. */
  function TwoDigits(n: nat): (s: string)
    requires n < 100
    ensures |s| == 2 && IsDecimal(s) && DecimalValue(s) == n
  {
    var s := [DigitChar(n / 10), DigitChar(n % 10)];
    assert s[..1] == [s[0]] && [s[0]][..0] == [];
    assert DecimalValue(s[..1]) == n / 10;
    s
  }

  /** Clip times are written with two-digit hours. */
  const MaxFormatted: nat := 100 * 3600

  function FormatFields(hours: nat, minutes: nat, seconds: nat): string
    requires hours < 100 && minutes < 100 && seconds < 100
  {
    TwoDigits(hours) + ":" + TwoDigits(minutes) + ":" + TwoDigits(seconds)
  }

  /** A number of seconds as `HH:MM:SS`. */
  function FormatTime(total: nat): string
    requires total < MaxFormatted
  {
    FormatFields(total / 3600, total % 3600 / 60, total % 60)
  }

  lemma DigitCharOfValue(c: char)
    requires IsDigit(c)
    ensures DigitChar(DigitValue(c)) == c
  {
  }

  lemma TwoDigitsOfValue(d: string)
    requires |d| == 2 && IsDecimal(d)
    ensures DecimalValue(d) < 100 && TwoDigits(DecimalValue(d)) == d
  {
    var hi, lo := DigitValue(d[0]), DigitValue(d[1]);
    assert d == [d[0], d[1]];
    TwoDigitValue(d[0], d[1]);
    assert (10 * hi + lo) / 10 == hi && (10 * hi + lo) % 10 == lo;
    DigitCharOfValue(d[0]);
    DigitCharOfValue(d[1]);
  }

  lemma FormatFieldsOfDigits(h: string, m: string, s: string)
    requires |h| == 2 && |m| == 2 && |s| == 2
    requires IsDecimal(h) && IsDecimal(m) && IsDecimal(s)
    ensures DecimalValue(h) < 100 && DecimalValue(m) < 100 && DecimalValue(s) < 100
    ensures FormatFields(DecimalValue(h), DecimalValue(m), DecimalValue(s)) == h + ":" + m + ":" + s
  {
    TwoDigitsOfValue(h);
    TwoDigitsOfValue(m);
    TwoDigitsOfValue(s);
  }

  /** Splits a number of seconds below `MaxFormatted` into the fields
      `FormatTime` prints. */
  lemma FormatTimeFields(total: nat) returns (hours: nat, minutes: nat, seconds: nat)
    requires total < MaxFormatted
    ensures hours < 100 && minutes < 60 && seconds < 60
    ensures total == hours * 3600 + minutes * 60 + seconds
    ensures FormatTime(total) == TwoDigits(hours) + ":" + TwoDigits(minutes) + ":" + TwoDigits(seconds)
  {
    hours, minutes, seconds := total / 3600, total % 3600 / 60, total % 60;
  }

  /** Fields in range print through `FormatTime` of the seconds they denote. */
  lemma FormatTimeOfFields(hours: nat, minutes: nat, seconds: nat, str: string) returns (total: nat)
    requires hours < 100 && minutes < 60 && seconds < 60
    requires FormatFields(hours, minutes, seconds) == str
    ensures total == hours * 3600 + minutes * 60 + seconds
    ensures total < MaxFormatted && FormatTime(total) == str
  {
    total := hours * 3600 + minutes * 60 + seconds;
    SecondsDecompose(hours, minutes, seconds);
  }

  /** The seconds a canonical `HH:MM:SS` string denotes format back to it. */
  lemma FormatTimeOfDigits(h: string, m: string, s: string) returns (total: nat)
    requires |h| == 2 && |m| == 2 && |s| == 2
    requires IsDecimal(h) && IsDecimal(m) && IsDecimal(s)
    requires DecimalValue(m) < 60 && DecimalValue(s) < 60
    ensures total == DecimalValue(h) * 3600 + DecimalValue(m) * 60 + DecimalValue(s)
    ensures total < MaxFormatted && FormatTime(total) == h + ":" + m + ":" + s
  {
    FormatFieldsOfDigits(h, m, s);
    total := FormatTimeOfFields(DecimalValue(h), DecimalValue(m), DecimalValue(s), h + ":" + m + ":" + s);
  }

  /** Formatting a number of seconds as `HH:MM:SS` and converting it back
      with `TimeToSeconds` gives the number. */
  lemma FormatTimeRoundTrip(total: nat)
    requires total < MaxFormatted
    ensures TimeToSeconds(FormatTime(total)) == Ok(total)
  {
    var h, m, s := FormatTimeFields(total);
    TimeOfFields(TwoDigits(h), TwoDigits(m), TwoDigits(s));
  }

  /** A canonical `HH:MM:SS` string parses to a number of seconds that
      formats back to it. */
  lemma ParseCanonical(h: string, m: string, s: string) returns (total: nat)
    requires |h| == 2 && |m| == 2 && |s| == 2
    requires IsDecimal(h) && IsDecimal(m) && IsDecimal(s)
    requires DecimalValue(m) < 60 && DecimalValue(s) < 60
    ensures TimeToSeconds(h + ":" + m + ":" + s) == Ok(total)
    ensures total < MaxFormatted && FormatTime(total) == h + ":" + m + ":" + s
  {
    TimeOfFields(h, m, s);
    total := FormatTimeOfDigits(h, m, s);
  }

  /** Whatever a canonical `HH:MM:SS` string (two digits per field, minutes
      and seconds below 60) converts to formats back to the same string. */
  lemma TimeFormatRoundTrip(h: string, m: string, s: string, total: nat)
    requires |h| == 2 && |m| == 2 && |s| == 2
    requires IsDecimal(h) && IsDecimal(m) && IsDecimal(s)
    requires DecimalValue(m) < 60 && DecimalValue(s) < 60
    requires TimeToSeconds(h + ":" + m + ":" + s) == Ok(total)
    ensures total < MaxFormatted && FormatTime(total) == h + ":" + m + ":" + s
  {
    var parsed := ParseCanonical(h, m, s);
    assert TimeToSeconds(h + ":" + m + ":" + s) == Ok(parsed);
  }
}
