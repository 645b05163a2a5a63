/** The human-readable game length: whole seconds as `"Mm Ss"`, or as
    `"Hh Mm Ss"` from an hour on. */
module Duration {
  import opened Cursor
  import opened Numerals

  /** `"%sm %ss" % (minutes, seconds)` */
  function MinutesSeconds(minutes: nat, seconds: nat): string {
    Decimal(minutes) + ("m " + (Decimal(seconds) + "s"))
  }

  /** `get_duration`: `divmod` by 60 into minutes and seconds and, when there
      are 60 minutes or more, `divmod` of the minutes by 60 into hours and
      minutes, which are then printed first. */
  function FormatDuration(seconds: nat): string {
    var minutes, secs := seconds / 60, seconds % 60;
    if minutes >= 60 then
      var hours, mins := minutes / 60, minutes % 60;
      Decimal(hours) + ("h " + MinutesSeconds(mins, secs))
    else
      MinutesSeconds(minutes, secs)
  }

  /** The rendering in closed form: under an hour it is whole minutes and
      leftover seconds; from an hour on it is hours, minutes within the hour and
      seconds within the minute. No field is padded and the minutes and seconds
      printed after an hour are always below 60. */
  lemma DurationFields(n: nat)
    ensures n < 3600 ==> FormatDuration(n) == Decimal(n / 60) + "m " + Decimal(n % 60) + "s"
    ensures n >= 3600 ==>
      FormatDuration(n) == Decimal(n / 3600) + "h " + Decimal((n / 60) % 60) + "m " + Decimal(n % 60) + "s"
    ensures n % 60 < 60 && (n / 60) % 60 < 60
  {
    if n >= 3600 {
      assert n / 60 / 60 == n / 3600;
      var a, b := Decimal(n / 3600) + "h ", MinutesSeconds((n / 60) % 60, n % 60);
      assert a + b == Decimal(n / 3600) + "h " + Decimal((n / 60) % 60) + "m " + Decimal(n % 60) + "s";
    }
  }

  /** Reads a number followed by the unit text `unit`. */
  function ReadUnit(s: string, unit: string): Option<(nat, string)> {
    var n :- ReadNumber(s);
    if unit <= n.1 then Some((n.0, n.1[|unit|..])) else None
  }

  /** Reads `"Mm Ss"` back into seconds. */
  function ParseMinutes(s: string): Option<nat> {
    var m :- ReadUnit(s, "m ");
    var sec :- ReadUnit(m.1, "s");
    if sec.1 == "" then Some(m.0 * 60 + sec.0) else None
  }

  /** Reads a game length back into seconds: `"Mm Ss"`, or `"Hh "` followed
      by that. */
  function ParseDuration(s: string): Option<nat> {
    var first :- ReadNumber(s);
    if |first.1| >= 2 && first.1[0] == 'h' && first.1[1] == ' ' then
      var rest :- ParseMinutes(first.1[2..]);
      Some(first.0 * 3600 + rest)
    else
      ParseMinutes(s)
  }

  /** A number followed by `unit` and more text reads back as the number and
      the text after the unit. */
  lemma ReadUnitOf(n: nat, unit: string, rest: string)
    requires |unit| > 0 && !IsDigit(unit[0], Ten)
    ensures ReadUnit(Decimal(n) + (unit + rest), unit) == Some((n, rest))
  {
    ReadDecimal(n, unit + rest);
    assert (unit + rest)[|unit|..] == rest;
  }

  /** `"Mm Ss"` reads back as `m` minutes and `s` seconds. */
  lemma ReadMinutesSeconds(m: nat, s: nat)
    ensures ParseMinutes(MinutesSeconds(m, s)) == Some(m * 60 + s)
  {
    ReadUnitOf(m, "m ", Decimal(s) + "s");
    ReadUnitOf(s, "s", "");
    assert "s" + "" == "s";
  }

  /** A rendering under an hour reads back as its minutes and seconds. */
  lemma ParseShort(m: nat, s: nat)
    ensures ParseDuration(MinutesSeconds(m, s)) == Some(m * 60 + s)
  {
    var text := MinutesSeconds(m, s);
    ReadMinutesSeconds(m, s);
    assert text == Decimal(m) + ("m " + Decimal(s) + "s");
    ReadDecimal(m, "m " + Decimal(s) + "s");
    assert ("m " + Decimal(s) + "s")[0] == 'm';
  }

  /** Hours, then text that reads back as `rest` seconds, read back as the
      hours in seconds plus `rest`. */
  lemma ParseHours(h: nat, text: string, rest: nat, total: nat)
    requires ParseMinutes(text) == Some(rest) && total == h * 3600 + rest
    ensures ParseDuration(Decimal(h) + ("h " + text)) == Some(total)
  {
    var tail := "h " + text;
    ReadDecimal(h, tail);
    assert tail[2..] == text;
  }

  /** A game length is its hours, minutes within the hour and seconds within
      the minute, as `get_duration` splits it. */
  lemma HoursMinutesSeconds(n: nat)
    ensures n / 60 >= 60 ==> n == (n / 60 / 60) * 3600 + (n / 60 % 60) * 60 + n % 60
    ensures n / 60 < 60 ==> n == (n / 60) * 60 + n % 60
  {
  }

  /** A rendering from an hour on reads back as its hours, minutes and seconds. */
  lemma ParseLong(h: nat, m: nat, s: nat)
    ensures ParseDuration(Decimal(h) + ("h " + MinutesSeconds(m, s))) == Some(h * 3600 + m * 60 + s)
  {
    ReadMinutesSeconds(m, s);
    ParseHours(h, MinutesSeconds(m, s), m * 60 + s, h * 3600 + m * 60 + s);
  }

  /** Round trip from an hour on. */
  lemma RoundTripLong(n: nat)
    requires n / 60 >= 60
    ensures ParseDuration(FormatDuration(n)) == Some(n)
  {
    HoursMinutesSeconds(n);
    ParseLong(n / 60 / 60, n / 60 % 60, n % 60);
  }

  /** Round trip under an hour. */
  lemma RoundTripShort(n: nat)
    requires n / 60 < 60
    ensures ParseDuration(FormatDuration(n)) == Some(n)
  {
    HoursMinutesSeconds(n);
    ParseShort(n / 60, n % 60);
  }

  /** Round trip: the rendering of any game length reads back as that length. */
  lemma DurationRoundTrip(n: nat)
    ensures ParseDuration(FormatDuration(n)) == Some(n)
  {
    if n / 60 >= 60 {
      RoundTripLong(n);
    } else {
      RoundTripShort(n);
    }
  }

  /** Durations of the reference replay and of just over an hour. */
  lemma DurationExamples()
    ensures FormatDuration(1577) == "26m 17s"
    ensures FormatDuration(3661) == "1h 1m 1s"
    ensures FormatDuration(59) == "0m 59s"
  {
    assert Decimal(26) == "26" && Decimal(17) == "17" && Decimal(59) == "59";
  }
}
