/**
  The arithmetic of the health routes: the uptime of `get_api_status`
  split into hours, minutes and seconds and written as "{h}h {m}m {s}s",
  and the maximum upload size of `get_api_info` written in whole mebibytes
  followed by "MB". The clock is not modelled: the uptime is given in
  whole seconds.
*/
module Health {
  import opened Outcomes
  import opened Text
  import opened Config

  /** An uptime split into its parts. */
  datatype Uptime = Uptime(hours: nat, minutes: nat, seconds: nat)

  const SecondsPerHour: nat := 3600
  const SecondsPerMinute: nat := 60

  /** Integer division and remainder by a positive divisor are determined by the quotient-remainder equation. */
  lemma DivModUnique(a: int, d: int, q: int, r: int)
    requires d > 0 && 0 <= r < d && a == q * d + r
    ensures a / d == q && a % d == r
  {
    var q', r' := a / d, a % d;
    var k := q - q';
    assert k * d == r' - r;
    if k > 0 {
      MulAtLeast(k, d);
    } else if k < 0 {
      MulAtLeast(-k, d);
    }
  }

  /** A positive multiple of a positive number is at least that number. */
  lemma {:induction false} MulAtLeast(k: int, d: int)
    requires k >= 1 && d > 0
    ensures k * d >= d
    decreases k
  {
    if k > 1 {
      MulAtLeast(k - 1, d);
      assert k * d == (k - 1) * d + d;
    }
  }

  /** `uptime_seconds // 3600`, `(uptime_seconds % 3600) // 60` and `uptime_seconds % 60`. */
  function SplitUptime(total: nat): (u: Uptime)
    ensures u.hours * SecondsPerHour + u.minutes * SecondsPerMinute + u.seconds == total
    ensures u.minutes < 60 && u.seconds < 60
  {
    var rest := total % SecondsPerHour;
    DivModUnique(rest, SecondsPerMinute, rest / SecondsPerMinute, rest % SecondsPerMinute);
    DivModUnique(total, SecondsPerMinute, (total / SecondsPerHour) * 60 + rest / SecondsPerMinute, rest % SecondsPerMinute);
    Uptime(total / SecondsPerHour, rest / SecondsPerMinute, total % SecondsPerMinute)
  }

  /** There is only one way to split a number of seconds with minutes and seconds below 60. */
  lemma SplitUptimeUnique(total: nat, u: Uptime)
    requires u.hours * SecondsPerHour + u.minutes * SecondsPerMinute + u.seconds == total
    requires u.minutes < 60 && u.seconds < 60
    ensures SplitUptime(total) == u
  {
    DivModUnique(total, SecondsPerHour, u.hours, u.minutes * SecondsPerMinute + u.seconds);
    DivModUnique(total % SecondsPerHour, SecondsPerMinute, u.minutes, u.seconds);
    DivModUnique(total, SecondsPerMinute, u.hours * 60 + u.minutes, u.seconds);
  }

  /** `f"{hours}h {minutes}m {seconds}s"`: the text carries exactly the three parts of the split. */
  function FormatUptime(total: nat): (shown: string)
    ensures ParseUptime(shown) == Some(SplitUptime(total))
  {
    var u := SplitUptime(total);
    ParseUptimeOf(NatToString(u.hours), NatToString(u.minutes), NatToString(u.seconds));
    ParseNatToString(u.hours);
    ParseNatToString(u.minutes);
    ParseNatToString(u.seconds);
    NatToString(u.hours) + "h " + NatToString(u.minutes) + "m " + NatToString(u.seconds) + "s"
  }

  /** Reads an uptime string back into its three numbers. */
  function ParseUptime(s: string): Option<Uptime> {
    match ReadField(s, "h ")
    case None => None
    case Some((h, r1)) =>
      match ReadField(r1, "m ")
      case None => None
      case Some((m, r2)) =>
        match ReadField(r2, "s")
        case None => None
        case Some((sec, r3)) =>
          if r3 == [] then Some(Uptime(ParseDigits(h), ParseDigits(m), ParseDigits(sec))) else None
  }

  /** Reads a digit run as `str` writes it, followed by `unit`, giving the digits and what comes after the unit. */
  function ReadField(s: string, unit: string): Option<(string, string)> {
    var (d, r) := SpanDigits(s);
    if !CanonicalDigits(d) || !StartsWith(r, unit) then None else Some((d, r[|unit|..]))
  }

  /** A canonical digit run written before a unit that does not start with a digit is read back with the rest. */
  lemma ReadFieldOf(d: string, unit: string, rest: string)
    requires CanonicalDigits(d) && unit != [] && !IsDigit(unit[0])
    ensures ReadField(d + unit + rest, unit) == Some((d, rest))
  {
    var t := unit + rest;
    assert d + unit + rest == d + t;
    assert t[0] == unit[0];
    SpanDigitsOf(d, t);
    assert t[..|unit|] == unit && t[|unit|..] == rest;
  }

  /** A field that is read is a canonical digit run, the unit and the rest, in that order. */
  lemma ReadFieldOnlyOf(s: string, unit: string, d: string, rest: string)
    requires ReadField(s, unit) == Some((d, rest))
    ensures CanonicalDigits(d) && s == d + unit + rest
  {
    var r := SpanDigits(s).1;
    assert r == r[..|unit|] + r[|unit|..];
  }

  /** Three canonical digit runs written in the uptime format are read back as those three numbers. */
  lemma ParseUptimeOf(h: string, m: string, sec: string)
    requires CanonicalDigits(h) && CanonicalDigits(m) && CanonicalDigits(sec)
    ensures ParseUptime(h + "h " + m + "m " + sec + "s") == Some(Uptime(ParseDigits(h), ParseDigits(m), ParseDigits(sec)))
  {
    var r2 := sec + "s";
    var r1 := m + "m " + r2;
    assert h + "h " + m + "m " + sec + "s" == h + "h " + r1;
    ReadFieldOf(h, "h ", r1);
    ReadFieldOf(m, "m ", r2);
    assert r2 == sec + "s" + [];
    ReadFieldOf(sec, "s", []);
  }

  /** A text that reads back as an uptime is three canonical digit runs in the `{h}h {m}m {s}s` format. */
  lemma ParseUptimeFields(s: string) returns (h: string, m: string, sec: string)
    requires ParseUptime(s).Some?
    ensures CanonicalDigits(h) && CanonicalDigits(m) && CanonicalDigits(sec)
    ensures s == h + "h " + m + "m " + sec + "s"
    ensures ParseUptime(s) == Some(Uptime(ParseDigits(h), ParseDigits(m), ParseDigits(sec)))
  {
    var r1, r2, r3;
    h, r1 := ReadField(s, "h ").value.0, ReadField(s, "h ").value.1;
    m, r2 := ReadField(r1, "m ").value.0, ReadField(r1, "m ").value.1;
    sec, r3 := ReadField(r2, "s").value.0, ReadField(r2, "s").value.1;
    ReadFieldOnlyOf(s, "h ", h, r1);
    ReadFieldOnlyOf(r1, "m ", m, r2);
    ReadFieldOnlyOf(r2, "s", sec, r3);
    assert r3 == [];
    assert r2 == sec + "s";
    assert r1 == m + "m " + sec + "s";
  }

  /** The only text that reads back as an uptime is that uptime in the `{h}h {m}m {s}s` format. */
  lemma ParseUptimeOnlyOf(s: string, u: Uptime)
    requires ParseUptime(s) == Some(u)
    ensures s == NatToString(u.hours) + "h " + NatToString(u.minutes) + "m " + NatToString(u.seconds) + "s"
  {
    var h, m, sec := ParseUptimeFields(s);
    NatToStringOfDigits(h);
    NatToStringOfDigits(m);
    NatToStringOfDigits(sec);
  }

  /** So the uptime text is the one text that reads back as the split of the uptime. */
  lemma FormatUptimeUnique(total: nat, s: string)
    requires ParseUptime(s) == Some(SplitUptime(total))
    ensures s == FormatUptime(total)
  {
    ParseUptimeOnlyOf(s, SplitUptime(total));
  }

  /** `f"{settings.max_file_size // (1024*1024)}MB"`: the maximum size in mebibytes, rounded down. */
  function MaxFileSizeLabel(settings: Settings): (shown: string)
    ensures ParseSizeLabel(shown).Some?
    ensures var q := ParseSizeLabel(shown).value;
      q * MiB <= settings.maxFileSize < (q + 1) * MiB
  {
    var q := Floor(settings.maxFileSize, MiB);
    var text := IntToString(q) + "MB";
    assert text[..|text| - 2] == IntToString(q);
    IntToStringRoundTrip(q);
    text
  }

  /** Python's `//`: rounds down, also for a negative dividend. */
  function Floor(a: int, d: int): (q: int)
    requires d > 0
    ensures q * d <= a < (q + 1) * d
  {
    a / d
  }

  /** Reads a size label back into its number of mebibytes. */
  function ParseSizeLabel(shown: string): Option<int> {
    if |shown| >= 2 && shown[|shown| - 2..] == "MB" then ParseInt(shown[..|shown| - 2]) else None
  }

  /** The only text that reads back as `q` mebibytes is `str(q)` followed by "MB". */
  lemma ParseSizeLabelOnlyOf(shown: string, q: int)
    requires ParseSizeLabel(shown) == Some(q)
    ensures shown == IntToString(q) + "MB"
  {
    ParseIntOnlyOf(shown[..|shown| - 2], q);
    assert shown == shown[..|shown| - 2] + shown[|shown| - 2..];
  }

  /** So the size text is the one text that reads back as `max_file_size` in MiB rounded down. */
  lemma MaxFileSizeLabelUnique(settings: Settings, shown: string)
    requires ParseSizeLabel(shown).Some?
    requires var q := ParseSizeLabel(shown).value; q * MiB <= settings.maxFileSize < (q + 1) * MiB
    ensures shown == MaxFileSizeLabel(settings)
  {
    var q := ParseSizeLabel(shown).value;
    DivModUnique(settings.maxFileSize, MiB, q, settings.maxFileSize - q * MiB);
    ParseSizeLabelOnlyOf(shown, q);
  }

  /** With the default settings the label is "50MB". */
  lemma DefaultMaxFileSizeLabel()
    ensures MaxFileSizeLabel(Defaults) == "50MB"
  {
    assert Floor(Defaults.maxFileSize, MiB) == 50;
    assert NatToString(50) == NatToString(5) + [DigitChar(0)];
  }
}
