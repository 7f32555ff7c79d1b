/** TimeSpanExtension.ToReadableString: a TimeSpan shown as "Nd, Nh, Nm, Ns"
    with zero components left out, "now" for a span whose seconds component
    is not positive and "∞" for more than a year. */
module TimeSpans {
  import opened Results

  /** A .NET TimeSpan: a signed count of 100-nanosecond ticks. */
  datatype TimeSpan = TimeSpan(ticks: int)

  const TicksPerSecond: int := 10_000_000
  const TicksPerMinute: int := 60 * TicksPerSecond
  const TicksPerHour: int := 60 * TicksPerMinute
  const TicksPerDay: int := 24 * TicksPerHour

  /** C#'s integer `/`, which truncates toward zero. */
  function Quot(a: int, b: int): (q: int)
    requires b > 0
    ensures a >= 0 ==> 0 <= q && q * b <= a < q * b + b
    ensures a <= 0 ==> q <= 0 && q * b >= a > q * b - b
  {
    if a >= 0 then a / b else -((-a) / b)
  }

  /** C#'s integer `%`, whose remainder takes the sign of the dividend. */
  function Rem(a: int, b: int): (r: int)
    requires b > 0
    ensures a == Quot(a, b) * b + r
    ensures a >= 0 ==> 0 <= r < b
    ensures a <= 0 ==> -b < r <= 0
  {
    a - Quot(a, b) * b
  }

  /** TimeSpan.Days: whole days. */
  function Days(t: TimeSpan): int { Quot(t.ticks, TicksPerDay) }

  /** TimeSpan.Hours: the hours component, in (-24, 24). */
  function Hours(t: TimeSpan): int { Rem(Quot(t.ticks, TicksPerHour), 24) }

  /** TimeSpan.Minutes: the minutes component, in (-60, 60). */
  function Minutes(t: TimeSpan): int { Rem(Quot(t.ticks, TicksPerMinute), 60) }

  /** TimeSpan.Seconds: the seconds component, in (-60, 60). */
  function Seconds(t: TimeSpan): int { Rem(Quot(t.ticks, TicksPerSecond), 60) }

  /** Whole seconds in the span, truncated toward zero. */
  function WholeSeconds(t: TimeSpan): int { Quot(t.ticks, TicksPerSecond) }

  /** For a non-negative span the four components are in range and add up to
      the span's whole seconds. */
  lemma ComponentsOfNonNegative(t: TimeSpan)
    requires t.ticks >= 0
    ensures 0 <= Days(t) && 0 <= Hours(t) < 24 && 0 <= Minutes(t) < 60 && 0 <= Seconds(t) < 60
    ensures WholeSeconds(t) == Days(t) * 86400 + Hours(t) * 3600 + Minutes(t) * 60 + Seconds(t)
  {
    var s := t.ticks / TicksPerSecond;
    var m := t.ticks / TicksPerMinute;
    var h := t.ticks / TicksPerHour;
    var d := t.ticks / TicksPerDay;
    assert m == s / 60;
    assert h == m / 60;
    assert d == h / 24;
    assert s == m * 60 + Seconds(t);
    assert m == h * 60 + Minutes(t);
    assert h == d * 24 + Hours(t);
  }

  /** A span that is not positive has no positive component. */
  lemma NonPositiveComponents(t: TimeSpan)
    requires t.ticks <= 0
    ensures Days(t) <= 0 && Hours(t) <= 0 && Minutes(t) <= 0 && Seconds(t) <= 0
  {
  }

  /** The decimal digits of `n`, most significant first, with no leading zero
      ("{0:0}" of a non-negative int). */
  function Digits(n: nat): (s: string)
    ensures |s| >= 1 && AllDigits(s)
    decreases n
  {
    if n < 10 then [DigitChar(n)] else Digits(n / 10) + [DigitChar(n % 10)]
  }

  function DigitChar(d: nat): (c: char)
    requires d < 10
    ensures IsDigit(c) && DigitValue(c) == d
  {
    (48 + d) as char
  }

  predicate IsDigit(c: char) { '0' <= c <= '9' }

  function DigitValue(c: char): (d: nat)
    requires IsDigit(c)
    ensures d < 10
  {
    (c as int) - 48
  }

  predicate AllDigits(s: string) { forall i :: 0 <= i < |s| ==> IsDigit(s[i]) }

  /** The number a string of decimal digits denotes. */
  function ParseDigits(s: string): nat
    requires AllDigits(s)
    decreases |s|
  {
    if s == [] then 0 else ParseDigits(s[..|s| - 1]) * 10 + DigitValue(s[|s| - 1])
  }

  /** Reading back the digits of `n` gives `n`. */
  lemma {:induction false} DigitsRoundTrip(n: nat)
    ensures ParseDigits(Digits(n)) == n
    decreases n
  {
    if n < 10 {
      assert Digits(n)[..0] == [];
    } else {
      var s := Digits(n);
      assert s[..|s| - 1] == Digits(n / 10);
      DigitsRoundTrip(n / 10);
    }
  }

  /** One printed component: a number and its unit letter. */
  datatype Part = Part(amount: nat, unit: char)

  predicate IsUnit(c: char) { c == 'd' || c == 'h' || c == 'm' || c == 's' }

  function Segment(p: Part): string { Digits(p.amount) + [p.unit] }

  /** The segments of `parts` separated by ", ", with none before the first
      or after the last. */
  function JoinParts(parts: seq<Part>): string
  {
    if |parts| == 0 then ""
    else if |parts| == 1 then Segment(parts[0])
    else Segment(parts[0]) + ", " + JoinParts(parts[1..])
  }

  /** The four components ToReadableString prints. */
  datatype Components = Components(days: int, hours: int, minutes: int, seconds: int)

  function ComponentsOf(t: TimeSpan): Components
  {
    Components(Days(t), Hours(t), Minutes(t), Seconds(t))
  }

  /** The positive components, largest unit first. */
  function Parts(c: Components): (parts: seq<Part>)
    ensures forall i :: 0 <= i < |parts| ==> IsUnit(parts[i].unit) && parts[i].amount > 0
  {
    (if c.days > 0 then [Part(c.days, 'd')] else [])
    + (if c.hours > 0 then [Part(c.hours, 'h')] else [])
    + (if c.minutes > 0 then [Part(c.minutes, 'm')] else [])
    + (if c.seconds > 0 then [Part(c.seconds, 's')] else [])
  }

  /** The positive components of a span. */
  function PartsOf(t: TimeSpan): seq<Part>
  {
    Parts(ComponentsOf(t))
  }

  /** One argument of the format call: "{0:0}<unit><sep>" when positive. */
  function Field(n: int, unit: char, sep: string): string
  {
    if n > 0 then Digits(n) + [unit] + sep else ""
  }

  /** The String.Format result before the trailing-", " trim. */
  function Formatted(c: Components): string
  {
    Field(c.days, 'd', ", ") + Field(c.hours, 'h', ", ")
    + Field(c.minutes, 'm', ", ") + Field(c.seconds, 's', "")
  }

  predicate EndsWith(s: string, suffix: string)
  {
    |suffix| <= |s| && s[|s| - |suffix|..] == suffix
  }

  /** The trailing-", " trim. */
  function TrimComma(s: string): string
  {
    if EndsWith(s, ", ") then s[..|s| - 2] else s
  }

  /** ToReadableString as written: the "now" guard tests the seconds
      component only. Past the two guards the text is the positive
      components joined with ", ", and it ends with the seconds. */
  function ToReadableString(t: TimeSpan): (r: string)
    ensures Seconds(t) > 0 && Days(t) <= 365 ==>
      r == JoinParts(PartsOf(t)) && r != "" && r[|r| - 1] == 's'
  {
    if Seconds(t) <= 0 then "now"
    else if Days(t) > 365 then "∞"
    else
      FormattedWithSeconds(ComponentsOf(t));
      JoinEndsWithUnit(PartsOf(t));
      TrimComma(Formatted(ComponentsOf(t)))
  }

  /** ToReadableString as evidently intended: "now" for a span shorter than
      one second, and the trim then removes the separator a zero seconds
      component leaves behind. */
  function ToReadableStringIntended(t: TimeSpan): (r: string)
    ensures WholeSeconds(t) > 0 && Days(t) <= 365 ==>
      |PartsOf(t)| >= 1 && r == JoinParts(PartsOf(t))
  {
    if WholeSeconds(t) <= 0 then "now"
    else if Days(t) > 365 then "∞"
    else
      TrimmedFormatted(t);
      TrimComma(Formatted(ComponentsOf(t)))
  }

  /** For a span of at least one second, the trimmed format is the join of
      the positive components, and there is at least one. */
  lemma TrimmedFormatted(t: TimeSpan)
    requires WholeSeconds(t) > 0
    ensures |PartsOf(t)| >= 1
    ensures TrimComma(Formatted(ComponentsOf(t))) == JoinParts(PartsOf(t))
  {
    ComponentsOfNonNegative(t);
    var parts := PartsOf(t);
    assert |parts| >= 1;
    JoinEndsWithUnit(parts);
    if Seconds(t) > 0 {
      FormattedWithSeconds(ComponentsOf(t));
    } else {
      FormattedWithoutSeconds(ComponentsOf(t));
      var j := JoinParts(parts);
      assert EndsWith(j + ", ", ", ");
      assert (j + ", ")[..|j + ", "| - 2] == j;
    }
  }

  /** Prepending a segment to a joined list. */
  lemma JoinCons(p: Part, rest: seq<Part>)
    ensures JoinParts([p] + rest) == if rest == [] then Segment(p) else Segment(p) + ", " + JoinParts(rest)
  {
    assert ([p] + rest)[1..] == rest;
  }

  /** A joined list with its last segment's separator, prepended with one more. */
  lemma JoinConsComma(p: Part, rest: seq<Part>)
    ensures Segment(p) + ", " + (if rest == [] then "" else JoinParts(rest) + ", ")
            == JoinParts([p] + rest) + ", "
  {
    JoinCons(p, rest);
  }

  /** A positive field followed by a non-empty join is one more part. */
  lemma FieldCons(n: int, unit: char, rest: seq<Part>)
    requires rest != []
    ensures JoinParts((if n > 0 then [Part(n, unit)] else []) + rest)
            == Field(n, unit, ", ") + JoinParts(rest)
  {
    if n > 0 {
      JoinCons(Part(n, unit), rest);
    } else {
      assert [] + rest == rest;
    }
  }

  /** A positive field followed by a join that carries its trailing ", ". */
  lemma FieldConsComma(n: int, unit: char, rest: seq<Part>)
    ensures var ps := (if n > 0 then [Part(n, unit)] else []) + rest;
            (if ps == [] then "" else JoinParts(ps) + ", ")
            == Field(n, unit, ", ") + (if rest == [] then "" else JoinParts(rest) + ", ")
  {
    if n > 0 {
      JoinConsComma(Part(n, unit), rest);
    } else {
      assert [] + rest == rest;
    }
  }

  /** With a positive seconds component the formatted string is exactly the
      joined parts. */
  lemma FormattedWithSeconds(c: Components)
    requires c.seconds > 0
    ensures Formatted(c) == JoinParts(Parts(c))
  {
    var s := [Part(c.seconds, 's')];
    var m := (if c.minutes > 0 then [Part(c.minutes, 'm')] else []) + s;
    var h := (if c.hours > 0 then [Part(c.hours, 'h')] else []) + m;
    var d := (if c.days > 0 then [Part(c.days, 'd')] else []) + h;
    assert Parts(c) == d;
    var fd, fh, fm, fs := Field(c.days, 'd', ", "), Field(c.hours, 'h', ", "), Field(c.minutes, 'm', ", "), Field(c.seconds, 's', "");
    assert JoinParts(s) == fs by {
      assert Digits(c.seconds) + ['s'] + "" == Digits(c.seconds) + ['s'];
    }
    FieldCons(c.minutes, 'm', s);
    FieldCons(c.hours, 'h', m);
    FieldCons(c.days, 'd', h);
    assert JoinParts(d) == fd + (fh + (fm + fs));
    Associate(fd, fh, fm, fs);
  }

  /** Concatenation of four strings, regrouped to the right. */
  lemma Associate(a: string, b: string, c: string, d: string)
    ensures a + b + c + d == a + (b + (c + d))
  {
  }

  /** With no positive seconds component the formatted string is the joined
      parts followed by ", ", or empty when there are none. */
  lemma FormattedWithoutSeconds(c: Components)
    requires c.seconds <= 0
    ensures Formatted(c) == if Parts(c) == [] then "" else JoinParts(Parts(c)) + ", "
  {
    var m := (if c.minutes > 0 then [Part(c.minutes, 'm')] else []) + [];
    var h := (if c.hours > 0 then [Part(c.hours, 'h')] else []) + m;
    var d := (if c.days > 0 then [Part(c.days, 'd')] else []) + h;
    assert Parts(c) == d;
    var fd, fh, fm := Field(c.days, 'd', ", "), Field(c.hours, 'h', ", "), Field(c.minutes, 'm', ", ");
    assert Formatted(c) == fd + fh + fm + "";
    FieldConsComma(c.minutes, 'm', []);
    FieldConsComma(c.hours, 'h', m);
    FieldConsComma(c.days, 'd', h);
    assert (if d == [] then "" else JoinParts(d) + ", ") == fd + (fh + (fm + ""));
    Associate(fd, fh, fm, "");
  }

  /** A non-empty join ends with the unit letter of its last part. */
  lemma {:induction false} JoinEndsWithUnit(parts: seq<Part>)
    requires |parts| >= 1
    ensures |JoinParts(parts)| >= 2
    ensures JoinParts(parts)[|JoinParts(parts)| - 1] == parts[|parts| - 1].unit
    decreases |parts|
  {
    if |parts| > 1 {
      JoinEndsWithUnit(parts[1..]);
    }
  }

  /** The guard "seconds component <= 0" is exactly when the result is "now";
      a span whose seconds component is positive is never shown as "now". */
  lemma NowIff(t: TimeSpan)
    ensures ToReadableString(t) == "now" <==> Seconds(t) <= 0
  {
    if Seconds(t) > 0 && Days(t) <= 365 {
      ReadableFormatted(t);
      var r := ToReadableString(t);
      assert r[|r| - 1] == 's';
    }
  }

  /** "∞" exactly when the seconds component is positive and the span exceeds
      365 days; the "now" test comes first. */
  lemma InfinityIff(t: TimeSpan)
    ensures ToReadableString(t) == "∞" <==> Seconds(t) > 0 && Days(t) > 365
  {
    if Seconds(t) > 0 && Days(t) <= 365 {
      ReadableFormatted(t);
      var r := ToReadableString(t);
      assert r[|r| - 1] == 's';
    }
  }

  /** Otherwise the result lists every positive component, largest unit
      first, separated by ", " and ending with the seconds; the trim never
      fires, so the result never ends with ", ". */
  lemma ReadableFormatted(t: TimeSpan)
    requires Seconds(t) > 0 && Days(t) <= 365
    ensures ToReadableString(t) == JoinParts(PartsOf(t)) == Formatted(ComponentsOf(t))
    ensures !EndsWith(ToReadableString(t), ", ")
    ensures |PartsOf(t)| >= 1 && PartsOf(t)[|PartsOf(t)| - 1] == Part(Seconds(t), 's')
  {
    FormattedWithSeconds(ComponentsOf(t));
    var parts := PartsOf(t);
    JoinEndsWithUnit(parts);
  }

  /** A negative span, or zero, is always "now". */
  lemma NonPositiveIsNow(t: TimeSpan)
    requires t.ticks <= 0
    ensures ToReadableString(t) == "now"
  {
    NonPositiveComponents(t);
  }

  /** Finding: exactly one hour has a zero seconds component, so it is shown
      as "now". */
  lemma OneHourIsNow()
    ensures Seconds(TimeSpan(TicksPerHour)) == 0 && Hours(TimeSpan(TicksPerHour)) == 1
    ensures ToReadableString(TimeSpan(TicksPerHour)) == "now"
  {
  }

  /** The corrected guard: "now" exactly for spans shorter than one second. */
  lemma IntendedNowIff(t: TimeSpan)
    ensures ToReadableStringIntended(t) == "now" <==> WholeSeconds(t) <= 0
  {
    if WholeSeconds(t) > 0 && Days(t) <= 365 {
      IntendedFormatted(t);
      var parts := PartsOf(t);
      var r := ToReadableStringIntended(t);
      JoinEndsWithUnit(parts);
      assert IsUnit(parts[|parts| - 1].unit);
      assert r[|r| - 1] != 'w';
    }
  }

  /** The corrected version lists every positive component with no dangling
      separator, and there is at least one. */
  lemma IntendedFormatted(t: TimeSpan)
    requires WholeSeconds(t) > 0 && Days(t) <= 365
    ensures |PartsOf(t)| >= 1
    ensures ToReadableStringIntended(t) == JoinParts(PartsOf(t))
    ensures !EndsWith(ToReadableStringIntended(t), ", ")
  {
    var parts, r := PartsOf(t), ToReadableStringIntended(t);
    JoinEndsWithUnit(parts);
    assert IsUnit(parts[|parts| - 1].unit);
    assert r[|r| - 1] != ' ';
  }

  /** The corrected version shows one hour as "1h". */
  lemma OneHourIntended()
    ensures ToReadableStringIntended(TimeSpan(TicksPerHour)) == "1h"
  {
    var t := TimeSpan(TicksPerHour);
    OneHourComponents();
    IntendedFormatted(t);
    var c := Components(0, 1, 0, 0);
    assert Parts(c) == [Part(1, 'h')];
    assert JoinParts([Part(1, 'h')]) == Digits(1) + ['h'];
    assert Digits(1) == "1";
  }

  /** One hour: no days, one hour, no minutes, no seconds; 3600 seconds in all. */
  lemma OneHourComponents()
    ensures ComponentsOf(TimeSpan(TicksPerHour)) == Components(0, 1, 0, 0)
    ensures WholeSeconds(TimeSpan(TicksPerHour)) == 3600
  {
    var t := TimeSpan(TicksPerHour);
    assert Days(t) == 0 && Hours(t) == 1 && Minutes(t) == 0 && Seconds(t) == 0;
  }

  /** The number of leading decimal digits of `s`. */
  function LeadingDigits(s: string): (k: nat)
    ensures k <= |s| && AllDigits(s[..k]) && (k < |s| ==> !IsDigit(s[k]))
  {
    if s == [] || !IsDigit(s[0]) then 0
    else
      var k := 1 + LeadingDigits(s[1..]);
      assert s[..k] == [s[0]] + s[1..][..k - 1];
      k
  }

  /** Reads back a readable string: segments of digits and a unit letter,
      separated by ", ". */
  function ParseParts(s: string): Result<seq<Part>>
    decreases |s|
  {
    if s == [] then Ok([])
    else
      var k := LeadingDigits(s);
      if k == 0 || k == |s| then Err(Argument)
      else
        var p := Part(ParseDigits(s[..k]), s[k]);
        var rest := s[k + 1..];
        if rest == [] then Ok([p])
        else if |rest| >= 2 && rest[..2] == ", " then
          match ParseParts(rest[2..])
          case Ok(ps) => Ok([p] + ps)
          case Err(e) => Err(e)
        else Err(Argument)
  }

  /** The digits of a segment end where its unit letter starts. */
  lemma {:induction false} LeadingDigitsOfSegment(d: string, c: char, rest: string)
    requires AllDigits(d) && !IsDigit(c)
    ensures LeadingDigits(d + [c] + rest) == |d|
    decreases |d|
  {
    if d != [] {
      assert (d + [c] + rest)[1..] == d[1..] + [c] + rest;
      LeadingDigitsOfSegment(d[1..], c, rest);
    }
  }

  /** Reading back a list of parts with unit letters gives the list. */
  lemma {:induction false} ParseJoinRoundTrip(parts: seq<Part>)
    requires forall i :: 0 <= i < |parts| ==> IsUnit(parts[i].unit)
    ensures ParseParts(JoinParts(parts)) == Ok(parts)
    decreases |parts|
  {
    if |parts| > 0 {
      var p := parts[0];
      var d := Digits(p.amount);
      var tail := if |parts| == 1 then "" else ", " + JoinParts(parts[1..]);
      var s := d + [p.unit] + tail;
      assert JoinParts(parts) == s;
      LeadingDigitsOfSegment(d, p.unit, tail);
      assert s[..|d|] == d;
      DigitsRoundTrip(p.amount);
      assert s[|d|] == p.unit;
      assert s[|d| + 1..] == tail;
      if |parts| > 1 {
        assert tail[..2] == ", ";
        assert tail[2..] == JoinParts(parts[1..]);
        ParseJoinRoundTrip(parts[1..]);
        var rest := s[|d| + 1..];
        assert rest[..2] == ", " && rest[2..] == JoinParts(parts[1..]);
        assert ParseParts(s) == Ok([p] + parts[1..]);
        assert [p] + parts[1..] == parts;
      } else {
        assert s[|d| + 1..] == [];
        assert ParseParts(s) == Ok([p]);
        assert parts == [p];
      }
    }
  }

  /** The readable string determines the components it shows: reading it
      back gives the positive components with their units. */
  lemma ReadableRoundTrip(t: TimeSpan)
    requires Seconds(t) > 0 && Days(t) <= 365
    ensures ParseParts(ToReadableString(t)) == Ok(PartsOf(t))
  {
    ReadableFormatted(t);
    ParseJoinRoundTrip(PartsOf(t));
  }

  /** The same holds for the corrected version. */
  lemma IntendedRoundTrip(t: TimeSpan)
    requires WholeSeconds(t) > 0 && Days(t) <= 365
    ensures ParseParts(ToReadableStringIntended(t)) == Ok(PartsOf(t))
  {
    IntendedFormatted(t);
    ParseJoinRoundTrip(PartsOf(t));
  }
}
