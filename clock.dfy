/** Clock labels: the `parseTime`/`formatTime` pair that every copy of the slot
    allocator defines, over minutes since midnight. */
module Clock {
  import opened Text

  /** `n.toString().padStart(2, '0')`: at least two digits that read back as `n`. */
  function Padded(n: nat): (s: string)
    ensures AllDigits(s) && DigitsValue(s) == n
    ensures n < 100 ==> |s| == 2
  {
    PaddedValue(n);
    PadStart2(NatToString(n))
  }

  /** `${hour.toString().padStart(2,'0')}:${minute.toString().padStart(2,'0')}`. */
  function ClockLabel(hour: nat, minute: nat): (s: string)
    ensures hour < 100 && minute < 100 ==> |s| == 5 && s[2] == ':'
  {
    Padded(hour) + ":" + Padded(minute)
  }

  /** `formatTime(minutes)`: hours and minutes of a minute count as `HH:MM`. */
  function FormatTime(minutes: nat): (s: string)
    ensures minutes < 6000 ==> |s| == 5 && s[2] == ':'
  {
    ClockLabel(minutes / 60, minutes % 60)
  }

  /** `parseTime(text)`: split on ':' and read `hours * 60 + minutes` with `Number`;
      a missing or non-numeric part makes the result `NaN`, written `None`. */
  function ParseTime(text: string): (r: Option<nat>)
    ensures r.Some? ==> AllDigits(Split(text, ':')[0])
  {
    ReadParts(Split(text, ':'))
  }

  /** The reading of the pieces of a split label: the first two, with `Number`. */
  function ReadParts(parts: seq<string>): (r: Option<nat>)
    requires |parts| >= 1
    ensures r.Some? ==> AllDigits(parts[0]) && |parts| >= 2 && AllDigits(parts[1])
  {
    var hours := NumberOf(parts[0]);
    var minutes := if |parts| >= 2 then NumberOf(parts[1]) else None;
    if hours.Some? && minutes.Some? then Some(hours.value * 60 + minutes.value) else None
  }

  /** Reading a clock label gives back the hour and minute it was built from. */
  lemma ParseClockLabel(hour: nat, minute: nat)
    ensures ParseTime(ClockLabel(hour, minute)) == Some(hour * 60 + minute)
  {
    ParseDigitPair(Padded(hour), Padded(minute));
  }

  /** Two digit strings around a colon read as `a * 60 + b`. */
  lemma ParseDigitPair(a: string, b: string)
    requires AllDigits(a) && AllDigits(b)
    ensures ParseTime(a + [':'] + b) == Some(DigitsValue(a) * 60 + DigitsValue(b))
  {
    DigitsExclude(a, ':');
    DigitsExclude(b, ':');
    SplitAround(a, ':', b);
    ParseOfParts(a + [':'] + b, a, b);
  }

  /** A text that splits into two digit strings reads as their clock value. */
  lemma ParseOfParts(text: string, a: string, b: string)
    requires Split(text, ':') == [a, b]
    requires AllDigits(a) && AllDigits(b)
    ensures ParseTime(text) == Some(DigitsValue(a) * 60 + DigitsValue(b))
  {
    ReadPair(a, b);
  }

  lemma ReadPair(a: string, b: string)
    requires AllDigits(a) && AllDigits(b)
    ensures ReadParts([a, b]) == Some(DigitsValue(a) * 60 + DigitsValue(b))
  {
  }

  /** `parseTime(formatTime(m)) == m` for every non-negative minute count. */
  lemma ParseFormatRoundTrip(m: nat)
    ensures ParseTime(FormatTime(m)) == Some(m)
  {
    ParseClockLabel(m / 60, m % 60);
  }

  /** Distinct minute counts never share a label. */
  lemma FormatTimeInjective(a: nat, b: nat)
    requires FormatTime(a) == FormatTime(b)
    ensures a == b
  {
    ParseFormatRoundTrip(a);
    ParseFormatRoundTrip(b);
  }
}
