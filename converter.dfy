/**
 * DateTimeOffsetConverter.Write: a DateTimeOffset goes on the wire as its own
 * wall-clock time in the fixed layout yyyy-MM-ddTHH:mm:ss, with no offset and
 * no fraction of a second.
 */
module DateTimeOffsetConverter {

  import opened Wrappers
  import opened DateTimes
  import opened Formatting

  predicate ValidFields(f: ClockFields) {
    1 <= f.year <= 9999 && 1 <= f.month <= 12 && 1 <= f.day <= DaysInMonth(f.year, f.month)
    && 0 <= f.hour < 24 && 0 <= f.minute < 60 && 0 <= f.second < 60 && 0 <= f.millisecond < 1000
  }

  /** The custom format "yyyy'-'MM'-'dd'T'HH':'mm':'ss" applied to clock fields. */
  function Format(f: ClockFields): string
    requires ValidFields(f)
  {
    Pad(f.year, 4) + "-" + Pad(f.month, 2) + "-" + Pad(f.day, 2) + "T"
    + Pad(f.hour, 2) + ":" + Pad(f.minute, 2) + ":" + Pad(f.second, 2)
  }

  /** Where each field sits in the 19 characters of the layout. */
  lemma FormatLayout(f: ClockFields)
    requires ValidFields(f)
    ensures var s := Format(f);
      && |s| == 19
      && s[0..4] == Pad(f.year, 4) && s[4] == '-' && s[5..7] == Pad(f.month, 2) && s[7] == '-'
      && s[8..10] == Pad(f.day, 2) && s[10] == 'T' && s[11..13] == Pad(f.hour, 2) && s[13] == ':'
      && s[14..16] == Pad(f.minute, 2) && s[16] == ':' && s[17..19] == Pad(f.second, 2)
  {
  }

  /** Is `i` one of the positions of the layout that hold a digit? */
  predicate DigitPosition(i: int) {
    0 <= i < 19 && i != 4 && i != 7 && i != 10 && i != 13 && i != 16
  }

  /** The text Write hands to the JSON writer. */
  function Write(value: DateTimeOffset): (s: string)
    requires ValidDateTimeOffset(value)
    ensures |s| == 19
    ensures s[4] == '-' && s[7] == '-' && s[10] == 'T' && s[13] == ':' && s[16] == ':'
    ensures forall i :: DigitPosition(i) ==> IsDigit(s[i])
    ensures s == Format(FieldsOf(value.clockTicks))
  {
    var f := FieldsOf(value.clockTicks);
    FormatLayout(f);
    var s := Format(f);
    assert forall i :: DigitPosition(i) ==> IsDigit(s[i]) by {
      forall i | DigitPosition(i) ensures IsDigit(s[i]) {
        if i < 4 { assert s[i] == s[0..4][i]; }
        else if i < 7 { assert s[i] == s[5..7][i - 5]; }
        else if i < 10 { assert s[i] == s[8..10][i - 8]; }
        else if i < 13 { assert s[i] == s[11..13][i - 11]; }
        else if i < 16 { assert s[i] == s[14..16][i - 14]; }
        else { assert s[i] == s[17..19][i - 17]; }
      }
    }
    s
  }

  /**
   * Reads text in the same fixed layout back into clock fields (the
   * millisecond is 0); None for text that does not follow the layout or names
   * no valid date and time.
   */
  function Parse(s: string): (r: Option<ClockFields>)
    ensures r.Some? ==> ValidFields(r.value) && r.value.millisecond == 0
  {
    if |s| == 19 && s[4] == '-' && s[7] == '-' && s[10] == 'T' && s[13] == ':' && s[16] == ':'
       && AllDigits(s[0..4]) && AllDigits(s[5..7]) && AllDigits(s[8..10])
       && AllDigits(s[11..13]) && AllDigits(s[14..16]) && AllDigits(s[17..19])
    then
      var f := ClockFields(DigitsValue(s[0..4]), DigitsValue(s[5..7]), DigitsValue(s[8..10]),
                           DigitsValue(s[11..13]), DigitsValue(s[14..16]), DigitsValue(s[17..19]), 0);
      if ValidFields(f) then Some(f) else None
    else None
  }

  /** Parsing what was formatted recovers every field down to the second. */
  lemma ParseFormat(f: ClockFields)
    requires ValidFields(f)
    ensures Parse(Format(f)) == Some(f.(millisecond := 0))
  {
    FormatLayout(f);
    PadRoundTrip(f.year, 4);
    PadRoundTrip(f.month, 2);
    PadRoundTrip(f.day, 2);
    PadRoundTrip(f.hour, 2);
    PadRoundTrip(f.minute, 2);
    PadRoundTrip(f.second, 2);
  }

  /** A 19-character text is the concatenation of its fields and separators. */
  lemma Split19(s: string)
    requires |s| == 19
    ensures s == s[0..4] + [s[4]] + s[5..7] + [s[7]] + s[8..10] + [s[10]]
                 + s[11..13] + [s[13]] + s[14..16] + [s[16]] + s[17..19]
  {
  }

  /** Every text Parse accepts is exactly the rendering of what it parsed to. */
  lemma FormatParse(s: string)
    requires Parse(s).Some?
    ensures Format(Parse(s).value) == s
  {
    DigitsRoundTrip(s[0..4]);
    DigitsRoundTrip(s[5..7]);
    DigitsRoundTrip(s[8..10]);
    DigitsRoundTrip(s[11..13]);
    DigitsRoundTrip(s[14..16]);
    DigitsRoundTrip(s[17..19]);
    Split19(s);
  }

  /** Write followed by Parse gives back the value's own clock fields, whatever its offset. */
  lemma ParseWrite(value: DateTimeOffset)
    requires ValidDateTimeOffset(value)
    ensures Parse(Write(value)) == Some(FieldsOf(value.clockTicks).(millisecond := 0))
  {
    ParseFormat(FieldsOf(value.clockTicks));
  }

  /** The day, hour, minute and second of a clock, computed from its whole seconds `q` alone. */
  lemma FieldsFromSeconds(a: int)
    requires a >= 0
    ensures var q := a / TicksPerSecond;
      && a / TicksPerDay == q / 86400
      && a / TicksPerHour == q / 3600
      && a / TicksPerMinute == q / 60
  {
    assert TicksPerDay == TicksPerSecond * 86400 && TicksPerHour == TicksPerSecond * 3600;
    assert TicksPerMinute == TicksPerSecond * 60;
    DivDiv(a, TicksPerSecond, 86400);
    DivDiv(a, TicksPerSecond, 3600);
    DivDiv(a, TicksPerSecond, 60);
  }

  /** Clocks that agree down to the whole second have the same calendar and clock fields, but the millisecond. */
  lemma SameSecondSameFields(a: int, b: int)
    requires ValidTicks(a) && ValidTicks(b)
    requires a / TicksPerSecond == b / TicksPerSecond
    ensures FieldsOf(a).(millisecond := 0) == FieldsOf(b).(millisecond := 0)
  {
    FieldsFromSeconds(a);
    FieldsFromSeconds(b);
  }

  /** The whole seconds of a clock, read off its fields. */
  lemma SecondsOfFields(ticks: int)
    requires ValidTicks(ticks)
    ensures var f := FieldsOf(ticks);
      ticks / TicksPerSecond
      == DayNumber(Date(f.year, f.month, f.day)) * 86400 + f.hour * 3600 + f.minute * 60 + f.second
  {
    var f := FieldsOf(ticks);
    FieldsRecompose(ticks);
    var secs := DayNumber(Date(f.year, f.month, f.day)) * 86400 + f.hour * 3600 + f.minute * 60 + f.second;
    var below := f.millisecond * TicksPerMillisecond + ticks % TicksPerMillisecond;
    assert ticks == secs * TicksPerSecond + below;
    DivModUnique(ticks, TicksPerSecond, secs, below);
  }

  /**
   * Two values are written as the same text exactly when their wall clocks
   * agree down to the whole second: neither the offset nor the fraction of a
   * second reaches the wire, and everything else does.
   */
  lemma WriteSameIff(v: DateTimeOffset, w: DateTimeOffset)
    requires ValidDateTimeOffset(v) && ValidDateTimeOffset(w)
    ensures Write(v) == Write(w) <==> v.clockTicks / TicksPerSecond == w.clockTicks / TicksPerSecond
  {
    if v.clockTicks / TicksPerSecond == w.clockTicks / TicksPerSecond {
      SameSecondSameFields(v.clockTicks, w.clockTicks);
    }
    if Write(v) == Write(w) {
      ParseWrite(v);
      ParseWrite(w);
      SecondsOfFields(v.clockTicks);
      SecondsOfFields(w.clockTicks);
    }
  }

  /**
   * One instant written from two different offsets gives two different
   * texts, although the slot comparer holds the two values equal.
   */
  lemma SameInstantOtherOffset(v: DateTimeOffset, w: DateTimeOffset)
    requires ValidDateTimeOffset(v) && ValidDateTimeOffset(w)
    requires UtcTicks(v) == UtcTicks(w) && v.offsetMinutes != w.offsetMinutes
    ensures Write(v) != Write(w)
  {
    var k := v.offsetMinutes - w.offsetMinutes;
    assert v.clockTicks == w.clockTicks + k * 60 * TicksPerSecond;
    DivModUnique(v.clockTicks, TicksPerSecond, w.clockTicks / TicksPerSecond + k * 60, w.clockTicks % TicksPerSecond);
    WriteSameIff(v, w);
  }
}
