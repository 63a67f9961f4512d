// xs:gDay: a day of the month with an optional timezone, parsed from and
// printed as "---DD" followed by the timezone.

module GDay {
  import opened Base

  /** The timezone, a dayTimeDuration; its parser and printer are outside this
    * model and come in as parameters. */
  datatype Timezone = Timezone(offset: int)

  /** A gDay value: the day (a Java byte) and the timezone (None is null). */
  datatype GDay = GDay(day: int, timezone: Option<Timezone>)

  /** Whitespace.collapseTrimOnly. */
  type Collapse = string -> string

  /** parseTimezone(str, chars, pos, length): the timezone starting at pos. */
  type TimezoneParser = (string, nat) -> Result<Timezone>

  /** timezoneString(): the printed timezone. */
  type TimezonePrinter = Option<Timezone> -> string

  predicate IsDigit(c: char)
  {
    '0' <= c <= '9'
  }

  function DigitValue(c: char): int
  {
    c as int - '0' as int
  }

  /** The end of the run of ASCII digits that starts at i. */
  function DigitRunEnd(s: string, i: nat): (r: nat)
    requires i <= |s|
    ensures i <= r <= |s|
    ensures forall k :: i <= k < r ==> IsDigit(s[k])
    ensures r == |s| || !IsDigit(s[r])
    decreases |s| - i
  {
    if i < |s| && IsDigit(s[i]) then DigitRunEnd(s, i + 1) else i
  }

  /** The parsing constructor on the collapsed string: "---", exactly two
    * digits making a day in 1..31, then an optional timezone. */
  function ParseGDay(s: string, parseTz: TimezoneParser): Result<GDay>
  {
    if |s| <= 2 || s[0] != '-' || s[1] != '-' || s[2] != '-' then Err(ErrInvalidValueForCast)
    else
      var end := DigitRunEnd(s, 3);
      var v := if end - 3 == 2 then 10 * DigitValue(s[3]) + DigitValue(s[4]) else -1;
      if v < 1 || v > 31 then Err(ErrInvalidValueForCast)
      else if end < |s| then
        match parseTz(s, end)
        case Err(e) => Err(e)
        case Ok(tz) => Ok(GDay(v, Some(tz)))
      else Ok(GDay(v, None))
  }

  /** GDay(String): the string is collapsed, then read with a cursor. */
  method Parse(str: string, collapse: Collapse, parseTz: TimezoneParser) returns (r: Result<GDay>)
    ensures r == ParseGDay(collapse(str), parseTz)
  {
    var s := collapse(str);
    var length := |s|;
    var pos := 0;
    if pos + 2 >= length || s[0] != '-' || s[1] != '-' || s[2] != '-' {
      return Err(ErrInvalidValueForCast);
    }
    pos := 3;
    var start := pos;
    while pos < length && IsDigit(s[pos])
      invariant start <= pos <= length
      invariant DigitRunEnd(s, start) == DigitRunEnd(s, pos)
    {
      pos := pos + 1;
    }
    var v := if pos - start == 2 then 10 * DigitValue(s[start]) + DigitValue(s[start + 1]) else -1;
    if v < 1 || v > 31 {
      return Err(ErrInvalidValueForCast);
    }
    var timezone: Option<Timezone> := None;
    if pos < length {
      var tz := parseTz(s, pos);
      if tz.Err? {
        return Err(tz.error);
      }
      timezone := Some(tz.value);
    }
    r := Ok(GDay(v, timezone));
  }

  /** A parsed value has a day in 1..31 written as two digits after "---";
    * the timezone is present exactly when text follows them, and is then what
    * the timezone parser read from there. */
  lemma ParseShape(s: string, parseTz: TimezoneParser)
    requires ParseGDay(s, parseTz).Ok?
    ensures var g := ParseGDay(s, parseTz).value;
            1 <= g.day <= 31 && |s| >= 5 && s[..5] == "---" + TwoDigits(g.day) &&
            (g.timezone.None? <==> |s| == 5) &&
            (g.timezone.Some? ==> !IsDigit(s[5]) && parseTz(s, 5) == Ok(g.timezone.value))
  {
    var g := ParseGDay(s, parseTz).value;
    assert DigitRunEnd(s, 3) == 5;
    DigitsOfValue(s[3], s[4]);
    assert s[..5] == "---" + [s[3], s[4]];
  }

  /** The decimal digits of a Java int, as string concatenation prints it. */
  function IntToString(i: int): string
  {
    if i < 0 then "-" + NatToString(-i) else NatToString(i)
  }

  /** The day as stringValue prints it: a "0" in front of any day below 10. */
  function TwoDigits(day: int): string
  {
    (if day < 10 then "0" else "") + IntToString(day)
  }

  /** stringValue: "---", the padded day, then the timezone. */
  function StringValue(g: GDay, tzString: TimezonePrinter): (r: string)
    ensures 1 <= g.day <= 31 ==> r == "---" + [DigitChar(g.day / 10), DigitChar(g.day % 10)] + tzString(g.timezone)
  {
    TwoDigitsOfDay(g.day);
    "---" + TwoDigits(g.day) + tzString(g.timezone)
  }

  lemma TwoDigitsOfDay(day: int)
    ensures 1 <= day <= 31 ==> TwoDigits(day) == [DigitChar(day / 10), DigitChar(day % 10)]
  {
    if 10 <= day <= 31 {
      assert NatToString(day / 10) == [DigitChar(day / 10)];
    }
  }

  lemma DigitCharValue(d: nat)
    requires d < 10
    ensures IsDigit(DigitChar(d)) && DigitValue(DigitChar(d)) == d
  {
  }

  /** Two digit characters denote the day they print as. */
  lemma DigitsOfValue(a: char, b: char)
    requires IsDigit(a) && IsDigit(b)
    ensures var v := 10 * DigitValue(a) + DigitValue(b);
            0 <= v <= 99 && v / 10 == DigitValue(a) && v % 10 == DigitValue(b) &&
            DigitChar(DigitValue(a)) == a && DigitChar(DigitValue(b)) == b &&
            (1 <= v <= 31 ==> TwoDigits(v) == [a, b])
  {
    var da, db := DigitValue(a), DigitValue(b);
    TensAndUnits(da, db);
    DigitCharOfValue(a);
    DigitCharOfValue(b);
    var v := 10 * da + db;
    if 1 <= v <= 31 {
      TwoDigitsOfDay(v);
      assert TwoDigits(v) == [DigitChar(da), DigitChar(db)];
    }
  }

  /** A digit character is the character of its value. */
  lemma DigitCharOfValue(c: char)
    requires IsDigit(c)
    ensures 0 <= DigitValue(c) < 10 && DigitChar(DigitValue(c)) == c
  {
  }

  /** A tens digit and a units digit make a value with those digits. */
  lemma TensAndUnits(t: int, u: int)
    requires 0 <= t < 10 && 0 <= u < 10
    ensures 0 <= 10 * t + u <= 99 && (10 * t + u) / 10 == t && (10 * t + u) % 10 == u
  {
  }

  /** Printing a day in 1..31 without timezone and parsing the text again
    * gives the same value, given that no timezone prints as nothing. */
  lemma {:induction false} StringValueRoundTrip(day: int, tzString: TimezonePrinter, parseTz: TimezoneParser)
    requires 1 <= day <= 31 && tzString(None) == ""
    ensures ParseGDay(StringValue(GDay(day, None), tzString), parseTz) == Ok(GDay(day, None))
  {
    var s := StringValue(GDay(day, None), tzString);
    DigitCharValue(day / 10);
    DigitCharValue(day % 10);
    assert |s| == 5 && s[3] == DigitChar(day / 10) && s[4] == DigitChar(day % 10);
    assert DigitRunEnd(s, 5) == 5;
    assert DigitRunEnd(s, 3) == 5;
  }

  /** Conversely, a string parsed without timezone is the canonical form of
    * the value: printing it again gives back the string. */
  lemma {:induction false} ParseIsCanonical(s: string, tzString: TimezonePrinter, parseTz: TimezoneParser)
    requires ParseGDay(s, parseTz).Ok? && ParseGDay(s, parseTz).value.timezone.None?
    requires tzString(None) == ""
    ensures StringValue(ParseGDay(s, parseTz).value, tzString) == s
  {
    ParseShape(s, parseTz);
    assert s == s[..5];
  }

  /** The components a time instant reports; only the day and the timezone
    * are not constant. */
  datatype Components = Components(year: int, month: int, day: int, hours: int, minutes: int, micros: int,
                                   timezone: Option<Timezone>)

  /** getYear, getMonth, getDay, getHours, getMinutes, getMicros, getTimezone. */
  function ComponentsOf(g: GDay): (r: Components)
    ensures r.year == 0 && r.month == 0 && r.hours == 0 && r.minutes == 0 && r.micros == 0
    ensures r.day == g.day && r.timezone == g.timezone
  {
    Components(0, 0, g.day, 0, 0, 0, g.timezone)
  }

  /** The other operand of a comparison: a gDay or some other atomic value. */
  datatype Operand = GDayOperand(g: GDay) | OtherAtomic

  /** cmp raises a type error whatever the operand. */
  function Cmp(g: GDay, other: Operand): (r: Result<int>)
    ensures r == Err(ErrTypeInappropriateType)
  {
    Err(ErrTypeInappropriateType)
  }

  /** The comparison of two time instants that the (GDay) cast in eq selects;
    * it is inherited from the time-instant base class, which is outside this
    * model, and comes in as a parameter. */
  type InstantCmp = (GDay, GDay) -> int

  /** eq: a non-gDay operand is a type error; two gDays are equal exactly when
    * the time-instant comparison answers 0. */
  function Eq(g: GDay, other: Operand, instantCmp: InstantCmp): (r: Result<bool>)
    ensures !other.GDayOperand? ==> r == Err(ErrTypeInappropriateType)
    ensures other.GDayOperand? ==> r.Ok? && (r.value <==> instantCmp(g, other.g) == 0)
  {
    if !other.GDayOperand? then Err(ErrTypeInappropriateType)
    else Ok(instantCmp(g, other.g) == 0)
  }

  /** With an antisymmetric time-instant comparison, eq on two gDays is
    * symmetric; with a reflexive one, every gDay equals itself. */
  lemma EqSymmetric(g: GDay, h: GDay, instantCmp: InstantCmp)
    requires forall x, y :: instantCmp(x, y) == -instantCmp(y, x)
    ensures Eq(g, GDayOperand(h), instantCmp) == Eq(h, GDayOperand(g), instantCmp)
    ensures Eq(g, GDayOperand(g), instantCmp) == Ok(true)
  {
    assert instantCmp(g, h) == -instantCmp(h, g);
    assert instantCmp(g, g) == -instantCmp(g, g);
  }
}
