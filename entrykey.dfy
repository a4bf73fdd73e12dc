/**
 * DiaryEntryKey: the key of one diary entry, an instant held in UTC. Its text form is
 * "%Y-%m-%d %H:%M %z"; parsing accepts any offset and converts to UTC, printing always writes UTC.
 */
module EntryKeys {
  import opened Wrappers
  import opened Numerals
  import opened Chrono
  import opened Strftime

  datatype EntryKey = EntryKey(date: DateTime)

  /** DEFAULT_KEY_FORMAT, "%Y-%m-%d %H:%M %z". */
  const DefaultKeyFormat: seq<Item> :=
    [Year, Literal('-'), Month, Literal('-'), Day, Space, Hour, Literal(':'), Minute, Space, TimezoneOffset]

  lemma DefaultKeyFormatComplete()
    ensures Complete(DefaultKeyFormat) && TimezoneOffset in DefaultKeyFormat
  {
    assert DefaultKeyFormat[0] == Year && DefaultKeyFormat[2] == Month && DefaultKeyFormat[4] == Day;
    assert DefaultKeyFormat[6] == Hour && DefaultKeyFormat[8] == Minute && DefaultKeyFormat[10] == TimezoneOffset;
  }

  /**
   * DiaryEntryKey::parse_from_string: the text must match the format, with an offset; the key is
   * the instant it names, in UTC. Anything else is None.
   */
  function ParseFromString(s: string): (r: Option<EntryKey>)
    ensures r.Some? ==> Valid(r.value.date) && r.value.date.second == 0
    ensures r.Some? ==> (ParseLocal(DefaultKeyFormat, s).Some?
      && Instant(r.value.date) == Instant(ParseLocal(DefaultKeyFormat, s).value.0) - 60 * ParseLocal(DefaultKeyFormat, s).value.1)
  {
    match ParseFromStr(DefaultKeyFormat, s)
    case None => None
    case Some(date) => Some(EntryKey(date))
  }

  /** Display for DiaryEntryKey: the key's UTC date and time, with the offset "+0000". */
  function ToString(k: EntryKey): string
    requires Valid(k.date)
  {
    Format(DefaultKeyFormat, k.date, ZoneText(0, ""))
  }

  /** The time half of a key text: " HH:MM " and then the offset. */
  lemma FormatTimeLayout(dt: DateTime, zone: string)
    requires Valid(dt)
    ensures Format([Space, Hour, Literal(':'), Minute, Space, TimezoneOffset], dt, zone)
      == " " + (Fixed(dt.hour, 2) + (":" + (Fixed(dt.minute, 2) + (" " + zone))))
  {
    FormatCons(TimezoneOffset, [], dt, zone);
    assert Format([TimezoneOffset], dt, zone) == zone;
    FormatCons(Space, [TimezoneOffset], dt, zone);
    assert Format([Space, TimezoneOffset], dt, zone) == " " + zone;
    FormatCons(Minute, [Space, TimezoneOffset], dt, zone);
    assert Format([Minute, Space, TimezoneOffset], dt, zone) == Fixed(dt.minute, 2) + (" " + zone);
    FormatCons(Literal(':'), [Minute, Space, TimezoneOffset], dt, zone);
    assert Format([Literal(':'), Minute, Space, TimezoneOffset], dt, zone) == ":" + (Fixed(dt.minute, 2) + (" " + zone));
    FormatCons(Hour, [Literal(':'), Minute, Space, TimezoneOffset], dt, zone);
    assert Format([Hour, Literal(':'), Minute, Space, TimezoneOffset], dt, zone) == Fixed(dt.hour, 2) + (":" + (Fixed(dt.minute, 2) + (" " + zone)));
    FormatCons(Space, [Hour, Literal(':'), Minute, Space, TimezoneOffset], dt, zone);
  }

  /** The date half of a key text, "YYYY-MM-DD", ahead of whatever the items after it render. */
  lemma FormatDateLayout(dt: DateTime, zone: string, rest: seq<Item>)
    requires Valid(dt) && 0 <= dt.year <= 9999
    ensures Format([Year, Literal('-'), Month, Literal('-'), Day] + rest, dt, zone)
      == Fixed(dt.year, 4) + ("-" + (Fixed(dt.month, 2) + ("-" + (Fixed(dt.day, 2) + Format(rest, dt, zone)))))
  {
    var t := Format(rest, dt, zone);
    FormatCons(Day, rest, dt, zone);
    FormatCons(Literal('-'), [Day] + rest, dt, zone);
    FormatCons(Month, [Literal('-')] + ([Day] + rest), dt, zone);
    FormatCons(Literal('-'), [Month] + ([Literal('-')] + ([Day] + rest)), dt, zone);
    FormatCons(Year, [Literal('-')] + ([Month] + ([Literal('-')] + ([Day] + rest))), dt, zone);
    assert [Year, Literal('-'), Month, Literal('-'), Day] + rest
      == [Year] + ([Literal('-')] + ([Month] + ([Literal('-')] + ([Day] + rest))));
  }

  /** A key text, piece by piece: "YYYY-MM-DD HH:MM " and then the offset. */
  lemma FormatLayout(dt: DateTime, zone: string)
    requires Valid(dt) && 0 <= dt.year <= 9999
    ensures Format(DefaultKeyFormat, dt, zone) == Fixed(dt.year, 4) + ("-" + (Fixed(dt.month, 2) + ("-" + (Fixed(dt.day, 2)
      + (" " + (Fixed(dt.hour, 2) + (":" + (Fixed(dt.minute, 2) + (" " + zone)))))))))
  {
    var time := [Space, Hour, Literal(':'), Minute, Space, TimezoneOffset];
    FormatTimeLayout(dt, zone);
    FormatDateLayout(dt, zone, time);
    assert DefaultKeyFormat == [Year, Literal('-'), Month, Literal('-'), Day] + time;
  }

  /** The printed form: "YYYY-MM-DD HH:MM +0000". */
  lemma ToStringLayout(k: EntryKey)
    requires Valid(k.date) && 0 <= k.date.year <= 9999
    ensures ToString(k) == Fixed(k.date.year, 4) + "-" + Fixed(k.date.month, 2) + "-" + Fixed(k.date.day, 2) + " "
      + Fixed(k.date.hour, 2) + ":" + Fixed(k.date.minute, 2) + " +0000"
  {
    UtcZoneText();
    FormatLayout(k.date, "+0000");
  }

  /** Printing a key and parsing the text back gives the key, truncated to the minute. */
  lemma ParseToString(k: EntryKey)
    requires Valid(k.date) && 0 <= k.date.year <= 9999
    ensures ParseFromString(ToString(k)) == Some(EntryKey(k.date.(second := 0)))
  {
    DefaultKeyFormatComplete();
    ParseOfFormat(DefaultKeyFormat, k.date, 0, "");
    ShiftByZero(k.date.(second := 0));
  }

  /**
   * A key written in local time with an offset of o minutes east of UTC, with or without a colon
   * in the offset, parses to the same instant in UTC.
   */
  lemma ParseConvertsToUtc(local: DateTime, o: int, sep: string)
    requires Valid(local) && 0 <= local.year <= 9999 && -1440 < o < 1440 && ColonsOrSpaces(sep)
    ensures ParseFromString(Format(DefaultKeyFormat, local, ZoneText(o, sep)))
      == Some(EntryKey(ShiftMinutes(local.(second := 0), -o)))
    ensures Instant(ShiftMinutes(local.(second := 0), -o)) == Instant(local.(second := 0)) - 60 * o
  {
    DefaultKeyFormatComplete();
    ParseOfFormat(DefaultKeyFormat, local, o, sep);
  }

  lemma ExampleTextPieces()
    ensures "2020-08-30 13:37 +03:00"
      == "2020" + ("-" + ("08" + ("-" + ("30" + (" " + ("13" + (":" + ("37" + (" " + "+03:00")))))))))
  {
  }

  /** The example's fields, each rendered on its own. */
  lemma ExampleFields()
    ensures Fixed(2020, 4) == "2020" && Fixed(8, 2) == "08" && Fixed(30, 2) == "30"
    ensures Fixed(13, 2) == "13" && Fixed(37, 2) == "37"
    ensures ZoneText(180, ":") == "+03:00"
  {
    FixedTwo(8);
    FixedTwo(30);
    FixedTwo(13);
    FixedTwo(37);
    FixedTwo(20);
    assert Fixed(2020, 4) == Fixed(202, 3) + [DigitChar(0)];
    assert Fixed(202, 3) == Fixed(20, 2) + [DigitChar(2)];
  }

  lemma FixedTwo(n: nat)
    requires n < 100
    ensures Fixed(n, 2) == [DigitChar(n / 10), DigitChar(n % 10)]
  {
    assert Fixed(n / 10, 1) == Fixed(n / 10 / 10, 0) + [DigitChar(n / 10 % 10)];
  }

  /** 13:37 on 2020-08-30 at three hours east of UTC, written with a colon in the offset. */
  lemma ExampleText()
    ensures Format(DefaultKeyFormat, DateTime(2020, 8, 30, 13, 37, 0), ZoneText(180, ":")) == "2020-08-30 13:37 +03:00"
  {
    ExampleFields();
    FormatLayout(DateTime(2020, 8, 30, 13, 37, 0), "+03:00");
    ExampleTextPieces();
  }

  lemma ExampleShift(local: DateTime)
    requires local == DateTime(2020, 8, 30, 13, 37, 0)
    ensures ShiftMinutes(local, -180) == DateTime(2020, 8, 30, 10, 37, 0)
  {
  }

  /** A key text whose local time, shifted back by the offset, is utc parses to utc. */
  lemma ParseShifted(local: DateTime, o: int, sep: string, text: string, utc: DateTime)
    requires Valid(local) && 0 <= local.year <= 9999 && local.second == 0 && -1440 < o < 1440 && ColonsOrSpaces(sep)
    requires text == Format(DefaultKeyFormat, local, ZoneText(o, sep)) && ShiftMinutes(local, -o) == utc
    ensures ParseFromString(text) == Some(EntryKey(utc))
  {
    assert local.(second := 0) == local;
    ParseConvertsToUtc(local, o, sep);
  }

  /** "2020-08-30 13:37 +03:00" is 10:37 UTC. */
  lemma ParseExample()
    ensures ParseFromString("2020-08-30 13:37 +03:00") == Some(EntryKey(DateTime(2020, 8, 30, 10, 37, 0)))
  {
    var local := DateTime(2020, 8, 30, 13, 37, 0);
    ExampleText();
    ExampleShift(local);
    assert ColonsOrSpaces(":");
    ParseShifted(local, 180, ":", "2020-08-30 13:37 +03:00", DateTime(2020, 8, 30, 10, 37, 0));
  }

  /** A text in the printed form: digits and separators in place, the offset "+0000". */
  predicate CanonicalText(s: string)
  {
    |s| == 22 && AllDigits(s[..4]) && s[4] == '-' && AllDigits(s[5..7]) && s[7] == '-' && AllDigits(s[8..10])
    && s[10] == ' ' && AllDigits(s[11..13]) && s[13] == ':' && AllDigits(s[14..16]) && s[16..] == " +0000"
  }

  /** The date and time a canonical text spells out. */
  function TextDate(s: string): DateTime
    requires CanonicalText(s)
  {
    DateTime(ValueOf(s[..4]), ValueOf(s[5..7]), ValueOf(s[8..10]), ValueOf(s[11..13]), ValueOf(s[14..16]), 0)
  }

  /** A canonical text that names a real date and time parses, and prints back as itself. */
  lemma CanonicalRoundTrip(s: string)
    requires CanonicalText(s) && Valid(TextDate(s))
    ensures ParseFromString(s) == Some(EntryKey(TextDate(s)))
    ensures ToString(ParseFromString(s).value) == s
  {
    var dt := TextDate(s);
    CanonicalPrints(s);
    ParseToString(EntryKey(dt));
    assert dt.(second := 0) == dt;
  }

  /** A canonical text is the printing of the date and time it spells out. */
  lemma CanonicalPrints(s: string)
    requires CanonicalText(s) && Valid(TextDate(s))
    ensures ToString(EntryKey(TextDate(s))) == s
  {
    var dt := TextDate(s);
    FixedValueOf(s[..4]);
    FixedValueOf(s[5..7]);
    FixedValueOf(s[8..10]);
    FixedValueOf(s[11..13]);
    FixedValueOf(s[14..16]);
    ToStringLayout(EntryKey(dt));
    CanonicalPieces(s);
  }

  lemma CanonicalPieces(s: string)
    requires CanonicalText(s)
    ensures s == s[..4] + "-" + s[5..7] + "-" + s[8..10] + " " + s[11..13] + ":" + s[14..16] + " +0000"
  {
  }

  /** The empty text is not a key. */
  lemma ParseEmpty()
    ensures ParseFromString("") == None
  {
    assert ScanYear("") == None;
  }

  /** Two keys are equal exactly when they denote the same instant (derived PartialEq on DateTime<Utc>). */
  lemma KeyEqualityIsInstant(a: EntryKey, b: EntryKey)
    requires Valid(a.date) && Valid(b.date)
    ensures a == b <==> Instant(a.date) == Instant(b.date)
  {
    BeforeIsEarlier(a.date, b.date);
  }
}
