/**
 * chrono's strftime items, as far as the formats "%Y-%m-%d %H:%M %z", "%Y%m%dT%H%M" and
 * "%Y%m%dT%H%M%z" use them: rendering a UTC date-time, and scanning text into a `Parsed`
 * record that is then resolved into a date-time.
 */
module Strftime {
  import opened Wrappers
  import opened Strings
  import opened Numerals
  import opened Chrono

  /** One strftime item: a literal character, a whitespace item (" "), a numeric field, or `%z`. */
  datatype Item = Literal(c: char) | Space | Year | Month | Day | Hour | Minute | TimezoneOffset

  /** chrono's Parsed: each field that scanning has set so far; the offset in minutes east of UTC. */
  datatype Parsed = Parsed(year: Option<int>, month: Option<int>, day: Option<int>,
                           hour: Option<int>, minute: Option<int>, offset: Option<int>)

  const NothingParsed := Parsed(None, None, None, None, None, None)

  /** chrono's `%Y`: four zero-padded digits for 0..=9999, otherwise a sign and at least four digits. */
  function YearText(y: int): string
  {
    if 0 <= y <= 9999 then Fixed(y, 4)
    else (if y < 0 then "-" else "+") + PadLeft(Decimal(if y < 0 then -y else y), 4, '0')
  }

  /**
   * chrono's `%z` text for an offset of o minutes east of UTC: a sign ('+' for zero), two hour
   * digits, the separator, two minute digits. chrono writes it with an empty separator.
   */
  function ZoneText(o: int, sep: string): (z: string)
    requires -1440 < o < 1440
    ensures |z| == 5 + |sep|
  {
    var a := if o < 0 then -o else o;
    var h, m := a / 60, a % 60;
    [if o < 0 then '-' else '+', DigitChar(h / 10), DigitChar(h % 10)] + sep + [DigitChar(m / 10), DigitChar(m % 10)]
  }

  /** The `%z` text of a UTC date-time. */
  lemma UtcZoneText()
    ensures ZoneText(0, "") == "+0000"
  {
  }

  /** How one item renders a date-time whose `%z` text is zone. */
  function FormatItem(item: Item, dt: DateTime, zone: string): string
    requires Valid(dt)
  {
    match item
    case Literal(c) => [c]
    case Space => " "
    case Year => YearText(dt.year)
    case Month => Fixed(dt.month, 2)
    case Day => Fixed(dt.day, 2)
    case Hour => Fixed(dt.hour, 2)
    case Minute => Fixed(dt.minute, 2)
    case TimezoneOffset => zone
  }

  /** chrono's DateTime::format: the items' renderings, concatenated. */
  function Format(items: seq<Item>, dt: DateTime, zone: string): string
    requires Valid(dt)
  {
    if items == [] then [] else FormatItem(items[0], dt, zone) + Format(items[1..], dt, zone)
  }

  /** Length of the leading run of ASCII digits of s, at most max (chrono's scan::number stops there). */
  function DigitRun(s: string, max: nat): (n: nat)
    ensures n <= max && n <= |s| && AllDigits(s[..n])
    ensures n == max || n == |s| || !IsDigit(s[n])
  {
    if max == 0 || s == [] || !IsDigit(s[0]) then 0
    else
      var n := 1 + DigitRun(s[1..], max - 1);
      assert s[..n] == [s[0]] + s[1..][..n - 1];
      n
  }

  /** chrono's scan::number after its whitespace trim: one to w digits, as many as there are. */
  function ScanNumber(s: string, w: nat): Option<(int, string)>
  {
    var t := TrimStart(s);
    var n := DigitRun(t, w);
    if n == 0 then None else Some((ValueOf(t[..n]), t[n..]))
  }

  /** `%Y` on input: an explicit sign allows any number of digits, otherwise one to four. */
  function ScanYear(s: string): Option<(int, string)>
  {
    var t := TrimStart(s);
    if t != [] && (t[0] == '+' || t[0] == '-') then
      var u := t[1..];
      var n := DigitRun(u, |u|);
      if n == 0 then None
      else Some((if t[0] == '-' then 0 - ValueOf(u[..n]) as int else ValueOf(u[..n]), u[n..]))
    else ScanNumber(t, 4)
  }

  /** chrono's scan::colon_or_space: skips every leading ':' and whitespace character. */
  function SkipColonOrSpace(s: string): (r: string)
    ensures |r| <= |s| && r == s[|s| - |r|..]
  {
    if s != [] && (s[0] == ':' || IsWhitespace(s[0])) then SkipColonOrSpace(s[1..]) else s
  }

  /** The value of one decimal digit character. */
  function DigitValue(c: char): int
  {
    c as int - '0' as int
  }

  /** `%z` on input: a sign, two hour digits, separators, two minute digits (the first 0-5). */
  function ScanOffset(s: string): Option<(int, string)>
  {
    var t := TrimStart(s);
    if |t| < 3 || (t[0] != '+' && t[0] != '-') || !IsDigit(t[1]) || !IsDigit(t[2]) then None
    else ScanOffsetMinutes(t[0], 10 * DigitValue(t[1]) + DigitValue(t[2]), SkipColonOrSpace(t[3..]))
  }

  /** The minute digits of `%z`, after the sign and the hours. */
  function ScanOffsetMinutes(sign: char, hours: int, u: string): Option<(int, string)>
  {
    if |u| < 2 || !('0' <= u[0] <= '5') || !IsDigit(u[1]) then None
    else
      var minutes := 60 * hours + 10 * DigitValue(u[0]) + DigitValue(u[1]);
      Some((if sign == '-' then -minutes else minutes, u[2..]))
  }

  /** chrono's set_if_consistent: a field may be set again only to the value it already has. */
  function SetField(current: Option<int>, v: int): Option<Option<int>>
  {
    if current.Some? && current.value != v then None else Some(Some(v))
  }

  function Update(p: Parsed, item: Item, v: int): Option<Parsed>
    requires item.Year? || item.Month? || item.Day? || item.Hour? || item.Minute? || item.TimezoneOffset?
  {
    match item
    case Year => (match SetField(p.year, v) case None => None case Some(f) => Some(p.(year := f)))
    case Month => (match SetField(p.month, v) case None => None case Some(f) => Some(p.(month := f)))
    case Day => (match SetField(p.day, v) case None => None case Some(f) => Some(p.(day := f)))
    case Hour => (match SetField(p.hour, v) case None => None case Some(f) => Some(p.(hour := f)))
    case Minute => (match SetField(p.minute, v) case None => None case Some(f) => Some(p.(minute := f)))
    case TimezoneOffset => (match SetField(p.offset, v) case None => None case Some(f) => Some(p.(offset := f)))
  }

  /** Scans one item off the front of s; the rest of the text and the updated record. */
  function ScanItem(item: Item, s: string, p: Parsed): Option<(string, Parsed)>
  {
    var scanned: Option<(int, string)> :=
      match item
      case Literal(c) => if s != [] && s[0] == c then Some((0, s[1..])) else None
      case Space => Some((0, TrimStart(s)))
      case Year => ScanYear(s)
      case TimezoneOffset => ScanOffset(s)
      case _ => ScanNumber(s, 2);
    match scanned
    case None => None
    case Some((v, rest)) =>
      if item.Literal? || item.Space? then Some((rest, p))
      else match Update(p, item, v) case None => None case Some(q) => Some((rest, q))
  }

  /** Scans every item in turn; text left over at the end is an error (chrono's TOO_LONG). */
  function ParseItems(items: seq<Item>, s: string, p: Parsed): Option<Parsed>
  {
    if items == [] then (if s == [] then Some(p) else None)
    else match ScanItem(items[0], s, p)
      case None => None
      case Some((rest, q)) => ParseItems(items[1..], rest, q)
  }

  /**
   * The local date-time a text states and its offset: every date and time field set and in range,
   * the seconds zero (no format here has a seconds field). Without an offset field the offset is 0.
   */
  function ParseLocal(items: seq<Item>, s: string): (r: Option<(DateTime, int)>)
    ensures r.Some? ==> Valid(r.value.0) && r.value.0.second == 0
  {
    match ParseItems(items, s, NothingParsed)
    case None => None
    case Some(p) =>
      if p.year.None? || p.month.None? || p.day.None? || p.hour.None? || p.minute.None? then None
      else
        var local := DateTime(p.year.value, p.month.value, p.day.value, p.hour.value, p.minute.value, 0);
        if !Valid(local) then None
        else Some((local, if p.offset.Some? then p.offset.value else 0))
  }

  /**
   * DateTime::parse_from_str followed by with_timezone(&Utc): the text must carry an offset
   * of less than a day, and the result is the same instant expressed in UTC.
   */
  function ParseFromStr(items: seq<Item>, s: string): (r: Option<DateTime>)
    ensures r.Some? ==> Valid(r.value) && r.value.second == 0
    ensures r.Some? <==> ParseLocal(items, s).Some? && HasOffset(items, s)
    ensures r.Some? ==> Instant(r.value) == Instant(ParseLocal(items, s).value.0) - 60 * ParseLocal(items, s).value.1
  {
    match ParseLocal(items, s)
    case None => None
    case Some((local, offset)) =>
      if !HasOffset(items, s) then None else Some(ShiftMinutes(local, -offset))
  }

  /** The text sets an offset field and that offset is less than a day (FixedOffset::east_opt). */
  predicate HasOffset(items: seq<Item>, s: string)
  {
    match ParseItems(items, s, NothingParsed)
    case None => false
    case Some(p) => p.offset.Some? && -1440 < p.offset.value < 1440
  }

  /** Utc.datetime_from_str: the text is read as UTC; an offset, if the format had one, must be zero. */
  function UtcFromStr(items: seq<Item>, s: string): (r: Option<DateTime>)
    ensures r.Some? ==> Valid(r.value) && r.value.second == 0
  {
    match ParseLocal(items, s)
    case None => None
    case Some((local, offset)) => if offset == 0 then Some(local) else None
  }

  /** The shape of this system's formats: no whitespace literal, and no two whitespace items in a row. */
  predicate WellFormed(items: seq<Item>)
  {
    forall i :: 0 <= i < |items| ==>
      (items[i].Literal? ==> !IsWhitespace(items[i].c))
      && (items[i].Space? && i + 1 < |items| ==> !items[i + 1].Space?)
  }

  /** What scanning the rendering of dt under one item records: the item's field, with dt's value. */
  function FillItem(item: Item, dt: DateTime, o: int, p: Parsed): Parsed
  {
    match item
    case Year => p.(year := Some(dt.year))
    case Month => p.(month := Some(dt.month))
    case Day => p.(day := Some(dt.day))
    case Hour => p.(hour := Some(dt.hour))
    case Minute => p.(minute := Some(dt.minute))
    case TimezoneOffset => p.(offset := Some(o))
    case _ => p
  }

  /** What scanning the rendering of dt at offset o records: each field the items name, with its value. */
  function Fill(items: seq<Item>, dt: DateTime, o: int, p: Parsed): Parsed
  {
    if items == [] then p else Fill(items[1..], dt, o, FillItem(items[0], dt, o, p))
  }

  /** Every field p has set holds dt's value, and any offset is o. */
  predicate Agrees(p: Parsed, dt: DateTime, o: int)
  {
    (p.year.Some? ==> p.year.value == dt.year) && (p.month.Some? ==> p.month.value == dt.month)
    && (p.day.Some? ==> p.day.value == dt.day) && (p.hour.Some? ==> p.hour.value == dt.hour)
    && (p.minute.Some? ==> p.minute.value == dt.minute) && (p.offset.Some? ==> p.offset.value == o)
  }

  /** Separators `%z` scanning skips between hours and minutes. */
  predicate ColonsOrSpaces(sep: string)
  {
    forall i :: 0 <= i < |sep| ==> sep[i] == ':' || IsWhitespace(sep[i])
  }

  lemma {:induction false} DigitRunFull(s: string, w: nat)
    requires w <= |s| && AllDigits(s[..w])
    ensures DigitRun(s, w) == w
  {
    if w > 0 {
      assert IsDigit(s[..w][0]);
      assert s[1..][..w - 1] == s[..w][1..];
      DigitRunFull(s[1..], w - 1);
    }
  }

  lemma ScanFixed(n: nat, w: nat, rest: string)
    requires 1 <= w && n < Pow10(w)
    ensures ScanNumber(Fixed(n, w) + rest, w) == Some((n, rest))
  {
    var s := Fixed(n, w) + rest;
    assert IsDigit(s[0]);
    assert TrimStart(s) == s;
    assert s[..w] == Fixed(n, w);
    DigitRunFull(s, w);
    ValueOfFixed(n, w);
    assert s[w..] == rest;
  }

  lemma ScanYearFixed(y: int, rest: string)
    requires 0 <= y <= 9999
    ensures ScanYear(YearText(y) + rest) == Some((y, rest))
  {
    var s := Fixed(y, 4) + rest;
    assert YearText(y) == Fixed(y, 4);
    assert IsDigit(s[0]);
    assert TrimStart(s) == s;
    assert !(s[0] == '+' || s[0] == '-');
    ScanFixed(y, 4, rest);
    assert ScanYear(s) == ScanNumber(s, 4);
  }

  lemma {:induction false} SkipSeparator(sep: string, t: string)
    requires ColonsOrSpaces(sep) && t != [] && IsDigit(t[0])
    ensures SkipColonOrSpace(sep + t) == t
  {
    if sep == [] {
      assert sep + t == t;
      assert !IsWhitespace(t[0]) && t[0] != ':';
    } else {
      assert (sep + t)[0] == sep[0] && (sep[0] == ':' || IsWhitespace(sep[0]));
      assert (sep + t)[1..] == sep[1..] + t;
      assert ColonsOrSpaces(sep[1..]) by {
        forall i | 0 <= i < |sep[1..]| ensures sep[1..][i] == ':' || IsWhitespace(sep[1..][i]) {
          assert sep[1..][i] == sep[i + 1];
        }
      }
      SkipSeparator(sep[1..], t);
    }
  }

  lemma {:induction false} ScanOffsetAt(s: string, d1: int, d2: int, d3: int, d4: int, rest: string)
    requires 0 <= d1 <= 9 && 0 <= d2 <= 9 && 0 <= d3 <= 5 && 0 <= d4 <= 9
    requires |s| >= 3 && (s[0] == '+' || s[0] == '-') && s[1] == DigitChar(d1) && s[2] == DigitChar(d2)
    requires SkipColonOrSpace(s[3..]) == [DigitChar(d3), DigitChar(d4)] + rest
    ensures ScanOffset(s) == Some((if s[0] == '-' then -(60 * (10 * d1 + d2) + 10 * d3 + d4)
                                   else 60 * (10 * d1 + d2) + 10 * d3 + d4, rest))
  {
    var u := [DigitChar(d3), DigitChar(d4)] + rest;
    OffsetMinutesDigits(s[0], d1, d2, d3, d4, rest);
    ScanOffsetHead(s, 10 * d1 + d2, u, ScanOffsetMinutes(s[0], 10 * d1 + d2, u));
  }

  /** The minute scan after hour digits d1 d2, given minute digits d3 d4. */
  lemma OffsetMinutesDigits(sign: char, d1: int, d2: int, d3: int, d4: int, rest: string)
    requires 0 <= d1 <= 9 && 0 <= d2 <= 9 && 0 <= d3 <= 5 && 0 <= d4 <= 9
    ensures ScanOffsetMinutes(sign, 10 * d1 + d2, [DigitChar(d3), DigitChar(d4)] + rest)
      == Some((if sign == '-' then -(60 * (10 * d1 + d2) + 10 * d3 + d4)
               else 60 * (10 * d1 + d2) + 10 * d3 + d4, rest))
  {
    ScanOffsetMinutesAt(sign, 10 * d1 + d2, d3, d4, rest);
  }

  /** A sign and two hour digits at the front: what follows is left to the minute scan. */
  lemma {:induction false} ScanOffsetHead(s: string, hours: int, u: string, r: Option<(int, string)>)
    requires |s| >= 3 && (s[0] == '+' || s[0] == '-') && IsDigit(s[1]) && IsDigit(s[2])
    requires 10 * DigitValue(s[1]) + DigitValue(s[2]) == hours && SkipColonOrSpace(s[3..]) == u
    requires ScanOffsetMinutes(s[0], hours, u) == r
    ensures ScanOffset(s) == r
  {
    SignNotWhitespace(s[0]);
    TrimStartPlain(s);
  }

  lemma SignNotWhitespace(c: char)
    requires c == '+' || c == '-'
    ensures !IsWhitespace(c)
  {
  }

  lemma ZoneLayout(sign: char, d1: int, d2: int, sep: string, d3: int, d4: int, rest: string)
    requires ColonsOrSpaces(sep) && 0 <= d1 <= 9 && 0 <= d2 <= 9 && 0 <= d3 <= 9 && 0 <= d4 <= 9
    ensures var s := [sign, DigitChar(d1), DigitChar(d2)] + sep + [DigitChar(d3), DigitChar(d4)] + rest;
      var u := [DigitChar(d3), DigitChar(d4)] + rest;
      |s| >= 3 && s[0] == sign && s[1] == DigitChar(d1) && s[2] == DigitChar(d2)
      && SkipColonOrSpace(s[3..]) == u && |u| >= 2 && u[0] == DigitChar(d3) && u[1] == DigitChar(d4) && u[2..] == rest
  {
    var u := [DigitChar(d3), DigitChar(d4)] + rest;
    var s := [sign, DigitChar(d1), DigitChar(d2)] + sep + [DigitChar(d3), DigitChar(d4)] + rest;
    assert s == [sign, DigitChar(d1), DigitChar(d2)] + (sep + u);
    assert s[3..] == sep + u;
    SkipSeparator(sep, u);
    assert u[2..] == rest;
  }

  lemma ScanOffsetMinutesAt(sign: char, hours: int, d3: int, d4: int, rest: string)
    requires 0 <= d3 <= 5 && 0 <= d4 <= 9
    ensures ScanOffsetMinutes(sign, hours, [DigitChar(d3), DigitChar(d4)] + rest)
      == Some((if sign == '-' then -(60 * hours + 10 * d3 + d4) else 60 * hours + 10 * d3 + d4, rest))
  {
    var u := [DigitChar(d3), DigitChar(d4)] + rest;
    assert u[2..] == rest;
  }

  lemma ScanOffsetDigits(sign: char, d1: int, d2: int, sep: string, d3: int, d4: int, rest: string)
    requires (sign == '+' || sign == '-') && ColonsOrSpaces(sep)
    requires 0 <= d1 <= 9 && 0 <= d2 <= 9 && 0 <= d3 <= 5 && 0 <= d4 <= 9
    ensures var minutes := 60 * (10 * d1 + d2) + 10 * d3 + d4;
      ScanOffset([sign, DigitChar(d1), DigitChar(d2)] + sep + [DigitChar(d3), DigitChar(d4)] + rest)
      == Some((if sign == '-' then -minutes else minutes, rest))
  {
    ZoneLayout(sign, d1, d2, sep, d3, d4, rest);
    ScanOffsetAt([sign, DigitChar(d1), DigitChar(d2)] + sep + [DigitChar(d3), DigitChar(d4)] + rest, d1, d2, d3, d4, rest);
  }

  lemma OffsetDigits(a: int)
    requires 0 <= a < 1440
    ensures 0 <= a / 60 / 10 <= 9 && 0 <= a % 60 / 10 <= 5
    ensures 60 * (10 * (a / 60 / 10) + a / 60 % 10) + 10 * (a % 60 / 10) + a % 60 % 10 == a
  {
  }

  lemma ScanZoneText(o: int, sep: string, rest: string)
    requires -1440 < o < 1440 && ColonsOrSpaces(sep)
    ensures ScanOffset(ZoneText(o, sep) + rest) == Some((o, rest))
  {
    var a := if o < 0 then -o else o;
    var sign := if o < 0 then '-' else '+';
    var d1, d2, d3, d4 := a / 60 / 10, a / 60 % 10, a % 60 / 10, a % 60 % 10;
    OffsetDigits(a);
    assert ZoneText(o, sep) == [sign, DigitChar(d1), DigitChar(d2)] + sep + [DigitChar(d3), DigitChar(d4)];
    ScanOffsetDigits(sign, d1, d2, sep, d3, d4, rest);
    assert 60 * (10 * d1 + d2) + 10 * d3 + d4 == a;
  }

  lemma FormatItemStart(item: Item, dt: DateTime, o: int, sep: string)
    requires Valid(dt) && -1440 < o < 1440
    ensures |FormatItem(item, dt, ZoneText(o, sep))| >= 1
    ensures !item.Space? && !(item.Literal? && IsWhitespace(item.c))
      ==> !IsWhitespace(FormatItem(item, dt, ZoneText(o, sep))[0])
  {
    if item.Year? && !(0 <= dt.year <= 9999) {
      var t := YearText(dt.year);
      assert t[0] == '-' || t[0] == '+';
    }
  }

  lemma ScanFormattedItem(item: Item, dt: DateTime, o: int, sep: string, rest: string, p: Parsed)
    requires Valid(dt) && 0 <= dt.year <= 9999 && -1440 < o < 1440 && ColonsOrSpaces(sep) && Agrees(p, dt, o)
    requires !(item.Literal? && IsWhitespace(item.c))
    requires item.Space? ==> rest == [] || !IsWhitespace(rest[0])
    ensures ScanItem(item, FormatItem(item, dt, ZoneText(o, sep)) + rest, p) == Some((rest, FillItem(item, dt, o, p)))
    ensures Agrees(FillItem(item, dt, o, p), dt, o)
  {
    if item.Literal? || item.Space? {
      ScanFormattedText(item, dt, ZoneText(o, sep), rest, p);
    } else if item.Year? {
      ScanYearFixed(dt.year, rest);
    } else if item.TimezoneOffset? {
      ScanZoneText(o, sep, rest);
    } else {
      ScanFormattedField(item, dt, o, ZoneText(o, sep), rest, p);
    }
  }

  /** A literal or a space scans its own rendering and records nothing. */
  lemma ScanFormattedText(item: Item, dt: DateTime, zone: string, rest: string, p: Parsed)
    requires item.Literal? || item.Space?
    requires Valid(dt) && !(item.Literal? && IsWhitespace(item.c))
    requires item.Space? ==> rest == [] || !IsWhitespace(rest[0])
    ensures ScanItem(item, FormatItem(item, dt, zone) + rest, p) == Some((rest, p))
  {
    if item.Literal? {
      assert ([item.c] + rest)[1..] == rest;
    } else {
      assert (" " + rest)[1..] == rest;
      assert TrimStart(" " + rest) == TrimStart(rest) == rest;
    }
  }

  /** A two-digit month, day, hour or minute scans its own rendering and records dt's value. */
  lemma ScanFormattedField(item: Item, dt: DateTime, o: int, zone: string, rest: string, p: Parsed)
    requires item.Month? || item.Day? || item.Hour? || item.Minute?
    requires Valid(dt) && Agrees(p, dt, o)
    ensures ScanItem(item, FormatItem(item, dt, zone) + rest, p) == Some((rest, FillItem(item, dt, o, p)))
    ensures Agrees(FillItem(item, dt, o, p), dt, o)
  {
    var v := if item.Month? then dt.month else if item.Day? then dt.day else if item.Hour? then dt.hour else dt.minute;
    ScanFixed(v, 2, rest);
  }

  /** Scanning the rendering of a four-digit-year date-time records exactly its fields. */
  lemma {:induction false} ParseFormatted(items: seq<Item>, dt: DateTime, o: int, sep: string, p: Parsed)
    requires WellFormed(items) && Valid(dt) && 0 <= dt.year <= 9999
    requires -1440 < o < 1440 && ColonsOrSpaces(sep) && Agrees(p, dt, o)
    ensures ParseItems(items, Format(items, dt, ZoneText(o, sep)), p) == Some(Fill(items, dt, o, p))
    ensures Agrees(Fill(items, dt, o, p), dt, o)
  {
    if items != [] {
      var zone := ZoneText(o, sep);
      var rest := Format(items[1..], dt, zone);
      if items[0].Space? && rest != [] {
        FormatItemStart(items[1], dt, o, sep);
        assert rest[0] == FormatItem(items[1], dt, zone)[0];
      }
      assert Format(items, dt, zone) == FormatItem(items[0], dt, zone) + rest;
      ScanFormattedItem(items[0], dt, o, sep, rest, p);
      var q := FillItem(items[0], dt, o, p);
      assert WellFormed(items[1..]) by {
        forall i | 0 <= i < |items[1..]|
          ensures (items[1..][i].Literal? ==> !IsWhitespace(items[1..][i].c))
          ensures (items[1..][i].Space? && i + 1 < |items[1..]| ==> !items[1..][i + 1].Space?)
        {
          assert items[1..][i] == items[i + 1];
        }
      }
      ParseFormatted(items[1..], dt, o, sep, q);
    }
  }

  lemma InConsSplit(items: seq<Item>, x: Item)
    requires items != []
    ensures x in items <==> x == items[0] || x in items[1..]
  {
    assert items == [items[0]] + items[1..];
  }

  /** Fill sets exactly the fields the items name. */
  lemma {:induction false} FillSets(items: seq<Item>, dt: DateTime, o: int, p: Parsed)
    ensures Fill(items, dt, o, p) == Parsed(
      if Year in items then Some(dt.year) else p.year,
      if Month in items then Some(dt.month) else p.month,
      if Day in items then Some(dt.day) else p.day,
      if Hour in items then Some(dt.hour) else p.hour,
      if Minute in items then Some(dt.minute) else p.minute,
      if TimezoneOffset in items then Some(o) else p.offset)
  {
    if items != [] {
      var q := FillItem(items[0], dt, o, p);
      InConsSplit(items, Year);
      InConsSplit(items, Month);
      InConsSplit(items, Day);
      InConsSplit(items, Hour);
      InConsSplit(items, Minute);
      InConsSplit(items, TimezoneOffset);
      FillSets(items[1..], dt, o, q);
    }
  }

  /** The formats whose rendering names every date and time field exactly as scanning expects. */
  predicate Complete(items: seq<Item>)
  {
    WellFormed(items) && Year in items && Month in items && Day in items && Hour in items && Minute in items
  }

  /**
   * Rendering a local date-time at offset o with a complete format and scanning the text back
   * recovers it to the minute, together with the offset (for years 0..=9999, where `%Y` takes
   * four digits). parse_from_str then yields the same instant in UTC, and Utc.datetime_from_str
   * accepts the text exactly when the offset is zero or absent.
   */
  lemma ParseOfFormat(items: seq<Item>, dt: DateTime, o: int, sep: string)
    requires Complete(items) && Valid(dt) && 0 <= dt.year <= 9999
    requires -1440 < o < 1440 && ColonsOrSpaces(sep)
    ensures ParseLocal(items, Format(items, dt, ZoneText(o, sep)))
      == Some((dt.(second := 0), if TimezoneOffset in items then o else 0))
    ensures TimezoneOffset in items ==>
      ParseFromStr(items, Format(items, dt, ZoneText(o, sep))) == Some(ShiftMinutes(dt.(second := 0), -o))
    ensures TimezoneOffset !in items ==> ParseFromStr(items, Format(items, dt, ZoneText(o, sep))).None?
    ensures UtcFromStr(items, Format(items, dt, ZoneText(o, sep))).Some?
      <==> TimezoneOffset !in items || o == 0
    ensures TimezoneOffset !in items || o == 0 ==>
      UtcFromStr(items, Format(items, dt, ZoneText(o, sep))) == Some(dt.(second := 0))
  {
    ParseFormatted(items, dt, o, sep, NothingParsed);
    FillSets(items, dt, o, NothingParsed);
  }

  lemma FormatCons(item: Item, rest: seq<Item>, dt: DateTime, zone: string)
    requires Valid(dt)
    ensures Format([item] + rest, dt, zone) == FormatItem(item, dt, zone) + Format(rest, dt, zone)
  {
    assert ([item] + rest)[1..] == rest;
  }
}
