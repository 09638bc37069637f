/** `createdDatetimeToTimestamp`: Go's `time.Parse` with the layout
    "02/01/2006 15:04:05" (day/month/year hour:minute:second), no time zone
    and therefore UTC, followed by `Unix()`. A failed parse makes the Go
    program panic; here it is `None`. */
module Timestamp {
  import opened Wrappers
  import opened Calendar

  /** A number read from the text and what follows it. */
  datatype Scan = Scan(value: nat, rest: string)

  predicate IsDigit(c: char) {
    '0' <= c <= '9'
  }

  function DigitValue(c: char): nat
    requires IsDigit(c)
  {
    c as int - '0' as int
  }

  function DigitChar(n: nat): char
    requires n < 10
  {
    (n + '0' as int) as char
  }

  /** Go's `getnum`: one or two leading digits; with `fixed`, exactly two. */
  function GetNum(s: string, fixed: bool): (r: Option<Scan>)
    ensures r.Some? <==> |s| > 0 && IsDigit(s[0]) && (fixed ==> |s| > 1 && IsDigit(s[1]))
    ensures r.Some? ==> r.value.value < 100 && r.value.rest == if |s| > 1 && IsDigit(s[1]) then s[2..] else s[1..]
  {
    if |s| == 0 || !IsDigit(s[0]) then None
    else if |s| == 1 || !IsDigit(s[1]) then
      if fixed then None else Some(Scan(DigitValue(s[0]), s[1..]))
    else Some(Scan(DigitValue(s[0]) * 10 + DigitValue(s[1]), s[2..]))
  }

  /** The "2006" element: four characters that `atoi` reads as a number. The
      first must be a digit, so no sign is possible and all four are digits. */
  function GetYear(s: string): (r: Option<Scan>)
    ensures r.Some? <==> |s| >= 4 && IsDigit(s[0]) && IsDigit(s[1]) && IsDigit(s[2]) && IsDigit(s[3])
    ensures r.Some? ==> r.value.value < 10000 && r.value.rest == s[4..]
  {
    if |s| < 4 || !IsDigit(s[0]) || !IsDigit(s[1]) || !IsDigit(s[2]) || !IsDigit(s[3]) then None
    else Some(Scan(DigitValue(s[0]) * 1000 + DigitValue(s[1]) * 100 + DigitValue(s[2]) * 10 + DigitValue(s[3]), s[4..]))
  }

  /** Go's `cutspace`: drops leading ASCII spaces. */
  function CutSpace(s: string): (r: string)
    ensures |r| <= |s| && r == s[|s| - |r|..]
    ensures forall i :: 0 <= i < |s| - |r| ==> s[i] == ' '
    ensures r == [] || r[0] != ' '
  {
    if s != [] && s[0] == ' ' then CutSpace(s[1..]) else s
  }

  /** Go's `skip`: matches the literal text `prefix` of the layout against
      the front of `value`. A space in the layout matches any positive
      number of spaces (or the end of the value). */
  function Skip(value: string, prefix: string): Option<string>
    decreases |prefix|
  {
    if prefix == [] then Some(value)
    else if prefix[0] == ' ' then
      if |value| > 0 && value[0] != ' ' then None
      else Skip(CutSpace(value), CutSpace(prefix))
    else if |value| == 0 || value[0] != prefix[0] then None
    else Skip(value[1..], prefix[1..])
  }

  function DropDigits(s: string): (r: string)
    ensures |r| <= |s| && r == s[|s| - |r|..]
    ensures forall i :: 0 <= i < |s| - |r| ==> IsDigit(s[i])
    ensures r == [] || !IsDigit(r[0])
  {
    if s != [] && IsDigit(s[0]) then DropDigits(s[1..]) else s
  }

  /** A fractional second written after the seconds although the layout has
      none: a '.' or ',' followed by digits is consumed (and, as Unix()
      truncates to whole seconds, has no effect on the result). */
  function SkipFraction(s: string): string {
    if |s| >= 2 && (s[0] == '.' || s[0] == ',') && IsDigit(s[1]) then DropDigits(s[1..]) else s
  }

  /** The date and the text after it. */
  datatype Date = Date(day: nat, month: nat, year: nat, rest: string)

  /** The time of day and the text after it. */
  datatype Clock = Clock(hour: nat, minute: nat, second: nat, rest: string)

  /** The "02/01/2006" half of the layout. The month is range-checked as
      soon as it is read; the day waits for the end of the parse. */
  function ParseDate(value: string): (r: Option<Date>)
    ensures r.Some? ==> r.value.day < 100 && 1 <= r.value.month <= 12 && r.value.year < 10000
  {
    var day :- GetNum(value, true);
    var v1 :- Skip(day.rest, "/");
    var month :- GetNum(v1, true);
    if month.value < 1 || 12 < month.value then None else
    var v2 :- Skip(month.rest, "/");
    var year :- GetYear(v2);
    Some(Date(day.value, month.value, year.value, year.rest))
  }

  /** The minutes and seconds and the text after them. */
  datatype MinuteSecond = MinuteSecond(minute: nat, second: nat, rest: string)

  /** The " 15:04:05" half of the layout: the space, then an hour of one or
      two digits, range-checked as it is read. */
  function ParseClock(value: string): (r: Option<Clock>)
    ensures r.Some? ==> r.value.hour < 24 && r.value.minute < 60 && r.value.second < 60
  {
    var v3 :- Skip(value, " ");
    var hour :- GetNum(v3, false);
    if 24 <= hour.value then None else
    var ms :- ParseMinuteSecond(hour.rest);
    Some(Clock(hour.value, ms.minute, ms.second, ms.rest))
  }

  /** The ":04:05" part of the layout: two-digit minutes and seconds, each
      range-checked as it is read. */
  function ParseMinuteSecond(value: string): (r: Option<MinuteSecond>)
    ensures r.Some? ==> r.value.minute < 60 && r.value.second < 60
  {
    var v4 :- Skip(value, ":");
    var minute :- GetNum(v4, true);
    if 60 <= minute.value then None else
    var v5 :- Skip(minute.rest, ":");
    var second :- GetNum(v5, true);
    if 60 <= second.value then None else
    Some(MinuteSecond(minute.value, second.value, second.rest))
  }

  /** Go's `time.Parse("02/01/2006 15:04:05", value)`: the elements are read
      in the order of the layout, any text left over (other than a
      fractional second) is an error, and the day is checked against the
      length of its month last. */
  function Parse(value: string): (r: Option<DateTime>)
    ensures r.Some? ==> r.value.Valid() && r.value.year < 10000
  {
    var date :- ParseDate(value);
    var clock :- ParseClock(date.rest);
    if SkipFraction(clock.rest) != [] then None
    else if date.day < 1 || date.day > DaysIn(date.month, date.year) then None
    else Some(DateTime(date.year, date.month, date.day, clock.hour, clock.minute, clock.second))
  }

  /** The smallest and largest results: 0000-01-01 00:00:00 and
      9999-12-31 23:59:59 UTC. */
  const MinTimestamp: int := -62167219200
  const MaxTimestamp: int := 253402300799

  /** Go's `createdDatetimeToTimestamp`: the Unix seconds of the parsed
      instant, or `None` where Go panics. Every result lies within the years
      0 to 9999, so it fits the `int64` the Go function returns. */
  function CreatedDatetimeToTimestamp(createdDatetime: string): (r: Option<int>)
    ensures r.Some? <==> Parse(createdDatetime).Some?
    ensures r.Some? ==> MinTimestamp <= r.value <= MaxTimestamp
  {
    match Parse(createdDatetime)
    case None => None
    case Some(t) =>
      TimestampBounds(t);
      Some(UnixSeconds(t))
  }

  lemma TimestampBounds(t: DateTime)
    requires t.Valid() && t.year < 10000
    ensures MinTimestamp <= UnixSeconds(t) <= MaxTimestamp
  {
    FourDigitYearRange(t);
  }

  // The layout written out: which texts parse, and to what.

  function Pad2(n: int): (r: string)
    requires 0 <= n < 100
  {
    [DigitChar(n / 10), DigitChar(n % 10)]
  }

  function Pad4(n: int): (r: string)
    requires 0 <= n < 10000
  {
    Pad2(n / 100) + Pad2(n % 100)
  }

  function Spaces(k: nat): (r: string) {
    seq(k, _ => ' ')
  }

  /** Fields small enough to be written in the layout's digit positions:
      four digits for the year and two for each other field. */
  predicate Writable(t: DateTime) {
    && 0 <= t.year < 10000 && 0 <= t.month < 100 && 0 <= t.day < 100
    && 0 <= t.hour < 100 && 0 <= t.minute < 100 && 0 <= t.second < 100
  }

  /** The freedom `time.Parse` leaves in writing one instant: the number of
      spaces between date and time, a one-digit hour, and a fractional
      second after the seconds. */
  datatype Spelling = Spelling(gap: nat, shortHour: bool, fraction: string)

  predicate FractionOk(f: string) {
    f == [] || (|f| >= 2 && (f[0] == '.' || f[0] == ',') && forall i :: 1 <= i < |f| ==> IsDigit(f[i]))
  }

  predicate Admissible(sp: Spelling, t: DateTime) {
    sp.gap >= 1 && (sp.shortHour ==> 0 <= t.hour < 10) && FractionOk(sp.fraction)
  }

  /** The layout's spelling: "DD/MM/YYYY HH:MM:SS". */
  const Canonical: Spelling := Spelling(1, false, [])

  function HourText(hour: int, short: bool): string
    requires 0 <= hour < 100 && (short ==> hour < 10)
  {
    if short then [DigitChar(hour)] else Pad2(hour)
  }

  /** `t` written in the layout with the given spelling. */
  function Render(t: DateTime, sp: Spelling): string
    requires Writable(t) && (sp.shortHour ==> t.hour < 10)
  {
    Pad2(t.day) + ("/" + (Pad2(t.month) + ("/" + (Pad4(t.year)
    + (Spaces(sp.gap) + (HourText(t.hour, sp.shortHour) + (":" + (Pad2(t.minute)
    + (":" + (Pad2(t.second) + sp.fraction))))))))))
  }

  /** `t` written exactly as the layout "02/01/2006 15:04:05". */
  function Format(t: DateTime): string
    requires Writable(t)
  {
    Render(t, Canonical)
  }

  // Reading each element back.

  lemma DigitRoundTrip(n: nat)
    requires n < 10
    ensures IsDigit(DigitChar(n)) && DigitValue(DigitChar(n)) == n
  {
  }

  lemma GetNumPad2(n: int, rest: string, fixed: bool)
    requires 0 <= n < 100
    ensures GetNum(Pad2(n) + rest, fixed) == Some(Scan(n, rest))
  {
    var s := Pad2(n) + rest;
    DigitRoundTrip(n / 10);
    DigitRoundTrip(n % 10);
    assert s[2..] == rest;
  }

  lemma GetNumShort(n: int, rest: string)
    requires 0 <= n < 10 && (rest == [] || !IsDigit(rest[0]))
    ensures GetNum([DigitChar(n)] + rest, false) == Some(Scan(n, rest))
  {
    var s := [DigitChar(n)] + rest;
    DigitRoundTrip(n);
    assert s[1..] == rest;
  }

  lemma GetYearPad4(n: int, rest: string)
    requires 0 <= n < 10000
    ensures GetYear(Pad4(n) + rest) == Some(Scan(n, rest))
  {
    var s := Pad4(n) + rest;
    var hi, lo := n / 100, n % 100;
    DigitRoundTrip(hi / 10);
    DigitRoundTrip(hi % 10);
    DigitRoundTrip(lo / 10);
    DigitRoundTrip(lo % 10);
    assert s[..4] == [DigitChar(hi / 10), DigitChar(hi % 10), DigitChar(lo / 10), DigitChar(lo % 10)];
    assert s[4..] == rest;
  }

  lemma SkipChar(c: char, rest: string)
    requires c != ' '
    ensures Skip([c] + rest, [c]) == Some(rest)
  {
    assert ([c] + rest)[1..] == rest;
  }

  lemma SkipGap(k: nat, rest: string)
    requires k >= 1 && (rest == [] || rest[0] != ' ')
    ensures Skip(Spaces(k) + rest, " ") == Some(rest)
  {
    var v := Spaces(k) + rest;
    CutSpacesOff(k, rest);
    assert CutSpace(" ") == [];
  }

  lemma {:induction false} CutSpacesOff(k: nat, rest: string)
    requires rest == [] || rest[0] != ' '
    ensures CutSpace(Spaces(k) + rest) == rest
  {
    if k > 0 {
      assert (Spaces(k) + rest)[1..] == Spaces(k - 1) + rest;
      CutSpacesOff(k - 1, rest);
    }
  }

  lemma {:induction false} DropAllDigits(s: string)
    requires forall i :: 0 <= i < |s| ==> IsDigit(s[i])
    ensures DropDigits(s) == []
  {
  }

  lemma SkipAdmissibleFraction(f: string)
    requires FractionOk(f)
    ensures SkipFraction(f) == []
  {
    if f != [] {
      DropAllDigits(f[1..]);
    }
  }

  lemma ParseDateRender(t: DateTime, rest: string)
    requires Writable(t)
    ensures ParseDate(Pad2(t.day) + ("/" + (Pad2(t.month) + ("/" + (Pad4(t.year) + rest)))))
         == if 1 <= t.month <= 12 then Some(Date(t.day, t.month, t.year, rest)) else None
  {
    var tail2 := "/" + (Pad4(t.year) + rest);
    var tail1 := "/" + (Pad2(t.month) + tail2);
    GetNumPad2(t.day, tail1, true);
    SkipChar('/', Pad2(t.month) + tail2);
    GetNumPad2(t.month, tail2, true);
    SkipChar('/', Pad4(t.year) + rest);
    GetYearPad4(t.year, rest);
  }

  lemma ParseClockRender(t: DateTime, sp: Spelling)
    requires Writable(t) && Admissible(sp, t)
    ensures ParseClock(Spaces(sp.gap) + (HourText(t.hour, sp.shortHour) + (":" + (Pad2(t.minute)
              + (":" + (Pad2(t.second) + sp.fraction))))))
         == if t.hour < 24 && t.minute < 60 && t.second < 60
            then Some(Clock(t.hour, t.minute, t.second, sp.fraction)) else None
  {
    var tail3 := ":" + (Pad2(t.minute) + (":" + (Pad2(t.second) + sp.fraction)));
    var tailHour := HourText(t.hour, sp.shortHour) + tail3;
    assert tailHour[0] != ' ';
    SkipGap(sp.gap, tailHour);
    if sp.shortHour {
      GetNumShort(t.hour, tail3);
    } else {
      GetNumPad2(t.hour, tail3, false);
    }
    ParseMinuteSecondRender(t.minute, t.second, sp.fraction);
  }

  lemma ParseMinuteSecondRender(minute: int, second: int, rest: string)
    requires 0 <= minute < 100 && 0 <= second < 100
    ensures ParseMinuteSecond(":" + (Pad2(minute) + (":" + (Pad2(second) + rest))))
         == if minute < 60 && second < 60 then Some(MinuteSecond(minute, second, rest)) else None
  {
    var tail5 := Pad2(second) + rest;
    var tail4 := ":" + tail5;
    SkipChar(':', Pad2(minute) + tail4);
    GetNumPad2(minute, tail4, true);
    SkipChar(':', tail5);
    GetNumPad2(second, rest, true);
  }

  /** Reading back a written instant: every spelling the layout admits parses
      to the instant when it is a valid date and time, and fails when it is
      not (a 31st of February, a 13th month, hour 24, second 60, day 0). */
  lemma {:induction false} ParseRender(t: DateTime, sp: Spelling)
    requires Writable(t) && Admissible(sp, t)
    ensures Parse(Render(t, sp)) == if t.Valid() then Some(t) else None
  {
    var clockText := Spaces(sp.gap) + (HourText(t.hour, sp.shortHour) + (":" + (Pad2(t.minute)
                     + (":" + (Pad2(t.second) + sp.fraction)))));
    ParseDateRender(t, clockText);
    ParseClockRender(t, sp);
    SkipAdmissibleFraction(sp.fraction);
  }

  /** The conversion of a written instant: every admitted spelling of a
      valid instant gives its Unix seconds, and the spelling of an instant
      that does not exist gives the panic. */
  lemma ConvertRendered(t: DateTime, sp: Spelling)
    requires Writable(t) && Admissible(sp, t)
    ensures CreatedDatetimeToTimestamp(Render(t, sp)) == if t.Valid() then Some(UnixSeconds(t)) else None
  {
    ParseRender(t, sp);
  }

  // Only such texts parse.

  lemma DigitCharOfValue(c: char)
    requires IsDigit(c)
    ensures DigitChar(DigitValue(c)) == c
  {
  }

  lemma Pad2OfDigits(a: char, b: char)
    requires IsDigit(a) && IsDigit(b)
    ensures Pad2(DigitValue(a) * 10 + DigitValue(b)) == [a, b]
  {
    DigitCharOfValue(a);
    DigitCharOfValue(b);
  }

  lemma GetNumShape(s: string, fixed: bool)
    requires GetNum(s, fixed).Some?
    ensures var sc := GetNum(s, fixed).value;
      || s == Pad2(sc.value) + sc.rest
      || (!fixed && sc.value < 10 && s == [DigitChar(sc.value)] + sc.rest && (sc.rest == [] || !IsDigit(sc.rest[0])))
  {
    if |s| == 1 || !IsDigit(s[1]) {
      DigitCharOfValue(s[0]);
      assert s == [s[0]] + s[1..];
    } else {
      Pad2OfDigits(s[0], s[1]);
      assert s == [s[0], s[1]] + s[2..];
    }
  }

  lemma GetYearShape(s: string)
    requires GetYear(s).Some?
    ensures s == Pad4(GetYear(s).value.value) + GetYear(s).value.rest
  {
    var n := GetYear(s).value.value;
    var hi := DigitValue(s[0]) * 10 + DigitValue(s[1]);
    var lo := DigitValue(s[2]) * 10 + DigitValue(s[3]);
    assert n == hi * 100 + lo;
    assert n / 100 == hi && n % 100 == lo;
    Pad2OfDigits(s[0], s[1]);
    Pad2OfDigits(s[2], s[3]);
    assert s == [s[0], s[1]] + [s[2], s[3]] + s[4..];
  }

  lemma SkipCharShape(v: string, c: char)
    requires c != ' ' && Skip(v, [c]).Some?
    ensures v == [c] + Skip(v, [c]).value
  {
    assert [c][1..] == [];
    assert v == [v[0]] + v[1..];
  }

  lemma SkipGapShape(v: string)
    requires Skip(v, " ").Some?
    ensures var r := Skip(v, " ").value;
      |r| <= |v| && v == Spaces(|v| - |r|) + r && (r == [] || r[0] != ' ') && (v != [] ==> |r| < |v|)
  {
    SkipSpaceIsCut(v);
    SpacesInFront(v, CutSpace(v));
  }

  /** A space of the layout skips the whole run of spaces in front. */
  lemma SkipSpaceIsCut(v: string)
    requires Skip(v, " ").Some?
    ensures Skip(v, " ") == Some(CutSpace(v))
  {
    assert CutSpace(" ") == [] by {
      assert " "[1..] == [];
    }
  }

  /** A suffix after a run of spaces is that many spaces in front of it. */
  lemma SpacesInFront(v: string, r: string)
    requires |r| <= |v| && r == v[|v| - |r|..]
    requires forall i :: 0 <= i < |v| - |r| ==> v[i] == ' '
    ensures v == Spaces(|v| - |r|) + r
  {
    var k := |v| - |r|;
    assert v == v[..k] + r;
    assert v[..k] == Spaces(k) by {
      forall i | 0 <= i < k ensures v[..k][i] == Spaces(k)[i] {
        assert v[..k][i] == v[i];
      }
    }
  }

  lemma FractionShape(v: string)
    requires SkipFraction(v) == []
    ensures FractionOk(v)
  {
    if v != [] {
      var r := DropDigits(v[1..]);
      assert |r| == 0;
    }
  }

  lemma ParseDateShape(value: string)
    requires ParseDate(value).Some?
    ensures var d := ParseDate(value).value;
      value == Pad2(d.day) + ("/" + (Pad2(d.month) + ("/" + (Pad4(d.year) + d.rest))))
  {
    var day := GetNum(value, true).value;
    GetNumShape(value, true);
    var v1 := Skip(day.rest, "/").value;
    SkipCharShape(day.rest, '/');
    var month := GetNum(v1, true).value;
    GetNumShape(v1, true);
    var v2 := Skip(month.rest, "/").value;
    SkipCharShape(month.rest, '/');
    GetYearShape(v2);
  }

  lemma ParseMinuteSecondShape(value: string)
    requires ParseMinuteSecond(value).Some?
    ensures var ms := ParseMinuteSecond(value).value;
      value == ":" + (Pad2(ms.minute) + (":" + (Pad2(ms.second) + ms.rest)))
  {
    SkipCharShape(value, ':');
    var v4 := Skip(value, ":").value;
    GetNumShape(v4, true);
    var minute := GetNum(v4, true).value;
    SkipCharShape(minute.rest, ':');
    var v5 := Skip(minute.rest, ":").value;
    GetNumShape(v5, true);
  }

  lemma ParseClockShape(value: string) returns (gap: nat, short: bool)
    requires ParseClock(value).Some?
    ensures var c := ParseClock(value).value;
      && gap >= 1 && (short ==> c.hour < 10)
      && value == Spaces(gap) + (HourText(c.hour, short) + (":" + (Pad2(c.minute)
                  + (":" + (Pad2(c.second) + c.rest)))))
  {
    ParseClockSteps(value);
    var v3 := Skip(value, " ").value;
    var hour := GetNum(v3, false).value;
    var ms := ParseMinuteSecond(hour.rest).value;
    SkipGapShape(value);
    gap := |value| - |v3|;
    short := HourShape(v3);
    ParseMinuteSecondShape(hour.rest);
    assert value == Spaces(gap) + (HourText(hour.value, short) + hour.rest);
  }

  /** What a successful `ParseClock` went through. */
  lemma ParseClockSteps(value: string)
    requires ParseClock(value).Some?
    ensures Skip(value, " ").Some?
    ensures var v3 := Skip(value, " ").value;
      && GetNum(v3, false).Some? && GetNum(v3, false).value.value < 24
      && ParseMinuteSecond(GetNum(v3, false).value.rest).Some?
      && var hour := GetNum(v3, false).value;
         var ms := ParseMinuteSecond(hour.rest).value;
         ParseClock(value).value == Clock(hour.value, ms.minute, ms.second, ms.rest)
  {
  }

  /** The hour as written: one digit or two. */
  lemma HourShape(s: string) returns (short: bool)
    requires GetNum(s, false).Some? && GetNum(s, false).value.value < 24
    ensures var sc := GetNum(s, false).value;
      (short ==> sc.value < 10) && s == HourText(sc.value, short) + sc.rest
  {
    GetNumShape(s, false);
    var sc := GetNum(s, false).value;
    short := !(|s| >= 2 && IsDigit(s[1]));
    if !short {
      assert s == Pad2(sc.value) + sc.rest by {
        Pad2OfDigits(s[0], s[1]);
        assert s == [s[0], s[1]] + s[2..];
      }
    } else {
      assert s == [DigitChar(sc.value)] + sc.rest by {
        DigitCharOfValue(s[0]);
        assert s == [s[0]] + s[1..];
      }
    }
  }

  /** Only the layout's spellings parse: whenever `Parse` succeeds, the text
      is the parsed instant written as "DD/MM/YYYY HH:MM:SS", up to the
      freedoms of `Spelling`. Together with `ParseRender`, a text parses
      exactly when it spells a valid date and time, and then to that one. */
  lemma ParseOnlyRendered(value: string) returns (sp: Spelling)
    requires Parse(value).Some?
    ensures Admissible(sp, Parse(value).value) && value == Render(Parse(value).value, sp)
  {
    ParseDateShape(value);
    var date := ParseDate(value).value;
    var gap, short := ParseClockShape(date.rest);
    var clock := ParseClock(date.rest).value;
    FractionShape(clock.rest);
    sp := Spelling(gap, short, clock.rest);
  }

  /** The canonical spelling of 2024-03-15 08:30:00. */
  lemma FormatExample()
    ensures Format(DateTime(2024, 3, 15, 8, 30, 0)) == "15/03/2024 08:30:00"
  {
    ClockExample(8, 30, "08:30:00");
    DateExample(15, 3, "15/03/2024", Spaces(1) + "08:30:00");
    assert Spaces(1) == " ";
    assert "15/03/2024" + (" " + "08:30:00") == "15/03/2024 08:30:00";
  }

  /** The canonical spelling of the impossible date 31/02/2024 10:00:00. */
  lemma FormatImpossibleExample()
    ensures Format(DateTime(2024, 2, 31, 10, 0, 0)) == "31/02/2024 10:00:00"
  {
    ClockExample(10, 0, "10:00:00");
    DateExample(31, 2, "31/02/2024", Spaces(1) + "10:00:00");
    assert Spaces(1) == " ";
    assert "31/02/2024" + (" " + "10:00:00") == "31/02/2024 10:00:00";
  }

  /** The clock part of the two examples, at zero seconds. */
  lemma ClockExample(hour: int, minute: int, text: string)
    requires (hour, minute, text) == (8, 30, "08:30:00") || (hour, minute, text) == (10, 0, "10:00:00")
    ensures HourText(hour, false) + (":" + (Pad2(minute) + (":" + (Pad2(0) + [])))) == text
  {
    assert Pad2(0) + [] == "00";
    if hour == 8 {
      assert Pad2(8) == "08" && Pad2(30) == "30";
    } else {
      assert Pad2(10) == "10";
    }
  }

  /** The date part of the two examples, in 2024. */
  lemma DateExample(day: int, month: int, text: string, rest: string)
    requires (day, month, text) == (15, 3, "15/03/2024") || (day, month, text) == (31, 2, "31/02/2024")
    ensures Pad2(day) + ("/" + (Pad2(month) + ("/" + (Pad4(2024) + rest)))) == text + rest
  {
    assert Pad4(2024) == "2024";
    assert Pad2(day) + ("/" + (Pad2(month) + ("/" + Pad4(2024)))) == text;
  }

  /** A worked example: 15 March 2024, 08:30:00 UTC. */
  lemma TimestampExample(text: string)
    requires text == "15/03/2024 08:30:00"
    ensures CreatedDatetimeToTimestamp(text) == Some(1710491400)
  {
    var t := DateTime(2024, 3, 15, 8, 30, 0);
    FormatExample();
    ParseRender(t, Canonical);
    assert Parse(text) == Some(t);
    UnixSecondsExample();
  }

  /** A worked example: there is no 31 February, so the parse fails. */
  lemma ImpossibleDateExample(text: string)
    requires text == "31/02/2024 10:00:00"
    ensures CreatedDatetimeToTimestamp(text) == None
  {
    var t := DateTime(2024, 2, 31, 10, 0, 0);
    FormatImpossibleExample();
    ParseRender(t, Canonical);
  }
}
