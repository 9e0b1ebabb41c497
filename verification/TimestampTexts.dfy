/** What the six layouts read: every text put together from the parts of a date, a clock, a fraction and
    a zone, against the moment those parts mean. */
module TimestampTexts {
  import opened Wrappers
  import opened Decimal
  import opened Calendar
  import opened Timestamps

  /** The text of a fraction's digits behind a point or comma, or of none. */
  function FractionText(point: char, digits: string): string {
    if digits == "" then "" else [point] + digits
  }

  /** How a zone is written for a layout: with or without a colon, as Z, or not at all. */
  datatype ZoneText = Zulu | East(hours: nat, minutes: nat) | West(hours: nat, minutes: nat) | Nothing

  predicate Writes(z: Zone, t: ZoneText) {
    match t
    case Zulu => z == ColonOrZ || z == NumericOrZ
    case Nothing => z == NoZone
    case _ => z != NoZone && t.hours < 100 && t.minutes < 100
  }

  function Sign(t: ZoneText): string { if t.West? then "-" else "+" }

  function ZoneAsText(z: Zone, t: ZoneText): string {
    match t
    case Zulu => "Z"
    case Nothing => ""
    case _ => Sign(t) + (Fixed(t.hours, 2) + ((if z == ColonOrZ then ":" else "") + Fixed(t.minutes, 2)))
  }

  /** Seconds east of UTC; none for hours over 24 or minutes over 60. */
  function OffsetOf(t: ZoneText): Option<int> {
    match t
    case Zulu => Some(0)
    case Nothing => Some(0)
    case East(h, m) => if h <= 24 && m <= 60 then Some(3600 * h + 60 * m) else None
    case West(h, m) => if h <= 24 && m <= 60 then Some(-3600 * h - 60 * m) else None
  }

  lemma OffsetShaped(sign: char, hours: nat, minutes: nat)
    requires hours < 100 && minutes < 100 && (sign == '+' || sign == '-')
    ensures Offset(sign, Fixed(hours, 2), Fixed(minutes, 2))
         == OffsetOf(if sign == '-' then West(hours, minutes) else East(hours, minutes))
  {
    hide Fixed, Value;
    FixedTwo(hours);
    FixedTwo(minutes);
    SignedMinutes(hours, minutes);
    var h, m := Fixed(hours, 2), Fixed(minutes, 2);
    assert Value(h) == hours && Value(m) == minutes;
  }

  lemma SignedMinutes(h: nat, m: nat)
    ensures -1 * 60 * (60 * h + m) == -3600 * h - 60 * m
    ensures 1 * 60 * (60 * h + m) == 3600 * h + 60 * m
  {
  }

  lemma Cut5(sign: string, h: string, m: string)
    requires |sign| == 1 && |h| == 2 && |m| == 2
    ensures var s := sign + (h + ("" + m)); |s| == 5 && s[0] == sign[0] && s[1..3] == h && s[3..5] == m
  {
  }

  lemma Cut6(sign: string, h: string, m: string)
    requires |sign| == 1 && |h| == 2 && |m| == 2
    ensures var s := sign + (h + (":" + m));
            |s| == 6 && s[0] == sign[0] && s[3] == ':' && s[1..3] == h && s[4..6] == m
  {
  }

  lemma ZoneShaped(z: Zone, t: ZoneText)
    requires Writes(z, t)
    ensures ReadZone(ZoneAsText(z, t), z) == OffsetOf(t)
    ensures var s := ZoneAsText(z, t); s == "" || (!IsDigit(s[0]) && !IsPoint(s[0]))
  {
    if t.East? || t.West? {
      hide Fixed, Offset, OffsetOf;
      OffsetShaped(Sign(t)[0], t.hours, t.minutes);
      if z == ColonOrZ {
        Cut6(Sign(t), Fixed(t.hours, 2), Fixed(t.minutes, 2));
      } else {
        Cut5(Sign(t), Fixed(t.hours, 2), Fixed(t.minutes, 2));
      }
    }
  }

  lemma FixedTwo(n: nat)
    requires n < 100
    ensures Value(Fixed(n, 2)) == n
  {
    assert Pow10(2) == 100;
    FixedValue(n, 2);
  }

  lemma {:induction false} ZerosValue(digits: string, k: nat)
    requires AllDigits(digits)
    ensures var s := digits + seq(k, i => '0'); AllDigits(s) && Value(s) == Value(digits) * Pow10(k)
  {
    var zeros := seq(k, i => '0');
    if k == 0 {
      assert digits + zeros == digits;
    } else {
      var fewer := seq(k - 1, i => '0');
      ZerosValue(digits, k - 1);
      assert digits + zeros == digits + fewer + ['0'];
      ValueSnoc(digits + fewer, '0');
      TenTimesMore(Value(digits), Pow10(k - 1), Value(digits + fewer));
    }
  }

  lemma TenTimesMore(v: nat, p: nat, w: nat)
    requires w == v * p
    ensures 10 * w == v * (10 * p)
  {
  }

  /** The nanoseconds are the first nine digits, with zeros behind when there are fewer. */
  lemma NanosAre(digits: string)
    requires AllDigits(digits)
    ensures var nine := (digits + "000000000")[..9]; AllDigits(nine) && Nanos(digits) == Value(nine)
  {
    var nine := (digits + "000000000")[..9];
    if |digits| <= 9 {
      var k := 9 - |digits|;
      ZerosValue(digits, k);
      assert nine == digits + seq(k, i => '0');
    } else {
      assert nine == digits[..9];
    }
  }

  lemma {:induction false} RunOf(digits: string, rest: string)
    requires AllDigits(digits) && (rest == "" || !IsDigit(rest[0]))
    ensures DigitRun(digits + rest) == |digits|
  {
    if digits == "" {
      assert digits + rest == rest;
    } else {
      assert (digits + rest)[1..] == digits[1..] + rest;
      RunOf(digits[1..], rest);
    }
  }

  /** The digits a layout's fraction can have. */
  predicate Fits(f: Fraction, point: char, digits: string) {
    IsPoint(point) && AllDigits(digits) && (f == Millis ==> |digits| == 3)
  }

  lemma FractionShaped(f: Fraction, point: char, digits: string, zone: string)
    requires Fits(f, point, digits) && (zone == "" || (!IsDigit(zone[0]) && !IsPoint(zone[0])))
    ensures ReadFraction(FractionText(point, digits) + zone, f) == Some(Read(Nanos(digits), zone))
  {
    if digits == "" {
      NoDigits();
      assert FractionText(point, digits) + zone == zone;
    } else {
      CutFraction(point, digits, zone);
      RunOf(digits, zone);
      if f == Millis { NanosOfThree(digits); }
    }
    hide Nanos, Value, DigitRun, SmallInt;
  }

  lemma NoDigits()
    ensures Nanos("") == 0
  {
  }

  lemma CutFraction(point: char, digits: string, zone: string)
    requires digits != ""
    ensures var s := FractionText(point, digits) + zone;
            && s[1..] == digits + zone && s[0] == point && s[1] == digits[0]
            && s[1..][..|digits|] == digits && s[1..][|digits|..] == zone && |s| > |digits|
  {
    var s := FractionText(point, digits) + zone;
    assert s[1..] == digits + zone;
    assert (digits + zone)[..|digits|] == digits && (digits + zone)[|digits|..] == zone;
  }

  function SeparatorText(spaced: bool): string { if spaced then " " else "T" }

  lemma SeparatorShaped(spaced: bool, rest: string)
    requires rest != "" && rest[0] != ' '
    ensures Separator(SeparatorText(spaced) + rest, spaced) == Some(rest)
  {
    var s := SeparatorText(spaced) + rest;
    assert s[1..] == rest;
    assert CutSpaces(rest) == rest;
  }

  /** A text with all its parts: year, month and day; hour, minute and second; the digits of a fraction;
      a zone. */
  datatype Parts = Parts(y: nat, month: nat, day: nat, h: nat, m: nat, sec: nat,
                         point: char, digits: string, zone: ZoneText)

  predicate Shapes(l: Layout, p: Parts) {
    && p.y < 10000 && p.month < 100 && p.day < 100 && p.h < 100 && p.m < 100 && p.sec < 100
    && Fits(l.fraction, p.point, p.digits) && Writes(l.zone, p.zone)
  }

  function TailText(l: Layout, p: Parts): string { FractionText(p.point, p.digits) + ZoneAsText(l.zone, p.zone) }

  function TimeText(l: Layout, p: Parts): string
    requires Shapes(l, p)
  {
    Fixed(p.h, 2) + (":" + (Fixed(p.m, 2) + (":" + (Fixed(p.sec, 2) + TailText(l, p)))))
  }

  function TextOf(l: Layout, p: Parts): string
    requires Shapes(l, p)
  {
    Fixed(p.y, 4) + ("-" + (Fixed(p.month, 2) + ("-" + (Fixed(p.day, 2) + (SeparatorText(l.spaced) + TimeText(l, p))))))
  }

  /** The moment that the parts mean, if they mean one: a date of the calendar, a time of the day, an
      offset of at most 24:60; the offset taken from the wall clock. */
  function Meaning(p: Parts): Option<Instant>
    requires AllDigits(p.digits)
  {
    var d := Date(p.y, p.month, p.day);
    NanosAre(p.digits);
    if 1 <= p.month <= 12 && 1 <= p.day <= MonthLength(p.y, p.month) && p.h <= 23 && p.m <= 59 && p.sec <= 59
       && OffsetOf(p.zone).Some? then
      Some(Instant(86400 * DayNumber(d) + 3600 * p.h + 60 * p.m + p.sec - OffsetOf(p.zone).value,
                   Value((p.digits + "000000000")[..9])))
    else None
  }

  lemma TailShaped(l: Layout, p: Parts, second: int)
    requires Shapes(l, p)
    ensures ReadTail(TailText(l, p), second, l)
         == match OffsetOf(p.zone)
            case None => None
            case Some(offset) => Some(Instant(second - offset, Nanos(p.digits)))
  {
    hide ReadZone, ReadFraction, ZoneAsText, FractionText, OffsetOf, Nanos;
    ZoneShaped(l.zone, p.zone);
    FractionShaped(l.fraction, p.point, p.digits, ZoneAsText(l.zone, p.zone));
  }

  lemma FixedNonempty(n: nat, rest: string)
    ensures Fixed(n, 2) + rest != "" && (Fixed(n, 2) + rest)[0] != ' '
  {
    assert IsDigit(Fixed(n, 2)[0]);
    hide Fixed;
  }

  /** Each layout reads a text written for it as the moment its parts mean, and refuses it when they
      mean none. */
  lemma LayoutReads(l: Layout, p: Parts)
    requires Shapes(l, p)
    ensures ParseLayout(TextOf(l, p), l) == Meaning(p)
  {
    hide Fixed, ReadDate, ReadClock, ReadTail, Separator, TailText, OffsetOf, Nanos, DayNumber, MonthLength;
    var d, time := Date(p.y, p.month, p.day), TimeText(l, p);
    ReadDateShaped(p.y, p.month, p.day, SeparatorText(l.spaced) + time, TextOf(l, p));
    FixedNonempty(p.h, ":" + (Fixed(p.m, 2) + (":" + (Fixed(p.sec, 2) + TailText(l, p)))));
    SeparatorShaped(l.spaced, time);
    ReadClockShaped(p.h, p.m, p.sec, TailText(l, p), time);
    NanosAre(p.digits);
    if IsDate(d) { TailShaped(l, p, 86400 * DayNumber(d) + 3600 * p.h + 60 * p.m + p.sec); }
  }

  /** So every text written for one of the six layouts is read as the moment it means. */
  lemma ParseReads(l: Layout, p: Parts)
    requires l in LAYOUTS && Shapes(l, p) && Meaning(p).Some?
    ensures Parse(TextOf(l, p)) == Meaning(p)
  {
    LayoutReads(l, p);
    hide ParseLayout, TextOf, Meaning, Shapes;
    AnyAcceptingLayout(TextOf(l, p), LAYOUTS, l);
  }

  /** Without a zone both separators do; with a numeric one a fraction may but need not have exactly
      three digits; with Z or an offset with a colon it may have any number. */
  lemma TheLayouts(l: Layout)
    requires l.spaced ==> l.fraction == Lenient && l.zone == NoZone
    requires l.zone == NoZone || l.zone == ColonOrZ ==> l.fraction == Lenient
    requires l.zone == NumericOrZ ==> l.fraction == Millis
    ensures l in LAYOUTS
  {
    var all := LAYOUTS;
    assert all[0] in all && all[1] in all && all[2] in all && all[3] in all && all[4] in all && all[5] in all;
    assert l == Layout(l.spaced, l.fraction, l.zone);
    match l.zone
    case ColonOrZ => assert l == all[0];
    case NumericOrZ => assert l == all[2];
    case Numeric => assert l == if l.fraction == Millis then all[1] else all[3];
    case NoZone => assert l == if l.spaced then all[5] else all[4];
  }

  lemma OnlyTheLayouts(l: Layout)
    requires l in LAYOUTS
    ensures l.spaced ==> l.fraction == Lenient && l.zone == NoZone
    ensures l.zone == NoZone || l.zone == ColonOrZ ==> l.fraction == Lenient
    ensures l.zone == NumericOrZ ==> l.fraction == Millis
  {
  }

  // ----- The text that is sent -----

  lemma SentText(year: string, month: string, day: string, h: string, m: string, sec: string)
    requires |year| == 4 && |month| == |day| == |h| == |m| == |sec| == 2
    ensures var s := year + ("-" + (month + ("-" + (day + ("T" + (h + (":" + (m + (":" + (sec + "Z"))))))))));
            && |s| == 20 && s[4] == s[7] == '-' && s[10] == 'T' && s[13] == s[16] == ':' && s[19] == 'Z'
            && s == year + "-" + month + "-" + day + "T" + (h + ":" + m + ":" + sec) + "Z"
  {
  }

  predicate WholeParts(p: Parts, d: Date, second: nat) {
    && IsDate(d) && 0 <= d.year <= 9999 && second < 86400
    && p == Parts(d.year, d.month, d.day, second / 3600, second / 60 % 60, second % 60, '.', "", Zulu)
  }

  lemma WholeShapes(p: Parts, d: Date, second: nat)
    requires WholeParts(p, d, second)
    ensures Shapes(RFC_3339, p) && p.zone == Zulu && p.digits == ""
    ensures p.h < 24 && p.m < 60 && p.sec < 60 && 3600 * p.h + 60 * p.m + p.sec == second
  {
    ClockParts(second, p.h, p.m, p.sec);
    MonthBound(d);
  }

  lemma WholeMeaning(p: Parts, d: Date, second: nat)
    requires WholeParts(p, d, second)
    ensures AllDigits(p.digits) && Meaning(p) == Some(Instant(86400 * DayNumber(d) + second, 0))
  {
    WholeShapes(p, d, second);
    NoFraction();
    hide DayNumber, MonthLength, Value;
  }

  lemma WholeText(p: Parts, d: Date, second: nat)
    requires WholeParts(p, d, second)
    ensures Shapes(RFC_3339, p) && var s := TextOf(RFC_3339, p);
            s == DateText(d) + "T" + ClockText(second) + "Z" && |s| == 20 && s[10] == 'T' && s[19] == 'Z'
  {
    WholeShapes(p, d, second);
    hide Fixed, Text, IsDate;
    SentText(Fixed(p.y, 4), Fixed(p.month, 2), Fixed(p.day, 2), Fixed(p.h, 2), Fixed(p.m, 2), Fixed(p.sec, 2));
    assert TailText(RFC_3339, p) == "Z";
    assert YearText(d.year) == Fixed(p.y, 4);
  }

  function WholeOf(d: Date, second: nat): Parts
    requires IsDate(d) && d.year >= 0
  {
    Parts(d.year, d.month, d.day, second / 3600, second / 60 % 60, second % 60, '.', "", Zulu)
  }

  lemma WholeOfIs(d: Date, second: nat)
    requires IsDate(d) && 0 <= d.year <= 9999 && second < 86400
    ensures WholeParts(WholeOf(d, second), d, second)
  {
  }

  lemma WallParts(wall: int, d: Date, second: nat)
    requires d == DateAt(wall) && second == wall % 86400
    ensures IsDate(d) && second < 86400 && wall == 86400 * DayNumber(d) + second
    ensures Printed(wall) == DateText(d) + "T" + ClockText(second) + "Z"
  {
    DateAtFacts(wall);
    hide DateText, ClockText, DateAt, DayNumber, IsDate;
  }

  lemma PrintedMeans(wall: int, d: Date, second: nat) returns (p: Parts)
    requires d == DateAt(wall) && second == wall % 86400 && 0 <= d.year <= 9999
    ensures Shapes(RFC_3339, p) && p.zone == Zulu && p.digits == ""
    ensures Printed(wall) == TextOf(RFC_3339, p) && Meaning(p) == Some(Instant(wall, 0))
    ensures var s := Printed(wall); |s| == 20 && s[10] == 'T' && s[19] == 'Z'
  {
    hide *;
    WallParts(wall, d, second);
    p := WholeOf(d, second);
    WholeOfIs(d, second);
    WholeShapes(p, d, second);
    WholeMeaning(p, d, second);
    WholeText(p, d, second);
  }

  /** What is sent for a time in any zone is a text of RFC 3339 with Z behind whole seconds, and it means
      the moment of that time. */
  lemma FormatMeans(t: Time) returns (p: Parts)
    ensures 0 <= DateAt(t.At().seconds).year <= 9999 ==>
              && Shapes(RFC_3339, p) && p.zone == Zulu && p.digits == ""
              && Format(t) == TextOf(RFC_3339, p) && Meaning(p) == Some(Instant(t.At().seconds, 0))
              && |Format(t)| == 20 && Format(t)[10] == 'T' && Format(t)[19] == 'Z'
  {
    hide Shapes, TextOf, Meaning, DateAt, Printed;
    var wall := t.UTC().wall;
    p := Parts(0, 0, 0, 0, 0, 0, '.', "", Zulu);
    if 0 <= DateAt(wall).year <= 9999 { p := PrintedMeans(wall, DateAt(wall), wall % 86400); }
  }

  lemma NoFraction()
    ensures Value(("" + "000000000")[..9]) == 0
  {
    ZerosValue("", 9);
    assert ("" + "000000000")[..9] == "" + seq(9, i => '0');
  }

  lemma MonthBound(d: Date)
    requires IsDate(d)
    ensures d.month < 100 && d.day < 100
  {
  }
}
