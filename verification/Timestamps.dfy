/** Wise timestamps: the UTC text the SDK sends and the six layouts it accepts, read the way Go's
    time.Parse reads them. An instant counts seconds from 0000-01-01T00:00:00Z, plus nanoseconds. */
module Timestamps {
  import opened Wrappers
  import opened Decimal
  import opened Calendar

  datatype Instant = Instant(seconds: int, nanos: nat)

  /** A time as its zone shows it: wall counts the seconds of the local calendar and clock, and the
      zone is so many seconds east of UTC. */
  datatype Time = Time(wall: int, offset: int, nanos: nat) {
    function UTC(): Time { Time(wall - offset, 0, nanos) }

    /** The moment itself, whatever the zone. */
    function At(): Instant { Instant(wall - offset, nanos) }
  }

  // ----- Formatting -----

  /** The year as Go prints it: at least four digits, with a sign in front when negative. */
  function YearText(y: int): string {
    if y < 0 then "-" + PaddedYear(-y) else PaddedYear(y)
  }

  function PaddedYear(y: nat): string {
    if y < 10000 then Fixed(y, 4) else Text(y)
  }

  function DateText(d: Date): string
    requires IsDate(d)
  {
    YearText(d.year) + "-" + Fixed(d.month, 2) + "-" + Fixed(d.day, 2)
  }

  function ClockText(second: nat): string
  {
    Fixed(second / 3600, 2) + ":" + Fixed(second / 60 % 60, 2) + ":" + Fixed(second % 60, 2)
  }

  function DateAt(wall: int): Date { DateOf(wall / 86400) }

  /** The layout prints what the wall shows and a literal Z, whatever the zone. */
  function Printed(wall: int): string {
    DateText(DateAt(wall)) + "T" + ClockText(wall % 86400) + "Z"
  }

  function Format(t: Time): string { Printed(t.UTC().wall) }

  // ----- Layouts -----

  /** What follows the seconds: any fraction or none, or exactly three characters. */
  datatype Fraction = Lenient | Millis

  /** The zone: Z or +hh:mm, +hhmm, Z or +hhmm, or none at all. */
  datatype Zone = ColonOrZ | Numeric | NumericOrZ | NoZone

  datatype Layout = Layout(spaced: bool, fraction: Fraction, zone: Zone)

  const RFC_3339 := Layout(false, Lenient, ColonOrZ)

  const LAYOUTS: seq<Layout> := [
    RFC_3339,
    Layout(false, Millis, Numeric),
    Layout(false, Millis, NumericOrZ),
    Layout(false, Lenient, Numeric),
    Layout(false, Lenient, NoZone),
    Layout(true, Lenient, NoZone)
  ]

  // ----- Parsing -----

  /** A number read from the front of a text, with the text left. */
  datatype Read = Read(value: nat, rest: string)

  function Number(s: string, width: nat): Option<Read> {
    if |s| < width || !AllDigits(s[..width]) then None else Some(Read(Value(s[..width]), s[width..]))
  }

  /** The hour may have one digit. */
  function HourOf(s: string): Option<Read> {
    if Number(s, 2).Some? then Number(s, 2) else Number(s, 1)
  }

  function Literal(s: string, c: char): Option<string> {
    if s != [] && s[0] == c then Some(s[1..]) else None
  }

  function CutSpaces(s: string): string {
    if s != [] && s[0] == ' ' then CutSpaces(s[1..]) else s
  }

  function Separator(s: string, spaced: bool): Option<string> {
    if !spaced then Literal(s, 'T')
    else if s != [] && s[0] != ' ' then None
    else Some(CutSpaces(s))
  }

  /** Three numbers of the given widths with a separator between them. */
  function ReadDate(s: string): Option<(Date, string)> {
    match Number(s, 4)
    case None => None
    case Some(y) =>
      match Literal(y.rest, '-')
      case None => None
      case Some(s1) =>
        match Number(s1, 2)
        case None => None
        case Some(m) =>
          match Literal(m.rest, '-')
          case None => None
          case Some(s2) =>
            match Number(s2, 2)
            case None => None
            case Some(d) =>
              var date := Date(y.value, m.value, d.value);
              if IsDate(date) then Some((date, d.rest)) else None
  }

  function ReadClock(s: string): Option<Read> {
    match HourOf(s)
    case None => None
    case Some(h) =>
      match Literal(h.rest, ':')
      case None => None
      case Some(s1) =>
        match Number(s1, 2)
        case None => None
        case Some(m) =>
          match Literal(m.rest, ':')
          case None => None
          case Some(s2) =>
            match Number(s2, 2)
            case None => None
            case Some(sec) =>
              if h.value < 24 && m.value < 60 && sec.value < 60 then
                Some(Read(3600 * h.value + 60 * m.value + sec.value, sec.rest))
              else None
  }

  predicate IsPoint(c: char) { c == '.' || c == ',' }

  /** How many digits stand at the front. */
  function DigitRun(s: string): (n: nat)
    ensures n <= |s| && AllDigits(s[..n])
    ensures n < |s| ==> !IsDigit(s[n])
  {
    if s == [] || !IsDigit(s[0]) then 0 else 1 + DigitRun(s[1..])
  }

  /** The nanoseconds of a fraction's digits; those after the ninth are dropped. */
  function Nanos(digits: string): nat
    requires AllDigits(digits)
  {
    if |digits| <= 9 then Value(digits) * Pow10(9 - |digits|) else Value(digits[..9])
  }

  function ReadFraction(s: string, f: Fraction): Option<Read> {
    match f
    case Lenient =>
      if |s| >= 2 && IsPoint(s[0]) && IsDigit(s[1]) then
        var n := DigitRun(s[1..]);
        Some(Read(Nanos(s[1..][..n]), s[1..][n..]))
      else Some(Read(0, s))
    case Millis =>
      if |s| >= 4 && IsPoint(s[0]) && SmallInt(s[1..][..3]).Some? then
        Some(Read(SmallInt(s[1..][..3]).value * 1_000_000, s[1..][3..]))
      else None
  }

  predicate IsSign(c: char) { c == '+' || c == '-' }

  /** Go's time package reads a fraction of fixed width as an integer with an optional sign, and
      refuses it when negative. */
  function SmallInt(s: string): Option<nat> {
    var digits := if s != [] && IsSign(s[0]) then s[1..] else s;
    if !AllDigits(digits) || (s != [] && s[0] == '-' && Value(digits) > 0) then None else Some(Value(digits))
  }

  /** An offset of hours and minutes; Go lets 24 hours and 60 minutes pass. */
  function Offset(sign: char, hours: string, minutes: string): Option<int> {
    if IsSign(sign) && AllDigits(hours) && AllDigits(minutes) && Value(hours) <= 24 && Value(minutes) <= 60 then
      Some((if sign == '-' then -1 else 1) * 60 * (60 * Value(hours) + Value(minutes)))
    else None
  }

  /** The zone must use up the text. */
  function ReadZone(s: string, z: Zone): Option<int> {
    if z == NoZone then (if s == [] then Some(0) else None)
    else if z != Numeric && s == "Z" then Some(0)
    else if z == ColonOrZ then
      if |s| == 6 && s[3] == ':' then Offset(s[0], s[1..3], s[4..6]) else None
    else if |s| == 5 then Offset(s[0], s[1..3], s[3..5])
    else None
  }

  function ReadTail(s: string, second: int, l: Layout): Option<Instant> {
    match ReadFraction(s, l.fraction)
    case None => None
    case Some(f) =>
      match ReadZone(f.rest, l.zone)
      case None => None
      case Some(offset) => Some(Instant(second - offset, f.value))
  }

  function ParseLayout(s: string, l: Layout): Option<Instant> {
    match ReadDate(s)
    case None => None
    case Some((date, s1)) =>
      match Separator(s1, l.spaced)
      case None => None
      case Some(s2) =>
        match ReadClock(s2)
        case None => None
        case Some(clock) => ReadTail(clock.rest, 86400 * DayNumber(date) + clock.value, l)
  }

  /** The first layout that accepts decides. */
  function ParseAny(s: string, layouts: seq<Layout>): Option<Instant> {
    if layouts == [] then None
    else if ParseLayout(s, layouts[0]).Some? then ParseLayout(s, layouts[0])
    else ParseAny(s, layouts[1..])
  }

  function Parse(s: string): Option<Instant> { ParseAny(s, LAYOUTS) }

  // ----- The order of the layouts does not matter -----

  lemma ZoneStart(s: string, z: Zone)
    requires ReadZone(s, z).Some?
    ensures s == [] || (!IsDigit(s[0]) && !IsPoint(s[0]))
  {
  }

  lemma ZonesAgree(s: string, y: Zone, z: Zone)
    requires ReadZone(s, y).Some? && ReadZone(s, z).Some?
    ensures ReadZone(s, y) == ReadZone(s, z)
  {
  }

  lemma RunOfThree(s: string)
    requires |s| >= 3 && AllDigits(s[..3]) && (|s| > 3 ==> !IsDigit(s[3]))
    ensures DigitRun(s) == 3
  {
    assert IsDigit(s[..3][0]) && IsDigit(s[..3][1]) && IsDigit(s[..3][2]);
    assert s[1..][1..][1..] == s[3..];
    assert DigitRun(s[3..]) == 0;
    assert DigitRun(s[1..][1..]) == 1;
    assert DigitRun(s[1..]) == 2;
  }

  lemma NanosOfThree(digits: string)
    requires |digits| == 3 && AllDigits(digits)
    ensures Nanos(digits) == Value(digits) * 1_000_000
    ensures SmallInt(digits) == Some(Value(digits))
  {
    assert Pow10(6) == 1_000_000;
    assert IsDigit(digits[0]);
    hide Value;
  }

  /** Three digits are read alike by both kinds of fraction; with a sign, the lenient kind leaves them
      to the zone, and no zone starts with a point. */
  lemma FractionsAgree(s: string, f: Fraction, g: Fraction, y: Zone, z: Zone)
    requires ReadFraction(s, f).Some? && ReadFraction(s, g).Some?
    requires ReadZone(ReadFraction(s, f).value.rest, y).Some? && ReadZone(ReadFraction(s, g).value.rest, z).Some?
    ensures ReadFraction(s, f) == ReadFraction(s, g)
  {
    if f != g {
      var lenient, millis := if f == Millis then z else y, if f == Millis then y else z;
      LenientFirst(s, lenient);
      var t := s[1..];
      ZoneStart(t[3..], millis);
      assert t[..3][0] == t[0] == s[1];
      assert |t| > 3 ==> t[3..][0] == t[3];
      RunOfThree(t);
      NanosOfThree(t[..3]);
      hide Nanos, Value, ReadZone;
    }
  }

  lemma LenientFirst(s: string, z: Zone)
    requires ReadFraction(s, Lenient).Some? && ReadZone(ReadFraction(s, Lenient).value.rest, z).Some?
    ensures |s| >= 2 && IsPoint(s[0]) ==> IsDigit(s[1])
  {
    ZoneStart(ReadFraction(s, Lenient).value.rest, z);
  }

  /** Two layouts that both accept a text read the same instant from it. */
  lemma LayoutsAgree(s: string, k: Layout, l: Layout)
    requires ParseLayout(s, k).Some? && ParseLayout(s, l).Some?
    ensures ParseLayout(s, k) == ParseLayout(s, l)
  {
    hide ReadClock, ReadFraction, ReadZone, IsDate, DayNumber, Number, CutSpaces;
    var s1 := ReadDate(s).value.1;
    SpacedDiffer(s1);
    var rest := ReadClock(Separator(s1, k.spaced).value).value.rest;
    FractionsAgree(rest, k.fraction, l.fraction, k.zone, l.zone);
    ZonesAgree(ReadFraction(rest, k.fraction).value.rest, k.zone, l.zone);
  }

  lemma SpacedDiffer(s: string)
    ensures !(Separator(s, true).Some? && Separator(s, false).Some?)
  {
  }

  lemma {:induction false} AnyAcceptingLayout(s: string, layouts: seq<Layout>, l: Layout)
    requires l in layouts && ParseLayout(s, l).Some?
    ensures ParseAny(s, layouts) == ParseLayout(s, l)
  {
    hide ParseLayout;
    if ParseLayout(s, layouts[0]).Some? {
      LayoutsAgree(s, layouts[0], l);
    } else {
      AnyAcceptingLayout(s, layouts[1..], l);
    }
  }

  /** Any list of the same layouts parses alike, in whatever order they are tried. */
  lemma LayoutOrderIrrelevant(s: string, layouts: seq<Layout>)
    requires forall l :: l in layouts <==> l in LAYOUTS
    ensures ParseAny(s, layouts) == Parse(s)
  {
    hide ParseLayout;
    if exists l <- LAYOUTS :: ParseLayout(s, l).Some? {
      var l :| l in LAYOUTS && ParseLayout(s, l).Some?;
      AnyAcceptingLayout(s, layouts, l);
      AnyAcceptingLayout(s, LAYOUTS, l);
    } else {
      NoneAccepts(s, layouts);
      NoneAccepts(s, LAYOUTS);
    }
  }

  lemma {:induction false} NoneAccepts(s: string, layouts: seq<Layout>)
    requires forall l <- layouts :: ParseLayout(s, l).None?
    ensures ParseAny(s, layouts).None?
  {
    hide ParseLayout;
    if layouts != [] { NoneAccepts(s, layouts[1..]); }
  }

  // ----- Round trip -----

  lemma NumberOf(n: nat, w: nat, rest: string, s: string)
    requires n < Pow10(w) && s == Fixed(n, w) + rest
    ensures Number(s, w) == Some(Read(n, rest))
  {
    FixedValue(n, w);
    assert s[..w] == Fixed(n, w);
  }

  lemma NumberOfTwo(n: nat, rest: string, s: string)
    requires n < 100 && s == Fixed(n, 2) + rest
    ensures Number(s, 2) == Some(Read(n, rest))
  {
    assert Pow10(2) == 100;
    hide Number, Fixed;
    NumberOf(n, 2, rest, s);
  }

  lemma NumberOfFour(n: nat, rest: string, s: string)
    requires n < 10000 && s == Fixed(n, 4) + rest
    ensures Number(s, 4) == Some(Read(n, rest))
  {
    assert Pow10(4) == 10000;
    hide Number, Fixed;
    NumberOf(n, 4, rest, s);
  }

  lemma LiteralOf(c: char, rest: string, s: string)
    requires s == [c] + rest
    ensures Literal(s, c) == Some(rest)
  {
  }

  /** A date of four, two and two digits is read as it stands, and refused when it is none. */
  lemma ReadDateShaped(y: nat, month: nat, day: nat, rest: string, s: string)
    requires y < 10000 && month < 100 && day < 100
    requires s == Fixed(y, 4) + ("-" + (Fixed(month, 2) + ("-" + (Fixed(day, 2) + rest))))
    ensures ReadDate(s) == if IsDate(Date(y, month, day)) then Some((Date(y, month, day), rest)) else None
  {
    hide Number, Literal, Fixed, Text, IsDate;
    var s4 := Fixed(day, 2) + rest;
    var s3 := "-" + s4;
    var s2 := Fixed(month, 2) + s3;
    var s1 := "-" + s2;
    NumberOfFour(y, s1, s);
    LiteralOf('-', s2, s1);
    NumberOfTwo(month, s3, s2);
    LiteralOf('-', s4, s3);
    NumberOfTwo(day, rest, s4);
  }

  lemma ReadDateText(d: Date, rest: string)
    requires IsDate(d) && 0 <= d.year < 10000
    ensures ReadDate(DateText(d) + rest) == Some((d, rest))
  {
    hide ReadDate, Fixed, Text;
    DateTextParts(d, rest);
    ReadDateShaped(d.year, d.month, d.day, rest, DateText(d) + rest);
  }

  lemma DateTextParts(d: Date, rest: string)
    requires IsDate(d) && 0 <= d.year < 10000
    ensures DateText(d) + rest == Fixed(d.year, 4) + ("-" + (Fixed(d.month, 2) + ("-" + (Fixed(d.day, 2) + rest))))
  {
    hide Fixed, Text;
  }

  /** Likewise a clock, which must be under 24:60:60 in each of its parts. */
  lemma ReadClockShaped(h: nat, m: nat, sec: nat, rest: string, s: string)
    requires h < 100 && m < 100 && sec < 100
    requires s == Fixed(h, 2) + (":" + (Fixed(m, 2) + (":" + (Fixed(sec, 2) + rest))))
    ensures ReadClock(s)
         == if h < 24 && m < 60 && sec < 60 then Some(Read(3600 * h + 60 * m + sec, rest)) else None
  {
    hide Number, Literal, Fixed;
    var s4 := Fixed(sec, 2) + rest;
    var s3 := ":" + s4;
    var s2 := Fixed(m, 2) + s3;
    var s1 := ":" + s2;
    NumberOfTwo(h, s1, s);
    LiteralOf(':', s2, s1);
    NumberOfTwo(m, s3, s2);
    LiteralOf(':', s4, s3);
    NumberOfTwo(sec, rest, s4);
  }

  lemma ReadClockText(second: nat, rest: string)
    requires second < 86400
    ensures ReadClock(ClockText(second) + rest) == Some(Read(second, rest))
  {
    hide ReadClock, Fixed;
    var h, m, sec := second / 3600, second / 60 % 60, second % 60;
    ClockParts(second, h, m, sec);
    assert ClockText(second) + rest == Fixed(h, 2) + (":" + (Fixed(m, 2) + (":" + (Fixed(sec, 2) + rest))));
    ReadClockShaped(h, m, sec, rest, ClockText(second) + rest);
  }

  lemma ClockParts(second: nat, h: nat, m: nat, sec: nat)
    requires second < 86400 && h == second / 3600 && m == second / 60 % 60 && sec == second % 60
    ensures h < 24 && m < 60 && sec < 60 && 3600 * h + 60 * m + sec == second
  {
    assert second / 3600 == second / 60 / 60;
  }

  lemma ParseParts(s: string, l: Layout, date: Date, s1: string, s2: string, clock: Read)
    requires ReadDate(s) == Some((date, s1)) && Separator(s1, l.spaced) == Some(s2) && ReadClock(s2) == Some(clock)
    ensures IsDate(date)
    ensures ParseLayout(s, l) == ReadTail(clock.rest, 86400 * DayNumber(date) + clock.value, l)
  {
    hide Number, Literal, ReadClock, ReadTail, Separator;
  }

  lemma ReadZ(second: int)
    ensures ReadTail("Z", second, RFC_3339) == Some(Instant(second, 0))
  {
  }

  lemma Regroup(a: string, b: string)
    ensures a + "T" + b + "Z" == a + ("T" + (b + "Z"))
  {
  }

  lemma SeparatorT(s: string)
    ensures Separator(s, RFC_3339.spaced) == Literal(s, 'T')
  {
  }

  lemma FormattedAt(d: Date, second: nat, clock: string, s: string)
    requires IsDate(d) && 0 <= d.year <= 9999 && second < 86400 && clock == ClockText(second) + "Z"
    requires s == DateText(d) + ("T" + clock)
    ensures ParseLayout(s, RFC_3339) == Some(Instant(86400 * DayNumber(d) + second, 0))
  {
    hide *;
    var s1 := "T" + clock;
    LiteralOf('T', clock, s1);
    SeparatorT(s1);
    ReadZ(86400 * DayNumber(d) + second);
    ReadDateText(d, s1);
    ReadClockText(second, "Z");
    ParseParts(s, RFC_3339, d, s1, clock, Read(second, "Z"));
  }

  lemma FormattedUTC(wall: int)
    ensures 0 <= DateAt(wall).year <= 9999 ==> ParseLayout(Printed(wall), RFC_3339) == Some(Instant(wall, 0))
  {
    hide *;
    var d, second := DateAt(wall), wall % 86400;
    var clock := ClockText(second) + "Z";
    DateAtFacts(wall);
    FormatIs(wall, d, second, clock);
    if 0 <= d.year <= 9999 { FormattedAt(d, second, clock, Printed(wall)); }
  }

  lemma DateAtFacts(wall: int)
    ensures IsDate(DateAt(wall)) && wall == 86400 * DayNumber(DateAt(wall)) + wall % 86400
  {
    hide DayNumber, IsDate;
  }

  lemma FormatIs(wall: int, d: Date, second: nat, clock: string)
    requires d == DateAt(wall) && second == wall % 86400 && clock == ClockText(second) + "Z"
    ensures Printed(wall) == DateText(d) + ("T" + clock)
  {
    DateAtFacts(wall);
    hide DateText, ClockText, DateAt, IsDate;
    Regroup(DateText(d), ClockText(second));
  }

  /** Every layout wants four digits and a dash first. */
  lemma DashAfterYear(s: string, l: Layout)
    ensures ParseLayout(s, l).Some? ==> |s| >= 5 && IsDigit(s[0]) && s[4] == '-'
  {
    hide ReadClock, ReadTail, IsDate, CutSpaces;
    if |s| >= 5 && AllDigits(s[..4]) {
      assert IsDigit(s[..4][0]);
      assert s[4..][0] == s[4];
    }
  }

  lemma LongYear(y: int, rest: string, s: string)
    requires !(0 <= y <= 9999) && s == YearText(y) + rest
    ensures !(|s| >= 5 && IsDigit(s[0]) && s[4] == '-')
  {
    assert Pow10(4) == 10000;
    if y > 9999 {
      TextLength(y, 4);
      assert IsDigit(Text(y)[4]);
    }
  }

  lemma LongYearRejected(wall: int, l: Layout)
    ensures 0 <= DateAt(wall).year <= 9999 || ParseLayout(Printed(wall), l).None?
  {
    var s, y := Printed(wall), DateAt(wall).year;
    var rest := s[|YearText(y)|..];
    assert s == YearText(y) + rest;
    hide YearText, ParseLayout;
    if !(0 <= y <= 9999) { LongYear(y, rest, s); }
    DashAfterYear(s, l);
  }

  lemma ParsePrinted(wall: int)
    ensures Parse(Printed(wall)) == Some(Instant(wall, 0)) <==> 0 <= DateAt(wall).year <= 9999
  {
    hide ParseLayout, Printed, DateAt;
    if 0 <= DateAt(wall).year <= 9999 {
      FormattedUTC(wall);
      assert LAYOUTS[0] == RFC_3339;
    } else {
      forall l <- LAYOUTS
        ensures ParseLayout(Printed(wall), l).None?
      {
        LongYearRejected(wall, l);
      }
      NoneAccepts(Printed(wall), LAYOUTS);
    }
  }

  /** What the SDK sends for a time in any zone it also reads back, as the same moment truncated to
      whole seconds, exactly when the moment's year in UTC is 0 to 9999. Printed without the change to
      UTC, a time would be read back as that moment only in zones that show what UTC shows. */
  lemma ParseFormat(t: Time)
    ensures Parse(Format(t)) == Some(Instant(t.At().seconds, 0)) <==> 0 <= DateAt(t.At().seconds).year <= 9999
    ensures 0 <= DateAt(t.wall).year <= 9999 ==>
              (Parse(Printed(t.wall)) == Some(Instant(t.At().seconds, 0)) <==> t.offset == 0)
  {
    ParsePrinted(t.UTC().wall);
    ParsePrinted(t.wall);
    hide Parse, Printed, DateAt;
  }
}
