/** The RFC 3339 and RFC 1123 timestamps of a second since the epoch: how they order, what they
    determine, and the weekday they name. */
module Timestamps {
  import opened Calendar
  import opened Text

  // ---- Numbers as text ------------------------------------------------------------------

  function Zeros(n: nat): (r: string)
    ensures |r| == n
  {
    if n == 0 then "" else "0" + Zeros(n - 1)
  }

  /** `{:0w}`: at least `w` digits, zeros on the left. */
  function Pad(n: nat, w: nat): string {
    var digits := Decimal(n);
    if |digits| >= w then digits else Zeros(w - |digits|) + digits
  }

  function Power10(w: nat): nat {
    if w == 0 then 1 else 10 * Power10(w - 1)
  }

  /** Exactly `w` digits, the last ones of `n`. */
  function Fixed(n: nat, w: nat): (r: string)
    ensures |r| == w
  {
    if w == 0 then "" else Fixed(n / 10, w - 1) + [Digit(n % 10)]
  }

  lemma {:induction false} FixedZero(w: nat)
    ensures Fixed(0, w) == Zeros(w)
  {
    if w > 0 {
      FixedZero(w - 1);
      ZerosEnd(w - 1);
    }
  }

  lemma {:induction false} ZerosEnd(w: nat)
    ensures Zeros(w) + "0" == "0" + Zeros(w)
  {
    if w > 0 {
      ZerosEnd(w - 1);
      assert Zeros(w) + "0" == "0" + (Zeros(w - 1) + "0");
    }
  }

  /** A number that fits in `w` digits is padded to exactly its `w` last digits. */
  lemma {:induction false} PadIsFixed(n: nat, w: nat)
    requires w > 0 && n < Power10(w)
    ensures |Decimal(n)| <= w && Pad(n, w) == Fixed(n, w)
  {
    if n < 10 {
      FixedZero(w - 1);
      assert n / 10 == 0 && n % 10 == n;
    } else {
      assert w > 1;
      PadIsFixed(n / 10, w - 1);
      var digits := Decimal(n / 10);
      assert Zeros(w - 1 - |digits|) + (digits + [Digit(n % 10)]) == (Zeros(w - 1 - |digits|) + digits) + [Digit(n % 10)];
    }
  }

  // ---- Lexicographic order --------------------------------------------------------------

  predicate Less(a: string, b: string) {
    b != "" && (a == "" || a[0] < b[0] || (a[0] == b[0] && Less(a[1..], b[1..])))
  }

  lemma {:induction false} NotLessThanItself(a: string)
    ensures !Less(a, a)
  {
    if a != "" { NotLessThanItself(a[1..]); }
  }

  /** Texts that start with parts of one length compare by those parts first. */
  lemma {:induction false} LessByParts(a: string, b: string, c: string, d: string)
    requires |a| == |b|
    ensures Less(a + c, b + d) <==> Less(a, b) || (a == b && Less(c, d))
  {
    if a == "" {
      assert a + c == c && b + d == d;
    } else {
      assert (a + c)[1..] == a[1..] + c && (b + d)[1..] == b[1..] + d;
      LessByParts(a[1..], b[1..], c, d);
      assert a == [a[0]] + a[1..] && b == [b[0]] + b[1..];
    }
  }

  lemma {:induction false} FixedOrder(n: nat, m: nat, w: nat)
    requires n < Power10(w) && m < Power10(w)
    ensures Less(Fixed(n, w), Fixed(m, w)) <==> n < m
    ensures Fixed(n, w) == Fixed(m, w) <==> n == m
  {
    if w > 0 {
      FixedOrder(n / 10, m / 10, w - 1);
      var a, b := Fixed(n / 10, w - 1), Fixed(m / 10, w - 1);
      var c, d := [Digit(n % 10)], [Digit(m % 10)];
      LessByParts(a, b, c, d);
      assert Less(c, d) <==> n % 10 < m % 10;
      assert a + c == b + d <==> a == b && c == d by {
        assert (a + c)[..w - 1] == a && (b + d)[..w - 1] == b;
        assert (a + c)[w - 1] == c[0] && (b + d)[w - 1] == d[0];
      }
    }
  }

  // ---- Fields with separators -------------------------------------------------------------

  datatype Field = Field(width: nat, separator: char)

  /** Each value padded to its field's width and followed by the field's separator. */
  function Stamp(values: seq<nat>, shape: seq<Field>): string
    requires |values| == |shape|
  {
    if values == [] then ""
    else Pad(values[0], shape[0].width) + ([shape[0].separator] + Stamp(values[1..], shape[1..]))
  }

  predicate Fits(values: seq<nat>, shape: seq<Field>) {
    && |values| == |shape|
    && forall i :: 0 <= i < |values| ==> shape[i].width > 0 && values[i] < Power10(shape[i].width)
  }

  predicate Before(a: seq<nat>, b: seq<nat>)
    requires |a| == |b|
  {
    a != [] && (a[0] < b[0] || (a[0] == b[0] && Before(a[1..], b[1..])))
  }

  /** Stamps of one shape compare as text exactly as their values compare in order. */
  lemma {:induction false} StampOrder(a: seq<nat>, b: seq<nat>, shape: seq<Field>)
    requires Fits(a, shape) && Fits(b, shape)
    ensures Less(Stamp(a, shape), Stamp(b, shape)) <==> Before(a, b)
  {
    if a != [] {
      var w := shape[0].width;
      PadIsFixed(a[0], w);
      PadIsFixed(b[0], w);
      FixedOrder(a[0], b[0], w);
      var separator := [shape[0].separator];
      var x, y := Stamp(a[1..], shape[1..]), Stamp(b[1..], shape[1..]);
      LessByParts(Fixed(a[0], w), Fixed(b[0], w), separator + x, separator + y);
      LessByParts(separator, separator, x, y);
      NotLessThanItself(separator);
      StampOrder(a[1..], b[1..], shape[1..]);
    }
  }

  // ---- Seconds ----------------------------------------------------------------------------

  function Days(secs: nat): nat { secs / 86400 }
  function Hours(secs: nat): nat { secs % 86400 / 3600 }
  function Minutes(secs: nat): nat { secs % 86400 % 3600 / 60 }
  function Seconds(secs: nat): nat { secs % 86400 % 60 }

  const RFC3339 := [Field(4, '-'), Field(2, '-'), Field(2, 'T'), Field(2, ':'), Field(2, ':'), Field(2, 'Z')]

  function Fields(secs: nat): (r: seq<nat>)
    ensures |r| == 6
  {
    var date := CivilFromDays(Days(secs));
    ConversionInRange(Days(secs));
    [date.year, date.month, date.day] + [Hours(secs), Minutes(secs), Seconds(secs)]
  }

  /** `format_rfc3339`, at or after the epoch. */
  function FormatRfc3339(secs: nat): string {
    Stamp(Fields(secs), RFC3339)
  }

  // ---- RFC 3339: text order is time order ---------------------------------------------------

  /** The day 10000-01-01, counted from the epoch. */
  const DAYS_TO_10000 := 2_932_897

  /** The seconds before the year 10000. */
  predicate FourDigitYear(secs: nat) {
    secs < 86400 * DAYS_TO_10000
  }

  lemma FirstDayOf10000()
    ensures CivilFromDays(DAYS_TO_10000) == Date(10000, 1, 1)
  {
    CivilOf(DAYS_TO_10000, 399, 306);
  }

  /** They are exactly the seconds whose year has at most four digits. */
  lemma FourDigitYearIff(secs: nat)
    ensures FourDigitYear(secs) <==> CivilFromDays(Days(secs)).year <= 9999
  {
    FirstDayOf10000();
    ConversionInRange(Days(secs));
    if Days(secs) != DAYS_TO_10000 {
      DaysOrder(Days(secs), DAYS_TO_10000);
    }
  }

  lemma FieldsFit(secs: nat)
    requires FourDigitYear(secs)
    ensures Fits(Fields(secs), RFC3339)
  {
    FourDigitYearIff(secs);
    ConversionInRange(Days(secs));
    assert Power10(2) == 100;
    assert Power10(4) == 100 * Power10(2);
  }

  lemma {:induction false} BeforeByParts(a: seq<nat>, b: seq<nat>, c: seq<nat>, d: seq<nat>)
    requires |a| == |b| && |c| == |d|
    ensures Before(a + c, b + d) <==> Before(a, b) || (a == b && Before(c, d))
  {
    if a == [] {
      assert a + c == c && b + d == d;
    } else {
      assert (a + c)[1..] == a[1..] + c && (b + d)[1..] == b[1..] + d;
      BeforeByParts(a[1..], b[1..], c, d);
      assert a == [a[0]] + a[1..] && b == [b[0]] + b[1..];
    }
  }

  lemma BeforeTriple(x: nat, y: nat, z: nat, u: nat, v: nat, w: nat)
    ensures Before([x, y, z], [u, v, w]) <==> x < u || (x == u && (y < v || (y == v && z < w)))
  {
    assert [x, y, z] == [x] + ([y] + [z]) && [u, v, w] == [u] + ([v] + [w]);
    BeforeByParts([x], [u], [y] + [z], [v] + [w]);
    BeforeByParts([y], [v], [z], [w]);
    BeforeOne(x, u);
    BeforeOne(y, v);
    BeforeOne(z, w);
  }

  lemma BeforeOne(x: nat, u: nat)
    ensures Before([x], [u]) <==> x < u
    ensures [x] == [u] <==> x == u
  {
    assert [x][0] == x && [u][0] == u;
  }

  predicate ClockBefore(s: nat, t: nat) {
    Hours(s) < Hours(t) || (Hours(s) == Hours(t) && (Minutes(s) < Minutes(t) || (Minutes(s) == Minutes(t) && Seconds(s) < Seconds(t))))
  }

  lemma FieldsBefore(s: nat, t: nat)
    ensures var d := CivilFromDays(Days(s)); var e := CivilFromDays(Days(t));
            Before(Fields(s), Fields(t)) <==> Earlier(d, e) || (d == e && ClockBefore(s, t))
  {
    var d, e := CivilFromDays(Days(s)), CivilFromDays(Days(t));
    ConversionInRange(Days(s));
    ConversionInRange(Days(t));
    var ds: seq<nat>, es: seq<nat> := [d.year, d.month, d.day], [e.year, e.month, e.day];
    BeforeByParts(ds, es, [Hours(s), Minutes(s), Seconds(s)], [Hours(t), Minutes(t), Seconds(t)]);
    BeforeTriple(d.year, d.month, d.day, e.year, e.month, e.day);
    BeforeTriple(Hours(s), Minutes(s), Seconds(s), Hours(t), Minutes(t), Seconds(t));
    assert ds == es ==> ds[0] == es[0] && ds[1] == es[1] && ds[2] == es[2];
  }

  /** The fields of a later second come later, field by field. */
  lemma FieldsOrder(s: nat, t: nat)
    ensures Before(Fields(s), Fields(t)) <==> s < t
  {
    FieldsBefore(s, t);
    if Days(s) == Days(t) {
      TimeOfDayOrder(s, t);
    } else {
      DaysOrder(Days(s), Days(t));
    }
  }

  lemma DaysOrder(a: nat, b: nat)
    requires a != b
    ensures CivilFromDays(a) != CivilFromDays(b)
    ensures Earlier(CivilFromDays(a), CivilFromDays(b)) <==> a < b
  {
    CivilIsTheCalendar(a);
    CivilIsTheCalendar(b);
    DateOrder(if a < b then a else b, if a < b then b else a);
  }

  lemma TimeOfDayOrder(s: nat, t: nat)
    requires Days(s) == Days(t)
    ensures s < t <==> ClockBefore(s, t)
  {
    ClockSplits(s);
    ClockSplits(t);
  }

  lemma RemainderOfMinutes(minutes: nat, seconds: nat)
    requires seconds < 60
    ensures (60 * minutes + seconds) % 60 == seconds
  {
  }

  lemma ClockSplits(s: nat)
    ensures s == 86400 * Days(s) + 3600 * Hours(s) + 60 * Minutes(s) + Seconds(s)
    ensures Hours(s) < 24 && Minutes(s) < 60 && Seconds(s) < 60
  {
    var tod := s % 86400;
    var (hours, rest) := (tod / 3600, tod % 3600);
    RemainderOfMinutes(60 * hours + rest / 60, rest % 60);
    assert tod == 60 * (60 * hours + rest / 60) + rest % 60;
  }

  /** From 1970 through 9999 the RFC 3339 text orders like time and determines the second. */
  lemma Rfc3339Order(s: nat, t: nat)
    requires FourDigitYear(s) && FourDigitYear(t)
    ensures Less(FormatRfc3339(s), FormatRfc3339(t)) <==> s < t
    ensures FormatRfc3339(s) == FormatRfc3339(t) <==> s == t
  {
    FieldsFit(s);
    FieldsFit(t);
    StampOrder(Fields(s), Fields(t), RFC3339);
    FieldsOrder(s, t);
    StampOrder(Fields(t), Fields(s), RFC3339);
    FieldsOrder(t, s);
    NotLessThanItself(FormatRfc3339(s));
  }

  /** The text of six fields, digits and separators by position. */
  function Shape(f: seq<nat>): (r: string)
    requires |f| == 6
    ensures |r| == 20
  {
    Fixed(f[0], 4) + ("-" + (Fixed(f[1], 2) + ("-" + (Fixed(f[2], 2) + ("T" +
    (Fixed(f[3], 2) + (":" + (Fixed(f[4], 2) + (":" + (Fixed(f[5], 2) + "Z"))))))))))
  }

  lemma StampUnfolds(values: seq<nat>, shape: seq<Field>, i: nat)
    requires Fits(values, shape) && i < |values|
    ensures Stamp(values[i..], shape[i..]) ==
            Fixed(values[i], shape[i].width) + ([shape[i].separator] + Stamp(values[i + 1..], shape[i + 1..]))
  {
    PadIsFixed(values[i], shape[i].width);
    assert values[i..][1..] == values[i + 1..] && shape[i..][1..] == shape[i + 1..];
  }

  lemma StampHasShape(f: seq<nat>)
    requires Fits(f, RFC3339)
    ensures Stamp(f, RFC3339) == Shape(f)
  {
    assert f[0..] == f && RFC3339[0..] == RFC3339;
    StampUnfolds(f, RFC3339, 0);
    StampUnfolds(f, RFC3339, 1);
    StampUnfolds(f, RFC3339, 2);
    StampUnfolds(f, RFC3339, 3);
    StampUnfolds(f, RFC3339, 4);
    StampUnfolds(f, RFC3339, 5);
    assert ['Z'] + Stamp(f[6..], RFC3339[6..]) == "Z";
  }

  /** The text has the fixed form of section 5.6 of RFC 3339: four digits for the year, two for
      every other field, twenty characters in all. */
  lemma Rfc3339Shape(secs: nat)
    requires FourDigitYear(secs)
    ensures FormatRfc3339(secs) == Shape(Fields(secs))
  {
    FieldsFit(secs);
    StampHasShape(Fields(secs));
  }

  // ---- Reading a text by position -------------------------------------------------------------

  /** The number that a text of digits stands for. */
  function Read(text: string): int {
    if text == "" then 0 else 10 * Read(text[..|text| - 1]) + (text[|text| - 1] as int - '0' as int)
  }

  lemma {:induction false} ReadFixed(n: nat, w: nat)
    requires n < Power10(w)
    ensures Read(Fixed(n, w)) == n
  {
    if w > 0 {
      var text := Fixed(n, w);
      assert text[..|text| - 1] == Fixed(n / 10, w - 1) && text[|text| - 1] == Digit(n % 10);
      ReadFixed(n / 10, w - 1);
    }
  }

  /** The date and time that a second since the epoch is: the day reached by counting from 1970-01-01,
      and the time of day. */
  predicate IsMoment(secs: nat, date: Date, hour: int, minute: int, second: int) {
    && date == DateAfter(secs / 86400)
    && secs % 86400 == 3600 * hour + 60 * minute + second
    && 0 <= hour < 24 && 0 <= minute < 60 && 0 <= second < 60
  }

  /** A part of a text, the separator behind it, and what follows. */
  lemma PartAt(text: string, k: nat, part: string, separator: string, rest: string)
    requires k <= |text| && text[k..] == part + (separator + rest)
    ensures var i := k + |part|; var j := i + |separator|;
            j <= |text| && text[k..i] == part && text[i..j] == separator && text[j..] == rest
  {
    var tail := text[k..];
    assert |tail| == |part| + |separator| + |rest|;
    assert tail[..|part|] == part && tail[|part|..] == separator + rest;
    assert tail[|part|..][..|separator|] == separator && tail[|part|..][|separator|..] == rest;
  }

  /** The same for a number. */
  lemma NumberAt(text: string, k: nat, n: nat, w: nat, separator: string, rest: string)
    requires k <= |text| && n < Power10(w) && text[k..] == Fixed(n, w) + (separator + rest)
    ensures var i := k + w; var j := i + |separator|;
            j <= |text| && Read(text[k..i]) == n && text[i..j] == separator && text[j..] == rest
  {
    PartAt(text, k, Fixed(n, w), separator, rest);
    ReadFixed(n, w);
  }

  /** The last number and what closes the text. */
  lemma NumberLast(text: string, k: nat, n: nat, w: nat, end: string)
    requires k <= |text| && n < Power10(w) && text[k..] == Fixed(n, w) + end
    ensures k + w <= |text| && Read(text[k..k + w]) == n && text[k + w..] == end
  {
    NumberAt(text, k, n, w, end, "");
  }

  lemma ClockIsMoment(secs: nat)
    ensures IsMoment(secs, CivilFromDays(Days(secs)), Hours(secs), Minutes(secs), Seconds(secs))
  {
    ClockSplits(secs);
    CivilIsTheCalendar(Days(secs));
  }

  /** What the twenty characters of section 5.6 of RFC 3339 say, read by position. */
  predicate Says3339(text: string, date: Date, hour: int, minute: int, second: int) {
    && |text| == 20
    && Read(text[0..4]) == date.year && text[4..5] == "-" && Read(text[5..7]) == date.month && text[7..8] == "-"
    && Read(text[8..10]) == date.day && text[10..11] == "T"
    && Read(text[11..13]) == hour && text[13..14] == ":" && Read(text[14..16]) == minute && text[16..17] == ":"
    && Read(text[17..19]) == second && text[19..] == "Z"
  }

  lemma IsoDateSays(text: string, f: seq<nat>, clock: string)
    requires |f| == 6 && f[0] < 10000 && f[1] < 100 && f[2] < 100
    requires text == Fixed(f[0], 4) + ("-" + (Fixed(f[1], 2) + ("-" + (Fixed(f[2], 2) + ("T" + clock)))))
    ensures |text| == 11 + |clock| && text[11..] == clock
    ensures Read(text[0..4]) == f[0] && text[4..5] == "-" && Read(text[5..7]) == f[1] && text[7..8] == "-"
    ensures Read(text[8..10]) == f[2] && text[10..11] == "T"
  {
    assert Power10(2) == 100;
    assert Power10(4) == 100 * Power10(2);
    var day := Fixed(f[2], 2) + ("T" + clock);
    assert text[0..] == text;
    NumberAt(text, 0, f[0], 4, "-", Fixed(f[1], 2) + ("-" + day));
    NumberAt(text, 5, f[1], 2, "-", day);
    NumberAt(text, 8, f[2], 2, "T", clock);
  }

  lemma IsoClockSays(text: string, f: seq<nat>)
    requires |f| == 6 && f[3] < 100 && f[4] < 100 && f[5] < 100 && |text| == 20
    requires text[11..] == Fixed(f[3], 2) + (":" + (Fixed(f[4], 2) + (":" + (Fixed(f[5], 2) + "Z"))))
    ensures Read(text[11..13]) == f[3] && text[13..14] == ":" && Read(text[14..16]) == f[4] && text[16..17] == ":"
    ensures Read(text[17..19]) == f[5] && text[19..] == "Z"
  {
    assert Power10(2) == 100;
    NumberAt(text, 11, f[3], 2, ":", Fixed(f[4], 2) + (":" + (Fixed(f[5], 2) + "Z")));
    NumberAt(text, 14, f[4], 2, ":", Fixed(f[5], 2) + "Z");
    NumberLast(text, 17, f[5], 2, "Z");
  }

  lemma ShapeSays(f: seq<nat>)
    requires |f| == 6 && f[0] < 10000 && forall i :: 1 <= i < 6 ==> f[i] < 100
    ensures Says3339(Shape(f), Date(f[0], f[1], f[2]), f[3], f[4], f[5])
  {
    var clock := Fixed(f[3], 2) + (":" + (Fixed(f[4], 2) + (":" + (Fixed(f[5], 2) + "Z"))));
    IsoDateSays(Shape(f), f, clock);
    IsoClockSays(Shape(f), f);
  }

  /** From 1970 through 9999 the RFC 3339 text reads as the date and time of its second. */
  lemma Rfc3339Reads(secs: nat, date: Date, hour: int, minute: int, second: int)
    requires secs < 253_402_300_800 && IsMoment(secs, date, hour, minute, second)
    ensures Says3339(FormatRfc3339(secs), date, hour, minute, second)
  {
    Rfc3339Shape(secs);
    FourDigitYearIff(secs);
    ClockSplits(secs);
    ConversionInRange(Days(secs));
    ClockIsMoment(secs);
    OneMoment(secs, date, hour, minute, second);
    ShapeSays(Fields(secs));
  }

  lemma OneMoment(secs: nat, date: Date, hour: int, minute: int, second: int)
    requires IsMoment(secs, date, hour, minute, second)
    ensures date == CivilFromDays(Days(secs)) && hour == Hours(secs) && minute == Minutes(secs) && second == Seconds(secs)
  {
    CivilIsTheCalendar(Days(secs));
    ClockSplits(secs);
    assert Days(secs) == secs / 86400;
  }

  // ---- RFC 1123 -----------------------------------------------------------------------------

  datatype Weekday = Sun | Mon | Tue | Wed | Thu | Fri | Sat

  function Following(w: Weekday): Weekday {
    match w
    case Sun => Mon case Mon => Tue case Tue => Wed case Wed => Thu
    case Thu => Fri case Fri => Sat case Sat => Sun
  }

  /** The weekday `n` days after Thursday, 1 January 1970, by counting. */
  function WeekdayAfter(n: nat): Weekday {
    if n == 0 then Thu else Following(WeekdayAfter(n - 1))
  }

  function WeekdayText(w: Weekday): string {
    match w
    case Sun => "Sun" case Mon => "Mon" case Tue => "Tue" case Wed => "Wed"
    case Thu => "Thu" case Fri => "Fri" case Sat => "Sat"
  }

  const DAY_NAMES := ["Sun", "Mon", "Tue", "Wed", "Thu", "Fri", "Sat"]
  const MONTHS := ["Jan", "Feb", "Mar", "Apr", "May", "Jun", "Jul", "Aug", "Sep", "Oct", "Nov", "Dec"]

  function MonthText(m: int): (r: string)
    requires 1 <= m <= 12
    ensures |r| == 3
  {
    MONTHS[m - 1]
  }

  function DayText(days: nat): (r: string)
    ensures |r| == 3
  {
    DAY_NAMES[(days + 4) % 7]
  }

  function Clock(secs: nat): string {
    Pad(Hours(secs), 2) + (":" + (Pad(Minutes(secs), 2) + (":" + (Pad(Seconds(secs), 2) + " GMT"))))
  }

  function DateText(date: Date): string
    requires ValidDate(date) && date.year >= 0
  {
    Pad(date.day, 2) + (" " + (MonthText(date.month) + (" " + (Pad(date.year, 4) + " "))))
  }

  /** `format_rfc1123`, at or after the epoch. */
  function FormatRfc1123(secs: nat): string {
    var date := CivilFromDays(Days(secs));
    ConversionInRange(Days(secs));
    DayText(Days(secs)) + (", " + (DateText(date) + Clock(secs)))
  }

  function Index(w: Weekday): nat {
    match w
    case Sun => 0 case Mon => 1 case Tue => 2 case Wed => 3
    case Thu => 4 case Fri => 5 case Sat => 6
  }

  lemma {:induction false} WeekdayIndex(days: nat)
    ensures Index(WeekdayAfter(days)) == (days + 4) % 7
  {
    if days > 0 {
      WeekdayIndex(days - 1);
    }
  }

  /** The name is that of the weekday reached by counting days from the epoch's Thursday. */
  lemma {:induction false} WeekdayIsRight(days: nat)
    ensures DayText(days) == WeekdayText(WeekdayAfter(days))
  {
    WeekdayIndex(days);
  }

  lemma SameParts(a: string, b: string, c: string, d: string)
    requires |a| == |b| && a + c == b + d
    ensures a == b && c == d
  {
    assert (a + c)[..|a|] == a && (b + d)[..|b|] == b;
    assert (a + c)[|a|..] == c && (b + d)[|b|..] == d;
  }

  lemma MonthTextIsFaithful(m: int, n: int)
    requires 1 <= m <= 12 && 1 <= n <= 12 && MonthText(m) == MonthText(n)
    ensures m == n
  {
    assert MonthText(m)[0] == MonthText(n)[0] && MonthText(m)[1] == MonthText(n)[1] && MonthText(m)[2] == MonthText(n)[2];
  }

  lemma SamePadded(n: nat, m: nat, w: nat, c: string, d: string)
    requires w > 0 && n < Power10(w) && m < Power10(w)
    requires Pad(n, w) + c == Pad(m, w) + d
    ensures n == m && c == d
  {
    PadIsFixed(n, w);
    PadIsFixed(m, w);
    FixedOrder(n, m, w);
    SameParts(Fixed(n, w), Fixed(m, w), c, d);
  }

  lemma SameClock(s: nat, t: nat)
    requires Clock(s) == Clock(t)
    ensures Hours(s) == Hours(t) && Minutes(s) == Minutes(t) && Seconds(s) == Seconds(t)
  {
    ClockSplits(s);
    ClockSplits(t);
    assert Power10(2) == 100;
    var x, y := Pad(Seconds(s), 2) + " GMT", Pad(Seconds(t), 2) + " GMT";
    var u, v := Pad(Minutes(s), 2) + (":" + x), Pad(Minutes(t), 2) + (":" + y);
    SamePadded(Hours(s), Hours(t), 2, ":" + u, ":" + v);
    SameParts(":", ":", u, v);
    SamePadded(Minutes(s), Minutes(t), 2, ":" + x, ":" + y);
    SameParts(":", ":", x, y);
    SamePadded(Seconds(s), Seconds(t), 2, " GMT", " GMT");
  }

  lemma SameDate(d: Date, e: Date, c: string, c': string)
    requires ValidDate(d) && ValidDate(e) && 0 <= d.year <= 9999 && 0 <= e.year <= 9999
    requires DateText(d) + c == DateText(e) + c'
    ensures d == e && c == c'
  {
    assert Power10(2) == 100;
    assert Power10(4) == 100 * Power10(2);
    DateTextLength(d);
    DateTextLength(e);
    SameParts(DateText(d), DateText(e), c, c');
    var x, y := Pad(d.year, 4) + " ", Pad(e.year, 4) + " ";
    var u, v := MonthText(d.month) + (" " + x), MonthText(e.month) + (" " + y);
    SamePadded(d.day, e.day, 2, " " + u, " " + v);
    SameParts(" ", " ", u, v);
    SameParts(MonthText(d.month), MonthText(e.month), " " + x, " " + y);
    MonthTextIsFaithful(d.month, e.month);
    SameParts(" ", " ", x, y);
    SamePadded(d.year, e.year, 4, " ", " ");
  }

  lemma DateTextLength(d: Date)
    requires ValidDate(d) && 0 <= d.year <= 9999
    ensures |DateText(d)| == 12
  {
    assert Power10(2) == 100;
    assert Power10(4) == 100 * Power10(2);
    PadIsFixed(d.day, 2);
    PadIsFixed(d.year, 4);
  }

  /** From 1970 through 9999 the RFC 1123 text names the right weekday and determines the second. */
  lemma Rfc1123Determines(s: nat, t: nat)
    requires FourDigitYear(s) && FourDigitYear(t)
    ensures WeekdayText(WeekdayAfter(Days(s))) <= FormatRfc1123(s)
    ensures FormatRfc1123(s) == FormatRfc1123(t) <==> s == t
  {
    WeekdayIsRight(Days(s));
    if FormatRfc1123(s) == FormatRfc1123(t) {
      var d, e := CivilFromDays(Days(s)), CivilFromDays(Days(t));
      ConversionInRange(Days(s));
      ConversionInRange(Days(t));
      FourDigitYearIff(s);
      FourDigitYearIff(t);
      var x, y := DateText(d) + Clock(s), DateText(e) + Clock(t);
      SameParts(DayText(Days(s)), DayText(Days(t)), ", " + x, ", " + y);
      SameParts(", ", ", ", x, y);
      SameDate(d, e, Clock(s), Clock(t));
      SameClock(s, t);
      DaysRoundTrip(Days(s));
      DaysRoundTrip(Days(t));
      ClockSplits(s);
      ClockSplits(t);
    }
  }

  /** The month names of section 5.6.7 of RFC 9110. */
  function MonthName(m: int): string {
    match m
    case 1 => "Jan" case 2 => "Feb" case 3 => "Mar" case 4 => "Apr"
    case 5 => "May" case 6 => "Jun" case 7 => "Jul" case 8 => "Aug"
    case 9 => "Sep" case 10 => "Oct" case 11 => "Nov" case 12 => "Dec"
    case _ => ""
  }

  /** What the twenty-nine characters of an HTTP date say, read by position. */
  predicate Says1123(text: string, weekday: Weekday, date: Date, hour: int, minute: int, second: int) {
    && |text| == 29
    && text[0..3] == WeekdayText(weekday) && text[3..5] == ", "
    && Read(text[5..7]) == date.day && text[7..8] == " " && text[8..11] == MonthName(date.month) && text[11..12] == " "
    && Read(text[12..16]) == date.year && text[16..17] == " "
    && Read(text[17..19]) == hour && text[19..20] == ":" && Read(text[20..22]) == minute && text[22..23] == ":"
    && Read(text[23..25]) == second && text[25..] == " GMT"
  }

  lemma DateSays(text: string, dayName: string, d: nat, monthName: string, y: nat, clock: string)
    requires |dayName| == 3 && |monthName| == 3 && d < 100 && y < 10000
    requires text == dayName + (", " + (Fixed(d, 2) + (" " + (monthName + (" " + (Fixed(y, 4) + (" " + clock)))))))
    ensures |text| == 17 + |clock| && text[17..] == clock && text[0..3] == dayName && text[3..5] == ", "
    ensures Read(text[5..7]) == d && text[7..8] == " " && text[8..11] == monthName && text[11..12] == " "
    ensures Read(text[12..16]) == y && text[16..17] == " "
  {
    assert Power10(2) == 100;
    assert Power10(4) == 100 * Power10(2);
    var t2 := monthName + (" " + (Fixed(y, 4) + (" " + clock)));
    assert text[0..] == text;
    PartAt(text, 0, dayName, ", ", Fixed(d, 2) + (" " + t2));
    NumberAt(text, 5, d, 2, " ", t2);
    PartAt(text, 8, monthName, " ", Fixed(y, 4) + (" " + clock));
    NumberAt(text, 12, y, 4, " ", clock);
  }

  lemma ClockSays(text: string, h: nat, m: nat, s: nat)
    requires h < 100 && m < 100 && s < 100 && |text| == 29
    requires text[17..] == Fixed(h, 2) + (":" + (Fixed(m, 2) + (":" + (Fixed(s, 2) + " GMT"))))
    ensures Read(text[17..19]) == h && text[19..20] == ":" && Read(text[20..22]) == m && text[22..23] == ":"
    ensures Read(text[23..25]) == s && text[25..] == " GMT"
  {
    assert Power10(2) == 100;
    NumberAt(text, 17, h, 2, ":", Fixed(m, 2) + (":" + (Fixed(s, 2) + " GMT")));
    NumberAt(text, 20, m, 2, ":", Fixed(s, 2) + " GMT");
    NumberLast(text, 23, s, 2, " GMT");
  }

  lemma ClockOfParts(secs: nat)
    ensures Clock(secs) == Fixed(Hours(secs), 2) + (":" + (Fixed(Minutes(secs), 2) + (":" + (Fixed(Seconds(secs), 2) + " GMT"))))
  {
    ClockSplits(secs);
    assert Power10(2) == 100;
    PadIsFixed(Hours(secs), 2);
    PadIsFixed(Minutes(secs), 2);
    PadIsFixed(Seconds(secs), 2);
  }

  lemma DateOfParts(date: Date, clock: string)
    requires ValidDate(date) && 0 <= date.year <= 9999
    ensures DateText(date) + clock ==
            Fixed(date.day, 2) + (" " + (MonthText(date.month) + (" " + (Fixed(date.year, 4) + (" " + clock)))))
  {
    assert Power10(2) == 100;
    assert Power10(4) == 100 * Power10(2);
    PadIsFixed(date.day, 2);
    PadIsFixed(date.year, 4);
  }

  lemma TextOfParts(secs: nat, clock: string)
    requires FourDigitYear(secs)
    requires clock == Fixed(Hours(secs), 2) + (":" + (Fixed(Minutes(secs), 2) + (":" + (Fixed(Seconds(secs), 2) + " GMT"))))
    ensures var date := CivilFromDays(Days(secs));
            ValidDate(date) && 0 <= date.year <= 9999 &&
            FormatRfc1123(secs) ==
            DayText(Days(secs)) + (", " + (Fixed(date.day, 2) + (" " + (MonthText(date.month) + (" " + (Fixed(date.year, 4) + (" " + clock)))))))
  {
    var date := CivilFromDays(Days(secs));
    ConversionInRange(Days(secs));
    FourDigitYearIff(secs);
    ClockOfParts(secs);
    DateOfParts(date, clock);
  }

  lemma MonthNames(m: int)
    requires 1 <= m <= 12
    ensures MonthText(m) == MonthName(m)
  {
  }

  lemma PartsSay(text: string, clock: string, days: nat, date: Date, h: nat, m: nat, s: nat)
    requires ValidDate(date) && 0 <= date.year <= 9999 && h < 100 && m < 100 && s < 100
    requires clock == Fixed(h, 2) + (":" + (Fixed(m, 2) + (":" + (Fixed(s, 2) + " GMT"))))
    requires text == DayText(days) + (", " + (Fixed(date.day, 2) + (" " + (MonthText(date.month) + (" " + (Fixed(date.year, 4) + (" " + clock)))))))
    ensures Says1123(text, WeekdayAfter(days), date, h, m, s)
  {
    WeekdayIsRight(days);
    MonthNames(date.month);
    DateSays(text, DayText(days), date.day, MonthText(date.month), date.year, clock);
    ClockSays(text, h, m, s);
  }

  /** From 1970 through 9999 the RFC 1123 text reads as the weekday, date and time of its second. */
  lemma Rfc1123Reads(secs: nat, date: Date, hour: int, minute: int, second: int)
    requires secs < 253_402_300_800 && IsMoment(secs, date, hour, minute, second)
    ensures Says1123(FormatRfc1123(secs), WeekdayAfter(secs / 86400), date, hour, minute, second)
  {
    OneMoment(secs, date, hour, minute, second);
    ClockSplits(secs);
    var clock := Fixed(hour, 2) + (":" + (Fixed(minute, 2) + (":" + (Fixed(second, 2) + " GMT"))));
    TextOfParts(secs, clock);
    PartsSay(FormatRfc1123(secs), clock, Days(secs), date, hour, minute, second);
  }
}
