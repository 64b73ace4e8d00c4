/**
 * The taskbar clock of the footer (client/src/components/Footer.tsx):
 * `getCurrentTime` turns the hour (0..23) and minute (0..59) read from the
 * system clock into the 12-hour text `h:mm AM` / `h:mm PM`.
 *
 * Reading the clock itself is not modelled: hour and minute are parameters.
 * Beside the formatter sits a parser for the same text; the two are proved
 * to be inverse bijections between the 1440 minutes of a day and the
 * well-formed clock texts.
 */
module Clock {
  import opened Wrappers

  // ---------------------------------------------------------------------
  // Decimal digits and numerals below 100
  // ---------------------------------------------------------------------

  predicate IsDigit(c: char) {
    '0' <= c <= '9'
  }

  function DigitValue(c: char): (d: nat)
    requires IsDigit(c)
    ensures d < 10
  {
    c as int - '0' as int
  }

  function DigitChar(d: nat): (c: char)
    requires d < 10
    ensures IsDigit(c) && DigitValue(c) == d
  {
    ('0' as int + d) as char
  }

  /** Distinct digits have distinct values. */
  lemma DigitInjective(a: char, b: char)
    requires IsDigit(a) && IsDigit(b) && DigitValue(a) == DigitValue(b)
    ensures a == b
  {
    assert a as int == b as int;
  }

  /** One or two decimal digits. */
  predicate ShortDigits(s: string) {
    (|s| == 1 || |s| == 2) && IsDigit(s[0]) && IsDigit(s[|s| - 1])
  }

  /** The number that one or two decimal digits denote. */
  function DigitsValue(s: string): (n: nat)
    requires ShortDigits(s)
    ensures n < 100
  {
    if |s| == 1 then DigitValue(s[0]) else 10 * DigitValue(s[0]) + DigitValue(s[1])
  }

  /** A numeral as JavaScript's `Number.prototype.toString` writes an
      integer in 0..99: one or two digits and no leading zero. */
  predicate IsNumeral(s: string) {
    ShortDigits(s) && (|s| == 2 ==> s[0] != '0')
  }

  /** `n.toString()` for an integer `n` in 0..99. */
  function Numeral(n: nat): (s: string)
    requires n < 100
    ensures IsNumeral(s) && DigitsValue(s) == n
    ensures |s| == 1 <==> n < 10
  {
    if n < 10 then [DigitChar(n)] else [DigitChar(n / 10), DigitChar(n % 10)]
  }

  /** Printing the value of a numeral gives the numeral back. */
  lemma NumeralOfValue(s: string)
    requires IsNumeral(s)
    ensures Numeral(DigitsValue(s)) == s
  {
    var n := DigitsValue(s);
    if |s| == 1 {
      DigitInjective(DigitChar(n), s[0]);
    } else {
      assert n / 10 == DigitValue(s[0]) && n % 10 == DigitValue(s[1]);
      DigitInjective(DigitChar(n / 10), s[0]);
      DigitInjective(DigitChar(n % 10), s[1]);
    }
  }

  // ---------------------------------------------------------------------
  // padStart
  // ---------------------------------------------------------------------

  /** `s.padStart(width, fill)` for a one-character fill: `s` is right
      aligned in a field of `width` characters; a longer `s` is kept whole. */
  function PadStart(s: string, width: nat, fill: char): (r: string)
    ensures |r| == if |s| >= width then |s| else width
    ensures r[|r| - |s|..] == s
    ensures forall i :: 0 <= i < |r| - |s| ==> r[i] == fill
    decreases width - |s|
  {
    if |s| >= width then s else PadStart([fill] + s, width, fill)
  }

  /** The minutes field, `getMinutes().toString().padStart(2, '0')`: the
      two digits of the minute, with a leading zero below ten. */
  function PaddedMinutes(minute: nat): (mm: string)
    requires minute < 60
    ensures mm == [DigitChar(minute / 10), DigitChar(minute % 10)]
    ensures ShortDigits(mm) && |mm| == 2 && DigitsValue(mm) == minute
    ensures mm[0] == '0' <==> minute < 10
  {
    var mm := PadStart(Numeral(minute), 2, '0');
    assert minute < 10 ==> mm == ['0'] + Numeral(minute);
    mm
  }

  /** The quotient and remainder by ten of a two-digit number. */
  lemma TensAndUnits(tens: nat, units: nat)
    requires units < 10
    ensures (10 * tens + units) / 10 == tens && (10 * tens + units) % 10 == units
  {
  }

  /** Reading a two-digit minutes field and padding it again is the identity. */
  lemma PaddedMinutesOfValue(mm: string)
    requires ShortDigits(mm) && |mm| == 2 && DigitsValue(mm) < 60
    ensures PaddedMinutes(DigitsValue(mm)) == mm
  {
    var m := DigitsValue(mm);
    TensAndUnits(DigitValue(mm[0]), DigitValue(mm[1]));
    DigitInjective(DigitChar(m / 10), mm[0]);
    DigitInjective(DigitChar(m % 10), mm[1]);
    assert mm == [mm[0], mm[1]];
  }

  // ---------------------------------------------------------------------
  // getCurrentTime
  // ---------------------------------------------------------------------

  /** `hours >= 12 ? 'PM' : 'AM'` */
  function Meridiem(hour: nat): string {
    if hour >= 12 then "PM" else "AM"
  }

  /** `hours % 12`, with the falsy 0 replaced by 12. */
  function DisplayHour(hour: nat): (h: nat)
    requires hour < 24
    ensures 1 <= h <= 12
    ensures h % 12 == hour % 12
  {
    var h := hour % 12;
    if h != 0 then h else 12
  }

  /** The template literal `${hours}:${minutes} ${ampm}`. */
  function Layout(hs: string, mm: string, suffix: string): string {
    hs + ":" + mm + " " + suffix
  }

  /** The fields of a laid-out text, located from its end. */
  lemma LayoutFields(hs: string, mm: string, suffix: string)
    requires |mm| == 2 && |suffix| == 2
    ensures var r := Layout(hs, mm, suffix);
      |r| == |hs| + 6 && r[..|r| - 6] == hs && r[|r| - 6] == ':'
      && r[|r| - 5..|r| - 3] == mm && r[|r| - 3] == ' ' && r[|r| - 2..] == suffix
  {
    var r := Layout(hs, mm, suffix);
    assert r == hs + (":" + (mm + (" " + suffix)));
  }

  /** A text with the two separators in place is the layout of its fields. */
  lemma FieldsLayout(s: string)
    requires |s| >= 6 && s[|s| - 6] == ':' && s[|s| - 3] == ' '
    ensures s == Layout(s[..|s| - 6], s[|s| - 5..|s| - 3], s[|s| - 2..])
  {
    var hs, mm, suffix := s[..|s| - 6], s[|s| - 5..|s| - 3], s[|s| - 2..];
    assert s == hs + s[|s| - 6..];
    assert s[|s| - 6..] == [':'] + s[|s| - 5..];
    assert s[|s| - 5..] == mm + s[|s| - 3..];
    assert s[|s| - 3..] == [' '] + suffix;
  }

  /** The text `getCurrentTime` returns for a 24-hour `hour` and a `minute`:
      the hour (not padded), a colon, two-digit minutes, a space and AM or PM. */
  function FormatTime(hour: nat, minute: nat): (r: string)
    requires hour < 24 && minute < 60
    ensures 7 <= |r| <= 8
    ensures r[|r| - 2..] == (if hour >= 12 then "PM" else "AM")
  {
    var hs, mm, suffix := Numeral(DisplayHour(hour)), PaddedMinutes(minute), Meridiem(hour);
    LayoutFields(hs, mm, suffix);
    Layout(hs, mm, suffix)
  }

  // ---------------------------------------------------------------------
  // The inverse: reading a clock text back
  // ---------------------------------------------------------------------

  /** The 24-hour hour shown as `displayHour` with the given suffix. */
  function To24(displayHour: nat, pm: bool): nat {
    if pm then (if displayHour == 12 then 12 else displayHour + 12)
    else (if displayHour == 12 then 0 else displayHour)
  }

  /** Reads the hour, minutes and suffix fields of a clock text. */
  function ReadFields(hs: string, mm: string, suffix: string): (r: Option<(nat, nat)>)
    ensures r.Some? ==> r.value.0 < 24 && r.value.1 < 60
  {
    if IsNumeral(hs) && |mm| == 2 && ShortDigits(mm) && (suffix == "AM" || suffix == "PM") then
      var h, m := DigitsValue(hs), DigitsValue(mm);
      if 1 <= h <= 12 && m < 60 then Some((To24(h, suffix == "PM"), m)) else None
    else None
  }

  /** Reads `h:mm AM` / `h:mm PM` back into a 24-hour (hour, minute);
      `None` for any text the clock cannot show. */
  function ParseTime(s: string): (r: Option<(nat, nat)>)
    ensures r.Some? ==> r.value.0 < 24 && r.value.1 < 60
  {
    if |s| < 7 || |s| > 8 || s[|s| - 6] != ':' || s[|s| - 3] != ' ' then None
    else ReadFields(s[..|s| - 6], s[|s| - 5..|s| - 3], s[|s| - 2..])
  }

  /** Reading a laid-out text is reading its fields. */
  lemma ParseLayout(hs: string, mm: string, suffix: string)
    requires (|hs| == 1 || |hs| == 2) && |mm| == 2 && |suffix| == 2
    ensures ParseTime(Layout(hs, mm, suffix)) == ReadFields(hs, mm, suffix)
  {
    LayoutFields(hs, mm, suffix);
  }

  /** The fields the clock shows read back as the time shown. */
  lemma ReadShownFields(hour: nat, minute: nat)
    requires hour < 24 && minute < 60
    ensures ReadFields(Numeral(DisplayHour(hour)), PaddedMinutes(minute), Meridiem(hour))
      == Some((hour, minute))
  {
    var h := DisplayHour(hour);
    assert DigitsValue(Numeral(h)) == h;
    To24OfDisplay(hour);
  }

  /** The displayed hour and the suffix give back the 24-hour hour. */
  lemma To24OfDisplay(hour: nat)
    requires hour < 24
    ensures To24(DisplayHour(hour), hour >= 12) == hour
  {
  }

  /** Every time of day formats to a text that reads back as that time. */
  lemma ParseFormat(hour: nat, minute: nat)
    requires hour < 24 && minute < 60
    ensures ParseTime(FormatTime(hour, minute)) == Some((hour, minute))
  {
    ParseLayout(Numeral(DisplayHour(hour)), PaddedMinutes(minute), Meridiem(hour));
    ReadShownFields(hour, minute);
  }

  /** Every text that reads as a time is exactly the text the clock shows
      for it: the formatter reaches all well-formed texts. */
  lemma FormatParse(s: string)
    requires ParseTime(s).Some?
    ensures FormatTime(ParseTime(s).value.0, ParseTime(s).value.1) == s
  {
    var hs, mm, suffix := s[..|s| - 6], s[|s| - 5..|s| - 3], s[|s| - 2..];
    var hour, minute := ParseTime(s).value.0, ParseTime(s).value.1;
    assert ReadFields(hs, mm, suffix) == Some((hour, minute));
    ReadFieldsInverse(hs, mm, suffix);
    FieldsLayout(s);
  }

  /** Fields that read as a time are the fields the clock shows for it. */
  lemma ReadFieldsInverse(hs: string, mm: string, suffix: string)
    requires ReadFields(hs, mm, suffix).Some?
    ensures var t := ReadFields(hs, mm, suffix).value;
      FormatTime(t.0, t.1) == Layout(hs, mm, suffix)
  {
    ReadFieldsParts(hs, mm, suffix);
  }

  /** Each field that reads as part of a time is the field the clock shows. */
  lemma ReadFieldsParts(hs: string, mm: string, suffix: string)
    requires ReadFields(hs, mm, suffix).Some?
    ensures var t := ReadFields(hs, mm, suffix).value;
      t.0 < 24 && t.1 < 60 && Numeral(DisplayHour(t.0)) == hs && PaddedMinutes(t.1) == mm && Meridiem(t.0) == suffix
  {
    ReadHourField(hs, mm, suffix);
    ReadMinutesField(hs, mm, suffix);
    ReadSuffixField(hs, mm, suffix);
  }
  /** The hour field read back is the numeral of the displayed hour. */
  lemma ReadHourField(hs: string, mm: string, suffix: string)
    requires ReadFields(hs, mm, suffix).Some?
    ensures var t := ReadFields(hs, mm, suffix).value;
      t.0 < 24 && Numeral(DisplayHour(t.0)) == hs
  {
    var h, pm := DigitsValue(hs), suffix == "PM";
    assert ReadFields(hs, mm, suffix).value.0 == To24(h, pm);
    NumeralOfValue(hs);
    DisplayOfTo24(h, pm);
  }
  /** The minutes field read back is the padded minutes. */
  lemma ReadMinutesField(hs: string, mm: string, suffix: string)
    requires ReadFields(hs, mm, suffix).Some?
    ensures var t := ReadFields(hs, mm, suffix).value;
      t.1 < 60 && PaddedMinutes(t.1) == mm
  {
    assert ReadFields(hs, mm, suffix).value.1 == DigitsValue(mm);
    PaddedMinutesOfValue(mm);
  }
  /** The suffix read back is the suffix of the 24-hour hour. */
  lemma ReadSuffixField(hs: string, mm: string, suffix: string)
    requires ReadFields(hs, mm, suffix).Some?
    ensures var t := ReadFields(hs, mm, suffix).value;
      Meridiem(t.0) == suffix
  {
    var h, pm := DigitsValue(hs), suffix == "PM";
    assert ReadFields(hs, mm, suffix).value.0 == To24(h, pm);
    DisplayOfTo24(h, pm);
  }

  /** A 12-hour hour and its suffix name exactly one 24-hour hour. */
  lemma DisplayOfTo24(displayHour: nat, pm: bool)
    requires 1 <= displayHour <= 12
    ensures To24(displayHour, pm) < 24
    ensures DisplayHour(To24(displayHour, pm)) == displayHour
    ensures To24(displayHour, pm) >= 12 <==> pm
  {
    if displayHour == 12 {
      assert DisplayHour(if pm then 12 else 0) == 12;
    }
  }

  /** Different times of day are shown as different texts. */
  lemma FormatTimeInjective(h1: nat, m1: nat, h2: nat, m2: nat)
    requires h1 < 24 && m1 < 60 && h2 < 24 && m2 < 60
    requires FormatTime(h1, m1) == FormatTime(h2, m2)
    ensures h1 == h2 && m1 == m2
  {
    ParseFormat(h1, m1);
    ParseFormat(h2, m2);
  }

  // ---------------------------------------------------------------------
  // Edge cases and the two halves of the day
  // ---------------------------------------------------------------------

  /** Midnight is shown as `12:mm AM` and noon as `12:mm PM`. */
  lemma MidnightAndNoon(minute: nat)
    requires minute < 60
    ensures FormatTime(0, minute) == Layout("12", PaddedMinutes(minute), "AM")
    ensures FormatTime(12, minute) == Layout("12", PaddedMinutes(minute), "PM")
  {
    assert DisplayHour(0) == 12 && DisplayHour(12) == 12;
    assert Numeral(12) == "12";
  }

  /** Two layouts with the same hour and minutes fields differ at most in
      their last two characters. */
  lemma LayoutsDifferInSuffix(hs: string, mm: string, s1: string, s2: string)
    requires |s1| == 2 && |s2| == 2
    ensures var r1, r2 := Layout(hs, mm, s1), Layout(hs, mm, s2);
      |r1| == |r2| && r1[..|r1| - 2] == r2[..|r2| - 2]
  {
    var x := hs + ":" + mm + " ";
    assert Layout(hs, mm, s1) == x + s1 && Layout(hs, mm, s2) == x + s2;
    assert (x + s1)[..|x|] == x && (x + s2)[..|x|] == x;
  }

  /** An hour before noon and the same hour after noon are shown alike
      except for the suffix. */
  lemma HalfDaysDifferOnlyInSuffix(hour: nat, minute: nat)
    requires hour < 12 && minute < 60
    ensures var am, pm := FormatTime(hour, minute), FormatTime(hour + 12, minute);
      |am| == |pm| && am[..|am| - 2] == pm[..|pm| - 2]
      && am[|am| - 2..] == "AM" && pm[|pm| - 2..] == "PM"
  {
    assert DisplayHour(hour) == DisplayHour(hour + 12);
    LayoutsDifferInSuffix(Numeral(DisplayHour(hour)), PaddedMinutes(minute), "AM", "PM");
  }
}
