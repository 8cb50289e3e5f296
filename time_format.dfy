/** The two time-text converters of the manage page (static/js/manage.js):
    `convert12to24` ("1:30 PM" to "13:30") and `formatTimeFromInput` ("13:30" to
    "1:30 PM"), with the JavaScript string and number operations they use:
    `split`, `parseInt`, number-to-text, `%` and `padStart`. */
module TimeFormat {
  import opened Common
  import opened Clock

  // ---------------------------------------------------------------------------
  // String.prototype.split with a one-character separator

  function Split(s: string, sep: char): (parts: seq<string>)
    ensures |parts| >= 1
    ensures forall p :: p in parts ==> sep !in p
  {
    if s == [] then [[]]
    else
      var rest := Split(s[1..], sep);
      if s[0] == sep then [[]] + rest
      else [[s[0]] + rest[0]] + rest[1..]
  }

  /** Array.prototype.join: the inverse of Split. */
  function Join(parts: seq<string>, sep: char): string
    requires |parts| >= 1
  {
    if |parts| == 1 then parts[0] else parts[0] + [sep] + Join(parts[1..], sep)
  }

  lemma {:induction false} SplitJoin(s: string, sep: char)
    ensures Join(Split(s, sep), sep) == s
  {
    if s != [] {
      SplitJoin(s[1..], sep);
      var rest := Split(s[1..], sep);
      if s[0] != sep {
        var parts := Split(s, sep);
        if |rest| > 1 {
          assert parts[1..] == rest[1..];
        }
      }
    }
  }

  lemma {:induction false} SplitNoSep(a: string, sep: char)
    requires sep !in a
    ensures Split(a, sep) == [a]
  {
    if a != [] {
      SplitNoSep(a[1..], sep);
      assert [a[0]] + a[1..] == a;
    }
  }

  lemma {:induction false} SplitPrefix(a: string, sep: char, b: string)
    requires sep !in a
    ensures Split(a + [sep] + b, sep) == [a] + Split(b, sep)
  {
    if a == [] {
      assert ([sep] + b)[1..] == b;
    } else {
      SplitPrefix(a[1..], sep, b);
      var s := a + [sep] + b;
      assert s[0] == a[0] && s[1..] == a[1..] + [sep] + b;
      assert [a[0]] + a[1..] == a;
    }
  }

  lemma {:induction false} JoinSplit(parts: seq<string>, sep: char)
    requires |parts| >= 1 && forall p :: p in parts ==> sep !in p
    ensures Split(Join(parts, sep), sep) == parts
  {
    if |parts| == 1 {
      SplitNoSep(parts[0], sep);
    } else {
      JoinSplit(parts[1..], sep);
      SplitPrefix(parts[0], sep, Join(parts[1..], sep));
    }
  }

  // ---------------------------------------------------------------------------
  // Numbers: parseInt, the text of a number, truncating remainder

  /** The leading run of decimal digits. */
  function DigitPrefix(s: string): (p: string)
    ensures |p| <= |s| && p == s[..|p|] && forall i :: 0 <= i < |p| ==> IsDigit(p[i])
    ensures |p| < |s| ==> !IsDigit(s[|p|])
  {
    if s != [] && IsDigit(s[0]) then [s[0]] + DigitPrefix(s[1..]) else []
  }

  predicate AllDigits(s: string) {
    forall i :: 0 <= i < |s| ==> IsDigit(s[i])
  }

  function DigitsValue(d: string): nat
    requires AllDigits(d)
  {
    if d == [] then 0 else 10 * DigitsValue(d[..|d| - 1]) + DigitValue(d[|d| - 1])
  }

  /** `parseInt(s)` in base 10: an optional sign, then the leading digits;
      None is NaN (no digit at all). */
  function ParseInt(s: string): (r: Option<int>)
  {
    var signed := |s| > 0 && (s[0] == '-' || s[0] == '+');
    var d := DigitPrefix(if signed then s[1..] else s);
    if d == [] then None
    else
      var v: int := DigitsValue(d);
      Some(if signed && s[0] == '-' then -v else v)
  }

  function NatToString(n: nat): (s: string)
    ensures |s| >= 1 && AllDigits(s)
  {
    if n < 10 then [DigitChar(n)] else NatToString(n / 10) + [DigitChar(n % 10)]
  }

  /** The text of an integer-valued number. */
  function IntToString(n: int): (s: string)
    ensures |s| >= 1 && ' ' !in s && ':' !in s
  {
    if n < 0 then "-" + NatToString(-n) else NatToString(n)
  }

  /** Template-literal text of a number that may be NaN. */
  function NumberText(x: Option<int>): string {
    if x.Some? then IntToString(x.value) else "NaN"
  }

  lemma {:induction false} DigitPrefixOfDigits(d: string)
    requires AllDigits(d)
    ensures DigitPrefix(d) == d
  {
    if d != [] {
      DigitPrefixOfDigits(d[1..]);
    }
  }

  lemma {:induction false} NatToStringValue(n: nat)
    ensures DigitsValue(NatToString(n)) == n
  {
    if n >= 10 {
      NatToStringValue(n / 10);
      var s := NatToString(n);
      assert s[..|s| - 1] == NatToString(n / 10);
    }
  }

  /** `parseInt` reads back the text of every integer. */
  lemma ParseIntToString(n: int)
    ensures ParseInt(IntToString(n)) == Some(n)
  {
    var m := if n < 0 then -n else n;
    NatToStringValue(m);
    DigitPrefixOfDigits(NatToString(m));
    if n < 0 {
      assert ("-" + NatToString(m))[1..] == NatToString(m);
    }
  }

  /** JavaScript `a % b` for b > 0: the sign follows the dividend. */
  function TruncRem(a: int, b: int): (r: int)
    requires b > 0
    ensures -b < r < b && (a >= 0 ==> r >= 0) && (a < 0 ==> r <= 0)
    ensures exists q :: a == q * b + r
  {
    var r := if a >= 0 then a % b else -((-a) % b);
    assert a == (if a >= 0 then a / b else -((-a) / b)) * b + r;
    r
  }

  /** `s.padStart(n, c)`. */
  function PadStart(s: string, n: nat, c: char): (r: string)
    ensures |r| == if |s| >= n then |s| else n
    ensures r[|r| - |s|..] == s
  {
    if |s| >= n then s else seq(n - |s|, _ => c) + s
  }

  // ---------------------------------------------------------------------------
  // The converters

  /** `ampm.toUpperCase() === 'PM'` / `=== 'AM'`, on ASCII letters. */
  predicate IsPm(a: string) {
    |a| == 2 && (a[0] == 'P' || a[0] == 'p') && (a[1] == 'M' || a[1] == 'm')
  }

  predicate IsAm(a: string) {
    |a| == 2 && (a[0] == 'A' || a[0] == 'a') && (a[1] == 'M' || a[1] == 'm')
  }

  /** `convert12to24`. An empty input gives ''; an input without a non-empty
      word after its first space comes back as its first word; otherwise a PM
      hour other than '12' gets twelve added, an AM '12' becomes '00', and a
      missing minutes part prints as "undefined". */
  function Convert12to24(time12: string): string {
    if time12 == [] then []
    else
      var words := Split(time12, ' ');
      var time := words[0];
      if |words| < 2 || words[1] == [] then time
      else
        var hm := Split(time, ':');
        var minutes := if |hm| >= 2 then hm[1] else "undefined";
        HourTo24(hm[0], words[1]) + ":" + minutes
  }

  /** The hours part `convert12to24` prints for `hours` and the AM/PM word. */
  function HourTo24(hours: string, ampm: string): string {
    if IsPm(ampm) && hours != "12" then NumberText(if ParseInt(hours).Some? then Some(ParseInt(hours).value + 12) else None)
    else if IsAm(ampm) && hours == "12" then "00"
    else hours
  }

  /** The hour `formatTimeFromInput` shows: `h % 12`, with 0 and NaN shown as 12. */
  function ShownHour(h: Option<int>): (shown: int)
    ensures 1 <= shown <= 12 || (h.Some? && h.value < 0 && -11 <= shown <= -1)
  {
    if h.None? || TruncRem(h.value, 12) == 0 then 12 else TruncRem(h.value, 12)
  }

  /** `formatTimeFromInput`. An empty input gives ''; a non-empty input without
      ':' is the TypeError of `undefined.padStart` (None). */
  function FormatTimeFromInput(time24: string): (r: Option<string>)
  {
    if time24 == [] then Some([])
    else
      var parts := Split(time24, ':');
      if |parts| < 2 then None
      else
        var h := ParseInt(parts[0]);
        var ampm := if h.Some? && h.value >= 12 then "PM" else "AM";
        Some(IntToString(ShownHour(h)) + ":" + PadStart(parts[1], 2, '0') + " " + ampm)
  }

  // ---------------------------------------------------------------------------
  // Properties

  lemma EmptyInputs()
    ensures Convert12to24("") == "" && FormatTimeFromInput("") == Some("")
  {
  }

  /** Without a space there is no AM/PM word: the input comes back unchanged. */
  lemma NoSuffixUnchanged(s: string)
    requires s != [] && ' ' !in s
    ensures Convert12to24(s) == s
  {
    SplitNoSep(s, ' ');
  }

  /** Splitting "<hours>:<minutes> <ampm>". */
  lemma {:induction false} SplitClock(hours: string, minutes: string, ampm: string)
    requires ' ' !in hours && ':' !in hours && ' ' !in minutes && ':' !in minutes && ' ' !in ampm
    ensures Split(hours + ":" + minutes + " " + ampm, ' ') == [hours + ":" + minutes, ampm]
    ensures Split(hours + ":" + minutes, ':') == [hours, minutes]
  {
    assert ' ' !in hours + ":" + minutes;
    SplitPrefix(hours + ":" + minutes, ' ', ampm);
    SplitNoSep(ampm, ' ');
    SplitPrefix(hours, ':', minutes);
    SplitNoSep(minutes, ':');
  }

  /** "<hours>:<minutes> <ampm>" converts hour by hour: the minutes are kept. */
  lemma {:induction false} ConvertClock(hours: string, minutes: string, ampm: string)
    requires ' ' !in hours && ':' !in hours && ' ' !in minutes && ':' !in minutes && ' ' !in ampm && ampm != []
    ensures Convert12to24(hours + ":" + minutes + " " + ampm) == HourTo24(hours, ampm) + ":" + minutes
  {
    SplitClock(hours, minutes, ampm);
  }

  /** A PM hour other than '12' gets twelve added. */
  lemma {:induction false} PmAddsTwelve(hours: string, minutes: string)
    requires hours != [] && AllDigits(hours) && hours != "12" && ' ' !in minutes && ':' !in minutes
    ensures Convert12to24(hours + ":" + minutes + " PM") == IntToString(DigitsValue(hours) + 12) + ":" + minutes
  {
    ConvertClock(hours, minutes, "PM");
    assert hours + ":" + minutes + " PM" == hours + ":" + minutes + " " + "PM";
    DigitPrefixOfDigits(hours);
    assert hours[0] != '-' && hours[0] != '+';
    assert ParseInt(hours) == Some(DigitsValue(hours));
    assert HourTo24(hours, "PM") == IntToString(DigitsValue(hours) + 12);
  }

  /** '12 PM' stays 12. */
  lemma {:induction false} NoonPm(minutes: string)
    requires ' ' !in minutes && ':' !in minutes
    ensures Convert12to24("12:" + minutes + " PM") == "12:" + minutes
  {
    ConvertClock("12", minutes, "PM");
    assert "12:" + minutes + " PM" == "12" + ":" + minutes + " " + "PM";
    assert HourTo24("12", "PM") == "12";
  }

  /** '12 AM' becomes '00'. */
  lemma {:induction false} MidnightAm(minutes: string)
    requires ' ' !in minutes && ':' !in minutes
    ensures Convert12to24("12:" + minutes + " AM") == "00:" + minutes
  {
    ConvertClock("12", minutes, "AM");
    assert "12:" + minutes + " AM" == "12" + ":" + minutes + " " + "AM";
    assert "00:" + minutes == "00" + ":" + minutes;
    assert HourTo24("12", "AM") == "00";
  }

  /** Other AM hours pass through without padding. */
  lemma {:induction false} AmHours(hours: string, minutes: string)
    requires ' ' !in hours && ':' !in hours && ' ' !in minutes && ':' !in minutes && hours != "12"
    ensures Convert12to24(hours + ":" + minutes + " AM") == hours + ":" + minutes
  {
    ConvertClock(hours, minutes, "AM");
    assert hours + ":" + minutes + " AM" == hours + ":" + minutes + " " + "AM";
    assert HourTo24(hours, "AM") == hours;
  }

  /** `formatTimeFromInput` on "<digits>:<minutes>": PM from hour 12 on, AM
      before; the hour shown is the hour modulo 12 with 0 shown as 12, and the
      minutes are padded to two characters. */
  lemma {:induction false} FormatShape(hours: string, minutes: string)
    requires hours != [] && AllDigits(hours) && ':' !in minutes
    ensures var v := DigitsValue(hours);
      FormatTimeFromInput(hours + ":" + minutes) ==
        Some(IntToString(if v % 12 == 0 then 12 else v % 12) + ":" + PadStart(minutes, 2, '0') + " " +
             (if v >= 12 then "PM" else "AM"))
  {
    assert ':' !in hours;
    SplitPrefix(hours, ':', minutes);
    SplitNoSep(minutes, ':');
    DigitPrefixOfDigits(hours);
    assert hours[0] != '-' && hours[0] != '+';
  }

  lemma TwoDigitText(n: nat)
    requires n < 100
    ensures n < 10 ==> NatToString(n) == [DigitChar(n)]
    ensures 10 <= n ==> NatToString(n) == [DigitChar(n / 10), DigitChar(n % 10)]
  {
  }

  lemma TextNotTwelve(n: int)
    requires n != 12
    ensures IntToString(n) != "12"
  {
    ParseIntToString(n);
    ParseIntToString(12);
  }

  lemma TwelveText()
    ensures IntToString(12) == "12"
  {
    assert NatToString(1) == ['1'];
    assert DigitChar(2) == '2';
  }

  /** The PM half of the round trip: "h:mm PM" with h = hour - 12 (12 for noon). */
  lemma {:induction false} RoundTripPm(hour: nat, mm: string)
    requires 12 <= hour <= 23 && ' ' !in mm && ':' !in mm
    ensures Convert12to24(IntToString(if hour == 12 then 12 else hour - 12) + ":" + mm + " " + "PM") ==
            NatToString(hour) + ":" + mm
  {
    var shown := if hour == 12 then 12 else hour - 12;
    var text := IntToString(shown);
    ConvertClock(text, mm, "PM");
    if hour == 12 {
      TwelveText();
      assert HourTo24(text, "PM") == NatToString(hour);
    } else {
      TextNotTwelve(shown);
      ParseIntToString(shown);
      assert HourTo24(text, "PM") == IntToString(shown + 12);
    }
  }

  /** The AM half: "h:mm AM" with h = hour (12 for midnight). */
  lemma {:induction false} RoundTripAm(hour: nat, mm: string)
    requires hour < 12 && ' ' !in mm && ':' !in mm
    ensures Convert12to24(IntToString(if hour == 0 then 12 else hour) + ":" + mm + " " + "AM") ==
            (if hour == 0 then "00" else NatToString(hour)) + ":" + mm
  {
    var text := IntToString(if hour == 0 then 12 else hour);
    ConvertClock(text, mm, "AM");
    if hour == 0 {
      TwelveText();
      assert HourTo24(text, "AM") == "00";
    } else {
      TextNotTwelve(hour);
      assert HourTo24(text, "AM") == NatToString(hour);
    }
  }

  /** The value and text of the two hour digits of "HH:MM". */
  lemma {:induction false} HourDigits(t: string)
    requires |t| == 5 && AllDigits(t[..2])
    ensures var hour := 10 * DigitValue(t[0]) + DigitValue(t[1]);
      && DigitsValue(t[..2]) == hour
      && (hour >= 10 ==> NatToString(hour) == t[..2])
      && (1 <= hour <= 9 ==> NatToString(hour) == t[1..2])
      && (hour == 0 ==> t[..2] == "00")
  {
    var hh := t[..2];
    var hour := 10 * DigitValue(t[0]) + DigitValue(t[1]);
    var h1 := hh[..1];
    assert h1 == [t[0]] && h1[..0] == [];
    assert DigitsValue(h1) == DigitValue(t[0]);
    assert hh[1] == t[1];
    TwoDigitText(hour);
    assert t[0] == DigitChar(hour / 10) && t[1] == DigitChar(hour % 10);
  }

  /** `formatTimeFromInput` on a two-digit "HH:MM". */
  lemma {:induction false} FormatTwoDigits(t: string)
    requires |t| == 5 && t[2] == ':' && AllDigits(t[..2]) && AllDigits(t[3..])
    ensures var hour := 10 * DigitValue(t[0]) + DigitValue(t[1]);
      FormatTimeFromInput(t) ==
        Some(IntToString(if hour % 12 == 0 then 12 else hour % 12) + ":" + t[3..] + " " + (if hour >= 12 then "PM" else "AM"))
  {
    var hh, mm := t[..2], t[3..];
    assert t == hh + ":" + mm;
    HourDigits(t);
    assert ':' !in mm by {
      assert AllDigits(mm);
    }
    FormatShape(hh, mm);
    assert PadStart(mm, 2, '0') == mm;
  }

  /** The 12-hour text of an afternoon "HH:MM" and the text it converts back to. */
  lemma {:induction false} AfternoonText(t: string)
    requires |t| == 5 && t[2] == ':' && AllDigits(t[..2]) && AllDigits(t[3..])
    requires 12 <= 10 * DigitValue(t[0]) + DigitValue(t[1]) <= 23
    ensures var hour := 10 * DigitValue(t[0]) + DigitValue(t[1]);
      FormatTimeFromInput(t) == Some(IntToString(if hour == 12 then 12 else hour - 12) + ":" + t[3..] + " " + "PM")
  {
    var hour := 10 * DigitValue(t[0]) + DigitValue(t[1]);
    var shown := if hour == 12 then 12 else hour - 12;
    FormatTwoDigits(t);
    AfternoonHour(hour);
    assert (if hour % 12 == 0 then 12 else hour % 12) == shown;
    assert (if hour >= 12 then "PM" else "AM") == "PM";
  }

  /** From noon on the hour shown is the hour less twelve, with 12 shown as 12. */
  lemma AfternoonHour(hour: int)
    requires 12 <= hour < 24
    ensures (if hour % 12 == 0 then 12 else hour % 12) == (if hour == 12 then 12 else hour - 12)
  {
    assert hour % 12 == hour - 12;
  }

  lemma {:induction false} AfternoonBack(t: string)
    requires |t| == 5 && t[2] == ':' && AllDigits(t[..2]) && AllDigits(t[3..])
    requires 12 <= 10 * DigitValue(t[0]) + DigitValue(t[1]) <= 23
    ensures var hour := 10 * DigitValue(t[0]) + DigitValue(t[1]);
      Convert12to24(IntToString(if hour == 12 then 12 else hour - 12) + ":" + t[3..] + " " + "PM") == t
  {
    var mm := t[3..];
    assert ':' !in mm && ' ' !in mm by {
      assert AllDigits(mm);
    }
    RoundTripPm(10 * DigitValue(t[0]) + DigitValue(t[1]), mm);
    HourDigits(t);
    assert t == t[..2] + ":" + mm;
  }

  lemma {:induction false} MorningText(t: string)
    requires |t| == 5 && t[2] == ':' && AllDigits(t[..2]) && AllDigits(t[3..])
    requires 10 * DigitValue(t[0]) + DigitValue(t[1]) < 12
    ensures var hour := 10 * DigitValue(t[0]) + DigitValue(t[1]);
      FormatTimeFromInput(t) == Some(IntToString(if hour == 0 then 12 else hour) + ":" + t[3..] + " " + "AM")
  {
    var hour := 10 * DigitValue(t[0]) + DigitValue(t[1]);
    var shown := if hour == 0 then 12 else hour;
    FormatTwoDigits(t);
    MorningHour(hour);
    assert (if hour % 12 == 0 then 12 else hour % 12) == shown;
    assert (if hour >= 12 then "PM" else "AM") == "AM";
  }

  /** Before noon the hour shown is the hour itself, with 0 shown as 12. */
  lemma MorningHour(hour: int)
    requires 0 <= hour < 12
    ensures (if hour % 12 == 0 then 12 else hour % 12) == (if hour == 0 then 12 else hour)
  {
  }

  lemma {:induction false} MorningBack(t: string)
    requires |t| == 5 && t[2] == ':' && AllDigits(t[..2]) && AllDigits(t[3..])
    requires 10 * DigitValue(t[0]) + DigitValue(t[1]) < 12
    ensures var hour := 10 * DigitValue(t[0]) + DigitValue(t[1]);
      Convert12to24(IntToString(if hour == 0 then 12 else hour) + ":" + t[3..] + " " + "AM") ==
      if 1 <= hour <= 9 then t[1..] else t
  {
    var mm := t[3..];
    assert ':' !in mm && ' ' !in mm by {
      assert AllDigits(mm);
    }
    var hour := 10 * DigitValue(t[0]) + DigitValue(t[1]);
    RoundTripAm(hour, mm);
    HourDigits(t);
    if hour == 0 {
      assert t == "00" + ":" + mm;
    } else if hour <= 9 {
      assert t[1..] == t[1..2] + ":" + mm;
    } else {
      assert t == t[..2] + ":" + mm;
    }
  }

  /** Every two-digit "HH:MM" with HH at most 23 survives the round trip to
      12-hour text and back, except that hours 01-09 lose their leading zero. */
  lemma RoundTrip(t: string)
    requires |t| == 5 && t[2] == ':' && AllDigits(t[..2]) && AllDigits(t[3..])
    requires 10 * DigitValue(t[0]) + DigitValue(t[1]) <= 23
    ensures var hour := 10 * DigitValue(t[0]) + DigitValue(t[1]);
      FormatTimeFromInput(t).Some? &&
      Convert12to24(FormatTimeFromInput(t).value) == if 1 <= hour <= 9 then t[1..] else t
  {
    if 10 * DigitValue(t[0]) + DigitValue(t[1]) >= 12 {
      AfternoonText(t);
      AfternoonBack(t);
    } else {
      MorningText(t);
      MorningBack(t);
    }
  }
}
