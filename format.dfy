/** The duration formatting helpers `formatDuration` and `formatDurationShort`
    (script.js:126-142) and the breakdown bar's percentage (script.js:248). */
module Format {

  import opened Wrappers

  predicate IsDigit(c: char) {
    '0' <= c <= '9'
  }

  /** Every character is a decimal digit (stated from the back, as digits are read). */
  predicate AllDigits(s: string) {
    s == [] || (AllDigits(s[..|s| - 1]) && IsDigit(s[|s| - 1]))
  }

  lemma {:induction false} DigitAt(s: string, i: nat)
    requires AllDigits(s) && i < |s|
    ensures IsDigit(s[i])
  {
    if i < |s| - 1 {
      DigitAt(s[..|s| - 1], i);
    }
  }

  /** A string of digits holds no hour mark. */
  lemma NoHourMark(s: string)
    requires AllDigits(s)
    ensures 'h' !in s
  {
    forall i | 0 <= i < |s| ensures s[i] != 'h' {
      DigitAt(s, i);
    }
  }

  function DigitChar(d: nat): (c: char)
    requires d < 10
    ensures IsDigit(c) && c as int - '0' as int == d
  {
    ('0' as int + d) as char
  }

  /** The number a string of decimal digits denotes (leading zeros allowed). */
  function DecimalValue(s: string): nat
    requires AllDigits(s)
  {
    if s == [] then 0
    else DecimalValue(s[..|s| - 1]) * 10 + (s[|s| - 1] as int - '0' as int)
  }

  /** A decimal spelling without a superfluous leading zero, as `String(n)` prints. */
  predicate Canonical(s: string) {
    |s| >= 1 && AllDigits(s) && (|s| == 1 || s[0] != '0')
  }

  /** `String(n)` for a non-negative integer: its shortest decimal spelling. */
  function DecimalString(n: nat): (r: string)
    ensures |r| >= 1 && AllDigits(r) && Canonical(r)
    ensures DecimalValue(r) == n
    ensures r[0] == '0' ==> n == 0
    ensures n < 10 <==> |r| == 1
    ensures n < 100 <==> |r| <= 2
  {
    if n < 10 then [DigitChar(n)]
    else
      var r := DecimalString(n / 10) + [DigitChar(n % 10)];
      assert r[..|r| - 1] == DecimalString(n / 10);
      r
  }

  /** A canonical spelling is the one `String` prints for its value. */
  lemma {:induction false} CanonicalIsDecimal(s: string)
    requires Canonical(s)
    ensures s == DecimalString(DecimalValue(s))
  {
    var p, c := s[..|s| - 1], s[|s| - 1];
    var d := c as int - '0' as int;
    assert s == p + [c];
    assert DecimalValue(s) == DecimalValue(p) * 10 + d;
    if |s| == 1 {
      assert DigitChar(d) == c;
    } else {
      assert p[0] == s[0] && Canonical(p);
      CanonicalIsDecimal(p);
      var q := DecimalValue(p);
      assert q != 0 by {
        assert DecimalString(0) == "0";
      }
      DecimalSplit(DecimalValue(s), q, d);
      DecimalStringStep(DecimalValue(s));
      assert DigitChar(d) == c;
    }
  }

  /** `String(n)` for n >= 10 is `String(n / 10)` followed by the last digit. */
  lemma DecimalStringStep(n: nat)
    requires n >= 10
    ensures DecimalString(n) == DecimalString(n / 10) + [DigitChar(n % 10)]
  {
  }

  /** A number and a digit below ten are what division by ten gives. */
  lemma DecimalSplit(a: nat, q: nat, r: nat)
    requires r < 10 && a == q * 10 + r
    ensures a / 10 == q && a % 10 == r
  {
  }

  /** `s.padStart(width, fill)` with a one-character fill string. */
  function PadStart(s: string, width: nat, fill: char): (r: string)
    ensures |r| == if |s| >= width then |s| else width
    ensures r[|r| - |s|..] == s
    ensures forall i :: 0 <= i < |r| - |s| ==> r[i] == fill
  {
    if |s| >= width then s else seq(width - |s|, _ => fill) + s
  }

  /** Leading zeros do not change the value of a digit string. */
  lemma {:induction false} LeadingZeros(z: string, s: string)
    requires forall i :: 0 <= i < |z| ==> z[i] == '0'
    requires AllDigits(s)
    ensures AllDigits(z + s) && DecimalValue(z + s) == DecimalValue(s)
  {
    if s == [] {
      assert z + s == z;
      AllZeros(z);
    } else {
      assert (z + s)[..|z + s| - 1] == z + s[..|s| - 1];
      LeadingZeros(z, s[..|s| - 1]);
    }
  }

  lemma {:induction false} AllZeros(z: string)
    requires forall i :: 0 <= i < |z| ==> z[i] == '0'
    ensures AllDigits(z) && DecimalValue(z) == 0
  {
    if z != [] {
      AllZeros(z[..|z| - 1]);
    }
  }

  /** One field of the clock display: `String(n).padStart(2, '0')`. */
  function ClockField(n: nat): (r: string)
    ensures AllDigits(r) && DecimalValue(r) == n
    ensures |r| >= 2
    ensures n < 100 ==> |r| == 2
    ensures n < 10 ==> r == ['0'] + DecimalString(n)
    ensures n >= 10 ==> r == DecimalString(n)
  {
    var d := DecimalString(n);
    var r := PadStart(d, 2, '0');
    assert r == r[..|r| - |d|] + d;
    LeadingZeros(r[..|r| - |d|], d);
    r
  }

  /** A clock field spelled as `padStart(2, '0')` leaves it: at least two digits,
      and no leading zero beyond the padding. */
  lemma CanonicalClockField(s: string)
    requires |s| >= 2 && AllDigits(s) && (|s| == 2 || s[0] != '0')
    ensures s == ClockField(DecimalValue(s))
  {
    if s[0] != '0' {
      CanonicalIsDecimal(s);
    } else {
      var t := s[1..];
      assert s == ['0'] + t;
      assert AllDigits(t) by {
        DigitAt(s, 1);
        assert t == [s[1]] && t[..0] == [];
      }
      LeadingZeros(['0'], t);
      CanonicalIsDecimal(t);
    }
  }

  /** Reads an `H…H:MM:SS` display back into seconds; `None` when the text is not a
      clock reading (at least two hour digits with no leading zero beyond two,
      two-digit minutes and seconds below 60, colons between them). */
  function ParseClock(r: string): Option<nat>
  {
    var n := |r|;
    if n >= 8 && r[n - 6] == ':' && r[n - 3] == ':' && (n == 8 || r[0] != '0')
       && AllDigits(r[..n - 6]) && AllDigits(r[n - 5..n - 3]) && AllDigits(r[n - 2..])
       && DecimalValue(r[n - 5..n - 3]) < 60 && DecimalValue(r[n - 2..]) < 60
    then Some(DecimalValue(r[..n - 6]) * 3600 + DecimalValue(r[n - 5..n - 3]) * 60 + DecimalValue(r[n - 2..]))
    else None
  }

  /** `formatDuration(seconds)`: hours (not wrapped at 24), minutes and seconds, each
      zero-padded to at least two digits and joined by colons. The display is a clock
      reading of the seconds, eight characters long exactly when there are fewer
      than 100 hours. */
  function FormatDuration(seconds: nat): (r: string)
    ensures ParseClock(r) == Some(seconds)
    ensures |r| == 8 <==> seconds < 360000
  {
    ClockSplit(seconds);
    ClockDisplayReads(seconds / 3600, (seconds % 3600) / 60, seconds % 60, seconds);
    ClockDisplay(seconds / 3600, (seconds % 3600) / 60, seconds % 60)
  }

  /** The colon-joined display of given hours, minutes and seconds; eight
      characters long exactly when there are fewer than 100 hours. */
  function ClockDisplay(hours: nat, minutes: nat, secs: nat): (r: string)
    requires minutes < 60 && secs < 60
    ensures |r| >= 8
    ensures |r| == 8 <==> hours < 100
  {
    var hh, mm, ss := ClockField(hours), ClockField(minutes), ClockField(secs);
    ClockFieldWidth(hours);
    hh + ":" + mm + ":" + ss
  }

  /** The display of hours, minutes and seconds reads back as that many seconds. */
  lemma ClockDisplayReads(hours: nat, minutes: nat, secs: nat, total: nat)
    requires minutes < 60 && secs < 60 && hours * 3600 + minutes * 60 + secs == total
    ensures ParseClock(ClockDisplay(hours, minutes, secs)) == Some(total)
  {
    ClockFieldWidth(hours);
    ClockJoinReads(ClockField(hours), ClockField(minutes), ClockField(secs), total);
  }

  /** Two-digit minute and second fields below 60 after an hour field of at least
      two digits, joined by colons, read back as the seconds they spell. */
  lemma ClockJoinReads(hh: string, mm: string, ss: string, total: nat)
    requires |hh| >= 2 && |mm| == 2 && |ss| == 2 && (|hh| == 2 || hh[0] != '0')
    requires AllDigits(hh) && AllDigits(mm) && AllDigits(ss)
    requires DecimalValue(mm) < 60 && DecimalValue(ss) < 60
    requires DecimalValue(hh) * 3600 + DecimalValue(mm) * 60 + DecimalValue(ss) == total
    ensures ParseClock(hh + ":" + mm + ":" + ss) == Some(total)
  {
    ClockShape(hh, mm, ss);
    ClockRead(hh + ":" + mm + ":" + ss, hh, mm, ss, total);
  }

  /** The fields of a clock reading: the hour field is the number of whole hours,
      and the minute and second fields are what remains. */
  lemma ClockReadingFields(r: string, seconds: nat)
    requires ParseClock(r) == Some(seconds)
    ensures |r| >= 8 && r[|r| - 6] == ':' && r[|r| - 3] == ':'
    ensures AllDigits(r[..|r| - 6]) && DecimalValue(r[..|r| - 6]) == seconds / 3600
    ensures AllDigits(r[|r| - 5..|r| - 3]) && DecimalValue(r[|r| - 5..|r| - 3]) == (seconds % 3600) / 60
    ensures AllDigits(r[|r| - 2..]) && DecimalValue(r[|r| - 2..]) == seconds % 60
  {
    var n := |r|;
    DivideClock(seconds, DecimalValue(r[..n - 6]), DecimalValue(r[n - 5..n - 3]), DecimalValue(r[n - 2..]));
  }

  /** A clock reading of some seconds is exactly what `formatDuration` prints for
      them: no other text reads back as the same seconds. */
  lemma ClockReadingIsDisplay(r: string, seconds: nat)
    requires ParseClock(r) == Some(seconds)
    ensures r == FormatDuration(seconds)
  {
    var n := |r|;
    ClockReadingFields(r, seconds);
    var hh, mm, ss := r[..n - 6], r[n - 5..n - 3], r[n - 2..];
    assert hh[0] == r[0];
    CanonicalClockField(hh);
    CanonicalClockField(mm);
    CanonicalClockField(ss);
    ColonSplit(r);
    FormatDurationFields(seconds);
  }

  /** `formatDuration` joins the padded hour, minute and second fields. */
  lemma FormatDurationFields(seconds: nat)
    ensures FormatDuration(seconds) == ClockField(seconds / 3600) + ":"
      + ClockField((seconds % 3600) / 60) + ":" + ClockField(seconds % 60)
  {
    ClockSplit(seconds);
  }

  /** A text with colons six and three places from its end is its three fields
      joined by those colons. */
  lemma ColonSplit(r: string)
    requires |r| >= 8 && r[|r| - 6] == ':' && r[|r| - 3] == ':'
    ensures r == r[..|r| - 6] + ":" + r[|r| - 5..|r| - 3] + ":" + r[|r| - 2..]
  {
  }

  /** The unique split of a number of seconds into hours, minutes below 60 and
      seconds below 60. */
  lemma DivideClock(seconds: nat, h: nat, m: nat, s: nat)
    requires m < 60 && s < 60 && seconds == h * 3600 + m * 60 + s
    ensures h == seconds / 3600 && m == (seconds % 3600) / 60 && s == seconds % 60
  {
    HourSplit(seconds, h, m * 60 + s);
    MinuteSplit(m * 60 + s, m, s);
    MinuteSplit(seconds, h * 60 + m, s);
  }

  /** Whole hours and a remainder below an hour are what division by 3600 gives. */
  lemma HourSplit(a: nat, q: nat, r: nat)
    requires r < 3600 && a == q * 3600 + r
    ensures a / 3600 == q && a % 3600 == r
  {
  }

  /** Whole minutes and a remainder below a minute are what division by 60 gives. */
  lemma MinuteSplit(a: nat, q: nat, r: nat)
    requires r < 60 && a == q * 60 + r
    ensures a / 60 == q && a % 60 == r
  {
  }

  /** Splitting a number of seconds into whole hours, minutes and seconds. */
  lemma ClockSplit(seconds: nat)
    ensures (seconds % 3600) / 60 < 60 && seconds % 60 < 60
    ensures (seconds / 3600) * 3600 + ((seconds % 3600) / 60) * 60 + seconds % 60 == seconds
    ensures seconds / 3600 < 100 <==> seconds < 360000
  {
  }

  /** A clock field is two characters wide exactly when its number is below 100. */
  lemma ClockFieldWidth(n: nat)
    ensures |ClockField(n)| == 2 <==> n < 100
  {
    if n >= 100 {
      assert |DecimalString(n)| > 2;
    }
  }

  /** Where the fields of a colon-joined clock display sit. */
  lemma ClockShape(hh: string, mm: string, ss: string)
    requires |mm| == 2 && |ss| == 2
    ensures var r := hh + ":" + mm + ":" + ss;
      && |r| == |hh| + 6 && r[|r| - 6] == ':' && r[|r| - 3] == ':'
      && r[..|r| - 6] == hh && r[|r| - 5..|r| - 3] == mm && r[|r| - 2..] == ss
  {
    var r := hh + ":" + mm + ":" + ss;
    assert r[..|r| - 6] == hh;
    assert r[|r| - 5..|r| - 3] == mm;
    assert r[|r| - 2..] == ss;
  }

  /** A display with digit fields between its two colons, minutes and seconds below
      60, reads back as those hours, minutes and seconds. */
  lemma ClockRead(r: string, hh: string, mm: string, ss: string, seconds: nat)
    requires |hh| >= 2 && |r| == |hh| + 6 && r[|r| - 6] == ':' && r[|r| - 3] == ':'
    requires |hh| == 2 || hh[0] != '0'
    requires r[..|r| - 6] == hh && r[|r| - 5..|r| - 3] == mm && r[|r| - 2..] == ss
    requires AllDigits(hh) && AllDigits(mm) && AllDigits(ss)
    requires DecimalValue(mm) < 60 && DecimalValue(ss) < 60
    requires DecimalValue(hh) * 3600 + DecimalValue(mm) * 60 + DecimalValue(ss) == seconds
    ensures ParseClock(r) == Some(seconds)
  {
  }

  /** The position of the first `c` in `s`, or `|s|` when there is none. */
  function IndexOf(s: string, c: char): (k: nat)
    ensures k <= |s|
    ensures k < |s| ==> s[k] == c
  {
    if s == [] || s[0] == c then 0 else 1 + IndexOf(s[1..], c)
  }

  /** `IndexOf` finds the first `c`: a position holding `c` (or the end) with no
      `c` before it is exactly what it returns. */
  lemma {:induction false} IndexOfFirst(s: string, c: char, k: nat)
    requires k <= |s| && (k < |s| ==> s[k] == c)
    requires forall i :: 0 <= i < k ==> s[i] != c
    ensures IndexOf(s, c) == k
  {
    if k > 0 {
      assert s[0] != c;
      forall i | 0 <= i < k - 1 ensures s[1..][i] != c {
        assert s[1..][i] == s[i + 1];
      }
      IndexOfFirst(s[1..], c, k - 1);
    }
  }

  /** Reads a `{h}h {m}m` or `{m}m` display back into seconds; `None` unless the
      numbers are spelled as `String` prints them, the minutes are below 60 and
      the hours, when present, are at least one. */
  function ParseShort(r: string): Option<nat>
  {
    if |r| < 2 || r[|r| - 1] != 'm' then None
    else
      var body := r[..|r| - 1];
      var k := IndexOf(body, 'h');
      if k == |body| then
        if Canonical(body) && DecimalValue(body) < 60 then Some(DecimalValue(body) * 60) else None
      else if 0 < k && k + 2 < |body| && body[k + 1] == ' '
              && Canonical(body[..k]) && Canonical(body[k + 2..])
              && DecimalValue(body[..k]) > 0 && DecimalValue(body[k + 2..]) < 60
      then Some(DecimalValue(body[..k]) * 3600 + DecimalValue(body[k + 2..]) * 60)
      else None
  }

  /** `formatDurationShort(seconds)`: the hours prefix `"{h}h "` appears exactly when
      there is at least one whole hour. */
  function FormatDurationShort(seconds: nat): (r: string)
    ensures |r| >= 2 && r[|r| - 1] == 'm'
  {
    ShortDisplay(seconds / 3600, (seconds % 3600) / 60)
  }

  /** `{hours}h {minutes}m` when there is at least one hour, `{minutes}m` otherwise. */
  function ShortDisplay(hours: nat, minutes: nat): (r: string)
    ensures |r| >= 2 && r[|r| - 1] == 'm'
  {
    var m := DecimalString(minutes);
    if hours > 0 then DecimalString(hours) + "h " + m + "m" else m + "m"
  }

  /** The hours prefix `{h}h ` of the short display appears exactly when there is at
      least one whole hour. */
  lemma ShortShowsHours(seconds: nat)
    ensures 'h' in FormatDurationShort(seconds) <==> seconds >= 3600
  {
    ShortDisplayHourMark(seconds / 3600, (seconds % 3600) / 60);
  }

  lemma ShortDisplayHourMark(hours: nat, minutes: nat)
    ensures 'h' in ShortDisplay(hours, minutes) <==> hours > 0
  {
    var m := DecimalString(minutes);
    if hours > 0 {
      HoursMinutesShape(DecimalString(hours), m);
    } else {
      NoHourMark(m);
      assert ShortDisplay(hours, minutes) == m + "m";
    }
  }

  /** The short display reads back as the seconds rounded down to whole minutes. */
  lemma ShortReadsBack(seconds: nat)
    ensures ParseShort(FormatDurationShort(seconds)) == Some(seconds - seconds % 60)
  {
    ClockSplit(seconds);
    ShortDisplayReads(seconds / 3600, (seconds % 3600) / 60, seconds - seconds % 60);
  }

  /** The short display of hours and minutes reads back as that many seconds. */
  lemma ShortDisplayReads(hours: nat, minutes: nat, total: nat)
    requires minutes < 60 && hours * 3600 + minutes * 60 == total
    ensures ParseShort(ShortDisplay(hours, minutes)) == Some(total)
  {
    if hours > 0 {
      HoursJoinReads(DecimalString(hours), DecimalString(minutes), total);
    } else {
      MinutesShape(DecimalString(minutes), total);
    }
  }

  /** Hour digits, `h `, minute digits and `m` read back as those hours and
      minutes. */
  lemma HoursJoinReads(h: string, m: string, total: nat)
    requires Canonical(h) && Canonical(m) && DecimalValue(h) > 0 && DecimalValue(m) < 60
    requires DecimalValue(h) * 3600 + DecimalValue(m) * 60 == total
    ensures ParseShort(h + "h " + m + "m") == Some(total)
  {
    HoursMinutesShape(h, m);
    ShortRead(h + "h " + m + "m", h, m, total);
  }

  /** Where the parts of a `{h}h {m}m` display sit. */
  lemma HoursMinutesShape(h: string, m: string)
    ensures var r := h + "h " + m + "m";
      && |r| == |h| + |m| + 3 && r[|r| - 1] == 'm' && r[|h|] == 'h'
      && r[..|r| - 1][..|h|] == h && r[..|r| - 1][|h|] == 'h'
      && r[..|r| - 1][|h| + 1] == ' ' && r[..|r| - 1][|h| + 2..] == m
  {
    var r := h + "h " + m + "m";
    assert r[..|r| - 1][..|h|] == h;
    assert r[..|r| - 1][|h| + 2..] == m;
  }

  /** A display made of hour digits, `h `, minute digits and `m` reads back as
      those hours and minutes. */
  lemma ShortRead(r: string, h: string, m: string, value: int)
    requires Canonical(h) && Canonical(m) && DecimalValue(h) > 0 && DecimalValue(m) < 60
    requires |r| == |h| + |m| + 3 && r[|r| - 1] == 'm'
    requires r[..|r| - 1][..|h|] == h && r[..|r| - 1][|h|] == 'h'
    requires r[..|r| - 1][|h| + 1] == ' ' && r[..|r| - 1][|h| + 2..] == m
    requires DecimalValue(h) * 3600 + DecimalValue(m) * 60 == value
    ensures ParseShort(r) == Some(value)
  {
    var body := r[..|r| - 1];
    forall i | 0 <= i < |h| ensures body[i] != 'h' {
      DigitAt(h, i);
      assert body[i] == body[..|h|][i];
    }
    IndexOfFirst(body, 'h', |h|);
    var k := IndexOf(body, 'h');
    assert body[..k] == h && body[k + 2..] == m;
  }

  /** The `{m}m` display of minute digits reads back as its minutes. */
  lemma MinutesShape(m: string, value: int)
    requires Canonical(m) && DecimalValue(m) < 60 && DecimalValue(m) * 60 == value
    ensures ParseShort(m + "m") == Some(value)
  {
    var r := m + "m";
    NoHourMark(m);
    assert r[..|r| - 1] == m;
    IndexOfFirst(m, 'h', |m|);
  }

  /** A short reading of some seconds is exactly what `formatDurationShort` prints
      for them: the hour field is the whole hours and the minute field the whole
      minutes left over, so no other text reads back as the same seconds. */
  lemma ShortReadingIsDisplay(r: string, value: nat)
    requires ParseShort(r) == Some(value)
    ensures value % 60 == 0 && r == FormatDurationShort(value)
  {
    var body := r[..|r| - 1];
    var k := IndexOf(body, 'h');
    assert r == body + "m";
    if k == |body| {
      var m := DecimalValue(body);
      DivideClock(value, 0, m, 0);
      CanonicalIsDecimal(body);
    } else {
      var h, m := DecimalValue(body[..k]), DecimalValue(body[k + 2..]);
      DivideClock(value, h, m, 0);
      CanonicalIsDecimal(body[..k]);
      CanonicalIsDecimal(body[k + 2..]);
      assert body == body[..k] + "h " + body[k + 2..];
    }
  }

  /** The breakdown bar's width, `totalTime > 0 ? (part / totalTime) * 100 : 0`. */
  function Percentage(part: int, total: int): (p: real)
    ensures total <= 0 ==> p == 0.0
    ensures total > 0 ==> p * total as real == 100.0 * part as real
    ensures 0 <= part <= total ==> 0.0 <= p <= 100.0
  {
    if total > 0 then (part as real / total as real) * 100.0 else 0.0
  }

  /** A session from 09:00:00 to 09:25:30 shows as `25m`. */
  lemma ShortExample()
    ensures FormatDurationShort(1530) == "25m"
  {
    assert 1530 / 3600 == 0 && (1530 % 3600) / 60 == 25;
    assert DecimalString(25) == "25";
  }
}
