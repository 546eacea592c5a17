/** The countdown and the date fallbacks of src/components/ConferenceCard.js.

    `calculateCountdown` turns the time left until a deadline into
    `DDd HHh MMm SSs`, each field zero-padded to at least two digits; a
    deadline that has passed gives "Deadline passed", a missing or
    unparseable one the empty string, which the card shows as 'TBD'. The
    clock is a parameter `now` (milliseconds since the epoch). */
module ConferenceCard {
  import opened Js
  import opened Conferences

  predicate IsDigit(c: char) {
    '0' <= c <= '9'
  }

  predicate AllDigits(s: string) {
    forall i :: 0 <= i < |s| ==> IsDigit(s[i])
  }

  function DigitChar(d: nat): (c: char)
    requires d < 10
    ensures IsDigit(c)
  {
    ('0' as int + d) as char
  }

  /** The value of a decimal digit (0 for any other character). */
  function DigitValue(c: char): nat {
    if IsDigit(c) then c as int - '0' as int else 0
  }

  /** `String(n)` for a non-negative integer: its decimal digits. */
  function Decimal(n: nat): (s: string)
    ensures 1 <= |s| && AllDigits(s)
    ensures n < 10 ==> |s| == 1
    ensures 10 <= n < 100 ==> |s| == 2
  {
    if n < 10 then [DigitChar(n)] else Decimal(n / 10) + [DigitChar(n % 10)]
  }

  /** The number a string of decimal digits denotes. */
  function DigitsValue(s: string): nat {
    if s == [] then 0 else DigitsValue(s[..|s| - 1]) * 10 + DigitValue(s[|s| - 1])
  }

  /** `s.padStart(n, fill)` with a one-character fill: fill on the left up
      to length `n`; a longer string is kept whole. */
  function PadStart(s: string, n: nat, fill: char): (r: string)
    ensures |r| == if |s| >= n then |s| else n
    ensures forall i :: 0 <= i < |r| - |s| ==> r[i] == fill
    ensures r[|r| - |s|..] == s
  {
    if |s| >= n then s else seq(n - |s|, _ => fill) + s
  }

  /** The four fields of a positive difference. */
  datatype Parts = Parts(days: nat, hours: nat, minutes: nat, seconds: nat)

  const MsPerSecond := 1000
  const MsPerMinute := 1000 * 60
  const MsPerHour := 1000 * 60 * 60
  const MsPerDay := 1000 * 60 * 60 * 24

  /** `Math.floor(diff / MsPerDay)`, `Math.floor((diff / MsPerHour) % 24)`,
      `Math.floor((diff / MsPerMinute) % 60)`, `Math.floor((diff / 1000) % 60)`
      for a positive whole number of milliseconds: for a non-negative `x`,
      `Math.floor(x % m)` is the integer `Math.floor(x) % m`. */
  function Split(diff: nat): (p: Parts)
    ensures p.hours < 24 && p.minutes < 60 && p.seconds < 60
    ensures p.days == 0 ==> diff < MsPerDay
  {
    Parts(diff / MsPerDay, (diff / MsPerHour) % 24, (diff / MsPerMinute) % 60, (diff / MsPerSecond) % 60)
  }

  function Field(n: nat): (f: string)
    ensures |f| == if n < 10 then 2 else |Decimal(n)|
    ensures AllDigits(f)
  {
    var d := Decimal(n);
    var f := PadStart(d, 2, '0');
    assert forall i :: |f| - |d| <= i < |f| ==> f[i] == d[i - (|f| - |d|)];
    f
  }

  /** The template `${DD}d ${HH}h ${MM}m ${SS}s`. */
  function Format(p: Parts): (r: string)
    ensures p.hours < 100 && p.minutes < 100 && p.seconds < 100 ==> |r| == |Field(p.days)| + 13
    ensures |r| >= 15 && r[|r| - 1] == 's'
  {
    Field(p.days) + "d " + Field(p.hours) + "h " + Field(p.minutes) + "m " + Field(p.seconds) + "s"
  }

  const Passed := "Deadline passed"

  /** `calculateCountdown(deadline)` at time `now`. */
  function CalculateCountdown(deadline: DateField, now: int): (r: string)
    ensures r == "" <==> !deadline.At?
    ensures r == Passed <==> deadline.At? && deadline.ms - now <= 0
  {
    match deadline
    case Missing => ""
    case Unparsed(_) => ""
    case At(_, ms) =>
      var diff := ms - now;
      if diff <= 0 then Passed
      else
        var r := Format(Split(diff));
        assert r[|r| - 1] == 's' != Passed[|Passed| - 1];
        r
  }

  /** `{countdown || 'TBD'}`. */
  function CountdownShown(countdown: string): (r: string)
    ensures r == "TBD" <==> countdown == "" || countdown == "TBD"
    ensures countdown != "" ==> r == countdown
  {
    if countdown == "" then "TBD" else countdown
  }

  /** `field ? new Date(field).toLocaleDateString('en-US', …) : 'TBD'`, with
      the host's formatting of a valid time given as `format`. */
  function DateShown(f: DateField, format: int -> string): (r: string)
    ensures r == "TBD" <==> f.Missing? || (f.At? && format(f.ms) == "TBD")
    ensures f.Unparsed? ==> r == "Invalid Date"
  {
    match f
    case Missing => "TBD"
    case Unparsed(_) => "Invalid Date"
    case At(_, ms) => format(ms)
  }

  /** The fields are within their ranges and together are the difference
      rounded down to a whole second. */
  lemma SplitExact(diff: nat)
    ensures Split(diff).hours < 24 && Split(diff).minutes < 60 && Split(diff).seconds < 60
    ensures var p := Split(diff);
            var total := p.days * MsPerDay + p.hours * MsPerHour + p.minutes * MsPerMinute + p.seconds * MsPerSecond;
            total <= diff < total + MsPerSecond
  {
    var p := Split(diff);
    var s := diff / 1000;
    var m := s / 60;
    var h := m / 60;
    assert diff / MsPerMinute == m;
    assert diff / MsPerHour == h;
    assert diff / MsPerDay == h / 24;
    assert p.seconds == s % 60 && p.minutes == m % 60 && p.hours == h % 24 && p.days == h / 24;
    assert h == p.days * 24 + p.hours;
    assert m == h * 60 + p.minutes;
    assert s == m * 60 + p.seconds;
    assert diff == s * 1000 + diff % 1000;
  }

  /** A leading '0' does not change the value of a digit string. */
  lemma {:induction false} LeadingZero(s: string)
    requires AllDigits(s)
    ensures AllDigits(['0'] + s) && DigitsValue(['0'] + s) == DigitsValue(s)
  {
    if s != [] {
      var t := ['0'] + s;
      assert t[..|t| - 1] == ['0'] + s[..|s| - 1];
      LeadingZero(s[..|s| - 1]);
    }
  }

  lemma {:induction false} DecimalValue(n: nat)
    ensures DigitsValue(Decimal(n)) == n
  {
    if n >= 10 {
      DecimalValue(n / 10);
      var s := Decimal(n);
      assert s[..|s| - 1] == Decimal(n / 10);
    }
  }

  /** Reading a padded field back gives its number. */
  lemma {:induction false} FieldValue(n: nat)
    ensures AllDigits(Field(n)) && DigitsValue(Field(n)) == n
  {
    DecimalValue(n);
    if |Decimal(n)| < 2 {
      LeadingZero(Decimal(n));
      assert Field(n) == ['0'] + Decimal(n);
    }
  }

  /** The value of a two-digit field. */
  function Pair(a: char, b: char): nat {
    DigitValue(a) * 10 + DigitValue(b)
  }

  /** Reads a countdown string back into its four fields: the day digits,
      then the fixed-width tail "d HHh MMm SSs". */
  function ParseCountdown(r: string): Option<Parts> {
    if |r| < 15 then None else ParseParts(r[..|r| - 13], r[|r| - 13..])
  }

  function ParseParts(days: string, t: string): Option<Parts>
    requires |t| == 13
  {
    if AllDigits(days) && TailShaped(t)
    then Some(Parts(DigitsValue(days), Pair(t[2], t[3]), Pair(t[6], t[7]), Pair(t[10], t[11])))
    else None
  }

  /** `t` reads "d DDh DDm DDs" with digits in place of each D. */
  predicate TailShaped(t: string)
    requires |t| == 13
  {
    t[0] == 'd' && t[1] == ' ' && IsDigit(t[2]) && IsDigit(t[3]) &&
    t[4] == 'h' && t[5] == ' ' && IsDigit(t[6]) && IsDigit(t[7]) &&
    t[8] == 'm' && t[9] == ' ' && IsDigit(t[10]) && IsDigit(t[11]) && t[12] == 's'
  }

  lemma PairValue(s: string)
    requires |s| == 2 && AllDigits(s)
    ensures DigitsValue(s) == Pair(s[0], s[1])
  {
    assert DigitsValue(s[..1]) == DigitValue(s[0]) by {
      assert s[..1][..0] == [];
    }
  }

  function Tail(h: string, m: string, s: string): seq<char>
    requires |h| == 2 && |m| == 2 && |s| == 2
  {
    ['d', ' ', h[0], h[1], 'h', ' ', m[0], m[1], 'm', ' ', s[0], s[1], 's']
  }

  lemma TailDigits(h: string, m: string, s: string)
    requires AllDigits(h) && AllDigits(m) && AllDigits(s)
    requires |h| == 2 && |m| == 2 && |s| == 2
    ensures TailShaped(Tail(h, m, s))
  {
    assert IsDigit(h[0]) && IsDigit(h[1]) && IsDigit(m[0]) && IsDigit(m[1]) && IsDigit(s[0]) && IsDigit(s[1]);
  }

  lemma ParseTail(d: string, h: string, m: string, s: string)
    requires AllDigits(d) && AllDigits(h) && AllDigits(m) && AllDigits(s)
    requires |h| == 2 && |m| == 2 && |s| == 2
    ensures ParseParts(d, Tail(h, m, s)) == Some(Parts(DigitsValue(d), DigitsValue(h), DigitsValue(m), DigitsValue(s)))
  {
    TailDigits(h, m, s);
    var t := Tail(h, m, s);
    assert Pair(t[2], t[3]) == DigitsValue(h) by {
      PairValue(h);
    }
    assert Pair(t[6], t[7]) == DigitsValue(m) by {
      PairValue(m);
    }
    assert Pair(t[10], t[11]) == DigitsValue(s) by {
      PairValue(s);
    }
  }

  /** The template after the day count, piece by piece. */
  lemma TemplateTail(d: string, h: string, m: string, s: string)
    requires |h| == 2 && |m| == 2 && |s| == 2
    ensures d + "d " + h + "h " + m + "m " + s + "s" == d + Tail(h, m, s)
  {
    var t1 := ['d', ' ', h[0], h[1]];
    assert d + "d " + h == d + t1;
    var t2 := t1 + ['h', ' ', m[0], m[1]];
    assert d + t1 + "h " + m == d + t2;
    var t3 := t2 + ['m', ' ', s[0], s[1]];
    assert d + t2 + "m " + s == d + t3;
    assert t3 + ['s'] == Tail(h, m, s);
    assert d + t3 + "s" == d + Tail(h, m, s);
  }

  /** The text of `Format`: the padded day count, then a fixed tail of 13
      characters. */
  lemma FormatShape(p: Parts)
    requires p.hours < 100 && p.minutes < 100 && p.seconds < 100
    ensures |Field(p.hours)| == 2 && |Field(p.minutes)| == 2 && |Field(p.seconds)| == 2
    ensures Format(p) == Field(p.days) + Tail(Field(p.hours), Field(p.minutes), Field(p.seconds))
  {
    TemplateTail(Field(p.days), Field(p.hours), Field(p.minutes), Field(p.seconds));
  }

  /** `Format` loses nothing: reading its text back gives the fields, as
      long as hours, minutes and seconds are below 100. */
  lemma FormatParse(p: Parts)
    requires p.hours < 100 && p.minutes < 100 && p.seconds < 100
    ensures ParseCountdown(Format(p)) == Some(p)
  {
    FormatShape(p);
    FieldValue(p.days);
    FieldValue(p.hours);
    FieldValue(p.minutes);
    FieldValue(p.seconds);
    var d, tail := Field(p.days), Tail(Field(p.hours), Field(p.minutes), Field(p.seconds));
    var r := d + tail;
    assert r[..|r| - 13] == d;
    assert r[|r| - 13..] == tail;
    ParseTail(d, Field(p.hours), Field(p.minutes), Field(p.seconds));
  }

  /** An upcoming deadline is shown as its formatted fields. */
  lemma UpcomingCountdown(t: string, ms: int, now: int)
    requires ms - now > 0
    ensures CalculateCountdown(At(t, ms), now) == Format(Split(ms - now))
  {
  }

  /** The countdown of an upcoming deadline determines the four fields:
      reading it back gives exactly `Split(diff)`. */
  lemma CountdownRoundTrip(t: string, ms: int, now: int)
    requires ms - now > 0
    ensures ParseCountdown(CalculateCountdown(At(t, ms), now)) == Some(Split(ms - now))
  {
    UpcomingCountdown(t, ms, now);
    FormatParse(Split(ms - now));
  }

  /** Each field shows at least two digits and the day count is never cut:
      the text before "d " is the whole decimal day count, zero-padded. */
  lemma DaysNeverTruncated(ms: int, now: int, t: string)
    requires ms - now > 0
    ensures var r := CalculateCountdown(At(t, ms), now);
            var days := Split(ms - now).days;
            |r| >= 15 && r[..|r| - 13] == Field(days) &&
            |Field(days)| == if days < 10 then 2 else |Decimal(days)|
  {
    var p := Split(ms - now);
    UpcomingCountdown(t, ms, now);
    FormatShape(p);
    var r := Format(p);
    assert r[..|r| - 13] == Field(p.days);
  }

  /** 90061 seconds ahead is one day, one hour, one minute and one second. */
  lemma OneOfEach(now: int, t: string)
    ensures CalculateCountdown(At(t, now + 90061000), now) == "01d 01h 01m 01s"
  {
    var p := Parts(1, 1, 1, 1);
    assert Split(90061000) == p;
    assert Field(1) == "01" by {
      assert Decimal(1) == "1";
    }
    FormatShape(p);
    assert Format(p) == "01" + Tail("01", "01", "01");
    UpcomingCountdown(t, now + 90061000, now);
  }

  /** The card shows 'TBD' for the countdown exactly when the deadline is
      missing or cannot be parsed; a passed deadline shows "Deadline passed". */
  lemma CountdownFallback(deadline: DateField, now: int)
    ensures CountdownShown(CalculateCountdown(deadline, now)) == "TBD" <==> !deadline.At?
    ensures deadline.At? && deadline.ms <= now ==> CountdownShown(CalculateCountdown(deadline, now)) == Passed
  {
    if deadline.At? && deadline.ms - now > 0 {
      var r := CalculateCountdown(deadline, now);
      assert r[|r| - 1] == 's';
    }
  }

  /** A date shows 'TBD' exactly when the field is missing. */
  lemma DateFallback(f: DateField, format: int -> string)
    requires forall ms :: format(ms) != "TBD"
    ensures DateShown(f, format) == "TBD" <==> f.Missing?
  {
  }
}
