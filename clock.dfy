/** Clock times of day ("HH:MM" text, minutes since midnight): the random default
    times and the in/out duration of pages/Dashboard.tsx. */
module Clock {
  import opened Wrappers

  predicate IsDigit(c: char) {
    '0' <= c <= '9'
  }

  function DigitValue(c: char): (n: int)
    requires IsDigit(c)
    ensures 0 <= n < 10
  {
    c as int - '0' as int
  }

  function DigitChar(n: int): (c: char)
    requires 0 <= n < 10
    ensures IsDigit(c) && DigitValue(c) == n
  {
    ('0' as int + n) as char
  }

  /** `String(n)` for a non-negative integer: its decimal digits, no leading zero. */
  function DecimalString(n: nat): (s: string)
    ensures 1 <= |s|
    ensures forall i :: 0 <= i < |s| ==> IsDigit(s[i])
    ensures n < 10 <==> |s| == 1
    ensures 10 <= n < 100 <==> |s| == 2
  {
    if n < 10 then [DigitChar(n)] else DecimalString(n / 10) + [DigitChar(n % 10)]
  }

  /** `s.padStart(2, '0')`. */
  function PadStart2(s: string): string {
    if |s| < 2 then seq(2 - |s|, _ => '0') + s else s
  }

  /** Padding yields at least two characters: zeros, then `s` unchanged. */
  lemma PadStart2Shape(s: string)
    ensures var r := PadStart2(s);
            && |r| == (if |s| < 2 then 2 else |s|)
            && r[|r| - |s|..] == s
            && forall i :: 0 <= i < |r| - |s| ==> r[i] == '0'
  {
  }

  /** `String(n).padStart(2, '0')`. */
  function TwoDigits(n: nat): string {
    PadStart2(DecimalString(n))
  }

  /** Below 100, the padded form is exactly the tens digit then the units digit. */
  lemma TwoDigitsBelow100(n: nat)
    requires n < 100
    ensures TwoDigits(n) == [DigitChar(n / 10), DigitChar(n % 10)]
  {
    if n >= 10 {
      assert DecimalString(n / 10) == [DigitChar(n / 10)];
    }
  }

  /** "HH:MM" for a number of minutes, as getRandomTimeInRange and calculateDuration print it. */
  function FormatTime(total: nat): string {
    TwoDigits(total / 60) + ":" + TwoDigits(total % 60)
  }

  /** The minutes always take two digits after the colon; the hours take two digits exactly
      below 100 hours. */
  lemma FormatTimeShape(total: nat)
    ensures var r := FormatTime(total);
            && |r| >= 5 && r[|r| - 3] == ':'
            && (total < 100 * 60 <==> |r| == 5)
  {
    PadStart2Shape(DecimalString(total / 60));
    PadStart2Shape(DecimalString(total % 60));
  }

  /** Minutes since midnight of a well-formed 24-hour "HH:MM" text; None for any other text. */
  function ParseClock(s: string): (r: Option<nat>)
    ensures r.Some? ==> r.value < 24 * 60
    ensures r.Some? ==> |s| == 5 && s[2] == ':'
  {
    if |s| == 5 && IsDigit(s[0]) && IsDigit(s[1]) && s[2] == ':' && IsDigit(s[3]) && IsDigit(s[4]) then
      var h := 10 * DigitValue(s[0]) + DigitValue(s[1]);
      var m := 10 * DigitValue(s[3]) + DigitValue(s[4]);
      if h <= 23 && m <= 59 then Some(h * 60 + m) else None
    else None
  }

  /** Every minute of the day is printed as text that parses back to it. */
  lemma ParseFormatTime(t: nat)
    requires t < 24 * 60
    ensures |FormatTime(t)| == 5
    ensures ParseClock(FormatTime(t)) == Some(t)
  {
    TwoDigitsBelow100(t / 60);
    TwoDigitsBelow100(t % 60);
  }

  /** Every well-formed time text is the printed form of the minutes it denotes. */
  lemma FormatParseClock(s: string)
    requires ParseClock(s).Some?
    ensures FormatTime(ParseClock(s).value) == s
  {
    var t := ParseClock(s).value;
    var h := 10 * DigitValue(s[0]) + DigitValue(s[1]);
    var m := 10 * DigitValue(s[3]) + DigitValue(s[4]);
    assert t / 60 == h && t % 60 == m;
    TwoDigitsBelow100(h);
    TwoDigitsBelow100(m);
    assert DigitChar(h / 10) == s[0] && DigitChar(h % 10) == s[1];
    assert DigitChar(m / 10) == s[3] && DigitChar(m % 10) == s[4];
  }

  /** getRandomTimeInRange(start, end): the random draw `Math.floor(Math.random() * (end - start + 1))`
      is the parameter `pick`; the result is the time `pick` minutes after `start`. */
  function RandomTimeInRange(start: string, end: string, pick: nat): (r: string)
    requires ParseClock(start).Some? && ParseClock(end).Some?
    requires pick <= ParseClock(end).value - ParseClock(start).value
    ensures |r| == 5 && r[2] == ':'
    ensures ParseClock(r) == Some(ParseClock(start).value + pick)
    ensures ParseClock(start).value <= ParseClock(r).value <= ParseClock(end).value
  {
    var t := ParseClock(start).value + pick;
    ParseFormatTime(t);
    FormatTime(t)
  }

  /** calculateDuration(inTime, outTime): "-" when a time is missing or the out-time is not
      after the in-time, otherwise the difference as "HH:MM". None stands for non-empty text
      that is not a well-formed time, where the browser's date parser decides. */
  function CalculateDuration(inTime: string, outTime: string): (r: Option<string>)
    ensures r == Some("-") <==>
      inTime == "" || outTime == "" ||
      (ParseClock(inTime).Some? && ParseClock(outTime).Some? && ParseClock(outTime).value <= ParseClock(inTime).value)
    ensures r == None <==>
      inTime != "" && outTime != "" && (ParseClock(inTime).None? || ParseClock(outTime).None?)
    ensures ParseClock(inTime).Some? && ParseClock(outTime).Some? && ParseClock(inTime).value < ParseClock(outTime).value ==>
      r.Some? && ParseClock(r.value) == Some(ParseClock(outTime).value - ParseClock(inTime).value)
  {
    if inTime == "" || outTime == "" then Some("-")
    else
      match (ParseClock(inTime), ParseClock(outTime))
      case (Some(a), Some(b)) =>
        if b <= a then Some("-")
        else
          ParseFormatTime(b - a);
          Some(FormatTime(b - a))
      case _ => None
  }

  /** The worked example: in at 09:05, out at 16:45 is 7 hours 40 minutes. */
  lemma DurationExample()
    ensures CalculateDuration("09:05", "16:45") == Some("07:40")
  {
    assert ParseClock("09:05") == Some(545);
    assert ParseClock("16:45") == Some(1005);
    TwoDigitsBelow100(7);
    TwoDigitsBelow100(40);
    assert TwoDigits(7) == "07" && TwoDigits(40) == "40";
    assert FormatTime(1005 - 545) == "07:40";
  }
}
