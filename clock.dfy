/** The clock text of React/Utils/getTime.ts: a 12-hour `h:mm` string,
    without AM/PM, from the hour and minute of the current local time. */
module Clock {
  import opened Text

  /** The hour shown: hours past noon lose twelve, midnight shows as 12. */
  function DisplayHour(hour: int): (h: int)
    ensures 0 <= hour <= 23 ==> 1 <= h <= 12
    ensures 0 <= hour <= 23 ==> h % 12 == hour % 12
  {
    if hour > 12 then hour - 12 else if hour == 0 then 12 else hour
  }

  predicate IsDigit(c: char) {
    '0' <= c <= '9'
  }

  function DigitChar(d: int): (c: char)
    requires 0 <= d <= 9
    ensures IsDigit(c) && c as int - '0' as int == d
  {
    ('0' as int + d) as char
  }

  /** `n.toString()` for a natural number. */
  function DecimalString(n: nat): (s: string)
    ensures 1 <= |s|
    ensures forall i :: 0 <= i < |s| ==> IsDigit(s[i])
    ensures n < 10 ==> |s| == 1
    ensures 10 <= n < 100 ==> |s| == 2
    ensures n > 0 ==> s[0] != '0'
  {
    if n < 10 then [DigitChar(n)]
    else
      var init := DecimalString(n / 10);
      assert (init + [DigitChar(n % 10)])[0] == init[0];
      init + [DigitChar(n % 10)]
  }

  /** The number a string of digits denotes; leading zeros add nothing. */
  function DecimalValue(s: string): nat {
    if s == [] then 0
    else
      var d := s[|s| - 1] as int - '0' as int;
      DecimalValue(s[..|s| - 1]) * 10 + (if 0 <= d <= 9 then d else 0)
  }

  /** Reading the decimal text of a number gives the number back. */
  lemma {:induction false} DecimalRoundTrip(n: nat)
    ensures DecimalValue(DecimalString(n)) == n
  {
    if n >= 10 {
      DecimalRoundTrip(n / 10);
      var s := DecimalString(n);
      assert s[..|s| - 1] == DecimalString(n / 10);
    }
  }

  /** A leading zero does not change the value. */
  lemma {:induction false} LeadingZero(s: string)
    ensures DecimalValue("0" + s) == DecimalValue(s)
    decreases |s|
  {
    if s != [] {
      var init := s[..|s| - 1];
      assert ("0" + s)[..|"0" + s| - 1] == "0" + init;
      LeadingZero(init);
    } else {
      assert ("0" + s)[..0] == [];
    }
  }

  /** `s.padStart(len, fill)`. */
  function PadStart(s: string, len: nat, fill: char): (r: string)
    ensures |r| == if |s| >= len then |s| else len
    ensures r[|r| - |s|..] == s
    ensures forall i :: 0 <= i < |r| - |s| ==> r[i] == fill
  {
    if |s| >= len then s else seq(len - |s|, _ => fill) + s
  }

  /** `getMinutes().toString().padStart(2, "0")`: digits that read back as
      the minute; below a hundred exactly two of them, the first a '0'
      just when the minute is below ten. */
  function MinuteText(minute: nat): (r: string)
    ensures forall i :: 0 <= i < |r| ==> IsDigit(r[i])
    ensures DecimalValue(r) == minute
    ensures minute < 100 ==> |r| == 2
    ensures minute < 100 ==> (minute < 10 <==> r[0] == '0')
  {
    var d := DecimalString(minute);
    DecimalRoundTrip(minute);
    if minute < 10 then
      assert PadStart(d, 2, '0') == "0" + d;
      LeadingZero(d);
      PadStart(d, 2, '0')
    else
      assert PadStart(d, 2, '0') == d;
      PadStart(d, 2, '0')
  }

  predicate AllDigits(s: string) {
    forall i :: 0 <= i < |s| ==> IsDigit(s[i])
  }

  /** Two digit strings joined by a colon: the colon is the only non-digit,
      it is the first ':' of the text, and the two sides split back out. */
  lemma JoinAtColon(h: string, m: string)
    requires AllDigits(h) && AllDigits(m)
    ensures var t := h + ":" + m;
      |t| == |h| + 1 + |m| &&
      (forall i :: 0 <= i < |t| ==> (t[i] == ':' <==> i == |h|)) &&
      (forall i :: 0 <= i < |t| && t[i] != ':' ==> IsDigit(t[i])) &&
      IndexOf(t, ':') == |h| && t[..|h|] == h && t[|h| + 1..] == m
  {
    var rest := ":" + m;
    assert h + ":" + m == h + rest;
    assert ':' !in h by {
      forall i | 0 <= i < |h| ensures h[i] != ':' {
        assert IsDigit(h[i]);
      }
    }
    IndexOfAfterPrefix(h, rest, ':');
    ConcatParts(h, rest);
    ConcatParts(":", m);
    var t := h + rest;
    forall i | 0 <= i < |t|
      ensures (t[i] == ':' <==> i == |h|) && (t[i] != ':' ==> IsDigit(t[i]))
    {
      if i < |h| {
        assert t[i] == h[i];
      } else if i > |h| {
        assert t[i] == m[i - |h| - 1];
      }
    }
  }

  /** `getTime()` at local hour `hour` and minute `minute`: the displayed
      hour's digits, one colon, and the two minute digits. The `timeFormat`
      argument some callers pass is not a parameter and has no effect. */
  function GetTime(hour: int, minute: int): (t: string)
    requires 0 <= hour <= 23 && 0 <= minute <= 59
    ensures forall i :: 0 <= i < |t| ==> (t[i] == ':' <==> i == |DecimalString(DisplayHour(hour))|)
    ensures forall i :: 0 <= i < |t| && t[i] != ':' ==> IsDigit(t[i])
    ensures |t| == |DecimalString(DisplayHour(hour))| + 3
  {
    JoinAtColon(DecimalString(DisplayHour(hour)), MinuteText(minute));
    DecimalString(DisplayHour(hour)) + ":" + MinuteText(minute)
  }

  /** Reads an `h:mm` text back into hour and minute. */
  function ParseTime(t: string): Option<(int, int)> {
    var i := IndexOf(t, ':');
    if i == |t| then None
    else Some((DecimalValue(t[..i]), DecimalValue(t[i + 1..])))
  }

  /** The clock text reads back as the displayed hour and the minute. */
  lemma GetTimeRoundTrip(hour: int, minute: int)
    requires 0 <= hour <= 23 && 0 <= minute <= 59
    ensures ParseTime(GetTime(hour, minute)) == Some((DisplayHour(hour), minute))
  {
    var h := DecimalString(DisplayHour(hour));
    var m := MinuteText(minute);
    JoinAtColon(h, m);
    DecimalRoundTrip(DisplayHour(hour));
  }

  /** Examples: midnight shows as 12, noon as 12, 13:15 as 1:15. */
  lemma ClockExamples()
    ensures GetTime(0, 5) == "12:05"
    ensures GetTime(12, 0) == "12:00"
    ensures GetTime(13, 15) == "1:15"
  {
    SmallDecimals();
    var twelve, one := DecimalString(12), DecimalString(1);
    var m5, m0, m15 := MinuteText(5), MinuteText(0), MinuteText(15);
    assert GetTime(0, 5) == twelve + ":" + m5;
    assert GetTime(12, 0) == twelve + ":" + m0;
    assert GetTime(13, 15) == one + ":" + m15;
  }

  /** The decimal and minute texts the examples use. */
  lemma SmallDecimals()
    ensures DecimalString(1) == "1" && DecimalString(12) == "12"
    ensures MinuteText(5) == "05" && MinuteText(0) == "00" && MinuteText(15) == "15"
  {
    assert DigitChar(0) == '0' && DigitChar(1) == '1' && DigitChar(2) == '2' && DigitChar(5) == '5';
    assert DecimalString(12) == DecimalString(1) + [DigitChar(2)];
    assert DecimalString(15) == DecimalString(1) + [DigitChar(5)];
  }
}
