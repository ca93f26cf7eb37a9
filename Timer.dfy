/** The elapsed-time display of the Timer component (src/components/Timer.tsx):
    whole seconds shown as minutes, a colon and two-digit seconds. */
module Timer {
  import opened GameTypes
  import opened Text

  /** `formatTime(seconds)`; the minutes are not capped. */
  function FormatTime(seconds: nat): string
  {
    var mins := seconds / 60;
    var secs := seconds % 60;
    NatToString(mins) + ":" + PadStart(NatToString(secs), 2, '0')
  }

  /** Reads an "m:ss" display back as seconds: digits, a colon, and two digits
      below 60. Anything else is rejected. */
  function ParseTime(r: string): Option<nat>
  {
    if |r| >= 4 && r[|r| - 3] == ':' then ParseClock(r[..|r| - 3], r[|r| - 2..]) else None
  }

  /** The seconds that minutes `m` and seconds `ss` stand for. */
  function ParseClock(m: string, ss: string): Option<nat>
  {
    if AllDigits(m) && AllDigits(ss) && DigitsValue(ss) < 60
    then Some(DigitsValue(m) * 60 + DigitsValue(ss))
    else None
  }

  /** The display is the minutes `seconds / 60` without leading zeros, a colon,
      and exactly two digits holding `seconds % 60`, which is below 60. */
  lemma FormatShape(seconds: nat)
    ensures var r := FormatTime(seconds);
            |r| >= 4 && r[|r| - 3] == ':' &&
            r[..|r| - 3] == NatToString(seconds / 60) &&
            AllDigits(r[|r| - 2..]) && DigitsValue(r[|r| - 2..]) == seconds % 60
  {
    var mins, secs := seconds / 60, seconds % 60;
    var m, p := NatToString(mins), PadStart(NatToString(secs), 2, '0');
    TwoDigits(secs);
    var r := m + ":" + p;
    assert r == FormatTime(seconds);
    assert r[..|r| - 3] == m;
    assert r[|r| - 2..] == p;
  }

  /** A display whose minutes field reads as `seconds / 60` and whose
      two-digit seconds field reads as `seconds % 60` parses as `seconds`. */
  lemma ParseFields(r: string, seconds: nat)
    requires |r| >= 4 && r[|r| - 3] == ':'
    requires AllDigits(r[..|r| - 3]) && DigitsValue(r[..|r| - 3]) == seconds / 60
    requires AllDigits(r[|r| - 2..]) && DigitsValue(r[|r| - 2..]) == seconds % 60
    ensures ParseTime(r) == Some(seconds)
  {
    assert ParseTime(r) == ParseClock(r[..|r| - 3], r[|r| - 2..]);
  }

  /** The minutes field of the display reads back as `seconds / 60`. */
  lemma MinutesField(seconds: nat)
    ensures var r := FormatTime(seconds);
            |r| >= 4 && AllDigits(r[..|r| - 3]) && DigitsValue(r[..|r| - 3]) == seconds / 60
  {
    FormatShape(seconds);
    NatToStringValue(seconds / 60);
  }

  /** Reading the display back gives the seconds: nothing is lost. */
  lemma FormatParse(seconds: nat)
    ensures ParseTime(FormatTime(seconds)) == Some(seconds)
  {
    FormatShape(seconds);
    MinutesField(seconds);
    ParseFields(FormatTime(seconds), seconds);
  }

  /** Different times are displayed differently. */
  lemma FormatInjective(a: nat, b: nat)
    requires FormatTime(a) == FormatTime(b)
    ensures a == b
  {
    FormatParse(a);
    FormatParse(b);
  }

  lemma FormatZero()
    ensures FormatTime(0) == "0:00"
  {
    assert NatToString(0) == "0";
    assert PadStart("0", 2, '0') == "00";
  }

  lemma FormatMinuteFive()
    ensures FormatTime(65) == "1:05"
  {
    assert NatToString(1) == "1" && NatToString(5) == "5";
    assert PadStart("5", 2, '0') == "05";
  }

  lemma FormatHour()
    ensures FormatTime(3600) == "60:00"
  {
    assert NatToString(60) == NatToString(6) + "0" == "60";
    assert NatToString(0) == "0";
    assert PadStart("0", 2, '0') == "00";
  }
}
