/**
 `formatTime` (app/page.tsx:81-85): whole minutes, a colon, and the leftover
 seconds padded to two characters. The JavaScript operators it uses are spelled
 out for integers below 2^53: `Math.floor` of the quotient, the truncating
 remainder `%`, integer `toString` and `padStart`.
 */
module TimeFormat {
  import opened Options
  import opened Decimal

  /** `Math.floor(seconds / 60)`: the whole minutes, rounded towards minus infinity. */
  function WholeMinutes(seconds: int): (q: int)
    ensures 60 * q <= seconds < 60 * q + 60
  {
    seconds / 60
  }

  /** `seconds % 60` in JavaScript: the remainder takes the sign of the dividend. */
  function LeftoverSeconds(seconds: int): (r: int)
    ensures seconds >= 0 ==> 0 <= r < 60
    ensures seconds < 0 ==> -60 < r <= 0
    ensures (seconds - r) % 60 == 0
  {
    if seconds >= 0 || seconds % 60 == 0 then seconds % 60 else seconds % 60 - 60
  }

  /** `s.padStart(width, fill)` with a one-character fill: `fill` repeated on the left up to `width`. */
  function PadStart(s: string, width: nat, fill: char): (r: string)
    ensures |r| == if |s| >= width then |s| else width
  {
    if |s| >= width then s else seq(width - |s|, _ => fill) + s
  }

  /** `padStart` keeps the string as a suffix and puts only the fill character before it. */
  lemma PadStartSpec(s: string, width: nat, fill: char)
    ensures PadStart(s, width, fill)[|PadStart(s, width, fill)| - |s|..] == s
    ensures forall i :: 0 <= i < |PadStart(s, width, fill)| - |s| ==> PadStart(s, width, fill)[i] == fill
  {
  }

  /**
   The timer display for a number of seconds. For a non-negative count it is the
   unpadded minute numeral, a colon, and exactly two digits for the seconds
   below 60.
   */
  function FormatTime(seconds: int): (r: string)
    ensures seconds >= 0 ==> r == Display(seconds / 60, seconds % 60)
  {
    var mins := WholeMinutes(seconds);
    var secs := LeftoverSeconds(seconds);
    var r := IntToString(mins) + ":" + PadStart(IntToString(secs), 2, '0');
    if seconds >= 0 then PadTwoDigits(secs); r else r
  }

  /** Exactly two digits for a number below 100. */
  function TwoDigits(v: nat): (r: string)
    requires v < 100
    ensures |r| == 2 && AllDigits(r) && ParseNat(r) == v
  {
    var r := [DigitChar(v / 10), DigitChar(v % 10)];
    assert r[..|r| - 1] == r[..1] && r[..1][..0] == [];
    assert AllDigits(r[..1]);
    assert ParseNat(r[..1]) == v / 10;
    r
  }

  /** The count a minute numeral and two second digits stand for, if they are well formed. */
  function ParseFields(m: string, ss: string): Option<int> {
    if Canonical(m) && |ss| == 2 && AllDigits(ss) && ParseNat(ss) < 60 then Some(ParseNat(m) * 60 + ParseNat(ss))
    else None
  }

  /** The display of whole minutes and a two-digit seconds field. */
  function Display(mins: nat, secs: nat): string
    requires secs < 100
  {
    NatToString(mins) + ":" + TwoDigits(secs)
  }

  /** Reads a display back: a canonical minute numeral, a colon, and two digits below 60. */
  function ParseTime(t: string): Option<int> {
    if |t| < 4 || t[|t| - 3] != ':' then None
    else ParseFields(t[..|t| - 3], t[|t| - 2..])
  }

  /** Padding the numeral of a number below 100 to width two gives its two digits. */
  lemma PadTwoDigits(v: nat)
    requires v < 100
    ensures PadStart(NatToString(v), 2, '0') == TwoDigits(v)
  {
    if v >= 10 {
      assert NatToString(v) == NatToString(v / 10) + [DigitChar(v % 10)];
    }
  }

  /** Two digits are the `TwoDigits` of their value. */
  lemma TwoDigitsOfParse(ss: string)
    requires |ss| == 2 && AllDigits(ss)
    ensures ParseNat(ss) < 100 && TwoDigits(ParseNat(ss)) == ss
  {
    assert ss[..1][..0] == [];
    assert ParseNat(ss[..1]) == DigitValue(ss[0]);
  }

  /** Minutes and seconds below 60 are recovered from their total by `/` and `%`. */
  lemma SplitSeconds(mins: nat, secs: nat)
    requires secs < 60
    ensures (mins * 60 + secs) / 60 == mins
    ensures (mins * 60 + secs) % 60 == secs
  {
  }

  /** `ParseTime` on a minute numeral, a colon and two digits. */
  lemma ParseTimeParts(t: string, m: string, ss: string)
    requires t == m + ":" + ss
    requires Canonical(m)
    requires |ss| == 2 && AllDigits(ss) && ParseNat(ss) < 60
    ensures ParseTime(t) == Some(ParseNat(m) * 60 + ParseNat(ss))
  {
    SplitDisplay(t, m, ss);
    assert ParseTime(t) == ParseFields(m, ss);
  }

  /** Where the colon and the two fields sit in a display. */
  lemma SplitDisplay(t: string, m: string, ss: string)
    requires t == m + ":" + ss
    requires |m| >= 1 && |ss| == 2
    ensures |t| >= 4 && t[|t| - 3] == ':'
    ensures t[..|t| - 3] == m && t[|t| - 2..] == ss
  {
  }

  /** The display of whole minutes and seconds below 60 reads back to their total. */
  lemma DisplayParses(mins: nat, secs: nat)
    requires secs < 60
    ensures ParseTime(Display(mins, secs)) == Some(mins * 60 + secs)
  {
    ParseNatToString(mins);
    ParseTimeParts(Display(mins, secs), NatToString(mins), TwoDigits(secs));
  }

  /** A non-negative count survives display and reading back. */
  lemma FormatTimeRoundTrip(seconds: int)
    requires seconds >= 0
    ensures ParseTime(FormatTime(seconds)) == Some(seconds)
  {
    var mins, secs := seconds / 60, seconds % 60;
    assert mins * 60 + secs == seconds;
    DisplayParses(mins, secs);
    assert ParseTime(FormatTime(seconds)) == ParseTime(Display(mins, secs));
  }

  /** A canonical minute numeral and two digits below 60 are the display of their values. */
  lemma DisplayOfFields(m: string, ss: string)
    requires Canonical(m)
    requires |ss| == 2 && AllDigits(ss) && ParseNat(ss) < 60
    ensures Display(ParseNat(m), ParseNat(ss)) == m + ":" + ss
  {
    TwoDigitsOfParse(ss);
    NatToStringParse(m);
  }

  /** Every display `ParseTime` accepts is the display of the count it reads as. */
  lemma ParseTimeRoundTrip(t: string)
    requires ParseTime(t).Some?
    ensures ParseTime(t).value >= 0
    ensures FormatTime(ParseTime(t).value) == t
  {
    var m := t[..|t| - 3];
    var ss := t[|t| - 2..];
    assert t == m + ":" + ss;
    assert ParseTime(t) == ParseFields(m, ss);
    var a := ParseNat(m);
    var b := ParseNat(ss);
    var n := a * 60 + b;
    assert ParseTime(t).value == n;
    SplitSeconds(a, b);
    DisplayOfFields(m, ss);
    assert n / 60 == a && n % 60 == b;
    assert Display(n / 60, n % 60) == Display(a, b);
    assert FormatTime(n) == Display(a, b) == t;
  }

  /** Distinct non-negative counts are displayed differently. */
  lemma FormatTimeInjective(a: int, b: int)
    requires a >= 0 && b >= 0
    ensures FormatTime(a) == FormatTime(b) ==> a == b
  {
    FormatTimeRoundTrip(a);
    FormatTimeRoundTrip(b);
  }

  /** The display of 65 seconds. */
  lemma FormatSixtyFive()
    ensures FormatTime(65) == "1:05"
  {
    assert TwoDigits(5) == "05";
  }

  /** The display of 5 seconds: the minutes are not padded. */
  lemma FormatFive()
    ensures FormatTime(5) == "0:05"
  {
    assert WholeMinutes(5) == 0 && LeftoverSeconds(5) == 5;
    assert IntToString(0) == "0" && IntToString(5) == "5";
    assert PadStart("5", 2, '0') == "05";
  }

  /** A negative count: JavaScript's floor and remainder give "-1:-5" for -5. */
  lemma FormatMinusFive()
    ensures FormatTime(-5) == "-1:-5"
  {
    assert WholeMinutes(-5) == -1 && LeftoverSeconds(-5) == -5;
    assert IntToString(-5) == "-5";
  }

}
