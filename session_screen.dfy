/**
 * formatTime of components/SessionScreen.tsx: a whole number of seconds
 * shown as "MM:SS". Numbers are rendered as JavaScript renders integers
 * (`String(n)`), fields are padded with `padStart(2, '0')`, and `%` keeps
 * the sign of its left operand as in JavaScript.
 */
module SessionScreen {

  datatype Option<T> = None | Some(value: T)

  predicate IsDigit(c: char) {
    '0' <= c <= '9'
  }

  predicate AllDigits(s: string) {
    forall k :: 0 <= k < |s| ==> IsDigit(s[k])
  }

  function DigitValue(c: char): (d: nat)
    requires IsDigit(c)
    ensures d < 10
  {
    c as int - '0' as int
  }

  function DigitChar(d: nat): (c: char)
    requires d < 10
    ensures IsDigit(c) && DigitValue(c) == d
  {
    ('0' as int + d) as char
  }

  /** The decimal digits of `n`, most significant first, with no leading
      zero: one digit below 10 and at least two from 10 on. */
  function Digits(n: nat): (r: string)
    ensures AllDigits(r) && |r| >= 1
    ensures |r| == 1 <==> n < 10
    ensures |r| > 1 ==> r[0] != '0'
  {
    if n < 10 then [DigitChar(n)] else Digits(n / 10) + [DigitChar(n % 10)]
  }

  /** The number a string of decimal digits denotes; leading zeros are
      allowed and the empty string denotes 0. */
  function ValueOf(s: string): nat
    requires AllDigits(s)
  {
    if s == [] then 0 else 10 * ValueOf(s[..|s| - 1]) + DigitValue(s[|s| - 1])
  }

  /** Reading the digits of `n` gives back `n`. */
  lemma {:induction false} ValueOfDigits(n: nat)
    ensures ValueOf(Digits(n)) == n
  {
    if n >= 10 {
      var s := Digits(n);
      assert s[..|s| - 1] == Digits(n / 10);
      ValueOfDigits(n / 10);
    }
  }

  /** Zeros in front do not change the value. */
  lemma {:induction false} ValueOfLeadingZeros(zeros: string, s: string)
    requires forall k :: 0 <= k < |zeros| ==> zeros[k] == '0'
    requires AllDigits(s)
    ensures AllDigits(zeros + s) && ValueOf(zeros + s) == ValueOf(s)
  {
    if s == [] {
      assert zeros + s == zeros;
      ZerosValue(zeros);
    } else {
      var t := zeros + s;
      assert t[..|t| - 1] == zeros + s[..|s| - 1];
      ValueOfLeadingZeros(zeros, s[..|s| - 1]);
    }
  }

  lemma {:induction false} ZerosValue(zeros: string)
    requires forall k :: 0 <= k < |zeros| ==> zeros[k] == '0'
    ensures AllDigits(zeros) && ValueOf(zeros) == 0
  {
    if zeros != [] {
      ZerosValue(zeros[..|zeros| - 1]);
    }
  }

  /** `String(n)` for an integer `n`: the shortest decimal, with a minus
      sign before the digits of a negative number. */
  function NumberString(n: int): (r: string)
    ensures |r| >= 1
    ensures r[0] == '-' <==> n < 0
    ensures n >= 0 ==> AllDigits(r) && ValueOf(r) == n && (|r| > 1 ==> r[0] != '0')
    ensures n < 0 ==> |r| >= 2 && AllDigits(r[1..]) && ValueOf(r[1..]) == -n && (|r| > 2 ==> r[1] != '0')
  {
    ValueOfDigits(if n < 0 then -n else n);
    if n < 0 then "-" + Digits(-n) else Digits(n)
  }

  /** `s.padStart(width, fill)`: `fill` repeated in front of `s` up to
      `width` characters; a longer `s` is kept whole. */
  function PadStart(s: string, width: nat, fill: char): (r: string)
    ensures |r| == if |s| >= width then |s| else width
    ensures r[|r| - |s|..] == s
    ensures forall k :: 0 <= k < |r| - |s| ==> r[k] == fill
  {
    if |s| >= width then s else seq(width - |s|, _ => fill) + s
  }

  /** JavaScript's `a % 60`: the remainder keeps the sign of `a`, and `a`
      minus it is a multiple of 60. */
  function Rem60(a: int): (r: int)
    ensures a >= 0 ==> 0 <= r < 60
    ensures a < 0 ==> -60 < r <= 0
    ensures (a - r) % 60 == 0
  {
    if a >= 0 then a % 60 else -((-a) % 60)
  }

  /** Two digits at most below 100. */
  lemma DigitsBelowHundred(n: nat)
    requires n < 100
    ensures |Digits(n)| <= 2
  {
    if n >= 10 {
      assert |Digits(n / 10)| == 1;
    }
  }

  /** Padding a digit string with zeros keeps it a digit string of the same
      value. */
  lemma PadDigits(s: string)
    requires AllDigits(s)
    ensures var p := PadStart(s, 2, '0');
      AllDigits(p) && ValueOf(p) == ValueOf(s)
  {
    var p := PadStart(s, 2, '0');
    var zeros := p[..|p| - |s|];
    assert p == zeros + s;
    ValueOfLeadingZeros(zeros, s);
  }

  /** The two fields of "a:b" with a two-character `b`. */
  lemma JoinFields(a: string, b: string)
    requires |b| == 2
    ensures var t := a + ":" + b;
      |t| == |a| + 3 && t[|t| - 3] == ':' && t[..|t| - 3] == a && t[|t| - 2..] == b
  {
  }

  /** A clock text "M…M:SS": at least two minute digits, a colon and two
      second digits. */
  predicate IsClock(t: string) {
    |t| >= 5 && t[|t| - 3] == ':' && AllDigits(t[..|t| - 3]) && AllDigits(t[|t| - 2..])
  }

  /** formatTime: the minutes field is `floor(seconds / 60)` and the
      seconds field `seconds % 60`, each padded to two characters and
      joined by ':'. */
  function FormatTime(seconds: int): (r: string)
  {
    var minutes := seconds / 60;
    var remainingSeconds := Rem60(seconds);
    PadStart(NumberString(minutes), 2, '0') + ":" + PadStart(NumberString(remainingSeconds), 2, '0')
  }

  /** Reads "M…M:SS" back into a number of seconds; anything else is not a
      formatted time. */
  function ParseTime(t: string): (r: Option<int>)
    ensures IsClock(t) ==> r.Some?
    ensures r.Some? ==> r.value >= 0
  {
    if |t| >= 4 && t[|t| - 3] == ':' && AllDigits(t[..|t| - 3]) && AllDigits(t[|t| - 2..])
    then Some(60 * ValueOf(t[..|t| - 3]) + ValueOf(t[|t| - 2..]))
    else None
  }

  /** `t` is a clock whose minutes field reads as `minutes` and whose
      seconds field reads as `secs`. */
  predicate ClockReads(t: string, minutes: nat, secs: nat) {
    IsClock(t) && ValueOf(t[..|t| - 3]) == minutes && ValueOf(t[|t| - 2..]) == secs
  }

  /** For a non-negative count the text is a clock whose minutes field
      reads as `seconds / 60` and whose seconds field, exactly two digits,
      reads as `seconds % 60`, in 0..59. A minutes field longer than two
      digits has no leading zero. */
  lemma FormatTimeFields(seconds: nat)
    ensures ClockReads(FormatTime(seconds), seconds / 60, seconds % 60) && seconds % 60 < 60
    ensures var t := FormatTime(seconds); |t| > 5 ==> t[0] != '0'
  {
    var m, s := NumberString(seconds / 60), NumberString(seconds % 60);
    assert Rem60(seconds) == seconds % 60;
    DigitsBelowHundred(seconds % 60);
    PadDigits(m);
    PadDigits(s);
    var pm, ps := PadStart(m, 2, '0'), PadStart(s, 2, '0');
    JoinFields(pm, ps);
    assert FormatTime(seconds) == pm + ":" + ps;
  }

  /** Round trip: the formatted time of a non-negative count reads back
      as that count, 60 · minutes + seconds. */
  lemma FormatTimeRoundTrip(seconds: nat)
    ensures ParseTime(FormatTime(seconds)) == Some(seconds)
  {
    FormatTimeFields(seconds);
    ParseClock(FormatTime(seconds), seconds);
  }

  /** A clock whose fields read as `seconds / 60` and `seconds % 60` reads
      back as `seconds`. */
  lemma ParseClock(t: string, seconds: nat)
    requires ClockReads(t, seconds / 60, seconds % 60)
    ensures ParseTime(t) == Some(seconds)
  {
  }

  /** The session starts at 25 · 60 seconds, shown as "25:00". */
  lemma InitialSessionTime(seconds: int)
    requires seconds == 25 * 60
    ensures FormatTime(seconds) == "25:00"
  {
    WholeMinutes(25);
    assert DigitChar(2) == '2' && DigitChar(5) == '5' && DigitChar(0) == '0';
  }

  /** A whole number of minutes from 10 to 99 shows as its two digits
      followed by ":00". */
  lemma WholeMinutes(minutes: nat)
    requires 10 <= minutes < 100
    ensures FormatTime(60 * minutes) == [DigitChar(minutes / 10), DigitChar(minutes % 10), ':', DigitChar(0), DigitChar(0)]
  {
    PaddedTwoDigits(minutes);
    PaddedOneDigit(0);
    FormatTimeParts(60 * minutes, minutes, 0);
  }

  /** A number below ten is padded with one zero. */
  lemma PaddedOneDigit(n: nat)
    requires n < 10
    ensures PadStart(NumberString(n), 2, '0') == ['0', DigitChar(n)]
  {
    assert NumberString(n) == [DigitChar(n)];
  }

  /** A number from 10 to 99 is its two digits, unpadded. */
  lemma PaddedTwoDigits(n: nat)
    requires 10 <= n < 100
    ensures PadStart(NumberString(n), 2, '0') == [DigitChar(n / 10), DigitChar(n % 10)]
  {
    assert NumberString(n) == Digits(n / 10) + [DigitChar(n % 10)];
  }

  lemma FormatTimeParts(seconds: int, minutes: int, remainingSeconds: int)
    requires minutes == seconds / 60 && remainingSeconds == Rem60(seconds)
    ensures FormatTime(seconds) ==
      PadStart(NumberString(minutes), 2, '0') + ":" + PadStart(NumberString(remainingSeconds), 2, '0')
  {
  }

  /** A negative count is not clamped: the minutes field carries a minus
      sign, so the text is not a clock and does not read back. */
  lemma NegativeSeconds(seconds: int)
    requires seconds < 0
    ensures var t := FormatTime(seconds);
      |t| > 0 && t[0] == '-' && ParseTime(t) == None
  {
    var m := NumberString(seconds / 60);
    var pm, ps := PadStart(m, 2, '0'), PadStart(NumberString(Rem60(seconds)), 2, '0');
    FormatTimeParts(seconds, seconds / 60, Rem60(seconds));
    assert |m| >= 2 && m[0] == '-' by {
      assert m == "-" + Digits(-(seconds / 60));
    }
    assert pm == m;
    var t := FormatTime(seconds);
    assert t == pm + ":" + ps;
    assert !IsDigit(t[0]);
    if |t| >= 4 && t[|t| - 3] == ':' {
      assert t[..|t| - 3][0] == t[0];
    }
  }

  /** -1 s shows as "-1:-1": both fields negative. */
  lemma MinusOneSecond(seconds: int)
    requires seconds == -1
    ensures FormatTime(seconds) == "-1:-1"
  {
    assert NumberString(-1) == "-" + [DigitChar(1)];
    assert DigitChar(1) == '1';
    FormatTimeParts(seconds, -1, -1);
  }
}
