/**
 * `formatTime` of components/QuizApp.tsx: whole minutes, a colon, then the remaining seconds
 * padded to two digits. Number-to-string conversion and the two operators are written out:
 * `Math.floor(s / 60)` rounds down, while JavaScript's `%` takes the sign of its left operand.
 */
module Clock {

  /** The character of a decimal digit. */
  function Digit(d: nat): (c: char)
    requires d < 10
    ensures '0' <= c <= '9'
  {
    ((('0' as int) + d) as char)
  }

  /** `n.toString()` for a non-negative whole number: decimal digits, no leading zero. */
  function NatToString(n: nat): string
    decreases n
  {
    if n < 10 then [Digit(n)] else NatToString(n / 10) + [Digit(n % 10)]
  }

  /** `i.toString()` for a whole number. */
  function IntToString(i: int): string
  {
    if i < 0 then "-" + NatToString(-i) else NatToString(i)
  }

  /** `s.padStart(2, '0')`. */
  function PadStart2(s: string): string
  {
    if |s| >= 2 then s else if |s| == 1 then "0" + s else "00"
  }

  /** Padding keeps `s` when it has two characters or more, else puts it behind enough zeros to
      make two. */
  lemma PadStart2Spec(s: string)
    ensures |PadStart2(s)| == if |s| >= 2 then |s| else 2
    ensures PadStart2(s)[|PadStart2(s)| - |s|..] == s
    ensures forall k :: 0 <= k < |PadStart2(s)| - |s| ==> PadStart2(s)[k] == '0'
  {
  }

  /** The quotient `a / b` rounded toward zero (Dafny's own `/` rounds down for `b > 0`). */
  function TruncDiv(a: int, b: int): int
    requires b > 0
  {
    if a >= 0 then a / b else -((-a) / b)
  }

  /** JavaScript's `a % b` for `b > 0`: what is left of `a` after taking off `b` times the
      truncated quotient, so it has the sign of `a` and is smaller than `b` in size. */
  function JsRem(a: int, b: int): (r: int)
    requires b > 0
    ensures r == a - b * TruncDiv(a, b)
    ensures a >= 0 ==> 0 <= r < b
    ensures a < 0 ==> -b < r <= 0
  {
    if a >= 0 then a % b
    else
      var x := (-a) / b;
      assert -a == b * x + (-a) % b;
      assert b * -x == -(b * x);
      -((-a) % b)
  }

  /** `formatTime(seconds)`. */
  function FormatTime(seconds: int): string
  {
    IntToString(seconds / 60) + ":" + PadStart2(IntToString(JsRem(seconds, 60)))
  }

  // ---------------------------------------------------------------------------------------------
  // Reading a clock back

  predicate IsDigits(s: string)
  {
    forall k :: 0 <= k < |s| ==> '0' <= s[k] <= '9'
  }

  /** The number a string of decimal digits denotes. */
  function DigitsValue(s: string): nat
    requires IsDigits(s)
  {
    if s == [] then 0 else DigitsValue(s[..|s| - 1]) * 10 + (s[|s| - 1] as int - '0' as int)
  }

  /** `toString` writes the decimal digits of the number: at least one, no leading zero, and
      read back they give the number. */
  lemma {:induction false} NatToStringSpec(n: nat)
    ensures |NatToString(n)| >= 1 && IsDigits(NatToString(n))
    ensures DigitsValue(NatToString(n)) == n
    ensures NatToString(n)[0] == '0' ==> n == 0
    decreases n
  {
    var s := NatToString(n);
    if n >= 10 {
      var p := NatToString(n / 10);
      NatToStringSpec(n / 10);
      assert s == p + [Digit(n % 10)];
      assert s[..|s| - 1] == p;
      assert s[0] == p[0];
    }
  }

  /** For a time that is not negative, the text is the minutes in digits, a colon and exactly two
      digits of seconds; the seconds are below 60 and minutes times 60 plus seconds is the time. */
  lemma FormatTimeFields(seconds: int)
    requires seconds >= 0
    ensures var t := FormatTime(seconds);
            var i := |t| - 3;
            && i >= 1 && t[i] == ':'
            && IsDigits(t[..i]) && IsDigits(t[i + 1..])
            && DigitsValue(t[i + 1..]) < 60
            && DigitsValue(t[..i]) * 60 + DigitsValue(t[i + 1..]) == seconds
            && t[..i] == NatToString(seconds / 60)
            && (t[0] == '0' ==> i == 1)
  {
    var mins, secs := seconds / 60, seconds % 60;
    assert mins * 60 + secs == seconds;
    assert JsRem(seconds, 60) == secs;
    NatToStringSpec(mins);
    TwoDigitSeconds(secs);
    var m, two := NatToString(mins), PadStart2(NatToString(secs));
    assert IntToString(mins) == m && IntToString(secs) == NatToString(secs);
    var t := FormatTime(seconds);
    assert t == m + ":" + two;
    ClockLayout(m, two);
    var i := |t| - 3;
    assert i == |m| && t[..i] == m && t[i + 1..] == two;
    assert DigitsValue(m) * 60 + DigitsValue(two) == seconds;
  }

  /** Seconds below 60, padded, are two digits that read back as the seconds. */
  lemma TwoDigitSeconds(secs: nat)
    requires secs < 60
    ensures var two := PadStart2(NatToString(secs));
            |two| == 2 && IsDigits(two) && DigitsValue(two) == secs
  {
    var s := NatToString(secs);
    var two := PadStart2(s);
    if secs < 10 {
      assert two == ['0', Digit(secs)];
      assert two[..1] == ['0'] && two[..1][..0] == [];
      assert DigitsValue(two[..1]) == 0;
      assert DigitsValue(two) == DigitsValue(two[..1]) * 10 + (Digit(secs) as int - '0' as int);
    } else {
      NatToStringSpec(secs);
      assert NatToString(secs / 10) == [Digit(secs / 10)];
      assert |s| == 2;
    }
  }

  /** The positions in `m:ss`. */
  lemma ClockLayout(m: string, two: string)
    requires |m| >= 1 && |two| == 2
    ensures var t := m + ":" + two;
            |t| - 3 == |m| && t[|m|] == ':' && t[..|m|] == m && t[|m| + 1..] == two
  {
    var t := m + ":" + two;
    assert t[..|m|] == m;
    assert t[|m| + 1..] == two;
  }

  /** 247 seconds are shown as `4:07`. */
  lemma FormatTimeExample()
    ensures FormatTime(247) == "4:07"
  {
    assert IntToString(4) == "4";
    assert IntToString(7) == "7";
  }

  /** A negative time, which the timer reaches only from a negative duration, shows a negative
      minute and second: `Math.floor` rounds down but `%` keeps the sign. */
  lemma FormatTimeNegative()
    ensures FormatTime(-5) == "-1:-5"
  {
    assert JsRem(-5, 60) == -5;
    assert IntToString(-1) == "-1";
    assert IntToString(-5) == "-5";
  }
}
