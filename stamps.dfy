/** The text of the dedup cutoff (elktail.go:52-53, 303, 311-318, 394):
    a timestamp 500 ms before the last one, written in the layout
    `2006-01-02T15:04:05.999Z07:00`. Instants are whole milliseconds in
    UTC; the date-and-time part of a whole second is given as `secText`. */
module Stamps {
  import opened Strings

  /** The window of the dedup cutoff, in milliseconds. */
  const TailingTimeWindow := 500

  /** The date-and-time text of the whole seconds from 0 up to `horizon`:
      each has text of the same width, and a later second has the greater
      text, as the zero-padded `2006-01-02T15:04:05` part gives over the
      years it can write. */
  ghost predicate SecondsLayout(secText: int -> string, horizon: nat)
  {
    (forall s :: 0 <= s < horizon ==> |secText(s)| == |secText(0)|) &&
    (forall s, t :: 0 <= s < t < horizon ==> Less(secText(s), secText(t)))
  }

  /** An instant, in milliseconds, within the seconds of the layout. */
  predicate InHorizon(t: int, horizon: nat)
  {
    0 <= t < horizon * 1000
  }

  function Digit(d: int): (c: char)
    requires 0 <= d < 10
    ensures '0' <= c <= '9' && c as int - '0' as int == d
  {
    (d + '0' as int) as char
  }

  /** The three fractional digits of a millisecond count. */
  function Millis3(ms: int): (r: string)
    requires 0 <= ms < 1000
    ensures |r| == 3 && forall i :: 0 <= i < 3 ==> IsDigit(r[i])
  {
    [Digit(ms / 100), Digit(ms / 10 % 10), Digit(ms % 10)]
  }

  /** The text with its trailing '0's removed. */
  function TrimZeros(s: string): (r: string)
    ensures |r| <= |s| && s[..|r|] == r
    ensures |r| > 0 ==> r[|r| - 1] != '0'
    ensures forall i :: |r| <= i < |s| ==> s[i] == '0'
  {
    if |s| > 0 && s[|s| - 1] == '0' then TrimZeros(s[..|s| - 1]) else s
  }

  /** The `.999` fraction: the millisecond digits without trailing zeros,
      and no dot at all on a whole second. */
  function Fraction999(ms: int): string
    requires 0 <= ms < 1000
  {
    var f := TrimZeros(Millis3(ms));
    if f == "" then "" else "." + f
  }

  /** The instant `t` written as `formatElasticTimeStamp` does, with the
      layout's `.999` fraction. */
  function FormatTrimmed(secText: int -> string, t: int): string
  {
    secText(t / 1000) + Fraction999(t % 1000) + "Z"
  }

  /** The instant `t` written with a fixed `.000` fraction. */
  function FormatFixed(secText: int -> string, t: int): string
  {
    secText(t / 1000) + "." + Millis3(t % 1000) + "Z"
  }

  // ---------------------------------------------------------------------
  // String order over concatenations
  // ---------------------------------------------------------------------

  lemma {:induction false} LessSamePrefix(p: string, x: string, y: string)
    ensures Less(p + x, p + y) <==> Less(x, y)
    decreases |p|
  {
    if |p| > 0 {
      assert (p + x)[1..] == p[1..] + x && (p + y)[1..] == p[1..] + y;
      LessSamePrefix(p[1..], x, y);
    } else {
      assert p + x == x && p + y == y;
    }
  }

  lemma {:induction false} LessSameWidth(p: string, q: string, x: string, y: string)
    requires |p| == |q| && Less(p, q)
    ensures Less(p + x, q + y)
    decreases |p|
  {
    if p[0] == q[0] {
      assert (p + x)[1..] == p[1..] + x && (q + y)[1..] == q[1..] + y;
      LessSameWidth(p[1..], q[1..], x, y);
    }
  }

  /** The three digits of a millisecond count make it up again. */
  lemma MillisDigits(a: int)
    requires 0 <= a < 1000
    ensures 0 <= a / 100 < 10 && 0 <= a / 10 % 10 < 10 && 0 <= a % 10 < 10
    ensures a == a / 100 * 100 + a / 10 % 10 * 10 + a % 10
  {
    assert a == a / 10 * 10 + a % 10;
    assert a / 10 == a / 10 / 10 * 10 + a / 10 % 10;
    assert a / 10 / 10 == a / 100;
  }

  lemma DigitsOrder(a: int, b: int)
    requires 0 <= a < b < 1000
    ensures a / 100 < b / 100 || (a / 100 == b / 100 &&
              (a / 10 % 10 < b / 10 % 10 || (a / 10 % 10 == b / 10 % 10 && a % 10 < b % 10)))
  {
    MillisDigits(a);
    MillisDigits(b);
  }

  lemma MillisOrder(a: int, b: int)
    requires 0 <= a < b < 1000
    ensures Less(Millis3(a), Millis3(b))
  {
    var m, n := Millis3(a), Millis3(b);
    DigitsOrder(a, b);
    if a / 100 != b / 100 {
      assert m[0] < n[0];
    } else {
      assert m[0] == n[0];
      assert m[1..] == [m[1], m[2]] && n[1..] == [n[1], n[2]];
      if a / 10 % 10 != b / 10 % 10 {
        assert m[1] < n[1];
        assert Less(m[1..], n[1..]);
      } else {
        assert m[2] < n[2];
        assert [m[1], m[2]][1..] == [m[2]] && [n[1], n[2]][1..] == [n[2]];
        assert Less([m[2]], [n[2]]);
        assert Less(m[1..], n[1..]);
      }
    }
  }

  // ---------------------------------------------------------------------
  // The two layouts
  // ---------------------------------------------------------------------

  /** With a fixed `.000` fraction, string order is time order: of two
      instants, the earlier has the smaller text. */
  lemma FixedLayoutOrder(secText: int -> string, horizon: nat, a: int, b: int)
    requires SecondsLayout(secText, horizon) && InHorizon(a, horizon) && InHorizon(b, horizon)
    ensures Less(FormatFixed(secText, a), FormatFixed(secText, b)) <==> a < b
  {
    if a < b {
      FixedLayoutBefore(secText, horizon, a, b);
    } else if a == b {
      LessIrreflexive(FormatFixed(secText, a));
    } else {
      FixedLayoutBefore(secText, horizon, b, a);
      LessAsymmetric(FormatFixed(secText, b), FormatFixed(secText, a));
    }
  }

  lemma FixedLayoutBefore(secText: int -> string, horizon: nat, a: int, b: int)
    requires SecondsLayout(secText, horizon) && InHorizon(a, horizon) && InHorizon(b, horizon) && a < b
    ensures Less(FormatFixed(secText, a), FormatFixed(secText, b))
  {
    var s, t := a / 1000, b / 1000;
    var x, y := a % 1000, b % 1000;
    assert 0 <= s <= t < horizon;
    assert FormatFixed(secText, a) == secText(s) + ("." + Millis3(x) + "Z");
    assert FormatFixed(secText, b) == secText(t) + ("." + Millis3(y) + "Z");
    if s < t {
      assert |secText(s)| == |secText(0)| == |secText(t)|;
      LessSameWidth(secText(s), secText(t), "." + Millis3(x) + "Z", "." + Millis3(y) + "Z");
    } else {
      FixedWithinSecond(secText, a, b);
    }
  }

  /** Within one second the fixed layout orders by time, whatever the
      second's text. */
  lemma FixedWithinSecond(secText: int -> string, a: int, b: int)
    requires a < b && a / 1000 == b / 1000
    ensures Less(FormatFixed(secText, a), FormatFixed(secText, b))
    ensures !Less(FormatFixed(secText, b), FormatFixed(secText, a))
  {
    var s := a / 1000;
    var x, y := a % 1000, b % 1000;
    assert FormatFixed(secText, a) == secText(s) + ("." + Millis3(x) + "Z");
    assert FormatFixed(secText, b) == secText(s) + ("." + Millis3(y) + "Z");
    MillisOrder(x, y);
    LessSameWidth(Millis3(x), Millis3(y), "Z", "Z");
    LessSamePrefix(".", Millis3(x) + "Z", Millis3(y) + "Z");
    assert "." + Millis3(x) + "Z" == "." + (Millis3(x) + "Z");
    assert "." + Millis3(y) + "Z" == "." + (Millis3(y) + "Z");
    LessSamePrefix(secText(s), "." + Millis3(x) + "Z", "." + Millis3(y) + "Z");
    LessAsymmetric(FormatFixed(secText, a), FormatFixed(secText, b));
  }

  /** With a fixed fraction, the cutoff grows with the timestamp. */
  lemma FixedCutoffGrows(secText: int -> string, horizon: nat, a: int, b: int)
    requires SecondsLayout(secText, horizon) && a <= b
    requires InHorizon(a - TailingTimeWindow, horizon) && InHorizon(b, horizon)
    ensures LessEq(FormatFixed(secText, a - TailingTimeWindow), FormatFixed(secText, b - TailingTimeWindow))
  {
    if a < b {
      FixedLayoutOrder(secText, horizon, a - TailingTimeWindow, b - TailingTimeWindow);
    }
  }

  /** A cutoff written with a fixed `.000` fraction: for every timestamp
      of the layout whose cutoff is in the layout too, the text of the
      instant 500 ms earlier. */
  ghost predicate FixedLayoutCutoff(cutoffOf: string -> string, secText: int -> string, horizon: nat)
  {
    SecondsLayout(secText, horizon) &&
    forall t :: TailingTimeWindow <= t < horizon * 1000 ==>
      cutoffOf(FormatFixed(secText, t)) == FormatFixed(secText, t - TailingTimeWindow)
  }

  /** As written, the `.999` layout breaks both orders. 600 ms into a
      second the cutoff is ".1Z", and 650 ms into it the cutoff ".15Z" is
      the smaller text although the later instant; and an entry stored
      with the fraction ".150Z", later in time than the ".1Z" cutoff, is
      before it as text, because '5' is below 'Z'. */
  lemma TrimmedLayoutMisorders(secText: int -> string)
    ensures FormatTrimmed(secText, 600 - TailingTimeWindow) == secText(0) + ".1Z"
    ensures FormatTrimmed(secText, 650 - TailingTimeWindow) == secText(0) + ".15Z"
    ensures Less(FormatTrimmed(secText, 650 - TailingTimeWindow), FormatTrimmed(secText, 600 - TailingTimeWindow))
    ensures Less(FormatFixed(secText, 150), FormatTrimmed(secText, 600 - TailingTimeWindow))
  {
    var p := secText(0);
    TrimmedTexts(secText);
    LessLiterals();
    LessSamePrefix(p, ".15Z", ".1Z");
    LessSamePrefix(p, ".150Z", ".1Z");
  }

  lemma TrimmedTexts(secText: int -> string)
    ensures FormatTrimmed(secText, 100) == secText(0) + ".1Z"
    ensures FormatTrimmed(secText, 150) == secText(0) + ".15Z"
    ensures FormatFixed(secText, 150) == secText(0) + ".150Z"
  {
    TrimmedFraction();
    TrimmedText(secText, 100, ".1");
    TrimmedText(secText, 150, ".15");
    FixedText(secText, 150, "150");
  }

  lemma TrimmedText(secText: int -> string, t: int, f: string)
    requires 0 <= t < 1000 && Fraction999(t) == f
    ensures FormatTrimmed(secText, t) == secText(0) + (f + "Z")
  {
    assert t / 1000 == 0 && t % 1000 == t;
  }

  lemma FixedText(secText: int -> string, t: int, m: string)
    requires 0 <= t < 1000 && Millis3(t) == m
    ensures FormatFixed(secText, t) == secText(0) + ("." + m + "Z")
  {
    assert t / 1000 == 0 && t % 1000 == t;
  }

  lemma TrimmedFraction()
    ensures Fraction999(100) == ".1" && Fraction999(150) == ".15" && Millis3(150) == "150"
  {
    assert Millis3(100) == "100" && Millis3(150) == "150";
    assert "100"[..2] == "10" && "10"[..1] == "1";
    assert "150"[..2] == "15";
  }

  lemma LessLiterals()
    ensures Less(".15Z", ".1Z") && Less(".150Z", ".1Z")
  {
    assert ".15Z"[1..] == "15Z" && ".1Z"[1..] == "1Z" && ".150Z"[1..] == "150Z";
    assert "15Z"[1..] == "5Z" && "1Z"[1..] == "Z" && "150Z"[1..] == "50Z";
  }

  // ---------------------------------------------------------------------
  // A small clock that meets the layout
  // ---------------------------------------------------------------------

  /** Ten seconds, each written as its one digit; any other second is
      written "0". */
  function ClockText(s: int): string
  {
    if 0 <= s < 10 then [Digit(s)] else "0"
  }

  function DigitValue(c: char): int
  {
    c as int - '0' as int
  }

  /** The instant a clock timestamp `d.dddZ` writes. */
  function ClockInstant(s: string): int
    requires |s| >= 5
  {
    DigitValue(s[0]) * 1000 + DigitValue(s[2]) * 100 + DigitValue(s[3]) * 10 + DigitValue(s[4])
  }

  /** The clock's cutoff in the fixed layout. */
  function ClockCutoffFixed(s: string): string
  {
    if |s| >= 5 then FormatFixed(ClockText, ClockInstant(s) - TailingTimeWindow) else ""
  }

  /** The clock's cutoff in the `.999` layout, as the code writes it. */
  function ClockCutoffTrimmed(s: string): string
  {
    if |s| >= 5 then FormatTrimmed(ClockText, ClockInstant(s) - TailingTimeWindow) else ""
  }

  /** The clock meets the layout over its ten seconds. */
  lemma ClockLayout()
    ensures SecondsLayout(ClockText, 10)
  {
    forall s, t | 0 <= s < t < 10
      ensures Less(ClockText(s), ClockText(t))
    {
      assert ClockText(s)[0] == Digit(s) && ClockText(t)[0] == Digit(t);
    }
  }

  /** Reading back a fixed-layout clock timestamp gives its instant. */
  lemma ClockReadsBack(t: int)
    requires InHorizon(t, 10)
    ensures |FormatFixed(ClockText, t)| == 6 && ClockInstant(FormatFixed(ClockText, t)) == t
  {
    var f := FormatFixed(ClockText, t);
    var m := Millis3(t % 1000);
    assert f == [Digit(t / 1000)] + "." + m + "Z";
    assert f[0] == Digit(t / 1000) && f[2] == m[0] && f[3] == m[1] && f[4] == m[2];
    MillisDigits(t % 1000);
    assert DigitValue(f[0]) == t / 1000;
    assert DigitValue(f[2]) * 100 + DigitValue(f[3]) * 10 + DigitValue(f[4]) == t % 1000;
    assert t == t / 1000 * 1000 + t % 1000;
  }

  /** The clock's fixed cutoff is a fixed-layout cutoff. */
  lemma ClockCutoffIsFixed()
    ensures FixedLayoutCutoff(ClockCutoffFixed, ClockText, 10)
  {
    ClockLayout();
    forall t | TailingTimeWindow <= t < 10 * 1000
      ensures ClockCutoffFixed(FormatFixed(ClockText, t)) == FormatFixed(ClockText, t - TailingTimeWindow)
    {
      ClockCutoffAt(t);
    }
  }

  lemma ClockCutoffAt(t: int)
    requires InHorizon(t, 10)
    ensures ClockCutoffFixed(FormatFixed(ClockText, t)) == FormatFixed(ClockText, t - TailingTimeWindow)
  {
    ClockReadsBack(t);
  }
}
