/**
 * The countdown (src/hooks/useTimer.js): a number of seconds that an
 * interval callback steps down once a second while the timer runs, plus the
 * `m:ss` formatter.  Each firing of the interval callback is one call of
 * `Countdown.Tick`.
 */
module Timer {
  import opened Optional

  /** The default of `useTimer(initialSeconds = 180, ...)`. */
  const DefaultSeconds := 180

  /** `seconds` and `isRunning`, as a value. */
  datatype Clock = Clock(seconds: int, isRunning: bool)

  /** One second elapses.  The interval only exists while the timer runs with
      time left; its callback then either counts down or, from one second or
      less, lands on zero and stops the timer. */
  function Advance(c: Clock): (d: Clock)
    ensures d.seconds <= c.seconds
    ensures !c.isRunning || c.seconds <= 0 ==> d == c
    ensures c.isRunning && c.seconds > 1 ==> d == Clock(c.seconds - 1, true)
    ensures c.isRunning && 0 < c.seconds <= 1 ==> d == Clock(0, false)
  {
    if !c.isRunning || c.seconds <= 0 then c
    else if c.seconds <= 1 then Clock(0, false)
    else Clock(c.seconds - 1, true)
  }

  /** `n` seconds elapse. */
  function AdvanceBy(c: Clock, n: nat): Clock {
    if n == 0 then c else Advance(AdvanceBy(c, n - 1))
  }

  function Max(x: int, y: int): int { if x >= y then x else y }

  /** From a running clock with `s > 0` seconds, `n` ticks leave
      `max(s - n, 0)` seconds, and the clock runs exactly while time is left. */
  lemma {:induction false} AdvanceByRunning(s: int, n: nat)
    requires s > 0
    ensures AdvanceBy(Clock(s, true), n) == Clock(Max(s - n, 0), s - n > 0)
  {
    if n > 0 {
      AdvanceByRunning(s, n - 1);
    }
  }

  /** Ticking keeps the seconds within `[0, initialSeconds]`. */
  lemma {:induction false} AdvanceByInRange(c: Clock, n: nat, initialSeconds: int)
    requires 0 <= c.seconds <= initialSeconds
    ensures 0 <= AdvanceBy(c, n).seconds <= initialSeconds
  {
    if n > 0 {
      AdvanceByInRange(c, n - 1, initialSeconds);
    }
  }

  /** Once expired, the clock never changes again by ticking. */
  lemma {:induction false} ExpiredIsFinal(c: Clock, n: nat)
    requires c.seconds <= 0
    ensures AdvanceBy(c, n) == c
  {
    if n > 0 {
      ExpiredIsFinal(c, n - 1);
    }
  }

  /** `isExpired`. */
  predicate Expired(c: Clock) {
    c.seconds <= 0
  }

  class Countdown {
    const initialSeconds: int
    const enabled: bool
    var seconds: int
    var isRunning: bool

    function State(): Clock
      reads this
    {
      Clock(seconds, isRunning)
    }

    /** With a non-negative start, the seconds stay between zero and the
        start, and a clock at zero does not run. */
    predicate Valid()
      reads this
    {
      initialSeconds >= 0 ==> 0 <= seconds <= initialSeconds && (seconds == 0 ==> !isRunning || initialSeconds == 0)
    }

    /** `useTimer(initialSeconds = 180, enabled = true)`. */
    constructor (initialSeconds: int := DefaultSeconds, enabled: bool := true)
      ensures Valid()
      ensures this.initialSeconds == initialSeconds && this.enabled == enabled
      ensures State() == Clock(initialSeconds, enabled)
    {
      this.initialSeconds := initialSeconds;
      this.enabled := enabled;
      seconds := initialSeconds;
      isRunning := enabled;
    }

    /** The interval callback firing once. */
    method Tick()
      requires Valid()
      modifies this
      ensures Valid()
      ensures State() == Advance(old(State()))
    {
      if isRunning && seconds > 0 {
        if seconds <= 1 {
          seconds := 0;
          isRunning := false;
        } else {
          seconds := seconds - 1;
        }
      }
    }

    /** `stop`: the seconds are kept. */
    method Stop()
      requires Valid()
      modifies this
      ensures Valid()
      ensures State() == Clock(old(seconds), false)
    {
      isRunning := false;
    }

    /** `reset`: the starting values again. */
    method Reset()
      requires Valid()
      modifies this
      ensures Valid()
      ensures State() == Clock(initialSeconds, enabled)
    {
      seconds := initialSeconds;
      isRunning := enabled;
    }

    /** `isExpired`. */
    function IsExpired(): (b: bool)
      reads this
      ensures b <==> Expired(State())
    {
      seconds <= 0
    }

    /** `formatted`. */
    function Formatted(): string
      reads this
    {
      FormatTime(seconds)
    }
  }

  // ---------------------------------------------------------------------
  // formatTime
  // ---------------------------------------------------------------------

  function DigitChar(d: nat): (c: char)
    requires d < 10
    ensures '0' <= c <= '9'
  {
    ('0' as int + d) as char
  }

  /** The decimal digits of `n`, most significant first, without leading
      zeros. */
  function Digits(n: nat): (s: string)
    ensures |s| >= 1 && forall i :: 0 <= i < |s| ==> '0' <= s[i] <= '9'
    ensures |s| == 1 <==> n < 10
    ensures |s| > 1 ==> s[0] != '0'
  {
    if n < 10 then [DigitChar(n)] else Digits(n / 10) + [DigitChar(n % 10)]
  }

  /** `Number.prototype.toString` on an integer. */
  function IntToString(n: int): string {
    if n < 0 then "-" + Digits(-n) else Digits(n)
  }

  /** `padStart(width, '0')`. */
  function PadStart(s: string, width: nat): (r: string)
    ensures |r| == if |s| >= width then |s| else width
    decreases width - |s|
  {
    if |s| >= width then s else PadStart(['0'] + s, width)
  }

  /** The padded text is `s` behind as many zeros as it lacked. */
  lemma {:induction false} PadStartSpec(s: string, width: nat)
    ensures PadStart(s, width) == seq(if |s| >= width then 0 else width - |s|, _ => '0') + s
    decreases width - |s|
  {
    if |s| < width {
      PadStartSpec(['0'] + s, width);
      assert seq(width - |s| - 1, _ => '0') + (['0'] + s) == seq(width - |s|, _ => '0') + s;
    }
  }

  /** `Math.floor(s / 60)`; Dafny's division by a positive divisor already
      rounds down. */
  function Minutes(s: int): int { s / 60 }

  /** JavaScript's `s % 60`, whose sign follows the dividend. */
  function SecondsPart(s: int): (r: int)
    ensures -60 < r < 60
    ensures s >= 0 ==> r == s % 60
  {
    if s >= 0 then s % 60 else -((-s) % 60)
  }

  /** `formatTime(s)`: `${mins}:${secs.toString().padStart(2, '0')}`. */
  function FormatTime(s: int): string {
    IntToString(Minutes(s)) + ":" + PadStart(IntToString(SecondsPart(s)), 2)
  }

  predicate IsDigit(c: char) {
    '0' <= c <= '9'
  }

  predicate AllDigits(s: string) {
    forall i :: 0 <= i < |s| ==> IsDigit(s[i])
  }

  function DigitValue(c: char): nat
    requires IsDigit(c)
  {
    c as int - '0' as int
  }

  /** The value of a string of decimal digits. */
  function DigitsValue(s: string): nat
    requires AllDigits(s)
  {
    if s == [] then 0 else DigitsValue(s[..|s| - 1]) * 10 + DigitValue(s[|s| - 1])
  }

  lemma {:induction false} DigitsValueOfDigits(n: nat)
    ensures AllDigits(Digits(n)) && DigitsValue(Digits(n)) == n
  {
    if n >= 10 {
      var s, d := Digits(n), Digits(n / 10);
      DigitsValueOfDigits(n / 10);
      assert s == d + [DigitChar(n % 10)];
      assert s[..|s| - 1] == d;
      assert DigitValue(s[|s| - 1]) == n % 10;
    }
  }

  /** Reads `m:ss` back: digits, a colon, exactly two digits worth less than
      sixty. */
  function ParseTime(t: string): (r: Option<int>)
    ensures r.Some? ==> r.value >= 0
  {
    if |t| >= 4 && t[|t| - 3] == ':' && AllDigits(t[..|t| - 3]) && IsDigit(t[|t| - 2]) && IsDigit(t[|t| - 1])
    then
      var secs := DigitValue(t[|t| - 2]) * 10 + DigitValue(t[|t| - 1]);
      if secs < 60 then Some(DigitsValue(t[..|t| - 3]) * 60 + secs) else None
    else None
  }

  /** For `s >= 0` the text is the minutes' digits, a colon and the seconds
      padded to two characters. */
  lemma FormatTimeShape(s: int)
    requires s >= 0
    ensures var t, p := FormatTime(s), PadStart(Digits(s % 60), 2);
      && |p| == 2 && |t| >= 4 && t[|t| - 3] == ':'
      && t[..|t| - 3] == Digits(s / 60)
      && t[|t| - 2] == p[0] && t[|t| - 1] == p[1]
  {
    var m, secs := Digits(s / 60), Digits(s % 60);
    assert IntToString(Minutes(s)) == m;
    assert IntToString(SecondsPart(s)) == secs;
    var p := PadStart(secs, 2);
    assert |p| == 2;
    var t := m + ":" + p;
    assert FormatTime(s) == t;
    assert t[..|t| - 3] == m;
  }

  /** The padded seconds field: two digits that read back as `x`. */
  lemma SecondsField(x: nat)
    requires x < 60
    ensures var p := PadStart(Digits(x), 2);
      && |p| == 2 && IsDigit(p[0]) && IsDigit(p[1])
      && DigitValue(p[0]) * 10 + DigitValue(p[1]) == x
  {
    var p := PadStart(Digits(x), 2);
    PadStartSpec(Digits(x), 2);
    if x < 10 {
      assert Digits(x) == [DigitChar(x)];
      assert seq(1, _ => '0') == ['0'];
      assert p == ['0', DigitChar(x)];
    } else {
      var d := Digits(x);
      assert d == Digits(x / 10) + [DigitChar(x % 10)];
      assert Digits(x / 10) == [DigitChar(x / 10)];
      assert p == d;
    }
  }

  /** A text made of the digits of `a`, a colon and the padded digits of
      `b < 60` reads back as `a * 60 + b`. */
  lemma ParseTimeOfFields(t: string, a: nat, b: nat)
    requires b < 60
    requires var p := PadStart(Digits(b), 2);
      && |p| == 2 && |t| >= 4 && t[|t| - 3] == ':'
      && t[..|t| - 3] == Digits(a)
      && t[|t| - 2] == p[0] && t[|t| - 1] == p[1]
    ensures ParseTime(t) == Some(a * 60 + b)
  {
    SecondsField(b);
    DigitsValueOfDigits(a);
  }

  /** `formatTime` loses nothing: for `s >= 0` reading the text back gives
      `s` (`mins * 60 + secs == s` with `secs < 60`). */
  lemma FormatTimeRoundTrip(s: int)
    requires s >= 0
    ensures ParseTime(FormatTime(s)) == Some(s)
  {
    assert s / 60 * 60 + s % 60 == s;
    FormatTimeShape(s);
    ParseTimeOfFields(FormatTime(s), s / 60, s % 60);
  }
}
