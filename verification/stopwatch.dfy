/**
 The test's stopwatch: a triple `[minutes, seconds, tenths]` advanced by a
 periodic callback every 100 ms, and its `MM:SS.t` rendering.

 The last component counts tenths of a second: the callback runs every
 100 ms and the component rolls over at 10.
 */
module Stopwatch {
  import opened Wrappers

  /** The stopwatch state `[minutes, seconds, tenths]`. */
  datatype Clock = Clock(minutes: nat, seconds: nat, tenths: nat)

  /** The state the test is reset to. */
  const Zero: Clock := Clock(0, 0, 0)

  /** The components are within their carry ranges. */
  predicate Valid(c: Clock) {
    c.tenths < 10 && c.seconds < 60
  }

  /** Elapsed time in tenths of a second. */
  function TotalTenths(c: Clock): nat {
    c.minutes * 600 + c.seconds * 10 + c.tenths
  }

  /** One callback of the 100 ms interval: bump tenths, carry a tenths value
      of exactly 10 into seconds, then a seconds value of exactly 60 into
      minutes. */
  function Tick(c: Clock): (r: Clock)
    ensures Valid(c) ==> Valid(r)
    ensures Valid(c) ==> TotalTenths(r) == TotalTenths(c) + 1
    ensures r.minutes >= c.minutes
  {
    var tenths := c.tenths + 1;
    var seconds := if tenths == 10 then c.seconds + 1 else c.seconds;
    var tenths' := if tenths == 10 then 0 else tenths;
    if seconds == 60 then Clock(c.minutes + 1, 0, tenths')
    else Clock(c.minutes, seconds, tenths')
  }

  /** `n` consecutive callbacks. */
  function Ticks(c: Clock, n: nat): Clock {
    if n == 0 then c else Tick(Ticks(c, n - 1))
  }

  /** Reference definition: the valid clock showing `n` tenths of a second. */
  function FromTenths(n: nat): (r: Clock)
    ensures Valid(r)
    ensures TotalTenths(r) == n
  {
    var q := n / 10;
    assert n == q * 10 + n % 10;
    assert q == (q / 60) * 60 + q % 60;
    Clock(q / 60, q % 60, n % 10)
  }

  /** A valid clock is determined by its elapsed time. */
  lemma {:induction false} TotalTenthsInjective(a: Clock, b: Clock)
    requires Valid(a) && Valid(b)
    requires TotalTenths(a) == TotalTenths(b)
    ensures a == b
  {
    MinutesOf(a);
    MinutesOf(b);
    assert a.seconds * 10 + a.tenths == b.seconds * 10 + b.tenths;
    SecondsOf(a);
    SecondsOf(b);
  }

  lemma MinutesOf(c: Clock)
    requires Valid(c)
    ensures c.minutes == TotalTenths(c) / 600
  {
  }

  lemma SecondsOf(c: Clock)
    requires Valid(c)
    ensures c.seconds == (c.seconds * 10 + c.tenths) / 10
  {
  }

  /** Only the reset state shows no elapsed time. */
  lemma NoTimeIsZero(c: Clock)
    ensures TotalTenths(c) == 0 <==> c == Zero
  {
  }

  /** Reading a valid clock's elapsed time back gives the same clock. */
  lemma {:induction false} FromTotalTenths(c: Clock)
    requires Valid(c)
    ensures FromTenths(TotalTenths(c)) == c
  {
    TotalTenthsInjective(FromTenths(TotalTenths(c)), c);
  }

  /** Starting from the reset state, the clock after `n` callbacks keeps its
      components in range and shows exactly `n` tenths: the elapsed time
      grows by one tenth per callback. */
  lemma {:induction false} TicksElapsed(n: nat)
    ensures Valid(Ticks(Zero, n)) && TotalTenths(Ticks(Zero, n)) == n
  {
    if n > 0 {
      TicksElapsed(n - 1);
      var p := Ticks(Zero, n - 1);
      assert Ticks(Zero, n) == Tick(p);
    }
  }

  /** After `n` callbacks from the reset state the clock is the valid clock
      showing `n` tenths. */
  lemma TicksFromZero(n: nat)
    ensures Ticks(Zero, n) == FromTenths(n)
  {
    TicksElapsed(n);
    TotalTenthsInjective(Ticks(Zero, n), FromTenths(n));
  }

  // ---------------------------------------------------------------------------
  // Decimal rendering
  // ---------------------------------------------------------------------------

  predicate IsDigit(ch: char) {
    '0' <= ch <= '9'
  }

  predicate AllDigits(s: string) {
    forall i :: 0 <= i < |s| ==> IsDigit(s[i])
  }

  function DigitChar(d: nat): (ch: char)
    requires d < 10
    ensures IsDigit(ch)
  {
    ('0' as int + d) as char
  }

  /** The numeric value of a string of decimal digits, most significant first. */
  function DigitsValue(s: string): nat
    requires AllDigits(s)
  {
    if |s| == 0 then 0
    else DigitsValue(s[..|s| - 1]) * 10 + (s[|s| - 1] as int - '0' as int)
  }

  /** JavaScript's conversion of a non-negative integer to its decimal string:
      the shortest digit string with that value, so it starts with `0` only
      for zero itself. */
  function NatToString(n: nat): (r: string)
    ensures AllDigits(r)
    ensures DigitsValue(r) == n
    ensures n < 10 <==> |r| == 1
    ensures |r| >= 1
    ensures r[0] == '0' <==> n == 0
  {
    if n < 10 then [DigitChar(n)]
    else
      var prefix := NatToString(n / 10);
      var r := prefix + [DigitChar(n % 10)];
      assert r[..|r| - 1] == prefix;
      assert r[0] == prefix[0];
      r
  }

  /** Every digit string without a superfluous leading zero is the rendering
      of its value: the decimal form is unique. */
  lemma {:induction false} NatToStringUnique(s: string)
    requires |s| >= 1 && AllDigits(s)
    requires |s| > 1 ==> s[0] != '0'
    ensures NatToString(DigitsValue(s)) == s
  {
    var last := s[|s| - 1];
    var d := last as int - '0' as int;
    if |s| == 1 {
      assert DigitsValue(s) == d;
      assert DigitChar(d) == last;
    } else {
      var init := s[..|s| - 1];
      assert init[0] == s[0];
      NatToStringUnique(init);
      var v := DigitsValue(s);
      assert v == DigitsValue(init) * 10 + d;
      assert DigitsValue(init) > 0;
      assert v / 10 == DigitsValue(init) && v % 10 == d;
      assert DigitChar(d) == last;
      assert s == init + [last];
    }
  }

  /** A leading zero does not change a digit string's value. */
  lemma {:induction false} LeadingZero(s: string)
    requires AllDigits(s)
    ensures AllDigits("0" + s)
    ensures DigitsValue("0" + s) == DigitsValue(s)
  {
    if |s| > 0 {
      LeadingZero(s[..|s| - 1]);
      assert ("0" + s)[..|s|] == "0" + s[..|s| - 1];
    }
  }

  /** `(x < 10) ? '0' + x : x`: numbers below ten get a leading zero. */
  function ZeroPad(n: nat): (r: string)
    ensures AllDigits(r)
    ensures DigitsValue(r) == n
    ensures |r| >= 2
    ensures n < 100 ==> |r| == 2
    ensures r[0] == '0' <==> n < 10
  {
    if n < 10 then
      LeadingZero(NatToString(n));
      "0" + NatToString(n)
    else
      assert NatToString(n / 10) != [];
      NatToString(n)
  }

  /** The timer display `MM:SS.t`. */
  function Format(c: Clock): (r: string)
    requires Valid(c)
    ensures |r| >= 7
    ensures c.minutes < 100 ==> |r| == 7
    ensures r[|r| - 5] == ':' && r[|r| - 2] == '.'
    ensures AllDigits(r[..|r| - 5]) && AllDigits(r[|r| - 4..|r| - 2]) && AllDigits(r[|r| - 1..])
    ensures r[0] == '0' <==> c.minutes < 10
  {
    var m := ZeroPad(c.minutes);
    var r := m + ":" + ZeroPad(c.seconds) + "." + NatToString(c.tenths);
    assert r[..|r| - 5] == m;
    r
  }

  /** Reference reader of the timer display: the inverse of `Format`. */
  function Parse(text: string): Option<Clock> {
    var n := |text|;
    if n < 7 || text[n - 5] != ':' || text[n - 2] != '.' then None
    else
      var m := text[..n - 5];
      var s := text[n - 4..n - 2];
      var t := text[n - 1..];
      if AllDigits(m) && AllDigits(s) && AllDigits(t)
      then Some(Clock(DigitsValue(m), DigitsValue(s), DigitsValue(t)))
      else None
  }

  /** Where the parts of a display `m:sec.t` sit, counted from its end. */
  lemma DisplayParts(m: string, sec: string, t: string)
    requires |sec| == 2 && |t| == 1
    ensures var r := m + ":" + sec + "." + t;
      && |r| == |m| + 5
      && r[|r| - 5] == ':' && r[|r| - 2] == '.'
      && r[..|r| - 5] == m && r[|r| - 4..|r| - 2] == sec && r[|r| - 1..] == t
  {
    var r := m + ":" + sec + "." + t;
    assert r[..|r| - 5] == m;
    assert r[|r| - 4..|r| - 2] == sec;
  }

  /** The reader takes a display apart at its last `:` and `.` positions. */
  lemma ParseDisplay(m: string, sec: string, t: string)
    requires AllDigits(m) && AllDigits(sec) && AllDigits(t)
    requires |m| >= 2 && |sec| == 2 && |t| == 1
    ensures Parse(m + ":" + sec + "." + t)
      == Some(Clock(DigitsValue(m), DigitsValue(sec), DigitsValue(t)))
  {
    DisplayParts(m, sec, t);
  }

  /** The display of a valid clock reads back as that clock. */
  lemma {:induction false} ParseFormat(c: Clock)
    requires Valid(c)
    ensures Parse(Format(c)) == Some(c)
  {
    var m := ZeroPad(c.minutes);
    var sec := ZeroPad(c.seconds);
    var t := NatToString(c.tenths);
    assert Format(c) == m + ":" + sec + "." + t;
    ParseDisplay(m, sec, t);
  }

  /** Two valid clocks with the same display are the same clock. */
  lemma {:induction false} FormatInjective(a: Clock, b: Clock)
    requires Valid(a) && Valid(b)
    requires Format(a) == Format(b)
    ensures a == b
  {
    ParseFormat(a);
    ParseFormat(b);
  }

  /** The reset display is `00:00.0`. */
  lemma FormatZero()
    ensures Format(Zero) == "00:00.0"
  {
  }
}
