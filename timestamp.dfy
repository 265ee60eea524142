/** The per-message file-name token `str(int(round(time.time() * 1000)))`:
    the clock reading in milliseconds, rounded as Python's `round` does and
    written in decimal. */
module Timestamp {

  /** Python's `round` on a number: the nearest integer, ties to even. */
  function Round(x: real): (r: int)
    ensures -0.5 <= r as real - x <= 0.5
    ensures r as real - x == 0.5 || x - r as real == 0.5 ==> r % 2 == 0
  {
    var f := x.Floor;
    var frac := x - f as real;
    if frac < 0.5 then f
    else if frac > 0.5 then f + 1
    else if f % 2 == 0 then f
    else f + 1
  }

  predicate IsDigit(c: char) {
    '0' <= c <= '9'
  }

  function DigitChar(d: nat): (c: char)
    requires d < 10
    ensures IsDigit(c) && c as int - '0' as int == d
  {
    ('0' as int + d) as char
  }

  /** `str(n)` for a non-negative integer. */
  function NatToString(n: nat): (s: string)
    ensures s != []
    ensures forall i | 0 <= i < |s| :: IsDigit(s[i])
    ensures |s| > 1 ==> s[0] != '0'
  {
    if n < 10 then [DigitChar(n)] else NatToString(n / 10) + [DigitChar(n % 10)]
  }

  /** The value of a string of decimal digits (`int(s)`). */
  function DecimalValue(s: string): nat
    requires forall i | 0 <= i < |s| :: IsDigit(s[i])
  {
    if s == [] then 0
    else
      assert IsDigit(s[|s| - 1]);
      10 * DecimalValue(s[..|s| - 1]) + (s[|s| - 1] as int - '0' as int)
  }

  /** `int(str(n)) == n` */
  lemma {:induction false} DecimalRoundTrip(n: nat)
    ensures DecimalValue(NatToString(n)) == n
  {
    if n >= 10 {
      var s := NatToString(n);
      assert s[..|s| - 1] == NatToString(n / 10);
      DecimalRoundTrip(n / 10);
    }
  }

  /** `str(i)` for any integer. */
  function IntToString(i: int): string {
    if i < 0 then "-" + NatToString(-i) else NatToString(i)
  }

  /** `filenamebase`, computed once per message from the clock reading. */
  function FilenameBase(now: real): string {
    IntToString(Round(now * 1000.0))
  }

  /** The token is non-empty, holds no `/`, and starts with a digit or a
      minus sign, never with a letter; it is all digits, and reads back as
      the rounded millisecond count, once the clock is past the epoch. */
  lemma FilenameBaseShape(now: real)
    ensures FilenameBase(now) != []
    ensures '/' !in FilenameBase(now)
    ensures FilenameBase(now)[0] == '-' || IsDigit(FilenameBase(now)[0])
    ensures now >= 0.0 ==>
      && (forall i | 0 <= i < |FilenameBase(now)| :: IsDigit(FilenameBase(now)[i]))
      && DecimalValue(FilenameBase(now)) == Round(now * 1000.0)
  {
    var ms := Round(now * 1000.0);
    if ms < 0 {
      var s := "-" + NatToString(-ms);
      assert forall i | 1 <= i < |s| :: s[i] == NatToString(-ms)[i - 1];
    } else {
      DecimalRoundTrip(ms);
    }
  }
}
