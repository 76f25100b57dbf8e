/** The two number formats every view shares: a completion percentage rounded with
    `Math.round`, and a duration shown as minutes and zero-padded seconds. */
module Display {
  import opened Wrappers
  import opened Text

  /** `whole > 0 ? Math.round(part / whole * 100) : 0`, in exact arithmetic: the integer
      nearest to 100 * part / whole, halves rounded up. */
  function Percentage(part: nat, whole: nat): (p: nat)
    ensures whole == 0 ==> p == 0
    ensures whole > 0 ==> 2 * whole * p <= 200 * part + whole < 2 * whole * (p + 1)
    ensures part <= whole ==> p <= 100
  {
    if whole > 0 then
      RoundBracket(200 * part + whole, 2 * whole);
      PercentageAtMost(part, whole);
      (200 * part + whole) / (2 * whole)
    else 0
  }

  /** Integer division brackets the dividend between two multiples of the divisor. */
  lemma RoundBracket(n: nat, d: nat)
    requires d > 0
    ensures d * (n / d) <= n < d * (n / d + 1)
  {
    var q, r := n / d, n % d;
    assert n == d * q + r && r < d;
    assert d * (q + 1) == d * q + d;
  }

  /** No more done than there are gives at most 100. */
  lemma PercentageAtMost(part: nat, whole: nat)
    requires whole > 0
    ensures part <= whole ==> (200 * part + whole) / (2 * whole) <= 100
  {
    if part <= whole {
      RoundAtMost(200 * part + whole, 2 * whole, 101);
    }
  }

  /** A dividend below `d * m` has a quotient below `m`. */
  lemma RoundAtMost(n: nat, d: nat, m: nat)
    requires d > 0 && n < d * m
    ensures n / d < m
  {
    RoundBracket(n, d);
  }

  /** Nothing done shows 0%, everything done shows 100%, and three of five shows 60%. */
  lemma PercentageEnds(whole: nat)
    ensures Percentage(0, whole) == 0
    ensures whole > 0 ==> Percentage(whole, whole) == 100
    ensures Percentage(3, 5) == 60
  {
    if whole > 0 {
      var p := Percentage(whole, whole);
      assert 2 * whole * p <= 201 * whole < 2 * whole * (p + 1);
      assert 2 * whole * 100 <= 201 * whole < 2 * whole * 101;
      assert 2 * p <= 201 < 2 * (p + 1) by {
        assert whole * (2 * p) <= whole * 201 < whole * (2 * (p + 1));
      }
    }
  }

  /** `s.padStart(2, "0")` */
  function PadTwo(s: string): (r: string)
    ensures |s| >= 2 ==> r == s
    ensures |s| < 2 ==> |r| == 2 && r[2 - |s|..] == s && forall i :: 0 <= i < 2 - |s| ==> r[i] == '0'
  {
    if |s| >= 2 then s else if |s| == 1 then "0" + s else "00"
  }

  /** `${Math.floor(n / 60)}:${String(Math.floor(n % 60)).padStart(2, "0")}` for a whole
      number of seconds. */
  function Clock(n: nat): string
  {
    NatToString(n / 60) + ":" + PadTwo(NatToString(n % 60))
  }

  /** Reads a clock display back: minutes, a colon, and exactly two digits of seconds. */
  function ParseClock(s: string): Option<(nat, nat)>
  {
    var parts := Split(s, ':');
    if |parts| == 2 && |parts[0]| >= 1 && |parts[1]| == 2 && AllDigits(parts[0]) && AllDigits(parts[1])
    then Some((DecimalValue(parts[0]), DecimalValue(parts[1])))
    else None
  }

  /** A leading zero does not change the value of a digit string. */
  lemma {:induction false} DecimalValueLeadingZero(s: string)
    requires AllDigits(s)
    ensures AllDigits("0" + s) && DecimalValue("0" + s) == DecimalValue(s)
    decreases |s|
  {
    if |s| > 0 {
      var z := "0" + s;
      assert z[..|z| - 1] == "0" + s[..|s| - 1];
      DecimalValueLeadingZero(s[..|s| - 1]);
    } else {
      assert DecimalValue("0") == DecimalValue("0"[..0]) * 10 + DigitValue('0');
    }
  }

  /** The clock display shows the minutes and the remaining seconds exactly: reading it back
      gives `n / 60` and `n % 60`, the seconds field is always two digits and below 60, and the
      two recombine to `n`. */
  lemma {:induction false} ClockRoundTrip(n: nat)
    ensures ParseClock(Clock(n)) == Some((n / 60, n % 60))
    ensures n % 60 < 60 && (n / 60) * 60 + n % 60 == n
  {
    var m := NatToString(n / 60);
    var sec := PadTwo(NatToString(n % 60));
    assert ':' !in m;
    assert ':' !in sec;
    SplitAtFirst(m, ':', sec);
    SplitNoSeparator(sec, ':');
    assert Clock(n) == m + [':'] + sec;
    DecimalValueOfNatToString(n / 60);
    DecimalValueOfNatToString(n % 60);
    if n % 60 < 10 {
      DecimalValueLeadingZero(NatToString(n % 60));
    }
  }
}
