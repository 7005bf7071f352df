/**
 * The server-status panel (src/components/ServerStatus.tsx): the uptime is read from the
 * second result set of the status query and shown as whole days, hours and minutes.
 */
module ServerStatus {
  import opened Wrappers
  import opened JsStrings
  import opened JsValues

  /** `Math.floor(s / 86400)`, `Math.floor((s % 86400) / 3600)`, `Math.floor((s % 3600) / 60)` for a non-negative uptime. */
  function UptimeParts(seconds: nat): (parts: (nat, nat, nat))
    ensures parts.1 < 24 && parts.2 < 60
    ensures 86400 * parts.0 + 3600 * parts.1 + 60 * parts.2 <= seconds < 86400 * parts.0 + 3600 * parts.1 + 60 * parts.2 + 60
  {
    var days := seconds / 86400;
    var hours := (seconds % 86400) / 3600;
    var minutes := (seconds % 3600) / 60;
    assert seconds % 3600 == (seconds % 86400) % 3600 by {
      assert seconds == 86400 * days + seconds % 86400;
      ModOfMultiple(seconds, days, seconds % 86400);
    }
    (days, hours, minutes)
  }

  lemma ModOfMultiple(s: nat, d: nat, r: nat)
    requires s == 86400 * d + r
    ensures s % 3600 == r % 3600
  {
    assert s == 3600 * (24 * d) + r;
  }

  /** `${days}d ${hours}h ${minutes}m` */
  function FormatUptime(seconds: nat): string {
    var (d, h, m) := UptimeParts(seconds);
    Show(d, h, m)
  }

  function Show(d: nat, h: nat, m: nat): string {
    NatToString(d) + ("d " + ShowHours(h, m))
  }

  function ShowHours(h: nat, m: nat): string {
    NatToString(h) + ("h " + ShowMinutes(m))
  }

  function ShowMinutes(m: nat): string {
    NatToString(m) + "m"
  }

  lemma UnitCancel(unit: char, a: string, b: string)
    requires [unit, ' '] + a == [unit, ' '] + b
    ensures a == b
  {
    assert a == ([unit, ' '] + a)[2..];
  }

  /** Number of leading decimal digits. */
  function DigitRun(s: string): (n: nat)
    ensures n <= |s|
  {
    if s != [] && '0' <= s[0] <= '9' then 1 + DigitRun(s[1..]) else 0
  }

  lemma {:induction false} DigitRunAppend(p: string, x: string)
    requires IsDigits(p) && (x == [] || !('0' <= x[0] <= '9'))
    ensures DigitRun(p + x) == |p|
  {
    if p != [] {
      assert (p + x)[1..] == p[1..] + x;
      DigitRunAppend(p[1..], x);
    }
  }

  /** A number's rendering followed by a non-digit can be read back unambiguously. */
  lemma NumberPrefixUnique(a: nat, b: nat, x: string, y: string)
    requires x != [] && !('0' <= x[0] <= '9') && y != [] && !('0' <= y[0] <= '9')
    requires NatToString(a) + x == NatToString(b) + y
    ensures a == b && x == y
  {
    var p, q := NatToString(a), NatToString(b);
    DigitRunAppend(p, x);
    DigitRunAppend(q, y);
    assert |p| == |q|;
    assert p == (p + x)[..|p|] && q == (q + y)[..|q|];
    NatToStringValue(a);
    NatToStringValue(b);
    assert x == (p + x)[|p|..] && y == (q + y)[|q|..];
  }

  /** The parts are a mixed-radix reading of the whole minutes. */
  lemma PartsOfMinutes(seconds: nat)
    ensures var (d, h, m) := UptimeParts(seconds); seconds / 60 == 1440 * d + 60 * h + m
  {
    var (d, h, m) := UptimeParts(seconds);
    var total := 86400 * d + 3600 * h + 60 * m;
    assert total <= seconds < total + 60;
    assert total == 60 * (1440 * d + 60 * h + m);
  }

  /** The display determines the days, hours and minutes it shows. */
  lemma ShowReadsBack(d1: nat, h1: nat, m1: nat, d2: nat, h2: nat, m2: nat)
    requires Show(d1, h1, m1) == Show(d2, h2, m2)
    ensures d1 == d2 && h1 == h2 && m1 == m2
  {
    NumberPrefixUnique(d1, d2, "d " + ShowHours(h1, m1), "d " + ShowHours(h2, m2));
    UnitCancel('d', ShowHours(h1, m1), ShowHours(h2, m2));
    NumberPrefixUnique(h1, h2, "h " + ShowMinutes(m1), "h " + ShowMinutes(m2));
    UnitCancel('h', ShowMinutes(m1), ShowMinutes(m2));
    NumberPrefixUnique(m1, m2, "m", "m");
  }

  /** Equal whole minutes give equal parts: the mixed-radix digits are unique. */
  lemma MinutesDetermineParts(s1: nat, s2: nat)
    requires s1 / 60 == s2 / 60
    ensures UptimeParts(s1) == UptimeParts(s2)
  {
    var (d1, h1, m1) := UptimeParts(s1);
    var (d2, h2, m2) := UptimeParts(s2);
    PartsOfMinutes(s1);
    PartsOfMinutes(s2);
    assert 60 * (24 * d1 + h1) + m1 == 60 * (24 * d2 + h2) + m2;
    assert m1 == m2 && 24 * d1 + h1 == 24 * d2 + h2;
    assert d1 == d2 && h1 == h2;
  }

  /** Two uptimes display the same exactly when they have the same whole number of minutes. */
  lemma FormatUptimeSameMinutes(s1: nat, s2: nat)
    ensures FormatUptime(s1) == FormatUptime(s2) <==> s1 / 60 == s2 / 60
  {
    if FormatUptime(s1) == FormatUptime(s2) {
      var (d1, h1, m1) := UptimeParts(s1);
      var (d2, h2, m2) := UptimeParts(s2);
      ShowReadsBack(d1, h1, m1, d2, h2, m2);
      PartsOfMinutes(s1);
      PartsOfMinutes(s2);
    }
    if s1 / 60 == s2 / 60 {
      MinutesDetermineParts(s1, s2);
    }
  }

  /**
   * `rows[1][0]` and its `Value`: `None` when the second result set is missing (the property
   * access throws), `Num(0)` when it has no row.
   */
  function UptimeValue(resultSets: seq<seq<Row>>): (r: Option<Value>)
    ensures r.None? <==> |resultSets| < 2
    ensures |resultSets| >= 2 && resultSets[1] == [] ==> r == Some(Num(0))
    ensures |resultSets| >= 2 && resultSets[1] != [] ==> r == Some(Get(resultSets[1][0], "Value"))
  {
    if |resultSets| < 2 then None
    else if resultSets[1] == [] then Some(Num(0))
    else Some(Get(resultSets[1][0], "Value"))
  }
}
