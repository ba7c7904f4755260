/**
 * Wall-clock parsing with the fixed format `%H:%M:%S`.
 *
 * A parsed time is a timestamp on the base date 1900-01-01, which is what a
 * format without a date part yields; the model counts it in seconds since
 * 1900-01-01 00:00:00. Adding hours to it may carry it past midnight into the
 * next calendar day: nothing wraps.
 */
module WallClock {
  import opened Wrappers

  /** Seconds since 1900-01-01 00:00:00. */
  type Time = int

  const SecondsPerHour := 3600
  const SecondsPerDay := 86400

  predicate IsDigit(c: char) { '0' <= c <= '9' }

  function DigitValue(c: char): nat
    requires IsDigit(c)
  {
    c as int - '0' as int
  }

  function Digit(n: nat): (c: char)
    requires n < 10
    ensures IsDigit(c) && DigitValue(c) == n
  {
    ('0' as int + n) as char
  }

  /**
   * One field of the format: one or two ASCII digits whose value is at most
   * `max` (23 for `%H`, 59 for `%M` and `%S`).
   */
  function Field(s: string, max: nat): (r: Option<nat>)
    ensures r.Some? ==> 1 <= |s| <= 2 && (forall k :: 0 <= k < |s| ==> IsDigit(s[k])) && r.value <= max
    ensures r.Some? ==> r.value < 100
  {
    if |s| == 1 && IsDigit(s[0]) && DigitValue(s[0]) <= max then
      Some(DigitValue(s[0]))
    else if |s| == 2 && IsDigit(s[0]) && IsDigit(s[1]) && 10 * DigitValue(s[0]) + DigitValue(s[1]) <= max then
      Some(10 * DigitValue(s[0]) + DigitValue(s[1]))
    else
      None
  }

  /** Position of the first `c` in `s` at or after `from`, or `|s|` when there is none. */
  function IndexOf(s: string, c: char, from: nat): (k: nat)
    requires from <= |s|
    ensures from <= k <= |s|
    ensures k < |s| ==> s[k] == c
    ensures forall j :: from <= j < k ==> s[j] != c
    decreases |s| - from
  {
    if from == |s| || s[from] == c then from else IndexOf(s, c, from + 1)
  }

  /**
   * Parses `s` with the format `%H:%M:%S`: the whole string must be three
   * fields separated by colons, with nothing before or after. `None` means the
   * value does not match the format.
   */
  function ParseTime(s: string): (r: Option<Time>)
    ensures r.Some? ==> 0 <= r.value < SecondsPerDay
    ensures r.Some? ==> exists p, q :: 0 <= p < q < |s| && s[p] == ':' && s[q] == ':'
  {
    var p := IndexOf(s, ':', 0);
    if p == |s| then None
    else
      var q := IndexOf(s, ':', p + 1);
      if q == |s| then None
      else
        match (Field(s[..p], 23), Field(s[p + 1..q], 59), Field(s[q + 1..], 59))
        case (Some(h), Some(m), Some(sec)) => Some(SecondsPerHour * h + 60 * m + sec)
        case _ => None
  }

  /**
   * The parser reads exactly the three colon-separated fields: a string made of
   * three colon-free parts is accepted iff each part is a valid field, and then
   * denotes h hours, m minutes and s seconds after midnight.
   */
  lemma ParseTimeFields(a: string, b: string, c: string)
    requires ':' !in a && ':' !in b
    ensures ParseTime(a + ":" + b + ":" + c) ==
      if Field(a, 23).Some? && Field(b, 59).Some? && Field(c, 59).Some?
      then Some(SecondsPerHour * Field(a, 23).value + 60 * Field(b, 59).value + Field(c, 59).value)
      else None
  {
    var s := a + ":" + b + ":" + c;
    assert forall j :: 0 <= j < |a| ==> s[j] == a[j];
    assert s[|a|] == ':';
    var p := IndexOf(s, ':', 0);
    assert p == |a|;
    assert forall j :: |a| + 1 <= j < |a| + 1 + |b| ==> s[j] == b[j - |a| - 1];
    assert s[|a| + 1 + |b|] == ':';
    var q := IndexOf(s, ':', p + 1);
    assert q == |a| + 1 + |b|;
    assert s[..p] == a;
    assert s[p + 1..q] == b;
    assert s[q + 1..] == c;
  }

  function TwoDigits(n: nat): (s: string)
    requires n < 100
    ensures |s| == 2 && ':' !in s
  {
    [Digit(n / 10), Digit(n % 10)]
  }

  /** Renders a time of day as zero-padded `HH:MM:SS`. */
  function FormatTime(t: Time): (s: string)
    requires 0 <= t < SecondsPerDay
  {
    TwoDigits(t / SecondsPerHour) + ":" + TwoDigits(t % SecondsPerHour / 60) + ":" + TwoDigits(t % 60)
  }

  lemma TwoDigitsField(n: nat, max: nat)
    requires n <= max && n < 100
    ensures Field(TwoDigits(n), max) == Some(n)
  {
  }

  /** Every time of day survives a format/parse round trip. */
  lemma ParseFormat(t: Time)
    requires 0 <= t < SecondsPerDay
    ensures ParseTime(FormatTime(t)) == Some(t)
  {
    var h, m, s := t / SecondsPerHour, t % SecondsPerHour / 60, t % 60;
    var r := t % SecondsPerHour;
    assert t == SecondsPerHour * h + r;
    assert r == 60 * m + r % 60;
    assert r % 60 == s by {
      assert t == 60 * (60 * h + m) + r % 60;
    }
    TwoDigitsField(h, 23);
    TwoDigitsField(m, 59);
    TwoDigitsField(s, 59);
    ParseTimeFields(TwoDigits(h), TwoDigits(m), TwoDigits(s));
  }
}
