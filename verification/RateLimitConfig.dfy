/** Reading a rate limit such as "100/min" from the router's configuration. */
module RateLimitConfig {
  import opened Int64
  import opened Decimal
  import opened Sequences
  import opened RateLimitSteps

  const SECOND := 1_000_000_000
  const MINUTE := 60 * SECOND

  /** The number of digits at the front of s. */
  function DigitCount(s: string): (n: nat)
    ensures n <= |s| && AllDigits(s[..n]) && (n < |s| ==> !IsDigit(s[n]))
  {
    if s == [] || !IsDigit(s[0]) then 0
    else
      DigitCount(s[1..]) + 1
  }

  /** The count the digits at the front of s are taken for: 64-bit, with zero replaced by 100. */
  function Count(s: string): int64 {
    var n := Wrap(Value(s[..DigitCount(s)]));
    if n == 0 then 100 else n
  }

  lemma DigitWraps(x: int, d: int)
    ensures Wrap(Wrap(x) * 10 + d) == Wrap(x * 10 + d)
  {
    var k := (Wrap(x) - x) / 0x1_0000_0000_0000_0000;
    CongruentWrapsAlike(Wrap(x) * 10 + d, x * 10 + d, 10 * k);
  }

  lemma DigitsFound(s: string, i: nat)
    requires i <= |s| && AllDigits(s[..i]) && (i < |s| ==> !IsDigit(s[i]))
    ensures DigitCount(s) == i
  {
    var n := DigitCount(s);
    assert forall k | 0 <= k < i :: s[..i][k] == s[k];
    assert forall k | 0 <= k < n :: s[..n][k] == s[k];
  }

  method Atoi(s: string) returns (n: int64)
    ensures n == Count(s)
  {
    n := 0;
    var i := 0;
    while i < |s|
      invariant i <= |s| && AllDigits(s[..i]) && n == Wrap(Value(s[..i]))
    {
      var c := s[i];
      if '0' <= c <= '9' {
        DigitWraps(Value(s[..i]), DigitOf(c));
        assert s[..i + 1][..i] == s[..i];
        n := Wrap(n * 10 + (DigitOf(c)));
      } else {
        break;
      }
      i := i + 1;
    }
    DigitsFound(s, i);
    if n == 0 {
      return 100;
    }
  }

  /** Splits at the first slash; without one there is no second part. */
  method SplitAtSlash(s: string) returns (found: bool, before: string, after: string)
    ensures found <==> '/' in s
    ensures found ==> s == before + "/" + after && '/' !in before
  {
    for i := 0 to |s|
      invariant '/' !in s[..i]
    {
      if s[i] == '/' {
        assert s == s[..i] + "/" + s[i + 1..];
        return true, s[..i], s[i + 1..];
      }
    }
    return false, s, "";
  }

  /** Without a slash the default applies; any unit other than "sec" and "s" means a minute. */
  method ParseRateLimit(s: string) returns (limit: int64, window: int)
    ensures '/' !in s ==> limit == 100 && window == 60_000_000_000
    ensures forall before, after | s == before + "/" + after && '/' !in before ::
              && limit == Count(before)
              && window == if after in {"sec", "s"} then 1_000_000_000 else 60_000_000_000
    ensures window > 0
  {
    var found, before, after := SplitAtSlash(s);
    if !found {
      return 100, MINUTE;
    }
    forall b, a | s == b + "/" + a && '/' !in b
      ensures b == before && a == after
    {
      SplitIsUnique('/', b, a, before, after);
    }
    limit := Atoi(before);
    if after == "min" {
      return limit, MINUTE;
    } else if after == "sec" || after == "s" {
      return limit, SECOND;
    }
    return limit, MINUTE;
  }

  /** The digits at the front are read as a decimal number; none, or zero, stand for 100. */
  lemma KnownCounts()
    ensures Count("250/min") == 250 && Count("1") == 1 && Count("min") == 100 && Count("0/s") == 100
  {
    forall s, i: nat | i <= |s| && AllDigits(s[..i]) && (i < |s| ==> !IsDigit(s[i]))
      ensures DigitCount(s) == i
    {
      DigitsFound(s, i);
    }
    assert "250/min"[..3] == "250" && "250"[..2] == "25" && "25"[..1] == "2" && "2"[..0] == "";
    assert "1"[..1] == "1" && "1"[..0] == "" && "min"[..0] == "";
    assert "0/s"[..1] == "0" && "0"[..0] == "";
  }

  /**
   The limiter needs a limit of at least 1. It gets one exactly when the digits at the front, reduced
   to 64 bits, are not negative; so always when they denote a number that fits.
   */
  lemma LimitIsPositive(s: string)
    ensures Count(s) >= 1 <==> Value(s[..DigitCount(s)]) % 0x1_0000_0000_0000_0000 <= MAX
    ensures Value(s[..DigitCount(s)]) <= MAX ==>
              Count(s) == if Value(s[..DigitCount(s)]) == 0 then 100 else Value(s[..DigitCount(s)])
  {
    var v: int := Value(s[..DigitCount(s)]);
    var k := v / 0x1_0000_0000_0000_0000;
    CongruentWrapsAlike(v, v % 0x1_0000_0000_0000_0000, k);
  }

  /** So a count of 2^63 becomes a negative limit. */
  lemma HugeLimitIsNegative(unit: string)
    ensures Count(Show(MAX + 1) + "/" + unit) == MIN
  {
    var d := Show(MAX + 1);
    var s := d + "/" + unit;
    assert s[..|d|] == d;
    DigitsFound(s, |d|);
    ValueOfShow(MAX + 1);
  }

  /** The first request to a limiter built from a configuration panics exactly when its count is such a number. */
  lemma ConfiguredLimitPanics(s: string, window: int, maxIPs: int, ip: IP, now: int)
    ensures Panics(Config(Count(s), window, maxIPs), map[], ip, now)
       <==> Value(s[..DigitCount(s)]) % 0x1_0000_0000_0000_0000 > MAX
  {
    LimitIsPositive(s);
    PanicsExactly(Config(Count(s), window, maxIPs), map[], ip, now);
  }

  lemma HugeLimitPanics(unit: string, window: int, maxIPs: int, ip: IP, now: int)
    ensures Panics(Config(Count(Show(MAX + 1) + "/" + unit), window, maxIPs), map[], ip, now)
  {
    HugeLimitIsNegative(unit);
    PanicsExactly(Config(MIN, window, maxIPs), map[], ip, now);
  }
}
