/**
 * The few PHP built-ins the core's arithmetic and formatting rely on:
 * `round()` (half away from zero), `min`/`max` on numbers, integer to decimal
 * string conversion (string concatenation with `.`) and `trim()`.
 * PHP floats are modelled as exact reals.
 */
module PhpMath {

  function Min(a: real, b: real): real { if a <= b then a else b }
  function Max(a: real, b: real): real { if a >= b then a else b }

  /** `round($x)`: the nearest integer, halves rounded away from zero. */
  function Round(x: real): (r: int)
    ensures x >= 0.0 ==> r as real - 0.5 <= x < r as real + 0.5
    ensures x < 0.0 ==> r as real - 0.5 < x <= r as real + 0.5
  {
    if x >= 0.0 then (x + 0.5).Floor else -((-x + 0.5).Floor)
  }

  /** Two integers within the same half-open rounding window are equal. */
  lemma RoundUnique(x: real, p: int, q: int)
    requires p as real - 0.5 <= x < p as real + 0.5
    requires q as real - 0.5 <= x < q as real + 0.5
    ensures p == q
  {
  }

  /** `round(($part / $whole) * 100)`, the percentage every roll-up in the core computes. */
  function Percent(part: nat, whole: nat): (p: int)
    requires whole > 0
    ensures 0 <= p
    ensures part <= whole ==> p <= 100
    ensures part == 0 ==> p == 0
    ensures part == whole ==> p == 100
  {
    var x := (part as real / whole as real) * 100.0;
    assert x >= 0.0;
    assert part == whole ==> x == 100.0 by {
      if part == whole {
        assert part as real / whole as real == 1.0;
      }
    }
    assert part <= whole ==> x <= 100.0 by {
      if part <= whole {
        assert part as real / whole as real <= 1.0;
      }
    }
    Round(x)
  }

  /**
   * The integer form of `Percent`: since both operands are non-negative,
   * rounding half away from zero is `floor(x + 1/2)`, which for
   * x = 100·c/t is `(200·c + t) div (2·t)`.
   */
  lemma {:induction false} PercentIntegerForm(part: nat, whole: nat)
    requires whole > 0
    ensures Percent(part, whole) == (200 * part + whole) / (2 * whole)
  {
    var n := 200 * part + whole;
    var q := n / (2 * whole);
    var r := n % (2 * whole);
    assert n == 2 * whole * q + r && 0 <= r < 2 * whole;
    // in integers: (2q - 1)·t <= 200·c < (2q + 1)·t
    assert (2 * q - 1) * whole == 200 * part - r;
    assert (2 * q + 1) * whole == 200 * part + 2 * whole - r;
    var x := (part as real / whole as real) * 100.0;
    ScaledQuotientBounds(part, whole, 2 * q - 1, 2 * q + 1);
    assert (2 * q - 1) as real / 2.0 <= x < (2 * q + 1) as real / 2.0;
    RoundUnique(x, Percent(part, whole), q);
  }

  /** lo·t <= 200·c < hi·t bounds c/t·100 between lo/2 and hi/2. */
  lemma ScaledQuotientBounds(part: nat, whole: nat, lo: int, hi: int)
    requires whole > 0
    requires lo * whole <= 200 * part < hi * whole
    ensures lo as real / 2.0 <= (part as real / whole as real) * 100.0 < hi as real / 2.0
  {
    var t := whole as real;
    var y := part as real / t;
    var z := 200.0 * y;
    CastMul(lo, whole);
    CastMul(hi, whole);
    CastMul(200, part);
    assert lo as real * t <= 200.0 * part as real < hi as real * t;
    DivMul(part as real, t);
    assert z * t == 200.0 * part as real by {
      assert z * t == 200.0 * (y * t);
    }
    MulMonotone(lo as real, z, t);
    MulMonotone(z, hi as real, t);
    assert lo as real <= z < hi as real;
    assert y * 100.0 == z / 2.0;
  }

  lemma CastMul(a: int, b: int)
    ensures (a * b) as real == a as real * b as real
  {
  }

  lemma DivMul(p: real, t: real)
    requires t > 0.0
    ensures (p / t) * t == p
  {
  }

  lemma MulMonotone(a: real, b: real, t: real)
    requires t > 0.0
    ensures a * t <= b * t ==> a <= b
    ensures a * t < b * t ==> a < b
  {
  }

  /** With fewer than 200 items a single item below the whole keeps the percentage under 100. */
  lemma PercentBelowWhole(part: nat, whole: nat)
    requires 0 < whole < 200 && part < whole
    ensures Percent(part, whole) < 100
  {
    PercentIntegerForm(part, whole);
    assert 200 * part + whole < 2 * whole * 100 by {
      assert 200 * part <= 200 * whole - 200;
    }
  }

  /** With at most 200 items a single completed one already shows as at least 1 percent. */
  lemma PercentAbovePartZero(part: nat, whole: nat)
    requires 0 < part <= whole <= 200
    ensures Percent(part, whole) > 0
  {
    PercentIntegerForm(part, whole);
    assert 200 * part + whole >= 2 * whole;
  }

  /** 199 of 200 rounds up to 100 percent: "100" does not mean "all". */
  lemma PercentRoundsUpToWhole()
    ensures Percent(199, 200) == 100
  {
    PercentIntegerForm(199, 200);
  }

  /** 1 of 201 rounds down to 0 percent: "0" does not mean "none". */
  lemma PercentRoundsDownToZero()
    ensures Percent(1, 201) == 0
  {
    PercentIntegerForm(1, 201);
  }

  // ---------------------------------------------------------------- digits

  function DigitChar(d: nat): (c: char)
    requires d < 10
  {
    "0123456789"[d]
  }

  predicate IsDigit(c: char) { '0' <= c <= '9' }

  function DigitValue(c: char): (d: nat)
    requires IsDigit(c)
    ensures d < 10
  {
    (c as int - '0' as int)
  }

  /** The decimal text PHP produces when an integer is concatenated to a string. */
  function DecimalString(n: nat): (s: string)
    ensures |s| >= 1
    ensures forall i :: 0 <= i < |s| ==> IsDigit(s[i])
    ensures n >= 10 ==> s[0] != '0'
    ensures n < 10 <==> |s| == 1
    decreases n
  {
    if n < 10 then [DigitChar(n)] else DecimalString(n / 10) + [DigitChar(n % 10)]
  }

  /** The text of a signed integer: a minus sign before the digits of a negative one. */
  function SignedString(n: int): (s: string)
    ensures |s| >= 1
    ensures n >= 0 ==> s == DecimalString(n)
    ensures n < 0 ==> s[0] == '-' && s[1..] == DecimalString(-n)
  {
    if n >= 0 then DecimalString(n) else "-" + DecimalString(-n)
  }

  /** Reads a string of decimal digits back to the integer it denotes. */
  function DecimalValue(s: string): (n: nat)
    requires forall i :: 0 <= i < |s| ==> IsDigit(s[i])
    decreases |s|
  {
    if |s| == 0 then 0 else DecimalValue(s[..|s| - 1]) * 10 + DigitValue(s[|s| - 1])
  }

  /** The decimal text of `n` denotes `n`, so distinct counts print differently. */
  lemma {:induction false} DecimalRoundTrip(n: nat)
    ensures DecimalValue(DecimalString(n)) == n
    decreases n
  {
    var s := DecimalString(n);
    if n < 10 {
      assert s[..|s| - 1] == [];
    } else {
      DecimalRoundTrip(n / 10);
      assert s[..|s| - 1] == DecimalString(n / 10);
      DigitRoundTrip(n % 10);
      assert DecimalValue(s) == (n / 10) * 10 + n % 10;
    }
  }

  lemma DigitRoundTrip(d: nat)
    requires d < 10
    ensures IsDigit(DigitChar(d)) && DigitValue(DigitChar(d)) == d
  {
  }

  lemma DecimalStringInjective(m: nat, n: nat)
    requires DecimalString(m) == DecimalString(n)
    ensures m == n
  {
    DecimalRoundTrip(m);
    DecimalRoundTrip(n);
  }

  /** A number followed by a fixed text, such as `" hours ago"`, can be read back. */
  lemma NumberLabelInjective(m: nat, n: nat, suffix: string)
    requires DecimalString(m) + suffix == DecimalString(n) + suffix
    ensures m == n
  {
    var a, b := DecimalString(m), DecimalString(n);
    assert |a| == |b| by {
      assert |a + suffix| == |b + suffix|;
    }
    assert a == (a + suffix)[..|a|];
    assert b == (b + suffix)[..|b|];
    DecimalStringInjective(m, n);
  }

  // ---------------------------------------------------------------- trim

  /** The characters PHP's `trim()` strips by default: space, tab, LF, CR, NUL and vertical tab. */
  predicate IsTrimmable(c: char) { c as int in {32, 9, 10, 13, 0, 11} }

  function TrimStart(s: string): (r: string)
    ensures |r| <= |s| && r == s[|s| - |r|..]
    ensures forall i :: 0 <= i < |s| - |r| ==> IsTrimmable(s[i])
    ensures |r| > 0 ==> !IsTrimmable(r[0])
    decreases |s|
  {
    if |s| > 0 && IsTrimmable(s[0]) then TrimStart(s[1..]) else s
  }

  function TrimEnd(s: string): (r: string)
    ensures |r| <= |s| && r == s[..|r|]
    ensures forall i :: |r| <= i < |s| ==> IsTrimmable(s[i])
    ensures |r| > 0 ==> !IsTrimmable(r[|r| - 1])
    decreases |s|
  {
    if |s| > 0 && IsTrimmable(s[|s| - 1]) then TrimEnd(s[..|s| - 1]) else s
  }

  /** `trim($s)`. */
  function Trim(s: string): (r: string)
  {
    TrimEnd(TrimStart(s))
  }

  /**
   * Trim removes only a whitespace prefix and suffix: the result is a slice of
   * the input, starts and ends with a non-whitespace character, and every
   * character cut off is whitespace.
   */
  lemma TrimSpec(s: string)
    ensures exists a, b :: TrimmedSlice(s, a, b)
    ensures |Trim(s)| > 0 ==> !IsTrimmable(Trim(s)[0]) && !IsTrimmable(Trim(s)[|Trim(s)| - 1])
  {
    var a, b := TrimBounds(s);
    var t := TrimStart(s);
    if |Trim(s)| > 0 {
      assert Trim(s)[0] == t[0];
    }
  }

  /** The bounds of the slice that `Trim` keeps. */
  lemma TrimBounds(s: string) returns (a: nat, b: nat)
    ensures TrimmedSlice(s, a, b)
  {
    var t := TrimStart(s);
    a := |s| - |t|;
    var r := TrimEnd(t);
    TrimEndWithin(s, a, t, r);
    b := a + |r|;
  }

  /** The trailing cut of a suffix `t == s[a..]` lies in `s` from `a + |r|` on. */
  lemma TrimEndWithin(s: string, a: nat, t: string, r: string)
    requires a <= |s| && t == s[a..] && r == TrimEnd(t)
    ensures a + |r| <= |s| && r == s[a..a + |r|]
    ensures forall i :: a + |r| <= i < |s| ==> IsTrimmable(s[i])
  {
    assert r == t[..|r|];
    forall i | a + |r| <= i < |s| ensures IsTrimmable(s[i]) {
      assert s[i] == t[i - a];
    }
  }

  /** `s[a..b]` is the trim of `s`, and everything before `a` and from `b` on is whitespace. */
  predicate TrimmedSlice(s: string, a: int, b: int)
  {
    && 0 <= a <= b <= |s| && Trim(s) == s[a..b]
    && (forall i :: 0 <= i < a ==> IsTrimmable(s[i]))
    && (forall i :: b <= i < |s| ==> IsTrimmable(s[i]))
  }

  /** A string that neither starts nor ends with whitespace is its own trim. */
  lemma TrimUnchanged(s: string)
    requires |s| > 0 ==> !IsTrimmable(s[0]) && !IsTrimmable(s[|s| - 1])
    ensures Trim(s) == s
  {
  }

  lemma TrimIdempotent(s: string)
    ensures Trim(Trim(s)) == Trim(s)
  {
  }
}
