/**
 * Signed 64-bit integers and `Long.parseLong(String)` in radix 10, restricted
 * to ASCII digits. `ParseLong` is the reference definition of which strings
 * the JDK accepts and what they denote; `ParseLongScan` is the JDK's own
 * digit loop with its overflow checks, proved to agree with it; `FormatLong`
 * (`Long.toString`) is its inverse.
 */
module Longs {
  import opened Wrappers

  const MinLong: int := -0x8000_0000_0000_0000
  const MaxLong: int := 0x7fff_ffff_ffff_ffff

  /** Java's `long`. */
  type Long = x: int | MinLong <= x <= MaxLong

  predicate IsDigit(c: char)
  {
    '0' <= c <= '9'
  }

  function DigitValue(c: char): (d: nat)
    requires IsDigit(c)
    ensures d < 10
  {
    (c as int) - ('0' as int)
  }

  function DigitChar(d: nat): (c: char)
    requires d < 10
    ensures IsDigit(c) && DigitValue(c) == d
  {
    ('0' as int + d) as char
  }

  predicate AllDigits(s: string)
  {
    forall i :: 0 <= i < |s| ==> IsDigit(s[i])
  }

  /** The natural number a string of decimal digits denotes (most significant first). */
  function DigitsValue(s: string): nat
    requires AllDigits(s)
    decreases |s|
  {
    if |s| == 0 then 0
    else 10 * DigitsValue(s[..|s| - 1]) + DigitValue(s[|s| - 1])
  }

  /**
   * `Long.parseLong(s)`: an optional `+` or `-`, then one or more digits,
   * whose signed value must fit in a `long`. `None` models the
   * NumberFormatException thrown for every other string, the empty string
   * and a lone sign included. Leading zeros are allowed and the sign of a
   * negative amount is kept.
   */
  function ParseLong(s: string): (r: Option<Long>)
    ensures r.Some? ==> |s| >= 1 && forall i :: 1 <= i < |s| ==> IsDigit(s[i])
    ensures r.Some? && r.value < 0 ==> s[0] == '-'
  {
    if |s| == 0 then None
    else
      var digits := if s[0] == '-' || s[0] == '+' then s[1..] else s;
      if |digits| == 0 || !AllDigits(digits) then None
      else
        var v: int := if s[0] == '-' then -(DigitsValue(digits) as int) else DigitsValue(digits);
        if MinLong <= v <= MaxLong then Some(v) else None
  }

  /** Appending digits never makes the value smaller, and one more digit multiplies it by at least ten. */
  lemma {:induction false} DigitsValueGrows(p: string, q: string)
    requires AllDigits(p + q)
    ensures AllDigits(p) && AllDigits(q)
    ensures DigitsValue(p + q) >= DigitsValue(p)
    ensures |q| >= 1 ==> DigitsValue(p + q) >= 10 * DigitsValue(p)
    decreases |q|
  {
    assert forall i :: 0 <= i < |p| ==> p[i] == (p + q)[i];
    assert forall i :: 0 <= i < |q| ==> q[i] == (p + q)[|p| + i];
    if |q| > 0 {
      var q' := q[..|q| - 1];
      assert (p + q)[..|p + q| - 1] == p + q';
      DigitsValueGrows(p, q');
    } else {
      assert p + q == p;
    }
  }

  /** The value of a prefix extended by one digit. */
  lemma DigitsValueSnoc(p: string, c: char)
    requires AllDigits(p) && IsDigit(c)
    ensures AllDigits(p + [c])
    ensures DigitsValue(p + [c]) == 10 * DigitsValue(p) + DigitValue(c)
  {
  }

  /**
   * The JDK's `Long.parseLong` loop: it accumulates the NEGATED value so that
   * `Long.MIN_VALUE` is reachable, and before each step rejects the string
   * when the accumulator is already below `limit / 10` or when the next digit
   * would take it below `limit`.
   */
  method ParseLongScan(s: string) returns (r: Option<Long>)
    ensures r == ParseLong(s)
  {
    if |s| == 0 {
      return None;
    }
    var negative := false;
    var limit := -MaxLong;
    var i := 0;
    if s[0] < '0' {
      if s[0] == '-' {
        negative := true;
        limit := MinLong;
      } else if s[0] != '+' {
        assert !IsDigit(s[0]);
        return None;
      }
      if |s| == 1 {
        return None;
      }
      i := 1;
    }
    var start := i;
    assert s[start..] == if s[0] == '-' || s[0] == '+' then s[1..] else s;
    // Java's `limit / radix` truncates toward zero; `-limit` is positive here.
    var multmin := -((-limit) / 10);
    var result := 0;
    while i < |s|
      invariant start <= i <= |s|
      invariant AllDigits(s[start..i])
      invariant result == -(DigitsValue(s[start..i]) as int)
      invariant limit <= result <= 0
    {
      var c := s[i];
      assert s[start..] == s[start..i] + s[i..];
      if !IsDigit(c) {
        assert s[start..][i - start] == c;
        return None;
      }
      if result < multmin {
        TooLongRejected(s, start, i, -limit);
        return None;
      }
      var d := DigitValue(c);
      if result * 10 < limit + d {
        assert s[start..i + 1] == s[start..i] + [c];
        DigitsValueSnoc(s[start..i], c);
        TooLongRejected(s, start, i + 1, -limit);
        return None;
      }
      assert s[start..i + 1] == s[start..i] + [c];
      DigitsValueSnoc(s[start..i], c);
      result := result * 10 - d;
      i := i + 1;
    }
    assert s[start..i] == s[start..];
    r := Some(if negative then result else -result);
  }

  /**
   * Once the digits read so far exceed the bound (or would, after one more
   * digit), no continuation can bring the value back into range.
   */
  lemma TooLongRejected(s: string, start: nat, i: nat, bound: int)
    requires 1 <= |s| && start <= i <= |s|
    requires start == (if s[0] == '-' || s[0] == '+' then 1 else 0)
    requires bound == (if s[0] == '-' then -MinLong else MaxLong)
    requires AllDigits(s[start..i])
    requires i < |s| ==> 10 * DigitsValue(s[start..i]) > bound
    requires i == |s| ==> DigitsValue(s[start..i]) > bound
    ensures ParseLong(s).None?
  {
    if AllDigits(s[start..]) {
      assert s[start..] == s[start..i] + s[i..];
      DigitsValueGrows(s[start..i], s[i..]);
    }
  }

  /** The digits of a natural number, most significant first, without leading zeros. */
  function NatDigits(n: nat): (s: string)
    ensures |s| >= 1 && AllDigits(s)
    decreases n
  {
    if n < 10 then [DigitChar(n)]
    else NatDigits(n / 10) + [DigitChar(n % 10)]
  }

  /** `Long.toString(x)`. */
  function FormatLong(x: Long): string
  {
    if x < 0 then "-" + NatDigits(-(x as int)) else NatDigits(x)
  }

  lemma {:induction false} NatDigitsValue(n: nat)
    ensures DigitsValue(NatDigits(n)) == n
    decreases n
  {
    if n >= 10 {
      NatDigitsValue(n / 10);
      DigitsValueSnoc(NatDigits(n / 10), DigitChar(n % 10));
    }
  }

  /** Round trip: every `long` is parsed back from its decimal form. */
  lemma ParseFormat(x: Long)
    ensures ParseLong(FormatLong(x)) == Some(x)
  {
    var s := FormatLong(x);
    if x < 0 {
      NatDigitsValue(-(x as int));
      assert s[1..] == NatDigits(-(x as int));
    } else {
      NatDigitsValue(x);
      assert IsDigit(s[0]);
    }
  }

  /** A leading `+` is accepted and changes nothing; a lone sign is rejected. */
  lemma PlusSignIgnored(digits: string)
    requires |digits| >= 1 && AllDigits(digits)
    ensures ParseLong("+" + digits) == ParseLong(digits)
    ensures ParseLong("+").None? && ParseLong("-").None? && ParseLong("").None?
  {
  }

  /** A negative amount such as "-5" parses: no positivity is imposed. */
  lemma NegativeAccepted()
    ensures ParseLong("-5") == Some(-5)
    ensures ParseLong("10") == Some(10)
    ensures ParseLong("abc").None?
  {
    assert "-5"[1..] == "5";
    assert DigitsValue("5") == 5;
  }
}
