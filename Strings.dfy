/** The JavaScript string operations that the date formatter and the daily sort
    rely on: the decimal rendering of an integral Number (Number::toString),
    String.prototype.padStart, and the ordinal, code-unit-by-code-unit order of
    strings. Decimal parsing is the partner that shows the rendering loses nothing. */
module Strings {
  import opened Wrappers

  predicate IsDigit(c: char) { '0' <= c <= '9' }

  predicate AllDigits(s: string) { forall i :: 0 <= i < |s| ==> IsDigit(s[i]) }

  function DigitValue(c: char): nat
    requires IsDigit(c)
  {
    c as int - '0' as int
  }

  function DigitChar(d: nat): (c: char)
    requires d < 10
    ensures IsDigit(c) && DigitValue(c) == d
  {
    ('0' as int + d) as char
  }

  /** Decimal digits of a non-negative integer, most significant first; only 0 itself starts with '0'. */
  function NatToString(n: nat): (s: string)
    ensures 1 <= |s| && AllDigits(s)
    ensures s[0] == '0' ==> n == 0
  {
    if n < 10 then [DigitChar(n)] else NatToString(n / 10) + [DigitChar(n % 10)]
  }

  /** Number::toString of an integral Number below 10^21 in magnitude: a minus sign for
      negatives, then the magnitude. Larger Numbers use exponent notation, which no year,
      month or day of a valid Date reaches. */
  function IntToString(n: int): (s: string)
    ensures 1 <= |s|
    ensures n >= 0 <==> s[0] != '-'
  {
    if n < 0 then "-" + NatToString(-n) else NatToString(n)
  }

  /** Value of a string of decimal digits, most significant first. */
  function DigitsValue(s: string): nat
    requires AllDigits(s)
  {
    if s == [] then 0 else 10 * DigitsValue(s[..|s| - 1]) + DigitValue(s[|s| - 1])
  }

  /** Reads back what IntToString writes: an optional '-', then digits without a leading zero. */
  function ParseInt(s: string): Option<int>
  {
    if |s| >= 2 && s[0] == '-' && AllDigits(s[1..]) && s[1] != '0' then Some(-(DigitsValue(s[1..]) as int))
    else if |s| >= 1 && AllDigits(s) && (s[0] != '0' || |s| == 1) then Some(DigitsValue(s))
    else None
  }

  lemma {:induction false} NatToStringValue(n: nat)
    ensures DigitsValue(NatToString(n)) == n
  {
    if n >= 10 {
      NatToStringValue(n / 10);
      var s := NatToString(n);
      assert s[..|s| - 1] == NatToString(n / 10);
    }
  }

  /** Rendering an integer and parsing it back gives the integer again. */
  lemma ParseIntToString(n: int)
    ensures ParseInt(IntToString(n)) == Some(n)
  {
    var s := IntToString(n);
    if n < 0 {
      var m := NatToString(-n);
      NatToStringValue(-n);
      assert s == "-" + m && s[1..] == m;
      assert |s| >= 2 && s[0] == '-' && AllDigits(s[1..]) && s[1] != '0';
    } else {
      NatToStringValue(n);
      assert !IsDigit('-');
      assert s[0] != '-';
      assert n == 0 ==> s == "0";
    }
  }

  lemma IntToStringInjective(a: int, b: int)
    requires IntToString(a) == IntToString(b)
    ensures a == b
  {
    ParseIntToString(a);
    ParseIntToString(b);
  }

  /** A year from 1000 to 9999 is rendered with exactly four digits. */
  lemma FourDigits(n: nat)
    requires 1000 <= n <= 9999
    ensures |IntToString(n)| == 4
  {
    assert |NatToString(n / 1000)| == 1;
    assert (n / 10) / 10 == n / 100 && (n / 100) / 10 == n / 1000;
    assert |NatToString(n / 100)| == 2;
    assert |NatToString(n / 10)| == 3;
  }

  /** String.prototype.padStart(target, fill) with a one-character fill string. */
  function PadStart(s: string, target: nat, fill: char): string
  {
    if |s| >= target then s else seq(target - |s|, _ => fill) + s
  }

  /** padStart reaches the target length (or keeps s if longer), ends with s and is
      filled in front with the fill character. */
  lemma PadStartShape(s: string, target: nat, fill: char)
    ensures var r := PadStart(s, target, fill);
      && |r| == (if |s| < target then target else |s|)
      && r[|r| - |s|..] == s
      && forall i :: 0 <= i < |r| - |s| ==> r[i] == fill
  {
    var r := PadStart(s, target, fill);
    if |s| < target {
      assert r[|r| - |s|..] == s;
    }
  }

  /** The two-digit decimal rendering of 0..99: tens digit, then units digit. */
  function TwoDigits(v: nat): (s: string)
    requires v < 100
  {
    [DigitChar(v / 10), DigitChar(v % 10)]
  }

  /** padStart(2, "0") of a number below 100 is its two-digit rendering. */
  lemma PadStartTwoDigits(v: nat)
    requires v < 100
    ensures PadStart(NatToString(v), 2, '0') == TwoDigits(v)
  {
    if v < 10 {
      assert NatToString(v) == [DigitChar(v)];
      var r := PadStart([DigitChar(v)], 2, '0');
      assert |r| == 2 && r[0] == '0' && r[1] == DigitChar(v);
      assert DigitChar(0) == '0' && v / 10 == 0 && v % 10 == v;
    } else {
      assert NatToString(v / 10) == [DigitChar(v / 10)];
      assert NatToString(v) == [DigitChar(v / 10), DigitChar(v % 10)];
    }
  }

  /** Ordinal comparison: s sorts strictly before t, comparing code units from the left. */
  predicate LexLess(s: string, t: string)
  {
    if s == [] then t != []
    else if t == [] then false
    else s[0] < t[0] || (s[0] == t[0] && LexLess(s[1..], t[1..]))
  }

  lemma {:induction false} LexLessIrreflexive(s: string)
    ensures !LexLess(s, s)
  {
    if s != [] {
      LexLessIrreflexive(s[1..]);
    }
  }

  lemma {:induction false} LexLessTransitive(s: string, t: string, u: string)
    requires LexLess(s, t) && LexLess(t, u)
    ensures LexLess(s, u)
  {
    if s != [] && t != [] && u != [] && s[0] == t[0] == u[0] {
      LexLessTransitive(s[1..], t[1..], u[1..]);
    }
  }

  lemma {:induction false} LexLessTotal(s: string, t: string)
    ensures s == t || LexLess(s, t) || LexLess(t, s)
  {
    if s != [] && t != [] && s[0] == t[0] {
      LexLessTotal(s[1..], t[1..]);
      if s[1..] == t[1..] {
        assert s == [s[0]] + s[1..] && t == [t[0]] + t[1..];
      }
    }
  }

  lemma LexLessAsymmetric(s: string, t: string)
    requires LexLess(s, t)
    ensures !LexLess(t, s)
  {
    if LexLess(t, s) {
      LexLessTransitive(s, t, s);
      LexLessIrreflexive(s);
    }
  }

  /** Comparing two concatenations whose first parts have equal length compares
      the first parts, and only when they are equal, the second parts. */
  lemma {:induction false} LexLessConcat(p: string, q: string, p': string, q': string)
    requires |p| == |p'|
    ensures LexLess(p + q, p' + q') <==> LexLess(p, p') || (p == p' && LexLess(q, q'))
  {
    if p != [] {
      assert (p + q)[1..] == p[1..] + q && (p' + q')[1..] == p'[1..] + q';
      LexLessConcat(p[1..], q, p'[1..], q');
      if p[0] == p'[0] && p[1..] == p'[1..] {
        assert p == [p[0]] + p[1..] && p' == [p'[0]] + p'[1..];
      }
    } else {
      assert p + q == q && p' + q' == q';
    }
  }

  /** On digit strings of equal length, ordinal order is numeric order. */
  lemma {:induction false} LexLessDigits(s: string, t: string)
    requires |s| == |t| && AllDigits(s) && AllDigits(t)
    ensures LexLess(s, t) <==> DigitsValue(s) < DigitsValue(t)
    ensures s == t <==> DigitsValue(s) == DigitsValue(t)
  {
    if s != [] {
      var n := |s| - 1;
      var s0, t0 := s[..n], t[..n];
      LexLessDigits(s0, t0);
      assert s == s0 + [s[n]] && t == t0 + [t[n]];
      LexLessConcat(s0, [s[n]], t0, [t[n]]);
      LexLessTotal(s0, t0);
      if LexLess(s0, t0) {
        LexLessAsymmetric(s0, t0);
      }
      if LexLess(t0, s0) {
        LexLessAsymmetric(t0, s0);
      }
    }
  }
}
