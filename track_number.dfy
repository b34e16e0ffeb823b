/** The position prefix of a renamed file: `f"{n:02d}_"`, the decimal form of
    `n` left-padded with zeros to at least two digits, followed by `_`. */
module TrackNumber {

  predicate IsDigit(c: char) {
    '0' <= c <= '9'
  }

  predicate AllDigits(s: string) {
    forall k :: 0 <= k < |s| ==> IsDigit(s[k])
  }

  function DigitChar(d: nat): (c: char)
    requires d < 10
    ensures IsDigit(c)
  {
    ('0' as int + d) as char
  }

  function DigitValue(c: char): (d: nat)
    requires IsDigit(c)
    ensures d < 10 && DigitChar(d) == c
  {
    c as int - '0' as int
  }

  /** Decimal notation of `n`, without leading zeros. */
  function Decimal(n: nat): (s: string)
    ensures 1 <= |s|
    ensures AllDigits(s)
    ensures s[0] == '0' ==> n == 0
    decreases n
  {
    if n < 10 then [DigitChar(n)] else Decimal(n / 10) + [DigitChar(n % 10)]
  }

  /** The value of a string of decimal digits; the empty string reads as 0. */
  function ParseDecimal(s: string): (n: nat)
    requires AllDigits(s)
    decreases |s|
  {
    if s == [] then 0 else 10 * ParseDecimal(s[..|s| - 1]) + DigitValue(s[|s| - 1])
  }

  lemma {:induction false} ParseDecimalOfDecimal(n: nat)
    ensures ParseDecimal(Decimal(n)) == n
    decreases n
  {
    if n >= 10 {
      var s := Decimal(n);
      assert s[..|s| - 1] == Decimal(n / 10);
      ParseDecimalOfDecimal(n / 10);
    }
  }

  /** Leading zeros do not change the value read. */
  lemma {:induction false} ParseLeadingZero(s: string)
    requires AllDigits(s)
    ensures AllDigits("0" + s) && ParseDecimal("0" + s) == ParseDecimal(s)
    decreases |s|
  {
    if s != [] {
      var z := "0" + s;
      assert z[..|z| - 1] == "0" + s[..|s| - 1];
      ParseLeadingZero(s[..|s| - 1]);
    }
  }

  /** One digit exactly below 10, at most two exactly below 100: the width
      of the decimal form grows with `n` and never saturates. */
  lemma {:induction false} DecimalWidth(n: nat)
    ensures |Decimal(n)| == 1 <==> n < 10
    ensures |Decimal(n)| <= 2 <==> n < 100
    decreases n
  {
    if n >= 10 {
      DecimalWidth(n / 10);
    }
  }

  /** `f"{n:02d}_"`. */
  function Prefix(n: nat): (p: string) {
    var d := Decimal(n);
    (if |d| < 2 then "0" + d else d) + "_"
  }

  /** The digits of the prefix: the prefix without its final `_`. */
  function PrefixDigits(n: nat): (digits: string) {
    var d := Decimal(n);
    if |d| < 2 then "0" + d else d
  }

  /** The prefix is its digits then `_`; it has exactly three characters for
      1..99 (`01_` .. `99_`), and from 100 on it carries the full decimal form,
      so it is never truncated; the digits read back as `n`. */
  lemma PrefixShape(n: nat)
    ensures Prefix(n) == PrefixDigits(n) + "_"
    ensures AllDigits(PrefixDigits(n))
    ensures ParseDecimal(PrefixDigits(n)) == n
    ensures n < 100 ==> |PrefixDigits(n)| == 2
    ensures n < 10 ==> PrefixDigits(n) == "0" + Decimal(n)
    ensures n >= 10 ==> PrefixDigits(n) == Decimal(n)
    ensures n >= 100 ==> |PrefixDigits(n)| >= 3
  {
    DecimalWidth(n);
    ParseDecimalOfDecimal(n);
    if |Decimal(n)| < 2 {
      ParseLeadingZero(Decimal(n));
    }
  }

  /** In a name that starts with a prefix, the `_` that ends the prefix is the
      first `_` of the name, so a shorter prefix cannot start the same name. */
  lemma PrefixEndsAtFirstUnderscore(a: nat, b: nat, x: string, y: string)
    requires Prefix(a) + x == Prefix(b) + y
    ensures |Prefix(a)| <= |Prefix(b)| ==> |Prefix(a)| == |Prefix(b)|
  {
    PrefixShape(a);
    PrefixShape(b);
    var p, q := Prefix(a), Prefix(b);
    if |p| <= |q| {
      var i := |p| - 1;
      assert (q + y)[i] == (p + x)[i] == '_';
      assert q[i] == '_';
      assert forall k :: 0 <= k < |q| - 1 ==> q[k] == PrefixDigits(b)[k];
    }
  }

  /** A name starting with a prefix determines the position and the rest. */
  lemma PrefixInjective(a: nat, b: nat, x: string, y: string)
    requires Prefix(a) + x == Prefix(b) + y
    ensures a == b && x == y
  {
    PrefixShape(a);
    PrefixShape(b);
    PrefixEndsAtFirstUnderscore(a, b, x, y);
    PrefixEndsAtFirstUnderscore(b, a, y, x);
    var p, q := Prefix(a), Prefix(b);
    assert p == (p + x)[..|p|] == (q + y)[..|q|] == q;
    assert PrefixDigits(a) == p[..|p| - 1] == q[..|q| - 1] == PrefixDigits(b);
    assert x == (p + x)[|p|..] == (q + y)[|q|..] == y;
  }

  lemma PrefixExamples()
    ensures Prefix(1) == "01_"
    ensures Prefix(9) == "09_"
    ensures Prefix(10) == "10_"
    ensures Prefix(99) == "99_"
    ensures Prefix(100) == "100_"
  {
    assert Decimal(100) == Decimal(10) + ['0'];
    assert Decimal(99) == Decimal(9) + ['9'];
    assert Decimal(10) == Decimal(1) + ['0'];
  }
}
