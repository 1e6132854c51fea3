// Decimal rendering of integers as Python's str() and f"{i:04d}" produce it,
// the value of a digit string (the inverse), and Python's int() on a string.
module Numerals {
  import opened Outcomes
  import Strings

  predicate IsDigit(c: char) {
    '0' <= c <= '9'
  }

  predicate AllDigits(s: string) {
    forall i :: 0 <= i < |s| ==> IsDigit(s[i])
  }

  function DigitChar(d: nat): (c: char)
    requires d < 10
    ensures IsDigit(c)
  {
    ('0' as int + d) as char
  }

  function DigitValue(c: char): (d: nat)
    requires IsDigit(c)
    ensures d < 10 && DigitChar(d) == c
  {
    c as int - '0' as int
  }

  function Pow10(k: nat): (p: nat)
    ensures p > 0
  {
    if k == 0 then 1 else 10 * Pow10(k - 1)
  }

  /** The number a digit string denotes, most significant digit first. */
  function ValueOf(s: string): nat
    requires AllDigits(s)
  {
    if |s| == 0 then 0 else DigitValue(s[0]) * Pow10(|s| - 1) + ValueOf(s[1..])
  }

  /** str(n) for a natural number: its decimal digits without leading zeros. */
  function Decimal(n: nat): (r: string)
    ensures |r| > 0 && AllDigits(r)
    ensures r[0] == '0' ==> n == 0
  {
    if n < 10 then [DigitChar(n)] else Decimal(n / 10) + [DigitChar(n % 10)]
  }

  function Zeros(k: nat): (r: string)
    ensures |r| == k && AllDigits(r)
    ensures forall i :: 0 <= i < k ==> r[i] == '0'
  {
    if k == 0 then "" else "0" + Zeros(k - 1)
  }

  /** Python's format spec "0<width>d" on a natural number: zeros on the left up to width. */
  function ZeroPad(n: nat, width: nat): (r: string)
    ensures AllDigits(r)
  {
    var d := Decimal(n);
    if |d| >= width then d else Zeros(width - |d|) + d
  }

  /** str(n) for any integer. */
  function IntToString(n: int): string {
    if n < 0 then "-" + Decimal(-n) else Decimal(n)
  }

  /**
   * int(s) for a string: surrounding white space is ignored, an optional sign
   * is accepted, then at least one decimal digit; anything else is an error.
   */
  function ParseInt(s: string): (r: Option<int>)
    ensures r.Some? ==> AllDigits(Strings.Strip(s)) || Strings.Strip(s)[0] in "+-"
  {
    var t := Strings.Strip(s);
    if |t| > 0 && AllDigits(t) then Some(ValueOf(t))
    else if |t| > 1 && t[0] == '-' && AllDigits(t[1..]) then Some(-(ValueOf(t[1..]) as int))
    else if |t| > 1 && t[0] == '+' && AllDigits(t[1..]) then Some(ValueOf(t[1..]))
    else None
  }

  // ---------------------------------------------------------------------
  // Lemmas: value of digit strings, the decimal round trip, padding

  lemma {:induction false} ValueOfSnoc(s: string, c: char)
    requires AllDigits(s) && IsDigit(c)
    ensures AllDigits(s + [c])
    ensures ValueOf(s + [c]) == ValueOf(s) * 10 + DigitValue(c)
    decreases |s|
  {
    if |s| > 0 {
      assert (s + [c])[1..] == s[1..] + [c];
      ValueOfSnoc(s[1..], c);
      var d, p := DigitValue(s[0]), Pow10(|s| - 1);
      assert Pow10(|s|) == 10 * p;
      assert ValueOf(s + [c]) == d * (10 * p) + ValueOf(s[1..] + [c]);
      Regroup(d, p, ValueOf(s[1..]), DigitValue(c));
    } else {
      assert s + [c] == [c];
    }
  }

  lemma Regroup(d: nat, p: nat, v: nat, c: nat)
    ensures d * (10 * p) + (v * 10 + c) == (d * p + v) * 10 + c
  {
  }

  /** Reading back str(n) gives n. */
  lemma {:induction false} DecimalRoundTrip(n: nat)
    ensures ValueOf(Decimal(n)) == n
    decreases n
  {
    if n >= 10 {
      DecimalRoundTrip(n / 10);
      ValueOfSnoc(Decimal(n / 10), DigitChar(n % 10));
    }
  }

  /** Leading zeros do not change the value. */
  lemma {:induction false} ValueOfLeadingZeros(k: nat, s: string)
    requires AllDigits(s)
    ensures AllDigits(Zeros(k) + s) && ValueOf(Zeros(k) + s) == ValueOf(s)
    decreases k
  {
    if k > 0 {
      assert (Zeros(k) + s)[1..] == Zeros(k - 1) + s;
      ValueOfLeadingZeros(k - 1, s);
    } else {
      assert Zeros(k) + s == s;
    }
  }

  /** str(n) is a digit string, after a minus sign when n is negative, that denotes n. */
  lemma IntToStringDigits(n: int)
    ensures var x := IntToString(n);
      && x != [] && !Strings.IsSpace(x[0]) && !Strings.IsSpace(x[|x| - 1])
      && (n >= 0 ==> AllDigits(x) && ValueOf(x) == n)
      && (n < 0 ==> x[0] == '-' && !AllDigits(x) && x[1..] == Decimal(-n) && ValueOf(x[1..]) == -n)
  {
    var m: nat := if n < 0 then -n else n;
    var d := Decimal(m);
    DecimalRoundTrip(m);
    assert !Strings.IsSpace(d[0]) && !Strings.IsSpace(d[|d| - 1]);
    if n < 0 {
      var x := "-" + d;
      assert x[1..] == d;
      assert !IsDigit(x[0]);
    }
  }

  /**
   * int() reads str(n) back as n, also when white space surrounds it:
   * int(" 7 ") == 7 and int("-12") == -12.
   */
  lemma ParseIntRoundTrip(n: int, a: string, b: string)
    requires Strings.AllSpace(a) && Strings.AllSpace(b)
    ensures ParseInt(a + IntToString(n) + b) == Some(n)
  {
    IntToStringDigits(n);
    Strings.StripPadded(a, IntToString(n), b);
  }

  /** Zero padding keeps the value: the padded run id still denotes n. */
  lemma ZeroPadRoundTrip(n: nat, width: nat)
    ensures ValueOf(ZeroPad(n, width)) == n
  {
    DecimalRoundTrip(n);
    var d := Decimal(n);
    if |d| < width {
      ValueOfLeadingZeros(width - |d|, d);
    }
  }

  lemma MulMonotone(a: nat, b: nat, p: nat)
    requires a <= b
    ensures a * p <= b * p
  {
  }

  lemma {:induction false} ValueOfBound(s: string)
    requires AllDigits(s)
    ensures ValueOf(s) < Pow10(|s|)
    decreases |s|
  {
    if |s| > 0 {
      ValueOfBound(s[1..]);
      var d, p := DigitValue(s[0]), Pow10(|s| - 1);
      MulMonotone(d + 1, 10, p);
      assert (d + 1) * p == d * p + p;
    }
  }

  /** A number below 10^k has at most k decimal digits. */
  lemma {:induction false} DecimalLength(n: nat, k: nat)
    requires k > 0 && n < Pow10(k)
    ensures |Decimal(n)| <= k
    decreases n
  {
    if n >= 10 {
      assert k > 1;
      DecimalLength(n / 10, k - 1);
    }
  }

  /** A number of at least 10^k has more than k decimal digits. */
  lemma {:induction false} DecimalLengthAtLeast(n: nat, k: nat)
    requires n >= Pow10(k)
    ensures |Decimal(n)| > k
    decreases k
  {
    if k > 0 {
      DecimalLengthAtLeast(n / 10, k - 1);
    }
  }

  /** The width-wide padding of any n below 10^width is exactly width digits long. */
  lemma ZeroPadLength(n: nat, width: nat)
    requires width > 0 && n < Pow10(width)
    ensures |ZeroPad(n, width)| == width
  {
    DecimalLength(n, width);
  }

  /** Comparing equal-length digit strings by value starts at the leading digit. */
  lemma LeadingDigitOrder(a: string, b: string)
    requires AllDigits(a) && AllDigits(b) && |a| == |b| > 0
    requires ValueOf(a) < ValueOf(b)
    ensures DigitValue(a[0]) <= DigitValue(b[0])
    ensures DigitValue(a[0]) == DigitValue(b[0]) ==> ValueOf(a[1..]) < ValueOf(b[1..])
  {
    var p := Pow10(|a| - 1);
    ValueOfBound(b[1..]);
    ValueOfBound(a[1..]);
    PlaceValueOrder(DigitValue(a[0]), DigitValue(b[0]), p, ValueOf(a[1..]), ValueOf(b[1..]));
  }

  /** Two-digit place-value comparison: a*p + ra < b*p + rb with remainders below p. */
  lemma PlaceValueOrder(da: nat, db: nat, p: nat, ra: nat, rb: nat)
    requires ra < p && rb < p
    requires da * p + ra < db * p + rb
    ensures da <= db
    ensures da == db ==> ra < rb
  {
    if da > db {
      MulMonotone(db + 1, da, p);
      DistributeOne(db, p);
    }
  }

  lemma DistributeOne(a: nat, p: nat)
    ensures (a + 1) * p == a * p + p
  {
  }

  /**
   * For digit strings of equal length, the string order agrees with the
   * numeric order, whatever follows them.
   */
  lemma {:induction false} DigitOrder(a: string, b: string, x: string, y: string)
    requires AllDigits(a) && AllDigits(b) && |a| == |b|
    requires ValueOf(a) < ValueOf(b)
    ensures Strings.LexLess(a + x, b + y)
    decreases |a|
  {
    LeadingDigitOrder(a, b);
    var u, v := a + x, b + y;
    assert u[0] == a[0] && v[0] == b[0];
    if a[0] == b[0] {
      assert u[1..] == a[1..] + x;
      assert v[1..] == b[1..] + y;
      DigitOrder(a[1..], b[1..], x, y);
    } else {
      assert a[0] < b[0];
    }
  }
  /** Different integers print differently. */
  lemma IntToStringInjective(i: int, j: int)
    requires IntToString(i) == IntToString(j)
    ensures i == j
  {
    if i < 0 && j < 0 {
      assert Decimal(-i) == IntToString(i)[1..] == IntToString(j)[1..] == Decimal(-j);
      DecimalRoundTrip(-i);
      DecimalRoundTrip(-j);
    } else if i >= 0 && j >= 0 {
      DecimalRoundTrip(i);
      DecimalRoundTrip(j);
    }
  }
}
