/** Exact decimal arithmetic as far as the rounding modifiers use Python's
    `decimal` module: parsing a plain fixed-point literal, `quantize` with
    ROUND_HALF_EVEN or ROUND_DOWN, and `str()` of the quantized result. */
module Decimals {
  import opened Wrappers
  import opened Text

  datatype Rounding = HalfEven | Down

  /** (-1)^negative * coefficient / 10^exponent.  The sign is kept for a zero
      coefficient, as Decimal keeps it, so "-0.4" rounds to "-0". */
  datatype Dec = Dec(negative: bool, coefficient: nat, exponent: nat)

  function Dist(x: int, y: int): nat
  {
    if x >= y then x - y else y - x
  }

  /** Rounds the magnitude n / q to an integer.  Decimal rounding is symmetric
      about zero, so working on magnitudes and keeping the sign apart is exact. */
  function RoundDiv(n: nat, q: nat, mode: Rounding): (r: nat)
    requires q > 0
    ensures mode == Down ==> r * q <= n < (r + 1) * q
    ensures mode == HalfEven ==> 2 * Dist(r * q, n) <= q
    ensures mode == HalfEven && 2 * Dist(r * q, n) == q ==> r % 2 == 0
  {
    var a := n / q;
    var b := n % q;
    QuotientNeighbours(n, q, a, b);
    match mode
    case Down => a
    case HalfEven =>
      if 2 * b < q then a
      else if 2 * b > q then a + 1
      else if a % 2 == 0 then a
      else a + 1
  }

  /** n lies between the two multiples of q around it, at distances n % q and q - n % q. */
  lemma QuotientNeighbours(n: nat, q: nat, a: nat, b: nat)
    requires q > 0 && a == n / q && b == n % q
    ensures a * q <= n < (a + 1) * q
    ensures Dist(a * q, n) == b
    ensures Dist((a + 1) * q, n) == q - b
  {
    assert n == a * q + b;
    assert (a + 1) * q == a * q + q;
  }

  /** Half-even rounding picks a nearest integer: no other candidate is closer. */
  lemma RoundHalfEvenNearest(n: nat, q: nat, m: nat)
    requires q > 0
    ensures Dist(RoundDiv(n, q, HalfEven) * q, n) <= Dist(m * q, n)
  {
    var a := n / q;
    QuotientNeighbours(n, q, a, n % q);
    if m < a {
      MulMono(m + 1, a, q);
      assert (m + 1) * q == m * q + q;
    } else if m > a + 1 {
      MulMono(a + 2, m, q);
      assert (a + 2) * q == (a + 1) * q + q;
    }
  }

  lemma MulMono(a: nat, b: nat, q: nat)
    requires a <= b
    ensures a * q <= b * q
  {
  }

  function Pow10(k: nat): (r: nat)
    ensures r >= 1
  {
    Pow10Nat(k)
  }

  // ---------------------------------------------------------------- Decimal(text)

  /** Decimal(s) for the texts the numeric patterns admit once commas are gone:
      an optional minus, then an unsigned literal. */
  function ParseDecimal(s: string): (r: Option<Dec>)
    ensures r.Some? ==> r.value.negative == (|s| > 0 && s[0] == '-')
  {
    var negative := |s| > 0 && s[0] == '-';
    match ParseUnsigned(if negative then s[1..] else s)
    case None => None
    case Some((c, e)) => Some(Dec(negative, c, e))
  }

  /** Digits with at most one point and at least one digit: the coefficient and
      the number of digits after the point. */
  function ParseUnsigned(body: string): Option<(nat, nat)>
  {
    var (intPart, _, fracPart) := Partition(body, '.');
    if '.' !in fracPart && AllDigits(intPart + fracPart) && |intPart| + |fracPart| > 0 then
      Some((DigitsValue(intPart + fracPart), |fracPart|))
    else None
  }

  // ---------------------------------------------------------------- str(Decimal)

  function Zeros(k: nat): (r: string)
    ensures |r| == k && forall i :: 0 <= i < k ==> r[i] == '0'
  {
    if k == 0 then "" else "0" + Zeros(k - 1)
  }

  /** The digits of c widened with leading zeros to at least `width` places. */
  function PadDigits(c: nat, width: nat): (r: string)
    ensures |r| >= width && AllDigits(r) && DigitsValue(r) == c
  {
    var ds := NatToDigits(c);
    if |ds| < width then
      DigitsValueLeadingZeros(Zeros(width - |ds|), ds);
      Zeros(width - |ds|) + ds
    else ds
  }

  /** str() of a Decimal with coefficient c and exponent -d, in fixed-point form. */
  function FormatFixed(negative: bool, c: nat, d: nat): string
  {
    (if negative then "-" else "") + FixedDigits(c, d)
  }

  /** The unsigned part: the padded digits, with a point d places from the right. */
  function FixedDigits(c: nat, d: nat): (r: string)
    ensures |r| > 0 && IsDigit(r[0])
  {
    var ds := PadDigits(c, d + 1);
    if d == 0 then ds else ds[..|ds| - d] + "." + ds[|ds| - d..]
  }

  /** Printing a quantized value and reading it back gives the same sign,
      coefficient and number of fraction digits. */
  lemma FormatParseRoundTrip(negative: bool, c: nat, d: nat)
    ensures ParseDecimal(FormatFixed(negative, c, d)) == Some(Dec(negative, c, d))
  {
    var body := FixedDigits(c, d);
    var s := FormatFixed(negative, c, d);
    if negative {
      assert s[1..] == body;
    } else {
      assert s == body;
    }
    FixedDigitsRoundTrip(c, d);
  }

  lemma FixedDigitsRoundTrip(c: nat, d: nat)
    ensures ParseUnsigned(FixedDigits(c, d)) == Some((c, d))
  {
    var ds := PadDigits(c, d + 1);
    if d == 0 {
      assert FixedDigits(c, d) == ds;
      UnsignedWithoutPoint(ds);
    } else {
      var x, y := ds[..|ds| - d], ds[|ds| - d..];
      assert FixedDigits(c, d) == x + "." + y;
      AllDigitsSplit(ds, |ds| - d);
      UnsignedWithPoint(x, y);
    }
  }

  lemma UnsignedWithoutPoint(ds: string)
    requires |ds| > 0 && AllDigits(ds)
    ensures ParseUnsigned(ds) == Some((DigitsValue(ds), 0))
  {
    NonDigitAbsent(ds, '.');
    assert ds + "" == ds;
  }

  lemma UnsignedWithPoint(x: string, y: string)
    requires |x| > 0 && AllDigits(x) && AllDigits(y)
    ensures AllDigits(x + y)
    ensures ParseUnsigned(x + "." + y) == Some((DigitsValue(x + y), |y|))
  {
    NonDigitAbsent(x, '.');
    NonDigitAbsent(y, '.');
    DigitsValueConcat(x, y);
    PartitionAt(x, '.', y);
  }
}
