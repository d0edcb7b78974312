// Positional renderings of unsigned numbers: the decimal form that
// monitor_write_dec prints and that the "%u" of the default thread and
// process names produces, and the hexadecimal form of monitor_write_hex
// (lower-case digits, no leading zeros).

module Format {

  /** The digit for `d`: '0'-'9', then 'a'-'f'. */
  function DigitChar(d: nat): (c: char)
    requires d < 16
    ensures '0' <= c <= '9' || 'a' <= c <= 'f'
    ensures (c == '0') == (d == 0)
  {
    if d < 10 then (48 + d) as char else (97 + d - 10) as char
  }

  /** The value of a digit character (0 for anything else). */
  function DigitValue(c: char): (d: nat)
    ensures d < 16
  {
    if '0' <= c <= '9' then c as int - 48
    else if 'a' <= c <= 'f' then c as int - 97 + 10
    else 0
  }

  lemma DigitRoundTrip(d: nat)
    requires d < 16
    ensures DigitValue(DigitChar(d)) == d
  {
  }

  /** Whether `c` is one of the first `base` digits. */
  predicate IsDigit(c: char, base: nat)
  {
    ('0' <= c <= '9' || 'a' <= c <= 'f') && DigitValue(c) < base
  }

  /** Quotient and remainder of a division by a digit base. */
  lemma DivMod(n: nat, base: nat)
    requires 2 <= base <= 16
    ensures n == base * (n / base) + n % base
    ensures n % base < base
    ensures n >= base ==> 1 <= n / base < n
  {
    if n >= base {
      var q := n / base;
      assert base * q >= 2 * q;
    }
  }

  /** The digits of `n` in `base`, most significant first, without leading
      zeros; 0 is the single digit "0". */
  function Digits(n: nat, base: nat): (s: string)
    requires 2 <= base <= 16
    ensures |s| >= 1
    ensures s[0] == '0' <==> n == 0
    ensures n < base ==> |s| == 1
    ensures forall i :: 0 <= i < |s| ==> IsDigit(s[i], base)
    decreases n
  {
    DivMod(n, base);
    if n < base then [DigitChar(n)] else Digits(n / base, base) + [DigitChar(n % base)]
  }

  function Decimal(n: nat): (s: string)
    ensures |s| >= 1
  {
    Digits(n, 10)
  }

  function Hex(n: nat): (s: string)
    ensures |s| >= 1
  {
    Digits(n, 16)
  }

  /** The number a digit string denotes in `base`. */
  function Value(s: string, base: nat): (v: nat)
    decreases |s|
  {
    if s == [] then 0 else Value(s[..|s| - 1], base) * base + DigitValue(s[|s| - 1])
  }

  /** Appending a digit multiplies by the base and adds the digit. */
  lemma ValueSnoc(p: string, c: char, base: nat)
    ensures Value(p + [c], base) == Value(p, base) * base + DigitValue(c)
  {
    assert (p + [c])[..|p|] == p;
  }

  /** Reading the digits back gives the number. */
  lemma {:induction false} DigitsRoundTrip(n: nat, base: nat)
    requires 2 <= base <= 16
    ensures Value(Digits(n, base), base) == n
    decreases n
  {
    if n < base {
      DigitRoundTrip(n);
      ValueSnoc([], DigitChar(n), base);
    } else {
      DivMod(n, base);
      DigitsRoundTrip(n / base, base);
      DigitsStep(n, base);
    }
  }

  /** The last digit is the remainder, so once the other digits read back
      as the quotient, all of them read back as the number. */
  lemma DigitsStep(n: nat, base: nat)
    requires 2 <= base <= 16
    requires n >= base
    requires Value(Digits(n / base, base), base) == n / base
    ensures Value(Digits(n, base), base) == n
  {
    var q, d := n / base, n % base;
    DivMod(n, base);
    assert Digits(n, base) == Digits(q, base) + [DigitChar(d)];
    ValueSnoc(Digits(q, base), DigitChar(d), base);
    DigitRoundTrip(d);
    assert Value(Digits(n, base), base) == q * base + d;
  }

  /** Distinct numbers have distinct renderings (so default names differ). */
  lemma DigitsInjective(m: nat, n: nat, base: nat)
    requires 2 <= base <= 16
    requires m != n
    ensures Digits(m, base) != Digits(n, base)
  {
    DigitsRoundTrip(m, base);
    DigitsRoundTrip(n, base);
  }

  /** Multiplying by a positive number keeps a strict order, with room to spare. */
  lemma MulStep(d: nat, x: nat, y: nat)
    requires x > y
    ensures d * x >= d * y + d
  {
    var k := x - y;
    assert d * x == d * y + d * k;
    assert d * k == d * (k - 1) + d;
    assert d * (k - 1) >= 0;
  }

  /** A quotient is determined by any exact decomposition. */
  lemma DivUnique(n: nat, d: nat, q: nat, r: nat)
    requires d > 0 && r < d && n == d * q + r
    ensures n / d == q && n % d == r
  {
    var q' := n / d;
    if q' > q {
      MulStep(d, q', q);
    } else if q' < q {
      MulStep(d, q, q');
    }
  }

  /** Dividing twice is dividing by the product. */
  lemma DivDiv(n: nat, a: nat, b: nat)
    requires a > 0 && b > 0
    ensures n / (a * b) == n / a / b
  {
    var q := n / a / b;
    var r := n / a % b;
    var t := n % a;
    assert n / a == b * q + r;
    assert n == a * (n / a) + t;
    assert a * (b * q + r) == (a * b) * q + a * r;
    MulStep(a, b, r);
    DivUnique(n, a * b, q, a * r + t);
  }
}
