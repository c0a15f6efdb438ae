/**
 * Tree values of the layouts crate (`layouts/src/value/mod.rs`): exact
 * rational numbers and their decimal representation, untyped and typed
 * tree values, and the conversion of an untyped value to JSON.
 */
module Values {
  import opened Wrappers

  /** An exact rational number `num / den`; as in a big rational, the
    * denominator is positive and the fraction is in lowest terms. */
  datatype Number = Number(num: int, den: nat)

  predicate ValidNumber(n: Number) {
    n.den > 0 && Gcd(Abs(n.num), n.den) == 1
  }

  /** The number an integer converts to. */
  function FromInteger(i: int): (r: Number)
    ensures ValidNumber(r) && r.num == i * r.den
  {
    Number(i, 1)
  }

  predicate IsInteger(n: Number) {
    n.den == 1
  }

  /** In lowest terms, a number is an integer exactly when its denominator
    * divides its numerator. */
  lemma IntegerIffDivides(n: Number)
    requires ValidNumber(n)
    ensures IsInteger(n) <==> Divides(n.den, n.num)
  {
    if Divides(n.den, n.num) {
      DividesAbs(n.den, n.num);
      DividesBy(n.den, n.den, 1);
      GcdGreatest(Abs(n.num), n.den, n.den);
      DividesOne(n.den);
    }
  }

  /** Adding a whole multiple of one keeps a number in lowest terms. */
  lemma ShiftKeepsLowest(n: Number, k: int)
    requires ValidNumber(n)
    ensures ValidNumber(Number(n.num + k * n.den, n.den))
  {
    var x := n.num + k * n.den;
    var g := Gcd(Abs(x), n.den);
    GcdDivides(Abs(x), n.den);
    DividesAbs(g, x);
    DividesCombination(g, x, n.den, k);
    assert x - n.den * k == n.num;
    DividesAbs(g, n.num);
    GcdGreatest(Abs(n.num), n.den, g);
    DividesOne(g);
  }

  /** The integer a number is, when it is one. */
  function AsInteger(n: Number): (r: Option<int>)
    ensures r.Some? <==> IsInteger(n)
    ensures r.Some? ==> r.value * n.den == n.num
  {
    if n.den == 1 then Some(n.num) else None
  }

  /** An integer converted to a number converts back; a number that is an
    * integer is the conversion of that integer. */
  lemma AsIntegerRoundTrip(i: int, n: Number)
    ensures AsInteger(FromInteger(i)) == Some(i)
    ensures AsInteger(n).Some? ==> FromInteger(AsInteger(n).value) == n
  {
  }

  function Abs(i: int): nat {
    if i < 0 then -i else i
  }

  // Divisibility and lowest terms

  /** The greatest common divisor, by Euclid's algorithm. */
  function Gcd(a: nat, b: nat): nat
    decreases b
  {
    if b == 0 then a else Gcd(b, a % b)
  }

  /** `d` divides `x`. */
  predicate Divides(d: nat, x: int) {
    d > 0 && x % d == 0
  }

  /** A positive product is at least either factor. */
  lemma MulAtLeast(d: int, m: int)
    requires d > 0 && m > 0
    ensures d * m >= d
  {
    assert d * m == d * (m - 1) + d;
  }

  /** A multiple of `d` is divisible by it. */
  lemma DividesBy(d: nat, x: int, k: int)
    requires d > 0 && x == d * k
    ensures Divides(d, x)
  {
    var q, r := x / d, x % d;
    assert d * (k - q) == r;
    if k - q > 0 {
      MulAtLeast(d, k - q);
    } else if k - q < 0 {
      MulAtLeast(d, q - k);
    }
  }

  /** A divisor of `a` and `b` divides `a - b * k`. */
  lemma DividesCombination(d: nat, a: int, b: int, k: int)
    requires Divides(d, a) && Divides(d, b)
    ensures Divides(d, a - b * k)
  {
    var p, q := a / d, b / d;
    assert b * k == d * (q * k);
    DividesBy(d, a - b * k, p - q * k);
  }

  /** Divisibility does not see the sign. */
  lemma DividesAbs(d: nat, x: int)
    requires d > 0
    ensures Divides(d, x) <==> Divides(d, Abs(x))
  {
    if Divides(d, x) {
      DividesBy(d, Abs(x), if x < 0 then -(x / d) else x / d);
    }
    if Divides(d, Abs(x)) {
      DividesBy(d, x, if x < 0 then -(Abs(x) / d) else Abs(x) / d);
    }
  }

  /** The only divisor of 1 is 1. */
  lemma DividesOne(d: nat)
    requires Divides(d, 1)
    ensures d == 1
  {
  }

  /** A factor of a positive number by a positive one is positive. */
  lemma PositiveFactor(g: int, q: int)
    requires g > 0 && g * q > 0
    ensures q > 0
  {
    if q <= 0 {
      MulAtLeast(g, 1 - q);
    }
  }

  /** A multiple `h * g` of `g` divides `g` only for `h` = 1. */
  lemma SelfMultiple(g: nat, h: nat)
    requires g > 0 && h > 0 && Divides(h * g, g)
    ensures h == 1
  {
    var m := g / (h * g);
    assert g == (h * g) * m;
    if h > 1 {
      MulAtLeast(g, h);
      PositiveFactor(h * g, m);
      MulAtLeast(h * g, m);
    }
  }

  /** A number is its divisor times the quotient. */
  lemma ExactQuotient(d: nat, x: int)
    requires Divides(d, x)
    ensures x == d * (x / d)
  {
  }

  /** The quotient of the magnitude is the magnitude of the quotient. */
  lemma QuotientOfAbs(g: nat, x: int)
    requires Divides(g, x)
    ensures Abs(x / g) == Abs(x) / g
  {
    ExactQuotient(g, x);
    var p := x / g;
    if x < 0 {
      PositiveFactor(g, -p);
      assert -x == g * -p;
      DividesBy(g, -x, -p);
      ExactQuotient(g, -x);
      MulCancel(g, -p, -x / g);
    } else if p < 0 {
      PositiveFactor(g, -p);
    }
  }

  /** Multiplication by a positive number is one to one. */
  lemma MulCancel(g: int, a: int, b: int)
    requires g > 0 && g * a == g * b
    ensures a == b
  {
    if a < b {
      MulAtLeast(g, b - a);
    } else if b < a {
      MulAtLeast(g, a - b);
    }
  }

  /** One is in lowest terms over any denominator. */
  lemma OneCoprime(den: nat)
    requires den > 0
    ensures Gcd(1, den) == 1
  {
    if den > 1 {
      assert 1 % den == 1;
      assert Gcd(1, den) == Gcd(den, 1);
      assert den % 1 == 0;
    }
  }

  /** Two fractions equal to a third one are equal. */
  lemma SameRational(a: Number, m: int, p: nat, b: Number)
    requires p > 0 && a.num * p == m * a.den && m * b.den == b.num * p
    ensures a.num * b.den == b.num * a.den
  {
    calc {
      p * (a.num * b.den);
      (a.num * p) * b.den;
      (m * a.den) * b.den;
      a.den * (m * b.den);
      a.den * (b.num * p);
      p * (b.num * a.den);
    }
    MulCancel(p, a.num * b.den, b.num * a.den);
  }

  lemma MulAssoc(g: int, h: int, a: int)
    ensures g * (h * a) == (h * g) * a
  {
  }

  /** The quotients of two numbers by their greatest common divisor have
    * no common divisor. */
  lemma QuotientsCoprime(x: nat, y: nat, g: nat)
    requires y > 0 && g == Gcd(x, y)
    ensures g > 0 && Divides(g, x) && Divides(g, y)
    ensures Gcd(x / g, y / g) == 1
  {
    GcdDivides(x, y);
    var p, q := x / g, y / g;
    ExactQuotient(g, x);
    ExactQuotient(g, y);
    PositiveFactor(g, q);
    var h := Gcd(p, q);
    GcdDivides(p, q);
    var a, b := p / h, q / h;
    ExactQuotient(h, p);
    ExactQuotient(h, q);
    MulAssoc(g, h, a);
    MulAssoc(g, h, b);
    DividesBy(h * g, x, a);
    DividesBy(h * g, y, b);
    GcdGreatest(x, y, h * g);
    SelfMultiple(g, h);
  }

  /** Dividing a fraction by the greatest common divisor of its terms
    * leaves it in lowest terms and denoting the same rational. */
  lemma LowestTerms(num: int, den: nat, g: nat)
    requires den > 0 && g == Gcd(Abs(num), den)
    ensures g > 0 && Divides(g, num) && Divides(g, den)
    ensures ValidNumber(Number(num / g, den / g))
    ensures (num / g) * den == num * (den / g)
  {
    QuotientsCoprime(Abs(num), den, g);
    DividesAbs(g, num);
    var p, q := num / g, den / g;
    ExactQuotient(g, num);
    ExactQuotient(g, den);
    QuotientOfAbs(g, num);
    PositiveFactor(g, q);
    MulAssoc(p, g, q);
    MulAssoc(g, p, q);
  }

  /** The fraction `num / den` in lowest terms, as a big rational stores
    * it: the same rational, with a positive denominator and no common
    * divisor. */
  function Reduce(num: int, den: nat): (r: Number)
    requires den > 0
    ensures ValidNumber(r)
    ensures r.num * den == num * r.den
  {
    var g := Gcd(Abs(num), den);
    LowestTerms(num, den, g);
    Number(num / g, den / g)
  }

  /** The greatest common divisor divides both numbers. */
  lemma {:induction false} GcdDivides(a: nat, b: nat)
    requires a > 0 || b > 0
    ensures Gcd(a, b) > 0 && Divides(Gcd(a, b), a) && Divides(Gcd(a, b), b)
    decreases b
  {
    if b == 0 {
      DividesBy(a, a, 1);
      DividesBy(a, 0, 0);
    } else {
      var g := Gcd(b, a % b);
      GcdDivides(b, a % b);
      DividesCombination(g, a % b, b, -(a / b));
      assert a % b - b * -(a / b) == a;
    }
  }

  /** Every common divisor divides the greatest one. */
  lemma {:induction false} GcdGreatest(a: nat, b: nat, d: nat)
    requires Divides(d, a) && Divides(d, b)
    ensures Divides(d, Gcd(a, b))
    decreases b
  {
    if b != 0 {
      DividesCombination(d, a, b, a / b);
      assert a - b * (a / b) == a % b;
      GcdGreatest(b, a % b, d);
    }
  }

  function Pow10(k: nat): (r: nat)
    ensures r >= 1
  {
    if k == 0 then 1 else 10 * Pow10(k - 1)
  }

  function DigitChar(d: nat): (c: char)
    requires d < 10
    ensures '0' <= c <= '9'
  {
    ['0', '1', '2', '3', '4', '5', '6', '7', '8', '9'][d]
  }

  predicate IsDigit(c: char) {
    '0' <= c <= '9'
  }

  function DigitValue(c: char): (d: nat)
    requires IsDigit(c)
    ensures d < 10
  {
    (c as int) - ('0' as int)
  }

  lemma DigitCharValue(d: nat)
    requires d < 10
    ensures DigitValue(DigitChar(d)) == d
  {
  }

  predicate AllDigits(s: string) {
    forall i :: 0 <= i < |s| ==> IsDigit(s[i])
  }

  /** The natural number a string of decimal digits denotes. */
  function DigitsValue(s: string): nat
    requires AllDigits(s)
  {
    if s == [] then 0 else DigitValue(s[0]) * Pow10(|s| - 1) + DigitsValue(s[1..])
  }

  /** The decimal notation of a natural number, with no leading zero. */
  function NatToString(n: nat): (r: string)
    ensures r != [] && AllDigits(r)
    ensures r[0] == '0' ==> r == "0"
    decreases n
  {
    if n < 10 then [DigitChar(n)]
    else NatToString(n / 10) + [DigitChar(n % 10)]
  }

  /** The decimal notation of an integer, as `BigInt::to_string` writes it. */
  function IntToString(i: int): (r: string)
    ensures i < 0 ==> r == "-" + NatToString(-i)
    ensures i >= 0 ==> r == NatToString(i)
  {
    if i < 0 then "-" + NatToString(-i) else NatToString(i)
  }

  /** Division rounding toward zero, as big integers divide. */
  function TruncDiv(a: int, b: nat): (q: int)
    requires b > 0
    ensures a >= 0 ==> q == a / b
    ensures a < 0 ==> q == -((-a) / b)
  {
    if a >= 0 then a / b else -((-a) / b)
  }

  /** The possible remainders of a division by `n`. */
  function Range(n: nat): (r: set<nat>)
    ensures forall x: nat :: x in r <==> x < n
  {
    if n == 0 then {} else Range(n - 1) + {n - 1}
  }

  /** Long division of a remainder below `den`: one digit per step, until
    * the remainder is zero or comes back (the expansion repeats).  Returns
    * the digits and the final remainder. */
  function Expand(rem: nat, den: nat, seen: set<nat>): (r: (string, nat))
    requires 0 < den && rem < den
    ensures AllDigits(r.0) && r.1 < den
    ensures rem * Pow10(|r.0|) == den * DigitsValue(r.0) + r.1
    decreases Range(den) - seen
  {
    if rem == 0 || rem in seen then ("", rem)
    else
      var (d, next) := DivideStep(rem, den);
      var (digits, last) := Expand(next, den, seen + {rem});
      var s := [DigitChar(d)] + digits;
      ExpandStep(rem, den, d, next, digits, last, s);
      (s, last)
  }

  /** One step of long division: the next digit and remainder. */
  function DivideStep(rem: nat, den: nat): (r: (nat, nat))
    requires 0 < den && rem < den
    ensures r.0 < 10 && r.1 < den
    ensures rem * 10 == den * r.0 + r.1
  {
    DivideDigit(rem * 10, den);
    ((rem * 10) / den, (rem * 10) % den)
  }

  lemma DivideDigit(x: nat, den: nat)
    requires 0 < den && x < den * 10
    ensures x / den < 10 && x % den < den && x == den * (x / den) + x % den
  {
  }

  lemma Distribute(a: int, b: int, c: int)
    ensures (a + b) * c == a * c + b * c
  {
  }

  lemma ExpandStep(rem: nat, den: nat, d: nat, next: nat, digits: string, last: nat, s: string)
    requires 0 < den && d < 10 && AllDigits(digits)
    requires s == [DigitChar(d)] + digits
    requires rem * 10 == den * d + next
    requires next * Pow10(|digits|) == den * DigitsValue(digits) + last
    ensures AllDigits(s)
    ensures rem * Pow10(|s|) == den * DigitsValue(s) + last
  {
    assert s[1..] == digits;
    DigitCharValue(d);
    var k := Pow10(|digits|);
    var v := DigitsValue(digits);
    Step(rem, den, d, next, k, v, last, Pow10(|s|), DigitsValue(s));
  }

  lemma Step(rem: int, den: int, d: int, next: int, k: int, v: int, last: int, p: int, value: int)
    requires rem * 10 == den * d + next
    requires next * k == den * v + last
    requires p == 10 * k && value == d * k + v
    ensures rem * p == den * value + last
  {
    assert rem * (10 * k) == (rem * 10) * k;
    Distribute(den * d, next, k);
    assert (den * d) * k == den * (d * k);
    Distribute(d * k, v, den);
  }

  /** The length of the run of digits a string starts with. */
  function DigitRun(s: string): (r: nat)
    ensures var n := r; n <= |s| && AllDigits(s[..n])
    ensures r < |s| ==> !IsDigit(s[r])
  {
    if s == [] || !IsDigit(s[0]) then 0
    else
      var k := DigitRun(s[1..]);
      assert s[..k + 1] == [s[0]] + s[1..][..k];
      k + 1
  }

  lemma {:induction false} DigitRunPrefix(a: string, t: string)
    requires AllDigits(a) && (t == [] || !IsDigit(t[0]))
    ensures DigitRun(a + t) == |a|
    decreases |a|
  {
    if a != [] {
      assert (a + t)[1..] == a[1..] + t;
      DigitRunPrefix(a[1..], t);
    } else {
      assert a + t == t;
    }
  }

  /** A JSON number in decimal form (section 6 of RFC 8259, without an
    * exponent): an optional minus, an integer part without leading zeros,
    * and an optional non-empty fraction. */
  predicate IsJsonNumber(s: string) {
    var b := if s != [] && s[0] == '-' then s[1..] else s;
    var k := DigitRun(b);
    k >= 1 && (b[0] == '0' ==> k == 1)
    && (k == |b| || (b[k] == '.' && |b| > k + 1 && AllDigits(b[k + 1..])))
  }

  /** What a decimal notation denotes, as `(m, k)` for `m / 10^k`. */
  function DecimalValue(s: string): (r: Option<(int, nat)>)
    ensures r.Some? <==> IsJsonNumber(s)
  {
    if !IsJsonNumber(s) then None
    else
      var neg := s[0] == '-';
      var b := if neg then s[1..] else s;
      var k := DigitRun(b);
      var frac := if k == |b| then "" else b[k + 1..];
      var m := DigitsValue(b[..k]) * Pow10(|frac|) + DigitsValue(frac);
      Some((if neg then -m else m, |frac|))
  }

  /** The fractional digits of a number and the remainder long division
    * stops at: zero when the expansion terminates, a repeated remainder
    * otherwise. */
  function Fraction(n: Number): (r: (string, nat))
    requires ValidNumber(n)
    ensures AllDigits(r.0) && r.1 < n.den
    ensures Quotient(n).1 * Pow10(|r.0|) == n.den * DigitsValue(r.0) + r.1
  {
    Expand(Quotient(n).1, n.den, {})
  }

  /** The integer part and the remainder of the magnitude of a number. */
  function Quotient(n: Number): (r: (nat, nat))
    requires ValidNumber(n)
    ensures Abs(n.num) == n.den * r.0 + r.1 && r.1 < n.den
  {
    DivMod(Abs(n.num), n.den);
    (Abs(n.num) / n.den, Abs(n.num) % n.den)
  }

  lemma DivMod(a: nat, d: nat)
    requires d > 0
    ensures a == d * (a / d) + a % d && 0 <= a % d < d
  {
  }

  function Sign(n: Number): string {
    if n.num < 0 then "-" else ""
  }

  function WithFraction(integer: string, digits: string): string {
    if digits == [] then integer else integer + "." + digits
  }

  /** The decimal representation as written: the sign, then the integer
    * part of the quotient as big integers print it, which carries its own
    * sign once the number is at most -1. */
  function DecimalAsWritten(n: Number): (r: Option<string>)
    requires ValidNumber(n)
    ensures r.Some? <==> Fraction(n).1 == 0
  {
    var (digits, rem) := Fraction(n);
    if rem == 0 then Some(WithFraction(Sign(n) + IntToString(TruncDiv(n.num, n.den)), digits)) else None
  }

  /** At -3/2 the representation as written carries two minus signs, and so
    * is not a JSON number. */
  lemma NegativeDoubleSign()
    ensures DecimalAsWritten(Number(-3, 2)) == Some("--1.5")
    ensures !IsJsonNumber("--1.5")
  {
    HalfExpands();
    assert Quotient(Number(-3, 2)) == (1, 1);
    assert TruncDiv(-3, 2) == -1;
    assert Fraction(Number(-3, 2)) == ("5", 0);
    assert IntToString(-1) == "-1";
    assert WithFraction("-" + "-1", "5") == "--1.5";
    assert NatToString(1) == "1";
    assert DigitRun("-1.5") == 0;
  }

  /** The decimal representation: the sign, the integer part of the
    * magnitude, and the fractional digits when there are any; `None` when
    * the expansion repeats. */
  function Decimal(n: Number): (r: Option<string>)
    requires ValidNumber(n)
    ensures r.Some? <==> Fraction(n).1 == 0
  {
    var (digits, rem) := Fraction(n);
    if rem == 0 then Some(WithFraction(Sign(n) + NatToString(Quotient(n).0), digits)) else None
  }

  /** Every decimal representation is a JSON number. */
  lemma DecimalIsJsonNumber(n: Number)
    requires ValidNumber(n) && Decimal(n).Some?
    ensures IsJsonNumber(Decimal(n).value)
  {
    var _ := ReadBack(n.num < 0, NatToString(Quotient(n).0), Fraction(n).0, Decimal(n).value);
  }

  /** The integer part, then the fraction when there is one, read back. */
  lemma BodyShape(i: string, digits: string, b: string)
    requires AllDigits(i) && i != [] && AllDigits(digits)
    requires b == WithFraction(i, digits)
    ensures DigitRun(b) == |i| && b[..|i|] == i
    ensures |i| == |b| <==> digits == []
    ensures digits != [] ==> b[|i|] == '.' && b[|i| + 1..] == digits
  {
    var t := if digits == [] then "" else "." + digits;
    assert b == i + t;
    DigitRunPrefix(i, t);
    assert b[..|i|] == i;
    if digits != [] {
      assert b[|i| + 1..] == digits;
    }
  }

  /** A sign, an integer part without leading zeros and a fraction make a
    * JSON number that reads back as the sign and the scaled magnitude. */
  lemma ReadBack(neg: bool, i: string, digits: string, s: string) returns (v: nat)
    requires AllDigits(i) && i != [] && (i[0] == '0' ==> i == "0") && AllDigits(digits)
    requires s == WithFraction((if neg then "-" else "") + i, digits)
    ensures IsJsonNumber(s) && DecimalValue(s).Some?
    ensures DecimalValue(s).value == (if neg then -(v as int) else v, |digits|)
    ensures v == DigitsValue(i) * Pow10(|digits|) + DigitsValue(digits)
  {
    var b := WithFraction(i, digits);
    BodyShape(i, digits, b);
    if neg {
      assert s == "-" + b;
      v := SignedReads(s, b, i, digits);
    } else {
      assert s == b;
      v := UnsignedReads(b, i, digits);
    }
  }

  /** An unsigned body reads back as its magnitude. */
  lemma UnsignedReads(b: string, i: string, digits: string) returns (v: nat)
    requires AllDigits(i) && i != [] && (i[0] == '0' ==> i == "0") && AllDigits(digits)
    requires DigitRun(b) == |i| && b[..|i|] == i
    requires |i| == |b| <==> digits == []
    requires digits != [] ==> b[|i|] == '.' && b[|i| + 1..] == digits
    ensures IsJsonNumber(b)
    ensures DecimalValue(b) == Some((v as int, |digits|))
    ensures v == DigitsValue(i) * Pow10(|digits|) + DigitsValue(digits)
  {
    assert b[0] == i[0] && IsDigit(b[0]);
    v := DecimalBody(b, i, digits);
  }

  /** A body after a minus sign reads back as the negated magnitude. */
  lemma SignedReads(s: string, b: string, i: string, digits: string) returns (v: nat)
    requires AllDigits(i) && i != [] && (i[0] == '0' ==> i == "0") && AllDigits(digits)
    requires DigitRun(b) == |i| && b[..|i|] == i
    requires |i| == |b| <==> digits == []
    requires digits != [] ==> b[|i|] == '.' && b[|i| + 1..] == digits
    requires s == "-" + b
    ensures IsJsonNumber(s)
    ensures DecimalValue(s) == Some((-(v as int), |digits|))
    ensures v == DigitsValue(i) * Pow10(|digits|) + DigitsValue(digits)
  {
    assert s[0] == '-' && s[1..] == b;
    assert b[0] == i[0] && IsDigit(b[0]);
    v := DecimalBody(b, i, digits);
  }

  lemma Exact(a: int, den: int, q: int, rm: int, p: int, f: int, v: int)
    requires a == den * q + rm
    requires rm * p == den * f
    requires v == q * p + f
    ensures a * p == den * v
  {
    Distribute(den * q, rm, p);
    assert (den * q) * p == den * (q * p);
    Distribute(q * p, f, den);
  }

  /** A decimal representation denotes the number it was made from: read
    * back as `m / 10^k`, it satisfies `m * den == num * 10^k`. */
  lemma {:induction false} DecimalRoundTrip(n: Number)
    requires ValidNumber(n) && Decimal(n).Some?
    ensures DecimalValue(Decimal(n).value).Some?
    ensures var (m, k) := DecimalValue(Decimal(n).value).value;
      m * n.den == n.num * Pow10(k)
  {
    var (digits, rem) := Fraction(n);
    var q := Quotient(n).0;
    var p := Pow10(|digits|);
    var f := DigitsValue(digits);
    var v := ReadBack(n.num < 0, NatToString(q), digits, Decimal(n).value);
    NatToStringValue(q);
    BodyValue(NatToString(q), q, digits, p, f, v);
    Exact(Abs(n.num), n.den, q, Quotient(n).1, p, f, v);
    var (m, k) := DecimalValue(Decimal(n).value).value;
    Signed(m, n.num, n.den, p, v);
  }

  /** The magnitude a decimal notation's body denotes, scaled by the power of
    * ten of its fraction. */
  function DecimalBody(b: string, i: string, digits: string): (v: nat)
    requires AllDigits(i) && i != [] && AllDigits(digits)
    requires DigitRun(b) == |i| && b[..|i|] == i
    requires |i| == |b| <==> digits == []
    requires digits != [] ==> b[|i| + 1..] == digits
    ensures v == DigitsValue(i) * Pow10(|digits|) + DigitsValue(digits)
    ensures var frac := if DigitRun(b) == |b| then "" else b[DigitRun(b) + 1..];
      v == DigitsValue(b[..DigitRun(b)]) * Pow10(|frac|) + DigitsValue(frac) && |frac| == |digits|
  {
    DigitsValue(i) * Pow10(|digits|) + DigitsValue(digits)
  }

  lemma BodyValue(i: string, q: nat, digits: string, p: nat, f: nat, v: nat)
    requires AllDigits(i) && AllDigits(digits)
    requires DigitsValue(i) == q && Pow10(|digits|) == p && DigitsValue(digits) == f
    requires v == DigitsValue(i) * Pow10(|digits|) + DigitsValue(digits)
    ensures v == q * p + f
  {
  }

  lemma Signed(m: int, num: int, den: int, p: int, v: int)
    requires Abs(num) * p == den * v
    requires m == (if num < 0 then -v else v)
    ensures m * den == num * p
  {
  }

  lemma {:induction false} NatToStringValue(n: nat)
    ensures DigitsValue(NatToString(n)) == n
    decreases n
  {
    if n < 10 {
      DigitCharValue(n);
    } else {
      NatToStringValue(n / 10);
      var a := NatToString(n / 10);
      DigitCharValue(n % 10);
      DigitsValueSnoc(a, DigitChar(n % 10));
    }
  }

  /** Distinct numbers have distinct decimal notations. */
  lemma NatToStringInjective(m: nat, n: nat)
    requires NatToString(m) == NatToString(n)
    ensures m == n
  {
    NatToStringValue(m);
    NatToStringValue(n);
  }

  lemma {:induction false} DigitsValueSnoc(a: string, c: char)
    requires AllDigits(a) && IsDigit(c)
    ensures AllDigits(a + [c])
    ensures DigitsValue(a + [c]) == DigitsValue(a) * 10 + DigitValue(c)
    decreases |a|
  {
    if a != [] {
      assert (a + [c])[1..] == a[1..] + [c];
      DigitsValueSnoc(a[1..], c);
      var x := DigitValue(a[0]);
      var p := Pow10(|a| - 1);
      assert DigitsValue(a + [c]) == x * Pow10(|a|) + DigitsValue(a[1..] + [c]);
      assert Pow10(|a|) == 10 * p;
      SnocArith(x, p, DigitsValue(a[1..]), DigitsValue(a[1..] + [c]), DigitValue(c));
    } else {
      assert a + [c] == [c];
    }
  }

  lemma SnocArith(x: int, p: int, r: int, rc: int, d: int)
    requires rc == r * 10 + d
    ensures x * (10 * p) + rc == (x * p + r) * 10 + d
  {
    assert x * (10 * p) == (x * p) * 10;
    Distribute(x * p, r, 10);
  }

  lemma SmallQuotient(a: nat, den: nat, q: nat, rm: nat)
    requires a < den && a == den * q + rm
    ensures q == 0 && a / den == 0
  {
  }

  /** For non-negative numbers, and negative ones above -1, the code as
    * written gives the representation. */
  lemma AsWrittenAgrees(n: Number)
    requires ValidNumber(n) && (n.num >= 0 || -n.num < n.den)
    ensures DecimalAsWritten(n) == Decimal(n)
  {
    if n.num < 0 {
      SmallQuotient(Abs(n.num), n.den, Quotient(n).0, Quotient(n).1);
      assert TruncDiv(n.num, n.den) == 0;
    }
  }

  /** The representation of a negative number is a minus sign before the
    * representation of its magnitude. */
  lemma NegativeIsSigned(n: Number)
    requires ValidNumber(n) && n.num < 0
    ensures Decimal(n).Some? <==> Decimal(Number(-n.num, n.den)).Some?
    ensures Decimal(n).Some? ==> Decimal(n).value == "-" + Decimal(Number(-n.num, n.den)).value
  {
    var m := Number(-n.num, n.den);
    assert Abs(n.num) == Abs(m.num);
    assert Quotient(n) == Quotient(m);
    assert Fraction(n) == Fraction(m);
    var (digits, rem) := Fraction(n);
    var i := NatToString(Quotient(n).0);
    assert Sign(n) == "-" && Sign(m) == "";
    if rem == 0 {
      assert Decimal(n) == Some(WithFraction("-" + i, digits));
      assert Decimal(m) == Some(WithFraction("" + i, digits));
      if digits != [] {
        assert "-" + i + "." + digits == "-" + (i + "." + digits);
      }
    }
  }

  /** The unit fractions whose expansion terminates have the expected
    * representations. */
  lemma DecimalTerminating()
    ensures Decimal(Number(1, 1)) == Some("1")
    ensures Decimal(Number(1, 2)) == Some("0.5")
    ensures Decimal(Number(1, 4)) == Some("0.25")
    ensures Decimal(Number(1, 5)) == Some("0.2")
    ensures Decimal(Number(1, 8)) == Some("0.125")
  {
    DecimalOfOne();
    UnitExpansions();
    DecimalOfUnit(2, "5");
    DecimalOfUnit(4, "25");
    DecimalOfUnit(5, "2");
    DecimalOfUnit(8, "125");
    assert "0." + "5" == "0.5" && "0." + "25" == "0.25";
    assert "0." + "2" == "0.2" && "0." + "125" == "0.125";
  }

  lemma DecimalOfOne()
    ensures Decimal(Number(1, 1)) == Some("1")
  {
    assert NatToString(1) == "1";
    assert Quotient(Number(1, 1)) == (1, 0);
    assert Expand(0, 1, {}) == ("", 0);
    assert Sign(Number(1, 1)) + "1" == "1";
  }

  /** A unit fraction whose expansion of the remainder 1 terminates with
    * the given digits is written `0.` followed by them. */
  lemma DecimalOfUnit(den: nat, digits: string)
    requires den > 1 && UnitExpansion(den) == (digits, 0) && digits != []
    ensures ValidNumber(Number(1, den))
    ensures Decimal(Number(1, den)) == Some("0." + digits)
  {
    OneCoprime(den);
    UnitRepeats(den);
    assert Sign(Number(1, den)) == "";
    assert Quotient(Number(1, den)).0 == 0;
    assert NatToString(0) == "0";
    assert WithFraction("" + "0", digits) == "0." + digits;
  }

  /** The long division of one by `den`, for the fractions above. */
  function UnitExpansion(den: nat): (string, nat)
    requires den > 1
  {
    Expand(1, den, {})
  }

  /** One step of long division on a remainder not seen before. */
  lemma ExpandUnfold(rem: nat, den: nat, seen: set<nat>, d: nat, next: nat)
    requires 0 < den && rem < den && rem != 0 && rem !in seen
    requires DivideStep(rem, den) == (d, next)
    ensures Expand(rem, den, seen)
      == ([DigitChar(d)] + Expand(next, den, seen + {rem}).0, Expand(next, den, seen + {rem}).1)
  {
  }

  /** The remainder left by long division, one step on. */
  lemma RemainderUnfold(rem: nat, den: nat, seen: set<nat>, next: nat)
    requires 0 < den && rem < den && rem != 0 && rem !in seen
    requires DivideStep(rem, den).1 == next
    ensures Expand(rem, den, seen).1 == Expand(next, den, seen + {rem}).1
  {
  }

  /** The digits and remainders of the divisions used below. */
  lemma Steps()
    ensures DivideStep(1, 2) == (5, 0) && DivideStep(1, 5) == (2, 0)
    ensures DivideStep(1, 4) == (2, 2) && DivideStep(2, 4) == (5, 0)
    ensures DivideStep(1, 8) == (1, 2) && DivideStep(2, 8) == (2, 4) && DivideStep(4, 8) == (5, 0)
    ensures DivideStep(1, 3) == (3, 1) && DivideStep(1, 9) == (1, 1)
    ensures DivideStep(1, 6) == (1, 4) && DivideStep(4, 6) == (6, 4)
  {
  }

  lemma SevenSteps()
    ensures DivideStep(1, 7) == (1, 3) && DivideStep(3, 7) == (4, 2) && DivideStep(2, 7) == (2, 6)
    ensures DivideStep(6, 7) == (8, 4) && DivideStep(4, 7) == (5, 5) && DivideStep(5, 7) == (7, 1)
  {
  }

  lemma HalfExpands()
    ensures Expand(1, 2, {}) == ("5", 0)
  {
    Steps();
    var s0: set<nat> := {};
    ExpandUnfold(1, 2, s0, 5, 0);
    assert Expand(0, 2, s0 + {1}) == ("", 0);
    assert [DigitChar(5)] + "" == "5";
  }

  lemma UnitExpansions()
    ensures UnitExpansion(2) == ("5", 0)
    ensures UnitExpansion(4) == ("25", 0)
    ensures UnitExpansion(5) == ("2", 0)
    ensures UnitExpansion(8) == ("125", 0)
  {
    HalfExpands();
    QuarterExpands();
    FifthExpands();
    EighthExpands();
  }

  lemma FifthExpands()
    ensures Expand(1, 5, {}) == ("2", 0)
  {
    Steps();
    var s0: set<nat> := {};
    ExpandUnfold(1, 5, s0, 2, 0);
    assert Expand(0, 5, s0 + {1}) == ("", 0);
    assert [DigitChar(2)] + "" == "2";
  }

  lemma QuarterExpands()
    ensures Expand(1, 4, {}) == ("25", 0)
  {
    Steps();
    var s0: set<nat> := {};
    var s1 := s0 + {1};
    ExpandUnfold(1, 4, s0, 2, 2);
    ExpandUnfold(2, 4, s1, 5, 0);
    assert Expand(0, 4, s1 + {2}) == ("", 0);
    assert [DigitChar(5)] + "" == "5";
    assert [DigitChar(2)] + "5" == "25";
  }

  lemma EighthExpands()
    ensures Expand(1, 8, {}) == ("125", 0)
  {
    Steps();
    var s0: set<nat> := {};
    var s1 := s0 + {1};
    var s2 := s1 + {2};
    ExpandUnfold(1, 8, s0, 1, 2);
    ExpandUnfold(2, 8, s1, 2, 4);
    ExpandUnfold(4, 8, s2, 5, 0);
    assert Expand(0, 8, s2 + {4}) == ("", 0);
    assert [DigitChar(5)] + "" == "5";
    assert [DigitChar(2)] + "5" == "25";
    assert [DigitChar(1)] + "25" == "125";
  }

  /** The unit fractions whose expansion repeats have no representation. */
  lemma DecimalRepeating()
    ensures Decimal(Number(1, 3)).None?
    ensures Decimal(Number(1, 6)).None?
    ensures Decimal(Number(1, 7)).None?
    ensures Decimal(Number(1, 9)).None?
  {
    ThirdRepeats();
    SixthRepeats();
    SevenRepeats();
    NinthRepeats();
    UnitRepeats(3);
    UnitRepeats(6);
    UnitRepeats(7);
    UnitRepeats(9);
  }

  /** A unit fraction whose long division ends on a nonzero remainder has
    * no representation. */
  lemma UnitRepeats(den: nat)
    requires den > 1
    ensures ValidNumber(Number(1, den))
    ensures Fraction(Number(1, den)) == Expand(1, den, {})
    ensures Expand(1, den, {}).1 != 0 ==> Decimal(Number(1, den)).None?
  {
    OneCoprime(den);
    assert Quotient(Number(1, den)) == (0, 1);
  }

  lemma ThirdRepeats()
    ensures Expand(1, 3, {}).1 == 1
  {
    Steps();
    var s0: set<nat> := {};
    RemainderUnfold(1, 3, s0, 1);
    assert Expand(1, 3, s0 + {1}).1 == 1;
  }

  lemma NinthRepeats()
    ensures Expand(1, 9, {}).1 == 1
  {
    Steps();
    var s0: set<nat> := {};
    RemainderUnfold(1, 9, s0, 1);
    assert Expand(1, 9, s0 + {1}).1 == 1;
  }

  lemma SixthRepeats()
    ensures Expand(1, 6, {}).1 == 4
  {
    Steps();
    var s0: set<nat> := {};
    var s1 := s0 + {1};
    RemainderUnfold(1, 6, s0, 4);
    RemainderUnfold(4, 6, s1, 4);
    assert Expand(4, 6, s1 + {4}).1 == 4;
  }

  lemma SevenRepeats()
    ensures Expand(1, 7, {}).1 == 1
  {
    SevenSteps();
    var s0: set<nat> := {};
    var s1 := s0 + {1};
    var s2 := s1 + {3};
    var s3 := s2 + {2};
    var s4 := s3 + {6};
    var s5 := s4 + {4};
    RemainderUnfold(1, 7, s0, 3);
    RemainderUnfold(3, 7, s1, 2);
    RemainderUnfold(2, 7, s2, 6);
    RemainderUnfold(6, 7, s3, 4);
    RemainderUnfold(4, 7, s4, 5);
    RemainderUnfold(5, 7, s5, 1);
    assert 1 in s5 + {5};
    assert Expand(1, 7, s5 + {5}).1 == 1;
  }

  /** Untyped literal values. */
  datatype Literal =
    | Unit
    | Boolean(b: bool)
    | Numeric(number: Number)
    | ByteString(bytes: seq<bv8>)
    | TextString(text: string)

  /** Untyped tree values; a map is its entries in key order. */
  datatype Value =
    | Literal(lit: Literal)
    | Map(entries: seq<(Value, Value)>)
    | List(items: seq<Value>)

  /** The default value. */
  function DefaultValue(): (r: Value)
    ensures IsUnit(r)
  {
    Literal(Unit)
  }

  predicate IsUnit(v: Value) {
    v.Literal? && v.lit.Unit?
  }

  /** The unit value is the only value that is unit. */
  lemma UnitIsDefault(v: Value)
    ensures IsUnit(v) <==> v == DefaultValue()
  {
  }

  /** Typed literal values, each carrying a reference to the layout that
    * gives it its type; a unit literal carries the constant value the
    * unit layout stands for. */
  datatype TypedLiteral<R> =
    | UnitOf(value: Value, ty: R)
    | BooleanOf(b: bool, ty: R)
    | NumberOf(number: Number, ty: R)
    | BytesOf(bytes: seq<bv8>, ty: R)
    | TextOf(text: string, ty: R)
    | IdOf(id: string, ty: R)

  /** Typed tree values: a variant records the sum layout and the index of
    * the variant chosen; `Always` is a value of the top layout. */
  datatype TypedValue<R> =
    | Typed(lit: TypedLiteral<R>)
    | Variant(inner: TypedValue<R>, sum: R, index: nat)
    | TypedMap(entries: seq<(Value, TypedValue<R>)>, ty: R)
    | TypedList(items: seq<TypedValue<R>>, ty: R)
    | Always(value: Value)

  /** The layout a typed value was serialized with; the top layout has
    * none. */
  function TypeOf<R>(t: TypedValue<R>): (r: Option<R>)
    ensures r.None? <==> t.Always?
  {
    match t
    case Typed(l) => Some(l.ty)
    case Variant(_, sum, _) => Some(sum)
    case TypedMap(_, ty) => Some(ty)
    case TypedList(_, ty) => Some(ty)
    case Always(_) => None
  }

  /** Strips the type of a literal; an identifier becomes a text string. */
  function LiteralIntoUntyped<R>(l: TypedLiteral<R>): (r: Value)
    ensures l.IdOf? ==> r == Literal(TextString(l.id))
    ensures !l.UnitOf? ==> r.Literal?
  {
    match l
    case UnitOf(value, _) => value
    case BooleanOf(b, _) => Literal(Boolean(b))
    case NumberOf(n, _) => Literal(Numeric(n))
    case BytesOf(bytes, _) => Literal(ByteString(bytes))
    case TextOf(text, _) => Literal(TextString(text))
    case IdOf(id, _) => Literal(TextString(id))
  }

  /** Strips the types of a tree: variants disappear, maps keep their keys
    * in order and lists their length and order. */
  function IntoUntyped<R>(t: TypedValue<R>): (r: Value)
    ensures t.TypedMap? ==> (r.Map? && |r.entries| == |t.entries|
      && forall i :: 0 <= i < |t.entries| ==> r.entries[i].0 == t.entries[i].0)
    ensures t.TypedList? ==> r.List? && |r.items| == |t.items|
    ensures t.Always? ==> r == t.value
  {
    match t
    case Typed(l) => LiteralIntoUntyped(l)
    case Variant(inner, _, _) => IntoUntyped(inner)
    case TypedMap(entries, _) =>
      Map(seq(|entries|, i requires 0 <= i < |entries| => (entries[i].0, IntoUntyped(entries[i].1))))
    case TypedList(items, _) =>
      List(seq(|items|, i requires 0 <= i < |items| => IntoUntyped(items[i])))
    case Always(v) => v
  }

  /** The value under all the variant wrappers of a typed value. */
  function Unwrap<R>(t: TypedValue<R>): (r: TypedValue<R>)
    ensures !r.Variant?
  {
    if t.Variant? then Unwrap(t.inner) else t
  }

  /** Variant wrappers, however deeply nested, do not show in the untyped
    * value. */
  lemma {:induction false} VariantsErased<R>(t: TypedValue<R>)
    ensures IntoUntyped(t) == IntoUntyped(Unwrap(t))
  {
    if t.Variant? {
      VariantsErased(t.inner);
    }
  }

  /** A value of the top layout is the same untyped. */
  lemma AlwaysRoundTrip<R>(v: Value)
    ensures IntoUntyped<R>(Always(v)) == v
    ensures TypeOf<R>(Always(v)).None?
  {
  }

  /** JSON values; a number keeps its decimal notation. */
  datatype Json =
    | Null
    | Bool(b: bool)
    | JsonNumber(text: string)
    | JsonString(s: string)
    | Array(items: seq<Json>)
    | Object(members: seq<(string, Json)>)

  /** Why a value has no JSON form. */
  datatype NonJsonValue =
    | NonJsonNumber(number: Number)
    | NonJsonBytes(bytes: seq<bv8>)
    | NonStringKey(key: Value)

  /** Every number of a value has a positive denominator. */
  predicate ValidValue(v: Value) {
    match v
    case Literal(l) => l.Numeric? ==> ValidNumber(l.number)
    case Map(es) => forall i :: 0 <= i < |es| ==> ValidValue(es[i].0) && ValidValue(es[i].1)
    case List(items) => forall i :: 0 <= i < |items| ==> ValidValue(items[i])
  }

  /** A number in JSON: its decimal representation, when it has one and that
    * parses as a JSON number.  What it reads back as is the number. */
  function NumberToJson(n: Number): (r: Result<string, NonJsonValue>)
    requires ValidNumber(n)
    ensures r.Success? <==> Fraction(n).1 == 0
    ensures r.Failure? ==> r.error == NonJsonNumber(n)
    ensures r.Success? ==> (DecimalValue(r.value).Some?
      && DecimalValue(r.value).value.0 * n.den == n.num * Pow10(DecimalValue(r.value).value.1))
  {
    match Decimal(n)
    case Some(d) =>
      DecimalIsJsonNumber(n);
      DecimalRoundTrip(n);
      if IsJsonNumber(d) then Success(d) else Failure(NonJsonNumber(n))
    case None => Failure(NonJsonNumber(n))
  }

  /** A number the conversion as written accepts: its expansion
    * terminates and it is not at most -1. */
  predicate HasJsonForm(n: Number)
    requires ValidNumber(n)
  {
    Fraction(n).1 == 0 && (n.num >= 0 || -n.num < n.den)
  }

  /** A notation that starts with two minus signs is not a JSON number. */
  lemma DoubleSignRejected(s: string)
    requires |s| >= 2 && s[0] == '-' && s[1] == '-'
    ensures !IsJsonNumber(s)
  {
    assert DigitRun(s[1..]) == 0;
  }

  /** At most -1, the representation as written begins with two minus
    * signs. */
  lemma AsWrittenDoubleSign(n: Number)
    requires ValidNumber(n) && Fraction(n).1 == 0 && -n.num >= n.den
    ensures DecimalAsWritten(n).Some? && !IsJsonNumber(DecimalAsWritten(n).value)
  {
    var q := TruncDiv(n.num, n.den);
    assert (-n.num) / n.den >= 1;
    var i := Sign(n) + IntToString(q);
    assert i[..2] == "--";
    var d := WithFraction(i, Fraction(n).0);
    assert d[..|i|] == i;
    DoubleSignRejected(d);
  }

  /** The representation as written is a JSON number exactly when the
    * number has a JSON form, and is then the representation. */
  lemma AsWrittenCases(n: Number)
    requires ValidNumber(n)
    ensures HasJsonForm(n) ==> DecimalAsWritten(n) == Decimal(n) && IsJsonNumber(Decimal(n).value)
    ensures Fraction(n).1 == 0 && !HasJsonForm(n) ==> !IsJsonNumber(DecimalAsWritten(n).value)
  {
    if n.num >= 0 || -n.num < n.den {
      AsWrittenAgrees(n);
      if Fraction(n).1 == 0 {
        DecimalIsJsonNumber(n);
      }
    } else if Fraction(n).1 == 0 {
      AsWrittenDoubleSign(n);
    }
  }

  /** The same conversion over the decimal representation as written: it
    * fails on every number at most -1, and elsewhere agrees with the
    * conversion of the representation. */
  function NumberToJsonAsWritten(n: Number): (r: Result<string, NonJsonValue>)
    requires ValidNumber(n)
    ensures r.Success? <==> HasJsonForm(n)
    ensures r.Success? ==> r == NumberToJson(n)
    ensures r.Failure? ==> r.error == NonJsonNumber(n)
  {
    AsWrittenCases(n);
    match DecimalAsWritten(n)
    case Some(d) => if IsJsonNumber(d) then Success(d) else Failure(NonJsonNumber(n))
    case None => Failure(NonJsonNumber(n))
  }

  /** As written, -3/2 has no JSON form although -1.5 denotes it. */
  lemma NegativeNumberRejected()
    ensures NumberToJsonAsWritten(Number(-3, 2)) == Failure(NonJsonNumber(Number(-3, 2)))
    ensures NumberToJson(Number(-3, 2)) == Success("-1.5")
  {
    NegativeDoubleSign();
    HalfExpands();
    assert Quotient(Number(-3, 2)) == (1, 1);
    assert Fraction(Number(-3, 2)) == ("5", 0);
    assert NatToString(1) == "1";
    assert WithFraction("-" + "1", "5") == "-1.5";
  }

  /** A literal in JSON: a byte string has none, and a number only its
    * decimal representation as written, so none at most -1. */
  function LiteralToJson(l: Literal): (r: Result<Json, NonJsonValue>)
    requires l.Numeric? ==> ValidNumber(l.number)
    ensures l.ByteString? ==> r == Failure(NonJsonBytes(l.bytes))
    ensures l.Numeric? ==> (r.Failure? <==> !HasJsonForm(l.number))
    ensures l.Numeric? && r.Failure? ==> r.error == NonJsonNumber(l.number)
    ensures !l.ByteString? && !l.Numeric? ==> r.Success?
  {
    match l
    case Unit => Success(Null)
    case Boolean(b) => Success(Bool(b))
    case Numeric(n) => NumberToJsonAsWritten(n).Map(t => JsonNumber(t))
    case TextString(t) => Success(JsonString(t))
    case ByteString(bytes) => Failure(NonJsonBytes(bytes))
  }

  /** The results of a sequence of conversions, or the first failure. */
  function Collect<T, E>(rs: seq<Result<T, E>>): (r: Result<seq<T>, E>)
    ensures r.Success? <==> forall i :: 0 <= i < |rs| ==> rs[i].Success?
    ensures r.Success? ==> |r.value| == |rs| && forall i :: 0 <= i < |rs| ==> r.value[i] == rs[i].value
    ensures r.Failure? ==> exists i :: (0 <= i < |rs| && rs[i].Failure? && r.error == rs[i].error
      && forall j :: 0 <= j < i ==> rs[j].Success?)
  {
    if rs == [] then Success([])
    else if rs[0].Failure? then Failure(rs[0].error)
    else
      var rest := Collect(rs[1..]);
      if rest.Failure? then
        ghost var i :| 0 <= i < |rs[1..]| && rs[1..][i].Failure? && rest.error == rs[1..][i].error
          && forall j :: 0 <= j < i ==> rs[1..][j].Success?;
        assert rs[i + 1].Failure?;
        Failure(rest.error)
      else Success([rs[0].value] + rest.value)
  }

  /** A map entry in JSON: its key must be a text string. */
  function EntryToJson(key: Value, value: Result<Json, NonJsonValue>): (r: Result<(string, Json), NonJsonValue>)
    ensures !(key.Literal? && key.lit.TextString?) ==> r == Failure(NonStringKey(key))
    ensures key.Literal? && key.lit.TextString? ==>
      (r.Success? <==> value.Success?) && (r.Success? ==> r.value == (key.lit.text, value.value))
  {
    if key.Literal? && key.lit.TextString? then value.Map(j => (key.lit.text, j))
    else Failure(NonStringKey(key))
  }

  /** The JSON form of a value: entries and items are converted in order
    * and the first that cannot be converted is the error. */
  function ToJson(v: Value): (r: Result<Json, NonJsonValue>)
    requires ValidValue(v)
    decreases v
  {
    match v
    case Literal(l) => LiteralToJson(l)
    case Map(es) =>
      Collect(seq(|es|, i requires 0 <= i < |es| => EntryToJson(es[i].0, ToJson(es[i].1)))).Map(ms => Object(ms))
    case List(items) =>
      Collect(seq(|items|, i requires 0 <= i < |items| => ToJson(items[i]))).Map(js => Array(js))
  }

  /** A value that has a JSON form: no byte string, every number with a
    * JSON form, every map key a text string. */
  predicate JsonCompatible(v: Value)
    requires ValidValue(v)
  {
    match v
    case Literal(l) => !l.ByteString? && (l.Numeric? ==> HasJsonForm(l.number))
    case Map(es) => forall i :: 0 <= i < |es| ==>
      es[i].0.Literal? && es[i].0.lit.TextString? && JsonCompatible(es[i].1)
    case List(items) => forall i :: 0 <= i < |items| ==> JsonCompatible(items[i])
  }

  /** A value converts to JSON exactly when it is JSON compatible. */
  lemma {:induction false} ToJsonCompatible(v: Value)
    requires ValidValue(v)
    ensures ToJson(v).Success? <==> JsonCompatible(v)
    decreases v
  {
    match v
    case Literal(_) =>
    case Map(es) =>
      var rs := seq(|es|, i requires 0 <= i < |es| => EntryToJson(es[i].0, ToJson(es[i].1)));
      assert ToJson(v) == Collect(rs).Map(ms => Object(ms));
      forall i | 0 <= i < |es|
        ensures rs[i].Success? <==> es[i].0.Literal? && es[i].0.lit.TextString? && JsonCompatible(es[i].1)
      {
        ToJsonCompatible(es[i].1);
      }
    case List(items) =>
      var rs := seq(|items|, i requires 0 <= i < |items| => ToJson(items[i]));
      assert ToJson(v) == Collect(rs).Map(js => Array(js));
      forall i | 0 <= i < |items|
        ensures rs[i].Success? <==> JsonCompatible(items[i])
      {
        ToJsonCompatible(items[i]);
      }
      assert Collect(rs).Success? <==> forall i :: 0 <= i < |items| ==> JsonCompatible(items[i]);
  }

  /** A map whose first offending entry has a key that is not a text string
    * fails with that key. */
  lemma NonStringKeyFails(es: seq<(Value, Value)>, i: nat)
    requires ValidValue(Map(es)) && i < |es|
    requires !(es[i].0.Literal? && es[i].0.lit.TextString?)
    requires forall j :: 0 <= j < i ==> es[j].0.Literal? && es[j].0.lit.TextString? && JsonCompatible(es[j].1)
    ensures ToJson(Map(es)) == Failure(NonStringKey(es[i].0))
  {
    var rs := seq(|es|, k requires 0 <= k < |es| => EntryToJson(es[k].0, ToJson(es[k].1)));
    assert ToJson(Map(es)) == Collect(rs).Map(ms => Object(ms));
    forall j | 0 <= j < i
      ensures rs[j].Success?
    {
      ToJsonCompatible(es[j].1);
    }
    assert rs[i] == Failure(NonStringKey(es[i].0));
  }

  /** The typed literal conversion to JSON, where an identifier is a
    * string and a unit literal converts its constant value. */
  function TypedLiteralToJson<R>(l: TypedLiteral<R>): (r: Result<Json, NonJsonValue>)
    requires l.UnitOf? ==> ValidValue(l.value)
    requires l.NumberOf? ==> ValidNumber(l.number)
    ensures l.IdOf? ==> r == Success(JsonString(l.id))
    ensures l.BytesOf? ==> r == Failure(NonJsonBytes(l.bytes))
  {
    match l
    case IdOf(id, _) => Success(JsonString(id))
    case UnitOf(value, _) => ToJson(value)
    case BooleanOf(b, _) => Success(Bool(b))
    case NumberOf(n, _) => NumberToJsonAsWritten(n).Map(t => JsonNumber(t))
    case TextOf(text, _) => Success(JsonString(text))
    case BytesOf(bytes, _) => Failure(NonJsonBytes(bytes))
  }

  /** Converting a typed literal to JSON is stripping its type, then
    * converting the value. */
  lemma TypedLiteralAgrees<R>(l: TypedLiteral<R>)
    requires l.UnitOf? ==> ValidValue(l.value)
    requires l.NumberOf? ==> ValidNumber(l.number)
    ensures ValidValue(LiteralIntoUntyped(l))
    ensures TypedLiteralToJson(l) == ToJson(LiteralIntoUntyped(l))
  {
  }

  /** Every number of a JSON value is in decimal notation. */
  predicate DecimalNumbers(j: Json) {
    match j
    case JsonNumber(t) => IsJsonNumber(t)
    case Array(items) => forall i :: 0 <= i < |items| ==> DecimalNumbers(items[i])
    case Object(ms) => forall i :: 0 <= i < |ms| ==> DecimalNumbers(ms[i].1)
    case _ => true
  }

  /** The value a JSON value converts to: a number is the rational its
    * notation denotes and a key is a text string. */
  function FromJson(j: Json): (r: Value)
    requires DecimalNumbers(j)
    ensures ValidValue(r)
    decreases j
  {
    match j
    case Null => Literal(Unit)
    case Bool(b) => Literal(Boolean(b))
    case JsonNumber(t) =>
      var (m, k) := DecimalValue(t).value;
      Literal(Numeric(Reduce(m, Pow10(k))))
    case JsonString(t) => Literal(TextString(t))
    case Array(items) =>
      List(seq(|items|, i requires 0 <= i < |items| => FromJson(items[i])))
    case Object(ms) =>
      Map(seq(|ms|, i requires 0 <= i < |ms| => (Literal(TextString(ms[i].0)), FromJson(ms[i].1))))
  }

  /** Two values with the same structure whose numbers are equal as
    * rationals. */
  predicate SameValue(v: Value, w: Value)
    requires ValidValue(v) && ValidValue(w)
  {
    match (v, w)
    case (Literal(Numeric(a)), Literal(Numeric(b))) => a.num * b.den == b.num * a.den
    case (Literal(a), Literal(b)) => !a.Numeric? && a == b
    case (Map(es), Map(fs)) =>
      |es| == |fs| && forall i :: 0 <= i < |es| ==>
        SameValue(es[i].0, fs[i].0) && SameValue(es[i].1, fs[i].1)
    case (List(xs), List(ys)) =>
      |xs| == |ys| && forall i :: 0 <= i < |xs| ==> SameValue(xs[i], ys[i])
    case _ => false
  }

  /** A JSON compatible value converted to JSON and back is the same value,
    * up to how its numbers are written. */
  lemma {:induction false} JsonRoundTrip(v: Value)
    requires ValidValue(v) && JsonCompatible(v)
    ensures ToJson(v).Success? && DecimalNumbers(ToJson(v).value)
    ensures SameValue(FromJson(ToJson(v).value), v)
    decreases v, 1
  {
    ToJsonCompatible(v);
    match v
    case Literal(l) =>
      if l.Numeric? {
        var t := NumberToJsonAsWritten(l.number).value;
        assert t == NumberToJson(l.number).value;
        assert ToJson(v).value == JsonNumber(t);
        var (m, k) := DecimalValue(t).value;
        SameRational(Reduce(m, Pow10(k)), m, Pow10(k), l.number);
      }
    case Map(es) => MapRoundTrip(v);
    case List(items) => ListRoundTrip(v);
  }

  /** The entries of a map convert to members and back. */
  lemma {:induction false} MapRoundTrip(v: Value)
    requires ValidValue(v) && JsonCompatible(v) && v.Map?
    ensures ToJson(v).Success? && DecimalNumbers(ToJson(v).value)
    ensures SameValue(FromJson(ToJson(v).value), v)
    decreases v, 0
  {
    ToJsonCompatible(v);
    var es := v.entries;
    var rs := seq(|es|, i requires 0 <= i < |es| => EntryToJson(es[i].0, ToJson(es[i].1)));
    assert ToJson(v) == Collect(rs).Map(ms => Object(ms));
    var ms := Collect(rs).value;
    forall i | 0 <= i < |es|
      ensures DecimalNumbers(ms[i].1) && ms[i] == (es[i].0.lit.text, ToJson(es[i].1).value)
      ensures SameValue(FromJson(ms[i].1), es[i].1)
    {
      JsonRoundTrip(es[i].1);
    }
    var w := FromJson(Object(ms));
    assert forall i :: 0 <= i < |es| ==> w.entries[i] == (Literal(TextString(ms[i].0)), FromJson(ms[i].1));
  }

  /** The items of a list convert to array items and back. */
  lemma {:induction false} ListRoundTrip(v: Value)
    requires ValidValue(v) && JsonCompatible(v) && v.List?
    ensures ToJson(v).Success? && DecimalNumbers(ToJson(v).value)
    ensures SameValue(FromJson(ToJson(v).value), v)
    decreases v, 0
  {
    ToJsonCompatible(v);
    var items := v.items;
    var rs := seq(|items|, i requires 0 <= i < |items| => ToJson(items[i]));
    assert ToJson(v) == Collect(rs).Map(js => Array(js));
    var js := Collect(rs).value;
    forall i | 0 <= i < |items|
      ensures DecimalNumbers(js[i]) && js[i] == ToJson(items[i]).value
      ensures SameValue(FromJson(js[i]), items[i])
    {
      JsonRoundTrip(items[i]);
    }
    var w := FromJson(Array(js));
    assert forall i :: 0 <= i < |items| ==> w.items[i] == FromJson(js[i]);
  }
}
