/** Rust's `str::parse` for the integer, boolean and `f64` types the source
    uses, their `to_string`, and the IEEE-754 operations the efficiency
    figures go through, over unbounded integers and exact reals. */
module Numbers {
  import opened Wrappers
  import opened Text

  const U64_MAX: int := 18446744073709551615
  const I32_MIN: int := -2147483648
  const I32_MAX: int := 2147483647
  const I64_MIN: int := -9223372036854775808
  const I64_MAX: int := 9223372036854775807

  /** The number of `u64` values: `u64` arithmetic without overflow checks
      (a release build) works modulo this. */
  const U64_MODULUS: int := 0x1_0000_0000_0000_0000

  predicate IsDigit(c: char)
  {
    '0' <= c <= '9'
  }

  predicate AllDigits(s: string)
  {
    forall i :: 0 <= i < |s| ==> IsDigit(s[i])
  }

  function DigitValue(c: char): nat
    requires IsDigit(c)
  {
    c as int - '0' as int
  }

  /** The value of a string of decimal digits, most significant first. */
  function DigitsValue(s: string): nat
    requires AllDigits(s)
  {
    if s == [] then 0 else 10 * DigitsValue(s[..|s| - 1]) + DigitValue(s[|s| - 1])
  }

  /** `str::parse` for an unsigned integer type whose largest value is `max`:
      an optional `+`, then at least one decimal digit, and no overflow. */
  function ParseUnsigned(s: string, max: nat): (r: Option<nat>)
    ensures r.Some? ==> r.value <= max
  {
    var digits := if |s| > 0 && s[0] == '+' then s[1..] else s;
    if digits != [] && AllDigits(digits) && DigitsValue(digits) <= max
    then Some(DigitsValue(digits))
    else None
  }

  /** `str::parse` for a signed integer type with range `min..=max`: an
      optional `+` or `-`, then at least one decimal digit, in range. */
  function ParseSigned(s: string, min: int, max: int): (r: Option<int>)
    ensures r.Some? ==> min <= r.value <= max
  {
    match ParseInteger(s)
    case Some(v) => if min <= v <= max then Some(v) else None
    case None => None
  }

  /** An optional sign, then at least one decimal digit, of any size. */
  function ParseInteger(s: string): Option<int>
  {
    var negative := |s| > 0 && s[0] == '-';
    var digits := if |s| > 0 && (s[0] == '+' || s[0] == '-') then s[1..] else s;
    if digits != [] && AllDigits(digits) then
      Some(if negative then -(DigitsValue(digits) as int) else DigitsValue(digits))
    else None
  }

  function ParseU64(s: string): Option<nat> { ParseUnsigned(s, U64_MAX) }

  function ParseI32(s: string): Option<int> { ParseSigned(s, I32_MIN, I32_MAX) }

  function ParseI64(s: string): Option<int> { ParseSigned(s, I64_MIN, I64_MAX) }

  /** A string that parses as an `i32` parses as the same `i64`. */
  lemma ParseI32Widens(s: string)
    requires ParseI32(s).Some?
    ensures ParseI64(s) == ParseI32(s)
  {
  }

  /** `bool::from_str`: exactly "true" or "false". */
  function ParseBool(s: string): (r: Option<bool>)
    ensures r == Some(true) <==> s == "true"
    ensures r == Some(false) <==> s == "false"
  {
    if s == "true" then Some(true) else if s == "false" then Some(false) else None
  }

  function DigitChar(d: nat): (c: char)
    requires d < 10
    ensures IsDigit(c) && DigitValue(c) == d
  {
    ('0' as int + d) as char
  }

  /** Decimal `to_string` of a natural number. */
  function NatToString(n: nat): (s: string)
    ensures s != [] && AllDigits(s)
  {
    if n < 10 then [DigitChar(n)] else NatToString(n / 10) + [DigitChar(n % 10)]
  }

  /** Decimal `to_string` of an integer. */
  function IntToString(i: int): string
  {
    if i < 0 then "-" + NatToString(-i) else NatToString(i)
  }

  /** The digits `NatToString` writes read back as the same number. */
  lemma {:induction false} NatToStringValue(n: nat)
    ensures DigitsValue(NatToString(n)) == n
  {
    var s := NatToString(n);
    if n >= 10 {
      NatToStringValue(n / 10);
      assert s[..|s| - 1] == NatToString(n / 10);
    }
  }

  /** `to_string` then `parse` is the identity on every in-range integer: so
      re-rendering a parsed timestamp keeps its value. */
  lemma IntToStringParses(i: int, min: int, max: int)
    requires min <= i <= max
    ensures ParseSigned(IntToString(i), min, max) == Some(i)
  {
    var s := IntToString(i);
    if i < 0 {
      NatToStringValue(-i);
      assert s[0] == '-' && s[1..] == NatToString(-i);
    } else {
      NatToStringValue(i);
      assert IsDigit(s[0]);
    }
  }

  /** `to_string` then unsigned `parse` gives back every in-range number. */
  lemma NatToStringParses(n: nat, max: nat)
    requires n <= max
    ensures ParseUnsigned(NatToString(n), max) == Some(n)
  {
    NatToStringValue(n);
    assert IsDigit(NatToString(n)[0]);
  }

  // ---------------------------------------------------------------------
  // f64

  /** An `f64` value, with its magnitude as an exact real: the model keeps
      infinities and NaN but neither rounding nor the sign of zero. */
  datatype F64 = Finite(v: real) | Infinite(negative: bool) | NaN

  function Pow10(n: nat): (r: nat)
    ensures r >= 1
  {
    if n == 0 then 1 else 10 * Pow10(n - 1)
  }

  /** `m` times ten to the power `e`. */
  function Scale(m: nat, e: int): real
  {
    if e >= 0 then (m * Pow10(e)) as real else m as real / Pow10(-e) as real
  }

  /** Index of the first `e` or `E` in `s`, or `|s|`. */
  function ExponentMark(s: string): (i: nat)
    ensures i <= |s|
  {
    if s == [] then 0
    else if s[0] == 'e' || s[0] == 'E' then 0
    else 1 + ExponentMark(s[1..])
  }

  /** Unsigned decimal literal: digits, an optional `.` with more digits (at
      least one digit in all), and an optional exponent `e`/`E` with an
      optional sign and at least one digit. */
  function ParseDecimal(s: string): Option<real>
  {
    var e := ExponentMark(s);
    var mantissa := s[..e];
    // The exponent may have any number of digits: Rust saturates a huge
    // exponent, and the model keeps its exact value.
    var exponent := if e < |s| then ParseInteger(s[e + 1..]) else Some(0);
    var dot := Find(mantissa, ".");
    var whole := if dot.Some? then mantissa[..dot.value] else mantissa;
    var fraction := if dot.Some? then mantissa[dot.value + 1..] else "";
    if AllDigits(whole) && AllDigits(fraction) && |whole| + |fraction| > 0 && exponent.Some?
    then Some(Scale(DigitsValue(whole + fraction), exponent.value - |fraction|))
    else None
  }

  /** `str::parse::<f64>`: an optional sign, then `inf`, `infinity` or `nan`
      in any case, or a decimal literal. */
  function ParseF64(s: string): Option<F64>
  {
    var negative := |s| > 0 && s[0] == '-';
    var body := if |s| > 0 && (s[0] == '+' || s[0] == '-') then s[1..] else s;
    var lower := AsciiLower(body);
    if lower == "inf" || lower == "infinity" then Some(Infinite(negative))
    else if lower == "nan" then Some(NaN)
    else
      match ParseDecimal(body)
      case None => None
      case Some(x) => Some(Finite(if negative then -x else x))
  }

  /** IEEE-754 multiplication, without rounding. */
  function Mul(a: F64, b: F64): (r: F64)
    ensures a.Finite? && b.Finite? ==> r == Finite(a.v * b.v)
    ensures a.NaN? || b.NaN? ==> r.NaN?
  {
    if a.NaN? || b.NaN? then NaN
    else if a.Finite? && b.Finite? then Finite(a.v * b.v)
    else if a.Infinite? && b.Infinite? then Infinite(a.negative != b.negative)
    else if a.Infinite? then (if b.v == 0.0 then NaN else Infinite(a.negative != (b.v < 0.0)))
    else (if a.v == 0.0 then NaN else Infinite(b.negative != (a.v < 0.0)))
  }

  /** IEEE-754 division, without rounding; a zero divisor counts as +0. */
  function Div(a: F64, b: F64): (r: F64)
    ensures a.Finite? && b.Finite? && b.v != 0.0 ==> r == Finite(a.v / b.v)
    ensures a.Finite? && b == Finite(0.0) ==>
      r == (if a.v == 0.0 then NaN else Infinite(a.v < 0.0))
  {
    match (a, b)
    case (NaN, _) => NaN
    case (_, NaN) => NaN
    case (Finite(x), Finite(y)) =>
      if y != 0.0 then Finite(x / y)
      else if x == 0.0 then NaN
      else Infinite(x < 0.0)
    case (Infinite(n), Finite(y)) => Infinite(n != (y < 0.0))
    case (Finite(_), Infinite(_)) => Finite(0.0)
    case (Infinite(_), Infinite(_)) => NaN
  }

  /** `f64::floor`. */
  function Floor(a: F64): (r: F64)
    ensures a.Finite? ==> r.Finite? && r.v <= a.v < r.v + 1.0
    ensures !a.Finite? ==> r == a
  {
    match a
    case Finite(x) => Finite(x.Floor as real)
    case _ => a
  }
}
