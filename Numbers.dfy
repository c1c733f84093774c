/** The conversions of Go's `strconv` package used for scalar fields and for the `min`
    and `max` bounds: base-10 64-bit integer parsing, decimal floating-point parsing
    and boolean parsing. */
module Numbers {
  import opened Wrappers
  import Text

  const MaxUint64: nat := 0xFFFF_FFFF_FFFF_FFFF
  const MaxInt64: int := 0x7FFF_FFFF_FFFF_FFFF
  const MinInt64: int := -0x8000_0000_0000_0000

  /** strconv.ErrSyntax and strconv.ErrRange. */
  datatype NumErr = Syntax | Range

  predicate IsDigit(c: char) { '0' <= c <= '9' }

  predicate AllDigits(s: string)
  {
    forall i :: 0 <= i < |s| ==> IsDigit(s[i])
  }

  function DigitValue(c: char): nat
    requires IsDigit(c)
  {
    c as int - '0' as int
  }

  function DigitChar(d: nat): (c: char)
    requires d < 10
    ensures IsDigit(c) && DigitValue(c) == d
  {
    ('0' as int + d) as char
  }

  /** The value of the digit string `s` read left to right, starting from `acc`. */
  function DigitsValue(acc: nat, s: string): (v: nat)
    requires AllDigits(s)
    ensures v >= acc
    decreases |s|
  {
    if s == [] then acc else DigitsValue(acc * 10 + DigitValue(s[0]), s[1..])
  }

  lemma {:induction false} DigitsValueAppend(acc: nat, s: string, c: char)
    requires AllDigits(s) && IsDigit(c)
    ensures AllDigits(s + [c])
    ensures DigitsValue(acc, s + [c]) == DigitsValue(acc, s) * 10 + DigitValue(c)
    decreases |s|
  {
    if s != [] {
      assert (s + [c])[1..] == s[1..] + [c];
      DigitsValueAppend(acc * 10 + DigitValue(s[0]), s[1..], c);
    }
  }

  // ---------------------------------------------------------------- integers

  /** strconv.ParseUint(s, 10, 64): digits only (no sign), at most 2^64 - 1. A non-digit is a
      syntax error unless the value has already overflowed before it, which is a range error. */
  function ParseUint64(s: string): (r: Result<nat, NumErr>)
    ensures r.Success? <==> s != [] && AllDigits(s) && DigitsValue(0, s) <= MaxUint64
    ensures r.Success? ==> r.value == DigitsValue(0, s)
    ensures s != [] && AllDigits(s) && r.Failure? ==> r.error == Range
  {
    if s == [] then Failure(Syntax) else Accumulate(s, 0)
  }

  function Accumulate(s: string, acc: nat): (r: Result<nat, NumErr>)
    requires acc <= MaxUint64
    ensures r.Success? <==> AllDigits(s) && DigitsValue(acc, s) <= MaxUint64
    ensures r.Success? ==> r.value == DigitsValue(acc, s)
    ensures AllDigits(s) && r.Failure? ==> r.error == Range
    decreases |s|
  {
    if s == [] then Success(acc)
    else if !IsDigit(s[0]) then Failure(Syntax)
    else
      var n := acc * 10 + DigitValue(s[0]);
      if n > MaxUint64 then Failure(Range) else Accumulate(s[1..], n)
  }

  /** strconv.ParseInt(s, 10, 64): an optional `+` or `-`, then what ParseUint accepts,
      within [-2^63, 2^63 - 1]. */
  function ParseInt64(s: string): (r: Result<int, NumErr>)
    ensures r.Success? ==> MinInt64 <= r.value <= MaxInt64
  {
    if s == [] then Failure(Syntax)
    else
      var neg := s[0] == '-';
      var digits := if s[0] == '+' || s[0] == '-' then s[1..] else s;
      match ParseUint64(digits)
      case Failure(e) => Failure(e)
      case Success(u) =>
        if !neg && u > MaxInt64 then Failure(Range)
        else if neg && u > -MinInt64 then Failure(Range)
        else Success(if neg then -(u as int) else u as int)
  }

  /** strconv.FormatUint(n, 10). */
  function FormatUint(n: nat): (s: string)
    ensures s != [] && AllDigits(s)
  {
    if n < 10 then [DigitChar(n)]
    else
      var s := FormatUint(n / 10) + [DigitChar(n % 10)];
      assert forall i :: 0 <= i < |s| - 1 ==> s[i] == FormatUint(n / 10)[i];
      s
  }

  /** strconv.FormatInt(n, 10). */
  function FormatInt(n: int): string
  {
    if n < 0 then "-" + FormatUint(-n) else FormatUint(n)
  }

  lemma {:induction false} FormatUintValue(n: nat)
    ensures DigitsValue(0, FormatUint(n)) == n
  {
    if n >= 10 {
      FormatUintValue(n / 10);
      DigitsValueAppend(0, FormatUint(n / 10), DigitChar(n % 10));
    }
  }

  /** Parsing the decimal rendering of an unsigned 64-bit value gives the value back. */
  lemma ParseUintRoundTrip(n: nat)
    requires n <= MaxUint64
    ensures ParseUint64(FormatUint(n)) == Success(n)
  {
    FormatUintValue(n);
  }

  /** Parsing the decimal rendering of a signed 64-bit value gives the value back. */
  lemma ParseIntRoundTrip(n: int)
    requires MinInt64 <= n <= MaxInt64
    ensures ParseInt64(FormatInt(n)) == Success(n)
  {
    if n < 0 {
      FormatUintValue(-n);
      assert FormatInt(n)[1..] == FormatUint(-n);
    } else {
      FormatUintValue(n);
    }
  }

  /** An unsigned target takes no sign, not even `+`. */
  lemma ParseUintRejectsSign(s: string)
    requires s != [] && (s[0] == '+' || s[0] == '-')
    ensures ParseUint64(s) == Failure(Syntax)
  {
  }

  /** ParseInt accepts exactly an optional sign followed by a digit string whose signed value
      lies in the 64-bit range. */
  lemma ParseIntAccepts(s: string)
    ensures ParseInt64(s).Success? <==>
      var digits := if s != [] && (s[0] == '+' || s[0] == '-') then s[1..] else s;
      digits != [] && AllDigits(digits)
      && (if s[0] == '-' then DigitsValue(0, digits) <= -MinInt64 else DigitsValue(0, digits) <= MaxInt64)
    ensures ParseInt64(s).Success? ==>
      var digits := if s[0] == '+' || s[0] == '-' then s[1..] else s;
      ParseInt64(s).value == if s[0] == '-' then -(DigitsValue(0, digits) as int) else DigitsValue(0, digits) as int
  {
  }

  // ---------------------------------------------------------------- floating point

  /** A float64 value: finite values are kept exactly (no rounding). */
  datatype Num = Finite(r: real) | PosInf | NegInf | NaN

  /** IEEE 754 `<` (every comparison with NaN is false). */
  predicate Less(a: Num, b: Num)
  {
    match (a, b)
    case (NaN, _) => false
    case (_, NaN) => false
    case (NegInf, NegInf) => false
    case (NegInf, _) => true
    case (_, NegInf) => false
    case (PosInf, _) => false
    case (Finite(_), PosInf) => true
    case (Finite(x), Finite(y)) => x < y
  }

  function Pow10(n: nat): (p: nat)
    ensures p >= 1
  {
    if n == 0 then 1 else 10 * Pow10(n - 1)
  }

  /** Half a unit in the last place above the largest float64, 2^1024 - 2^970: a literal of
      at least this magnitude rounds to infinity, which ParseFloat reports as a range error. */
  const Float64Overflow: real := 179769313486231580793728971405303415079934132710037826936173778980444968292764750946649017977587207096330286416692887910946555547851940402630657488671505820681908902000708383676273854845817711531764475730270069855571366959622842914819860834936475292719074168444365510704342711559699508093042880177904174497792.0

  /** The index of the first non-digit of `s` at or after `i`. */
  function DigitRun(s: string, i: nat): (r: nat)
    requires i <= |s|
    ensures i <= r <= |s| && AllDigits(s[i..r]) && (r < |s| ==> !IsDigit(s[r]))
    decreases |s| - i
  {
    if i < |s| && IsDigit(s[i]) then
      var r := DigitRun(s, i + 1);
      assert s[i..r] == [s[i]] + s[i + 1..r];
      r
    else i
  }

  /** The optional exponent part `[eE][+-]?[0-9]+` of a decimal literal; empty means 0. */
  function ParseExponent(s: string): Option<int>
  {
    if s == [] then Some(0)
    else if s[0] != 'e' && s[0] != 'E' then None
    else
      var neg := |s| > 1 && s[1] == '-';
      var start := if |s| > 1 && (s[1] == '+' || s[1] == '-') then 2 else 1;
      var end := DigitRun(s, start);
      if end == start || end < |s| then None
      else
        var e := DigitsValue(0, s[start..end]);
        Some(if neg then -(e as int) else e as int)
  }

  /** A decimal literal `[+-]?(digits)?(.digits?)?([eE][+-]?digits)?` with at least one
      mantissa digit, as its exact value. */
  function ParseDecimal(s: string): Option<real>
  {
    var neg := s != [] && s[0] == '-';
    var start := if s != [] && (s[0] == '+' || s[0] == '-') then 1 else 0;
    var intEnd := DigitRun(s, start);
    var fracStart := if intEnd < |s| && s[intEnd] == '.' then intEnd + 1 else intEnd;
    var fracEnd := DigitRun(s, fracStart);
    var intDigits := s[start..intEnd];
    var frac := s[fracStart..fracEnd];
    if |intDigits| + |frac| == 0 then None
    else
      match ParseExponent(s[fracEnd..])
      case None => None
      case Some(e) =>
        var mantissa := DigitsValue(0, intDigits + frac) as real / Pow10(|frac|) as real;
        var v := if e >= 0 then mantissa * Pow10(e) as real else mantissa / Pow10(-e) as real;
        Some(if neg then -v else v)
  }

  /** The special spellings: `inf` or `infinity` with an optional sign, and `nan` without
      one, in any ASCII case. */
  function ParseSpecial(s: string): Option<Num>
  {
    if s == [] then None
    else
      var signed := s[0] == '+' || s[0] == '-';
      var rest := if signed then s[1..] else s;
      var word := Text.ToLower(rest);
      if word == "inf" || word == "infinity" then Some(if s[0] == '-' then NegInf else PosInf)
      else if Text.ToLower(s) == "nan" then Some(NaN)
      else None
  }

  /** strconv.ParseFloat(s, 64). */
  function ParseFloat64(s: string): (r: Result<Num, NumErr>)
    ensures r.Success? && r.value.Finite? ==> -Float64Overflow < r.value.r < Float64Overflow
  {
    match ParseSpecial(s)
    case Some(v) => Success(v)
    case None =>
      match ParseDecimal(s)
      case None => Failure(Syntax)
      case Some(v) =>
        if v <= -Float64Overflow || Float64Overflow <= v then Failure(Range) else Success(Finite(v))
  }

  lemma {:induction false} DigitRunToEnd(s: string, i: nat)
    requires i <= |s| && AllDigits(s[i..])
    ensures DigitRun(s, i) == |s|
    decreases |s| - i
  {
    if i < |s| {
      assert s[i] == s[i..][0];
      assert s[i + 1..] == s[i..][1..];
      DigitRunToEnd(s, i + 1);
    }
  }

  lemma SpecialNeedsLetter(s: string)
    requires s != [] && (IsDigit(s[0]) || (s[0] == '-' && |s| > 1 && IsDigit(s[1])))
    ensures ParseSpecial(s) == None
  {
    var rest := if s[0] == '+' || s[0] == '-' then s[1..] else s;
    assert Text.ToLower(rest)[0] == rest[0];
    assert Text.ToLower(s)[0] == s[0];
  }

  lemma {:induction false} DecimalOfDigits(s: string, start: nat)
    requires start <= 1 && start < |s| && AllDigits(s[start..])
    requires start == 1 <==> s[0] == '-'
    ensures ParseDecimal(s) == Some(if start == 1 then -(DigitsValue(0, s[1..]) as real)
                                    else DigitsValue(0, s) as real)
  {
    DigitRunToEnd(s, start);
    assert s[|s|..] == [];
    assert s[start..|s|] + [] == s[start..];
    assert s[start..] == s || start == 1;
  }

  /** A bound written as a decimal integer denotes that integer: ParseFloat of the decimal
      rendering of any 64-bit integer is that integer, exactly. */
  lemma ParseFloatOfInteger(n: int)
    requires MinInt64 <= n <= MaxUint64
    ensures ParseFloat64(FormatInt(n)) == Success(Finite(n as real))
  {
    var s := FormatInt(n);
    if n < 0 {
      assert s[1..] == FormatUint(-n);
      FormatUintValue(-n);
      SpecialNeedsLetter(s);
      DecimalOfDigits(s, 1);
    } else {
      FormatUintValue(n);
      SpecialNeedsLetter(s);
      DecimalOfDigits(s, 0);
    }
    assert (n as real) < Float64Overflow && -Float64Overflow < n as real;
  }

  // ---------------------------------------------------------------- booleans

  /** strconv.ParseBool. */
  function ParseBool(s: string): (r: Result<bool, NumErr>)
    ensures r.Failure? ==> r.error == Syntax
  {
    if s in {"1", "t", "T", "TRUE", "true", "True"} then Success(true)
    else if s in {"0", "f", "F", "FALSE", "false", "False"} then Success(false)
    else Failure(Syntax)
  }

  /** strconv.FormatBool. */
  function FormatBool(b: bool): string
  {
    if b then "true" else "false"
  }

  lemma ParseBoolRoundTrip(b: bool)
    ensures ParseBool(FormatBool(b)) == Success(b)
  {
  }

  /** Only exactly `1` and `0` count as numeric spellings; other words are errors. */
  lemma ParseBoolRejects()
    ensures ParseBool("2").Failure? && ParseBool("-1").Failure? && ParseBool("yes").Failure?
    ensures ParseBool("tRUE").Failure?
  {
  }
}
