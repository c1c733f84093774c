/** Turning one string into the value of a scalar field: the strconv parse for its kind,
    then the inclusive `min`/`max` bounds for the numeric kinds. */
module Coercion {
  import opened Wrappers
  import opened Numbers
  import Options
  import opened Values

  /** compareNumeric: -1, 0 or 1 as a signed integer or a float lies below, at or above the
      threshold under IEEE comparison. Any other value, an unsigned one included, compares
      as 0. */
  function CompareNumeric(v: Value, threshold: Num): (r: int)
    ensures -1 <= r <= 1
    ensures (v.Int? || v.Float?) && r == -1 ==> Less(AsNum(v), threshold)
    ensures (v.Int? || v.Float?) && r == 1 ==> Less(threshold, AsNum(v))
    ensures (v.Int? || v.Float?) && r == 0 ==> !Less(AsNum(v), threshold) && !Less(threshold, AsNum(v))
    ensures !v.Int? && !v.Float? ==> r == 0
  {
    if v.Int? || v.Float? then
      var x := AsNum(v);
      if Less(x, threshold) then -1 else if Less(threshold, x) then 1 else 0
    else 0
  }

  /** The float64 a signed or float value converts to; finite integers keep their exact value. */
  function AsNum(v: Value): Num
    requires v.Int? || v.Float?
  {
    if v.Int? then Finite(v.i as real) else v.f
  }

  /** Both bounds present in the options parse as floats. */
  predicate BoundsParse(options: map<string, string>)
  {
    (Options.Min in options ==> ParseFloat64(options[Options.Min]).Success?)
    && (Options.Max in options ==> ParseFloat64(options[Options.Max]).Success?)
  }

  /** checkMinMax: the `min` option first (a malformed bound, then a value below it), then
      the `max` option likewise. */
  function CheckMinMax(v: Value, options: map<string, string>): (r: Outcome<Error>)
    ensures r.Pass? ==> BoundsParse(options)
  {
    if Options.Min in options && ParseFloat64(options[Options.Min]).Failure? then
      Fail(InvalidMin(options[Options.Min]))
    else if Options.Min in options && CompareNumeric(v, ParseFloat64(options[Options.Min]).value) < 0 then
      Fail(LessThanMin(v, ParseFloat64(options[Options.Min]).value))
    else if Options.Max in options && ParseFloat64(options[Options.Max]).Failure? then
      Fail(InvalidMax(options[Options.Max]))
    else if Options.Max in options && CompareNumeric(v, ParseFloat64(options[Options.Max]).value) > 0 then
      Fail(GreaterThanMax(v, ParseFloat64(options[Options.Max]).value))
    else Pass
  }

  /** setReflectValue: parse `val` for the field's kind and check the bounds. Strings are
      taken verbatim; booleans are not bound-checked. */
  function SetReflectValue(kind: Kind, val: string, options: map<string, string>): (r: Result<Value, Error>)
    ensures r.Success? ==> ScalarConforms(kind, r.value)
    ensures kind == StringKind ==> r == Success(Str(val))
    ensures kind == Unsupported ==> r == Failure(UnsupportedType)
    ensures r.Success? && kind != StringKind && kind != BoolKind ==> CheckMinMax(r.value, options).Pass?
  {
    match kind
    case StringKind => Success(Str(val))
    case IntKind =>
      var p := ParseInt64(val);
      if p.Failure? then Failure(NumError(ParseIntFunc, p.error, val))
      else Bounded(Int(p.value), options)
    case UintKind =>
      var p := ParseUint64(val);
      if p.Failure? then Failure(NumError(ParseUintFunc, p.error, val))
      else Bounded(Uint(p.value), options)
    case FloatKind =>
      var p := ParseFloat64(val);
      if p.Failure? then Failure(NumError(ParseFloatFunc, p.error, val))
      else Bounded(Float(p.value), options)
    case BoolKind =>
      var p := ParseBool(val);
      if p.Failure? then Failure(NumError(ParseBoolFunc, p.error, val))
      else Success(Bool(p.value))
    case Unsupported => Failure(UnsupportedType)
  }

  /** The parsed value itself, or the bound check's error. */
  function Bounded(v: Value, options: map<string, string>): Result<Value, Error>
  {
    var c := CheckMinMax(v, options);
    if c.Fail? then Failure(c.error) else Success(v)
  }

  /** The bounds are inclusive: a signed or float value passes exactly when the bounds parse,
      it is not below `min` and `max` is not below it. */
  lemma BoundsInclusive(v: Value, options: map<string, string>)
    requires v.Int? || v.Float?
    ensures CheckMinMax(v, options).Pass? <==>
      BoundsParse(options)
      && (Options.Min in options ==> !Less(AsNum(v), ParseFloat64(options[Options.Min]).value))
      && (Options.Max in options ==> !Less(ParseFloat64(options[Options.Max]).value, AsNum(v)))
  {
  }

  /** A NaN value, or a NaN bound, never fails the comparison. */
  lemma NaNNeverOutOfRange(v: Value, options: map<string, string>)
    requires v == Float(NaN) || ((v.Int? || v.Float?) && (forall b <- [Options.Min, Options.Max] ::
                                                            b in options ==> ParseFloat64(options[b]) == Success(NaN)))
    ensures CheckMinMax(v, options).Pass? <==> BoundsParse(options)
  {
    if v.Int? || v.Float? {
      assert Options.Min in [Options.Min, Options.Max] && Options.Max in [Options.Min, Options.Max];
    }
  }

  /** An unsigned value is never out of range: compareNumeric has no unsigned case, so only
      a malformed bound can make the check fail. */
  lemma UnsignedIgnoresBounds(n: nat, options: map<string, string>)
    ensures CheckMinMax(Uint(n), options).Pass? <==> BoundsParse(options)
  {
  }

  /** A malformed `min` is reported before anything else, and a malformed `max` is reported
      whenever the `min` check passes. */
  lemma MalformedBoundRejected(v: Value, options: map<string, string>)
    ensures Options.Min in options && ParseFloat64(options[Options.Min]).Failure? ==>
              CheckMinMax(v, options) == Fail(InvalidMin(options[Options.Min]))
    ensures Options.Max in options && ParseFloat64(options[Options.Max]).Failure?
            && !CheckMinMax(v, options).error.InvalidMin? && !CheckMinMax(v, options).error.LessThanMin? ==>
              CheckMinMax(v, options) == Fail(InvalidMax(options[Options.Max]))
  {
  }

  /** An integer field with integer bounds: the value written back is the value itself when
      it lies in [lo, hi], and otherwise the error names the bound it crosses, `min` first. */
  lemma IntFieldWithBounds(n: int, lo: int, hi: int)
    requires MinInt64 <= n <= MaxInt64 && MinInt64 <= lo <= MaxInt64 && MinInt64 <= hi <= MaxInt64
    ensures SetReflectValue(IntKind, FormatInt(n), map[Options.Min := FormatInt(lo), Options.Max := FormatInt(hi)])
            == if n < lo then Failure(LessThanMin(Int(n), Finite(lo as real)))
               else if n > hi then Failure(GreaterThanMax(Int(n), Finite(hi as real)))
               else Success(Int(n))
  {
    ParseIntRoundTrip(n);
    ParseFloatOfInteger(lo);
    ParseFloatOfInteger(hi);
  }

  /** An unsigned field takes its value whatever the bounds say, provided they parse. */
  lemma UintFieldIgnoresBounds(n: nat, options: map<string, string>)
    requires n <= MaxUint64 && BoundsParse(options)
    ensures SetReflectValue(UintKind, FormatUint(n), options) == Success(Uint(n))
  {
    ParseUintRoundTrip(n);
  }

  /** A float field given an integer literal and no bounds holds that integer exactly. */
  lemma FloatFieldOfInteger(n: int)
    requires MinInt64 <= n <= MaxUint64
    ensures SetReflectValue(FloatKind, FormatInt(n), map[]) == Success(Float(Finite(n as real)))
  {
    ParseFloatOfInteger(n);
  }

  /** An integer field, for any input: a stored value is the signed value of the digits
      after an optional sign; a value ParseInt accepts is stored exactly when the bounds pass;
      a value it rejects is reported as ParseInt's error on the input. */
  lemma IntField(s: string, options: map<string, string>)
    ensures var r := SetReflectValue(IntKind, s, options);
            var digits := if s != [] && (s[0] == '+' || s[0] == '-') then s[1..] else s;
            r.Success? ==>
              (digits != [] && AllDigits(digits)
               && r.value == Int(if s[0] == '-' then -(DigitsValue(0, digits) as int) else DigitsValue(0, digits) as int))
    ensures ParseInt64(s).Success? ==>
              (SetReflectValue(IntKind, s, options).Success? <==> CheckMinMax(Int(ParseInt64(s).value), options).Pass?)
    ensures ParseInt64(s).Failure? ==>
              SetReflectValue(IntKind, s, options) == Failure(NumError(ParseIntFunc, ParseInt64(s).error, s))
  {
    ParseIntAccepts(s);
  }

  /** An unsigned field, for any input: it takes the value of a digit string of at most
      2^64 - 1 exactly when the bounds parse, and reports ParseUint's error on anything else. */
  lemma UintField(s: string, options: map<string, string>)
    ensures SetReflectValue(UintKind, s, options).Success? <==>
              s != [] && AllDigits(s) && DigitsValue(0, s) <= MaxUint64 && BoundsParse(options)
    ensures SetReflectValue(UintKind, s, options).Success? ==>
              SetReflectValue(UintKind, s, options).value == Uint(DigitsValue(0, s))
    ensures ParseUint64(s).Failure? ==>
              SetReflectValue(UintKind, s, options) == Failure(NumError(ParseUintFunc, ParseUint64(s).error, s))
  {
    if ParseUint64(s).Success? {
      UnsignedIgnoresBounds(ParseUint64(s).value, options);
    }
  }

  /** A float field, for any input: a stored value is ParseFloat's result, stored exactly when
      the bounds pass; a value ParseFloat rejects is reported as its error on the input. */
  lemma FloatField(s: string, options: map<string, string>)
    ensures SetReflectValue(FloatKind, s, options).Success? ==>
              ParseFloat64(s).Success? && SetReflectValue(FloatKind, s, options).value == Float(ParseFloat64(s).value)
    ensures ParseFloat64(s).Success? ==>
              (SetReflectValue(FloatKind, s, options).Success? <==> CheckMinMax(Float(ParseFloat64(s).value), options).Pass?)
    ensures ParseFloat64(s).Failure? ==>
              SetReflectValue(FloatKind, s, options) == Failure(NumError(ParseFloatFunc, ParseFloat64(s).error, s))
  {
  }

  /** A bool field accepts exactly the twelve spellings of strconv.ParseBool, holding true
      for the six true ones, rejects anything else as a ParseBool syntax error, and takes back
      what FormatBool writes. */
  lemma BoolField(s: string, b: bool, options: map<string, string>)
    ensures SetReflectValue(BoolKind, s, options).Success? <==>
              s in {"1", "t", "T", "TRUE", "true", "True", "0", "f", "F", "FALSE", "false", "False"}
    ensures SetReflectValue(BoolKind, s, options).Success? ==>
              SetReflectValue(BoolKind, s, options).value == Bool(s in {"1", "t", "T", "TRUE", "true", "True"})
    ensures SetReflectValue(BoolKind, s, options).Failure? ==>
              SetReflectValue(BoolKind, s, options) == Failure(NumError(ParseBoolFunc, Syntax, s))
    ensures SetReflectValue(BoolKind, FormatBool(b), options) == Success(Bool(b))
  {
    ParseBoolRoundTrip(b);
  }

  /** An unsigned field rejects any sign, `+` as well as `-`, as a ParseUint syntax error. */
  lemma NumberFieldErrors(s: string, options: map<string, string>)
    requires s != [] && (s[0] == '+' || s[0] == '-')
    ensures SetReflectValue(UintKind, s, options) == Failure(NumError(ParseUintFunc, Syntax, s))
  {
    ParseUintRejectsSign(s);
  }

  /** A value whose first character after an optional sign is not a digit (letters, white
      space, nothing at all) is a syntax error for an integer field; so, for an unsigned
      field, is a value that does not start with a digit. */
  lemma NonDigitRejected(s: string, options: map<string, string>)
    requires var digits := if s != [] && (s[0] == '+' || s[0] == '-') then s[1..] else s;
             digits == [] || !IsDigit(digits[0])
    ensures SetReflectValue(IntKind, s, options) == Failure(NumError(ParseIntFunc, Syntax, s))
    ensures s == [] || !IsDigit(s[0]) ==>
              SetReflectValue(UintKind, s, options) == Failure(NumError(ParseUintFunc, Syntax, s))
  {
  }
}
