/** The data the resolver works on: parser settings, field descriptors standing for a
    struct type's fields, the values stored in fields, and the errors it reports. */
module Values {
  import opened Wrappers
  import Numbers
  import Validators

  /** The three settings of a Parser. */
  datatype Config = Config(tagOptionSeparator: string, sliceValueSeparator: string, namePrefix: string)

  /** The scalar kinds the coercion step dispatches on; every other Go kind
      (maps, pointers, arrays, structs inside slices, ...) is Unsupported. */
  datatype Kind = StringKind | IntKind | UintKind | FloatKind | BoolKind | Unsupported

  /** The type of a field: a scalar, a slice of scalars, or a nested struct. */
  datatype FieldType =
    | Scalar(kind: Kind)
    | Slice(elem: Kind)
    | Struct(fields: seq<Field>)

  /** A struct field: its declared name, whether it is exported (settable), its `env`
      tag if it has one, and its type. */
  datatype Field = Field(name: string, exported: bool, tag: Option<string>, typ: FieldType)

  /** The value stored in a field. Other holds the value of an unsupported kind, which the
      resolver can never write. */
  datatype Value =
    | Str(s: string)
    | Int(i: int)
    | Uint(u: nat)
    | Float(f: Numbers.Num)
    | Bool(b: bool)
    | List(items: seq<Value>)
    | Record(fields: seq<Value>)
    | Other

  /** The source of a strconv error. */
  datatype ParseFunc = ParseIntFunc | ParseUintFunc | ParseFloatFunc | ParseBoolFunc

  datatype Error =
    | MissingRequired(names: seq<string>)          // no value after trimming and defaulting
    | MultipleValidators(field: string)            // two or more v_aws_* options
    | InvalidFormat(failure: Validators.Failure)   // a v_aws_* check failed
    | NumError(fn: ParseFunc, err: Numbers.NumErr, input: string)
    | InvalidMin(bound: string)                    // the min option does not parse
    | InvalidMax(bound: string)                    // the max option does not parse
    | LessThanMin(value: Value, min: Numbers.Num)
    | GreaterThanMax(value: Value, max: Numbers.Num)
    | UnsupportedType

  /** A value a field of scalar kind `k` can hold. */
  predicate ScalarConforms(k: Kind, v: Value)
  {
    match k
    case StringKind => v.Str?
    case IntKind => v.Int? && Numbers.MinInt64 <= v.i <= Numbers.MaxInt64
    case UintKind => v.Uint? && v.u <= Numbers.MaxUint64
    case FloatKind => v.Float?
    case BoolKind => v.Bool?
    case Unsupported => v.Other?
  }

  /** A value a field of type `t` can hold (Go's static typing). */
  predicate Conforms(t: FieldType, v: Value)
    decreases t
  {
    match t
    case Scalar(k) => ScalarConforms(k, v)
    case Slice(k) => v.List? && forall x <- v.items :: ScalarConforms(k, x)
    case Struct(fs) => v.Record? && |v.fields| == |fs|
                       && forall i :: 0 <= i < |fs| ==> Conforms(fs[i].typ, v.fields[i])
  }

  predicate ConformsAll(fields: seq<Field>, vals: seq<Value>)
  {
    |fields| == |vals| && forall i :: 0 <= i < |fields| ==> Conforms(fields[i].typ, vals[i])
  }
}
