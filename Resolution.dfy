/** What Unmarshal does to a struct, stated as functions: for each settable field, resolve
    its environment value through the tag's options and store the coerced result, recursing
    into nested structs and stopping at the first error. */
module Resolution {
  import opened Wrappers
  import Text
  import Options
  import opened Values
  import Tags
  import Names
  import Coercion
  import Slices
  import Validators

  /** The value of a field after trimming (unless `notrim`), defaulting when empty, the
      required check, and the `lower` then `upper` case mappings. */
  function Prepare(options: map<string, string>, names: seq<string>, raw: string): (r: Result<string, Error>)
    ensures r.Failure? <==>
              Options.Required in options && Trimmed(options, raw) == "" && Tags.Get(options, Options.Default) == ""
    ensures r.Failure? ==> r.error == MissingRequired(names)
    ensures r.Success? && Options.Required in options ==> r.value != ""
  {
    var val := Defaulted(options, raw);
    if Options.Required in options && val == "" then Failure(MissingRequired(names))
    else
      var lowered := if Options.Lower in options then Text.ToLower(val) else val;
      Success(if Options.Upper in options then Text.ToUpper(lowered) else lowered)
  }

  /** The value before defaulting: trimmed unless `notrim`; trimming again changes nothing. */
  function Trimmed(options: map<string, string>, raw: string): (r: string)
    ensures Options.NoTrim !in options ==> Text.TrimSpace(r) == r
  {
    if Options.NoTrim in options then raw
    else
      Text.TrimSpaceIdempotent(raw);
      Text.TrimSpace(raw)
  }

  /** The default replaces an empty value, verbatim: it is not trimmed. A non-empty value
      is never replaced, and the result is empty only when value and default both are. */
  function Defaulted(options: map<string, string>, raw: string): (r: string)
    ensures Trimmed(options, raw) != "" ==> r == Trimmed(options, raw)
    ensures r == "" <==> Trimmed(options, raw) == "" && Tags.Get(options, Options.Default) == ""
  {
    var val := Trimmed(options, raw);
    if val == "" && Tags.Get(options, Options.Default) != "" then options[Options.Default] else val
  }

  /** With both `lower` and `upper`, the value ends up upper case: `lower` has no effect. */
  lemma UpperWins(options: map<string, string>, names: seq<string>, raw: string)
    requires Options.Lower in options && Options.Upper in options
    requires Prepare(options, names, raw).Success?
    ensures Prepare(options, names, raw).value == Text.ToUpper(Defaulted(options, raw))
  {
    Text.UpperAfterLower(Defaulted(options, raw));
  }

  /** An unset or blank variable takes the default exactly as written in the tag. */
  lemma DefaultIsVerbatim(options: map<string, string>, names: seq<string>, raw: string)
    requires Trimmed(options, raw) == "" && Tags.Get(options, Options.Default) != ""
    requires Options.Lower !in options && Options.Upper !in options
    ensures Prepare(options, names, raw) == Success(options[Options.Default])
  {
  }

  /** With `notrim` and no case option, a non-empty value is kept exactly, white space included. */
  lemma NoTrimKeepsValue(options: map<string, string>, names: seq<string>, raw: string)
    requires Options.NoTrim in options && raw != ""
    requires Options.Lower !in options && Options.Upper !in options
    ensures Prepare(options, names, raw) == Success(raw)
  {
  }

  /** Without `notrim` and without a case option, a value that is not blank is taken trimmed. */
  lemma TrimsByDefault(options: map<string, string>, names: seq<string>, raw: string)
    requires Options.NoTrim !in options && Text.TrimSpace(raw) != ""
    requires Options.Lower !in options && Options.Upper !in options
    ensures Prepare(options, names, raw) == Success(Text.TrimSpace(raw))
  {
  }

  /** With `lower` alone, a field that passes the required check holds its trimmed or
      defaulted value lower-cased. */
  lemma LowerAlone(options: map<string, string>, names: seq<string>, raw: string)
    requires Options.Lower in options && Options.Upper !in options
    requires !(Options.Required in options && Trimmed(options, raw) == "" && Tags.Get(options, Options.Default) == "")
    ensures Prepare(options, names, raw) == Success(Text.ToLower(Defaulted(options, raw)))
  {
  }

  // ---------------------------------------------------------------- AWS validation

  /** The validators of `table` that the options select, visiting its keys in the order
      of `keys`. */
  function Chosen(table: map<string, Validators.Validator>, keys: seq<string>, options: map<string, string>)
    : (vs: seq<Validators.Validator>)
    requires forall k <- keys :: k in table
    ensures |vs| <= |keys|
  {
    if keys == [] then []
    else
      (if keys[0] in options then [table[keys[0]]] else [])
      + Chosen(table, keys[1..], options)
  }

  function ChosenValidators(options: map<string, string>): seq<Validators.Validator>
  {
    Chosen(Validators.AwsValidationMap, Options.ValidatorKeywords, options)
  }

  /** checkForAwsValidation: nothing to check for an empty value of a field that is not
      required; two or more `v_aws_*` options are an error; exactly one applies its check. */
  function AwsValidation(fieldName: string, val: string, options: map<string, string>): Outcome<Error>
  {
    if Options.Required !in options && val == "" then Pass
    else Pick(fieldName, val, ChosenValidators(options))
  }

  /** The outcome once the validators are chosen: an error for more than one, the check of
      the only one, or nothing to check. */
  function Pick(fieldName: string, val: string, vs: seq<Validators.Validator>): (r: Outcome<Error>)
    ensures |vs| > 1 ==> r == Fail(MultipleValidators(fieldName))
    ensures |vs| == 0 ==> r == Pass
    ensures |vs| == 1 ==> (r.Pass? <==> Validators.Validate(vs[0], val).Pass?)
  {
    if |vs| > 1 then Fail(MultipleValidators(fieldName))
    else if |vs| == 1 then Apply(vs[0], val)
    else Pass
  }

  /** One validator applied to the value, its failure reported as an invalid format. */
  function Apply(v: Validators.Validator, val: string): (r: Outcome<Error>)
    ensures r.Pass? <==> Validators.Validate(v, val).Pass?
    ensures r.Fail? ==> r.error == InvalidFormat(Validators.Validate(v, val).error)
  {
    match Validators.Validate(v, val)
    case Pass => Pass
    case Fail(failure) => Fail(InvalidFormat(failure))
  }

  /** For the keyword order the model visits, the number of validators chosen is the number
      of `v_aws_*` keywords in the options; ChosenCountOf states it for any order. */
  lemma ChosenCount(options: map<string, string>)
    ensures |ChosenValidators(options)|
            == |set k | k in Validators.AwsValidationMap.Keys && k in options|
  {
    var keys := Options.ValidatorKeywords;
    var present := set k | k in Validators.AwsValidationMap.Keys && k in options;
    Validators.ValidationMapOneToOne();
    ChosenCountOf(Validators.AwsValidationMap, keys, options);
    assert present == set k | k in keys && k in options;
  }

  lemma {:induction false} ChosenCountOf(table: map<string, Validators.Validator>, keys: seq<string>,
                                         options: map<string, string>)
    requires forall k <- keys :: k in table
    requires forall i, j :: 0 <= i < j < |keys| ==> keys[i] != keys[j]
    ensures |Chosen(table, keys, options)| == |set k | k in keys && k in options|
    decreases |keys|
  {
    if keys != [] {
      ChosenCountOf(table, keys[1..], options);
      var rest := set k | k in keys[1..] && k in options;
      var all := set k | k in keys && k in options;
      assert keys[0] !in keys[1..];
      if keys[0] in options {
        assert all == rest + {keys[0]};
      } else {
        assert all == rest;
      }
    }
  }

  /** Two `v_aws_*` options on a field that is checked at all are always an error. */
  lemma AwsExclusive(fieldName: string, val: string, options: map<string, string>, k1: string, k2: string)
    requires k1 in Validators.AwsValidationMap && k2 in Validators.AwsValidationMap && k1 != k2
    requires k1 in options && k2 in options
    requires Options.Required in options || val != ""
    ensures AwsValidation(fieldName, val, options) == Fail(MultipleValidators(fieldName))
  {
    ChosenCount(options);
    var present := set k | k in Validators.AwsValidationMap.Keys && k in options;
    assert {k1, k2} <= present;
    assert |{k1, k2}| == 2;
    SubsetSize({k1, k2}, present);
  }

  lemma SubsetSize(a: set<string>, b: set<string>)
    requires a <= b
    ensures |a| <= |b|
  {
    assert b == a + (b - a);
  }

  /** A single `v_aws_*` option applies exactly the check the table maps it to. */
  lemma AwsSingle(fieldName: string, val: string, options: map<string, string>, k: string)
    requires k in Validators.AwsValidationMap && k in options
    requires forall k' <- Validators.AwsValidationMap :: k' in options ==> k' == k
    requires Options.Required in options || val != ""
    ensures AwsValidation(fieldName, val, options).Pass?
            <==> Validators.Validate(Validators.AwsValidationMap[k], val).Pass?
    ensures AwsValidation(fieldName, val, options).Fail? ==>
              AwsValidation(fieldName, val, options)
              == Fail(InvalidFormat(Validators.Validate(Validators.AwsValidationMap[k], val).error))
  {
    Validators.ValidationMapOneToOne();
    var vs := ChosenValidators(options);
    var keys := Options.ValidatorKeywords;
    ChosenCount(options);
    var present := set k' | k' in Validators.AwsValidationMap.Keys && k' in options;
    assert present == {k};
    forall k' <- keys | k' in options ensures k' == k {
      assert k' in Validators.AwsValidationMap;
    }
    ChosenOnly(Validators.AwsValidationMap, keys, options, k);
    assert vs[0] in vs;
  }

  lemma {:induction false} ChosenOnly(table: map<string, Validators.Validator>, keys: seq<string>,
                                      options: map<string, string>, k: string)
    requires k in table
    requires forall k' <- keys :: k' in table
    requires forall k' <- keys :: k' in options ==> k' == k
    ensures forall v <- Chosen(table, keys, options) :: v == table[k]
    decreases |keys|
  {
    if keys != [] {
      assert keys[0] in keys;
      ChosenOnly(table, keys[1..], options, k);
    }
  }

  /** Without any `v_aws_*` option there is nothing to check. */
  lemma AwsNone(fieldName: string, val: string, options: map<string, string>)
    requires forall k <- Validators.AwsValidationMap :: k !in options
    ensures AwsValidation(fieldName, val, options) == Pass
  {
    ChosenCount(options);
    var present := set k | k in Validators.AwsValidationMap.Keys && k in options;
    assert present == {};
  }

  /** An empty value of a field that is not required is never validated. */
  lemma AwsSkipsEmpty(fieldName: string, options: map<string, string>)
    requires Options.Required !in options
    ensures AwsValidation(fieldName, "", options) == Pass
  {
  }

  // ---------------------------------------------------------------- one field

  /** One tagged, settable, non-struct field: the tag's options, the candidate names, the
      first value found, prepared, then a slice is split and coerced element by element
      while a scalar is AWS-validated and coerced. */
  function ResolveLeaf(cfg: Config, env: map<string, string>, f: Field): (r: Result<Value, Error>)
    requires f.tag.Some? && !f.typ.Struct?
    ensures r.Success? ==> Conforms(f.typ, r.value)
  {
    var options := Tags.TagOptions(cfg.tagOptionSeparator, f.tag.value);
    var names := Names.EnvNames(cfg, f.name, options);
    match Prepare(options, names, Names.EnvValue(env, names))
    case Failure(e) => Failure(e)
    case Success(val) =>
      if f.typ.Slice? then
        var items := Slices.SliceValues(options, cfg.sliceValueSeparator, f.typ.elem, val);
        if items.Failure? then Failure(items.error) else Success(List(items.value))
      else
        var check := AwsValidation(f.name, val, options);
        if check.Fail? then Failure(check.error)
        else Coercion.SetReflectValue(f.typ.kind, val, options)
  }

  /** A required field with no value anywhere and no default reports every name it tried. */
  lemma RequiredMissing(cfg: Config, env: map<string, string>, f: Field)
    requires f.tag.Some? && !f.typ.Struct?
    requires var options := Tags.TagOptions(cfg.tagOptionSeparator, f.tag.value);
             Options.Required in options && Tags.Get(options, Options.Default) == ""
             && forall n <- Names.EnvNames(cfg, f.name, options) :: Trimmed(options, Names.Getenv(env, n)) == ""
    ensures ResolveLeaf(cfg, env, f) == Failure(MissingRequired(
              Names.EnvNames(cfg, f.name, Tags.TagOptions(cfg.tagOptionSeparator, f.tag.value))))
  {
    var options := Tags.TagOptions(cfg.tagOptionSeparator, f.tag.value);
    var names := Names.EnvNames(cfg, f.name, options);
    var raw := Names.EnvValue(env, names);
    if raw != "" {
      var k :| Names.FirstSet(env, names, k) && raw == Names.Getenv(env, names[k]);
      assert names[k] in names;
    } else {
      Text.TrimSpaceEmpty(raw);
    }
    assert Prepare(options, names, raw) == Failure(MissingRequired(names));
  }

  /** A scalar field none of whose variables is set takes its default: with no case option
      and no `v_aws_*` option, the field's value is the default, coerced to its kind. */
  lemma DefaultWhenUnset(cfg: Config, env: map<string, string>, f: Field)
    requires f.tag.Some? && f.typ.Scalar?
    requires var options := Tags.TagOptions(cfg.tagOptionSeparator, f.tag.value);
             Tags.Get(options, Options.Default) != ""
             && Options.Lower !in options && Options.Upper !in options
             && (forall k <- Validators.AwsValidationMap :: k !in options)
             && forall n <- Names.EnvNames(cfg, f.name, options) :: Names.Getenv(env, n) == ""
    ensures var options := Tags.TagOptions(cfg.tagOptionSeparator, f.tag.value);
            ResolveLeaf(cfg, env, f) == Coercion.SetReflectValue(f.typ.kind, options[Options.Default], options)
  {
    var options := Tags.TagOptions(cfg.tagOptionSeparator, f.tag.value);
    var names := Names.EnvNames(cfg, f.name, options);
    NothingSet(env, names);
    DefaultPrepared(options, names);
    var d := options[Options.Default];
    AwsNone(f.name, d, options);
    ScalarLeaf(cfg, env, f, d);
  }

  /** No listed variable is set: the lookup finds nothing. */
  lemma NothingSet(env: map<string, string>, names: seq<string>)
    requires forall n <- names :: Names.Getenv(env, n) == ""
    ensures Names.EnvValue(env, names) == ""
  {
    forall k | 0 <= k < |names| ensures Names.Getenv(env, names[k]) == "" {
      assert names[k] in names;
    }
  }

  /** Nothing found, a default and no case option: the prepared value is the default. */
  lemma DefaultPrepared(options: map<string, string>, names: seq<string>)
    requires Tags.Get(options, Options.Default) != ""
    requires Options.Lower !in options && Options.Upper !in options
    ensures Prepare(options, names, "") == Success(options[Options.Default])
  {
    Text.TrimSpaceEmpty("");
  }

  /** A tagged scalar field whose value prepares to `val` is validated, then coerced. */
  lemma ScalarLeaf(cfg: Config, env: map<string, string>, f: Field, val: string)
    requires f.tag.Some? && f.typ.Scalar?
    requires var options := Tags.TagOptions(cfg.tagOptionSeparator, f.tag.value);
             var names := Names.EnvNames(cfg, f.name, options);
             Prepare(options, names, Names.EnvValue(env, names)) == Success(val)
    ensures var options := Tags.TagOptions(cfg.tagOptionSeparator, f.tag.value);
            ResolveLeaf(cfg, env, f)
            == if AwsValidation(f.name, val, options).Fail? then Failure(AwsValidation(f.name, val, options).error)
               else Coercion.SetReflectValue(f.typ.kind, val, options)
  {
  }

  /** A slice field is never AWS-validated. */
  lemma SliceSkipsAws(cfg: Config, env: map<string, string>, f: Field)
    requires f.tag.Some? && f.typ.Slice?
    ensures ResolveLeaf(cfg, env, f).Failure? ==>
              !ResolveLeaf(cfg, env, f).error.MultipleValidators? && !ResolveLeaf(cfg, env, f).error.InvalidFormat?
  {
    var options := Tags.TagOptions(cfg.tagOptionSeparator, f.tag.value);
    var names := Names.EnvNames(cfg, f.name, options);
    var p := Prepare(options, names, Names.EnvValue(env, names));
    if p.Success? {
      var items := Slices.SliceValues(options, cfg.sliceValueSeparator, f.typ.elem, p.value);
      if items.Failure? {
        SliceErrorIsCoercion(options, cfg.sliceValueSeparator, f.typ.elem, p.value);
      }
    }
  }

  /** The error of a slice is the coercion error of one of its items. */
  lemma SliceErrorIsCoercion(options: map<string, string>, separator: string, kind: Kind, val: string)
    requires Slices.SliceValues(options, separator, kind, val).Failure?
    ensures var e := Slices.SliceValues(options, separator, kind, val).error;
            !e.MultipleValidators? && !e.InvalidFormat? && !e.MissingRequired?
  {
    var items := Slices.SliceItems(Text.Split(val, separator), Options.NoTrim in options);
    var j :| Slices.FirstFailure(kind, items, options, j)
             && Slices.SliceValues(options, separator, kind, val).error
                == Coercion.SetReflectValue(kind, items[j], options).error;
    CoercionErrors(kind, items[j], options);
  }

  lemma CoercionErrors(kind: Kind, s: string, options: map<string, string>)
    requires Coercion.SetReflectValue(kind, s, options).Failure?
    ensures var e := Coercion.SetReflectValue(kind, s, options).error;
            !e.MultipleValidators? && !e.InvalidFormat? && !e.MissingRequired?
  {
  }

  // ---------------------------------------------------------------- the struct walk

  /** The field values after a run, and the error that stopped it, if any. */
  datatype Run = Run(vals: seq<Value>, err: Option<Error>)

  /** A field the walk never writes: unexported, or neither a struct nor tagged. */
  predicate Skipped(f: Field)
  {
    !f.exported || (!f.typ.Struct? && f.tag.None?)
  }

  /** Unmarshal from field `i` on: unexported fields are skipped; a struct field is walked
      recursively (its partial writes stay even when it fails); an untagged field is skipped;
      a tagged field is resolved and stored, and the first error stops the walk. */
  function UnmarshalFrom(cfg: Config, env: map<string, string>, fields: seq<Field>, vals: seq<Value>, i: nat)
    : (r: Run)
    requires i <= |fields| && ConformsAll(fields, vals)
    ensures ConformsAll(fields, r.vals)
    ensures forall j :: 0 <= j < i ==> r.vals[j] == vals[j]
    ensures forall j :: i <= j < |fields| && Skipped(fields[j]) ==> r.vals[j] == vals[j]
    decreases fields, |fields| - i
  {
    if i == |fields| then Run(vals, None)
    else
      var f := fields[i];
      if !f.exported then UnmarshalFrom(cfg, env, fields, vals, i + 1)
      else if f.typ.Struct? then
        var sub := UnmarshalFrom(cfg, env, f.typ.fields, vals[i].fields, 0);
        var next := vals[i := Record(sub.vals)];
        if sub.err.Some? then Run(next, sub.err)
        else UnmarshalFrom(cfg, env, fields, next, i + 1)
      else if f.tag.None? then UnmarshalFrom(cfg, env, fields, vals, i + 1)
      else
        match ResolveLeaf(cfg, env, f)
        case Failure(e) => Run(vals, Some(e))
        case Success(v) => UnmarshalFrom(cfg, env, fields, vals[i := v], i + 1)
  }

  /** Unmarshal: the walk over all fields. */
  function Unmarshal(cfg: Config, env: map<string, string>, fields: seq<Field>, vals: seq<Value>): (r: Run)
    requires ConformsAll(fields, vals)
    ensures ConformsAll(fields, r.vals)
  {
    UnmarshalFrom(cfg, env, fields, vals, 0)
  }

  /** Every field the walk skips holds the same value in `after` as in `before`, at this level
      and, through the settable struct fields, at every level below it. */
  ghost predicate KeepsSkipped(fields: seq<Field>, before: seq<Value>, after: seq<Value>)
    decreases fields
  {
    |before| == |fields| && |after| == |fields|
    && forall j :: 0 <= j < |fields| ==>
         (Skipped(fields[j]) ==> after[j] == before[j])
         && (fields[j].exported && fields[j].typ.Struct? ==>
               before[j].Record? && after[j].Record?
               && KeepsSkipped(fields[j].typ.fields, before[j].fields, after[j].fields))
  }

  lemma {:induction false} KeepsSkippedRefl(fields: seq<Field>, vals: seq<Value>)
    requires ConformsAll(fields, vals)
    ensures KeepsSkipped(fields, vals, vals)
    decreases fields
  {
    forall j | 0 <= j < |fields| && fields[j].exported && fields[j].typ.Struct?
      ensures KeepsSkipped(fields[j].typ.fields, vals[j].fields, vals[j].fields)
    {
      KeepsSkippedRefl(fields[j].typ.fields, vals[j].fields);
    }
  }

  lemma {:induction false} KeepsSkippedTrans(fields: seq<Field>, a: seq<Value>, b: seq<Value>, c: seq<Value>)
    requires KeepsSkipped(fields, a, b) && KeepsSkipped(fields, b, c)
    ensures KeepsSkipped(fields, a, c)
    decreases fields
  {
    forall j | 0 <= j < |fields| && fields[j].exported && fields[j].typ.Struct?
      ensures KeepsSkipped(fields[j].typ.fields, a[j].fields, c[j].fields)
    {
      KeepsSkippedTrans(fields[j].typ.fields, a[j].fields, b[j].fields, c[j].fields);
    }
  }

  /** Writing field `i`, a field the walk does not skip, keeps the skipped fields, provided
      a struct field's new value keeps its own skipped fields. */
  lemma KeepsSkippedUpdate(fields: seq<Field>, vals: seq<Value>, i: nat, v: Value)
    requires i < |fields| && ConformsAll(fields, vals) && !Skipped(fields[i])
    requires fields[i].typ.Struct? ==>
               v.Record? && KeepsSkipped(fields[i].typ.fields, vals[i].fields, v.fields)
    ensures KeepsSkipped(fields, vals, vals[i := v])
  {
    forall j | 0 <= j < |fields| && j != i && fields[j].exported && fields[j].typ.Struct?
      ensures KeepsSkipped(fields[j].typ.fields, vals[j].fields, vals[j].fields)
    {
      KeepsSkippedRefl(fields[j].typ.fields, vals[j].fields);
    }
  }

  /** The walk never writes a skipped field: an unexported field, or an untagged field that is
      not a struct, keeps its value, in nested structs as well as at the top. */
  lemma {:induction false} UnmarshalKeepsSkipped(cfg: Config, env: map<string, string>, fields: seq<Field>,
                                                 vals: seq<Value>, i: nat)
    requires i <= |fields| && ConformsAll(fields, vals)
    ensures KeepsSkipped(fields, vals, UnmarshalFrom(cfg, env, fields, vals, i).vals)
    decreases fields, |fields| - i
  {
    if i == |fields| {
      KeepsSkippedRefl(fields, vals);
    } else {
      var f := fields[i];
      if Skipped(f) {
        SkipStep(cfg, env, fields, vals, i);
        UnmarshalKeepsSkipped(cfg, env, fields, vals, i + 1);
      } else if f.typ.Struct? {
        StructStep(cfg, env, fields, vals, i);
        var sub := UnmarshalFrom(cfg, env, f.typ.fields, vals[i].fields, 0);
        var next := vals[i := Record(sub.vals)];
        UnmarshalKeepsSkipped(cfg, env, f.typ.fields, vals[i].fields, 0);
        KeepsSkippedUpdate(fields, vals, i, Record(sub.vals));
        if sub.err.None? {
          UnmarshalKeepsSkipped(cfg, env, fields, next, i + 1);
          KeepsSkippedTrans(fields, vals, next, UnmarshalFrom(cfg, env, fields, next, i + 1).vals);
        }
      } else if ResolveLeaf(cfg, env, f).Success? {
        var v := ResolveLeaf(cfg, env, f).value;
        LeafStep(cfg, env, fields, vals, i, v);
        KeepsSkippedUpdate(fields, vals, i, v);
        UnmarshalKeepsSkipped(cfg, env, fields, vals[i := v], i + 1);
        KeepsSkippedTrans(fields, vals, vals[i := v], UnmarshalFrom(cfg, env, fields, vals[i := v], i + 1).vals);
      } else {
        LeafFailureStops(cfg, env, fields, vals, i);
        KeepsSkippedRefl(fields, vals);
      }
    }
  }

  /** Whether the walk fails, and with which error, does not depend on what the fields held
      before: every value it reads comes from the environment and the tags. */
  lemma {:induction false} ErrorIndependentOfContents(cfg: Config, env: map<string, string>, fields: seq<Field>,
                                                      vals1: seq<Value>, vals2: seq<Value>, i: nat)
    requires i <= |fields| && ConformsAll(fields, vals1) && ConformsAll(fields, vals2)
    ensures UnmarshalFrom(cfg, env, fields, vals1, i).err == UnmarshalFrom(cfg, env, fields, vals2, i).err
    decreases fields, |fields| - i
  {
    if i < |fields| {
      var f := fields[i];
      if !f.exported || (!f.typ.Struct? && f.tag.None?) {
        SkipStep(cfg, env, fields, vals1, i);
        SkipStep(cfg, env, fields, vals2, i);
        ErrorIndependentOfContents(cfg, env, fields, vals1, vals2, i + 1);
      } else if f.typ.Struct? {
        StructStep(cfg, env, fields, vals1, i);
        StructStep(cfg, env, fields, vals2, i);
        ErrorIndependentOfContents(cfg, env, f.typ.fields, vals1[i].fields, vals2[i].fields, 0);
        var sub1 := UnmarshalFrom(cfg, env, f.typ.fields, vals1[i].fields, 0);
        var sub2 := UnmarshalFrom(cfg, env, f.typ.fields, vals2[i].fields, 0);
        if sub1.err.None? {
          ErrorIndependentOfContents(cfg, env, fields, vals1[i := Record(sub1.vals)], vals2[i := Record(sub2.vals)], i + 1);
        }
      } else if ResolveLeaf(cfg, env, f).Success? {
        var v := ResolveLeaf(cfg, env, f).value;
        LeafStep(cfg, env, fields, vals1, i, v);
        LeafStep(cfg, env, fields, vals2, i, v);
        ErrorIndependentOfContents(cfg, env, fields, vals1[i := v], vals2[i := v], i + 1);
      } else {
        LeafFailureStops(cfg, env, fields, vals1, i);
        LeafFailureStops(cfg, env, fields, vals2, i);
      }
    }
  }

  /** Unmarshalling a second time into the result of a successful run changes nothing. */
  lemma {:induction false} UnmarshalIdempotent(cfg: Config, env: map<string, string>, fields: seq<Field>,
                                               vals: seq<Value>, i: nat)
    requires i <= |fields| && ConformsAll(fields, vals)
    requires UnmarshalFrom(cfg, env, fields, vals, i).err.None?
    ensures var r := UnmarshalFrom(cfg, env, fields, vals, i);
            UnmarshalFrom(cfg, env, fields, r.vals, i) == r
    decreases fields, |fields| - i, 2
  {
    if i < |fields| {
      var f := fields[i];
      if Skipped(f) {
        UnmarshalIdempotent(cfg, env, fields, vals, i + 1);
      } else if f.typ.Struct? {
        IdempotentStruct(cfg, env, fields, vals, i);
      } else {
        IdempotentLeaf(cfg, env, fields, vals, i);
      }
    }
  }

  lemma {:induction false} IdempotentStruct(cfg: Config, env: map<string, string>, fields: seq<Field>,
                                            vals: seq<Value>, i: nat)
    requires i < |fields| && ConformsAll(fields, vals)
    requires fields[i].exported && fields[i].typ.Struct?
    requires UnmarshalFrom(cfg, env, fields, vals, i).err.None?
    ensures var r := UnmarshalFrom(cfg, env, fields, vals, i);
            UnmarshalFrom(cfg, env, fields, r.vals, i) == r
    decreases fields, |fields| - i, 1
  {
    var f := fields[i];
    var sub := UnmarshalFrom(cfg, env, f.typ.fields, vals[i].fields, 0);
    var next := vals[i := Record(sub.vals)];
    var r := UnmarshalFrom(cfg, env, fields, next, i + 1);
    assert UnmarshalFrom(cfg, env, fields, vals, i) == r;
    UnmarshalIdempotent(cfg, env, f.typ.fields, vals[i].fields, 0);
    UnmarshalIdempotent(cfg, env, fields, next, i + 1);
    assert r.vals[i] == Record(sub.vals);
    assert r.vals[i := Record(sub.vals)] == r.vals;
  }

  lemma {:induction false} IdempotentLeaf(cfg: Config, env: map<string, string>, fields: seq<Field>,
                                          vals: seq<Value>, i: nat)
    requires i < |fields| && ConformsAll(fields, vals)
    requires fields[i].exported && !fields[i].typ.Struct? && fields[i].tag.Some?
    requires UnmarshalFrom(cfg, env, fields, vals, i).err.None?
    ensures var r := UnmarshalFrom(cfg, env, fields, vals, i);
            UnmarshalFrom(cfg, env, fields, r.vals, i) == r
    decreases fields, |fields| - i, 1
  {
    var leaf := ResolveLeaf(cfg, env, fields[i]);
    if leaf.Failure? {
      LeafFailureStops(cfg, env, fields, vals, i);
    }
    IdempotentLeafWith(cfg, env, fields, vals, i, leaf.value);
  }

  lemma {:induction false} IdempotentLeafWith(cfg: Config, env: map<string, string>, fields: seq<Field>,
                                              vals: seq<Value>, i: nat, v: Value)
    requires i < |fields| && ConformsAll(fields, vals)
    requires fields[i].exported && !fields[i].typ.Struct? && fields[i].tag.Some?
    requires ResolveLeaf(cfg, env, fields[i]) == Success(v)
    requires UnmarshalFrom(cfg, env, fields, vals, i).err.None?
    ensures var r := UnmarshalFrom(cfg, env, fields, vals, i);
            UnmarshalFrom(cfg, env, fields, r.vals, i) == r
    decreases fields, |fields| - i, 0
  {
    LeafStep(cfg, env, fields, vals, i, v);
    var next := vals[i := v];
    var r := UnmarshalFrom(cfg, env, fields, next, i + 1);
    UnmarshalIdempotent(cfg, env, fields, next, i + 1);
    assert r.vals[i] == v;
    assert r.vals[i := v] == r.vals;
    LeafStep(cfg, env, fields, r.vals, i, v);
  }

  /** An unexported or untagged scalar field is passed over. */
  lemma SkipStep(cfg: Config, env: map<string, string>, fields: seq<Field>, vals: seq<Value>, i: nat)
    requires i < |fields| && ConformsAll(fields, vals)
    requires !fields[i].exported || (!fields[i].typ.Struct? && fields[i].tag.None?)
    ensures UnmarshalFrom(cfg, env, fields, vals, i) == UnmarshalFrom(cfg, env, fields, vals, i + 1)
  {
  }

  /** A struct field is walked on its own values; what the walk wrote is stored, and its
      error, if any, stops the outer walk. */
  lemma StructStep(cfg: Config, env: map<string, string>, fields: seq<Field>, vals: seq<Value>, i: nat)
    requires i < |fields| && ConformsAll(fields, vals)
    requires fields[i].exported && fields[i].typ.Struct?
    ensures var sub := UnmarshalFrom(cfg, env, fields[i].typ.fields, vals[i].fields, 0);
            var next := vals[i := Record(sub.vals)];
            ConformsAll(fields, next)
            && UnmarshalFrom(cfg, env, fields, vals, i)
               == if sub.err.Some? then Run(next, sub.err) else UnmarshalFrom(cfg, env, fields, next, i + 1)
  {
  }

  /** A tagged scalar or slice field that resolves is stored, and the walk goes on. */
  lemma LeafStep(cfg: Config, env: map<string, string>, fields: seq<Field>, vals: seq<Value>, i: nat, v: Value)
    requires i < |fields| && ConformsAll(fields, vals)
    requires fields[i].exported && !fields[i].typ.Struct? && fields[i].tag.Some?
    requires ResolveLeaf(cfg, env, fields[i]) == Success(v)
    ensures ConformsAll(fields, vals[i := v])
    ensures UnmarshalFrom(cfg, env, fields, vals, i) == UnmarshalFrom(cfg, env, fields, vals[i := v], i + 1)
  {
  }

  /** A tagged scalar or slice field that does not resolve stops the walk with its error,
      leaving every field as it was. */
  lemma LeafFailureStops(cfg: Config, env: map<string, string>, fields: seq<Field>, vals: seq<Value>, i: nat)
    requires i < |fields| && ConformsAll(fields, vals)
    requires fields[i].exported && !fields[i].typ.Struct? && fields[i].tag.Some?
    requires ResolveLeaf(cfg, env, fields[i]).Failure?
    ensures UnmarshalFrom(cfg, env, fields, vals, i) == Run(vals, Some(ResolveLeaf(cfg, env, fields[i]).error))
  {
  }
}
