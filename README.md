# go-env in Dafny

A model of the core of go-env, a Go library that fills a struct's fields from
environment variables according to `env:"..."` struct tags. The model covers:

- the configurable `Parser` (tag option separator, slice value separator, name prefix)
  and its `With*` setters;
- the tag mini-language parsed by `parseTag` and its twelve option keywords;
- the candidate variable names (`getEnvNames`) and the first-non-empty lookup
  (`getEnvValue`);
- the per-field pipeline of `Unmarshal`: trim, default, required, lower, upper, then
  either the slice path (`handleSliceWithSeparator`) or the AWS validation step
  (`checkForAwsValidation`) followed by coercion (`setReflectValue`, `checkMinMax`,
  `compareNumeric`);
- the walk over a struct's fields, nested structs included, stopping at the first error;
- the four AWS format checks of `validators.go` and the table that selects them.

Layout, one module per file:

| file | module | contents |
|---|---|---|
| Wrappers.dfy | Wrappers | `Option`, `Result`, `Outcome` |
| Text.dfy | Text | `strings.Split`, `Join`, `TrimSpace`, `ToLower`, `ToUpper`, `Contains` |
| Options.dfy | Options | the option keywords |
| Numbers.dfy | Numbers | `strconv.ParseInt`, `ParseUint`, `ParseFloat`, `ParseBool` and the float64 `<` |
| Validators.dfy | Validators | the AWS checks, each proved equal to a declarative description |
| Values.dfy | Values | parser settings, field descriptors, field values, errors |
| Tags.dfy | Tags | what `parseTag` computes |
| Names.dfy | Names | candidate names and lookup |
| Coercion.dfy | Coercion | scalar coercion and the bound check |
| Slices.dfy | Slices | the slice path |
| Resolution.dfy | Resolution | the per-field pipeline and the struct walk, as functions |
| Env.dfy | Env | class `Parser` and the step-by-step procedures of env.go, each proved to compute the function that specifies it |

Reflection is replaced by data. A struct type is a sequence of `Field` descriptors
(name, exported or not, optional `env` tag, type). A field's type is a scalar kind, a
slice of a scalar kind or a nested struct. The struct's current contents are an array of
`Value`s that `Env.Parser.Unmarshal` updates in place; a nested struct is filled
through an array of its own and written back. The process environment is a
`map<string, string>` parameter; an absent variable reads as `""`, as `os.Getenv` does.

The code and the library's own description differ on two points; the model follows the
code. With `notrim`, a slice keeps every piece between separators, empty pieces
included (env.go:287-288). The role-name part of a role ARN admits no digits
(validators.go:22), although the comment at validators.go:82-83 says it does;
`Validators.RoleNameDigitRejected` shows an ARN rejected for that reason.

## Model

| member | source | states |
|---|---|---|
| Env.Parser.constructor | env.go:28-33 | a new parser has separators `,` and `\|`, no prefix, and distinct separators |
| Env.Parser.WithTagOptionSeparator | env.go:36-42 | refuses (where Go panics) exactly when the new separator equals the slice value separator, and then changes nothing; otherwise only the tag option separator changes; distinct separators stay distinct |
| Env.Parser.WithSliceValueSeparator | env.go:45-51 | refuses exactly when the new separator equals the tag option separator, and then changes nothing; otherwise only the slice value separator changes; distinct separators stay distinct |
| Env.Parser.WithNamePrefix | env.go:54-57 | only the prefix changes |
| Env.Parser.ParseTag | env.go:60-73 | the map filled segment by segment equals the tag's option map `Tags.TagOptions` |
| Env.ParseSegment | env.go:64-70 | the key and value written for one segment are the normalised key and verbatim value of `Tags.Segment` |
| Env.Parser.GetEnvNames | env.go:185-206 | the list built by appending is the candidate list `Names.EnvNames` |
| Env.AppendNames | env.go:188-195 | the appending loop of the `ap` closure computes `Names.AddNames` |
| Env.GetEnvValue | env.go:209-216 | the scan returns the first non-empty value, `Names.EnvValue` |
| Env.Parser.ResolveField | env.go:97-149 | one tagged non-struct field, value reassigned step by step, gives `Resolution.ResolveLeaf` |
| Env.Parser.PrepareValue | env.go:108-131 | trim, default, required, lower and upper applied in turn give `Resolution.Prepare` |
| Env.CheckForAwsValidation | env.go:156-182 | the counting loop gives `Resolution.AwsValidation` |
| Env.ApplyValidator | env.go:162-181 | for any table and any key order: failure on the second key present, else the one validator found, else pass |
| Env.HandleSliceWithSeparator | env.go:273-315 | split, filter and fill give `Slices.SliceValues` |
| Env.FilterValues | env.go:283-295 | the filtering loop gives `Slices.SliceItems` |
| Env.FillSlice | env.go:303-314 | filling a new array element by element gives `Slices.CoerceAll`: all coerced items, or the first item's error |
| Env.Parser.Unmarshal | env.go:76-153 | the array after the in-place walk, and the error returned, are those of `Resolution.Unmarshal` on the old contents |
| Env.Parser.UnmarshalNested | env.go:89-95 | a nested struct is filled through its own array and written back whether or not it failed |
| Env.NameListSurvivesTag | env.go:36-51 | with one-character separators that differ, as the setters ensure, a `name` option listing variables joined by the slice value separator is a single tag segment and getEnvNames splits it back into the whole list |
| Env.SameSeparatorCutsNames | env.go:36-51 | with the same character as both separators, `name=x` + separator + `y` names `x` alone and stores `y` as an option of its own |
| Options.KeywordsNormalized | internal/topt/topt.go:4-16 | every keyword is lower case without surrounding white space, so it can equal a key normalised by parseTag |
| Options.KeywordsHaveNoDelimiters | internal/topt/topt.go:4-16 | no keyword contains `=`, `,` or `\|` |
| Options.KeywordsDistinct | internal/topt/topt.go:4-16 | the twelve keywords are pairwise distinct |
| Text.SplitJoin | env.go:62 | splitting on a one-character separator undoes joining pieces free of it |
| Text.TrimSpaceEmpty | env.go:109-111 | a value trims to `""` exactly when it is all white space |
| Text.UpperAfterLower | env.go:123-131 | `upper` after `lower` is the same as `upper` alone |
| Numbers.ParseUint64 | env.go:243 | accepts exactly non-empty digit strings of value at most 2^64-1, giving that value; an all-digit string that is too large is a range error |
| Numbers.ParseInt64 | env.go:234 | every accepted value lies in the signed 64-bit range |
| Numbers.ParseIntAccepts | env.go:234 | ParseInt accepts exactly an optional sign and a digit string whose signed value is in range, and returns that signed value |
| Numbers.ParseUintRoundTrip | env.go:243 | parsing the decimal rendering of any unsigned 64-bit value gives it back |
| Numbers.ParseIntRoundTrip | env.go:234 | parsing the decimal rendering of any signed 64-bit value gives it back |
| Numbers.ParseUintRejectsSign | env.go:243 | an unsigned value takes no `+` or `-` |
| Numbers.ParseFloat64 | env.go:252 | a finite result lies strictly within the float64 overflow threshold |
| Numbers.ParseFloatOfInteger | env.go:320 | a bound written as a 64-bit decimal integer parses to that integer exactly |
| Numbers.ParseBoolRoundTrip | env.go:261 | ParseBool takes back what FormatBool writes |
| Numbers.ParseBoolRejects | env.go:261 | `2`, `-1`, `yes` and `tRUE` are errors |
| Numbers.ParseBool | env.go:261 | a rejected spelling is a syntax error, never a range error |
| Validators.VAwsRegion | validators.go:37-42 | passes or fails with the value itself |
| Validators.RegionMatchesPattern | validators.go:13 | the region check passes exactly for two lower-case letters, `-`, a non-empty `[a-z-]` run, `-`, a non-empty digit run |
| Validators.RegionExamples | validators.go:37-42 | `us-east-1` passes and `invalid-region` fails |
| Validators.VAwsAccountID | validators.go:48-53 | passes exactly for twelve ASCII digits |
| Validators.VAwsBucketName | validators.go:59-77 | reports the first failing rule in order (length and characters, then the edges, then `..`), each exactly when the earlier ones hold and it does not |
| Validators.ContainsDoublePeriod | validators.go:71 | `strings.Contains(name, "..")` holds exactly when two periods are adjacent |
| Validators.BucketAcceptsExactly | validators.go:19 | a bucket name passes exactly when it keeps every rule |
| Validators.BucketExamples | validators.go:59-77 | `my-s3-bucket` passes; `Invalid_Bucket_Name` fails on its characters |
| Validators.VAwsRoleArn | validators.go:86-91 | an accepted ARN has 32 to 95 characters |
| Validators.RoleArnComposition | validators.go:22 | prefix, account, `:role/` and role name form an accepted ARN exactly when the account passes its check and the role name is 1 to 64 characters of the role-name class |
| Validators.RoleArnDecomposition | validators.go:22 | every accepted ARN splits into prefix, a valid account id, infix and a valid role name |
| Validators.RoleArnAccepted | validators.go:86-91 | `arn:aws:iam::123456789012:role/MyRole` passes |
| Validators.RoleNameDigitRejected | validators.go:22 | a role name with a digit is rejected |
| Validators.ValidationMapOneToOne | validators.go:26-31 | the table maps exactly the four `v_aws_*` keywords, one-to-one onto the four checks |
| Validators.Validate | validators.go:26-31 | the check the table entry of each validator calls (no contract of its own; see `ValidationMapOneToOne`, `Resolution.AwsSingle`) |
| Tags.CutAtEquals | env.go:64 | the segment is the text before the first `=`, the `=` and the rest; without `=` the whole segment is the key |
| Tags.Segment | env.go:64-70 | the entry one segment stores (no contract of its own; its properties are `SegmentOf`, `SegmentKeyNormalized`, `ValueAfterFirstEquals`) |
| Tags.Store | env.go:63-71 | the map after storing the entries in order (no contract of its own; see `StoreKeys`, `StoreLastWins`) |
| Tags.TagOptions | env.go:60-73 | the option map of a tag (no contract of its own; see `TagKeysNormalized`, `TagLastWins`, `EmptyTag`, `TagOfSegments`) |
| Tags.OneSegment | env.go:60-73 | a tag without the separator stores exactly its one segment |
| Tags.TwoSegments | env.go:60-73 | a tag of two separator-free segments stores the first, then the second over it |
| Tags.StoreKeys | env.go:63-71 | the stored keys are exactly the segments' keys |
| Tags.StoreLastWins | env.go:63-71 | a key's stored value is that of its last segment |
| Tags.SegmentKeyNormalized | env.go:65 | a segment's key is lower case and trimmed |
| Tags.TagKeysNormalized | env.go:60-73 | every key of a parsed tag is lower case and trimmed |
| Tags.TagLastWins | env.go:60-73 | among segments with the same key, the last one decides the value |
| Tags.EmptyTag | env.go:60-73 | an empty tag yields the single option `"" ↦ ""` (none with the empty separator) |
| Tags.TagOfSegments | env.go:62-71 | the options of joined segments are those stored from the segments, in order |
| Tags.CutAtEqualsOf | env.go:64 | `key=value` cuts back into `key` and `value`, whatever `=` the value holds |
| Tags.SegmentOf | env.go:64-70 | a `key=value` segment stores the normalised key and the verbatim value |
| Tags.ValueAfterFirstEquals | env.go:64-67 | ` Default=a=b` sets `default` to `a=b` |
| Names.AddNames | env.go:188-195 | the list only grows (its order is stated by `AddNamesSnoc`) |
| Names.AddNamesSnoc | env.go:188-195 | one more name is appended, prefixed, unless already listed: names keep the order of their first occurrence |
| Names.AddNamesFacts | env.go:188-195 | the result lists exactly the old names and the prefixed new ones, and adds no repetition |
| Names.ExplicitNames | env.go:197-203 | the `name` option split on the slice value separator, none when absent or empty (no contract of its own; see `ExplicitNamesWin`, `Env.NameListSurvivesTag`) |
| Names.EnvNames | env.go:185-206 | the candidate names (no contract of its own; see `EnvNamesOrder`, `EnvNamesFacts`, `EnvNamesMembers`) |
| Names.EnvNamesOrder | env.go:185-206 | the prefixed explicit names in listed order, then the prefixed field name as declared, upper-cased and lower-cased, in that order, each unless already listed |
| Names.DeclaredNameFirst | env.go:185-216 | with no explicit name set, the variable named like the declared field wins over its upper- and lower-case spellings |
| Names.UpperBeforeLower | env.go:185-216 | with no explicit name and no declared-case variable set, the upper-case spelling wins over the lower-case one |
| Names.EnvNamesFacts | env.go:185-206 | no repetitions; every entry carries the prefix; prefix plus field name is present; the explicit names come first |
| Names.EnvNamesMembers | env.go:185-206 | the list holds exactly the prefixed explicit names and the three prefixed spellings of the field name |
| Names.EnvValue | env.go:209-216 | `""` exactly when every candidate is unset or empty; otherwise the value of the first set candidate |
| Names.EnvValueConcat | env.go:209-216 | a value found in a front part of the list wins over the rest |
| Names.ExplicitNamesWin | env.go:197-203 | a variable named by `name` shadows the field-name spellings |
| Coercion.CompareNumeric | env.go:342-358 | -1, 0 or 1 as a signed or float value is below, neither below nor above, or above the threshold under IEEE comparison; 0 for every other value, unsigned ones included |
| Coercion.CheckMinMax | env.go:318-339 | passing implies both bounds parse |
| Coercion.BoundsInclusive | env.go:318-339 | a signed or float value passes exactly when the bounds parse, it is not below `min`, and `max` is not below it |
| Coercion.NaNNeverOutOfRange | env.go:342-358 | a NaN float value, or NaN bounds on a signed or float value, fail only on a malformed bound |
| Coercion.UnsignedIgnoresBounds | env.go:342-358 | an unsigned value fails only on a malformed bound |
| Coercion.MalformedBoundRejected | env.go:319-333 | a malformed `min` is reported first; a malformed `max` is reported when `min` passes |
| Coercion.SetReflectValue | env.go:229-270 | a success fits the kind; strings are kept verbatim; other kinds are unsupported; numeric successes pass the bound check |
| Coercion.IntFieldWithBounds | env.go:233-241 | an integer with integer bounds is stored when in [lo, hi], else the crossed bound is reported, `min` first |
| Coercion.UintFieldIgnoresBounds | env.go:242-250 | an unsigned field takes its value whatever the parseable bounds say |
| Coercion.FloatFieldOfInteger | env.go:251-259 | a float field given an integer literal holds that integer exactly |
| Coercion.BoolField | env.go:260-265 | a bool field accepts exactly the twelve ParseBool spellings, holding true for the six true ones; anything else is a ParseBool syntax error; FormatBool's output comes back |
| Coercion.NumberFieldErrors | env.go:242-245 | any sign, `+` or `-`, on an unsigned field is a ParseUint syntax error |
| Coercion.IntField | env.go:233-241 | for any input: a stored value is the signed value of the digits after an optional sign; an accepted value is stored exactly when the bounds pass; a rejected one is ParseInt's error on the input |
| Coercion.UintField | env.go:242-250 | for any input: stored exactly when it is a digit string of at most 2^64-1 and the bounds parse, as the digits' value; otherwise ParseUint's error on the input |
| Coercion.FloatField | env.go:251-259 | for any input: a stored value is ParseFloat's result, stored exactly when the bounds pass; a rejected one is ParseFloat's error on the input |
| Coercion.NonDigitRejected | env.go:233-245 | a value whose first character after an optional sign is not a digit is a ParseInt syntax error on an integer field; one not starting with a digit is a ParseUint syntax error on an unsigned field |
| Slices.TrimmedNonEmpty | env.go:289-294 | keeps at most as many pieces, each non-empty and trimmed |
| Slices.TrimmedNonEmptySnoc | env.go:289-294 | one more piece adds its trimmed text at the end, or nothing when it is blank |
| Slices.TrimmedNonEmptyAppend | env.go:289-294 | filtering a concatenation concatenates the filtered parts, so each kept item is a trimmed piece, in the pieces' order |
| Slices.SliceItems | env.go:283-295 | every piece with `notrim`, else the trimmed non-empty ones (no contract of its own; see `TrimmedNonEmpty`, `Env.FilterValues`) |
| Slices.CoerceAll | env.go:303-311 | succeeds exactly when every item coerces, giving each item's value in order; otherwise the error of the first failing item |
| Slices.SliceValues | env.go:273-315 | an empty value gives the empty slice, with or without `notrim`; every element of a successful slice fits the element kind |
| Slices.TrimmedNonEmptyKeeps | env.go:286-295 | pieces already trimmed and non-empty are all kept, in order |
| Slices.BlankPiecesVanish | env.go:289-294 | blank pieces give no items |
| Slices.SliceRoundTrip | env.go:273-315 | joining trimmed, separator-free items and reading them back as a slice coerces each item, in order |
| Slices.NoTrimKeepsEveryPiece | env.go:287-288 | with `notrim` every piece, empty ones included (a leading empty piece too, once there are two pieces), becomes an element |
| Slices.SeparatorsOnly | env.go:297-301 | a value of separators and white space gives the empty slice |
| Resolution.Prepare | env.go:108-131 | fails exactly when `required` is set and neither the trimmed value nor the default is non-empty, with the candidate names; a required field's value is non-empty |
| Resolution.Trimmed | env.go:108-111 | without `notrim` the value is trimmed, and trimming it again changes nothing |
| Resolution.Defaulted | env.go:113-116 | a non-empty value is never replaced; the result is empty exactly when both the value and the default are |
| Resolution.UpperWins | env.go:123-131 | with both `lower` and `upper` the value is upper-cased |
| Resolution.DefaultIsVerbatim | env.go:113-116 | a blank value takes the default exactly as written |
| Resolution.NoTrimKeepsValue | env.go:108-111 | with `notrim` a non-empty value is kept exactly |
| Resolution.TrimsByDefault | env.go:108-111 | without `notrim` or a case option, a value that is not blank is taken trimmed |
| Resolution.LowerAlone | env.go:123-126 | with `lower` and no `upper`, a value that passes the required check is lower-cased |
| Resolution.Chosen | env.go:166-175 | at most one validator per key visited |
| Resolution.Pick | env.go:170-181 | more than one validator is an error; one applies its check; none passes |
| Resolution.Apply | env.go:178-179 | passes exactly when the check passes, else reports the check's failure |
| Resolution.ChosenValidators | env.go:162-175 | the validators whose keywords the options hold (no contract of its own; see `ChosenCount`) |
| Resolution.AwsValidation | env.go:156-182 | checkForAwsValidation (no contract of its own; see `AwsExclusive`, `AwsSingle`, `AwsNone`, `AwsSkipsEmpty`) |
| Resolution.ChosenCount | env.go:162-175 | for the keyword order the model visits, the number of validators chosen is the number of `v_aws_*` keywords present |
| Resolution.ChosenCountOf | env.go:162-175 | for any table and ANY duplicate-free order of visiting its keys, the number of validators chosen is the number of keys present: the count does not depend on Go's map order |
| Resolution.AwsExclusive | env.go:166-172 | two `v_aws_*` options are an error whatever the value |
| Resolution.AwsSingle | env.go:173-180 | a single `v_aws_*` option applies exactly the check the table gives it |
| Resolution.AwsNone | env.go:177-181 | no `v_aws_*` option, nothing to check |
| Resolution.AwsSkipsEmpty | env.go:157-160 | an empty value of a field that is not required is never validated, even with several options |
| Resolution.ResolveLeaf | env.go:97-149 | a resolved value fits the field's type |
| Resolution.DefaultWhenUnset | env.go:104-149 | a scalar field with a default, no case option, no `v_aws_*` option and no variable set holds the default coerced to its kind |
| Resolution.RequiredMissing | env.go:118-121 | a required field with no value anywhere and no default reports every candidate name |
| Resolution.SliceSkipsAws | env.go:133-139 | a slice field never reports an AWS validation error |
| Resolution.SliceErrorIsCoercion | env.go:303-311 | a slice's error is an item's coercion error |
| Resolution.CoercionErrors | env.go:229-270 | coercion never reports a required or validation error |
| Resolution.UnmarshalFrom | env.go:80-150 | the result fits the field types; fields before the start and skipped fields (unexported, or untagged non-struct) keep their values |
| Resolution.UnmarshalKeepsSkipped | env.go:80-101 | a skipped field (unexported, or untagged and not a struct) keeps its value at every nesting depth, not only at the top |
| Resolution.Unmarshal | env.go:76-153 | the result fits the field types |
| Resolution.SkipStep | env.go:84-101 | an unexported or untagged scalar field is passed over |
| Resolution.StructStep | env.go:89-95 | a struct field is walked whether or not it is tagged; its partial writes stay and its error stops the walk |
| Resolution.LeafStep | env.go:146-149 | a resolved field is stored and the walk goes on |
| Resolution.LeafFailureStops | env.go:133-149 | a field that fails stops the walk, its own value unchanged, earlier writes kept |
| Resolution.ErrorIndependentOfContents | env.go:80-150 | whether and how the walk fails does not depend on the fields' prior contents |
| Resolution.UnmarshalIdempotent | env.go:80-150 | running again on the result of a successful run changes nothing |

## Left out

- `os.Getenv` (env.go:211) is a map parameter; the process environment and its changes are not modelled.
- Go reflection (`reflect.ValueOf`, `CanSet`, `Kind`, `MakeSlice`, `Set*`) is replaced by field descriptors and a value array. Exported-ness stands for `CanSet`. Kinds other than string, the integer, float and bool kinds, slices and structs are `Unsupported`.
- `setValue` and `setSliceValue` (env.go:219-226) only forward to `setReflectValue`, and are folded into `Coercion.SetReflectValue`.
- Coercion.SetReflectValue: narrow integer kinds (int8 to int32, uint8 to uint32) take the 64-bit range, because Go stores into them without a range check and the truncation is not modelled.
- Coercion.SetReflectValue: a float32 field is a `FloatKind` holding the parsed float64 value (itself kept as an exact decimal). Go's `SetFloat` on a float32 field (env.go:258) rounds to float32 and turns magnitudes beyond float32's range into ±Inf, so `1e39` is +Inf in Go and `Finite(1e39)` here; float32 narrowing is not modelled.
- Coercion.CompareNumeric: an int64 converts to float64 exactly in the model. The rounding of integers above 2^53 is not modelled.
- Numbers.ParseFloat64: a literal denotes its exact decimal value, with no rounding to a float64. Hexadecimal floats and `_` digit separators are rejected.
- Text.ToLower: ASCII letters only. Unicode case mapping and invalid UTF-8 are not modelled; `Text.ToUpper` likewise.
- The Go regexp engine is not modelled; each pattern is restated as character predicates.
- The panics of the `With*` setters are an `ok = false` result that leaves the parser unchanged.
- `checkForAwsValidation` ranges over a Go map in random order. The model visits the keys in a fixed order, and `Resolution.ChosenCountOf` shows that the number chosen, hence the outcome, depends only on which keys are present, for any visiting order.
- Error messages (`fmt.Errorf`) are an `Error` datatype carrying the data the message shows. A missing required value carries the candidate names rather than their joined text.
- The demo program under `_examples` and the tests are not part of this model.
