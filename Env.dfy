/** The Parser and the step-by-step procedures of env.go: each method does what the Go
    code does, loop for loop, and is proved to compute the function that specifies it. */
module Env {
  import opened Wrappers
  import Text
  import Options
  import opened Values
  import Tags
  import Names
  import Coercion
  import Slices
  import Resolution
  import Validators

  const DefaultTagOptionSeparator := ","
  const DefaultSliceValueSeparator := "|"

  /** A configurable parser: the tag option separator, the slice value separator and the
      prefix put in front of every environment variable name. */
  class Parser {
    var tagOptionSeparator: string
    var sliceValueSeparator: string
    var namePrefix: string

    /** The two separators differ; the setters refuse to make them equal. NameListSurvivesTag
        shows what this protects, and SameSeparatorCutsNames what goes wrong without it. */
    predicate Valid()
      reads this
    {
      tagOptionSeparator != sliceValueSeparator
    }

    function Settings(): Config
      reads this
    {
      Config(tagOptionSeparator, sliceValueSeparator, namePrefix)
    }

    /** NewParser: the default separators and no prefix. */
    constructor ()
      ensures Settings() == Config(DefaultTagOptionSeparator, DefaultSliceValueSeparator, "")
      ensures Valid()
    {
      tagOptionSeparator := DefaultTagOptionSeparator;
      sliceValueSeparator := DefaultSliceValueSeparator;
      namePrefix := "";
    }

    /** WithTagOptionSeparator: `ok` is false where the source panics (the new separator
        equals the slice value separator), and then nothing changes. */
    method WithTagOptionSeparator(separator: string) returns (ok: bool)
      modifies this
      ensures ok <==> separator != old(sliceValueSeparator)
      ensures Settings() == if ok then old(Settings()).(tagOptionSeparator := separator) else old(Settings())
      ensures old(Valid()) || ok ==> Valid()
    {
      if separator == sliceValueSeparator {
        return false;
      }
      tagOptionSeparator := separator;
      return true;
    }

    /** WithSliceValueSeparator: `ok` is false where the source panics (the new separator
        equals the tag option separator), and then nothing changes. */
    method WithSliceValueSeparator(separator: string) returns (ok: bool)
      modifies this
      ensures ok <==> separator != old(tagOptionSeparator)
      ensures Settings() == if ok then old(Settings()).(sliceValueSeparator := separator) else old(Settings())
      ensures old(Valid()) || ok ==> Valid()
    {
      if separator == tagOptionSeparator {
        return false;
      }
      sliceValueSeparator := separator;
      return true;
    }

    /** WithNamePrefix: only the prefix changes. */
    method WithNamePrefix(prefix: string)
      modifies this
      ensures Settings() == old(Settings()).(namePrefix := prefix)
      ensures old(Valid()) ==> Valid()
    {
      namePrefix := prefix;
    }

    /** parseTag: store every segment of the tag, later segments overwriting earlier ones. */
    method ParseTag(tag: string) returns (options: map<string, string>)
      ensures options == Tags.TagOptions(tagOptionSeparator, tag)
    {
      options := map[];
      var parts := Text.Split(tag, tagOptionSeparator);
      ghost var entries := Tags.Entries(parts);
      var i := 0;
      while i < |parts|
        invariant 0 <= i <= |parts|
        invariant options == Tags.Store(entries[..i])
      {
        var key, value := ParseSegment(parts[i]);
        StoreStep(entries, i);
        options := options[key := value];
        i := i + 1;
      }
      assert entries[..|parts|] == entries;
    }

    /** getEnvNames: the prefixed `name` entries, then the prefixed field name in its three
        spellings, each added only once. */
    method GetEnvNames(fieldName: string, options: map<string, string>) returns (envNames: seq<string>)
      ensures envNames == Names.EnvNames(Settings(), fieldName, options)
    {
      envNames := [];
      if Options.Name in options && options[Options.Name] != "" {
        envNames := AppendNames(envNames, namePrefix, Text.Split(options[Options.Name], sliceValueSeparator));
      }
      envNames := AppendNames(envNames, namePrefix, [fieldName, Text.ToUpper(fieldName), Text.ToLower(fieldName)]);
    }

    /** One field that is settable, not a struct, and tagged: the body of Unmarshal's loop
        from the tag lookup to the store, the value reassigned step by step. */
    method ResolveField(env: map<string, string>, f: Field) returns (r: Result<Value, Error>)
      requires f.tag.Some? && !f.typ.Struct?
      ensures r == Resolution.ResolveLeaf(Settings(), env, f)
    {
      var options := ParseTag(f.tag.value);
      var envNames := GetEnvNames(f.name, options);
      var envVal := GetEnvValue(env, envNames);
      var prepared := PrepareValue(options, envNames, envVal);
      if prepared.Failure? {
        return Failure(prepared.error);
      }
      envVal := prepared.value;
      if f.typ.Slice? {
        var items := HandleSliceWithSeparator(envVal, options, sliceValueSeparator, f.typ.elem);
        if items.Failure? {
          return Failure(items.error);
        }
        return Success(List(items.value));
      }
      var check := CheckForAwsValidation(f.name, envVal, options);
      if check.Fail? {
        return Failure(check.error);
      }
      return Coercion.SetReflectValue(f.typ.kind, envVal, options);
    }

    /** Unmarshal's handling of the value found: trim unless `notrim`, default when empty,
        fail when required and still empty, then `lower` and `upper`. */
    static method PrepareValue(options: map<string, string>, envNames: seq<string>, found: string)
      returns (r: Result<string, Error>)
      ensures r == Resolution.Prepare(options, envNames, found)
    {
      var envVal := found;
      if Options.NoTrim !in options {
        envVal := Text.TrimSpace(envVal);
      }
      if envVal == "" && Tags.Get(options, Options.Default) != "" {
        envVal := options[Options.Default];
      }
      if Options.Required in options && envVal == "" {
        return Failure(MissingRequired(envNames));
      }
      if Options.Lower in options {
        envVal := Text.ToLower(envVal);
      }
      if Options.Upper in options {
        envVal := Text.ToUpper(envVal);
      }
      return Success(envVal);
    }

    /** Unmarshal: fill the struct whose fields are described by `fields` and whose values
        are held in `vals`, in place; nested structs are filled through their own array and
        written back, even when they fail. */
    method Unmarshal(env: map<string, string>, fields: seq<Field>, vals: array<Value>) returns (err: Option<Error>)
      requires vals.Length == |fields| && ConformsAll(fields, vals[..])
      modifies vals
      ensures Resolution.Run(vals[..], err) == Resolution.Unmarshal(Settings(), env, fields, old(vals[..]))
      decreases fields, 1
    {
      ghost var cfg := Settings();
      ghost var goal := Resolution.Unmarshal(cfg, env, fields, old(vals[..]));
      var i := 0;
      while i < vals.Length
        invariant 0 <= i <= vals.Length
        invariant ConformsAll(fields, vals[..])
        invariant Resolution.UnmarshalFrom(cfg, env, fields, vals[..], i) == goal
      {
        var f := fields[i];
        ghost var before := vals[..];
        if !f.exported {
          Resolution.SkipStep(cfg, env, fields, vals[..], i);
          i := i + 1;
          continue;
        }
        if f.typ.Struct? {
          Resolution.StructStep(cfg, env, fields, vals[..], i);
          var subErr := UnmarshalNested(env, fields, vals, i);
          if subErr.Some? {
            return subErr;
          }
          i := i + 1;
          continue;
        }
        if f.tag.None? {
          Resolution.SkipStep(cfg, env, fields, vals[..], i);
          i := i + 1;
          continue;
        }
        var leaf := ResolveField(env, f);
        if leaf.Failure? {
          Resolution.LeafFailureStops(cfg, env, fields, vals[..], i);
          return Some(leaf.error);
        }
        Resolution.LeafStep(cfg, env, fields, vals[..], i, leaf.value);
        vals[i] := leaf.value;
        assert vals[..] == before[i := leaf.value];
        i := i + 1;
      }
      return None;
    }

    /** A struct field of Unmarshal: its values are copied into an array of their own, filled
        by the recursive call, and written back whether or not it failed. */
    method UnmarshalNested(env: map<string, string>, fields: seq<Field>, vals: array<Value>, i: nat)
      returns (subErr: Option<Error>)
      requires i < vals.Length == |fields| && ConformsAll(fields, vals[..])
      requires fields[i].exported && fields[i].typ.Struct?
      modifies vals
      ensures var sub := Resolution.UnmarshalFrom(Settings(), env, fields[i].typ.fields, old(vals[i]).fields, 0);
              vals[..] == old(vals[..])[i := Record(sub.vals)] && subErr == sub.err
      decreases fields, 0
    {
      var inner := vals[i].fields;
      var sub := new Value[|inner|](k requires 0 <= k < |inner| => inner[k]);
      assert sub[..] == inner;
      subErr := Unmarshal(env, fields[i].typ.fields, sub);
      vals[i] := Record(sub[..]);
    }
  }

  /** What `Valid` protects: with one-character separators that differ, a `name` option
      listing several variables joined by the slice value separator is one tag segment,
      and getEnvNames gets the whole list back. */
  lemma NameListSurvivesTag(t: char, s: char, names: seq<string>)
    requires t != s && t !in "name="
    requires |names| >= 2 || (|names| == 1 && names[0] != "")
    requires forall i :: 0 <= i < |names| ==> t !in names[i] && s !in names[i]
    ensures Names.ExplicitNames(Tags.TagOptions([t], "name=" + Text.Join(names, [s])), [s]) == names
  {
    var v := Text.Join(names, [s]);
    Text.JoinAvoids(names, [s], t);
    NameSegmentAlone(t, v);
    Slices.JoinNonEmpty(names, [s]);
    Text.SplitJoin(names, s);
  }

  /** A tag made of the single segment `name=v`, with no tag separator in `v`, sets the
      `name` option to `v` and nothing else. */
  lemma NameSegmentAlone(t: char, v: string)
    requires t !in "name=" && t !in v
    ensures Tags.TagOptions([t], "name=" + v) == map[Options.Name := v]
  {
    NotInConcat("name=", v, t);
    Tags.OneSegment(t, "name=" + v);
    NameSegment(v);
  }

  lemma NotInConcat(a: string, b: string, c: char)
    requires c !in a && c !in b
    ensures c !in a + b
  {
    forall i | 0 <= i < |a + b| ensures (a + b)[i] != c {
      if i < |a| { assert a[i] in a; } else { assert b[i - |a|] in b; }
    }
  }

  /** The segment `name=v` stores `v` under `name`. */
  lemma NameSegment(v: string)
    ensures Tags.Segment("name=" + v) == Tags.Entry(Options.Name, v)
  {
    assert "name=" + v == "name" + "=" + v;
    Tags.SegmentOf("name", v);
    NameIsNormalized();
  }

  lemma NameIsNormalized()
    ensures Text.TrimSpace(Text.ToLower("name")) == Options.Name
  {
    assert Options.IsWord(Options.Name);
    Options.WordNormalized(Options.Name);
  }

  /** Without `Valid`, a name list is cut at its first name: with the same character `c`
      as both separators, the tag `name=x` + c + `y` names `x` alone and stores `y` as an
      option of its own (under the defaults, `name=A,B` would read only `A`). */
  lemma SameSeparatorCutsNames(c: char, x: string, y: string)
    requires c !in "name=" && c !in x && c !in y && x != ""
    requires '=' !in y && Text.TrimSpace(Text.ToLower(y)) != Options.Name
    ensures Names.ExplicitNames(Tags.TagOptions([c], "name=" + Text.Join([x, y], [c])), [c]) == [x]
  {
    TagNameThenKey(c, x, y);
    Text.SplitPieceFree(x, c);
  }

  lemma TagNameThenKey(c: char, x: string, y: string)
    requires c !in "name=" && c !in x && c !in y && '=' !in y
    ensures Tags.TagOptions([c], "name=" + Text.Join([x, y], [c]))
            == map[Options.Name := x][Text.TrimSpace(Text.ToLower(y)) := ""]
  {
    var head := "name=" + x;
    Text.JoinTwo(x, y, [c]);
    assert "name=" + Text.Join([x, y], [c]) == head + [c] + y;
    NotInConcat("name=", x, c);
    Tags.TwoSegments(c, head, y);
    NameSegment(x);
    LoneKey(y);
  }

  /** A segment without `=` is a key with the empty value. */
  lemma LoneKey(y: string)
    requires '=' !in y
    ensures Tags.Segment(y) == Tags.Entry(Text.TrimSpace(Text.ToLower(y)), "")
  {
  }

  /** One segment of parseTag's loop: split at the first `=`, lower-case and trim the key;
      the value is what follows the `=`, or "" without one. */
  method ParseSegment(part: string) returns (key: string, value: string)
    ensures Tags.Entry(key, value) == Tags.Segment(part)
  {
    var (before, after) := Tags.CutAtEquals(part);
    key := Text.TrimSpace(Text.ToLower(before));
    if after.Some? {
      value := after.value;
    } else {
      value := "";
    }
  }

  /** Storing one more segment of the tag. */
  lemma StoreStep(entries: seq<Tags.Entry>, i: nat)
    requires i < |entries|
    ensures Tags.Store(entries[..i + 1]) == Tags.Store(entries[..i])[entries[i].key := entries[i].value]
  {
    assert entries[..i + 1][..i] == entries[..i];
  }

  /** The `ap` closure of getEnvNames: append `prefix + x` for each `x` not already listed. */
  method AppendNames(names: seq<string>, prefix: string, xs: seq<string>) returns (r: seq<string>)
    ensures r == Names.AddNames(names, prefix, xs)
  {
    r := names;
    var i := 0;
    while i < |xs|
      invariant 0 <= i <= |xs|
      invariant Names.AddNames(r, prefix, xs[i..]) == Names.AddNames(names, prefix, xs)
    {
      assert xs[i..][1..] == xs[i + 1..];
      var v := prefix + xs[i];
      if v !in r {
        r := r + [v];
      }
      i := i + 1;
    }
  }

  /** getEnvValue: the first listed variable with a non-empty value, looked up in `env`. */
  method GetEnvValue(env: map<string, string>, envNames: seq<string>) returns (val: string)
    ensures val == Names.EnvValue(env, envNames)
  {
    var i := 0;
    while i < |envNames|
      invariant 0 <= i <= |envNames|
      invariant Names.EnvValue(env, envNames[i..]) == Names.EnvValue(env, envNames)
    {
      assert envNames[i..][1..] == envNames[i + 1..];
      val := Names.Getenv(env, envNames[i]);
      if val != "" {
        return;
      }
      i := i + 1;
    }
    return "";
  }

  /** checkForAwsValidation: nothing to check for an empty value of a field that is not
      required; otherwise look the `v_aws_*` keywords up in a fixed order. */
  method CheckForAwsValidation(fieldName: string, envVal: string, options: map<string, string>)
    returns (r: Outcome<Error>)
    ensures r == Resolution.AwsValidation(fieldName, envVal, options)
  {
    if Options.Required !in options && envVal == "" {
      return Pass;
    }
    r := ApplyValidator(fieldName, envVal, options, Validators.AwsValidationMap, Options.ValidatorKeywords);
  }

  /** The loop of checkForAwsValidation over the entries of `table`, visited in the order of
      `keys`: count the keywords present, fail on the second, and apply the one found. */
  method ApplyValidator(fieldName: string, envVal: string, options: map<string, string>,
                        table: map<string, Validators.Validator>, keys: seq<string>)
    returns (r: Outcome<Error>)
    requires forall k <- keys :: k in table
    ensures r == Resolution.Pick(fieldName, envVal, Resolution.Chosen(table, keys, options))
  {
    var vc := 0;
    var vfn: Option<Validators.Validator> := None;
    ghost var seen: seq<Validators.Validator> := [];
    var i := 0;
    while i < |keys|
      invariant 0 <= i <= |keys|
      invariant Resolution.Chosen(table, keys, options) == seen + Resolution.Chosen(table, keys[i..], options)
      invariant vc == |seen| <= 1
      invariant vfn.None? <==> vc == 0
      invariant vfn.Some? ==> seen == [vfn.value]
    {
      ChosenStep(table, keys, i, options);
      if keys[i] in options {
        vc := vc + 1;
        seen := seen + [table[keys[i]]];
        if vc > 1 {
          assert |Resolution.Chosen(table, keys, options)| > 1;
          return Fail(MultipleValidators(fieldName));
        }
        vfn := Some(table[keys[i]]);
      }
      i := i + 1;
    }
    assert keys[|keys|..] == [];
    assert Resolution.Chosen(table, keys, options) == seen;
    if vfn.Some? {
      return Resolution.Apply(vfn.value, envVal);
    }
    return Pass;
  }

  lemma ChosenStep(table: map<string, Validators.Validator>, keys: seq<string>, i: nat, options: map<string, string>)
    requires i < |keys| && forall k <- keys :: k in table
    ensures Resolution.Chosen(table, keys[i..], options)
            == (if keys[i] in options then [table[keys[i]]] else [])
               + Resolution.Chosen(table, keys[i + 1..], options)
  {
    assert keys[i..][1..] == keys[i + 1..];
  }

  /** handleSliceWithSeparator: split, filter, and fill a new slice element by element; the
      first element that does not coerce is the error. */
  method HandleSliceWithSeparator(envVal: string, options: map<string, string>, separator: string, kind: Kind)
    returns (r: Result<seq<Value>, Error>)
    ensures r == Slices.SliceValues(options, separator, kind, envVal)
  {
    if envVal == "" {
      return Success([]);
    }
    var notrim := Options.NoTrim in options;
    var values := Text.Split(envVal, separator);
    var filtered := FilterValues(values, notrim);
    if |filtered| == 0 {
      return Success([]);
    }
    r := FillSlice(filtered, kind, options);
  }

  /** The filtering loop of handleSliceWithSeparator. */
  method FilterValues(values: seq<string>, notrim: bool) returns (filtered: seq<string>)
    ensures filtered == Slices.SliceItems(values, notrim)
  {
    filtered := [];
    var i := 0;
    while i < |values|
      invariant 0 <= i <= |values|
      invariant filtered == Slices.SliceItems(values[..i], notrim)
    {
      assert values[..i + 1][..i] == values[..i];
      if notrim {
        filtered := filtered + [values[i]];
      } else {
        var trimmed := Text.TrimSpace(values[i]);
        if trimmed != "" {
          filtered := filtered + [trimmed];
        }
      }
      i := i + 1;
    }
    assert values[..|values|] == values;
  }

  /** The filling loop of handleSliceWithSeparator: a new slice of the right length, each
      element set in turn; the first element that does not coerce is the error. */
  method FillSlice(filtered: seq<string>, kind: Kind, options: map<string, string>)
    returns (r: Result<seq<Value>, Error>)
    ensures r == Slices.CoerceAll(kind, filtered, options)
  {
    var newSlice := new Value[|filtered|];
    var j := 0;
    while j < |filtered|
      invariant 0 <= j <= |filtered| == newSlice.Length
      invariant forall k :: 0 <= k < j ==> Coercion.SetReflectValue(kind, filtered[k], options) == Success(newSlice[k])
    {
      var element := Coercion.SetReflectValue(kind, filtered[j], options);
      if element.Failure? {
        FailureAt(kind, filtered, options, j);
        return Failure(element.error);
      }
      newSlice[j] := element.value;
      j := j + 1;
    }
    AllCoerced(kind, filtered, options, newSlice[..]);
    return Success(newSlice[..]);
  }

  /** The first item that does not coerce decides the error. */
  lemma FailureAt(kind: Kind, items: seq<string>, options: map<string, string>, j: int)
    requires 0 <= j < |items| && Coercion.SetReflectValue(kind, items[j], options).Failure?
    requires forall k :: 0 <= k < j ==> Coercion.SetReflectValue(kind, items[k], options).Success?
    ensures Slices.CoerceAll(kind, items, options) == Failure(Coercion.SetReflectValue(kind, items[j], options).error)
  {
    assert Slices.FirstFailure(kind, items, options, j);
    FirstFailureUnique(kind, items, options, j);
  }

  /** When every item coerces, the slice holds the coerced items in order. */
  lemma AllCoerced(kind: Kind, items: seq<string>, options: map<string, string>, vs: seq<Value>)
    requires |vs| == |items|
    requires forall k :: 0 <= k < |items| ==> Coercion.SetReflectValue(kind, items[k], options) == Success(vs[k])
    ensures Slices.CoerceAll(kind, items, options) == Success(vs)
  {
    var all := Slices.CoerceAll(kind, items, options);
    assert all.Success?;
    assert vs == all.value;
  }

  /** There is only one first failing item. */
  lemma FirstFailureUnique(kind: Kind, items: seq<string>, options: map<string, string>, j: int)
    requires Slices.FirstFailure(kind, items, options, j)
    ensures Slices.CoerceAll(kind, items, options) == Failure(Coercion.SetReflectValue(kind, items[j], options).error)
  {
    var r := Slices.CoerceAll(kind, items, options);
    var l :| Slices.FirstFailure(kind, items, options, l) && r.error == Coercion.SetReflectValue(kind, items[l], options).error;
    assert l == j;
  }
}
