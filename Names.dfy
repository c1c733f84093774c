/** Which environment variables a field reads, and which of them supplies its value. */
module Names {
  import Text
  import Options
  import opened Values

  /** os.Getenv over a snapshot of the environment: "" for an unset name. */
  function Getenv(env: map<string, string>, name: string): string
  {
    if name in env then env[name] else ""
  }

  predicate NoDuplicates(s: seq<string>)
  {
    forall i, j :: 0 <= i < j < |s| ==> s[i] != s[j]
  }

  /** `names[k]` is the first name whose variable is set to a non-empty value. */
  ghost predicate FirstSet(env: map<string, string>, names: seq<string>, k: int)
  {
    0 <= k < |names| && Getenv(env, names[k]) != ""
    && forall j :: 0 <= j < k ==> Getenv(env, names[j]) == ""
  }

  /** The `ap` closure of getEnvNames: for each `x` in order, append `prefix + x` unless
      it is already listed. */
  function AddNames(names: seq<string>, prefix: string, xs: seq<string>): (r: seq<string>)
    ensures names <= r
    decreases |xs|
  {
    if xs == [] then names
    else
      var v := prefix + xs[0];
      AddNames(if v in names then names else names + [v], prefix, xs[1..])
  }

  /** The names listed by the `name` option, split on the slice value separator; none
      when the option is absent or empty. */
  function ExplicitNames(options: map<string, string>, sliceValueSeparator: string): seq<string>
  {
    if Options.Name in options && options[Options.Name] != "" then
      Text.Split(options[Options.Name], sliceValueSeparator)
    else []
  }

  /** getEnvNames: the prefixed explicit names, then the prefixed field name as declared,
      upper-cased and lower-cased, without repetitions. */
  function EnvNames(cfg: Config, fieldName: string, options: map<string, string>): seq<string>
  {
    var explicit := AddNames([], cfg.namePrefix, ExplicitNames(options, cfg.sliceValueSeparator));
    AddNames(explicit, cfg.namePrefix, [fieldName, Text.ToUpper(fieldName), Text.ToLower(fieldName)])
  }

  /** getEnvValue: the value of the first listed variable that is set and non-empty, or "". */
  function EnvValue(env: map<string, string>, names: seq<string>): (r: string)
    ensures r == "" <==> forall k :: 0 <= k < |names| ==> Getenv(env, names[k]) == ""
    ensures r != "" ==> exists k :: FirstSet(env, names, k) && r == Getenv(env, names[k])
    decreases |names|
  {
    if names == [] then ""
    else if Getenv(env, names[0]) != "" then
      assert FirstSet(env, names, 0);
      Getenv(env, names[0])
    else
      var r := EnvValue(env, names[1..]);
      assert forall k :: 1 <= k < |names| ==> names[k] == names[1..][k - 1];
      assert r != "" ==> exists k :: FirstSet(env, names, k) && r == Getenv(env, names[k]) by {
        if r != "" {
          var k :| FirstSet(env, names[1..], k) && r == Getenv(env, names[1..][k]);
          assert FirstSet(env, names, k + 1);
        }
      }
      r
  }

  /** What adding names does: the result extends `names`, lists exactly the old names and the
      prefixed new ones, and repeats nothing that `names` did not already repeat. */
  lemma {:induction false} AddNamesFacts(names: seq<string>, prefix: string, xs: seq<string>)
    ensures var r := AddNames(names, prefix, xs);
            forall y :: y in r <==> y in names || exists j :: 0 <= j < |xs| && y == prefix + xs[j]
    ensures NoDuplicates(names) ==> NoDuplicates(AddNames(names, prefix, xs))
    decreases |xs|
  {
    if xs != [] {
      var v := prefix + xs[0];
      var next := if v in names then names else names + [v];
      AddNamesFacts(next, prefix, xs[1..]);
      var r := AddNames(names, prefix, xs);
      forall y ensures y in r <==> y in names || exists j :: 0 <= j < |xs| && y == prefix + xs[j] {
        if exists j :: 0 <= j < |xs[1..]| && y == prefix + xs[1..][j] {
          var j :| 0 <= j < |xs[1..]| && y == prefix + xs[1..][j];
          assert y == prefix + xs[j + 1];
        }
        if exists j :: 0 <= j < |xs| && y == prefix + xs[j] {
          var j :| 0 <= j < |xs| && y == prefix + xs[j];
          if j > 0 {
            assert y == prefix + xs[1..][j - 1];
          }
        }
      }
    }
  }

  /** Adding one more name at the end of `xs` appends it, prefixed, unless it is already
      listed: names go in the order of their first occurrence. */
  lemma {:induction false} AddNamesSnoc(names: seq<string>, prefix: string, xs: seq<string>, x: string)
    ensures AddNames(names, prefix, xs + [x])
            == (var r := AddNames(names, prefix, xs); if prefix + x in r then r else r + [prefix + x])
    decreases |xs|
  {
    if xs == [] {
      assert xs + [x] == [x];
      assert [x][1..] == [];
    } else {
      var v := prefix + xs[0];
      var next := if v in names then names else names + [v];
      assert (xs + [x])[0] == xs[0];
      assert (xs + [x])[1..] == xs[1..] + [x];
      AddNamesSnoc(next, prefix, xs[1..], x);
    }
  }

  /** The order of the candidates: the prefixed explicit names, then the prefixed field name
      as declared, upper-cased and lower-cased, in that order, each unless already listed. */
  lemma EnvNamesOrder(cfg: Config, fieldName: string, options: map<string, string>)
    ensures var p := cfg.namePrefix;
            var explicit := AddNames([], p, ExplicitNames(options, cfg.sliceValueSeparator));
            var declared := if p + fieldName in explicit then explicit else explicit + [p + fieldName];
            var upper := p + Text.ToUpper(fieldName);
            var withUpper := if upper in declared then declared else declared + [upper];
            var lower := p + Text.ToLower(fieldName);
            EnvNames(cfg, fieldName, options) == if lower in withUpper then withUpper else withUpper + [lower]
  {
    var p := cfg.namePrefix;
    var explicit := AddNames([], p, ExplicitNames(options, cfg.sliceValueSeparator));
    var f, u, l := fieldName, Text.ToUpper(fieldName), Text.ToLower(fieldName);
    assert [f] == [] + [f];
    assert [f, u] == [f] + [u];
    assert [f, u, l] == [f, u] + [l];
    AddNamesSnoc(explicit, p, [], f);
    AddNamesSnoc(explicit, p, [f], u);
    AddNamesSnoc(explicit, p, [f, u], l);
  }

  /** With no explicit name set, the variable named like the field as declared wins over
      its upper- and lower-case spellings. */
  lemma DeclaredNameFirst(env: map<string, string>, cfg: Config, fieldName: string, options: map<string, string>)
    requires EnvValue(env, AddNames([], cfg.namePrefix, ExplicitNames(options, cfg.sliceValueSeparator))) == ""
    requires Getenv(env, cfg.namePrefix + fieldName) != ""
    ensures EnvValue(env, EnvNames(cfg, fieldName, options)) == Getenv(env, cfg.namePrefix + fieldName)
  {
    var p := cfg.namePrefix;
    var explicit := AddNames([], p, ExplicitNames(options, cfg.sliceValueSeparator));
    var name := p + fieldName;
    assert name !in explicit;
    EnvNamesOrder(cfg, fieldName, options);
    var r := EnvNames(cfg, fieldName, options);
    var back := r[|explicit|..];
    assert r == explicit + back;
    assert back[0] == name;
    EnvValueConcat(env, explicit, back);
  }

  /** With no explicit name and no variable named like the declared field set, the
      upper-case spelling wins over the lower-case one. */
  lemma UpperBeforeLower(env: map<string, string>, cfg: Config, fieldName: string, options: map<string, string>)
    requires EnvValue(env, AddNames([], cfg.namePrefix, ExplicitNames(options, cfg.sliceValueSeparator))) == ""
    requires Getenv(env, cfg.namePrefix + fieldName) == ""
    requires Getenv(env, cfg.namePrefix + Text.ToUpper(fieldName)) != ""
    ensures EnvValue(env, EnvNames(cfg, fieldName, options)) == Getenv(env, cfg.namePrefix + Text.ToUpper(fieldName))
  {
    var p := cfg.namePrefix;
    var explicit := AddNames([], p, ExplicitNames(options, cfg.sliceValueSeparator));
    var declared := if p + fieldName in explicit then explicit else explicit + [p + fieldName];
    var upper := p + Text.ToUpper(fieldName);
    assert upper !in explicit;
    assert EnvValue(env, declared) == "" by {
      EnvValueConcat(env, explicit, [p + fieldName]);
    }
    EnvNamesOrder(cfg, fieldName, options);
    var r := EnvNames(cfg, fieldName, options);
    var back := r[|declared|..];
    assert r == declared + back;
    assert back[0] == upper;
    EnvValueConcat(env, declared, back);
  }

  /** The candidate list has no repetitions, every entry carries the prefix, the prefixed
      field name is always on it, and the explicit names come first. */
  lemma EnvNamesFacts(cfg: Config, fieldName: string, options: map<string, string>)
    ensures var r := EnvNames(cfg, fieldName, options);
            NoDuplicates(r)
            && cfg.namePrefix + fieldName in r
            && AddNames([], cfg.namePrefix, ExplicitNames(options, cfg.sliceValueSeparator)) <= r
            && (forall i :: 0 <= i < |r| ==>
                  |cfg.namePrefix| <= |r[i]| && r[i][..|cfg.namePrefix|] == cfg.namePrefix)
  {
    var prefix := cfg.namePrefix;
    var explicit := ExplicitNames(options, cfg.sliceValueSeparator);
    var spellings := [fieldName, Text.ToUpper(fieldName), Text.ToLower(fieldName)];
    var first := AddNames([], prefix, explicit);
    AddNamesFacts([], prefix, explicit);
    AddNamesFacts(first, prefix, spellings);
    var r := EnvNames(cfg, fieldName, options);
    assert prefix + spellings[0] in r;
    forall y | y in r ensures |prefix| <= |y| && y[..|prefix|] == prefix {
      if y in first {
        var j :| 0 <= j < |explicit| && y == prefix + explicit[j];
      } else {
        var j :| 0 <= j < |spellings| && y == prefix + spellings[j];
      }
    }
  }

  /** The candidate list holds nothing but the prefixed explicit names and the three
      spellings of the prefixed field name, and all of them. */
  lemma EnvNamesMembers(cfg: Config, fieldName: string, options: map<string, string>)
    ensures var r := EnvNames(cfg, fieldName, options);
            var explicit := ExplicitNames(options, cfg.sliceValueSeparator);
            forall y :: y in r <==>
              (exists j :: 0 <= j < |explicit| && y == cfg.namePrefix + explicit[j])
              || y == cfg.namePrefix + fieldName
              || y == cfg.namePrefix + Text.ToUpper(fieldName)
              || y == cfg.namePrefix + Text.ToLower(fieldName)
  {
    var prefix := cfg.namePrefix;
    var explicit := ExplicitNames(options, cfg.sliceValueSeparator);
    var spellings := [fieldName, Text.ToUpper(fieldName), Text.ToLower(fieldName)];
    var first := AddNames([], prefix, explicit);
    AddNamesFacts([], prefix, explicit);
    AddNamesFacts(first, prefix, spellings);
    var r := EnvNames(cfg, fieldName, options);
    forall y ensures y in r <==>
              (exists j :: 0 <= j < |explicit| && y == prefix + explicit[j])
              || y == prefix + fieldName || y == prefix + Text.ToUpper(fieldName)
              || y == prefix + Text.ToLower(fieldName)
    {
      if y == prefix + fieldName {
        assert y == prefix + spellings[0];
      }
      if y == prefix + Text.ToUpper(fieldName) {
        assert y == prefix + spellings[1];
      }
      if y == prefix + Text.ToLower(fieldName) {
        assert y == prefix + spellings[2];
      }
    }
  }

  /** Looking up a list that starts with `front`: a value found in `front` wins; otherwise
      the rest of the list decides. */
  lemma {:induction false} EnvValueConcat(env: map<string, string>, front: seq<string>, back: seq<string>)
    ensures EnvValue(env, front + back)
            == if EnvValue(env, front) != "" then EnvValue(env, front) else EnvValue(env, back)
    decreases |front|
  {
    if front != [] {
      assert (front + back)[0] == front[0];
      assert (front + back)[1..] == front[1..] + back;
      EnvValueConcat(env, front[1..], back);
    } else {
      assert front + back == back;
    }
  }

  /** A variable named by the `name` option shadows the field-name spellings. */
  lemma ExplicitNamesWin(env: map<string, string>, cfg: Config, fieldName: string, options: map<string, string>)
    ensures var explicit := AddNames([], cfg.namePrefix, ExplicitNames(options, cfg.sliceValueSeparator));
            EnvValue(env, explicit) != "" ==>
              EnvValue(env, EnvNames(cfg, fieldName, options)) == EnvValue(env, explicit)
  {
    var explicit := AddNames([], cfg.namePrefix, ExplicitNames(options, cfg.sliceValueSeparator));
    var r := EnvNames(cfg, fieldName, options);
    assert r == explicit + r[|explicit|..];
    EnvValueConcat(env, explicit, r[|explicit|..]);
  }
}
