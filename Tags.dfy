/** What parseTag computes: the option set of an `env` tag, as a map from normalised
    keyword to verbatim value. */
module Tags {
  import opened Wrappers
  import Text
  import Options

  /** The index of the first occurrence of `c` in `s`, or -1. */
  function IndexOf(s: string, c: char): (r: int)
    ensures -1 <= r < |s|
    ensures r >= 0 ==> s[r] == c && c !in s[..r]
    ensures r < 0 ==> c !in s
  {
    if s == [] then -1
    else if s[0] == c then 0
    else
      var r := IndexOf(s[1..], c);
      if r < 0 then -1
      else
        assert s[..r + 1] == [s[0]] + s[1..][..r];
        r + 1
  }

  /** strings.SplitN(part, "=", 2): the text before the first `=` and, when there is an `=`,
      the text after it. */
  function CutAtEquals(part: string): (r: (string, Option<string>))
    ensures r.1.None? ==> r.0 == part && '=' !in part
    ensures r.1.Some? ==> part == r.0 + "=" + r.1.value && '=' !in r.0
  {
    var i := IndexOf(part, '=');
    if i < 0 then (part, None)
    else
      assert part == part[..i] + "=" + part[i + 1..];
      (part[..i], Some(part[i + 1..]))
  }

  /** One stored option: a normalised key and its verbatim value. */
  datatype Entry = Entry(key: string, value: string)

  /** What one tag segment stores: the text before the first `=`, lower-cased and trimmed,
      as the key; the text after it, verbatim, or "" when there is no `=`, as the value. */
  function Segment(part: string): Entry
  {
    var (before, after) := CutAtEquals(part);
    Entry(Text.TrimSpace(Text.ToLower(before)), if after.Some? then after.value else "")
  }

  function Entries(parts: seq<string>): (es: seq<Entry>)
    ensures |es| == |parts|
  {
    seq(|parts|, i requires 0 <= i < |parts| => Segment(parts[i]))
  }

  /** The option map after the entries `es` have been stored in order, a later entry
      overwriting an earlier one with the same key. */
  function Store(es: seq<Entry>): map<string, string>
  {
    if es == [] then map[]
    else Store(es[..|es| - 1])[es[|es| - 1].key := es[|es| - 1].value]
  }

  /** parseTag: split the tag on the option separator and store every segment. */
  function TagOptions(separator: string, tag: string): map<string, string>
  {
    Store(Entries(Text.Split(tag, separator)))
  }

  /** Go's `options[key]`: the empty string for an absent key. */
  function Get(options: map<string, string>, key: string): string
  {
    if key in options then options[key] else ""
  }

  ghost predicate KeyAt(es: seq<Entry>, k: string, j: int)
  {
    0 <= j < |es| && es[j].key == k
  }

  /** The keys of the option map are exactly the keys of the entries. */
  lemma {:induction false} StoreKeys(es: seq<Entry>)
    ensures forall k :: k in Store(es) <==> exists j :: KeyAt(es, k, j)
    decreases |es|
  {
    if es != [] {
      var init := es[..|es| - 1];
      StoreKeys(init);
      forall k ensures k in Store(es) <==> exists j :: KeyAt(es, k, j) {
        if k == es[|es| - 1].key {
          assert KeyAt(es, k, |es| - 1);
        } else if k in Store(init) {
          var j :| KeyAt(init, k, j);
          assert KeyAt(es, k, j);
        }
        if exists j :: KeyAt(es, k, j) {
          var j :| KeyAt(es, k, j);
          if j < |init| {
            assert KeyAt(init, k, j);
          }
        }
      }
    }
  }

  /** The value stored under a key is the value of the LAST entry with that key. */
  lemma {:induction false} StoreLastWins(es: seq<Entry>, j: int)
    requires 0 <= j < |es|
    requires forall l :: j < l < |es| ==> es[l].key != es[j].key
    ensures es[j].key in Store(es) && Store(es)[es[j].key] == es[j].value
    decreases |es|
  {
    if j < |es| - 1 {
      var init := es[..|es| - 1];
      assert init[j] == es[j];
      forall l | j < l < |init| ensures init[l].key != init[j].key {
        assert init[l] == es[l];
      }
      StoreLastWins(init, j);
    }
  }

  lemma SegmentKeyNormalized(part: string)
    ensures Text.ToLower(Segment(part).key) == Segment(part).key
    ensures Text.TrimSpace(Segment(part).key) == Segment(part).key
  {
    var before := CutAtEquals(part).0;
    var lowered := Text.ToLower(before);
    var k := Text.TrimSpace(lowered);
    assert Segment(part).key == k;
    Text.ToLowerIsLowerCase(before);
    Text.TrimSpaceKeepsLowerCase(lowered);
    Text.LowerCaseIsFixed(k);
    Text.TrimSpaceIdempotent(lowered);
  }

  /** Every key of a parsed tag is lower case and carries no surrounding white space. */
  lemma TagKeysNormalized(separator: string, tag: string)
    ensures forall k <- TagOptions(separator, tag) :: Text.ToLower(k) == k && Text.TrimSpace(k) == k
  {
    var es := Entries(Text.Split(tag, separator));
    StoreKeys(es);
    forall k <- TagOptions(separator, tag) ensures Text.ToLower(k) == k && Text.TrimSpace(k) == k {
      var j :| KeyAt(es, k, j);
      SegmentKeyNormalized(Text.Split(tag, separator)[j]);
    }
  }

  /** Among segments with the same key, the last one decides the value. */
  lemma TagLastWins(separator: string, tag: string, j: int)
    requires 0 <= j < |Text.Split(tag, separator)|
    requires var parts := Text.Split(tag, separator);
             forall l :: j < l < |parts| ==> Segment(parts[l]).key != Segment(parts[j]).key
    ensures var e := Segment(Text.Split(tag, separator)[j]);
            e.key in TagOptions(separator, tag) && TagOptions(separator, tag)[e.key] == e.value
  {
    StoreLastWins(Entries(Text.Split(tag, separator)), j);
  }

  /** An empty tag still yields one option, the empty key with the empty value
      (with the empty separator it yields none, since Split then returns no pieces). */
  lemma EmptyTag(separator: string)
    ensures separator != [] ==> TagOptions(separator, "") == map["" := ""]
    ensures separator == [] ==> TagOptions(separator, "") == map[]
  {
    if separator != [] {
      var parts := Text.Split("", separator);
      assert parts == [""] by {
        assert Text.SplitFrom("", separator, []) == [[] + []];
      }
      assert CutAtEquals("") == ("", None);
      assert Text.ToLower("") == "";
      assert Text.TrimSpace("") == "";
      assert Segment("") == Entry("", "");
      var es := Entries(parts);
      assert es == [Entry("", "")];
      assert es[..0] == [];
      assert Store(es) == map["" := ""];
    }
  }

  /** With a one-character separator, segments free of it are parsed one by one, in order:
      the tag's options are those stored from its segments. */
  lemma TagOfSegments(segments: seq<string>, c: char)
    requires |segments| >= 1 && forall i :: 0 <= i < |segments| ==> c !in segments[i]
    ensures TagOptions([c], Text.Join(segments, [c])) == Store(Entries(segments))
  {
    Text.SplitJoin(segments, c);
  }

  /** A tag without the (one-character) separator is a single segment. */
  lemma OneSegment(c: char, part: string)
    requires c !in part
    ensures TagOptions([c], part) == map[Segment(part).key := Segment(part).value]
  {
    Text.SplitPieceFree(part, c);
    StoreOne(Segment(part));
    assert Entries([part]) == [Segment(part)];
  }

  lemma StoreOne(e: Entry)
    ensures Store([e]) == map[e.key := e.value]
  {
    assert [e][..0] == [];
  }

  lemma StoreTwo(e1: Entry, e2: Entry)
    ensures Store([e1, e2]) == map[e1.key := e1.value][e2.key := e2.value]
  {
    assert [e1, e2][..1] == [e1];
    StoreOne(e1);
  }

  /** A tag of two segments around a one-character separator stores both, in order. */
  lemma TwoSegments(c: char, first: string, second: string)
    requires c !in first && c !in second
    ensures TagOptions([c], first + [c] + second)
            == map[Segment(first).key := Segment(first).value][Segment(second).key := Segment(second).value]
  {
    Text.SplitTwo(first, c, second);
    assert Entries([first, second]) == [Segment(first), Segment(second)];
    StoreTwo(Segment(first), Segment(second));
  }

  /** Cutting `key=value` at the first `=` gives back the key, provided the key has no
      `=`, and the value verbatim, whatever `=` it contains. */
  lemma CutAtEqualsOf(key: string, value: string)
    requires '=' !in key
    ensures CutAtEquals(key + "=" + value) == (key, Some(value))
  {
    var part := key + "=" + value;
    assert part[|key|] == '=';
    var r := CutAtEquals(part);
    assert r.1.Some?;
    assert r.0 == part[..|key|] == key;
    assert r.1.value == part[|key| + 1..] == value;
  }

  /** What a `key=value` segment stores, for a key without `=`. */
  lemma SegmentOf(key: string, value: string)
    requires '=' !in key
    ensures Segment(key + "=" + value) == Entry(Text.TrimSpace(Text.ToLower(key)), value)
  {
    CutAtEqualsOf(key, value);
  }

  /** A segment keeps everything after its first `=` as the value: ` Default=a=b` sets
      the `default` option to `a=b`. */
  lemma ValueAfterFirstEquals()
    ensures Segment(" Default=a=b") == Entry(Options.Default, "a=b")
  {
    assert " Default=a=b" == " Default" + "=" + "a=b";
    SegmentOf(" Default", "a=b");
    LeadingSpaceDefault();
  }

  lemma LeadingSpaceDefault()
    ensures Text.TrimSpace(Text.ToLower(" Default")) == Options.Default
  {
    LowerDefault();
    TrimDefault();
  }

  lemma LowerDefault()
    ensures Text.ToLower(" Default") == " default"
  {
    var lowered := Text.ToLower(" Default");
    forall i | 0 <= i < 8 ensures lowered[i] == " default"[i] {
    }
  }

  lemma TrimDefault()
    ensures Text.TrimSpace(" default") == "default"
  {
    var word := "default";
    assert !Text.IsSpace(word[0]) && !Text.IsSpace(word[6]);
    assert Text.TrimLeft(word) == word;
    assert Text.TrimRight(word) == word;
    var s := " default";
    assert s[0] == ' ' && s[1..] == word;
  }
}
