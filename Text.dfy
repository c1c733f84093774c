/** The string operations of Go's `strings` package that the resolver relies on:
    splitting on a separator, trimming white space and ASCII case mapping.
    Strings are sequences of Unicode scalar values, i.e. decoded valid UTF-8. */
module Text {

  /** unicode.IsSpace: the characters strings.TrimSpace removes. */
  predicate IsSpace(c: char)
  {
    c == ' ' || ('\t' <= c <= '\r') || c == '\U{85}' || c == '\U{A0}' || c == '\U{1680}'
    || ('\U{2000}' <= c <= '\U{200A}') || c == '\U{2028}' || c == '\U{2029}'
    || c == '\U{202F}' || c == '\U{205F}' || c == '\U{3000}'
  }

  function TrimLeft(s: string): (r: string)
    ensures |r| <= |s| && r == s[|s| - |r|..]
    ensures forall k :: 0 <= k < |s| - |r| ==> IsSpace(s[k])
    ensures r != [] ==> !IsSpace(r[0])
  {
    if s != [] && IsSpace(s[0]) then TrimLeft(s[1..]) else s
  }

  function TrimRight(s: string): (r: string)
    ensures |r| <= |s| && r == s[..|r|]
    ensures forall k :: |r| <= k < |s| ==> IsSpace(s[k])
    ensures r != [] ==> !IsSpace(r[|r| - 1])
  {
    if s != [] && IsSpace(s[|s| - 1]) then TrimRight(s[..|s| - 1]) else s
  }

  /** `r` is the slice of `s` starting at `i`, and everything of `s` around it is white space. */
  ghost predicate TrimmedAt(s: string, r: string, i: int)
  {
    0 <= i <= |s| - |r| && r == s[i..i + |r|]
    && (forall k :: 0 <= k < i ==> IsSpace(s[k]))
    && (forall k :: i + |r| <= k < |s| ==> IsSpace(s[k]))
  }

  /** strings.TrimSpace: the slice of `s` left after removing white space from both ends;
      it neither starts nor ends with white space. */
  function TrimSpace(s: string): (r: string)
    ensures r != [] ==> !IsSpace(r[0]) && !IsSpace(r[|r| - 1])
    ensures exists i :: TrimmedAt(s, r, i)
  {
    var l := TrimLeft(s);
    var r := TrimRight(l);
    assert r == s[|s| - |l|..][..|r|];
    assert TrimmedAt(s, r, |s| - |l|);
    r
  }

  lemma TrimSpaceIdempotent(s: string)
    ensures TrimSpace(TrimSpace(s)) == TrimSpace(s)
  {
  }

  /** A string with no non-white-space character trims to the empty string, and conversely. */
  lemma TrimSpaceEmpty(s: string)
    ensures TrimSpace(s) == [] <==> forall k :: 0 <= k < |s| ==> IsSpace(s[k])
  {
    var r := TrimSpace(s);
    var i :| TrimmedAt(s, r, i);
    if r != [] {
      assert s[i] == r[0];
    }
  }

  function LowerChar(c: char): char
  {
    if 'A' <= c <= 'Z' then (c as int + 32) as char else c
  }

  function UpperChar(c: char): char
  {
    if 'a' <= c <= 'z' then (c as int - 32) as char else c
  }

  /** strings.ToLower, restricted to the ASCII letters. */
  function ToLower(s: string): string
  {
    seq(|s|, i requires 0 <= i < |s| => LowerChar(s[i]))
  }

  /** strings.ToUpper, restricted to the ASCII letters. */
  function ToUpper(s: string): string
  {
    seq(|s|, i requires 0 <= i < |s| => UpperChar(s[i]))
  }

  predicate IsLowerCase(s: string)
  {
    forall i :: 0 <= i < |s| ==> LowerChar(s[i]) == s[i]
  }

  /** Lower-casing first does not change what upper-casing gives: with both
      `lower` and `upper` on a field, `upper` decides. */
  lemma UpperAfterLower(s: string)
    ensures ToUpper(ToLower(s)) == ToUpper(s)
  {
  }

  lemma ToLowerIsLowerCase(s: string)
    ensures IsLowerCase(ToLower(s)) && ToLower(ToLower(s)) == ToLower(s)
  {
  }

  lemma LowerCaseIsFixed(s: string)
    requires IsLowerCase(s)
    ensures ToLower(s) == s
  {
  }

  /** Trimming a lower-case string leaves it lower case. */
  lemma TrimSpaceKeepsLowerCase(s: string)
    requires IsLowerCase(s)
    ensures IsLowerCase(TrimSpace(s))
  {
    var r := TrimSpace(s);
    var i :| TrimmedAt(s, r, i);
    forall k | 0 <= k < |r| ensures LowerChar(r[k]) == r[k] {
      assert r[k] == s[i + k];
    }
  }

  /** strings.Join. */
  function Join(parts: seq<string>, sep: string): string
  {
    if parts == [] then []
    else if |parts| == 1 then parts[0]
    else parts[0] + sep + Join(parts[1..], sep)
  }

  /** strings.Split: the pieces of `s` between the non-overlapping occurrences of `sep`,
      found left to right; an empty `sep` splits after every character. */
  function Split(s: string, sep: string): (r: seq<string>)
    ensures sep != [] ==> |r| >= 1 && Join(r, sep) == s
    ensures sep == [] ==> |r| == |s| && forall i :: 0 <= i < |s| ==> r[i] == [s[i]]
  {
    if sep == [] then seq(|s|, i requires 0 <= i < |s| => [s[i]])
    else SplitFrom(s, sep, [])
  }

  /** Splitting where `piece` is the part of the current piece already consumed. */
  function SplitFrom(s: string, sep: string, piece: string): (r: seq<string>)
    requires sep != []
    ensures |r| >= 1 && Join(r, sep) == piece + s
    decreases |s|
  {
    if |s| < |sep| then [piece + s]
    else if s[..|sep|] == sep then
      var rest := SplitFrom(s[|sep|..], sep, []);
      assert s == sep + s[|sep|..];
      assert ([piece] + rest)[1..] == rest;
      [piece] + rest
    else
      assert piece + s == (piece + [s[0]]) + s[1..];
      SplitFrom(s[1..], sep, piece + [s[0]])
  }

  lemma {:induction false} SplitFromPieceFree(x: string, c: char, piece: string)
    requires c !in x
    ensures SplitFrom(x, [c], piece) == [piece + x]
    decreases |x|
  {
    if |x| >= 1 {
      assert x[..1] != [c] by { assert x[0] in x; }
      SplitFromPieceFree(x[1..], c, piece + [x[0]]);
      assert (piece + [x[0]]) + x[1..] == piece + x;
    }
  }

  /** A string without the one-character separator splits into itself alone. */
  lemma SplitPieceFree(x: string, c: char)
    requires c !in x
    ensures Split(x, [c]) == [x]
  {
    SplitFromPieceFree(x, c, []);
    assert [] + x == x;
  }

  lemma JoinTwo(x: string, y: string, sep: string)
    ensures Join([x, y], sep) == x + sep + y
  {
    assert [x, y][1..] == [y];
  }

  /** Two separator-free strings around one separator split into the two of them. */
  lemma SplitTwo(x: string, c: char, y: string)
    requires c !in x && c !in y
    ensures Split(x + [c] + y, [c]) == [x, y]
  {
    SplitFromAtSeparator(x, c, y, []);
    SplitPieceFree(y, c);
    assert [] + x == x;
  }

  lemma {:induction false} SplitFromAtSeparator(x: string, c: char, rest: string, piece: string)
    requires c !in x
    ensures SplitFrom(x + [c] + rest, [c], piece) == [piece + x] + SplitFrom(rest, [c], [])
    decreases |x|
  {
    var s := x + [c] + rest;
    if x == [] {
      assert s[..1] == [c] && s[1..] == rest;
      assert piece + x == piece;
      assert SplitFrom(s, [c], piece) == [piece] + SplitFrom(rest, [c], []);
    } else {
      assert s[..1] != [c] by { assert s[0] == x[0] && x[0] in x; }
      assert s[1..] == x[1..] + [c] + rest;
      SplitFromAtSeparator(x[1..], c, rest, piece + [x[0]]);
      assert (piece + [x[0]]) + x[1..] == piece + x;
    }
  }

  /** A character found neither in the pieces nor in the separator is not in their join. */
  lemma {:induction false} JoinAvoids(parts: seq<string>, sep: string, c: char)
    requires c !in sep && forall i :: 0 <= i < |parts| ==> c !in parts[i]
    ensures c !in Join(parts, sep)
    decreases |parts|
  {
    if |parts| > 1 {
      JoinAvoids(parts[1..], sep, c);
    }
  }

  /** Joining pieces that do not contain a one-character separator and splitting the
      result again gives the pieces back. */
  lemma {:induction false} SplitJoin(parts: seq<string>, c: char)
    requires |parts| >= 1
    requires forall i :: 0 <= i < |parts| ==> c !in parts[i]
    ensures Split(Join(parts, [c]), [c]) == parts
    decreases |parts|
  {
    if |parts| == 1 {
      SplitFromPieceFree(parts[0], c, []);
    } else {
      var tail := Join(parts[1..], [c]);
      SplitJoin(parts[1..], c);
      assert Split(tail, [c]) == SplitFrom(tail, [c], []);
      SplitFromAtSeparator(parts[0], c, tail, []);
      assert Join(parts, [c]) == parts[0] + [c] + tail;
      assert [] + parts[0] == parts[0];
      assert parts == [parts[0]] + parts[1..];
    }
  }

  /** `sub` occurs in `s` at index `i`. */
  ghost predicate OccursAt(s: string, sub: string, i: int)
  {
    0 <= i <= |s| - |sub| && s[i..i + |sub|] == sub
  }

  /** strings.Contains. */
  function Contains(s: string, sub: string): (r: bool)
    ensures r <==> exists i :: OccursAt(s, sub, i)
    decreases |s|
  {
    if |s| < |sub| then false
    else if s[..|sub|] == sub then
      assert OccursAt(s, sub, 0);
      true
    else
      var r := Contains(s[1..], sub);
      assert r ==> exists i :: OccursAt(s, sub, i) by {
        if r {
          var i :| OccursAt(s[1..], sub, i);
          assert s[i + 1..i + 1 + |sub|] == s[1..][i..i + |sub|];
          assert OccursAt(s, sub, i + 1);
        }
      }
      assert (exists i :: OccursAt(s, sub, i)) ==> r by {
        if exists i :: OccursAt(s, sub, i) {
          var i :| OccursAt(s, sub, i);
          assert i != 0;
          assert s[1..][i - 1..i - 1 + |sub|] == s[i..i + |sub|];
          assert OccursAt(s[1..], sub, i - 1);
        }
      }
      r
  }
}
