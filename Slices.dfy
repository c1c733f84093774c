/** What handleSliceWithSeparator computes for a slice field: split the value on the slice
    value separator, trim and drop empty pieces unless `notrim` is set, and coerce every
    remaining piece to the element kind. */
module Slices {
  import opened Wrappers
  import Text
  import Options
  import opened Values
  import opened Coercion

  /** A piece as it is kept when trimming: non-empty and without surrounding white space. */
  predicate IsTrimmedItem(x: string)
  {
    x != "" && Text.TrimSpace(x) == x
  }

  /** The pieces kept when trimming: each piece trimmed, the empty ones dropped, in order. */
  function TrimmedNonEmpty(pieces: seq<string>): (r: seq<string>)
    ensures |r| <= |pieces|
    ensures forall i :: 0 <= i < |r| ==> IsTrimmedItem(r[i])
  {
    if pieces == [] then []
    else
      var init := TrimmedNonEmpty(pieces[..|pieces| - 1]);
      var t := Text.TrimSpace(pieces[|pieces| - 1]);
      if t == "" then init
      else
        TrimmedItem(pieces[|pieces| - 1]);
        init + [t]
  }

  lemma TrimmedItem(p: string)
    requires Text.TrimSpace(p) != ""
    ensures IsTrimmedItem(Text.TrimSpace(p))
  {
    Text.TrimSpaceIdempotent(p);
  }

  /** The filtered values: every piece verbatim with `notrim`, else the trimmed non-empty ones. */
  function SliceItems(pieces: seq<string>, notrim: bool): seq<string>
  {
    if notrim then pieces else TrimmedNonEmpty(pieces)
  }

  /** `items[j]` is the first item that does not coerce. */
  ghost predicate FirstFailure(kind: Kind, items: seq<string>, options: map<string, string>, j: int)
  {
    0 <= j < |items| && SetReflectValue(kind, items[j], options).Failure?
    && forall l :: 0 <= l < j ==> SetReflectValue(kind, items[l], options).Success?
  }

  /** The elements of the new slice, or the error of the first item that does not coerce. */
  function CoerceAll(kind: Kind, items: seq<string>, options: map<string, string>): (r: Result<seq<Value>, Error>)
    ensures r.Success? <==> forall j :: 0 <= j < |items| ==> SetReflectValue(kind, items[j], options).Success?
    ensures r.Success? ==> |r.value| == |items|
    ensures r.Success? ==> forall j :: 0 <= j < |items| ==> r.value[j] == SetReflectValue(kind, items[j], options).value
    ensures r.Failure? ==> exists j :: FirstFailure(kind, items, options, j)
                                      && r.error == SetReflectValue(kind, items[j], options).error
    decreases |items|
  {
    if items == [] then Success([])
    else
      var head := SetReflectValue(kind, items[0], options);
      if head.Failure? then
        assert FirstFailure(kind, items, options, 0);
        Failure(head.error)
      else
        var rest := CoerceAll(kind, items[1..], options);
        assert forall j :: 1 <= j < |items| ==> items[j] == items[1..][j - 1];
        if rest.Failure? then
          assert exists j :: FirstFailure(kind, items, options, j) && rest.error == SetReflectValue(kind, items[j], options).error by {
            var j :| FirstFailure(kind, items[1..], options, j) && rest.error == SetReflectValue(kind, items[1..][j], options).error;
            assert FirstFailure(kind, items, options, j + 1);
          }
          Failure(rest.error)
        else
          Success([head.value] + rest.value)
  }

  /** handleSliceWithSeparator: an empty value gives the empty slice; otherwise the coerced
      filtered pieces. */
  function SliceValues(options: map<string, string>, separator: string, kind: Kind, envVal: string)
    : (r: Result<seq<Value>, Error>)
    ensures envVal == "" ==> r == Success([])
    ensures r.Success? ==> forall x <- r.value :: ScalarConforms(kind, x)
  {
    if envVal == "" then Success([])
    else CoerceAll(kind, SliceItems(Text.Split(envVal, separator), Options.NoTrim in options), options)
  }

  /** Pieces that are already trimmed and non-empty are all kept, unchanged. */
  lemma {:induction false} TrimmedNonEmptyKeeps(pieces: seq<string>)
    requires forall i :: 0 <= i < |pieces| ==> IsTrimmedItem(pieces[i])
    ensures TrimmedNonEmpty(pieces) == pieces
    decreases |pieces|
  {
    if pieces != [] {
      var init, last := pieces[..|pieces| - 1], pieces[|pieces| - 1];
      assert pieces == init + [last];
      TrimmedNonEmptyKeeps(init);
      TrimmedNonEmptySnoc(init, last);
    }
  }

  /** Appending a piece appends it trimmed, unless it is blank. */
  lemma TrimmedNonEmptySnoc(pieces: seq<string>, p: string)
    ensures TrimmedNonEmpty(pieces + [p])
            == TrimmedNonEmpty(pieces) + (if Text.TrimSpace(p) == "" then [] else [Text.TrimSpace(p)])
  {
    assert (pieces + [p])[..|pieces|] == pieces;
  }

  /** The filter works piece by piece: filtering a concatenation concatenates the filtered parts. */
  lemma {:induction false} TrimmedNonEmptyAppend(a: seq<string>, b: seq<string>)
    ensures TrimmedNonEmpty(a + b) == TrimmedNonEmpty(a) + TrimmedNonEmpty(b)
    decreases |b|
  {
    if b == [] {
      assert a + b == a;
    } else {
      var init := b[..|b| - 1];
      var p := b[|b| - 1];
      assert a + b == (a + init) + [p];
      assert b == init + [p];
      TrimmedNonEmptyAppend(a, init);
      TrimmedNonEmptySnoc(a + init, p);
      TrimmedNonEmptySnoc(init, p);
    }
  }

  /** Blank pieces only (white space or nothing) give no items. */
  lemma {:induction false} BlankPiecesVanish(pieces: seq<string>)
    requires forall i :: 0 <= i < |pieces| ==> Text.TrimSpace(pieces[i]) == ""
    ensures TrimmedNonEmpty(pieces) == []
    decreases |pieces|
  {
    if pieces != [] {
      BlankPiecesVanish(pieces[..|pieces| - 1]);
    }
  }

  /** Joining trimmed, non-empty, separator-free items and reading the result back as a
      slice gives one element per item, each the item coerced. */
  lemma SliceRoundTrip(options: map<string, string>, c: char, kind: Kind, items: seq<string>)
    requires |items| >= 1
    requires forall i :: 0 <= i < |items| ==> IsTrimmedItem(items[i]) && c !in items[i]
    ensures SliceValues(options, [c], kind, Text.Join(items, [c])) == CoerceAll(kind, items, options)
  {
    Text.SplitJoin(items, c);
    TrimmedNonEmptyKeeps(items);
    JoinNonEmpty(items, [c]);
  }

  /** With `notrim`, every piece between separators becomes an element, empty ones included. */
  lemma NoTrimKeepsEveryPiece(options: map<string, string>, c: char, kind: Kind, items: seq<string>)
    requires Options.NoTrim in options
    requires |items| >= 2 || (|items| == 1 && items[0] != "")
    requires forall i :: 0 <= i < |items| ==> c !in items[i]
    ensures SliceValues(options, [c], kind, Text.Join(items, [c])) == CoerceAll(kind, items, options)
  {
    Text.SplitJoin(items, c);
    JoinNonEmpty(items, [c]);
  }

  /** Without `notrim`, a value made only of separators and white space gives the empty slice. */
  lemma SeparatorsOnly(options: map<string, string>, separator: string, kind: Kind, envVal: string)
    requires Options.NoTrim !in options && separator != []
    requires forall p <- Text.Split(envVal, separator) :: Text.TrimSpace(p) == ""
    ensures SliceValues(options, separator, kind, envVal) == Success([])
  {
    var pieces := Text.Split(envVal, separator);
    forall i | 0 <= i < |pieces| ensures Text.TrimSpace(pieces[i]) == "" {
      assert pieces[i] in pieces;
    }
    BlankPiecesVanish(pieces);
  }

  lemma JoinNonEmpty(items: seq<string>, sep: string)
    requires (|items| >= 2 && sep != []) || (|items| >= 1 && items[0] != "")
    ensures Text.Join(items, sep) != ""
  {
    if |items| > 1 {
      assert Text.Join(items, sep) == items[0] + sep + Text.Join(items[1..], sep);
      assert |Text.Join(items, sep)| >= |items[0]| + |sep|;
    }
  }
}
