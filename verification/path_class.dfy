/** `PathClass`: a path held as text together with the character that
    separates its components (the directory marker, '/' by default).
    Mutating members become functions from the old value to the new one;
    those that can throw `PathClassEx` return a `Result`. Throwing happens
    before any change, so the value on the error path is the old one. */
module PathClass {
  import opened Wrappers
  import opened Seqs
  import StringStuff
  import StringOrder

  datatype Path = Path(path: string, dirMarker: char)

  /** The reasons `PathClassEx` is thrown. */
  datatype PathError =
    | NullMarker        // a 0 character was offered as the directory marker
    | InvalidComponent  // `operator[]` beyond the last component
    | DotMarker         // `RemoveSuffix` with '.' as the directory marker

  const NUL: char := StringStuff.NUL

  /** Every `Path` a constructor or marker change can produce. */
  predicate Valid(p: Path) {
    p.dirMarker != NUL
  }

  /** The string constructors: the text is taken as given, only a 0 marker
      is refused (a '.' marker is accepted). */
  function New(path: string, marker: char): (r: Result<Path, PathError>)
    ensures r.Err? <==> marker == NUL
    ensures r.Err? ==> r.error == NullMarker
    ensures r.Ok? ==> Valid(r.value) && r.value.path == path && r.value.dirMarker == marker
  {
    if marker == NUL then Err(NullMarker) else Ok(Path(path, marker))
  }

  //------------------------------------------------------------------
  // Comparison

  /** `operator==(string)`: both empty are equal, one empty is not, and
      otherwise at most one trailing marker is dropped from each side before
      comparing. The other side is read with this path's marker. */
  predicate Equals(p: Path, other: string) {
    if |p.path| == 0 && |other| == 0 then true
    else if |p.path| == 0 || |other| == 0 then false
    else (StringStuff.RemoveIfLastChar(p.path, p.dirMarker) ==
          StringStuff.RemoveIfLastChar(other, p.dirMarker))
  }

  /** `operator!=(string)` and, through `Path()`, both `PathClass` overloads. */
  predicate NotEquals(p: Path, other: string) {
    !Equals(p, other)
  }

  /** Two paths are equal exactly when both are empty, or both are
      non-empty and agree up to one marker that one of them has added at the
      end of a text not already ending in the marker. */
  lemma EqualsMeansTrailingMarker(p: Path, other: string)
    ensures Equals(p, other) <==>
      (|p.path| == 0 && |other| == 0) ||
      (|p.path| > 0 && |other| > 0 &&
        (p.path == other ||
         (p.path == other + [p.dirMarker] && other[|other| - 1] != p.dirMarker) ||
         (other == p.path + [p.dirMarker] && p.path[|p.path| - 1] != p.dirMarker)))
    ensures NotEquals(p, other) <==> !Equals(p, other)
  {
    var m := p.dirMarker;
    if |p.path| > 0 && |other| > 0 {
      var l := StringStuff.RemoveIfLastChar(p.path, m);
      var r := StringStuff.RemoveIfLastChar(other, m);
      if l == r {
        if p.path[|p.path| - 1] == m && other[|other| - 1] == m {
          assert p.path == l + [m] && other == r + [m];
        }
      }
      if p.path == other + [m] && other[|other| - 1] != m {
        assert p.path[..|p.path| - 1] == other;
      }
      if other == p.path + [m] && p.path[|p.path| - 1] != m {
        assert other[..|other| - 1] == p.path;
      }
    }
  }

  /** `operator<`: the string order of the two texts. */
  predicate Less(p: Path, q: Path) {
    StringOrder.Less(p.path, q.path)
  }

  //------------------------------------------------------------------
  // Trailing marker

  /** `AppendDirMarker`: add the marker unless the text already ends in it. */
  function AppendDirMarker(p: Path): (r: Path)
    ensures r.dirMarker == p.dirMarker
    ensures r.path == p.path || r.path == p.path + [p.dirMarker]
    ensures Valid(p) ==> EndsWith(r.path, [p.dirMarker])
    ensures |p.path| > 0 ==> Equals(r, p.path)
  {
    if StringStuff.LastChar(p.path) != p.dirMarker then p.(path := p.path + [p.dirMarker])
    else p
  }

  lemma AppendDirMarkerIdempotent(p: Path)
    requires Valid(p)
    ensures AppendDirMarker(AppendDirMarker(p)) == AppendDirMarker(p)
  {
  }

  /** `RemoveDirMarker`: drop one trailing marker, if there is one. */
  function RemoveDirMarker(p: Path): (r: Path)
    ensures r.dirMarker == p.dirMarker
    ensures EndsWith(p.path, [p.dirMarker]) ==> r.path + [p.dirMarker] == p.path
    ensures !EndsWith(p.path, [p.dirMarker]) ==> r.path == p.path
  {
    p.(path := StringStuff.RemoveIfLastChar(p.path, p.dirMarker))
  }

  /** Removing the marker undoes appending it. */
  lemma RemoveUndoesAppend(p: Path)
    requires Valid(p)
    ensures RemoveDirMarker(AppendDirMarker(p)) == RemoveDirMarker(p)
  {
    var a := AppendDirMarker(p);
    if a.path != p.path {
      assert a.path[..|a.path| - 1] == p.path;
    }
  }

  //------------------------------------------------------------------
  // Changing the marker

  /** Every `from` character of `s` rewritten to `to`. */
  function ConvertChars(s: string, from: char, to: char): (r: string)
    ensures |r| == |s|
    ensures forall i :: 0 <= i < |s| ==> r[i] == if s[i] == from then to else s[i]
  {
    if |s| == 0 then []
    else ConvertChars(s[..|s| - 1], from, to) + [if s[|s| - 1] == from then to else s[|s| - 1]]
  }

  /** The characters `a` and `b` of `s` exchanged. */
  function SwapChars(s: string, a: char, b: char): (r: string)
    ensures |r| == |s|
    ensures forall i :: 0 <= i < |s| ==>
      r[i] == if s[i] == a then b else if s[i] == b then a else s[i]
  {
    if |s| == 0 then []
    else
      var c := s[|s| - 1];
      SwapChars(s[..|s| - 1], a, b) + [if c == a then b else if c == b then a else c]
  }

  /** `ConvertDirMarkers`: old markers become the new one; characters that
      already equal the new marker stay, so they become separators too. */
  function ConvertDirMarkers(p: Path, newMarker: char): (r: Result<Path, PathError>)
    ensures newMarker == p.dirMarker ==> r == Ok(p)
    ensures r.Err? <==> newMarker != p.dirMarker && newMarker == NUL
    ensures r.Err? ==> r.error == NullMarker
    ensures r.Ok? ==> r.value.dirMarker == newMarker && |r.value.path| == |p.path|
    ensures r.Ok? ==> forall i :: 0 <= i < |p.path| ==>
      r.value.path[i] == if p.path[i] == p.dirMarker then newMarker else p.path[i]
  {
    if newMarker == p.dirMarker then Ok(p)
    else if newMarker == NUL then Err(NullMarker)
    else Ok(Path(ConvertChars(p.path, p.dirMarker, newMarker), newMarker))
  }

  /** `SwapDirMarkers`: old markers and characters equal to the new marker
      trade places. */
  function SwapDirMarkers(p: Path, newMarker: char): (r: Result<Path, PathError>)
    ensures newMarker == p.dirMarker ==> r == Ok(p)
    ensures r.Err? <==> newMarker != p.dirMarker && newMarker == NUL
    ensures r.Err? ==> r.error == NullMarker
    ensures r.Ok? ==> r.value.dirMarker == newMarker && |r.value.path| == |p.path|
    ensures r.Ok? ==> forall i :: 0 <= i < |p.path| ==>
      r.value.path[i] == if p.path[i] == p.dirMarker then newMarker
                         else if p.path[i] == newMarker then p.dirMarker
                         else p.path[i]
  {
    if newMarker == p.dirMarker then Ok(p)
    else if newMarker == NUL then Err(NullMarker)
    else Ok(Path(SwapChars(p.path, p.dirMarker, newMarker), newMarker))
  }

  /** `ChangeDirMarker`: the marker changes, the text never does. */
  function ChangeDirMarker(p: Path, newMarker: char): (r: Result<Path, PathError>)
    ensures r.Err? <==> newMarker == NUL
    ensures r.Err? ==> r.error == NullMarker
    ensures r.Ok? ==> r.value.path == p.path && r.value.dirMarker == newMarker
  {
    if newMarker == NUL then Err(NullMarker) else Ok(p.(dirMarker := newMarker))
  }

  /** Swapping to another marker and back restores the path exactly. */
  lemma SwapInvolution(p: Path, newMarker: char)
    requires Valid(p) && newMarker != NUL
    ensures SwapDirMarkers(p, newMarker).Ok?
    ensures SwapDirMarkers(SwapDirMarkers(p, newMarker).value, p.dirMarker) == Ok(p)
  {
    if newMarker != p.dirMarker {
      var q := SwapDirMarkers(p, newMarker).value;
      var back := SwapDirMarkers(q, p.dirMarker).value;
      assert back.path == p.path;
    }
  }

  /** Converting is undone by converting back when the new marker did not
      occur in the text; otherwise the two kinds of character merge. */
  lemma ConvertBackWhenFresh(p: Path, newMarker: char)
    requires Valid(p) && newMarker != NUL && newMarker !in p.path
    ensures ConvertDirMarkers(p, newMarker).Ok?
    ensures ConvertDirMarkers(ConvertDirMarkers(p, newMarker).value, p.dirMarker) == Ok(p)
  {
    if newMarker != p.dirMarker {
      var q := ConvertDirMarkers(p, newMarker).value;
      var back := ConvertDirMarkers(q, p.dirMarker).value;
      assert back.path == p.path;
    }
  }

  /** The two documented marker examples. */
  lemma MarkerExamples()
    ensures ConvertDirMarkers(Path("A/B/C:s:3/D", '/'), ':') == Ok(Path("A:B:C:s:3:D", ':'))
    ensures SwapDirMarkers(Path("A/B/C:s:3/D", '/'), ':') == Ok(Path("A:B:C/s/3:D", ':'))
  {
    var c := ConvertDirMarkers(Path("A/B/C:s:3/D", '/'), ':').value.path;
    assert c == "A:B:C:s:3:D";
    var s := SwapDirMarkers(Path("A/B/C:s:3/D", '/'), ':').value.path;
    assert s == "A:B:C/s/3:D";
  }

  //------------------------------------------------------------------
  // Joining paths

  /** `IsRelative`: true when the text starts with the marker (the opposite
      of what its comment says). */
  predicate IsRelative(p: Path) {
    if |p.path| == 0 then false else p.path[0] == p.dirMarker
  }

  /** One leading `c` dropped, if there is one. */
  function RemoveIfFirstChar(s: string, c: char): (r: string)
    ensures |s| > 0 && s[0] == c ==> [c] + r == s
    ensures |s| == 0 || s[0] != c ==> r == s
  {
    if |s| > 0 && s[0] == c then s[1..] else s
  }

  /** Two texts joined by exactly one marker where they meet: one trailing
      marker of the left and one leading marker of the right give way. */
  function Seam(left: string, right: string, m: char): string {
    StringStuff.RemoveIfLastChar(left, m) + [m] + RemoveIfFirstChar(right, m)
  }

  /** `AddPath(string)` (and `+=`, `+`): an empty component changes nothing,
      an empty path becomes the component, otherwise the two meet at one
      marker. */
  function AddPath(p: Path, component: string): (r: Path)
    ensures r.dirMarker == p.dirMarker
    ensures |component| == 0 ==> r == p
    ensures |component| > 0 && |p.path| == 0 ==> r.path == component
    ensures |component| > 0 && |p.path| > 0 ==> r.path == Seam(p.path, component, p.dirMarker)
  {
    if |component| == 0 then p
    else if |p.path| == 0 then p.(path := component)
    else
      var base := StringStuff.RemoveIfLastChar(p.path, p.dirMarker);
      var sep := if component[0] != p.dirMarker then [p.dirMarker] else [];
      p.(path := base + sep + component)
  }

  /** `PrependPath(string)`: the mirror image of `AddPath`. */
  function PrependPath(p: Path, component: string): (r: Path)
    ensures r.dirMarker == p.dirMarker
    ensures |component| == 0 ==> r == p
    ensures |component| > 0 && |p.path| == 0 ==> r.path == component
    ensures |component| > 0 && |p.path| > 0 ==> r.path == Seam(component, p.path, p.dirMarker)
  {
    if |component| == 0 then p
    else if |p.path| == 0 then p.(path := component)
    else if StringStuff.LastChar(component) == p.dirMarker then
      var rest := if p.path[0] == p.dirMarker then p.path[1..] else p.path;
      p.(path := component + rest)
    else
      var rest := if p.path[0] != p.dirMarker then [p.dirMarker] + p.path else p.path;
      p.(path := component + rest)
  }

  /** Prepending `a` to `b` gives the same text as adding `b` to `a`. */
  lemma PrependMirrorsAdd(p: Path, component: string)
    ensures PrependPath(p, component).path == AddPath(Path(component, p.dirMarker), p.path).path
  {
  }

  /** Adding a component keeps whether the path starts with the marker. */
  lemma AddPathKeepsLeadingMarker(p: Path, component: string)
    requires |p.path| > 0
    ensures IsRelative(AddPath(p, component)) == IsRelative(p)
  {
  }

  /** Adding a component without a marker, then removing the last component,
      leaves the path without its trailing marker. */
  lemma AddThenRemoveLast(p: Path, component: string)
    requires Valid(p) && |p.path| > 0 && |component| > 0 && p.dirMarker !in component
    ensures LastComponent(AddPath(p, component)) == component
    ensures RemoveLastComponent(AddPath(p, component)).path
      == StringStuff.RemoveIfLastChar(p.path, p.dirMarker)
  {
    var m := p.dirMarker;
    var base := StringStuff.RemoveIfLastChar(p.path, m);
    var t := AddPath(p, component).path;
    assert t == base + [m] + component;
    var pos := |base|;
    assert t[pos] == m;
    assert forall k :: pos < k < |t| ==> t[k] == component[k - pos - 1];
    assert FindLast(t, m) == Some(pos) by {
      FindLastIsLast(t, m, pos);
    }
    assert t[pos + 1..] == component;
    assert t[..pos] == base;
  }

  /** The last occurrence of `c` is found when nothing after it equals `c`. */
  lemma FindLastIsLast(s: string, c: char, pos: nat)
    requires pos < |s| && s[pos] == c && forall k :: pos < k < |s| ==> s[k] != c
    ensures FindLast(s, c) == Some(pos)
  {
    var r := FindLast(s, c);
    assert r.Some?;
  }

  //------------------------------------------------------------------
  // Components

  /** `LastComponent`: everything after the last marker. */
  function LastComponent(p: Path): (r: string)
    ensures Valid(p) && p.dirMarker in p.path ==>
      p.dirMarker !in r && EndsWith(p.path, [p.dirMarker] + r)
    ensures Valid(p) && p.dirMarker !in p.path ==> r == p.path
  {
    var r := StringStuff.FindFromBack(p.path, p.dirMarker);
    assert Valid(p) && p.dirMarker in p.path ==>
      p.path[|p.path| - |r| - 1..] == [p.dirMarker] + r;
    r
  }

  /** `RemoveLastComponent` and `operator--`: keep what is before the last
      marker; no marker leaves the empty path. */
  function RemoveLastComponent(p: Path): (r: Path)
    ensures r.dirMarker == p.dirMarker
    ensures p.dirMarker !in p.path ==> r.path == []
    ensures Valid(p) && p.dirMarker in p.path ==> r.path + [p.dirMarker] + LastComponent(p) == p.path
  {
    var r := p.(path := StringStuff.BeforeMarker(p.path, p.dirMarker));
    if Valid(p) && p.dirMarker in p.path then
      StringStuff.MarkerHalves(p.path, p.dirMarker);
      r
    else r
  }

  /** `Components`: the text split at every marker. */
  function Components(p: Path): (r: seq<string>)
    ensures Join(r, [p.dirMarker]) == p.path
    ensures forall i :: 0 <= i < |r| ==> p.dirMarker !in r[i]
    ensures |p.path| == 0 <==> |r| == 0
  {
    var r := StringStuff.Split(p.path, [p.dirMarker]);
    StringStuff.SplitJoin(p.path, [p.dirMarker]);
    forall i | 0 <= i < |r| ensures p.dirMarker !in r[i] {
      FreeOfOne(r[i], p.dirMarker);
    }
    r
  }

  /** `operator[]`: one component, or `PathClassEx` past the last one. */
  function Component(p: Path, idx: nat): (r: Result<string, PathError>)
    ensures r.Err? <==> idx >= |Components(p)|
    ensures r.Err? ==> r.error == InvalidComponent
    ensures r.Ok? ==> r.value == Components(p)[idx] && p.dirMarker !in r.value
  {
    var comps := Components(p);
    if idx >= |comps| then Err(InvalidComponent) else Ok(comps[idx])
  }

  //------------------------------------------------------------------
  // Suffixes

  /** `AddSuffix`: append '.' and the suffix. */
  function AddSuffix(p: Path, suffix: string): (r: Path)
    ensures r.dirMarker == p.dirMarker
    ensures |r.path| == |p.path| + 1 + |suffix|
    ensures r.path[..|p.path|] == p.path && r.path[|p.path|..] == ['.'] + suffix
  {
    p.(path := p.path + ['.'] + suffix)
  }

  /** `RemoveSuffix`: cut at the last '.' when no marker follows it; a '.'
      marker throws. */
  function RemoveSuffix(p: Path): (r: Result<Path, PathError>)
    ensures r.Err? <==> p.dirMarker == '.'
    ensures r.Err? ==> r.error == DotMarker
    ensures r.Ok? ==> (r.value.dirMarker == p.dirMarker && |r.value.path| <= |p.path| &&
                       r.value.path == p.path[..|r.value.path|])
    ensures r.Ok? && r.value.path != p.path ==>
      var d := |r.value.path|;
      p.path[d] == '.' && forall k :: d < k < |p.path| ==> p.path[k] != '.' && p.path[k] != p.dirMarker
    ensures r.Ok? && r.value.path == p.path ==>
      '.' !in p.path || exists k :: 0 <= k < |p.path| && p.path[k] == p.dirMarker && (forall j :: k < j < |p.path| ==> p.path[j] != '.')
  {
    if p.dirMarker == '.' then Err(DotMarker)
    else match FindLast(p.path, '.')
      case None => Ok(p)
      case Some(dot) =>
        match FindLast(p.path, p.dirMarker)
        case None => Ok(p.(path := p.path[..dot]))
        case Some(slash) =>
          if slash > dot then Ok(p) else Ok(p.(path := p.path[..dot]))
  }

  /** Adding a suffix free of '.' and of the marker, then removing the
      suffix, restores the path. */
  lemma {:induction false} SuffixRoundTrip(p: Path, suffix: string)
    requires p.dirMarker != '.' && '.' !in suffix && p.dirMarker !in suffix
    ensures RemoveSuffix(AddSuffix(p, suffix)) == Ok(p)
  {
    var t := AddSuffix(p, suffix).path;
    var dot := |p.path|;
    assert t[dot] == '.';
    assert forall k :: dot < k < |t| ==> t[k] == suffix[k - dot - 1];
    FindLastIsLast(t, '.', dot);
    assert t[..dot] == p.path;
    match FindLast(t, p.dirMarker)
    case None =>
    case Some(slash) =>
      assert slash < dot;
  }

  /** The documented suffix examples. */
  lemma SuffixExamples()
    ensures RemoveSuffix(Path("A/B/C/D.txt", '/')) == Ok(Path("A/B/C/D", '/'))
    ensures RemoveSuffix(Path("A/B/C.txt/D", '/')) == Ok(Path("A/B/C.txt/D", '/'))
    ensures RemoveSuffix(Path("A.B.C", '.')) == Err(DotMarker)
  {
    var a := "A/B/C/D.txt";
    FindLastIsLast(a, '.', 7);
    FindLastIsLast(a, '/', 5);
    assert a[..7] == "A/B/C/D";
    var b := "A/B/C.txt/D";
    FindLastIsLast(b, '.', 5);
    FindLastIsLast(b, '/', 9);
  }
}
