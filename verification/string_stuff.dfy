/** StringStuff: splitting, joining, trimming, replacing and searching
    `std::string` values. A string is a sequence of `char`; the `std::string`
    and `std::set<char>` overloads of a function differ only in how the
    character set is passed, so both are modelled with a `set<char>`.
    Functions that change their argument in place return the new value. */
module StringStuff {
  import opened Wrappers
  import opened Seqs

  /** The character 0, which several functions treat as "no character". */
  const NUL: char := 0 as char

  /** `LONG_MAX` on the 64-bit targets the library is built for. */
  const LongMax: int := 0x7FFF_FFFF_FFFF_FFFF

  /** `std::string::npos` as a `size_t`. */
  const NPos: int := 0xFFFF_FFFF_FFFF_FFFF

  //------------------------------------------------------------------
  // Split and join

  /** The loop of `RPStringSplit`: cut at the leftmost divider and go on with
      the rest; what follows the last divider, possibly nothing, is the
      final piece. */
  function SplitRest(r: string, d: string): (ps: seq<string>)
    requires |d| > 0
    ensures |ps| >= 1
    decreases |r|
  {
    match Find(r, d, 0)
    case None => [r]
    case Some(pos) => [r[..pos]] + SplitRest(r[pos + |d|..], d)
  }

  /** `RPStringSplit`: an empty divider gives the string itself, an empty
      string gives no pieces. */
  function Split(s: string, d: string): (ps: seq<string>)
    ensures |d| == 0 ==> ps == [s]
    ensures |d| > 0 && |s| == 0 ==> ps == []
    ensures |s| > 0 ==> |ps| >= 1
  {
    if |d| == 0 then [s]
    else if |s| == 0 then []
    else SplitRest(s, d)
  }

  /** Every piece of `ps` is free of `d`. */
  predicate PiecesFree(ps: seq<string>, d: string) {
    forall i :: 0 <= i < |ps| ==> Free(ps[i], d)
  }

  /** The text before the leftmost occurrence holds no occurrence. */
  lemma FreeBefore(r: string, d: string, pos: nat)
    requires |d| > 0 && pos <= |r|
    requires forall k :: 0 <= k < pos ==> !OccursAt(r, d, k)
    ensures Free(r[..pos], d)
  {
    forall j | 0 <= j <= pos
      ensures !OccursAt(r[..pos], d, j)
    {
      if OccursAt(r[..pos], d, j) {
        assert r[..pos][j..j + |d|] == r[j..j + |d|];
        assert OccursAt(r, d, j);
      }
    }
  }

  lemma {:induction false} SplitRestJoin(r: string, d: string)
    requires |d| > 0
    ensures Join(SplitRest(r, d), d) == r
    ensures PiecesFree(SplitRest(r, d), d)
    decreases |r|
  {
    match Find(r, d, 0)
    case None =>
    case Some(pos) =>
      var rest := SplitRest(r[pos + |d|..], d);
      SplitRestJoin(r[pos + |d|..], d);
      FreeBefore(r, d, pos);
      var ps := [r[..pos]] + rest;
      assert ps[1..] == rest;
      assert r == r[..pos] + d + r[pos + |d|..];
      forall i | 0 < i < |ps| ensures Free(ps[i], d) {
        assert ps[i] == rest[i - 1];
      }
  }

  /** Joining the pieces with the divider gives the string back, and no
      piece contains the divider. */
  lemma SplitJoin(s: string, d: string)
    ensures Join(Split(s, d), d) == s
    ensures |d| > 0 ==> PiecesFree(Split(s, d), d)
  {
    if |d| > 0 && |s| > 0 {
      SplitRestJoin(s, d);
    }
  }

  /** For a one-character divider, the first occurrence in a join is just
      after the first piece. */
  lemma FindAfterFirstPiece(parts: seq<string>, d: string)
    requires |d| == 1 && |parts| >= 2 && PiecesFree(parts, d)
    ensures Find(Join(parts, d), d, 0) == Some(|parts[0]|)
  {
    var j := Join(parts, d);
    var p0 := parts[0];
    assert j == p0 + d + Join(parts[1..], d);
    assert OccursAt(j, d, |p0|) by {
      assert j[|p0|..|p0| + 1] == d;
    }
    assert Free(p0, d);
    forall k | 0 <= k < |p0|
      ensures !OccursAt(j, d, k)
    {
      assert j[k..k + 1] == p0[k..k + 1];
      assert !OccursAt(p0, d, k);
    }
  }

  lemma {:induction false} SplitRestOfJoin(parts: seq<string>, d: string)
    requires |d| == 1 && |parts| >= 1 && PiecesFree(parts, d)
    ensures SplitRest(Join(parts, d), d) == parts
    decreases |parts|
  {
    var j := Join(parts, d);
    if |parts| == 1 {
      assert Free(parts[0], d);
      assert Find(j, d, 0).None?;
    } else {
      FindAfterFirstPiece(parts, d);
      var p0 := parts[0];
      var rest := parts[1..];
      assert j == p0 + d + Join(rest, d);
      assert j[..|p0|] == p0;
      assert j[|p0| + |d|..] == Join(rest, d);
      assert PiecesFree(rest, d) by {
        forall i | 0 <= i < |rest| ensures Free(rest[i], d) {
          assert rest[i] == parts[i + 1];
        }
      }
      SplitRestOfJoin(rest, d);
      assert parts == [p0] + rest;
    }
  }

  /** For a one-character divider, splitting a join of divider-free pieces
      gives the pieces back; the only exception is the single empty piece,
      whose join is the empty string. */
  lemma JoinSplit(parts: seq<string>, d: string)
    requires |d| == 1 && |parts| >= 1 && PiecesFree(parts, d)
    requires parts != [[]]
    ensures Split(Join(parts, d), d) == parts
  {
    SplitRestOfJoin(parts, d);
    if |parts| == 1 {
      assert Join(parts, d) == parts[0];
      assert parts[0] != [];
    } else {
      assert Join(parts, d) == parts[0] + d + Join(parts[1..], d);
    }
  }

  /** `RPStringJoin`: the pieces with `join` between consecutive ones, built
      left to right. */
  method JoinStrings(sv: seq<string>, join: string) returns (r: string)
    ensures r == Join(sv, join)
    ensures |sv| > 0 ==> |r| >= |sv[0]| && r[..|sv[0]|] == sv[0]
    ensures |sv| > 1 ==> |r| == |sv[0]| + |join| + |Join(sv[1..], join)|
  {
    if |sv| == 0 {
      return [];
    }
    if |sv| == 1 {
      return sv[0];
    }
    r := [];
    var t := 0;
    while t < |sv| - 1
      invariant 0 <= t <= |sv| - 1
      invariant r + Join(sv[t..], join) == Join(sv, join)
    {
      assert sv[t..][1..] == sv[t + 1..];
      r := r + sv[t];
      r := r + join;
      t := t + 1;
    }
    assert sv[t..] == [sv[t]];
    r := r + sv[t];
    JoinHead(sv, join);
  }

  //------------------------------------------------------------------
  // Between two markers

  /** The text `RPStringBetween` returns, with its two out-parameters. */
  datatype Between = Between(text: string, openPos: int, closePos: int)

  /** `open` at `i` and `close` at `j`, with `close` after the end of `open`. */
  predicate Enclosed(s: string, open: string, close: string, i: int, j: int) {
    OccursAt(s, open, i) && i + |open| <= j && OccursAt(s, close, j)
  }

  /** The guards `RPStringBetween` applies before searching. */
  predicate BetweenGuards(s: string, open: string, close: string) {
    0 < |s| < LongMax && |open| + |close| < |s|
  }

  /** `RPStringBetween`: the text after the first `open` and before the first
      `close` that follows it. An empty `open` stands for the start of the
      string, an empty `close` for its end; when both are empty the string
      is returned whole and neither position is set. */
  function StringBetween(s: string, open: string, close: string): (r: Between)
    ensures !BetweenGuards(s, open, close) ==> r == Between([], -1, -1)
    ensures r.openPos != -1 ==>
      && 0 <= r.openPos && OccursAt(s, open, r.openPos)
      && forall k :: 0 <= k < r.openPos ==> !OccursAt(s, open, k)
    ensures r.closePos != -1 ==>
      && r.openPos != -1 && Enclosed(s, open, close, r.openPos, r.closePos)
      && r.text == s[r.openPos + |open|..r.closePos]
      && forall k :: r.openPos + |open| <= k < r.closePos ==> !OccursAt(s, close, k)
    ensures r.openPos != -1 && r.closePos == -1 && |close| == 0 ==>
      r.text == s[r.openPos + |open|..]
    ensures r.openPos != -1 && r.closePos == -1 && |close| > 0 ==> r.text == []
    ensures r.openPos == -1 ==>
      r.text == if BetweenGuards(s, open, close) && |open| == 0 && |close| == 0 then s else []
    ensures (BetweenGuards(s, open, close) && |open| + |close| > 0 &&
             exists k :: OccursAt(s, open, k)) ==> r.openPos != -1
  {
    if |s| == 0 then Between([], -1, -1)
    else if |open| + |close| >= |s| then Between([], -1, -1)
    else if |s| >= LongMax then Between([], -1, -1)
    else if |open| == 0 && |close| == 0 then Between(s, -1, -1)
    else
      var found := if |open| == 0 then Some(0) else Find(s, open, 0);
      match found
      case None => Between([], -1, -1)
      case Some(idx1) =>
        var from := idx1 + |open|;
        if |close| == 0 then Between(s[from..], idx1, -1)
        else match Find(s, close, from)
          case None => Between([], idx1, -1)
          case Some(idx2) => Between(s[from..idx2], idx1, idx2)
  }

  /** Past the guards, a closing position is reported exactly when some
      `open` is followed by some `close`. */
  lemma BetweenFindsEnclosed(s: string, open: string, close: string)
    requires BetweenGuards(s, open, close) && |close| > 0
    ensures StringBetween(s, open, close).closePos != -1
      <==> exists i, j :: Enclosed(s, open, close, i, j)
  {
    var r := StringBetween(s, open, close);
    if exists i, j :: Enclosed(s, open, close, i, j) {
      var i, j :| Enclosed(s, open, close, i, j);
      var found := if |open| == 0 then Some(0) else Find(s, open, 0);
      assert found.Some?;
      var i0 := found.value;
      assert i0 <= i;
      assert Find(s, close, i0 + |open|).Some?;
    }
  }

  //------------------------------------------------------------------
  // Trimming

  /** `r` is `s` without its longest prefix of characters from `cset`. */
  predicate LeadingTrimmed(s: string, cset: set<char>, r: string) {
    && |r| <= |s| && r == s[|s| - |r|..]
    && (forall i :: 0 <= i < |s| - |r| ==> s[i] in cset)
    && (|r| > 0 ==> r[0] !in cset)
  }

  /** `r` is `s` without its longest suffix of characters from `cset`. */
  predicate TrailingTrimmed(s: string, cset: set<char>, r: string) {
    && |r| <= |s| && r == s[..|r|]
    && (forall i :: |r| <= i < |s| ==> s[i] in cset)
    && (|r| > 0 ==> r[|r| - 1] !in cset)
  }

  /** `RPStringRemoveLeading`. */
  function RemoveLeading(s: string, cset: set<char>): (r: string)
    ensures LeadingTrimmed(s, cset, r)
  {
    if |s| == 0 || |cset| == 0 then s
    else if s[0] in cset then RemoveLeading(s[1..], cset)
    else s
  }

  /** The `do … while (idx > 0)` loop of `RPStringRemoveTrailing` from
      `idx` down. With one character, found in `cset`, `idx` steps below 0,
      wraps to the largest `size_t` and the loop reads far past the string:
      `None`. */
  function TrailingFrom(s: string, cset: set<char>, idx: nat): (r: Option<string>)
    requires idx < |s|
    requires forall i :: idx < i < |s| ==> s[i] in cset
    ensures r.None? <==> idx == 0 && s[0] in cset
    ensures r.Some? ==> TrailingTrimmed(s, cset, r.value)
  {
    if s[idx] !in cset then Some(s[..idx + 1])
    else if idx == 0 then None
    else if idx - 1 > 0 then TrailingFrom(s, cset, idx - 1)
    else if s[0] !in cset then Some(s[..1])
    else Some([])
  }

  /** `RPStringRemoveTrailing`: `None` for the one-character string whose
      character is in `cset`, where the source reads out of bounds. */
  function RemoveTrailing(s: string, cset: set<char>): (r: Option<string>)
    ensures r.None? <==> |s| == 1 && s[0] in cset
    ensures r.Some? ==> TrailingTrimmed(s, cset, r.value)
  {
    if |s| == 0 || |cset| == 0 then Some(s)
    else TrailingFrom(s, cset, |s| - 1)
  }

  /** `RPStringRemoveLeadingTrailing`: leading first, then trailing. */
  function Trim(s: string, cset: set<char>): (r: Option<string>)
  {
    RemoveTrailing(RemoveLeading(s, cset), cset)
  }

  /** Trimming both ends never reaches the out-of-bounds case, and leaves
      the middle of the string with neither end in `cset`. */
  lemma TrimIsDefined(s: string, cset: set<char>)
    ensures Trim(s, cset).Some?
    ensures var r := Trim(s, cset).value;
      var a := |s| - |RemoveLeading(s, cset)|;
      && a + |r| <= |s| && r == s[a..a + |r|]
      && (forall i :: 0 <= i < a ==> s[i] in cset)
      && (forall i :: a + |r| <= i < |s| ==> s[i] in cset)
      && (|r| > 0 ==> r[0] !in cset && r[|r| - 1] !in cset)
  {
    var m := RemoveLeading(s, cset);
    assert LeadingTrimmed(s, cset, m);
    var t := RemoveTrailing(m, cset);
    assert Trim(s, cset) == t && t.Some?;
    var r := t.value;
    assert TrailingTrimmed(m, cset, r);
    TrimSlices(s, m, r, cset);
    assert |r| > 0 ==> r[0] == m[0];
  }

  /** The trimmed middle as a slice of the original string. */
  lemma TrimSlices(s: string, m: string, r: string, cset: set<char>)
    requires |m| <= |s| && m == s[|s| - |m|..]
    requires |r| <= |m| && r == m[..|r|]
    requires forall i :: |r| <= i < |m| ==> m[i] in cset
    ensures var a := |s| - |m|;
      && r == s[a..a + |r|]
      && (forall i :: a + |r| <= i < |s| ==> s[i] in cset)
  {
    var a := |s| - |m|;
    assert m[..|r|] == s[a..a + |r|];
    forall i | a + |r| <= i < |s| ensures s[i] in cset {
      assert s[i] == m[i - a];
    }
  }


  //------------------------------------------------------------------
  // Character sets

  /** `RPStringOnlyHasChars`. An empty string answers `invert`, an empty set
      answers `!invert`; otherwise every character is in `cset`, or with
      `invert` none is. */
  method OnlyHasChars(s: string, cset: set<char>, invert: bool) returns (r: bool)
    ensures |s| == 0 ==> r == invert
    ensures |s| > 0 && |cset| == 0 ==> r == !invert
    ensures |s| > 0 && |cset| > 0 && !invert ==> (r <==> forall i :: 0 <= i < |s| ==> s[i] in cset)
    ensures |s| > 0 && |cset| > 0 && invert ==> (r <==> forall i :: 0 <= i < |s| ==> s[i] !in cset)
  {
    if |s| == 0 {
      return invert;
    }
    if |cset| == 0 {
      return !invert;
    }
    var t := 0;
    while t < |s|
      invariant 0 <= t <= |s|
      invariant forall i :: 0 <= i < t ==> (s[i] in cset) != invert
    {
      if (s[t] in cset) == invert {
        return false;
      }
      t := t + 1;
    }
    return true;
  }

  /** The characters of `s` whose membership in `cset` equals `keepIn`, in
      order. */
  function Keep(s: string, cset: set<char>, keepIn: bool): (r: string)
    ensures |r| <= |s|
    ensures forall i :: 0 <= i < |r| ==> (r[i] in cset) == keepIn
    ensures forall c :: (c in cset) == keepIn ==> multiset(r)[c] == multiset(s)[c]
  {
    if |s| == 0 then []
    else
      assert s == [s[0]] + s[1..];
      if (s[0] in cset) == keepIn then [s[0]] + Keep(s[1..], cset, keepIn)
      else Keep(s[1..], cset, keepIn)
  }

  /** Keeping distributes over concatenation, so it keeps the order. */
  lemma {:induction false} KeepConcat(a: string, b: string, cset: set<char>, keepIn: bool)
    ensures Keep(a + b, cset, keepIn) == Keep(a, cset, keepIn) + Keep(b, cset, keepIn)
    decreases |a|
  {
    if |a| > 0 {
      assert (a + b)[1..] == a[1..] + b;
      KeepConcat(a[1..], b, cset, keepIn);
    } else {
      assert a + b == b;
    }
  }

  /** `RPStringRemoveFromSet`: remove the characters in `cset`, or with
      `invert` those not in it. */
  function RemoveFromSet(s: string, cset: set<char>, invert: bool): (r: string)
    ensures forall i :: 0 <= i < |r| ==> (r[i] in cset) == invert
    ensures forall c :: (c in cset) == invert ==> multiset(r)[c] == multiset(s)[c]
  {
    Keep(s, cset, invert)
  }

  /** Number of characters of `s` that are in `cset`. */
  function CountIn(s: string, cset: set<char>): nat {
    if |s| == 0 then 0
    else (if s[0] in cset then 1 else 0) + CountIn(s[1..], cset)
  }

  /** Exactly the characters outside `cset` are kept. */
  lemma {:induction false} KeepCount(s: string, cset: set<char>)
    ensures |Keep(s, cset, false)| == |s| - CountIn(s, cset)
    decreases |s|
  {
    if |s| > 0 {
      KeepCount(s[1..], cset);
    }
  }

  /** Each character in `cset` replaced by `c`. */
  function Substitute(s: string, cset: set<char>, c: char): (r: string)
    ensures |r| == |s|
    ensures forall i :: 0 <= i < |s| ==> r[i] == if s[i] in cset then c else s[i]
  {
    if |s| == 0 then []
    else [if s[0] in cset then c else s[0]] + Substitute(s[1..], cset, c)
  }

  /** `RPStringReplaceAllChars`: -1 when `replacement` is itself in the set;
      otherwise every character of the set is replaced, or deleted when the
      replacement is 0, and the count is the number of such characters. */
  function ReplaceAllChars(s: string, cset: set<char>, replacement: char): (r: Replaced)
    ensures replacement in cset ==> r == Replaced(s, -1)
    ensures replacement !in cset ==> r.count == CountIn(s, cset)
    ensures replacement !in cset && replacement != NUL ==>
      r.text == Substitute(s, cset, replacement)
    ensures replacement !in cset && replacement == NUL ==>
      && r.text == Keep(s, cset, false)
      && |r.text| == |s| - r.count
  {
    if replacement in cset then Replaced(s, -1)
    else if |s| == 0 || |cset| == 0 then
      assert CountIn(s, cset) == 0 && Keep(s, cset, false) == s by {
        if |cset| == 0 {
          CountNone(s, cset);
          KeepAll(s, cset);
        }
      }
      assert Substitute(s, cset, replacement) == s;
      Replaced(s, 0)
    else if replacement != NUL then Replaced(Substitute(s, cset, replacement), CountIn(s, cset))
    else
      KeepCount(s, cset);
      Replaced(Keep(s, cset, false), CountIn(s, cset))
  }

  lemma {:induction false} CountNone(s: string, cset: set<char>)
    requires |cset| == 0
    ensures CountIn(s, cset) == 0
    decreases |s|
  {
    if |s| > 0 {
      CountNone(s[1..], cset);
    }
  }

  lemma {:induction false} KeepAll(s: string, cset: set<char>)
    requires |cset| == 0
    ensures Keep(s, cset, false) == s
    decreases |s|
  {
    if |s| > 0 {
      KeepAll(s[1..], cset);
      assert s == [s[0]] + s[1..];
    }
  }

  /** `RPStringCountOfChar`: 0 for an empty string or for `c == 0`. */
  method CountOfChar(s: string, c: char) returns (ct: nat)
    ensures c == NUL ==> ct == 0
    ensures c != NUL ==> ct == multiset(s)[c]
  {
    if |s| == 0 || c == NUL {
      return 0;
    }
    ct := 0;
    var t := 0;
    while t < |s|
      invariant 0 <= t <= |s|
      invariant ct == multiset(s[..t])[c]
    {
      assert s[..t + 1] == s[..t] + [s[t]];
      if s[t] == c {
        ct := ct + 1;
      }
      t := t + 1;
    }
    assert s[..t] == s;
  }

  /** `RPLongestString`: the greatest length in `ary`; `index` is left at
      `npos`. */
  method LongestString(ary: seq<string>) returns (l: nat, index: int)
    ensures index == NPos
    ensures forall i :: 0 <= i < |ary| ==> |ary[i]| <= l
    ensures |ary| == 0 ==> l == 0
    ensures |ary| > 0 ==> exists i :: 0 <= i < |ary| && |ary[i]| == l
  {
    index := NPos;
    l := 0;
    var t := 0;
    while t < |ary|
      invariant 0 <= t <= |ary|
      invariant forall i :: 0 <= i < t ==> |ary[i]| <= l
      invariant l == 0 || exists i :: 0 <= i < t && |ary[i]| == l
    {
      if |ary[t]| > l {
        l := |ary[t]|;
      }
      t := t + 1;
    }
    if |ary| > 0 && l == 0 {
      assert |ary[0]| == 0;
    }
  }

  //------------------------------------------------------------------
  // Replacing substrings

  /** A string with the count `RPStringReplaceAll` and
      `RPStringReplaceAllChars` return (negative for their error codes). */
  datatype Replaced = Replaced(text: string, count: int)

  /** The loop of `RPStringReplaceAll`: replace the leftmost occurrence and
      search again from the start. `fuel` bounds the number of rounds;
      `None` means it ran out. */
  function ReplaceLoop(s: string, toFind: string, replacement: string, ct: nat, fuel: nat)
    : (r: Option<Replaced>)
    requires |toFind| > 0
    ensures r.Some? ==> Free(r.value.text, toFind) && r.value.count >= ct
    decreases fuel
  {
    match Find(s, toFind, 0)
    case None => Some(Replaced(s, ct))
    case Some(pos) =>
      if fuel == 0 then None
      else ReplaceLoop(s[..pos] + replacement + s[pos + |toFind|..], toFind, replacement, ct + 1, fuel - 1)
  }

  /** A text free of `toFind` is returned unchanged with the count so far,
      whatever the fuel. */
  lemma ReplaceLoopFree(s: string, toFind: string, replacement: string, ct: nat, fuel: nat)
    requires |toFind| > 0 && Free(s, toFind)
    ensures ReplaceLoop(s, toFind, replacement, ct, fuel) == Some(Replaced(s, ct))
  {
  }

  /** Each replacement changes the length by `|replacement| - |toFind|`. */
  lemma {:induction false} ReplaceLength(s: string, toFind: string, replacement: string, ct: nat, fuel: nat)
    requires |toFind| > 0
    requires ReplaceLoop(s, toFind, replacement, ct, fuel).Some?
    ensures var r := ReplaceLoop(s, toFind, replacement, ct, fuel).value;
      |r.text| == |s| + (r.count - ct) * (|replacement| - |toFind|)
    decreases fuel
  {
    match Find(s, toFind, 0)
    case None =>
    case Some(pos) =>
      var next := s[..pos] + replacement + s[pos + |toFind|..];
      ReplaceLength(next, toFind, replacement, ct + 1, fuel - 1);
      var r := ReplaceLoop(next, toFind, replacement, ct + 1, fuel - 1).value;
      var n := r.count - ct - 1;
      var w := |replacement| - |toFind|;
      assert |next| == |s| + w;
      assert (n + 1) * w == n * w + w;
  }

  /** `RPStringReplaceAll`: -1 for an empty string or empty `toFind`, -2
      whenever `replacement` contains `toFind`; otherwise the number of
      replacements, after which `toFind` no longer occurs. */
  function ReplaceAll(s: string, toFind: string, replacement: string, fuel: nat): (r: Option<Replaced>)
    ensures |s| == 0 || |toFind| == 0 ==> r == Some(Replaced(s, -1))
    ensures |s| > 0 && |toFind| > 0 && Find(replacement, toFind, 0).Some? ==> r == Some(Replaced(s, -2))
    ensures r.Some? && r.value.count >= 0 ==> Free(r.value.text, toFind)
    ensures r.Some? && r.value.count >= 0 ==>
      |r.value.text| == |s| + r.value.count * (|replacement| - |toFind|)
    ensures |s| > 0 && |toFind| > 0 && Find(replacement, toFind, 0).None? && Free(s, toFind) ==>
      r == Some(Replaced(s, 0))
  {
    if |s| == 0 || |toFind| == 0 then Some(Replaced(s, -1))
    else if Find(replacement, toFind, 0).Some? then Some(Replaced(s, -2))
    else
      var r := ReplaceLoop(s, toFind, replacement, 0, fuel);
      if r.Some? then ReplaceLength(s, toFind, replacement, 0, fuel); r else r
  }

  /** A replacement shorter than what it replaces shrinks the string each
      round, so `|s|` rounds always suffice. */
  lemma {:induction false} ShrinkingReplaceEnds(s: string, toFind: string, replacement: string, ct: nat, fuel: nat)
    requires |replacement| < |toFind| && fuel >= |s|
    ensures ReplaceLoop(s, toFind, replacement, ct, fuel).Some?
    decreases fuel
  {
    var f := Find(s, toFind, 0);
    if f.Some? {
      var next := ReplaceRound(s, toFind, replacement, f.value, fuel);
      ShrinkingReplaceEnds(next, toFind, replacement, ct + 1, fuel - 1);
    }
  }

  /** One round of `ReplaceLoop` at the leftmost occurrence `pos`, which
      leaves a shorter string when the replacement is shorter. */
  lemma ReplaceRound(s: string, toFind: string, replacement: string, pos: nat, fuel: nat)
    returns (next: string)
    requires |replacement| < |toFind| && fuel >= |s|
    requires Find(s, toFind, 0) == Some(pos)
    ensures |next| < |s| && fuel > 0
    ensures forall ct: nat :: ReplaceLoop(s, toFind, replacement, ct, fuel) == ReplaceLoop(next, toFind, replacement, ct + 1, fuel - 1)
  {
    next := s[..pos] + replacement + s[pos + |toFind|..];
  }

  /** Every `c` of `s` replaced by `rep` in a single left-to-right pass, the
      characters in between kept. */
  function SubstChar(s: string, c: char, rep: string): string
    decreases |s|
  {
    if |s| == 0 then []
    else (if s[0] == c then rep else [s[0]]) + SubstChar(s[1..], c, rep)
  }

  lemma {:induction false} SubstCharConcat(a: string, b: string, c: char, rep: string)
    ensures SubstChar(a + b, c, rep) == SubstChar(a, c, rep) + SubstChar(b, c, rep)
    decreases |a|
  {
    if |a| == 0 {
      assert a + b == b;
    } else {
      assert (a + b)[1..] == a[1..] + b;
      SubstCharConcat(a[1..], b, c, rep);
    }
  }

  lemma {:induction false} SubstCharAbsent(s: string, c: char, rep: string)
    requires c !in s
    ensures SubstChar(s, c, rep) == s
    decreases |s|
  {
    if |s| > 0 {
      assert c !in s[1..];
      SubstCharAbsent(s[1..], c, rep);
      assert s == [s[0]] + s[1..];
    }
  }

  /** A string without `c` is free of the one-character string `[c]`. */
  lemma OneCharFree(s: string, c: char)
    requires c !in s
    ensures Free(s, [c]) && Find(s, [c], 0).None?
  {
    forall j | 0 <= j <= |s| ensures !OccursAt(s, [c], j) {
      if j + 1 <= |s| {
        assert s[j..j + 1] == [s[j]];
      }
    }
  }

  /** With a one-character search string that the replacement does not
      contain, the loop is the one-pass substitution: each `c` is replaced
      once and counted once, given one round of fuel per `c`. */
  lemma {:induction false} ReplaceOneChar(s: string, c: char, rep: string, ct: nat, fuel: nat)
    requires c !in rep && fuel >= CountIn(s, {c})
    ensures ReplaceLoop(s, [c], rep, ct, fuel) == Some(Replaced(SubstChar(s, c, rep), ct + CountIn(s, {c})))
    decreases fuel
  {
    match Find(s, [c], 0)
    case None =>
      ReplaceOneNone(s, c, rep, ct, fuel);
    case Some(pos) =>
      var next := ReplaceOneStep(s, c, rep, pos, ct, fuel);
      ReplaceOneChar(next, c, rep, ct + 1, fuel - 1);
      assert ReplaceLoop(next, [c], rep, ct + 1, fuel - 1)
        == Some(Replaced(SubstChar(next, c, rep), ct + 1 + CountIn(next, {c})));
  }

  /** No `c` left: the text is already its substitution. */
  lemma ReplaceOneNone(s: string, c: char, rep: string, ct: nat, fuel: nat)
    requires Find(s, [c], 0).None?
    ensures ReplaceLoop(s, [c], rep, ct, fuel) == Some(Replaced(SubstChar(s, c, rep), ct + CountIn(s, {c})))
  {
    FindOneNone(s, c);
    CountAbsent(s, c);
    SubstCharAbsent(s, c, rep);
  }

  /** One round at the first `c`: the substitution is unchanged and one `c`
      fewer remains. */
  lemma ReplaceOneStep(s: string, c: char, rep: string, pos: nat, ct: nat, fuel: nat) returns (next: string)
    requires c !in rep && Find(s, [c], 0) == Some(pos)
    ensures fuel > 0 ==> ReplaceLoop(s, [c], rep, ct, fuel) == ReplaceLoop(next, [c], rep, ct + 1, fuel - 1)
    ensures SubstChar(next, c, rep) == SubstChar(s, c, rep)
    ensures CountIn(s, {c}) == CountIn(next, {c}) + 1
  {
    FirstOccurrence(s, c, pos);
    var pre, post := s[..pos], s[pos + 1..];
    next := pre + rep + post;
    assert s[..pos] + rep + s[pos + |[c]|..] == next;
    SubstRound(pre, post, c, rep);
  }

  /** The leftmost occurrence of `[c]` splits `s` around a `c`, with no
      `c` before it. */
  lemma FirstOccurrence(s: string, c: char, pos: nat)
    requires Find(s, [c], 0) == Some(pos)
    ensures pos < |s| && s == s[..pos] + [c] + s[pos + 1..] && c !in s[..pos]
  {
    FindOne(s, c, pos);
    SplitAround(s, pos);
  }

  /** Replacing the first `c` leaves the substitution unchanged and one
      fewer `c`. */
  lemma SubstRound(pre: string, post: string, c: char, rep: string)
    requires c !in pre && c !in rep
    ensures SubstChar(pre + [c] + post, c, rep) == SubstChar(pre + rep + post, c, rep)
    ensures CountIn(pre + [c] + post, {c}) == CountIn(pre + rep + post, {c}) + 1
  {
    var tail := SubstChar(post, c, rep);
    SubstCharAbsent(pre, c, rep);
    SubstCharAbsent(rep, c, rep);
    assert SubstChar([c], c, rep) == rep + SubstChar([], c, rep);
    SubstCharConcat(pre, [c], c, rep);
    SubstCharConcat(pre + [c], post, c, rep);
    assert SubstChar(pre + [c] + post, c, rep) == pre + rep + tail;
    SubstCharConcat(pre, rep, c, rep);
    SubstCharConcat(pre + rep, post, c, rep);
    assert SubstChar(pre + rep + post, c, rep) == pre + rep + tail;
    CountRound(pre, post, c, rep);
  }

  lemma CountRound(pre: string, post: string, c: char, rep: string)
    requires c !in pre && c !in rep
    ensures CountIn(pre + [c] + post, {c}) == CountIn(pre + rep + post, {c}) + 1
  {
    CountInConcat(pre + rep, post, {c});
    CountInConcat(pre, rep, {c});
    CountInConcat(pre + [c], post, {c});
    CountInConcat(pre, [c], {c});
    CountAbsent(pre, c);
    CountAbsent(rep, c);
    assert CountIn([c], {c}) == 1 + CountIn([], {c});
  }

  lemma {:induction false} CountInConcat(a: string, b: string, cset: set<char>)
    ensures CountIn(a + b, cset) == CountIn(a, cset) + CountIn(b, cset)
    decreases |a|
  {
    if |a| == 0 {
      assert a + b == b;
    } else {
      assert (a + b)[1..] == a[1..] + b;
      CountInConcat(a[1..], b, cset);
    }
  }

  lemma {:induction false} CountAbsent(s: string, c: char)
    requires c !in s
    ensures CountIn(s, {c}) == 0
    decreases |s|
  {
    if |s| > 0 {
      assert c !in s[1..];
      CountAbsent(s[1..], c);
    }
  }

  /** `RPStringReplaceAll` with a one-character search string: every
      occurrence replaced, and the count is the number of occurrences. */
  lemma ReplaceAllOneChar(s: string, c: char, rep: string, fuel: nat)
    requires |s| > 0 && c !in rep && fuel >= CountIn(s, {c})
    ensures ReplaceAll(s, [c], rep, fuel) == Some(Replaced(SubstChar(s, c, rep), CountIn(s, {c})))
  {
    OneCharFree(rep, c);
    ReplaceOneChar(s, c, rep, 0, fuel);
  }

  /** `RPStringReplaceAll` refuses a replacement containing the search
      character with -2. */
  lemma ReplaceAllOneCharRefused(s: string, c: char, rep: string, fuel: nat)
    requires |s| > 0 && c in rep
    ensures ReplaceAll(s, [c], rep, fuel) == Some(Replaced(s, -2))
  {
    var k :| 0 <= k < |rep| && rep[k] == c;
    assert OccursAt(rep, [c], k);
  }

  //------------------------------------------------------------------
  // Searching from the back

  /** `RPStrFindFromBack`: the text after the last `c`; the whole string
      when `c` is absent; empty for an empty string or `c == 0`. */
  function FindFromBack(s: string, c: char): (r: string)
    ensures |s| == 0 || c == NUL ==> r == []
    ensures |s| > 0 && c != NUL && c !in s ==> r == s
    ensures c != NUL && c in s ==> c !in r && |r| < |s| && r == s[|s| - |r|..] && s[|s| - |r| - 1] == c
  {
    if |s| == 0 || c == NUL then []
    else match FindLast(s, c)
      case None => s
      case Some(pos) =>
        s[pos + 1..]
  }

  /** `RPStrBeforeMarker`: the text before the last `c`; empty when `c` is
      absent. */
  function BeforeMarker(s: string, c: char): (r: string)
    ensures |s| == 0 || c == NUL || c !in s ==> r == []
    ensures c != NUL && c in s ==>
      |r| < |s| && r == s[..|r|] && s[|r|] == c && c !in s[|r| + 1..]
  {
    if |s| == 0 || c == NUL then []
    else match FindLast(s, c)
      case None => []
      case Some(pos) => s[..pos]
  }

  /** When `c` occurs, the two halves and `c` rebuild the string. */
  lemma MarkerHalves(s: string, c: char)
    requires c != NUL && c in s
    ensures BeforeMarker(s, c) + [c] + FindFromBack(s, c) == s
  {
    var pos := FindLast(s, c).value;
    assert s == s[..pos] + [c] + s[pos + 1..];
  }

  /** `RPStringBeforeAndAfter`: cleave at the first `divider`, assuming it is
      one character. A divider at the very start leaves `after` the whole
      string, one at the very end leaves `before` the whole string. */
  function BeforeAndAfter(s: string, divider: string): (r: Option<(string, string)>)
    ensures r.None? <==> forall k :: !OccursAt(s, divider, k)
    ensures r.Some? && |divider| == 1 ==>
      var (before, after) := r.value;
      || (before == [] && after == s && OccursAt(s, divider, 0))
      || (before == s && after == [] && OccursAt(s, divider, |s| - 1))
      || (before + divider + after == s && Free(before, divider))
    ensures Find(s, divider, 0) == Some(0) ==> r == Some(([], s))
    ensures |s| > 1 && Find(s, divider, 0) == Some(|s| - 1) ==> r == Some((s, []))
    ensures var f := Find(s, divider, 0);
      f.Some? && 0 < f.value < |s| - 1 ==> r == Some((s[..f.value], s[f.value + 1..]))
  {
    match Find(s, divider, 0)
    case None => None
    case Some(pos) =>
      if pos == 0 then Some(([], s))
      else if pos == |s| - 1 then Some((s, []))
      else
        FreeBefore(s, divider, pos);
        assert s == s[..pos] + s[pos..pos + 1] + s[pos + 1..];
        Some((s[..pos], s[pos + 1..]))
  }

  //------------------------------------------------------------------
  // Last character

  /** `RPRemoveIfLastChar`. */
  function RemoveIfLastChar(s: string, c: char): (r: string)
    ensures |s| > 0 && s[|s| - 1] == c ==> r + [c] == s
    ensures |s| == 0 || s[|s| - 1] != c ==> r == s
  {
    if |s| == 0 then []
    else if s[|s| - 1] == c then s[..|s| - 1]
    else s
  }

  /** `RPLastChar`: 0 for an empty string. */
  function LastChar(s: string): (c: char)
    ensures |s| > 0 ==> c == s[|s| - 1]
    ensures |s| == 0 ==> c == NUL
  {
    if |s| == 0 then NUL else s[|s| - 1]
  }

  //------------------------------------------------------------------
  // Collapsing runs

  /** The loop of `RPReduceConsecutiveChars(srce)`: a character equal to the
      last one kept (initially 0) is erased. */
  function Collapse(s: string, current: char): (r: string)
    ensures |r| > 0 ==> r[0] != current
    ensures forall i :: 0 <= i < |r| - 1 ==> r[i] != r[i + 1]
    ensures forall x :: x in r ==> x in s
    ensures forall x :: x in s && x != current ==> x in r
  {
    if |s| == 0 then []
    else if s[0] != current then
      var rest := Collapse(s[1..], s[0]);
      assert forall x :: x in s[1..] ==> x in s;
      [s[0]] + rest
    else
      assert forall x :: x in s && x != current ==> x in s[1..];
      Collapse(s[1..], current)
  }

  /** `RPReduceConsecutiveChars(srce)`: no two adjacent characters of the
      result are equal; leading 0 characters are dropped. */
  function ReduceConsecutive(s: string): (r: string)
    ensures |r| > 0 ==> r[0] != NUL
    ensures forall i :: 0 <= i < |r| - 1 ==> r[i] != r[i + 1]
    ensures forall x :: x in r ==> x in s
    ensures forall x :: x in s && x != NUL ==> x in r
  {
    if |s| == 0 then [] else Collapse(s, NUL)
  }

  /** A string with no equal neighbours and no leading 0 is unchanged. */
  lemma {:induction false} CollapseFixed(s: string, current: char)
    requires |s| > 0 ==> s[0] != current
    requires forall i :: 0 <= i < |s| - 1 ==> s[i] != s[i + 1]
    ensures Collapse(s, current) == s
    decreases |s|
  {
    if |s| > 0 {
      CollapseFixed(s[1..], s[0]);
      assert s == [s[0]] + s[1..];
    }
  }

  /** Reducing twice is reducing once. */
  lemma ReduceIdempotent(s: string)
    ensures ReduceConsecutive(ReduceConsecutive(s)) == ReduceConsecutive(s)
  {
    if |s| > 0 {
      CollapseFixed(Collapse(s, NUL), NUL);
    }
  }

  /** The loop of `RPReduceConsecutiveChars(srce, C)`: a `C` right after a
      kept `C` is erased; every other character is kept and becomes the
      current one. */
  function CollapseChar(s: string, c: char, current: char): (r: string)
    ensures |r| > 0 && r[0] == c ==> current != c
    ensures forall i :: 0 <= i < |r| - 1 && r[i] == c ==> r[i + 1] != c
  {
    if |s| == 0 then []
    else if s[0] == current && s[0] == c then CollapseChar(s[1..], c, current)
    else [s[0]] + CollapseChar(s[1..], c, s[0])
  }

  /** Collapsing keeps every character other than `c`, in order. */
  lemma {:induction false} CollapseCharKeeps(s: string, c: char, current: char)
    ensures Keep(CollapseChar(s, c, current), {c}, false) == Keep(s, {c}, false)
    decreases |s|
  {
    if |s| > 0 {
      if s[0] == current && s[0] == c {
        CollapseCharKeeps(s[1..], c, current);
      } else {
        CollapseCharKeeps(s[1..], c, s[0]);
        var rest := CollapseChar(s[1..], c, s[0]);
        assert ([s[0]] + rest)[1..] == rest;
      }
    }
  }

  /** `RPReduceConsecutiveChars(srce, C)`: runs of `C` become a single `C`
      and every other character stays, in order. */
  function ReduceConsecutiveChar(s: string, c: char): (r: string)
    ensures forall i :: 0 <= i < |r| - 1 && r[i] == c ==> r[i + 1] != c
    ensures Keep(r, {c}, false) == Keep(s, {c}, false)
    ensures |r| > 0 && r[0] == c ==> c != NUL
  {
    if |s| == 0 then []
    else
      CollapseCharKeeps(s, c, NUL);
      CollapseChar(s, c, NUL)
  }

  /** `k` copies of `x`. */
  function Repeat(x: char, k: nat): (r: string)
    ensures |r| == k && forall i :: 0 <= i < k ==> r[i] == x
  {
    if k == 0 then [] else [x] + Repeat(x, k - 1)
  }

  /** Run-length expansion, the inverse of collapsing: the `k`-th character
      of `r` repeated `n[k]` times. */
  function Expand(r: string, n: seq<nat>): string
    requires |n| == |r|
  {
    if |r| == 0 then [] else Repeat(r[0], n[0]) + Expand(r[1..], n[1..])
  }

  /** Every run has at least one character. */
  predicate Positive(n: seq<nat>) {
    forall k :: 0 <= k < |n| ==> n[k] >= 1
  }

  /** A character in front of a run of `c` (empty, or with that character
      equal to `c`) extends the run into the first one of the expansion. */
  lemma ExpandCons(x: char, c: char, lead: nat, r: string, n: seq<nat>)
    requires |n| == |r| && (lead > 0 ==> x == c)
    ensures [x] + Repeat(c, lead) + Expand(r, n) == Expand([x] + r, [lead + 1] + n)
  {
    assert ([x] + r)[1..] == r && ([lead + 1] + n)[1..] == n;
    assert Repeat(x, lead) == Repeat(c, lead);
    assert Repeat(x, lead + 1) == [x] + Repeat(x, lead);
  }

  /** Collapsing keeps one character of each run, in place: `s` is a run of
      `current` that is dropped, then each character of the result repeated
      `n[k] >= 1` times. */
  lemma {:induction false} CollapseRuns(s: string, current: char) returns (lead: nat, n: seq<nat>)
    ensures |n| == |Collapse(s, current)| && Positive(n)
    ensures s == Repeat(current, lead) + Expand(Collapse(s, current), n)
    decreases |s|
  {
    if |s| == 0 {
      lead, n := 0, [];
    } else if s[0] != current {
      var lead1, n1 := CollapseRuns(s[1..], s[0]);
      var rest := Collapse(s[1..], s[0]);
      assert Collapse(s, current) == [s[0]] + rest;
      lead, n := 0, [lead1 + 1] + n1;
      ExpandCons(s[0], s[0], lead1, rest, n1);
      assert s == [s[0]] + s[1..];
    } else {
      var lead1, n1 := CollapseRuns(s[1..], current);
      assert Collapse(s, current) == Collapse(s[1..], current);
      lead, n := lead1 + 1, n1;
      assert s == [s[0]] + s[1..];
    }
  }

  /** `RPReduceConsecutiveChars(srce)` turns each run of equal characters
      into one copy in place, dropping leading 0 characters. */
  lemma ReduceRuns(s: string) returns (lead: nat, n: seq<nat>)
    ensures |n| == |ReduceConsecutive(s)| && Positive(n)
    ensures s == Repeat(NUL, lead) + Expand(ReduceConsecutive(s), n)
  {
    if |s| == 0 {
      lead, n := 0, [];
    } else {
      lead, n := CollapseRuns(s, NUL);
    }
  }

  /** Collapsing runs of `c`: `s` is a run of `c`, dropped only when
      `current == c`, then each character of the result repeated `n[k]`
      times, where only a `c` may stand for more than one. */
  lemma {:induction false} CollapseCharRuns(s: string, c: char, current: char) returns (lead: nat, n: seq<nat>)
    ensures |n| == |CollapseChar(s, c, current)| && Positive(n)
    ensures forall k :: 0 <= k < |n| && CollapseChar(s, c, current)[k] != c ==> n[k] == 1
    ensures lead > 0 ==> current == c
    ensures s == Repeat(c, lead) + Expand(CollapseChar(s, c, current), n)
    decreases |s|
  {
    if |s| == 0 {
      lead, n := 0, [];
    } else if s[0] == current && s[0] == c {
      var lead1, n1 := CollapseCharRuns(s[1..], c, current);
      assert CollapseChar(s, c, current) == CollapseChar(s[1..], c, current);
      lead, n := lead1 + 1, n1;
      assert s == [s[0]] + s[1..];
    } else {
      var lead1, n1 := CollapseCharRuns(s[1..], c, s[0]);
      var rest := CollapseChar(s[1..], c, s[0]);
      assert CollapseChar(s, c, current) == [s[0]] + rest;
      lead, n := 0, [lead1 + 1] + n1;
      ExpandCons(s[0], c, lead1, rest, n1);
      assert s == [s[0]] + s[1..];
      var r := [s[0]] + rest;
      forall k | 0 <= k < |n| && r[k] != c ensures n[k] == 1 {
        if k > 0 {
          assert r[k] == rest[k - 1] && n[k] == n1[k - 1];
        }
      }
    }
  }

  /** `RPReduceConsecutiveChars(srce, C)` turns each run of `C` into one `C`
      in place and keeps every other character; a leading run is dropped
      only when `C` is 0. */
  lemma ReduceCharRuns(s: string, c: char) returns (lead: nat, n: seq<nat>)
    ensures |n| == |ReduceConsecutiveChar(s, c)| && Positive(n)
    ensures forall k :: 0 <= k < |n| && ReduceConsecutiveChar(s, c)[k] != c ==> n[k] == 1
    ensures lead > 0 ==> c == NUL
    ensures s == Repeat(c, lead) + Expand(ReduceConsecutiveChar(s, c), n)
  {
    if |s| == 0 {
      lead, n := 0, [];
    } else {
      lead, n := CollapseCharRuns(s, c, NUL);
    }
  }

  /** No two neighbouring characters are equal. */
  predicate NoRepeats(r: string) {
    forall i :: 0 <= i < |r| - 1 ==> r[i] != r[i + 1]
  }

  /** Length of the run of `x` that `w` starts with. */
  function RunLength(w: string, x: char): nat
    decreases |w|
  {
    if |w| == 0 || w[0] != x then 0 else 1 + RunLength(w[1..], x)
  }

  /** A run of `l` copies of `x` before a text not starting with `x` is a
      run of length `l`. */
  lemma {:induction false} LeadRun(x: char, l: nat, e: string)
    requires |e| > 0 ==> e[0] != x
    ensures RunLength(Repeat(x, l) + e, x) == l
    decreases l
  {
    var w := Repeat(x, l) + e;
    if l == 0 {
      assert w == e;
    } else {
      assert w[0] == x;
      assert w[1..] == Repeat(x, l - 1) + e;
      LeadRun(x, l - 1, e);
    }
  }

  /** The expansion is empty exactly for no runs; otherwise it is the first
      character, the rest of its run, then the later runs. */
  lemma ExpandHead(r: string, n: seq<nat>)
    requires |n| == |r| && Positive(n)
    ensures |r| == 0 ==> Expand(r, n) == []
    ensures |r| > 0 ==> Expand(r, n) == [r[0]] + (Repeat(r[0], n[0] - 1) + Expand(r[1..], n[1..]))
  {
    if |r| > 0 {
      assert Repeat(r[0], n[0]) == [r[0]] + Repeat(r[0], n[0] - 1);
    }
  }

  /** The run decomposition of `ReduceRuns` is unique: a run of `x`, then
      runs of characters that differ from their neighbours and (the first)
      from `x`, fix the lead, the characters and the counts. */
  lemma {:induction false} ExpandUnique(x: char, l1: nat, r1: string, n1: seq<nat>, l2: nat, r2: string, n2: seq<nat>)
    requires |n1| == |r1| && Positive(n1) && NoRepeats(r1) && (|r1| > 0 ==> r1[0] != x)
    requires |n2| == |r2| && Positive(n2) && NoRepeats(r2) && (|r2| > 0 ==> r2[0] != x)
    requires Repeat(x, l1) + Expand(r1, n1) == Repeat(x, l2) + Expand(r2, n2)
    ensures l1 == l2 && r1 == r2 && n1 == n2
    decreases |r1|
  {
    LeadsAgree(x, l1, r1, n1, l2, r2, n2);
    if |r1| > 0 {
      var y := r1[0];
      HeadsAgree(r1, n1, r2, n2);
      ExpandUnique(y, n1[0] - 1, r1[1..], n1[1..], n2[0] - 1, r2[1..], n2[1..]);
      HeadTail(r1, r2);
      HeadTail(n1, n2);
    }
  }

  /** The leading runs of `x` have the same length, and what follows them is
      the same; no runs on one side means none on the other. */
  lemma LeadsAgree(x: char, l1: nat, r1: string, n1: seq<nat>, l2: nat, r2: string, n2: seq<nat>)
    requires |n1| == |r1| && Positive(n1) && (|r1| > 0 ==> r1[0] != x)
    requires |n2| == |r2| && Positive(n2) && (|r2| > 0 ==> r2[0] != x)
    requires Repeat(x, l1) + Expand(r1, n1) == Repeat(x, l2) + Expand(r2, n2)
    ensures l1 == l2 && Expand(r1, n1) == Expand(r2, n2)
    ensures |r1| == 0 <==> |r2| == 0
  {
    var e1, e2 := Expand(r1, n1), Expand(r2, n2);
    var w := Repeat(x, l1) + e1;
    ExpandHead(r1, n1);
    ExpandHead(r2, n2);
    LeadRun(x, l1, e1);
    LeadRun(x, l2, e2);
    assert e1 == w[l1..] == e2;
  }

  /** Equal non-empty expansions start with the same character, and agree
      after dropping it. */
  lemma HeadsAgree(r1: string, n1: seq<nat>, r2: string, n2: seq<nat>)
    requires |n1| == |r1| && Positive(n1) && |r1| > 0
    requires |n2| == |r2| && Positive(n2) && |r2| > 0
    requires Expand(r1, n1) == Expand(r2, n2)
    ensures r1[0] == r2[0]
    ensures Repeat(r1[0], n1[0] - 1) + Expand(r1[1..], n1[1..]) == Repeat(r2[0], n2[0] - 1) + Expand(r2[1..], n2[1..])
  {
    ExpandHead(r1, n1);
    ExpandHead(r2, n2);
    var e := Expand(r1, n1);
    assert e[1..] == Repeat(r1[0], n1[0] - 1) + Expand(r1[1..], n1[1..]);
  }

  /** `ReduceConsecutive(s)` is the only string without equal neighbours or
      a leading 0 that keeps one character of each run of `s` in place. */
  lemma ReduceDetermined(s: string, r: string, lead: nat, n: seq<nat>)
    requires |n| == |r| && Positive(n) && NoRepeats(r) && (|r| > 0 ==> r[0] != NUL)
    requires s == Repeat(NUL, lead) + Expand(r, n)
    ensures r == ReduceConsecutive(s)
  {
    var lead2, n2 := ReduceRuns(s);
    ExpandUnique(NUL, lead, r, n, lead2, ReduceConsecutive(s), n2);
  }

  /** Runs for collapsing one character `c`: every other character stands
      for itself, no two `c` are neighbours, and a leading run of `c` is
      dropped only when `drop` holds, in which case all of it is. */
  predicate CharRuns(c: char, drop: bool, l: nat, r: string, n: seq<nat>) {
    && |n| == |r| && Positive(n)
    && (forall k :: 0 <= k < |r| && r[k] != c ==> n[k] == 1)
    && (forall i :: 0 <= i < |r| - 1 && r[i] == c ==> r[i + 1] != c)
    && (l > 0 ==> drop)
    && (|r| > 0 && r[0] == c ==> !drop)
  }

  /** The decomposition of `ReduceCharRuns` is unique. */
  lemma {:induction false} ExpandCharUnique(c: char, drop: bool, l1: nat, r1: string, n1: seq<nat>,
                                            l2: nat, r2: string, n2: seq<nat>)
    requires CharRuns(c, drop, l1, r1, n1) && CharRuns(c, drop, l2, r2, n2)
    requires Repeat(c, l1) + Expand(r1, n1) == Repeat(c, l2) + Expand(r2, n2)
    ensures l1 == l2 && r1 == r2 && n1 == n2
    decreases |r1|
  {
    CharLeadsAgree(c, drop, l1, r1, n1, l2, r2, n2);
    if |r1| > 0 {
      var y := r1[0];
      CharHeadsAgree(c, drop, l1, r1, n1, l2, r2, n2);
      ExpandCharUnique(c, y == c, n1[0] - 1, r1[1..], n1[1..], n2[0] - 1, r2[1..], n2[1..]);
      HeadTail(r1, r2);
      HeadTail(n1, n2);
    }
  }

  /** The leading runs agree, and so does what follows them. */
  lemma CharLeadsAgree(c: char, drop: bool, l1: nat, r1: string, n1: seq<nat>,
                       l2: nat, r2: string, n2: seq<nat>)
    requires CharRuns(c, drop, l1, r1, n1) && CharRuns(c, drop, l2, r2, n2)
    requires Repeat(c, l1) + Expand(r1, n1) == Repeat(c, l2) + Expand(r2, n2)
    ensures l1 == l2 && Expand(r1, n1) == Expand(r2, n2)
    ensures |r1| == 0 <==> |r2| == 0
  {
    if drop {
      LeadsAgree(c, l1, r1, n1, l2, r2, n2);
    } else {
      assert Repeat(c, l1) + Expand(r1, n1) == Expand(r1, n1);
      assert Repeat(c, l2) + Expand(r2, n2) == Expand(r2, n2);
      ExpandHead(r1, n1);
      ExpandHead(r2, n2);
    }
  }

  /** Equal non-empty expansions share their first run's character, and
      the rest are again runs for `c`, with a leading run of `c` exactly
      when that character is `c`. */
  lemma CharHeadsAgree(c: char, drop: bool, l1: nat, r1: string, n1: seq<nat>,
                       l2: nat, r2: string, n2: seq<nat>)
    requires CharRuns(c, drop, l1, r1, n1) && CharRuns(c, drop, l2, r2, n2)
    requires |r1| > 0 && |r2| > 0 && Expand(r1, n1) == Expand(r2, n2)
    ensures r1[0] == r2[0]
    ensures CharRuns(c, r1[0] == c, n1[0] - 1, r1[1..], n1[1..])
    ensures CharRuns(c, r1[0] == c, n2[0] - 1, r2[1..], n2[1..])
    ensures Repeat(c, n1[0] - 1) + Expand(r1[1..], n1[1..]) == Repeat(c, n2[0] - 1) + Expand(r2[1..], n2[1..])
  {
    HeadsAgree(r1, n1, r2, n2);
    assert Repeat(r1[0], 0) == Repeat(c, 0);
  }

  /** `ReduceConsecutiveChar(s, c)` is the only string that turns each run
      of `c` in `s` into one `c` in place, keeps every other character, and
      drops a leading run exactly when `c` is 0. */
  lemma ReduceCharDetermined(s: string, c: char, r: string, lead: nat, n: seq<nat>)
    requires CharRuns(c, c == NUL, lead, r, n)
    requires s == Repeat(c, lead) + Expand(r, n)
    ensures r == ReduceConsecutiveChar(s, c)
  {
    var lead2, n2 := ReduceCharRuns(s, c);
    ExpandCharUnique(c, c == NUL, lead, r, n, lead2, ReduceConsecutiveChar(s, c), n2);
  }

  /** The worked examples of the header. */
  lemma ReduceExample()
    ensures ReduceConsecutive("ABCCCDDE") == "ABCDE"
  {
    assert Collapse("", 'E') == "";
    assert Collapse("E", 'D') == "E";
    assert Collapse("DE", 'D') == "E";
    assert Collapse("DDE", 'C') == "DE";
    assert Collapse("CDDE", 'C') == "DE";
    assert Collapse("CCDDE", 'C') == "DE";
    assert Collapse("CCCDDE", 'B') == "CDE";
    assert Collapse("BCCCDDE", 'A') == "BCDE";
    assert Collapse("ABCCCDDE", NUL) == "ABCDE";
  }

  lemma ReduceCharExample(s: string)
    requires s == "A111BCD11E"
    ensures ReduceConsecutiveChar(s, '1') == "A1BCD1E"
  {
    CollapseCharTailExample();
    assert CollapseChar("1BCD11E", '1', '1') == "BCD1E";
    assert CollapseChar("11BCD11E", '1', '1') == "BCD1E";
    assert CollapseChar("111BCD11E", '1', 'A') == "1BCD1E";
    assert s[0] == 'A' && s[1..] == "111BCD11E";
    var r := "A1BCD1E";
    assert r == [r[0]] + r[1..] && r[0] == 'A' && r[1..] == "1BCD1E";
    CollapseCharKept(s, '1', NUL, r[1..]);
  }

  /** The second half of `ReduceCharExample`: after a `1`, the run "11"
      near the end still collapses to one. */
  lemma CollapseCharTailExample()
    ensures CollapseChar("BCD11E", '1', '1') == "BCD1E"
  {
    assert CollapseChar("", '1', 'E') == "";
    assert CollapseChar("E", '1', '1') == "E";
    assert CollapseChar("1E", '1', '1') == "E";
    assert CollapseChar("11E", '1', 'D') == "1E";
    assert CollapseChar("D11E", '1', 'C') == "D1E";
    assert CollapseChar("CD11E", '1', 'B') == "CD1E";
  }

  /** A character that is not a repeated `c` is kept in front of the rest. */
  lemma CollapseCharKept(s: string, c: char, current: char, rest: string)
    requires |s| > 0 && !(s[0] == current && s[0] == c)
    requires CollapseChar(s[1..], c, s[0]) == rest
    ensures CollapseChar(s, c, current) == [s[0]] + rest
  {
  }

  //------------------------------------------------------------------
  // Case-insensitive equality

  /** `tolower` in the "C" locale: only 'A'..'Z' change. */
  function Lower(c: char): (r: char)
    ensures 'A' <= c <= 'Z' ==> 'a' <= r <= 'z' && r as int - c as int == 32
    ensures !('A' <= c <= 'Z') ==> r == c
    ensures !('A' <= r <= 'Z')
  {
    if 'A' <= c <= 'Z' then (c as int + 32) as char else c
  }

  /** `RPStringLowercase`. */
  function Lowercase(s: string): (r: string)
    ensures |r| == |s| && forall i :: 0 <= i < |s| ==> r[i] == Lower(s[i])
  {
    if |s| == 0 then [] else Lowercase(s[..|s| - 1]) + [Lower(s[|s| - 1])]
  }

  /** `RPStringEqualCaseInsen`: equal after lowering both sides. */
  predicate EqualCaseInsen(s: string, r: string) {
    Lowercase(s) == Lowercase(r)
  }

  /** Case-insensitive equality is character-by-character equality of the
      lowered characters, and it extends plain equality. */
  lemma EqualCaseInsenPointwise(s: string, r: string)
    ensures EqualCaseInsen(s, r) <==>
      |s| == |r| && forall i :: 0 <= i < |s| ==> Lower(s[i]) == Lower(r[i])
    ensures s == r ==> EqualCaseInsen(s, r)
  {
    if |s| == |r| && forall i :: 0 <= i < |s| ==> Lower(s[i]) == Lower(r[i]) {
      assert forall i :: 0 <= i < |s| ==> Lowercase(s)[i] == Lowercase(r)[i];
    }
  }

  /** Letters match in either case; '[' and '{', which differ by the same
      32 as 'A' and 'a', do not. */
  lemma EqualCaseInsenExample(a: string, b: string, c: string, d: string)
    requires a == "Read.ME" && b == "rEAD.me" && c == "[" && d == "{"
    ensures EqualCaseInsen(a, b)
    ensures !EqualCaseInsen(c, d)
  {
    assert Lower(a[0]) == Lower(b[0]) && Lower(a[1]) == Lower(b[1]) && Lower(a[2]) == Lower(b[2]);
    assert Lower(a[3]) == Lower(b[3]) && Lower(a[4]) == Lower(b[4]);
    assert Lower(a[5]) == Lower(b[5]) && Lower(a[6]) == Lower(b[6]);
    EqualCaseInsenPointwise(a, b);
    EqualCaseInsenPointwise(c, d);
  }
}
