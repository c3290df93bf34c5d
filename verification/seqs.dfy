/** Generic sequence helpers used by the string, path and text-line layers:
    substring occurrence, forward search and joining with a separator. */
module Seqs {
  import opened Wrappers

  /** `t` occurs in `s` starting at index `j`. */
  predicate OccursAt<T(==)>(s: seq<T>, t: seq<T>, j: int) {
    0 <= j && j + |t| <= |s| && s[j..j + |t|] == t
  }

  /** `t` occurs nowhere in `s`. */
  predicate Free<T(==)>(s: seq<T>, t: seq<T>) {
    forall j :: 0 <= j <= |s| ==> !OccursAt(s, t, j)
  }

  /** Leftmost occurrence of `t` in `s` at or after `from` (std::string::find). */
  function Find<T(==)>(s: seq<T>, t: seq<T>, from: nat): (r: Option<nat>)
    ensures r.Some? ==> from <= r.value && OccursAt(s, t, r.value)
    ensures r.Some? ==> forall k :: from <= k < r.value ==> !OccursAt(s, t, k)
    ensures r.None? ==> forall k :: from <= k ==> !OccursAt(s, t, k)
    decreases |s| - from
  {
    if from + |t| > |s| then None
    else if s[from..from + |t|] == t then Some(from)
    else Find(s, t, from + 1)
  }

  /** The pieces of `parts` with `sep` between consecutive pieces. */
  function Join<T>(parts: seq<seq<T>>, sep: seq<T>): seq<T>
  {
    if |parts| == 0 then []
    else if |parts| == 1 then parts[0]
    else parts[0] + sep + Join(parts[1..], sep)
  }

  lemma {:induction false} JoinSnoc<T>(parts: seq<seq<T>>, last: seq<T>, sep: seq<T>)
    requires |parts| > 0
    ensures Join(parts + [last], sep) == Join(parts, sep) + sep + last
  {
    if |parts| == 1 {
      assert parts + [last] == [parts[0], last];
      assert (parts + [last])[1..] == [last];
    } else {
      assert (parts + [last])[1..] == parts[1..] + [last];
      JoinSnoc(parts[1..], last, sep);
    }
  }

  /** Adding `x` in front of the first piece adds it in front of the joined text. */
  lemma JoinPrepend<T>(x: seq<T>, parts: seq<seq<T>>, sep: seq<T>)
    requires |parts| > 0
    ensures Join([x + parts[0]] + parts[1..], sep) == x + Join(parts, sep)
  {
    var q := [x + parts[0]] + parts[1..];
    assert q[1..] == parts[1..];
  }

  /** A sequence free of the one-element sequence `[x]` does not hold `x`. */
  lemma FreeOfOne<T>(s: seq<T>, x: T)
    requires Free(s, [x])
    ensures x !in s
  {
    if x in s {
      var j :| 0 <= j < |s| && s[j] == x;
      assert OccursAt(s, [x], j);
    }
  }

  /** A one-element pattern occurs exactly where that element stands. */
  lemma OccursOne<T>(s: seq<T>, x: T, j: int)
    ensures OccursAt(s, [x], j) <==> 0 <= j < |s| && s[j] == x
  {
    if 0 <= j < |s| {
      assert s[j..j + 1] == [s[j]];
    }
  }

  /** The leftmost occurrence of a one-element pattern is the first index
      holding that element. */
  lemma FindOne<T>(s: seq<T>, x: T, pos: nat)
    requires Find(s, [x], 0) == Some(pos)
    ensures pos < |s| && s[pos] == x && x !in s[..pos]
  {
    OccursOne(s, x, pos);
    forall k | 0 <= k < pos ensures s[k] != x {
      OccursOne(s, x, k);
    }
  }

  /** A one-element pattern that is never found is absent. */
  lemma FindOneNone<T>(s: seq<T>, x: T)
    requires Find(s, [x], 0).None?
    ensures x !in s
  {
    forall k | 0 <= k < |s| ensures s[k] != x {
      OccursOne(s, x, k);
    }
  }

  /** Sequences agreeing on the head and on the tail are equal. */
  lemma HeadTail<T>(a: seq<T>, b: seq<T>)
    requires |a| > 0 && |b| > 0 && a[0] == b[0] && a[1..] == b[1..]
    ensures a == b
  {
    assert a == [a[0]] + a[1..] && b == [b[0]] + b[1..];
  }

  /** `s` around the element at `i`. */
  lemma SplitAround<T>(s: seq<T>, i: nat)
    requires i < |s|
    ensures s == s[..i] + [s[i]] + s[i + 1..]
  {
  }

  /** An empty first piece puts the separator in front of the joined rest. */
  lemma JoinEmptyHead<T>(parts: seq<seq<T>>, sep: seq<T>)
    requires |parts| > 0
    ensures Join([[]] + parts, sep) == sep + Join(parts, sep)
  {
    assert ([[]] + parts)[1..] == parts;
  }

  /** A suffix is the slice up to `j` followed by the suffix from `j`. */
  lemma SliceSplit<T>(s: seq<T>, i: nat, j: nat)
    requires i <= j <= |s|
    ensures s[i..] == s[i..j] + s[j..]
  {
  }

  /** The first piece is a prefix of the joined text. */
  lemma JoinHead<T>(parts: seq<seq<T>>, sep: seq<T>)
    requires |parts| > 0
    ensures |parts[0]| <= |Join(parts, sep)|
    ensures Join(parts, sep)[..|parts[0]|] == parts[0]
  {
  }

  /** `s` ends with `t`. */
  predicate EndsWith<T(==)>(s: seq<T>, t: seq<T>) {
    |t| <= |s| && s[|s| - |t|..] == t
  }

  /** Index of the last element of `s` equal to `c` (std::string::find_last_of). */
  function FindLast<T(==)>(s: seq<T>, c: T): (r: Option<nat>)
    ensures r.Some? ==> r.value < |s| && s[r.value] == c
    ensures r.Some? ==> forall k :: r.value < k < |s| ==> s[k] != c
    ensures r.None? ==> c !in s
  {
    if |s| == 0 then None
    else if s[|s| - 1] == c then Some(|s| - 1)
    else FindLast(s[..|s| - 1], c)
  }
}
