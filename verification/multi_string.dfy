/** `MultiString`: a set of strings with `==`/`!=` against a single string
    and a switch between case-sensitive and case-insensitive matching.
    The set is held in its iteration order (a sorted sequence), because
    case-insensitive removal erases the FIRST matching element in that
    order. Case folding is ASCII-only. */
module MultiString {
  import opened Wrappers
  import StringOrder
  import StringStuff
  import Converters

  datatype MultiString = MultiString(strings: seq<string>, caseInsen: bool)

  /** The sequence is a set's iteration order. */
  predicate Valid(m: MultiString) {
    StringOrder.Sorted(m.strings)
  }

  /** `Set()`. */
  function Elements(m: MultiString): set<string> {
    set x | x in m.strings
  }

  //------------------------------------------------------------------
  // Constructors

  /** `MultiString(bool)`. */
  function Empty(caseInsen: bool): (r: MultiString)
    ensures Valid(r) && Elements(r) == {} && r.caseInsen == caseInsen
  {
    MultiString([], caseInsen)
  }

  /** `MultiString(string, bool)`. */
  function Single(s: string, caseInsen: bool): (r: MultiString)
    ensures Valid(r) && Elements(r) == {s} && r.caseInsen == caseInsen
  {
    MultiString([s], caseInsen)
  }

  /** The set of an array's elements in iteration order. */
  function SortedOf(items: seq<string>): (r: seq<string>)
    ensures StringOrder.Sorted(r)
    ensures forall x :: x in r <==> x in items
  {
    if |items| == 0 then []
    else
      assert forall x :: x in items <==> x in items[..|items| - 1] || x == items[|items| - 1] by {
        assert items == items[..|items| - 1] + [items[|items| - 1]];
      }
      StringOrder.Insert(SortedOf(items[..|items| - 1]), items[|items| - 1])
  }

  /** `MultiString(StringArray, bool)`: the set of the array's elements,
      without regard to case even when `caseInsen` is set. */
  function FromArray(items: seq<string>, caseInsen: bool): (r: MultiString)
    ensures Valid(r) && r.caseInsen == caseInsen
    ensures Elements(r) == Converters.ArrayToSet(items)
  {
    MultiString(SortedOf(items), caseInsen)
  }

  /** `MultiString(StringSet, bool)`. */
  method FromSet(s: set<string>, caseInsen: bool) returns (r: MultiString)
    ensures Valid(r) && r.caseInsen == caseInsen && Elements(r) == s
  {
    var v := Converters.SetToArray(s);
    r := MultiString(v, caseInsen);
  }

  /** `SetCaseInsen`: only the flag changes. */
  function SetCaseInsen(m: MultiString, flag: bool): (r: MultiString)
    ensures r.strings == m.strings && r.caseInsen == flag
  {
    m.(caseInsen := flag)
  }

  //------------------------------------------------------------------
  // Lookup

  /** The case-insensitive scan: the first element equal to `s` ignoring
      case. */
  function FirstMatch(strings: seq<string>, s: string): (r: Option<nat>)
    ensures r.Some? ==> r.value < |strings| && StringStuff.EqualCaseInsen(strings[r.value], s)
    ensures r.Some? ==> forall k :: 0 <= k < r.value ==> !StringStuff.EqualCaseInsen(strings[k], s)
    ensures r.None? <==> forall k :: 0 <= k < |strings| ==> !StringStuff.EqualCaseInsen(strings[k], s)
  {
    if |strings| == 0 then None
    else if StringStuff.EqualCaseInsen(strings[0], s) then Some(0)
    else
      var r := FirstMatch(strings[1..], s);
      assert forall k :: 1 <= k < |strings| ==> strings[k] == strings[1..][k - 1];
      if r.None? then None else Some(r.value + 1)
  }

  /** `Contains` (and `operator==`): exact membership, or with `caseInsen`
      some element equal to `s` once both are lowered. */
  function Contains(m: MultiString, s: string): (r: bool)
    ensures !m.caseInsen ==> (r <==> s in Elements(m))
    ensures m.caseInsen ==>
      (r <==> exists x :: x in Elements(m) && StringStuff.Lowercase(x) == StringStuff.Lowercase(s))
  {
    if !m.caseInsen then s in m.strings
    else
      var i := FirstMatch(m.strings, s);
      assert i.None? ==> forall x :: x in m.strings ==> !StringStuff.EqualCaseInsen(x, s);
      assert i.Some? ==> m.strings[i.value] in Elements(m);
      i.Some?
  }

  /** `operator!=`: no element matches. */
  function NotEquals(m: MultiString, s: string): (r: bool)
    ensures r <==> !Contains(m, s)
  {
    !Contains(m, s)
  }

  /** A case-sensitive match is also a case-insensitive one. */
  lemma SensitiveMatchIsInsensitiveMatch(m: MultiString, s: string)
    requires Contains(m.(caseInsen := false), s)
    ensures Contains(m.(caseInsen := true), s)
  {
    assert s in Elements(m.(caseInsen := true));
  }

  /** More elements never lose a match. */
  lemma ContainsMonotone(m: MultiString, n: MultiString, s: string)
    requires m.caseInsen == n.caseInsen && Elements(m) <= Elements(n)
    requires Contains(m, s)
    ensures Contains(n, s)
  {
    if m.caseInsen {
      var x :| x in Elements(m) && StringStuff.Lowercase(x) == StringStuff.Lowercase(s);
      assert x in Elements(n);
    }
  }

  //------------------------------------------------------------------
  // Adding

  /** `AddString`: inserted only when nothing matches yet. */
  function AddString(m: MultiString, s: string): (r: MultiString)
    requires Valid(m)
    ensures Valid(r) && r.caseInsen == m.caseInsen
    ensures Elements(r) == if Contains(m, s) then Elements(m) else Elements(m) + {s}
    ensures Contains(r, s)
  {
    var r := if NotEquals(m, s) then m.(strings := StringOrder.Insert(m.strings, s)) else m;
    assert s in Elements(r) ==> Contains(r, s);
    r
  }

  /** `AddStrings(StringArray)`: each element added in array order. */
  function AddStrings(m: MultiString, items: seq<string>): (r: MultiString)
    requires Valid(m)
    ensures Valid(r) && r.caseInsen == m.caseInsen
    ensures Elements(m) <= Elements(r) && Elements(r) <= Elements(m) + Converters.ArrayToSet(items)
    ensures forall i :: 0 <= i < |items| ==> Contains(r, items[i])
    ensures m.caseInsen ==> forall x, y ::
      x in Elements(r) - Elements(m) && y in Elements(r) && x != y ==> !StringStuff.EqualCaseInsen(x, y)
  {
    if |items| == 0 then m
    else
      var prev := AddStrings(m, items[..|items| - 1]);
      var r := AddString(prev, items[|items| - 1]);
      assert forall i :: 0 <= i < |items| - 1 ==> Contains(r, items[i]) by {
        forall i | 0 <= i < |items| - 1 ensures Contains(r, items[i]) {
          assert items[..|items| - 1][i] == items[i];
          ContainsMonotone(prev, r, items[i]);
        }
      }
      if m.caseInsen then AddKeepsCaseDistinct(m, prev, items[|items| - 1]); r else r
  }

  /** One more `AddString` keeps every added element apart, ignoring case,
      from every other element. */
  lemma AddKeepsCaseDistinct(m: MultiString, prev: MultiString, s: string)
    requires Valid(prev) && prev.caseInsen
    requires forall x, y ::
      x in Elements(prev) - Elements(m) && y in Elements(prev) && x != y ==> !StringStuff.EqualCaseInsen(x, y)
    ensures var r := AddString(prev, s);
      forall x, y ::
        x in Elements(r) - Elements(m) && y in Elements(r) && x != y ==> !StringStuff.EqualCaseInsen(x, y)
  {
    var r := AddString(prev, s);
    if !Contains(prev, s) {
      assert forall y :: y in Elements(prev) ==> !StringStuff.EqualCaseInsen(y, s);
    }
  }

  /** `AddStrings(StringSet)`: the set's elements added in its order. */
  method AddStringsFromSet(m: MultiString, s: set<string>) returns (r: MultiString)
    requires Valid(m)
    ensures Valid(r) && r.caseInsen == m.caseInsen
    ensures Elements(m) <= Elements(r) && Elements(r) <= Elements(m) + s
    ensures forall x :: x in s ==> Contains(r, x)
    ensures m.caseInsen ==> forall x, y ::
      x in Elements(r) - Elements(m) && y in Elements(r) && x != y ==> !StringStuff.EqualCaseInsen(x, y)
  {
    var v := Converters.SetToArray(s);
    r := AddStrings(m, v);
    forall x | x in s ensures Contains(r, x) {
      var i :| 0 <= i < |v| && v[i] == x;
    }
  }

  //------------------------------------------------------------------
  // Removing

  /** `RemoveString`: case-sensitively `s` itself is erased; ignoring case,
      only the first matching element in iteration order is. */
  function RemoveString(m: MultiString, s: string): (r: MultiString)
    requires Valid(m)
    ensures Valid(r) && r.caseInsen == m.caseInsen
    ensures Elements(r) <= Elements(m) && |r.strings| >= |m.strings| - 1
    ensures !m.caseInsen ==> Elements(r) == Elements(m) - {s}
    ensures m.caseInsen && !Contains(m, s) ==> r == m
    ensures m.caseInsen && Contains(m, s) ==>
      (|r.strings| == |m.strings| - 1 &&
       exists i :: 0 <= i < |m.strings| && StringStuff.EqualCaseInsen(m.strings[i], s) &&
         r.strings == m.strings[..i] + m.strings[i + 1..] &&
         forall k :: 0 <= k < i ==> !StringStuff.EqualCaseInsen(m.strings[k], s))
    ensures m.caseInsen && Contains(m, s) ==>
      exists y :: y in Elements(m) && StringStuff.EqualCaseInsen(y, s) && Elements(r) == Elements(m) - {y}
  {
    if !m.caseInsen then m.(strings := StringOrder.Erase(m.strings, s))
    else match FirstMatch(m.strings, s)
      case None => m
      case Some(i) =>
        StringOrder.SortedRemoveAt(m.strings, i);
        var r := m.(strings := m.strings[..i] + m.strings[i + 1..]);
        assert forall x :: x in r.strings ==> x in m.strings;
        RemoveAtElements(m.strings, i, r.strings);
        r
  }

  /** Dropping one place of a set's order drops exactly that element. */
  lemma RemoveAtElements(s: seq<string>, i: nat, r: seq<string>)
    requires StringOrder.Sorted(s) && i < |s| && r == s[..i] + s[i + 1..]
    ensures (set x | x in r) == (set x | x in s) - {s[i]}
  {
    forall k | 0 <= k < |r| ensures r[k] != s[i] {
      var k' := if k < i then k else k + 1;
      assert r[k] == s[k'];
      StringOrder.SortedDistinct(s, i, k');
    }
    forall x | x in s && x != s[i] ensures x in r {
      var k :| 0 <= k < |s| && s[k] == x;
      if k < i { assert r[k] == x; } else { assert r[k - 1] == x; }
    }
  }

  /** `RemoveStrings(StringArray)`: each element removed in array order. */
  function RemoveStrings(m: MultiString, items: seq<string>): (r: MultiString)
    requires Valid(m)
    ensures Valid(r) && r.caseInsen == m.caseInsen
    ensures Elements(r) <= Elements(m)
    ensures !m.caseInsen ==> Elements(r) == Elements(m) - Converters.ArrayToSet(items)
    ensures m.caseInsen ==> forall x ::
      x in Elements(m) && (forall i :: 0 <= i < |items| ==> !StringStuff.EqualCaseInsen(x, items[i])) ==>
      x in Elements(r)
    ensures m.caseInsen ==> forall i, x ::
      0 <= i < |items| && OnlyMatch(m, x, items[i]) ==> x !in Elements(r)
  {
    if |items| == 0 then m
    else
      var prev := RemoveStrings(m, items[..|items| - 1]);
      var r := RemoveString(prev, items[|items| - 1]);
      assert forall x :: x in items <==> x in items[..|items| - 1] || x == items[|items| - 1] by {
        assert items == items[..|items| - 1] + [items[|items| - 1]];
      }
      if !m.caseInsen then r
      else
        RemoveSteps(m, prev, items[..|items| - 1], items[|items| - 1]);
        assert items == items[..|items| - 1] + [items[|items| - 1]];
        r
  }

  /** `x` is the one element of `m` equal to `s` ignoring case. */
  predicate OnlyMatch(m: MultiString, x: string, s: string) {
    && x in Elements(m) && StringStuff.EqualCaseInsen(x, s)
    && forall y :: y in Elements(m) && StringStuff.EqualCaseInsen(y, s) ==> y == x
  }

  /** One more case-insensitive `RemoveString` keeps the elements that no
      item matches and drops the only match of each item. */
  lemma RemoveSteps(m: MultiString, prev: MultiString, front: seq<string>, s: string)
    requires Valid(prev) && prev.caseInsen && Elements(prev) <= Elements(m)
    requires forall x ::
      x in Elements(m) && (forall i :: 0 <= i < |front| ==> !StringStuff.EqualCaseInsen(x, front[i])) ==>
      x in Elements(prev)
    requires forall i, x :: 0 <= i < |front| && OnlyMatch(m, x, front[i]) ==> x !in Elements(prev)
    ensures var r := RemoveString(prev, s);
      && (forall x ::
            x in Elements(m) && (forall i :: 0 <= i < |front + [s]| ==> !StringStuff.EqualCaseInsen(x, (front + [s])[i])) ==>
            x in Elements(r))
      && (forall i, x :: 0 <= i < |front + [s]| && OnlyMatch(m, x, (front + [s])[i]) ==> x !in Elements(r))
  {
    var r := RemoveString(prev, s);
    var items := front + [s];
    forall x | x in Elements(m) && (forall i :: 0 <= i < |items| ==> !StringStuff.EqualCaseInsen(x, items[i]))
      ensures x in Elements(r)
    {
      assert forall i :: 0 <= i < |front| ==> items[i] == front[i];
      assert items[|front|] == s;
      RemoveKeeps(prev, s, x);
    }
    forall i, x | 0 <= i < |items| && OnlyMatch(m, x, items[i]) ensures x !in Elements(r) {
      if i < |front| {
        assert items[i] == front[i];
      } else {
        assert items[i] == s;
        RemoveDropsOnly(m, prev, s, x);
      }
    }
  }

  /** Ignoring case, an element the removed string does not match stays. */
  lemma RemoveKeeps(prev: MultiString, s: string, x: string)
    requires Valid(prev) && prev.caseInsen && x in Elements(prev) && !StringStuff.EqualCaseInsen(x, s)
    ensures x in Elements(RemoveString(prev, s))
  {
  }

  /** Ignoring case, the only match of the removed string goes. */
  lemma RemoveDropsOnly(m: MultiString, prev: MultiString, s: string, x: string)
    requires Valid(prev) && prev.caseInsen && Elements(prev) <= Elements(m) && OnlyMatch(m, x, s)
    ensures x !in Elements(RemoveString(prev, s))
  {
    if x in Elements(prev) {
      assert Contains(prev, s);
    }
  }

  /** `RemoveStrings(StringSet)`: the set's elements removed in its order. */
  method RemoveStringsFromSet(m: MultiString, s: set<string>) returns (r: MultiString)
    requires Valid(m)
    ensures Valid(r) && r.caseInsen == m.caseInsen
    ensures Elements(r) <= Elements(m)
    ensures !m.caseInsen ==> Elements(r) == Elements(m) - s
    ensures m.caseInsen ==> forall x ::
      x in Elements(m) && (forall z :: z in s ==> !StringStuff.EqualCaseInsen(x, z)) ==> x in Elements(r)
    ensures m.caseInsen ==> forall z, x :: z in s && OnlyMatch(m, x, z) ==> x !in Elements(r)
  {
    var v := Converters.SetToArray(s);
    r := RemoveStrings(m, v);
    forall z, x | z in s && OnlyMatch(m, x, z) && m.caseInsen ensures x !in Elements(r) {
      var i :| 0 <= i < |v| && v[i] == z;
    }
  }

  //------------------------------------------------------------------
  // Properties

  /** Case-sensitively, removing a string that was just added restores the
      original set. */
  lemma AddThenRemove(m: MultiString, s: string)
    requires Valid(m) && !m.caseInsen && !Contains(m, s)
    ensures RemoveString(AddString(m, s), s) == m
  {
    var r := RemoveString(AddString(m, s), s);
    assert forall x :: x in r.strings <==> x in m.strings;
    StringOrder.SortedUnique(r.strings, m.strings);
  }

  /** Building from an array orders the elements: "A" sorts before "a". */
  lemma FromArrayOrders()
    ensures FromArray(["a", "A"], true) == MultiString(["A", "a"], true)
  {
    assert ["a", "A"][..1] == ["a"];
    assert SortedOf(["a"]) == ["a"];
    assert StringOrder.Less("A", "a");
  }

  /** Ignoring case, one removal can leave another spelling behind:
      {"A", "a"} minus "a" still contains "a", because "A" comes first. */
  lemma InsensitiveRemoveLeavesMatch(m: MultiString, s: string)
    requires m == MultiString(["A", "a"], true) && s == "a"
    ensures Valid(m) && Contains(m, s)
    ensures RemoveString(m, s) == MultiString([s], true)
    ensures Contains(RemoveString(m, s), s)
  {
    assert StringOrder.Less(m.strings[0], m.strings[1]);
    assert Valid(m);
    assert StringStuff.Lower(m.strings[0][0]) == s[0];
    StringStuff.EqualCaseInsenPointwise(m.strings[0], s);
    assert FirstMatch(m.strings, s) == Some(0);
    var r := RemoveString(m, s);
    assert r.strings == m.strings[1..] == [s];
    StringStuff.EqualCaseInsenPointwise(s, s);
    assert FirstMatch(r.strings, s) == Some(0);
  }
}
