/** The set/vector/map conversion templates. Standard sets and maps iterate
    in key order, so the templates are instantiated at string keys, whose
    order is `StringOrder.Less`; `ArrayToSet` and `ArraysToMap` need no order
    and stay generic. */
module Converters {
  import opened Wrappers
  import StringOrder

  /** `VectorSizeMismatchEx`. */
  datatype ConvertError = VectorSizeMismatch

  /** `ArrayToSet`: every element inserted in turn. */
  function ArrayToSet<T(!new)>(v: seq<T>): (s: set<T>)
    ensures forall x :: x in s <==> x in v
    ensures |s| <= |v|
  {
    if |v| == 0 then {}
    else
      var init := ArrayToSet(v[..|v| - 1]);
      assert forall x :: x in v <==> x in v[..|v| - 1] || x == v[|v| - 1] by {
        assert v == v[..|v| - 1] + [v[|v| - 1]];
      }
      init + {v[|v| - 1]}
  }

  /** `SetToArray`: the elements in the set's (ascending) order. */
  method SetToArray(s: set<string>) returns (v: seq<string>)
    ensures StringOrder.Sorted(v)
    ensures |v| == |s|
    ensures forall x :: x in v <==> x in s
  {
    v := [];
    var rest := s;
    while rest != {}
      invariant StringOrder.Sorted(v)
      invariant rest <= s
      invariant forall x :: x in v <==> x in s && x !in rest
      invariant |v| + |rest| == |s|
      decreases |rest|
    {
      var x :| x in rest;
      v := StringOrder.Insert(v, x);
      rest := rest - {x};
    }
  }

  /** `ArrayToSet` undoes `SetToArray`. */
  lemma SetArrayRoundTrip(s: set<string>, v: seq<string>)
    requires forall x :: x in v <==> x in s
    ensures ArrayToSet(v) == s
  {
  }

  /** No key after position `i` (and before `n`) repeats `keys[i]`. */
  predicate LastAt<T(==)>(keys: seq<T>, i: nat, n: nat)
    requires i < n <= |keys|
  {
    forall j :: i < j < n ==> keys[j] != keys[i]
  }

  /** The loop of `ArraysToMap` over the first `n` pairs. */
  function Assign<T(!new), U>(keys: seq<T>, vals: seq<U>, n: nat): (m: map<T, U>)
    requires |keys| == |vals| && n <= |keys|
    ensures forall k :: k in m <==> k in keys[..n]
  {
    if n == 0 then map[]
    else
      assert keys[..n] == keys[..n - 1] + [keys[n - 1]];
      Assign(keys, vals, n - 1)[keys[n - 1] := vals[n - 1]]
  }

  /** Each assignment overwrites an earlier one with the same key, so a key
      holds the value paired with its last occurrence. */
  lemma {:induction false} AssignLastWins<T(!new), U>(keys: seq<T>, vals: seq<U>, n: nat, i: nat)
    requires |keys| == |vals| && i < n <= |keys| && LastAt(keys, i, n)
    ensures keys[i] in Assign(keys, vals, n) && Assign(keys, vals, n)[keys[i]] == vals[i]
  {
    if i < n - 1 {
      assert keys[n - 1] != keys[i];
      assert LastAt(keys, i, n - 1);
      AssignLastWins(keys, vals, n - 1, i);
    }
  }

  /** `ArraysToMap`: `VectorSizeMismatchEx` for arrays of different
      lengths; otherwise the last value given for a key wins. */
  function ArraysToMap<T(!new), U>(keys: seq<T>, vals: seq<U>): (r: Result<map<T, U>, ConvertError>)
    ensures r.Err? <==> |keys| != |vals|
    ensures r.Ok? ==> forall k :: k in r.value <==> k in keys
    ensures r.Ok? ==> forall i :: 0 <= i < |keys| && LastAt(keys, i, |keys|) ==>
      keys[i] in r.value && r.value[keys[i]] == vals[i]
  {
    if |keys| != |vals| then Err(VectorSizeMismatch)
    else if |keys| == 0 then Ok(map[])
    else
      var m := Assign(keys, vals, |keys|);
      assert keys[..|keys|] == keys;
      assert forall i :: 0 <= i < |keys| && LastAt(keys, i, |keys|) ==> keys[i] in m && m[keys[i]] == vals[i] by {
        forall i | 0 <= i < |keys| && LastAt(keys, i, |keys|) ensures keys[i] in m && m[keys[i]] == vals[i] {
          AssignLastWins(keys, vals, |keys|, i);
        }
      }
      Ok(m)
  }

  /** With distinct keys, the map built from the arrays is the map they
      were read from. */
  lemma ArraysToMapOfPairs<U>(m: map<string, U>, keys: seq<string>, vals: seq<U>)
    requires StringOrder.Sorted(keys) && |keys| == |vals|
    requires forall k :: k in m <==> k in keys
    requires forall i :: 0 <= i < |keys| ==> keys[i] in m && vals[i] == m[keys[i]]
    ensures ArraysToMap(keys, vals) == Ok(m)
  {
    var r := ArraysToMap(keys, vals).value;
    forall k | k in m ensures k in r && r[k] == m[k] {
      var i :| 0 <= i < |keys| && keys[i] == k;
      forall j | i < j < |keys| ensures keys[j] != keys[i] {
        StringOrder.SortedDistinct(keys, i, j);
      }
      assert LastAt(keys, i, |keys|);
    }
    assert forall k :: k in r ==> k in m;
    assert r == m;
  }

  /** `MapToArrays`: keys in ascending order and the values beside them. */
  method MapToArrays<U>(m: map<string, U>) returns (keys: seq<string>, vals: seq<U>)
    ensures StringOrder.Sorted(keys)
    ensures |keys| == |vals| == |m|
    ensures forall k :: k in m <==> k in keys
    ensures forall i :: 0 <= i < |keys| ==> keys[i] in m && vals[i] == m[keys[i]]
    ensures ArraysToMap(keys, vals) == Ok(m)
  {
    keys := SetToArray(m.Keys);
    assert forall i :: 0 <= i < |keys| ==> keys[i] in m;
    vals := seq(|keys|, i requires 0 <= i < |keys| => m[keys[i]]);
    ArraysToMapOfPairs(m, keys, vals);
  }
}
