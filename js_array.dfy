/**
 The three JavaScript array operations that the sections derivation is built
 from: `Array.prototype.indexOf`, `Array.prototype.map` and
 `Array.prototype.filter`, stated over Dafny sequences.

 JavaScript arrays are modelled as immutable values: none of the three
 operations changes the array it is called on.
 */
module JsArray {

  /** `s.indexOf(x)`: the first index at which `x` occurs in `s`, or -1 when
      it does not occur, searching from index 0. Values are compared with the
      equality of `T`, which is `===` for the string literals used here. */
  function IndexOf<T(==)>(s: seq<T>, x: T): (r: int)
    ensures -1 <= r < |s|
    ensures r == -1 <==> x !in s
    ensures 0 <= r ==> s[r] == x
    ensures forall j :: 0 <= j < r ==> s[j] != x
  {
    if |s| == 0 then -1
    else if s[0] == x then 0
    else
      var k := IndexOf(s[1..], x);
      if k == -1 then -1 else k + 1
  }

  /** The index `indexOf` returns for the element at position `i` is that of
      an earlier or the same position, never -1. */
  lemma IndexOfAtPosition<T>(s: seq<T>, i: int)
    requires 0 <= i < |s|
    ensures 0 <= IndexOf(s, s[i]) <= i
    ensures s[IndexOf(s, s[i])] == s[i]
  {
  }

  /** Appending an element does not move the first occurrence of a value that
      is already present; a value that was absent is found at the new last
      position exactly when it is the appended one. */
  lemma IndexOfSnoc<T>(s: seq<T>, x: T, y: T)
    ensures y in s ==> IndexOf(s + [x], y) == IndexOf(s, y)
    ensures y !in s ==> IndexOf(s + [x], y) == (if y == x then |s| else -1)
  {
    var t := s + [x];
    if y in s {
      var k := IndexOf(s, y);
      assert t[k] == y;
      assert forall j :: 0 <= j < k ==> t[j] == s[j];
    } else {
      assert forall j :: 0 <= j < |s| ==> t[j] == s[j];
    }
  }

  /** `s.map(f)`: the elements of `s`, each replaced by its image under `f`,
      in the same order. */
  function Map<T, U>(s: seq<T>, f: T -> U): (r: seq<U>)
    ensures |r| == |s|
    ensures forall i :: 0 <= i < |s| ==> r[i] == f(s[i])
  {
    if |s| == 0 then [] else [f(s[0])] + Map(s[1..], f)
  }

  /** Mapping distributes over appending one element. */
  lemma MapSnoc<T, U>(s: seq<T>, x: T, f: T -> U)
    ensures Map(s + [x], f) == Map(s, f) + [f(x)]
  {
  }

  /** `s.filter(keep)`: JavaScript calls `keep(value, index, array)` once for
      every index in increasing order, passing the whole array as the third
      argument, and keeps the values for which it answers true. */
  function Filter<T>(s: seq<T>, keep: (T, nat, seq<T>) -> bool): (r: seq<T>)
    ensures |r| <= |s|
  {
    FilterFrom(s, keep, 0)
  }

  /** The part of `s.filter(keep)` contributed by indices `i` and above. */
  function FilterFrom<T>(s: seq<T>, keep: (T, nat, seq<T>) -> bool, i: nat): (r: seq<T>)
    requires i <= |s|
    ensures |r| <= |s| - i
    decreases |s| - i
  {
    if i == |s| then []
    else (if keep(s[i], i, s) then [s[i]] else []) + FilterFrom(s, keep, i + 1)
  }

  /** A value is in the filtered array exactly when it stands at some index
      for which the callback answers true. */
  lemma {:induction false} FilterFromMembers<T>(s: seq<T>, keep: (T, nat, seq<T>) -> bool, i: nat, x: T)
    requires i <= |s|
    ensures x in FilterFrom(s, keep, i) <==> exists j :: i <= j < |s| && s[j] == x && keep(s[j], j, s)
    decreases |s| - i
  {
    if i < |s| {
      var rest := FilterFrom(s, keep, i + 1);
      assert FilterFrom(s, keep, i) == (if keep(s[i], i, s) then [s[i]] else []) + rest;
      FilterFromMembers(s, keep, i + 1, x);
      if x in FilterFrom(s, keep, i) && !(s[i] == x && keep(s[i], i, s)) {
        assert x in rest;
      }
      if s[i] == x && keep(s[i], i, s) {
        assert FilterFrom(s, keep, i)[0] == x;
      }
    }
  }

  /** Filtering an array with one more element: when the callback gives the
      same answers at the old indices, the result only gains the new element,
      and only if the callback keeps it. */
  lemma {:induction false} FilterFromSnoc<T>(s: seq<T>, x: T, keep: (T, nat, seq<T>) -> bool, i: nat)
    requires i <= |s|
    requires forall j :: 0 <= j < |s| ==> keep(s[j], j, s + [x]) == keep(s[j], j, s)
    ensures FilterFrom(s + [x], keep, i)
         == if keep(x, |s|, s + [x]) then FilterFrom(s, keep, i) + [x] else FilterFrom(s, keep, i)
    decreases |s| - i
  {
    var t := s + [x];
    var keepX := keep(x, |s|, t);
    if i == |s| {
      assert FilterFrom(t, keep, i) == (if keepX then [x] else []) + FilterFrom(t, keep, i + 1);
      assert FilterFrom(t, keep, i + 1) == [];
    } else {
      FilterFromSnoc(s, x, keep, i + 1);
      var head := if keep(s[i], i, s) then [s[i]] else [];
      var rest := FilterFrom(s, keep, i + 1);
      assert FilterFrom(t, keep, i) == head + FilterFrom(t, keep, i + 1) by {
        assert t[i] == s[i];
        assert keep(t[i], i, t) == keep(s[i], i, s);
      }
      assert FilterFrom(s, keep, i) == head + rest;
      if keepX {
        assert head + (rest + [x]) == (head + rest) + [x];
      }
    }
  }

  lemma FilterSnoc<T>(s: seq<T>, x: T, keep: (T, nat, seq<T>) -> bool)
    requires forall j :: 0 <= j < |s| ==> keep(s[j], j, s + [x]) == keep(s[j], j, s)
    ensures Filter(s + [x], keep)
         == if keep(x, |s|, s + [x]) then Filter(s, keep) + [x] else Filter(s, keep)
  {
    FilterFromSnoc(s, x, keep, 0);
  }
}
