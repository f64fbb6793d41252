/**
 The two JavaScript array operations the device registry relies on:
 `Array.prototype.indexOf`, which compares with `===`, and
 `Array.prototype.splice(start, 1)`, which removes at most one element.
 Arrays are modelled as sequences; `===` on objects is equality of values
 whose identity field tells distinct objects apart.
 */
module JsArray {

  /** `indexOf`: the position of the first element equal to `x`, or -1. */
  function IndexOf<T(==)>(s: seq<T>, x: T): (i: int)
    ensures -1 <= i < |s|
    ensures i == -1 <==> x !in s
    ensures 0 <= i ==> s[i] == x && forall j :: 0 <= j < i ==> s[j] != x
  {
    if |s| == 0 then -1
    else if s[0] == x then 0
    else
      var j := IndexOf(s[1..], x);
      if j == -1 then -1 else j + 1
  }

  /**
   The position at which `splice` starts: a negative start counts from the
   end (clamped at 0), a start past the end is clamped to the length.
   */
  function SpliceStart(len: nat, start: int): (k: nat)
    ensures k <= len
    ensures 0 <= start <= len ==> k == start
    ensures -(len as int) <= start < 0 ==> k as int == len as int + start
    ensures start < -(len as int) ==> k == 0
    ensures start > len ==> k == len
  {
    if start < 0 then (if len + start < 0 then 0 else len + start)
    else if start > len then len
    else start
  }

  /** `splice(start, 1)`: removes the element at the start position, if there is one. */
  function SpliceOne<T>(s: seq<T>, start: int): (r: seq<T>)
    ensures var k := SpliceStart(|s|, start);
      if k < |s| then
        && |r| == |s| - 1
        && (forall j :: 0 <= j < k ==> r[j] == s[j])
        && (forall j :: k <= j < |r| ==> r[j] == s[j + 1])
      else r == s
  {
    var k := SpliceStart(|s|, start);
    if k < |s| then
      assert s == s[..k] + [s[k]] + s[k + 1..];
      s[..k] + s[k + 1..]
    else s
  }

  /**
   `splice(indexOf(x), 1)` on an array that holds `x` removes exactly the
   first occurrence of `x`, keeps the order of the rest, and leaves no `x`
   behind exactly when `x` occurred once.
   */
  lemma RemoveFirstOccurrence<T>(s: seq<T>, x: T)
    requires x in s
    ensures var i, r := IndexOf(s, x), SpliceOne(s, IndexOf(s, x));
      && 0 <= i < |s|
      && |r| == |s| - 1
      && r == s[..i] + s[i + 1..]
      && multiset(r) == multiset(s) - multiset{x}
      && (x !in r <==> multiset(s)[x] == 1)
  {
    var i := IndexOf(s, x);
    var before, after := s[..i], s[i + 1..];
    assert s == before + [x] + after;
    assert SpliceOne(s, i) == before + after;
    assert multiset(s) == multiset(before) + multiset{x} + multiset(after);
    assert multiset(before + after) == multiset(before) + multiset(after);
  }

  /**
   When `x` is absent, `indexOf` gives -1 and `splice(-1, 1)` removes the
   last element instead: the case the registry's removal never meets.
   */
  lemma SpliceOfAbsentDropsLast<T>(s: seq<T>, x: T)
    requires x !in s && |s| > 0
    ensures SpliceOne(s, IndexOf(s, x)) == s[..|s| - 1]
  {
  }

  /** Appending an element not yet present puts its first occurrence at the old length. */
  lemma IndexOfAppended<T>(s: seq<T>, x: T)
    requires x !in s
    ensures IndexOf(s + [x], x) == |s|
  {
    assert (s + [x])[..|s|] == s;
  }
}
