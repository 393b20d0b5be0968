/** The LINQ set operation the handlers use to compare id lists. */
module Linq {

  /** The ids a list mentions, forgetting order and repetition. */
  function Elements(s: seq<int>): set<int> {
    set x | x in s
  }

  /**
   * `first.Except(second)`: every id of `first` that is not in `second`,
   * each once, in the order of its first occurrence in `first`.
   */
  function Except(first: seq<int>, second: set<int>): (r: seq<int>)
    ensures forall x :: x in r <==> x in first && x !in second
    ensures forall i, j :: 0 <= i < j < |r| ==> r[i] != r[j]
    decreases |first|
  {
    if first == [] then []
    else
      var prefix := first[..|first| - 1];
      var earlier := Except(prefix, second);
      var x := first[|first| - 1];
      if x in second || x in earlier then earlier else earlier + [x]
  }

  /** The ids `Except` keeps come in the order of their first occurrence in `first`. */
  lemma {:induction false} ExceptOrder(first: seq<int>, second: set<int>)
    ensures forall i, j :: 0 <= i < j < |Except(first, second)| ==>
              FirstIndex(first, Except(first, second)[i]) < FirstIndex(first, Except(first, second)[j])
    decreases |first|
  {
    if first != [] {
      var prefix := first[..|first| - 1];
      var earlier := Except(prefix, second);
      var x := first[|first| - 1];
      ExceptOrder(prefix, second);
      FirstIndexesPrefix(first, earlier);
      var r := Except(first, second);
      if !(x in second || x in earlier) {
        assert x !in prefix && x in first;
        FirstIndexLast(first);
      }
      forall i, j | 0 <= i < j < |r|
        ensures FirstIndex(first, r[i]) < FirstIndex(first, r[j])
      {
        assert r[i] == earlier[i] && earlier[i] in earlier;
        if j < |earlier| {
          assert r[j] == earlier[j] && earlier[j] in earlier;
          assert FirstIndex(prefix, earlier[i]) < FirstIndex(prefix, earlier[j]);
        } else {
          assert r[j] == x;
        }
      }
    }
  }

  /** Where `x` first occurs in `s`. */
  function FirstIndex(s: seq<int>, x: int): (r: nat)
    requires x in s
    ensures r < |s| && s[r] == x
    ensures forall k :: 0 <= k < r ==> s[k] != x
  {
    if s[0] == x then 0 else 1 + FirstIndex(s[1..], x)
  }

  /** An id of a prefix first occurs in the whole list where it first occurs in the prefix. */
  lemma FirstIndexPrefix(s: seq<int>, n: nat, x: int)
    requires n <= |s| && x in s[..n]
    ensures FirstIndex(s, x) == FirstIndex(s[..n], x)
  {
    var a, b := FirstIndex(s, x), FirstIndex(s[..n], x);
    assert forall k :: 0 <= k < n ==> s[..n][k] == s[k];
  }

  /** The same, for every id of a list drawn from the prefix without its last element. */
  lemma FirstIndexesPrefix(s: seq<int>, ids: seq<int>)
    requires s != [] && forall y :: y in ids ==> y in s[..|s| - 1]
    ensures forall y :: y in ids ==> y in s && FirstIndex(s, y) == FirstIndex(s[..|s| - 1], y) < |s| - 1
  {
    forall y | y in ids
      ensures y in s && FirstIndex(s, y) == FirstIndex(s[..|s| - 1], y) < |s| - 1
    {
      var k :| 0 <= k < |s| - 1 && s[..|s| - 1][k] == y;
      assert s[k] == y;
      FirstIndexPrefix(s, |s| - 1, y);
    }
  }

  /** The last element, when it occurs nowhere before, first occurs last. */
  lemma FirstIndexLast(s: seq<int>)
    requires s != [] && s[|s| - 1] !in s[..|s| - 1]
    ensures FirstIndex(s, s[|s| - 1]) == |s| - 1
  {
    var a := FirstIndex(s, s[|s| - 1]);
    assert forall k :: 0 <= k < |s| - 1 ==> s[..|s| - 1][k] == s[k];
  }

  /** Nothing is left over exactly when every id of `first` is in `second`. */
  lemma ExceptEmpty(first: seq<int>, second: set<int>)
    ensures Except(first, second) == [] <==> Elements(first) <= second
  {
    if Except(first, second) != [] {
      var x := Except(first, second)[0];
      assert x in first && x !in second;
    }
  }
}
