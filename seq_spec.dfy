/** Sequence specifications shared by the two linked lists: positional
    insertion and deletion, and the first and last position of an element. */
module SeqSpec {
  /** `s` with `x` placed at position `i`. */
  function Insert<T>(s: seq<T>, i: int, x: T): (r: seq<T>)
    requires 0 <= i <= |s|
    ensures |r| == |s| + 1 && r[i] == x
    ensures forall j :: 0 <= j < i ==> r[j] == s[j]
    ensures forall j :: i < j < |r| ==> r[j] == s[j - 1]
  {
    s[..i] + [x] + s[i..]
  }

  /** `s` without position `i`. */
  function Delete<T>(s: seq<T>, i: int): (r: seq<T>)
    requires 0 <= i < |s|
    ensures |r| == |s| - 1
    ensures forall j :: 0 <= j < i ==> r[j] == s[j]
    ensures forall j :: i <= j < |r| ==> r[j] == s[j + 1]
  {
    s[..i] + s[i + 1..]
  }

  /** Deleting what was just inserted gives the sequence back. */
  lemma DeleteInsert<T>(s: seq<T>, i: int, x: T)
    requires 0 <= i <= |s|
    ensures Delete(Insert(s, i, x), i) == s
  {
  }

  /** Putting back what was deleted gives the sequence back. */
  lemma InsertDelete<T>(s: seq<T>, i: int)
    requires 0 <= i < |s|
    ensures Insert(Delete(s, i), i, s[i]) == s
  {
  }

  /** The first position holding `x`, or -1. */
  function FirstIndex<T(==)>(s: seq<T>, x: T): (r: int)
    ensures -1 <= r < |s|
    ensures r == -1 <==> x !in s
    ensures r >= 0 ==> s[r] == x && x !in s[..r]
  {
    if s == [] then -1
    else if s[0] == x then 0
    else
      var r := FirstIndex(s[1..], x);
      assert s == [s[0]] + s[1..];
      if r < 0 then -1 else r + 1
  }

  /** The last position holding `x`, or -1. */
  function LastIndex<T(==)>(s: seq<T>, x: T): (r: int)
    ensures -1 <= r < |s|
    ensures r == -1 <==> x !in s
    ensures r >= 0 ==> s[r] == x && x !in s[r + 1..]
  {
    if s == [] then -1
    else if s[|s| - 1] == x then |s| - 1
    else
      assert s == s[..|s| - 1] + [s[|s| - 1]];
      LastIndex(s[..|s| - 1], x)
  }

  /** How many elements at the end of `s` equal `x`. */
  function TrailingMatches<T(==)>(s: seq<T>, x: T): (k: nat)
    ensures k <= |s|
    ensures forall j :: |s| - k <= j < |s| ==> s[j] == x
    ensures k < |s| ==> s[|s| - 1 - k] != x
  {
    if s == [] || s[|s| - 1] != x then 0
    else TrailingMatches(s[..|s| - 1], x) + 1
  }
}
