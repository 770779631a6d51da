/** Sequence helpers for the array library calls the tree component relies on
    (`reverse`, `indexOf`, `find`). */
module Seqs {

  import opened Wrappers

  /** `s` read back to front. */
  function Reverse<T>(s: seq<T>): (r: seq<T>)
    ensures |r| == |s|
    ensures forall i :: 0 <= i < |s| ==> r[i] == s[|s| - 1 - i]
  {
    seq(|s|, i requires 0 <= i < |s| => s[|s| - 1 - i])
  }

  /** Dropping the first `n` entries of a reversed sequence is reversing
      all but the last `n` entries of the original. */
  lemma ReverseDrop<T>(s: seq<T>, n: nat)
    requires n <= |s|
    ensures Reverse(s)[n..] == Reverse(s[..|s| - n])
  {
    var r, t := Reverse(s), s[..|s| - n];
    var a, b := r[n..], Reverse(t);
    assert |a| == |b| == |s| - n;
    forall i | 0 <= i < |a| ensures a[i] == b[i] {
      calc {
        a[i];
        r[n + i];
        s[|s| - 1 - (n + i)];
        t[|t| - 1 - i];
        b[i];
      }
    }
  }

  /** JavaScript's `indexOf`: the first position of `x`, or -1. */
  function IndexOf<T(==)>(s: seq<T>, x: T): (r: int)
    ensures -1 <= r < |s|
    ensures r >= 0 ==> s[r] == x && forall j :: 0 <= j < r ==> s[j] != x
    ensures r == -1 <==> x !in s
  {
    if s == [] then -1
    else if s[0] == x then 0
    else
      var k := IndexOf(s[1..], x);
      if k == -1 then -1 else k + 1
  }

  /** The position of the first entry satisfying `p`, or -1. */
  function FirstIndex<T>(s: seq<T>, p: T -> bool): (r: int)
    ensures -1 <= r < |s|
    ensures r >= 0 ==> p(s[r])
    ensures forall j :: 0 <= j < |s| && (r == -1 || j < r) ==> !p(s[j])
  {
    if s == [] then -1
    else if p(s[0]) then 0
    else
      var k := FirstIndex(s[1..], p);
      if k == -1 then -1 else k + 1
  }

  /** JavaScript's `find`: the first entry satisfying `p`, if any. */
  function Find<T>(s: seq<T>, p: T -> bool): (r: Option<T>)
    ensures r.None? <==> forall j :: 0 <= j < |s| ==> !p(s[j])
    ensures r.Some? ==> exists i :: 0 <= i < |s| && s[i] == r.value && p(s[i]) &&
                                    forall j :: 0 <= j < i ==> !p(s[j])
  {
    var i := FirstIndex(s, p);
    if i == -1 then None else Some(s[i])
  }

  /** No value occurs twice. */
  ghost predicate Distinct<T>(s: seq<T>) {
    forall i, j :: 0 <= i < j < |s| ==> s[i] != s[j]
  }
}
