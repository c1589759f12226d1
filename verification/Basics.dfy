/**
 * Notions every part of the model uses.
 */
module Basics {

  datatype Option<T> = None | Some(value: T)

  /** No element occurs twice. */
  ghost predicate NoDup<T>(s: seq<T>) {
    forall i, j :: 0 <= i < j < |s| ==> s[i] != s[j]
  }

  function Min(a: nat, b: nat): nat { if a < b then a else b }

  function Max(a: nat, b: nat): nat { if a < b then b else a }

  /** The numbers `l .. r`. */
  ghost function Range(l: nat, r: nat): (s: set<nat>)
    requires l <= r
    ensures forall p :: p in s <==> l <= p < r
    ensures |s| == r - l
    decreases r - l
  {
    if l == r then {} else
      var s := Range(l, r - 1);
      assert r - 1 !in s;
      s + {r - 1}
  }
}
