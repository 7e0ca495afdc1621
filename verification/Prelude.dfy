/** Result and option types shared by every module. */
module Prelude {
  datatype Option<+T> = None | Some(value: T)

  datatype Result<+T, +E> = Ok(value: T) | Err(error: E) {
    predicate IsFailure() { Err? }

    function PropagateFailure<U>(): Result<U, E>
      requires Err?
    {
      Err(error)
    }

    function Extract(): T
      requires Ok?
    {
      value
    }
  }

  predicate Distinct<T(==)>(s: seq<T>) { forall i, j :: 0 <= i < j < |s| ==> s[i] != s[j] }

  function Min(x: int, y: int): int { if x <= y then x else y }

  function Max(x: int, y: int): int { if x <= y then y else x }

  /** A number above all of these. */
  ghost function FreshId(ids: set<nat>): (m: nat)
    ensures forall i :: i in ids ==> i < m
  {
    if ids == {} then 0
    else
      var x :| x in ids;
      var m := FreshId(ids - {x});
      assert forall i :: i in ids ==> i == x || i in ids - {x};
      Max(x + 1, m)
  }

  function Join<T>(chunks: seq<seq<T>>): seq<T> {
    if chunks == [] then [] else Join(chunks[..|chunks| - 1]) + chunks[|chunks| - 1]
  }

  lemma {:induction false} JoinGrows<T>(chunks: seq<seq<T>>, i: nat)
    requires i <= |chunks|
    ensures |Join(chunks[..i])| <= |Join(chunks)|
  {
    if i < |chunks| {
      JoinGrows(chunks[..|chunks| - 1], i);
      assert chunks[..|chunks| - 1][..i] == chunks[..i];
    } else {
      assert chunks[..i] == chunks;
    }
  }

  /** Distinct values from a set are no more than the set. */
  lemma {:induction false} Pigeonhole<T>(s: seq<T>, from: set<T>)
    requires Distinct(s) && forall x :: x in s ==> x in from
    ensures |s| <= |from|
  {
    if s == [] {
    } else {
      var last := s[|s| - 1];
      forall x | x in s[..|s| - 1] ensures x in from - {last} {
        var i :| 0 <= i < |s| - 1 && s[..|s| - 1][i] == x;
        assert s[i] == x;
      }
      Pigeonhole(s[..|s| - 1], from - {last});
      assert from == (from - {last}) + {last};
    }
  }
}
