/** Sequence helpers shared by the graph model: first-seen de-duplication, which is
    what `Array.from(new Set(xs))` computes in JavaScript, and the facts about it. */
module Sequences {

  /** No element occurs twice. */
  predicate NoDuplicates<T(==)>(s: seq<T>) {
    forall i, j :: 0 <= i < j < |s| ==> s[i] != s[j]
  }

  /** Position of the first occurrence of `x` in `xs`. */
  function FirstIndex<T(==)>(xs: seq<T>, x: T): (k: nat)
    requires x in xs
    ensures k < |xs| && xs[k] == x
    ensures forall j :: 0 <= j < k ==> xs[j] != x
  {
    if xs[0] == x then 0 else 1 + FirstIndex(xs[1..], x)
  }

  /** Appending an element does not move the first occurrence of anything already present,
      and a new element is first seen at the end. */
  lemma FirstIndexAppend<T>(xs: seq<T>, y: T, x: T)
    requires x in xs + [y]
    ensures x in xs ==> FirstIndex(xs + [y], x) == FirstIndex(xs, x)
    ensures x !in xs ==> FirstIndex(xs + [y], x) == |xs|
  {
    var k := FirstIndex(xs + [y], x);
    if x in xs {
      var k' := FirstIndex(xs, x);
      assert (xs + [y])[k'] == x;
    }
  }

  /** Elements of `xs` in first-seen order with later repeats dropped: the iteration order of
      a JavaScript `Set` filled from `xs`. Defined as the fold that adds one element at a time;
      it holds exactly the elements of `xs` (its order and uniqueness: `DistinctIsFirstSeen`). */
  function Distinct<T(==,!new)>(xs: seq<T>): (r: seq<T>)
    ensures forall x :: x in r <==> x in xs
    decreases |xs|
  {
    if xs == [] then []
    else
      var d := Distinct(xs[..|xs| - 1]);
      assert forall x :: x in xs <==> x in xs[..|xs| - 1] || x == xs[|xs| - 1] by {
        assert xs == xs[..|xs| - 1] + [xs[|xs| - 1]];
      }
      if xs[|xs| - 1] in d then d else d + [xs[|xs| - 1]]
  }

  /** `Distinct(xs)` lists each element once, in the order of first occurrence in `xs`. */
  lemma {:induction false} DistinctIsFirstSeen<T(!new)>(xs: seq<T>)
    ensures NoDuplicates(Distinct(xs))
    ensures forall i, j :: 0 <= i < j < |Distinct(xs)| ==>
      FirstIndex(xs, Distinct(xs)[i]) < FirstIndex(xs, Distinct(xs)[j])
    decreases |xs|
  {
    if xs != [] {
      var init, last := xs[..|xs| - 1], xs[|xs| - 1];
      assert xs == init + [last];
      DistinctIsFirstSeen(init);
      var d := Distinct(init);
      FirstIndexAllAppend(init, last, d);
    }
  }

  /** Helper for Distinct: every element of `d` (drawn from `init`) keeps its first index
      when `last` is appended. */
  lemma FirstIndexAllAppend<T>(init: seq<T>, last: T, d: seq<T>)
    requires forall x :: x in d ==> x in init
    ensures forall x :: x in d ==> FirstIndex(init + [last], x) == FirstIndex(init, x)
    ensures last !in init ==> FirstIndex(init + [last], last) == |init|
  {
    forall x | x in d
      ensures FirstIndex(init + [last], x) == FirstIndex(init, x)
    {
      FirstIndexAppend(init, last, x);
    }
    if last !in init {
      FirstIndexAppend(init, last, last);
    }
  }

  /** Adding one element to the source of a set adds it to the end unless it is already
      there: the behaviour of `Set.prototype.add`. */
  lemma DistinctSnoc<T(!new)>(xs: seq<T>, x: T)
    ensures Distinct(xs + [x]) == if x in Distinct(xs) then Distinct(xs) else Distinct(xs) + [x]
  {
    assert (xs + [x])[..|xs + [x]| - 1] == xs;
  }
}
