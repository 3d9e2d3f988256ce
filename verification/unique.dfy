/** `list(set(xs))`: the deduplication both collectors end with. Python's set
    iteration order is unspecified, so only the element set and the absence
    of duplicates are promised; `Dedupe` fixes one order (last occurrences). */
module Unique {

  ghost predicate NoDups<T>(xs: seq<T>) {
    forall i, j :: 0 <= i < j < |xs| ==> xs[i] != xs[j]
  }

  ghost function Elements<T>(xs: seq<T>): set<T> {
    set x | x in xs
  }

  function Dedupe<T(==,!new)>(xs: seq<T>): (r: seq<T>)
    ensures NoDups(r)
    ensures forall x :: x in r <==> x in xs
    decreases |xs|
  {
    if |xs| == 0 then []
    else
      var rest := Dedupe(xs[1..]);
      if xs[0] in rest then rest else [xs[0]] + rest
  }

  /** A duplicate-free list has as many entries as distinct elements. */
  lemma {:induction false} NoDupsCardinality<T>(xs: seq<T>)
    requires NoDups(xs)
    ensures |Elements(xs)| == |xs|
    decreases |xs|
  {
    if |xs| > 0 {
      var tail := xs[1..];
      assert NoDups(tail) by {
        forall i, j | 0 <= i < j < |tail| ensures tail[i] != tail[j] {
          assert tail[i] == xs[i + 1] && tail[j] == xs[j + 1];
        }
      }
      NoDupsCardinality(tail);
      assert xs[0] !in Elements(tail) by {
        forall k | 0 <= k < |tail| ensures tail[k] != xs[0] {
          assert tail[k] == xs[k + 1];
        }
      }
      assert Elements(xs) == {xs[0]} + Elements(tail) by {
        assert xs == [xs[0]] + tail;
      }
    }
  }

  /** The deduplicated list has exactly one entry per distinct element. */
  lemma DedupeLength<T(!new)>(xs: seq<T>)
    ensures |Dedupe(xs)| == |Elements(xs)|
  {
    NoDupsCardinality(Dedupe(xs));
    assert Elements(Dedupe(xs)) == Elements(xs);
  }
}
