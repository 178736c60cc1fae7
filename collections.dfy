/** Sequences viewed as Python lists, and the sets Python builds from them. */
module Collections {

  /** No element occurs twice. */
  ghost predicate NoDuplicates<T>(xs: seq<T>) {
    forall i, j :: 0 <= i < j < |xs| ==> xs[i] != xs[j]
  }

  /** `set(xs)` */
  function ToSet<T(!new)>(xs: seq<T>): (s: set<T>)
    ensures forall x :: x in s <==> x in xs
  {
    set x | x in xs
  }

  /** `len(set(xs)) <= len(xs)`, with equality exactly when `xs` has no duplicates. */
  lemma {:induction false} ToSetCardinality<T(!new)>(xs: seq<T>)
    ensures |ToSet(xs)| <= |xs|
    ensures |ToSet(xs)| == |xs| <==> NoDuplicates(xs)
  {
    if xs != [] {
      var rest := xs[1..];
      ToSetCardinality(rest);
      assert ToSet(xs) == {xs[0]} + ToSet(rest);
      if xs[0] in rest {
        assert ToSet(xs) == ToSet(rest);
        var j :| 0 <= j < |rest| && rest[j] == xs[0];
        assert xs[0] == xs[j + 1];
      } else {
        assert |ToSet(xs)| == |ToSet(rest)| + 1;
        if NoDuplicates(rest) {
          forall i, j | 0 <= i < j < |xs| ensures xs[i] != xs[j] {
            if i == 0 {
              assert xs[j] == rest[j - 1];
            } else {
              assert xs[i] == rest[i - 1] && xs[j] == rest[j - 1];
            }
          }
        } else {
          var i, j :| 0 <= i < j < |rest| && rest[i] == rest[j];
          assert xs[i + 1] == xs[j + 1];
        }
      }
    }
  }

  /**
   * `list(set(xs))`: every element once. Python leaves the order to the
   * hash table; here an element stays where it first occurs.
   */
  function Dedup<T(==,!new)>(xs: seq<T>): (ys: seq<T>)
    ensures NoDuplicates(ys)
    ensures forall x :: x in ys <==> x in xs
  {
    if xs == [] then []
    else
      var rest := Dedup(xs[..|xs| - 1]);
      var x := xs[|xs| - 1];
      assert xs == xs[..|xs| - 1] + [x];
      if x in rest then rest else rest + [x]
  }

  /** A sequence without elements is the empty one. */
  lemma NoElementMeansEmpty<T>(xs: seq<T>)
    ensures (forall x :: x !in xs) ==> xs == []
  {
    if xs != [] {
      assert xs[0] in xs;
    }
  }

  /** A sequence without duplicates has as many elements as the set of its elements. */
  lemma DistinctCount<T(!new)>(xs: seq<T>, s: set<T>)
    requires NoDuplicates(xs)
    requires forall x :: x in xs <==> x in s
    ensures |xs| == |s|
  {
    ToSetCardinality(xs);
    assert ToSet(xs) == s;
  }
}
