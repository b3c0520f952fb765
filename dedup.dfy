/** The ordered de-duplication `[...new Set(urlMatch)]` (src/index.ts:122).
    A JavaScript `Set` ignores a value it already holds and iterates in
    insertion order, so spreading it keeps the first occurrence of every
    value, in the order of first occurrence. */
module Dedup {

  /** The reference definition: walk the input, appending a value the first
      time it is seen. */
  function Unique<T(==)>(xs: seq<T>): (u: seq<T>)
    decreases |xs|
  {
    if xs == [] then []
    else
      var d := Unique(xs[..|xs| - 1]);
      if xs[|xs| - 1] in d then d else d + [xs[|xs| - 1]]
  }

  predicate NoDuplicates<T(==)>(u: seq<T>)
  {
    forall a, b :: 0 <= a < b < |u| ==> u[a] != u[b]
  }

  /** The index of the first occurrence of `x` in `xs`. */
  function FirstIndex<T(==)>(xs: seq<T>, x: T): (k: nat)
    requires x in xs
    ensures k < |xs| && xs[k] == x
    ensures forall j :: 0 <= j < k ==> xs[j] != x
  {
    if xs[0] == x then 0 else 1 + FirstIndex(xs[1..], x)
  }

  lemma {:induction false} UniqueHasSameElements<T>(xs: seq<T>)
    ensures forall x :: x in Unique(xs) <==> x in xs
  {
    if xs != [] {
      var init := xs[..|xs| - 1];
      UniqueHasSameElements(init);
      assert xs == init + [xs[|xs| - 1]];
    }
  }

  lemma {:induction false} UniqueHasNoDuplicates<T>(xs: seq<T>)
    ensures NoDuplicates(Unique(xs))
  {
    if xs != [] {
      UniqueHasNoDuplicates(xs[..|xs| - 1]);
    }
  }

  /** The first occurrence of a value in a prefix is its first occurrence
      in the whole sequence. */
  lemma {:induction false} FirstIndexInPrefix<T>(xs: seq<T>, n: nat, x: T)
    requires n <= |xs| && x in xs[..n]
    ensures x in xs && FirstIndex(xs, x) == FirstIndex(xs[..n], x)
  {
    assert xs[..n][0] == xs[0];
    if xs[0] != x {
      assert xs[1..][..n - 1] == xs[..n][1..];
      FirstIndexInPrefix(xs[1..], n - 1, x);
    }
  }

  /** Values appear in the order of their first occurrence in the input. */
  lemma {:induction false} UniqueFollowsFirstOccurrence<T>(xs: seq<T>)
    ensures forall x :: x in Unique(xs) ==> x in xs
    ensures forall a, b :: 0 <= a < b < |Unique(xs)|
              ==> FirstIndex(xs, Unique(xs)[a]) < FirstIndex(xs, Unique(xs)[b])
  {
    UniqueHasSameElements(xs);
    if xs != [] {
      var init := xs[..|xs| - 1];
      var last := xs[|xs| - 1];
      var d := Unique(init);
      UniqueFollowsFirstOccurrence(init);
      UniqueHasSameElements(init);
      var u := Unique(xs);
      forall a, b | 0 <= a < b < |u|
        ensures FirstIndex(xs, u[a]) < FirstIndex(xs, u[b])
      {
        FirstIndexInPrefix(xs, |xs| - 1, u[a]);
        if b < |d| {
          FirstIndexInPrefix(xs, |xs| - 1, u[b]);
        } else {
          assert u[b] == last && last !in init;
        }
      }
    }
  }

  /** The `Set` construction followed by the spread: insertion into `seen`
      ignores values already present, and `order` is the iteration order. */
  method UniqueInOrder<T(==)>(xs: seq<T>) returns (order: seq<T>)
    ensures order == Unique(xs)
  {
    var seen: set<T> := {};
    order := [];
    for i := 0 to |xs|
      invariant order == Unique(xs[..i])
      invariant forall x :: x in seen <==> x in order
    {
      if xs[i] !in seen {
        seen := seen + {xs[i]};
        order := order + [xs[i]];
      }
      assert xs[..i + 1][..i] == xs[..i];
    }
    assert xs[..|xs|] == xs;
  }
}
