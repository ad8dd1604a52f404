/**
 * Order-preserving duplicate removal. `AppendNew` is the membership-guarded
 * append loop that merges one name list into another; `Unique` is what the
 * pandas `unique()` call on a column yields: the distinct values in order of
 * first appearance.
 */
module Dedup {

  predicate NoDuplicates<T(==)>(s: seq<T>) {
    forall i, j :: 0 <= i < j < |s| ==> s[i] != s[j]
  }

  /** Position of the first occurrence of x in xs. */
  function IndexOf<T(==)>(xs: seq<T>, x: T): (i: nat)
    requires x in xs
    ensures i < |xs| && xs[i] == x && x !in xs[..i]
  {
    if xs[0] == x then 0 else 1 + IndexOf(xs[1..], x)
  }

  /**
   * Appends to acc, in order, every element of xs that is not already
   * present, so that each element is added at most once.
   */
  function AppendNew<T(==)>(acc: seq<T>, xs: seq<T>): (r: seq<T>)
    ensures acc <= r
    ensures forall i :: 0 <= i < |xs| ==> xs[i] in r
    ensures forall i :: |acc| <= i < |r| ==> r[i] !in acc && r[i] in xs
    ensures NoDuplicates(acc) ==> NoDuplicates(r)
    decreases xs
  {
    if xs == [] then acc
    else if xs[0] in acc then AppendNew(acc, xs[1..])
    else
      var r := AppendNew(acc + [xs[0]], xs[1..]);
      assert r[|acc|] == xs[0];
      r
  }

  /** The distinct elements of xs, in order of first appearance. */
  function Unique<T(==)>(xs: seq<T>): (r: seq<T>)
    ensures NoDuplicates(r)
    ensures forall i :: 0 <= i < |xs| ==> xs[i] in r
    ensures forall i :: 0 <= i < |r| ==> r[i] in xs
  {
    AppendNew([], xs)
  }

  /**
   * The elements AppendNew adds come in the order of their first appearance
   * in xs.
   */
  lemma {:induction false} AppendNewFirstOccurrenceOrder<T>(acc: seq<T>, xs: seq<T>)
    ensures var r := AppendNew(acc, xs);
      forall i, j :: |acc| <= i < j < |r| ==> IndexOf(xs, r[i]) < IndexOf(xs, r[j])
    decreases xs
  {
    var r := AppendNew(acc, xs);
    if xs == [] {
    } else if xs[0] in acc {
      AppendNewFirstOccurrenceOrder(acc, xs[1..]);
      assert r == AppendNew(acc, xs[1..]);
      forall i, j | |acc| <= i < j < |r|
        ensures IndexOf(xs, r[i]) < IndexOf(xs, r[j])
      {
        assert r[i] != xs[0] && r[j] != xs[0];
        assert r[i] in xs[1..] && r[j] in xs[1..];
        assert IndexOf(xs, r[i]) == 1 + IndexOf(xs[1..], r[i]);
        assert IndexOf(xs, r[j]) == 1 + IndexOf(xs[1..], r[j]);
        assert IndexOf(xs[1..], r[i]) < IndexOf(xs[1..], r[j]);
      }
    } else {
      var acc' := acc + [xs[0]];
      AppendNewFirstOccurrenceOrder(acc', xs[1..]);
      assert r == AppendNew(acc', xs[1..]);
      assert r[|acc|] == acc'[|acc|] == xs[0];
      forall i, j | |acc| <= i < j < |r|
        ensures IndexOf(xs, r[i]) < IndexOf(xs, r[j])
      {
        assert r[j] !in acc' && r[j] in xs[1..];
        assert IndexOf(xs, r[j]) == 1 + IndexOf(xs[1..], r[j]);
        if i > |acc| {
          assert r[i] !in acc' && r[i] in xs[1..];
          assert IndexOf(xs, r[i]) == 1 + IndexOf(xs[1..], r[i]);
          assert IndexOf(xs[1..], r[i]) < IndexOf(xs[1..], r[j]);
        } else {
          assert IndexOf(xs, r[i]) == 0;
        }
      }
    }
  }

  /** Every element of xs occurs in Unique(xs) exactly once, and its order follows xs. */
  lemma UniqueFirstOccurrenceOrder<T>(xs: seq<T>)
    ensures var u := Unique(xs);
      forall i, j :: 0 <= i < j < |u| ==> IndexOf(xs, u[i]) < IndexOf(xs, u[j])
  {
    var u := Unique(xs);
    assert u == AppendNew([], xs);
    AppendNewFirstOccurrenceOrder([], xs);
    forall i, j | 0 <= i < j < |u| ensures IndexOf(xs, u[i]) < IndexOf(xs, u[j]) {
    }
  }

  /** Dropping the last element keeps a list free of duplicates, and that element is not among the rest. */
  lemma NoDuplicatesDropLast<T>(s: seq<T>)
    requires NoDuplicates(s) && s != []
    ensures NoDuplicates(s[..|s| - 1]) && s[|s| - 1] !in s[..|s| - 1]
  {
  }
}
