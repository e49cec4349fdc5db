/** Sequence helpers shared by the downloader and the manager. */
module Seqs {

  predicate Distinct<T(==)>(xs: seq<T>) {
    forall i, j :: 0 <= i < j < |xs| ==> xs[i] != xs[j]
  }

  /** The elements of `xs` that are not in `taken`, in order, each kept only at its
      first occurrence: what a loop produces that skips an element already present
      and records every element it keeps. */
  function Fresh<T(==)>(xs: seq<T>, taken: set<T>): seq<T>
  {
    if xs == [] then []
    else if xs[0] in taken then Fresh(xs[1..], taken)
    else [xs[0]] + Fresh(xs[1..], taken + {xs[0]})
  }

  /** `Fresh` keeps exactly the elements of `xs` outside `taken`, without repeats. */
  lemma {:induction false} FreshSpec<T>(xs: seq<T>, taken: set<T>)
    ensures Distinct(Fresh(xs, taken))
    ensures forall x :: x in Fresh(xs, taken) <==> x in xs && x !in taken
  {
    if xs != [] {
      var x := xs[0];
      assert xs == [x] + xs[1..];
      if x in taken {
        FreshSpec(xs[1..], taken);
      } else {
        FreshSpec(xs[1..], taken + {x});
        var rest := Fresh(xs[1..], taken + {x});
        assert Fresh(xs, taken) == [x] + rest;
        assert x !in rest;
      }
    }
  }


  /** Regrouping a log written as a prefix, one record, a middle part and one
      more record. */
  lemma Bracketed<T>(prefix: seq<T>, first: T, middle: seq<T>, last: T)
    ensures prefix + [first] + middle + [last] == prefix + ([first] + middle + [last])
  {
  }

  /** Appending two parts in turn appends their concatenation. */
  lemma AppendTwice<T>(prefix: seq<T>, a: seq<T>, b: seq<T>)
    ensures prefix + a + b == prefix + (a + b)
  {
  }

  /** Appending an element not yet present keeps a sequence free of repeats. */
  lemma DistinctSnoc<T>(xs: seq<T>, x: T)
    requires Distinct(xs) && x !in xs
    ensures Distinct(xs + [x])
  {
  }
}
