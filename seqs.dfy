/**
 * Sequence helpers shared by the page analysis: the list comprehension
 * `[pick(x) for x in xs if keep(x)]`, the first match of a `find`, and the
 * set of elements of a sequence.
 */
module Seqs {
  import opened Wrappers

  /** `[pick(x) for x in xs if keep(x)]`, in the order of `xs`. */
  function Select<X(!new), T(!new)>(xs: seq<X>, keep: X -> bool, pick: X -> T): (r: seq<T>)
    ensures |r| <= |xs|
    decreases |xs|
  {
    if xs == [] then []
    else (if keep(xs[0]) then [pick(xs[0])] else []) + Select(xs[1..], keep, pick)
  }

  /** The selection holds exactly the picked values of the kept elements. */
  lemma {:induction false} SelectMembers<X(!new), T(!new)>(xs: seq<X>, keep: X -> bool, pick: X -> T)
    ensures forall y :: y in Select(xs, keep, pick) <==> exists x :: x in xs && keep(x) && pick(x) == y
    decreases |xs|
  {
    if xs != [] {
      SelectMembers(xs[1..], keep, pick);
      assert forall x :: x in xs[1..] ==> x in xs;
      assert forall x :: x in xs ==> x == xs[0] || x in xs[1..];
    }
  }

  /** Selection follows document order: it distributes over concatenation. */
  lemma {:induction false} SelectAppend<X(!new), T(!new)>(a: seq<X>, b: seq<X>, keep: X -> bool, pick: X -> T)
    ensures Select(a + b, keep, pick) == Select(a, keep, pick) + Select(b, keep, pick)
    decreases |a|
  {
    if a == [] {
      assert a + b == b;
    } else {
      var head := if keep(a[0]) then [pick(a[0])] else [];
      assert (a + b)[0] == a[0];
      assert (a + b)[1..] == a[1..] + b;
      SelectAppend(a[1..], b, keep, pick);
      calc {
        Select(a + b, keep, pick);
        head + Select(a[1..] + b, keep, pick);
        head + (Select(a[1..], keep, pick) + Select(b, keep, pick));
        Select(a, keep, pick) + Select(b, keep, pick);
      }
    }
  }

  /** Selection of a single element: the element's value when kept, nothing otherwise. */
  lemma SelectOne<X(!new), T(!new)>(x: X, keep: X -> bool, pick: X -> T)
    ensures Select([x], keep, pick) == if keep(x) then [pick(x)] else []
  {
    assert [x][1..] == [];
  }

  /** Number of elements of `xs` that satisfy `keep`. */
  function Count<X>(xs: seq<X>, keep: X -> bool): (n: nat)
    ensures n <= |xs|
    ensures n == 0 <==> forall x :: x in xs ==> !keep(x)
    decreases |xs|
  {
    if xs == [] then 0
    else
      assert forall x :: x in xs ==> x == xs[0] || x in xs[1..];
      (if keep(xs[0]) then 1 else 0) + Count(xs[1..], keep)
  }

  /** Selecting with `keep` yields exactly one value per element that satisfies `keep`. */
  lemma {:induction false} SelectLength<X(!new), T(!new)>(xs: seq<X>, keep: X -> bool, pick: X -> T)
    ensures |Select(xs, keep, pick)| == Count(xs, keep)
    decreases |xs|
  {
    if xs != [] {
      SelectLength(xs[1..], keep, pick);
    }
  }

  /** The index of the first element satisfying `keep`, as `soup.find` picks the first match. */
  function FindFirst<X>(xs: seq<X>, keep: X -> bool): (r: Option<nat>)
    ensures r.Some? ==> r.value < |xs| && keep(xs[r.value])
    ensures r.Some? ==> forall j :: 0 <= j < r.value ==> !keep(xs[j])
    ensures r.None? <==> forall j :: 0 <= j < |xs| ==> !keep(xs[j])
    decreases |xs|
  {
    if xs == [] then None
    else if keep(xs[0]) then Some(0)
    else match FindFirst(xs[1..], keep)
      case None =>
        assert forall j :: 1 <= j < |xs| ==> xs[j] == xs[1..][j - 1];
        None
      case Some(i) =>
        assert forall j :: 1 <= j <= i + 1 ==> xs[j] == xs[1..][j - 1];
        Some(i + 1)
  }

  /** `i` is the position of the first element of `xs` satisfying `keep`. */
  ghost predicate IsFirst<X>(xs: seq<X>, i: int, keep: X -> bool)
  {
    0 <= i < |xs| && keep(xs[i]) && forall j :: 0 <= j < i ==> !keep(xs[j])
  }

  /** The set of the elements of a sequence. */
  ghost function Elems<X>(xs: seq<X>): set<X>
  {
    set x | x in xs
  }

  /** No element occurs twice. */
  ghost predicate Distinct<X>(xs: seq<X>)
  {
    forall i, j :: 0 <= i < j < |xs| ==> xs[i] != xs[j]
  }

  /** A sequence without repetitions has as many distinct elements as positions. */
  lemma {:induction false} DistinctCard<X>(xs: seq<X>)
    requires Distinct(xs)
    ensures |Elems(xs)| == |xs|
    decreases |xs|
  {
    if xs != [] {
      var n := |xs| - 1;
      var init := xs[..n];
      assert Distinct(init);
      DistinctCard(init);
      assert xs == init + [xs[n]];
      assert xs[n] !in init by {
        forall i | 0 <= i < n ensures init[i] != xs[n] {
          assert init[i] == xs[i];
        }
      }
      assert Elems(xs) == Elems(init) + {xs[n]};
    }
  }
}
