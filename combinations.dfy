/** `iterable_combinations_all()`: the power set of the input's pairs. The
    source is read once into a list of pairs; each subset keeps the original
    keys, values and relative order, and the subsets are keyed 0, 1, ... */
module Combinations {
  import opened PhpArray

  function Pow2(n: nat): (r: nat)
    ensures r >= 1
  {
    if n == 0 then 1 else 2 * Pow2(n - 1)
  }

  /** The subsets of the first n-1 items, followed by each of them with the
      n-th item added: for [a, b] this is [], [a], [b], [a, b]. */
  function PowerSet<T>(xs: seq<T>): (ps: seq<seq<T>>)
    ensures |ps| == Pow2(|xs|)
    decreases |xs|
  {
    if xs == [] then [[]]
    else
      var prev := PowerSet(xs[..|xs| - 1]);
      prev + seq(|prev|, i requires 0 <= i < |prev| => prev[i] + [xs[|xs| - 1]])
  }

  /** The items whose flag is set, in their original order. */
  function Select<T>(xs: seq<T>, keep: seq<bool>): seq<T>
    requires |keep| == |xs|
    decreases |xs|
  {
    if xs == [] then []
    else
      var init := Select(xs[..|xs| - 1], keep[..|keep| - 1]);
      if keep[|keep| - 1] then init + [xs[|xs| - 1]] else init
  }

  /** `iterable_combinations_all()` applied to a source. */
  function CombinationsAll<V>(a: seq<(Key, V)>): (r: seq<(Key, seq<(Key, V)>)>)
    ensures IsList(r) && |r| == Pow2(|a|)
  {
    List(PowerSet(a))
  }

  /** Every subset is a selection of the items, so it keeps their keys,
      values and relative order. */
  lemma {:induction false} PowerSetSound<T>(xs: seq<T>, m: nat)
    requires m < |PowerSet(xs)|
    ensures exists keep :: |keep| == |xs| && PowerSet(xs)[m] == Select(xs, keep)
    decreases |xs|
  {
    if xs != [] {
      var init := xs[..|xs| - 1];
      var prev := PowerSet(init);
      if m < |prev| {
        PowerSetSound(init, m);
        var keep :| |keep| == |init| && prev[m] == Select(init, keep);
        var keep' := keep + [false];
        assert keep'[..|keep'| - 1] == keep;
        assert PowerSet(xs)[m] == Select(xs, keep');
      } else {
        PowerSetSound(init, m - |prev|);
        var keep :| |keep| == |init| && prev[m - |prev|] == Select(init, keep);
        var keep' := keep + [true];
        assert keep'[..|keep'| - 1] == keep;
        assert PowerSet(xs)[m] == Select(xs, keep');
      }
    }
  }

  /** Every selection of the items is among the subsets. */
  lemma {:induction false} PowerSetComplete<T>(xs: seq<T>, keep: seq<bool>)
    requires |keep| == |xs|
    ensures Select(xs, keep) in PowerSet(xs)
    decreases |xs|
  {
    if xs != [] {
      var init := xs[..|xs| - 1];
      var prev := PowerSet(init);
      PowerSetComplete(init, keep[..|keep| - 1]);
      var i :| 0 <= i < |prev| && prev[i] == Select(init, keep[..|keep| - 1]);
      if keep[|keep| - 1] {
        assert PowerSet(xs)[|prev| + i] == Select(xs, keep);
      } else {
        assert PowerSet(xs)[i] == Select(xs, keep);
      }
    }
  }

  /** A selection only holds items of the input. */
  lemma {:induction false} SelectFrom<T>(xs: seq<T>, keep: seq<bool>)
    requires |keep| == |xs|
    ensures forall y :: y in Select(xs, keep) ==> y in xs
    decreases |xs|
  {
    if xs != [] {
      SelectFrom(xs[..|xs| - 1], keep[..|keep| - 1]);
    }
  }

  /** When the input holds no item twice (a real array never repeats a key),
      no subset is produced twice. */
  lemma {:induction false} PowerSetDistinct<T>(xs: seq<T>)
    requires Distinct(xs)
    ensures Distinct(PowerSet(xs))
    decreases |xs|
  {
    if xs != [] {
      var init := xs[..|xs| - 1];
      var x := xs[|xs| - 1];
      var prev := PowerSet(init);
      PowerSetDistinct(init);
      var ps := PowerSet(xs);
      forall i, j | 0 <= i < j < |ps| ensures ps[i] != ps[j] {
        if j >= |prev| && i < |prev| {
          PowerSetSound(init, i);
          var keep :| |keep| == |init| && prev[i] == Select(init, keep);
          SelectFrom(init, keep);
          assert x !in init;
          assert ps[j][|ps[j]| - 1] == x;
          assert x !in prev[i];
        } else if i >= |prev| {
          assert ps[i] == prev[i - |prev|] + [x] && ps[j] == prev[j - |prev|] + [x];
          assert ps[i][..|ps[i]| - 1] == prev[i - |prev|];
          assert ps[j][..|ps[j]| - 1] == prev[j - |prev|];
        }
      }
    }
  }

  /** The empty subset comes first and the whole input last. */
  lemma {:induction false} PowerSetEnds<T>(xs: seq<T>)
    ensures PowerSet(xs)[0] == []
    ensures PowerSet(xs)[|PowerSet(xs)| - 1] == xs
    decreases |xs|
  {
    if xs != [] {
      var init := xs[..|xs| - 1];
      PowerSetEnds(init);
      var prev := PowerSet(init);
      assert PowerSet(xs)[|PowerSet(xs)| - 1] == prev[|prev| - 1] + [xs[|xs| - 1]];
      assert init + [xs[|xs| - 1]] == xs;
    }
  }

  /** Two pairs give [], {first}, {second}, {both}, in that order. */
  lemma TwoItems<V>(p: (Key, V), q: (Key, V))
    ensures PowerSet([p, q]) == [[], [p], [q], [p, q]]
  {
    var none: seq<(Key, V)> := [];
    assert [p][..0] == none;
    assert PowerSet(none) == [[]];
    var one := PowerSet([p]);
    assert |one| == 2 && one[0] == none && one[1] == none + [p];
    assert none + [p] == [p];
    assert one == [[], [p]];
    assert [p, q][..1] == [p];
    var two := PowerSet([p, q]);
    assert |two| == 4 && two[0] == none && two[1] == [p] && two[2] == none + [q] && two[3] == [p] + [q];
    assert none + [q] == [q] && [p] + [q] == [p, q];
  }
}
